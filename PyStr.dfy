/** The few operations on Python `str` values that the label-name helpers and
    the shell escaper rely on: the `in` operator on strings, `str.split` with
    an explicit separator, `sep.join(pieces)` and `str.replace`.  Strings are
    sequences of characters; nothing here depends on an encoding. */
module PyStr {

  /** The outcome of a Python call that either returns a value or raises
      `ValueError` (an empty separator given to `str.split`, a string that
      `float` cannot read). */
  datatype Result<T> = Ok(value: T) | ValueError

  /** A Python argument that may be one string or a list of strings; the
      helpers promote a lone string with `if isinstance(x, str): x = [x]`. */
  datatype StrOrList = Str(s: string) | List(xs: seq<string>)

  /** The argument after promotion to a list. */
  function AsList(arg: StrOrList): seq<string>
  {
    match arg
    case Str(s) => [s]
    case List(xs) => xs
  }

  /** The occurrence of `sub` in `s` that starts at index `i`. */
  ghost predicate OccursAt(s: string, sub: string, i: nat)
  {
    i + |sub| <= |s| && s[i..i + |sub|] == sub
  }

  /** Python's `sub in s`, scanning left to right. */
  predicate Contains(s: string, sub: string)
    decreases |s|
  {
    if |sub| > |s| then false
    else if s[..|sub|] == sub then true
    else Contains(s[1..], sub)
  }

  /** `sub in s` holds exactly when `sub` occurs somewhere in `s`. */
  lemma {:induction false} ContainsIff(s: string, sub: string)
    ensures Contains(s, sub) <==> exists i: nat :: OccursAt(s, sub, i)
    decreases |s|
  {
    if |sub| > |s| {
      forall i: nat ensures !OccursAt(s, sub, i) { }
    } else if s[..|sub|] == sub {
      assert OccursAt(s, sub, 0);
    } else {
      ContainsIff(s[1..], sub);
      if exists i: nat :: OccursAt(s[1..], sub, i) {
        var i: nat :| OccursAt(s[1..], sub, i);
        assert s[1..][i..i + |sub|] == s[i + 1..i + 1 + |sub|];
        assert OccursAt(s, sub, i + 1);
      }
      if exists i: nat :: OccursAt(s, sub, i) {
        var i: nat :| OccursAt(s, sub, i);
        assert s[0..|sub|] == s[..|sub|];
        assert i > 0;
        assert s[1..][i - 1..i - 1 + |sub|] == s[i..i + |sub|];
        assert OccursAt(s[1..], sub, i - 1);
      }
    }
  }

  /** A string that contains `sub` still does once text is added on either side. */
  lemma ContainsInConcat(a: string, b: string, sub: string)
    requires Contains(a, sub)
    ensures Contains(a + b, sub) && Contains(b + a, sub)
  {
    ContainsIff(a, sub);
    var i: nat :| OccursAt(a, sub, i);
    assert (a + b)[i..i + |sub|] == a[i..i + |sub|];
    assert OccursAt(a + b, sub, i);
    assert (b + a)[|b| + i..|b| + i + |sub|] == a[i..i + |sub|];
    assert OccursAt(b + a, sub, |b| + i);
    ContainsIff(a + b, sub);
    ContainsIff(b + a, sub);
  }

  /** Every string contains the empty string, and itself. */
  lemma ContainsTrivial(s: string)
    ensures Contains(s, []) && Contains(s, s)
  {
    assert s[..0] == [];
    assert s[..|s|] == s;
  }

  /** Python's `sep.join(pieces)`; `Join(pieces, [])` is `''.join(pieces)`. */
  function Join(pieces: seq<string>, sep: string): string
  {
    if |pieces| == 0 then []
    else if |pieces| == 1 then pieces[0]
    else pieces[0] + sep + Join(pieces[1..], sep)
  }

  /** `''.join` of a list is its first piece followed by the join of the rest. */
  lemma ConcatCons(pieces: seq<string>)
    requires |pieces| > 0
    ensures Join(pieces, []) == pieces[0] + Join(pieces[1..], [])
  {
    if |pieces| == 1 {
      assert pieces[0] + [] == pieces[0];
    }
  }

  /** Python's `s.split(sep)` for a non-empty `sep`: the pieces between the
      non-overlapping occurrences of `sep`, found left to right. */
  function Split(s: string, sep: string): (pieces: seq<string>)
    requires sep != []
    ensures |pieces| >= 1
    decreases |s|
  {
    if |s| < |sep| then [s]
    else if s[..|sep|] == sep then [[]] + Split(s[|sep|..], sep)
    else
      var rest := Split(s[1..], sep);
      [[s[0]] + rest[0]] + rest[1..]
  }

  /** Python's `s.replace(target, repl)`: every non-overlapping occurrence of
      `target`, found left to right, is replaced; an empty `target` inserts
      `repl` before every character and at the end. */
  function Replace(s: string, target: string, repl: string): string
    decreases |s|
  {
    if target == [] then InsertEverywhere(s, repl)
    else if |s| < |target| then s
    else if s[..|target|] == target then repl + Replace(s[|target|..], target, repl)
    else [s[0]] + Replace(s[1..], target, repl)
  }

  /** `s.replace('', repl)`. */
  function InsertEverywhere(s: string, repl: string): (r: string)
    ensures |r| == |s| + (|s| + 1) * |repl|
  {
    if s == [] then repl
    else repl + [s[0]] + InsertEverywhere(s[1..], repl)
  }

  /** The characters of `s`, each as a one-character string. */
  function Chars(s: string): (cs: seq<string>)
    ensures |cs| == |s|
    ensures forall i :: 0 <= i < |s| ==> cs[i] == [s[i]]
  {
    seq(|s|, i requires 0 <= i < |s| => [s[i]])
  }

  /** Joining after an empty first piece puts the separator in front. */
  lemma JoinAfterEmpty(xs: seq<string>, sep: string)
    requires |xs| >= 1
    ensures Join([[]] + xs, sep) == sep + Join(xs, sep)
  {
    assert ([[]] + xs)[1..] == xs;
  }

  /** `s.replace('', r)` is `r.join(['', s[0], ..., s[-1], ''])`: `r` before
      every character and once more at the end, the characters in order. */
  lemma {:induction false} InsertEverywhereIsJoin(s: string, repl: string)
    ensures InsertEverywhere(s, repl) == Join([[]] + Chars(s) + [[]], repl)
    decreases |s|
  {
    if s == [] {
      assert [[]] + Chars(s) + [[]] == [[], []];
      assert Join([[]], repl) == [];
    } else {
      InsertEverywhereIsJoin(s[1..], repl);
      InsertEverywhereStep(s, repl);
    }
  }

  /** The join for `s` puts `r` and the first character in front of the join
      for the rest of `s`. */
  lemma InsertEverywhereStep(s: string, repl: string)
    requires s != []
    ensures Join([[]] + Chars(s) + [[]], repl) ==
            repl + [s[0]] + Join([[]] + Chars(s[1..]) + [[]], repl)
  {
    var x := Chars(s[1..]) + [[]];
    assert [[]] + Chars(s[1..]) + [[]] == [[]] + x;
    JoinAfterEmpty(x, repl);
    assert Chars(s) == [[s[0]]] + Chars(s[1..]);
    assert [[]] + Chars(s) + [[]] == [[]] + ([[s[0]]] + x);
    JoinAfterEmpty([[s[0]]] + x, repl);
    assert ([[s[0]]] + x)[1..] == x;
    assert Join([[s[0]]] + x, repl) == [s[0]] + repl + Join(x, repl);
  }

  /** Replace-all is split-then-join: `s.replace(t, r) == r.join(s.split(t))`. */
  lemma {:induction false} ReplaceIsJoinOfSplit(s: string, target: string, repl: string)
    requires target != []
    ensures Replace(s, target, repl) == Join(Split(s, target), repl)
    decreases |s|
  {
    if |s| < |target| {
    } else if s[..|target|] == target {
      ReplaceIsJoinOfSplit(s[|target|..], target, repl);
    } else {
      var rest := Split(s[1..], target);
      ReplaceIsJoinOfSplit(s[1..], target, repl);
      var pieces := Split(s, target);
      assert pieces[1..] == rest[1..];
      if |rest| == 1 {
      } else {
        assert Join(rest, repl) == rest[0] + repl + Join(rest[1..], repl);
      }
    }
  }

  /** Replacing a string by itself changes nothing. */
  lemma {:induction false} ReplaceSelf(s: string, target: string)
    requires target != []
    ensures Replace(s, target, target) == s
    decreases |s|
  {
    if |s| < |target| {
    } else if s[..|target|] == target {
      ReplaceSelf(s[|target|..], target);
      assert s == s[..|target|] + s[|target|..];
    } else {
      ReplaceSelf(s[1..], target);
      assert s == [s[0]] + s[1..];
    }
  }

  /** Joining the pieces of a split with the same separator gives the string back. */
  lemma JoinSplit(s: string, sep: string)
    requires sep != []
    ensures Join(Split(s, sep), sep) == s
  {
    ReplaceIsJoinOfSplit(s, sep, sep);
    ReplaceSelf(s, sep);
  }

  /** The first piece of a split is a prefix of the string. */
  lemma {:induction false} SplitHeadIsPrefix(s: string, sep: string)
    requires sep != []
    ensures Split(s, sep)[0] <= s
    decreases |s|
  {
    if |s| < |sep| {
    } else if s[..|sep|] == sep {
    } else {
      SplitHeadIsPrefix(s[1..], sep);
      assert s == [s[0]] + s[1..];
    }
  }

  /** `sep` does not start anywhere before index `n` of `s`. */
  ghost predicate NoOccurrenceBefore(s: string, sep: string, n: nat)
  {
    forall i: nat :: i < n ==> !OccursAt(s, sep, i)
  }

  /** What the split of `s` on `sep` looks like when it cuts at the leftmost
      occurrence of `sep`. */
  ghost predicate CutsAtFirst(s: string, sep: string)
    requires sep != []
  {
    var pieces := Split(s, sep);
    NoOccurrenceBefore(s, sep, |pieces[0]|) &&
    (|pieces| == 1 ==> pieces[0] == s) &&
    (|pieces| > 1 ==>
       OccursAt(s, sep, |pieces[0]|) && pieces[1..] == Split(s[|pieces[0]| + |sep|..], sep))
  }

  /** The split cuts at the leftmost occurrence of `sep`: none starts inside
      the first piece, one starts right after it when there is a second piece,
      and the remaining pieces are the split of what follows that occurrence. */
  lemma {:induction false} SplitCutsAtFirst(s: string, sep: string)
    requires sep != []
    ensures forall i: nat :: i < |Split(s, sep)[0]| ==> !OccursAt(s, sep, i)
    ensures |Split(s, sep)| == 1 ==> Split(s, sep)[0] == s
    ensures |Split(s, sep)| > 1 ==>
              OccursAt(s, sep, |Split(s, sep)[0]|) &&
              Split(s, sep)[1..] == Split(s[|Split(s, sep)[0]| + |sep|..], sep)
    decreases |s|
  {
    if |s| < |sep| {
    } else if s[..|sep|] == sep {
      SplitCutsAtFront(s, sep);
    } else {
      SplitCutsAtFirst(s[1..], sep);
      SplitCutsAtFirstStep(s, sep);
    }
  }

  /** An occurrence at the front leaves an empty first piece. */
  lemma SplitCutsAtFront(s: string, sep: string)
    requires sep != [] && |s| >= |sep| && s[..|sep|] == sep
    ensures CutsAtFirst(s, sep)
  {
    assert Split(s, sep) == [[]] + Split(s[|sep|..], sep);
    assert OccursAt(s, sep, 0);
  }

  /** A first character that does not start `sep` joins the first piece of the
      split of the rest. */
  lemma SplitCutsAtFirstStep(s: string, sep: string)
    requires sep != [] && |s| >= |sep| && s[..|sep|] != sep
    requires CutsAtFirst(s[1..], sep)
    ensures CutsAtFirst(s, sep)
  {
    var pieces := Split(s, sep);
    var rest := Split(s[1..], sep);
    assert pieces == [[s[0]] + rest[0]] + rest[1..];
    assert |pieces| == |rest| && |pieces[0]| == |rest[0]| + 1 && pieces[1..] == rest[1..];
    NoOccurrenceAfterFirst(s, sep, |rest[0]|);
    if |rest| > 1 {
      OccursAfterFirst(s, sep, |rest[0]|);
    } else {
      assert [s[0]] + s[1..] == s;
    }
  }

  /** An occurrence in `s[1..]` is an occurrence in `s` one index further on,
      followed by the same text. */
  lemma OccursAfterFirst(s: string, sep: string, j: nat)
    requires s != [] && OccursAt(s[1..], sep, j)
    ensures OccursAt(s, sep, j + 1)
    ensures s[1..][j + |sep|..] == s[j + 1 + |sep|..]
  {
    assert s[1..][j..j + |sep|] == s[j + 1..j + 1 + |sep|];
  }

  /** No occurrence at the front, and none in the first `n` indices after it. */
  lemma NoOccurrenceAfterFirst(s: string, sep: string, n: nat)
    requires sep != [] && |s| >= |sep| && s[..|sep|] != sep
    requires NoOccurrenceBefore(s[1..], sep, n)
    ensures NoOccurrenceBefore(s, sep, n + 1)
  {
    forall i: nat | i < n + 1 ensures !OccursAt(s, sep, i) {
      if i == 0 {
        assert s[0..|sep|] == s[..|sep|];
      } else {
        assert !OccursAt(s[1..], sep, i - 1);
        assert i + |sep| <= |s| ==> s[1..][i - 1..i - 1 + |sep|] == s[i..i + |sep|];
      }
    }
  }

  /** No piece of a split contains the separator. */
  lemma {:induction false} SplitPiecesFree(s: string, sep: string)
    requires sep != []
    ensures forall k :: 0 <= k < |Split(s, sep)| ==> !Contains(Split(s, sep)[k], sep)
    decreases |s|
  {
    var pieces := Split(s, sep);
    if |s| < |sep| {
      assert !Contains(s, sep);
    } else if s[..|sep|] == sep {
      SplitPiecesFree(s[|sep|..], sep);
      assert !Contains([], sep);
      forall k | 1 <= k < |pieces| ensures !Contains(pieces[k], sep) {
        assert pieces[k] == Split(s[|sep|..], sep)[k - 1];
      }
    } else {
      var rest := Split(s[1..], sep);
      SplitPiecesFree(s[1..], sep);
      SplitHeadIsPrefix(s[1..], sep);
      var head := [s[0]] + rest[0];
      assert head <= s;
      if |sep| <= |head| {
        assert head[..|sep|] == s[..|sep|];
      }
      assert head[1..] == rest[0];
      assert !Contains(head, sep);
      forall k | 1 <= k < |pieces| ensures !Contains(pieces[k], sep) {
        assert pieces[k] == rest[k];
      }
    }
  }

  /** A string that contains `sub` is at least as long as `sub`. */
  lemma ContainsLength(s: string, sub: string)
    requires Contains(s, sub)
    ensures |sub| <= |s|
  {
    ContainsIff(s, sub);
  }

  /** Every character of `sub` appears in any string that contains `sub`. */
  lemma ContainsChars(s: string, sub: string)
    ensures Contains(s, sub) ==> forall k :: 0 <= k < |sub| ==> sub[k] in s
  {
    ContainsIff(s, sub);
    if Contains(s, sub) {
      var i: nat :| OccursAt(s, sub, i);
      forall k | 0 <= k < |sub| ensures sub[k] in s {
        assert s[i + k] == sub[k];
      }
    }
  }

  /** Every character an occurrence of `sub` covers is a character of `sub`. */
  lemma OccurrenceCovers(s: string, sub: string, i: nat, j: nat)
    requires OccursAt(s, sub, i)
    ensures i <= j < i + |sub| ==> s[j] in sub
  {
    if i <= j < i + |sub| {
      assert s[j] == s[i..i + |sub|][j - i];
    }
  }

  /** An occurrence of `sub` cannot run across a character that `sub` lacks. */
  lemma ContainsAcross(a: string, c: char, b: string, sub: string)
    requires c !in sub
    ensures Contains(a + [c] + b, sub) ==> Contains(a, sub) || Contains(b, sub)
  {
    var s := a + [c] + b;
    if Contains(s, sub) {
      ContainsIff(s, sub);
      var i: nat :| OccursAt(s, sub, i);
      OccurrenceCovers(s, sub, i, |a|);
      assert s[|a|] == c;
      if i + |sub| <= |a| {
        assert a[i..i + |sub|] == s[i..i + |sub|];
        assert OccursAt(a, sub, i);
        ContainsIff(a, sub);
      } else if i > |a| {
        assert b[i - |a| - 1..i - |a| - 1 + |sub|] == s[i..i + |sub|];
        assert OccursAt(b, sub, i - |a| - 1);
        ContainsIff(b, sub);
      } else {
        assert false;
      }
    }
  }

  /** A string split on a one-character separator it lacks is a single piece. */
  lemma {:induction false} SplitWithout(s: string, c: char)
    requires c !in s
    ensures Split(s, [c]) == [s]
    decreases |s|
  {
    if |s| >= 1 {
      assert s[..1] != [c] by { assert s[0] != c; }
      SplitWithout(s[1..], c);
      assert [s[0]] + s[1..] == s;
    }
  }

  /** Splitting on a one-character separator cuts at its first occurrence. */
  lemma {:induction false} SplitAtFirst(a: string, c: char, b: string)
    requires c !in a
    ensures Split(a + [c] + b, [c]) == [a] + Split(b, [c])
    decreases |a|
  {
    var s := a + [c] + b;
    if a == [] {
      assert s[..1] == [c];
      assert s[1..] == b;
    } else {
      assert s[..1] != [c] by { assert s[0] == a[0] != c; }
      assert s[1..] == a[1..] + [c] + b;
      SplitAtFirst(a[1..], c, b);
      assert [a[0]] + a[1..] == a;
    }
  }

  /** Splitting on a one-character separator undoes joining with it, when no
      piece holds the separator. */
  lemma {:induction false} SplitOfJoin(pieces: seq<string>, c: char)
    requires |pieces| >= 1
    requires forall k :: 0 <= k < |pieces| ==> c !in pieces[k]
    ensures Split(Join(pieces, [c]), [c]) == pieces
    decreases |pieces|
  {
    if |pieces| == 1 {
      SplitWithout(pieces[0], c);
    } else {
      SplitOfJoin(pieces[1..], c);
      SplitAtFirst(pieces[0], c, Join(pieces[1..], [c]));
      assert [pieces[0]] + pieces[1..] == pieces;
    }
  }

  /** Replacing one character works character by character, so it distributes
      over concatenation. */
  lemma {:induction false} ReplaceCharConcat(a: string, b: string, c: char, repl: string)
    ensures Replace(a + b, [c], repl) == Replace(a, [c], repl) + Replace(b, [c], repl)
    decreases |a|
  {
    if a != [] {
      ReplaceCharConcat(a[1..], b, c, repl);
      assert (a + b)[1..] == a[1..] + b;
      assert (a + b)[..1] == a[..1];
    } else {
      assert a + b == b;
    }
  }

  /** Replacing a character that does not occur changes nothing. */
  lemma {:induction false} ReplaceCharAbsent(s: string, c: char, repl: string)
    requires c !in s
    ensures Replace(s, [c], repl) == s
    decreases |s|
  {
    if s != [] {
      assert s[..1] != [c] by { assert s[..1][0] == s[0]; }
      ReplaceCharAbsent(s[1..], c, repl);
      assert s == [s[0]] + s[1..];
    }
  }
}

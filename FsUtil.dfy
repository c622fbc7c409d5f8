/** The helpers that read information out of FreeSurfer label and analysis
    names: the contrast (`tocontrast`), the hemisphere (`_tohemi`/`tohemi` in
    pynisurf/freesurfer/util.py, `tohemi`/`to_hemi_multi` in utilities/fs.py),
    the significance threshold (`tosig`), the template (`totemplate`) and the
    default colour table (`colors`).  Both files hold the same code, so one
    module models both. */
module FsUtil {
  import opened PyStr

  // ---------------------------------------------------------------------
  // tocontrast
  // ---------------------------------------------------------------------

  /** Default `separator` of `tocontrast`: the dots of a label name. */
  const LabelSeparator: string := "."

  /** Default `con_sign` of `tocontrast`. */
  const ContrastSign: string := "-vs-"

  /** No piece contains `conSign`. */
  ghost predicate NoneContains(pieces: seq<string>, conSign: string)
  {
    forall k :: 0 <= k < |pieces| ==> !Contains(pieces[k], conSign)
  }

  /** `[c for c in pieces if con_sign in c]`. */
  function Matching(pieces: seq<string>, conSign: string): (kept: seq<string>)
    ensures |kept| <= |pieces|
    ensures forall k :: 0 <= k < |kept| ==> kept[k] in pieces && Contains(kept[k], conSign)
    ensures forall k :: 0 <= k < |pieces| && Contains(pieces[k], conSign) ==> pieces[k] in kept
    ensures kept == [] <==> NoneContains(pieces, conSign)
    decreases |pieces|
  {
    if pieces == [] then []
    else (if Contains(pieces[0], conSign) then [pieces[0]] else []) + Matching(pieces[1..], conSign)
  }

  /** The filter keeps the order of the pieces: it distributes over concatenation. */
  lemma {:induction false} MatchingAppend(xs: seq<string>, ys: seq<string>, conSign: string)
    ensures Matching(xs + ys, conSign) == Matching(xs, conSign) + Matching(ys, conSign)
    decreases |xs|
  {
    if xs == [] {
      assert xs + ys == ys;
    } else {
      assert (xs + ys)[1..] == xs[1..] + ys;
      MatchingAppend(xs[1..], ys, conSign);
    }
  }

  /** The contrast name read from one name: the pieces of `name.split(separator)`
      that contain `conSign`, joined with `''`. */
  function Contrast(name: string, separator: string, conSign: string): string
    requires separator != []
  {
    Join(Matching(Split(name, separator), conSign), [])
  }

  /** `tocontrast(fn_list, separator, con_sign)`: one contrast name per input
      name, in order.  Python's `split` raises `ValueError` for an empty
      separator, which happens only once the comprehension reaches a name. */
  function ToContrast(fnList: seq<string>, separator: string, conSign: string): (r: Result<seq<string>>)
    ensures r.ValueError? <==> separator == [] && fnList != []
    ensures r.Ok? ==> |r.value| == |fnList|
    ensures r.Ok? ==> forall i :: 0 <= i < |fnList| ==>
              separator != [] && r.value[i] == Contrast(fnList[i], separator, conSign)
  {
    if fnList == [] then Ok([])
    else if separator == [] then ValueError
    else Ok(seq(|fnList|, i requires 0 <= i < |fnList| => Contrast(fnList[i], separator, conSign)))
  }

  /** `''.join` of strings that all contain `sub` contains `sub`, if there is one. */
  lemma {:induction false} ConcatOfMatchesContains(kept: seq<string>, sub: string)
    requires |kept| > 0
    requires forall k :: 0 <= k < |kept| ==> Contains(kept[k], sub)
    ensures Contains(Join(kept, []), sub)
  {
    ConcatCons(kept);
    ContainsInConcat(kept[0], Join(kept[1..], []), sub);
  }

  /** A non-empty contrast name contains the contrast sign. */
  lemma ContrastHasSign(name: string, separator: string, conSign: string)
    requires separator != []
    ensures Contrast(name, separator, conSign) != [] ==> Contains(Contrast(name, separator, conSign), conSign)
  {
    var kept := Matching(Split(name, separator), conSign);
    if kept != [] {
      ConcatOfMatchesContains(kept, conSign);
    }
  }

  /** With a non-empty contrast sign, the contrast name is `''` exactly when no
      piece of the split name contains the sign. */
  lemma ContrastEmptyIff(name: string, separator: string, conSign: string)
    requires separator != [] && conSign != []
    ensures Contrast(name, separator, conSign) == [] <==> NoneContains(Split(name, separator), conSign)
  {
    var pieces := Split(name, separator);
    var kept := Matching(pieces, conSign);
    if !NoneContains(pieces, conSign) {
      var k :| 0 <= k < |pieces| && Contains(pieces[k], conSign);
      assert pieces[k] in kept;
      ConcatOfMatchesContains(kept, conSign);
      ContainsLength(Join(kept, []), conSign);
    }
  }

  /** A name without the separator is its own contrast when it holds the sign,
      and gives `''` otherwise. */
  lemma ContrastOfSinglePiece(name: string, c: char, conSign: string)
    requires c !in name
    ensures Contrast(name, [c], conSign) == if Contains(name, conSign) then name else []
  {
    SplitWithout(name, c);
    assert [name][1..] == [];
  }

  /** A piece without a `-` cannot hold the default contrast sign. */
  lemma LacksContrastSign(piece: string)
    requires '-' !in piece
    ensures !Contains(piece, ContrastSign)
  {
    ContainsChars(piece, ContrastSign);
    assert ContrastSign[0] == '-';
  }

  /** A piece of the form `x-vs-y` holds the default contrast sign. */
  lemma HasContrastSign(piece: string)
    requires |piece| >= 5 && piece[1..5] == ContrastSign
    ensures Contains(piece, ContrastSign)
  {
    assert OccursAt(piece, ContrastSign, 1);
    ContainsIff(piece, ContrastSign);
  }

  /** The label name from the docstring: `roi.lh.f13.f-vs-o.label` gives `f-vs-o`. */
  lemma ContrastOfLabelName()
    ensures Contrast("roi.lh.f13.f-vs-o.label", LabelSeparator, ContrastSign) == "f-vs-o"
  {
    LabelNamePieces();
    LabelPiecesMatching();
    assert Join(["f-vs-o"], []) == "f-vs-o";
  }

  /** Of the pieces of the label name, only `f-vs-o` holds the contrast sign. */
  lemma LabelPiecesMatching()
    ensures Matching(["roi", "lh", "f13", "f-vs-o", "label"], ContrastSign) == ["f-vs-o"]
  {
    var pieces := ["roi", "lh", "f13", "f-vs-o", "label"];
    HasContrastSign("f-vs-o");
    LacksContrastSign("roi");
    LacksContrastSign("lh");
    LacksContrastSign("f13");
    LacksContrastSign("label");
    assert Matching(pieces[4..], ContrastSign) == [];
    assert Matching(pieces[3..], ContrastSign) == ["f-vs-o"];
    assert Matching(pieces[2..], ContrastSign) == ["f-vs-o"];
    assert Matching(pieces[1..], ContrastSign) == ["f-vs-o"];
  }

  /** The label name from the docstring splits into its five dotted pieces. */
  lemma LabelNamePieces()
    ensures Split("roi.lh.f13.f-vs-o.label", LabelSeparator) == ["roi", "lh", "f13", "f-vs-o", "label"]
  {
    var pieces := ["roi", "lh", "f13", "f-vs-o", "label"];
    assert Join(pieces[4..], ".") == "label";
    assert Join(pieces[3..], ".") == "f-vs-o.label";
    assert Join(pieces[2..], ".") == "f13.f-vs-o.label";
    assert Join(pieces[1..], ".") == "lh.f13.f-vs-o.label";
    assert Join(pieces, ".") == "roi.lh.f13.f-vs-o.label";
    SplitOfJoin(pieces, '.');
  }

  /** The contrast of `x.fNN.y.label` for a first piece `x` and a contrast piece
      `y` of the form `a-vs-b`. */
  lemma ContrastOfDemoName(x: string, sig: string, y: string)
    requires '.' !in x && '.' !in sig && '.' !in y
    requires '-' !in x && '-' !in sig
    requires |y| >= 5 && y[1..5] == ContrastSign
    ensures Contrast(x + "." + sig + "." + y + ".label", LabelSeparator, ContrastSign) == y
  {
    var pieces := [x, sig, y, "label"];
    assert Join(pieces[3..], ".") == "label";
    assert Join(pieces[2..], ".") == y + ".label";
    assert Join(pieces[1..], ".") == sig + "." + y + ".label";
    assert Join(pieces, ".") == x + "." + sig + "." + y + ".label";
    SplitOfJoin(pieces, '.');
    HasContrastSign(y);
    LacksContrastSign(x);
    LacksContrastSign(sig);
    LacksContrastSign("label");
    assert Matching(pieces[3..], ContrastSign) == [];
    assert Matching(pieces[2..], ContrastSign) == [y];
    assert Matching(pieces[1..], ContrastSign) == [y];
    assert Matching(pieces, ContrastSign) == [y];
  }

  /** `tocontrast` on a list of two names. */
  lemma ToContrastOfTwo(a: string, b: string, separator: string, conSign: string)
    requires separator != []
    ensures ToContrast([a, b], separator, conSign)
            == Ok([Contrast(a, separator, conSign), Contrast(b, separator, conSign)])
  {
    var r := ToContrast([a, b], separator, conSign);
    assert r.Ok? && |r.value| == 2;
    assert r.value[0] == Contrast(a, separator, conSign);
    assert r.value[1] == Contrast(b, separator, conSign);
    assert r.value == [Contrast(a, separator, conSign), Contrast(b, separator, conSign)];
    assert r == Ok(r.value);
  }

  /** The demo names: `['test.f20.f-vs-o.label', 'test2.f13.f-vs-scr.label']`
      give `['f-vs-o', 'f-vs-scr']`. */
  lemma ContrastOfDemoNames()
    ensures ToContrast(["test.f20.f-vs-o.label", "test2.f13.f-vs-scr.label"], LabelSeparator, ContrastSign)
            == Ok(["f-vs-o", "f-vs-scr"])
  {
    ToContrastOfTwo("test.f20.f-vs-o.label", "test2.f13.f-vs-scr.label", LabelSeparator, ContrastSign);
    ContrastOfFirstDemoName();
    ContrastOfSecondDemoName();
  }

  /** The first demo name, `test.f20.f-vs-o.label`. */
  lemma ContrastOfFirstDemoName()
    ensures Contrast("test.f20.f-vs-o.label", LabelSeparator, ContrastSign) == "f-vs-o"
  {
    assert "test.f20.f-vs-o.label" == "test" + "." + "f20" + "." + "f-vs-o" + ".label";
    ContrastOfDemoName("test", "f20", "f-vs-o");
  }

  /** The second demo name, `test2.f13.f-vs-scr.label`. */
  lemma ContrastOfSecondDemoName()
    ensures Contrast("test2.f13.f-vs-scr.label", LabelSeparator, ContrastSign) == "f-vs-scr"
  {
    assert "test2.f13.f-vs-scr.label" == "test2" + "." + "f13" + "." + "f-vs-scr" + ".label";
    ContrastOfDemoName("test2", "f13", "f-vs-scr");
  }

  // ---------------------------------------------------------------------
  // _tohemi / tohemi (util.py), tohemi / to_hemi_multi (utilities/fs.py)
  // ---------------------------------------------------------------------

  /** `os.sep` on a POSIX system. */
  const OsSep: string := "/"

  /** `sum(flags)` for a list of booleans. */
  function CountTrue(flags: seq<bool>): (n: nat)
    ensures n <= |flags|
    ensures n == 0 <==> forall k :: 0 <= k < |flags| ==> !flags[k]
  {
    if flags == [] then 0
    else (if flags[0] then 1 else 0) + CountTrue(flags[1..])
  }

  /** `list(itertools.compress(data, selectors))`: the items whose selector is true. */
  function Compress(data: seq<string>, selectors: seq<bool>): (r: seq<string>)
    requires |data| == |selectors|
    ensures |r| == CountTrue(selectors)
    ensures forall k :: 0 <= k < |r| ==> exists j :: 0 <= j < |data| && selectors[j] && r[k] == data[j]
  {
    if data == [] then []
    else (if selectors[0] then [data[0]] else []) + Compress(data[1..], selectors[1..])
  }

  /** `compress` on two items. */
  lemma CompressPair(a: string, b: string, x: bool, y: bool)
    ensures Compress([a, b], [x, y]) == (if x then [a] else []) + (if y then [b] else [])
  {
    assert [a, b][1..] == [b] && [x, y][1..] == [y];
    assert [b][1..] == [] && [y][1..] == [];
  }

  /** The decision of `_tohemi` once it knows whether `'lh'` and `'rh'` are
      present: `compress(['lh', 'rh'], hemi_bool)[0]` when exactly one flag
      is set, `''` otherwise. */
  function HemiFromFlags(hasLh: bool, hasRh: bool): (hemi: string)
    ensures hemi == "lh" <==> hasLh && !hasRh
    ensures hemi == "rh" <==> hasRh && !hasLh
    ensures hemi == [] <==> hasLh == hasRh
  {
    var hemiBool := [hasLh, hasRh];
    CompressPair("lh", "rh", hasLh, hasRh);
    assert "lh" != "rh" by { assert "lh"[0] != "rh"[0]; }
    if CountTrue(hemiBool) == 1 then Compress(["lh", "rh"], hemiBool)[0] else []
  }

  /** `_tohemi(filename, fn_only)` in util.py, `tohemi` in utilities/fs.py.  When
      `fn_only` holds and the name contains `os.sep`, the source replaces the
      name by `os.listdir(filename)`, passed in here as `listing`, and the
      tests become list membership; otherwise they are substring tests. */
  function ToHemi(filename: string, fnOnly: bool, listing: seq<string>): (hemi: string)
    ensures hemi == [] || hemi == "lh" || hemi == "rh"
    ensures fnOnly && Contains(filename, OsSep) ==>
              hemi == HemiFromFlags("lh" in listing, "rh" in listing)
    ensures !(fnOnly && Contains(filename, OsSep)) ==>
              && (hemi == "lh" <==> Contains(filename, "lh") && !Contains(filename, "rh"))
              && (hemi == "rh" <==> Contains(filename, "rh") && !Contains(filename, "lh"))
              && (hemi == [] <==> Contains(filename, "lh") == Contains(filename, "rh"))
  {
    if fnOnly && Contains(filename, OsSep) then HemiFromFlags("lh" in listing, "rh" in listing)
    else HemiFromFlags(Contains(filename, "lh"), Contains(filename, "rh"))
  }

  /** `tohemi(fn_list, fn_only)` in util.py, `to_hemi_multi` in utilities/fs.py:
      the decision for every name, in order.  `listdir` stands for
      `os.listdir`, consulted only for names that contain `os.sep`. */
  function HemiList(fnList: seq<string>, fnOnly: bool, listdir: string -> seq<string>): (hemis: seq<string>)
    ensures |hemis| == |fnList|
    ensures forall i :: 0 <= i < |fnList| ==> hemis[i] == ToHemi(fnList[i], fnOnly, listdir(fnList[i]))
    ensures forall i :: 0 <= i < |hemis| ==> hemis[i] == [] || hemis[i] == "lh" || hemis[i] == "rh"
    decreases |fnList|
  {
    if fnList == [] then []
    else [ToHemi(fnList[0], fnOnly, listdir(fnList[0]))] + HemiList(fnList[1..], fnOnly, listdir)
  }

  // ---------------------------------------------------------------------
  // tosig
  // ---------------------------------------------------------------------

  /** The regular-expression class `\d`, on ASCII digits. */
  predicate IsDigit(c: char)
  {
    '0' <= c <= '9'
  }

  /** A string of digits only. */
  predicate AllDigits(s: string)
  {
    forall k | 0 <= k < |s| :: IsDigit(s[k])
  }

  /** A match of `f\d+`: an `f` followed by at least one digit. */
  predicate IsSigRun(m: string)
  {
    |m| >= 2 && m[0] == 'f' && AllDigits(m[1..])
  }

  /** An `f` directly followed by a digit starts at index `i`: the place where
      `f\d+` can match. */
  ghost predicate SigStartsAt(s: string, i: nat)
  {
    i + 1 < |s| && s[i] == 'f' && IsDigit(s[i + 1])
  }

  /** The length of the run of digits that begins `s`. */
  function DigitRun(s: string): (n: nat)
    ensures n <= |s|
    ensures AllDigits(s[..n])
    ensures n < |s| ==> !IsDigit(s[n])
  {
    if s != [] && IsDigit(s[0]) then 1 + DigitRun(s[1..]) else 0
  }

  /** `[m.group() for m in re.compile('f\d+').finditer(s)]`: the matches, left
      to right, each as long as the digits allow, none overlapping. */
  function SigMatches(s: string): (ms: seq<string>)
    ensures forall k :: 0 <= k < |ms| ==> IsSigRun(ms[k])
    decreases |s|
  {
    if |s| < 2 then []
    else if s[0] == 'f' && IsDigit(s[1]) then
      var n := 1 + DigitRun(s[1..]);
      assert s[..n][1..] == s[1..][..n - 1];
      [s[..n]] + SigMatches(s[n..])
    else SigMatches(s[1..])
  }

  /** The scan finds nothing exactly when no `f` is followed by a digit. */
  lemma {:induction false} SigMatchesEmptyIff(s: string)
    ensures SigMatches(s) == [] <==> forall i: nat :: !SigStartsAt(s, i)
    decreases |s|
  {
    if |s| < 2 {
    } else if s[0] == 'f' && IsDigit(s[1]) {
      assert SigStartsAt(s, 0);
    } else {
      SigMatchesEmptyIff(s[1..]);
      forall i: nat ensures SigStartsAt(s, i + 1) <==> SigStartsAt(s[1..], i) { }
      forall i: nat | SigStartsAt(s, i) ensures i > 0 && SigStartsAt(s[1..], i - 1) { }
    }
  }

  /** A prefix without any `f` holds no match and does not change the matches after it. */
  lemma {:induction false} SigMatchesSkip(p: string, s: string)
    requires 'f' !in p
    ensures SigMatches(p + s) == SigMatches(s)
    decreases |p|
  {
    if p != [] {
      var ps := p + s;
      assert ps[0] == p[0] != 'f';
      if |ps| >= 2 {
        assert ps[1..] == p[1..] + s;
      } else {
        assert s == [] || p == [];
      }
      SigMatchesSkip(p[1..], s);
    } else {
      assert p + s == s;
    }
  }

  /** The `f\d+` match that starts at index `i`: the `f` and every digit after
      it (nothing past the end of `s`). */
  function MatchAt(s: string, i: nat): string
  {
    if i < |s| then s[i..i + 1 + DigitRun(s[i + 1..])] else []
  }

  /** The matches read at each of the indices `ps`, in their order. */
  function MatchesAt(s: string, ps: seq<nat>): seq<string>
    decreases |ps|
  {
    if ps == [] then [] else [MatchAt(s, ps[0])] + MatchesAt(s, ps[1..])
  }

  /** Every index moved right by `d`. */
  function Shift(ps: seq<nat>, d: nat): (r: seq<nat>)
    ensures |r| == |ps|
    ensures forall k :: 0 <= k < |ps| ==> r[k] == ps[k] + d
  {
    seq(|ps|, k requires 0 <= k < |ps| => ps[k] + d)
  }

  /** The indices of `s` where an `f` is followed by a digit, scanning every
      index from left to right. */
  ghost function SigPositions(s: string): seq<nat>
    decreases |s|
  {
    if s == [] then []
    else (if SigStartsAt(s, 0) then [0] else []) + Shift(SigPositions(s[1..]), 1)
  }

  /** Every listed index is a start position. */
  lemma {:induction false} SigPositionsAreStarts(s: string)
    ensures forall k :: 0 <= k < |SigPositions(s)| ==> SigStartsAt(s, SigPositions(s)[k])
    decreases |s|
  {
    if s != [] {
      var rest := SigPositions(s[1..]);
      SigPositionsAreStarts(s[1..]);
      var head: seq<nat> := if SigStartsAt(s, 0) then [0] else [];
      var ps := SigPositions(s);
      assert ps == head + Shift(rest, 1);
      forall k | 0 <= k < |ps| ensures SigStartsAt(s, ps[k]) {
        if k >= |head| {
          var j := k - |head|;
          assert ps[k] == rest[j] + 1;
          assert SigStartsAt(s[1..], rest[j]);
          assert s[1..][rest[j]] == s[rest[j] + 1];
          assert s[1..][rest[j] + 1] == s[rest[j] + 2];
        }
      }
    }
  }

  /** The list of start positions is strictly increasing. */
  lemma {:induction false} SigPositionsIncreasing(s: string)
    ensures forall k, l :: 0 <= k < l < |SigPositions(s)| ==> SigPositions(s)[k] < SigPositions(s)[l]
    decreases |s|
  {
    if s != [] {
      var rest := SigPositions(s[1..]);
      SigPositionsIncreasing(s[1..]);
      var head: seq<nat> := if SigStartsAt(s, 0) then [0] else [];
      var ps := SigPositions(s);
      assert ps == head + Shift(rest, 1);
      forall k, l | 0 <= k < l < |ps| ensures ps[k] < ps[l] {
        assert ps[l] == rest[l - |head|] + 1;
        if k >= |head| {
          assert ps[k] == rest[k - |head|] + 1;
        }
      }
    }
  }

  /** No start position is missing from the list. */
  lemma {:induction false} SigPositionsComplete(s: string, i: nat)
    requires SigStartsAt(s, i)
    ensures i in SigPositions(s)
    decreases |s|
  {
    var ps := SigPositions(s);
    var rest := SigPositions(s[1..]);
    var head: seq<nat> := if SigStartsAt(s, 0) then [0] else [];
    assert ps == head + Shift(rest, 1);
    if i == 0 {
      assert ps[0] == 0;
    } else {
      assert SigStartsAt(s[1..], i - 1);
      SigPositionsComplete(s[1..], i - 1);
      var k :| 0 <= k < |rest| && rest[k] == i - 1;
      assert ps[|head| + k] == i;
    }
  }

  /** Digits hold no `f`. */
  lemma DigitsHaveNoF(d: string)
    requires AllDigits(d)
    ensures 'f' !in d
  {
    assert forall k :: 0 <= k < |d| ==> d[k] != 'f';
  }

  /** A prefix without any `f` moves every start position right by its length. */
  lemma {:induction false} SigPositionsSkip(p: string, t: string)
    requires 'f' !in p
    ensures SigPositions(p + t) == Shift(SigPositions(t), |p|)
    decreases |p|
  {
    if p == [] {
      assert p + t == t;
      assert Shift(SigPositions(t), 0) == SigPositions(t);
    } else {
      var pt := p + t;
      assert pt[0] == p[0] != 'f';
      assert pt[1..] == p[1..] + t;
      SigPositionsSkip(p[1..], t);
      assert SigPositions(pt) == Shift(SigPositions(pt[1..]), 1);
      assert Shift(Shift(SigPositions(t), |p| - 1), 1) == Shift(SigPositions(t), |p|);
    }
  }

  /** A match read in a suffix is the match read at the shifted index. */
  lemma MatchAtSuffix(s: string, n: nat, j: nat)
    requires n <= |s|
    ensures MatchAt(s, j + n) == MatchAt(s[n..], j)
  {
    var t := s[n..];
    if j < |t| {
      assert t[j + 1..] == s[j + n + 1..];
      var d := DigitRun(t[j + 1..]);
      assert t[j..j + 1 + d] == s[j + n..j + n + 1 + d];
    }
  }

  /** Matches read in a suffix are the matches read at the shifted indices. */
  lemma {:induction false} MatchesAtSuffix(s: string, n: nat, pt: seq<nat>)
    requires n <= |s|
    ensures MatchesAt(s[n..], pt) == MatchesAt(s, Shift(pt, n))
    decreases |pt|
  {
    if pt != [] {
      var sh := Shift(pt, n);
      MatchAtSuffix(s, n, pt[0]);
      MatchesAtSuffix(s, n, pt[1..]);
      assert sh[0] == pt[0] + n;
      assert sh[1..] == Shift(pt[1..], n);
      assert MatchesAt(s, sh) == [MatchAt(s, sh[0])] + MatchesAt(s, sh[1..]);
      assert MatchesAt(s[n..], pt) == [MatchAt(s[n..], pt[0])] + MatchesAt(s[n..], pt[1..]);
    }
  }

  /** The `k`-th match read is the one at the `k`-th index. */
  lemma {:induction false} MatchesAtIndex(s: string, ps: seq<nat>)
    ensures |MatchesAt(s, ps)| == |ps|
    ensures forall k :: 0 <= k < |ps| ==> MatchesAt(s, ps)[k] == MatchAt(s, ps[k])
    decreases |ps|
  {
    if ps != [] {
      var ms := MatchesAt(s, ps);
      MatchesAtIndex(s, ps[1..]);
      assert ms == [MatchAt(s, ps[0])] + MatchesAt(s, ps[1..]);
      forall k | 0 < k < |ps| ensures ms[k] == MatchAt(s, ps[k]) {
        assert ps[1..][k - 1] == ps[k];
      }
    }
  }

  /** The scan finds one match at every start position, in order, and each
      match is the `f` with the whole run of digits after it: `finditer` over
      `f\d+` skips no start position and none of its matches overlap. */
  lemma {:induction false} SigMatchesAtPositions(s: string)
    ensures SigMatches(s) == MatchesAt(s, SigPositions(s))
    decreases |s|
  {
    if s == [] {
    } else if |s| < 2 {
      assert s[1..] == [];
      assert SigPositions(s[1..]) == [];
      assert !SigStartsAt(s, 0);
    } else if s[0] == 'f' && IsDigit(s[1]) {
      var n := 1 + DigitRun(s[1..]);
      var pt := SigPositions(s[n..]);
      SigMatchesAtPositions(s[n..]);
      SigPositionsOfRun(s, n);
      MatchesAtSuffix(s, n, pt);
      assert SigMatches(s) == [s[..n]] + SigMatches(s[n..]);
      assert ([0] + Shift(pt, n))[1..] == Shift(pt, n);
    } else {
      var p1 := SigPositions(s[1..]);
      SigMatchesAtPositions(s[1..]);
      assert !SigStartsAt(s, 0);
      assert SigPositions(s) == Shift(p1, 1);
      MatchesAtSuffix(s, 1, p1);
    }
  }

  /** After a match at the front, the next start position lies past its digits. */
  lemma SigPositionsOfRun(s: string, n: nat)
    requires |s| >= 2 && s[0] == 'f' && IsDigit(s[1])
    requires n == 1 + DigitRun(s[1..])
    ensures SigPositions(s) == [0] + Shift(SigPositions(s[n..]), n)
  {
    var pt := SigPositions(s[n..]);
    var p1 := SigPositions(s[1..]);
    SigPositionsPastDigits(s, n);
    assert SigStartsAt(s, 0);
    assert SigPositions(s) == [0] + Shift(p1, 1);
    ShiftAfterShift(pt, p1, n);
  }

  /** Shifting by `n - 1` and then by one is shifting by `n`. */
  lemma ShiftAfterShift(pt: seq<nat>, p1: seq<nat>, n: nat)
    requires n >= 1 && p1 == Shift(pt, n - 1)
    ensures Shift(p1, 1) == Shift(pt, n)
  {
    ShiftShift(pt, n - 1, 1);
  }

  /** The digits after the leading `f` hold no start position. */
  lemma SigPositionsPastDigits(s: string, n: nat)
    requires |s| >= 2 && n == 1 + DigitRun(s[1..])
    ensures SigPositions(s[1..]) == Shift(SigPositions(s[n..]), n - 1)
  {
    var tail := s[n..];
    var digits := s[1..n];
    assert s[1..][..n - 1] == digits;
    DigitsHaveNoF(digits);
    assert s[1..] == digits + tail;
    SigPositionsSkip(digits, tail);
  }

  /** Two shifts add up. */
  lemma ShiftShift(ps: seq<nat>, a: nat, b: nat)
    ensures Shift(Shift(ps, a), b) == Shift(ps, a + b)
  {
  }

  /** `sig_str[1:]`: the matches joined with `''`, without their first character. */
  function SigToken(s: string): string
  {
    var sigStr := Join(SigMatches(s), []);
    if sigStr == [] then [] else sigStr[1..]
  }

  /** `float(digits)` for a string of decimal digits, as an exact number. */
  function DecimalValue(digits: string): nat
    requires AllDigits(digits)
  {
    if digits == [] then 0
    else 10 * DecimalValue(digits[..|digits| - 1]) + (digits[|digits| - 1] as int - '0' as int)
  }

  /** `float(s[1:])` applied to the joined matches of one name: it succeeds only
      on a non-empty run of digits. */
  function SigValue(name: string): Result<nat>
  {
    var token := SigToken(name);
    if token != [] && AllDigits(token) then Ok(DecimalValue(token)) else ValueError
  }

  /** The threshold of a name is read exactly when the name holds one `f\d+`
      run, and then it is the number after that `f`; no run (`float('')`) or
      two runs (`float('13f2')`) raise `ValueError`. */
  lemma SigValueOkIff(name: string)
    ensures SigValue(name).Ok? <==> |SigMatches(name)| == 1
    ensures |SigMatches(name)| == 1 ==> SigValue(name) == Ok(DecimalValue(SigMatches(name)[0][1..]))
  {
    var ms := SigMatches(name);
    var sigStr := Join(ms, []);
    if |ms| == 1 {
      assert sigStr == ms[0];
    } else if |ms| >= 2 {
      ConcatCons(ms);
      ConcatCons(ms[1..]);
      assert sigStr == ms[0] + (ms[1] + Join(ms[2..], []));
      assert sigStr[|ms[0]|] == ms[1][0] == 'f';
      assert SigToken(name)[|ms[0]| - 1] == 'f';
    }
  }

  /** `tosig` over a list: one threshold per name, or `ValueError` as soon as
      one name has none, or more than one, `f\d+` run. */
  function SigList(fnList: seq<string>): (r: Result<seq<nat>>)
    ensures r.Ok? <==> forall i :: 0 <= i < |fnList| ==> SigValue(fnList[i]).Ok?
    ensures r.Ok? ==> |r.value| == |fnList|
    ensures r.Ok? ==> forall i :: 0 <= i < |fnList| ==> r.value[i] == SigValue(fnList[i]).value
    decreases |fnList|
  {
    if fnList == [] then Ok([])
    else match SigValue(fnList[0])
      case ValueError => ValueError
      case Ok(v) =>
        match SigList(fnList[1..])
        case ValueError => ValueError
        case Ok(rest) => Ok([v] + rest)
  }

  /** `tosig(fn_list)`: a lone name is promoted to a one-element list. */
  function ToSig(fnList: StrOrList): (r: Result<seq<nat>>)
    ensures r.Ok? ==> |r.value| == |AsList(fnList)|
    ensures fnList.Str? ==> (r.Ok? <==> |SigMatches(fnList.s)| == 1)
  {
    var r := SigList(AsList(fnList));
    if fnList.Str? then SigValueOkIff(fnList.s); r else r
  }

  /** `i` is the only index of `s` where an `f` is followed by a digit. */
  ghost predicate OnlySigStart(s: string, i: nat)
  {
    SigStartsAt(s, i) && forall j: nat :: SigStartsAt(s, j) ==> j == i
  }

  /** One start position in the list exactly when `s` has one start position. */
  lemma SigPositionsSingle(s: string)
    ensures |SigPositions(s)| == 1 <==> exists i: nat :: OnlySigStart(s, i)
    ensures forall i: nat :: OnlySigStart(s, i) ==> SigPositions(s) == [i]
  {
    var ps := SigPositions(s);
    SigPositionsAreStarts(s);
    SigPositionsIncreasing(s);
    if |ps| == 1 {
      forall j: nat | SigStartsAt(s, j) ensures j == ps[0] {
        SigPositionsComplete(s, j);
      }
      assert OnlySigStart(s, ps[0]);
    }
    forall i: nat | OnlySigStart(s, i)
      ensures ps == [i]
    {
      SigPositionsComplete(s, i);
      if |ps| >= 2 {
        FirstTwoDiffer(ps);
        assert false;
      }
    }
  }

  /** The first two entries of a strictly increasing list differ. */
  lemma FirstTwoDiffer(ps: seq<nat>)
    requires |ps| >= 2
    requires forall k, l :: 0 <= k < l < |ps| ==> ps[k] < ps[l]
    ensures ps[0] != ps[1]
  {
  }

  /** A name's threshold is read exactly when one `f` in it is followed by a
      digit, and it is then the number made of the digits after that `f`. */
  lemma SigValueOfOnlyStart(s: string)
    ensures SigValue(s).Ok? <==> exists i: nat :: OnlySigStart(s, i)
    ensures forall i: nat :: OnlySigStart(s, i) ==>
              AllDigits(s[i + 1..i + 1 + DigitRun(s[i + 1..])]) &&
              SigValue(s) == Ok(DecimalValue(s[i + 1..i + 1 + DigitRun(s[i + 1..])]))
  {
    SigValueOkIffOnlyStart(s);
    forall i: nat | OnlySigStart(s, i)
      ensures AllDigits(s[i + 1..i + 1 + DigitRun(s[i + 1..])])
      ensures SigValue(s) == Ok(DecimalValue(s[i + 1..i + 1 + DigitRun(s[i + 1..])]))
    {
      SigValueAtOnlyStart(s, i);
    }
  }

  /** A threshold is read exactly when there is one start position. */
  lemma SigValueOkIffOnlyStart(s: string)
    ensures SigValue(s).Ok? <==> exists i: nat :: OnlySigStart(s, i)
  {
    SigValueOkIff(s);
    SigMatchesCount(s);
    SigPositionsSingle(s);
  }

  /** As many matches as start positions. */
  lemma SigMatchesCount(s: string)
    ensures |SigMatches(s)| == |SigPositions(s)|
  {
    SigMatchesAtPositions(s);
    MatchesAtIndex(s, SigPositions(s));
  }

  /** The value read at the only start position. */
  lemma SigValueAtOnlyStart(s: string, i: nat)
    requires OnlySigStart(s, i)
    ensures AllDigits(s[i + 1..i + 1 + DigitRun(s[i + 1..])])
    ensures SigValue(s) == Ok(DecimalValue(s[i + 1..i + 1 + DigitRun(s[i + 1..])]))
  {
    SigMatchesOfOnlyStart(s, i);
    SigValueOkIff(s);
    var n := DigitRun(s[i + 1..]);
    assert s[i + 1..][..n] == s[i + 1..i + 1 + n];
    assert MatchAt(s, i)[1..] == s[i + 1..i + 1 + n];
  }

  /** With one start position, the scan finds the one match there. */
  lemma SigMatchesOfOnlyStart(s: string, i: nat)
    requires OnlySigStart(s, i)
    ensures SigMatches(s) == [MatchAt(s, i)]
  {
    SigMatchesAtPositions(s);
    SigPositionsSingle(s);
    assert SigPositions(s) == [i];
    assert MatchesAt(s, [i]) == [MatchAt(s, i)] + MatchesAt(s, []);
  }

  /** The digits that follow an `f` are one run when a non-digit ends them. */
  lemma DigitRunOf(d: string, rest: string)
    requires AllDigits(d)
    requires rest == [] || !IsDigit(rest[0])
    ensures DigitRun(d + rest) == |d|
  {
    assert forall k :: 0 <= k < |d| ==> (d + rest)[k] == d[k];
    assert rest != [] ==> (d + rest)[|d|] == rest[0];
  }

  /** An `f` with a run of digits is one match; the scan resumes after the digits. */
  lemma SigMatchesRun(d: string, rest: string)
    requires d != [] && AllDigits(d)
    requires rest == [] || !IsDigit(rest[0])
    ensures SigMatches("f" + d + rest) == ["f" + d] + SigMatches(rest)
  {
    var s := "f" + d + rest;
    assert s[1..] == d + rest;
    DigitRunOf(d, rest);
    assert s[..1 + |d|] == "f" + d;
    assert s[1 + |d|..] == rest;
  }

  /** An `f` followed by a non-digit starts no match. */
  lemma SigMatchesNonRun(c: char, rest: string)
    requires !IsDigit(c)
    ensures SigMatches("f" + [c] + rest) == SigMatches([c] + rest)
  {
    assert ("f" + [c] + rest)[1..] == [c] + rest;
  }

  /** `.` + `f` + non-digit + `post`, with no `f` in `post`, holds no match. */
  lemma SigMatchesOfDemoTail(c: char, post: string)
    requires 'f' !in post && c != 'f' && !IsDigit(c)
    ensures SigMatches("." + "f" + [c] + post) == []
  {
    var rest := [c] + post;
    SigMatchesSkip(rest, []);
    assert rest + [] == rest;
    assert SigMatches(rest) == [];
    SigMatchesNonRun(c, post);
    var u := "f" + rest;
    assert u == "f" + [c] + post;
    assert SigMatches(u) == [];
    SigMatchesSkip(".", u);
    assert "." + "f" + [c] + post == "." + u;
  }

  /** The only `f\d+` run of a name `pre` + `f` + digits + `.` + `f` + non-digit
      + `post`, where `pre` and `post` hold no `f`. */
  lemma SigMatchesOfDemoShape(pre: string, d: string, c: char, post: string)
    requires 'f' !in pre && 'f' !in post && c != 'f' && !IsDigit(c)
    requires d != [] && AllDigits(d)
    ensures SigMatches(pre + "f" + d + "." + "f" + [c] + post) == ["f" + d]
  {
    var tail := "." + "f" + [c] + post;
    SigMatchesOfDemoTail(c, post);
    SigMatchesRun(d, tail);
    SigMatchesSkip(pre, "f" + d + tail);
    assert pre + "f" + d + "." + "f" + [c] + post == pre + ("f" + d + tail);
  }

  /** The threshold of a name shaped like `test.f20.f-vs-o.label`: the token is
      the digits after the first `f`, and the threshold is their value. */
  lemma SigOfDemoShape(pre: string, d: string, c: char, post: string)
    requires 'f' !in pre && 'f' !in post && c != 'f' && !IsDigit(c)
    requires d != [] && AllDigits(d)
    ensures SigToken(pre + "f" + d + "." + "f" + [c] + post) == d
    ensures SigValue(pre + "f" + d + "." + "f" + [c] + post) == Ok(DecimalValue(d))
  {
    var name := pre + "f" + d + "." + "f" + [c] + post;
    SigMatchesOfDemoShape(pre, d, c, post);
    assert Join(SigMatches(name), []) == "f" + d;
    assert ("f" + d)[1..] == d;
    SigValueOkIff(name);
  }

  /** The demo name `test.f20.f-vs-o.label` has the token `20` and threshold 20. */
  lemma SigOfDemoName()
    ensures SigToken("test.f20.f-vs-o.label") == "20"
    ensures SigValue("test.f20.f-vs-o.label") == Ok(20)
  {
    assert "test.f20.f-vs-o.label" == "test." + "f" + "20" + "." + "f" + ['-'] + "vs-o.label";
    SigOfDemoShape("test.", "20", '-', "vs-o.label");
    assert DecimalValue("20") == 20 by {
      assert "20"[..1] == "2";
      assert "2"[..0] == [];
    }
  }

  // ---------------------------------------------------------------------
  // totemplate
  // ---------------------------------------------------------------------

  /** Default `patterns` of `totemplate`. */
  const TemplatePatterns: seq<string> := ["fsaverage", "self"]

  /** Default `default_str` of `totemplate`; the code never reads it. */
  const UnknownTemplate: string := "unknown"

  /** `[y if y in x else '' for y in patterns]`: the marks of one name. */
  function Marks(x: string, patterns: seq<string>): (marks: seq<string>)
    ensures |marks| == |patterns|
    decreases |patterns|
  {
    if patterns == [] then []
    else [if Contains(x, patterns[0]) then patterns[0] else []] + Marks(x, patterns[1..])
  }

  /** `tmp_template`: `[y if y in x else '' for x in ana_list for y in patterns]`,
      the marks of every name, one name after the other. */
  function AllMarks(anaList: seq<string>, patterns: seq<string>): (marks: seq<string>)
    ensures patterns == [] ==> marks == []
    decreases |anaList|
  {
    if anaList == [] then []
    else Marks(anaList[0], patterns) + AllMarks(anaList[1..], patterns)
  }

  /** `min(a, b)`, the bound at which a Python slice stops. */
  function Min(a: nat, b: nat): nat
  {
    if a <= b then a else b
  }

  /** The chunk, if any, that starts at index `k` of `tmp`. */
  function ChunkAt(tmp: seq<string>, n: nat, k: nat): seq<string>
    requires k < |tmp| && n > 0
  {
    if k % n == 0 then [Join(tmp[k..Min(k + n, |tmp|)], [])] else []
  }

  /** `[''.join(tmp[k:(k+n)]) for k in range(len(tmp)) if k % n == 0]`, from
      index `k` on.  The modulus is only computed for an index that exists, so
      `n == 0` is harmless on an empty `tmp`. */
  function Chunks(tmp: seq<string>, n: nat, k: nat): seq<string>
    requires k <= |tmp|
    requires n == 0 ==> tmp == []
    decreases |tmp| - k
  {
    if k == |tmp| then []
    else ChunkAt(tmp, n, k) + Chunks(tmp, n, k + 1)
  }

  /** `totemplate(ana_list, patterns, default_str)`: a lone name is promoted to
      a list; `default_str` is wrapped in a list and then never used. */
  function ToTemplate(anaList: StrOrList, patterns: seq<string>, defaultStr: string): seq<string>
  {
    var tmp := AllMarks(AsList(anaList), patterns);
    Chunks(tmp, |patterns|, 0)
  }

  /** The patterns that occur in `name`, in pattern order. */
  function Occurring(patterns: seq<string>, name: string): (found: seq<string>)
    ensures forall k :: 0 <= k < |found| ==> found[k] in patterns && Contains(name, found[k])
    ensures forall j :: 0 <= j < |patterns| && Contains(name, patterns[j]) ==> patterns[j] in found
    decreases |patterns|
  {
    if patterns == [] then []
    else (if Contains(name, patterns[0]) then [patterns[0]] else []) + Occurring(patterns[1..], name)
  }

  /** The template of one name: the patterns it contains, concatenated in
      pattern order. */
  function TemplateOf(name: string, patterns: seq<string>): string
  {
    Join(Occurring(patterns, name), [])
  }

  /** Joining the marks of a name gives its template: the `''` marks add nothing. */
  lemma {:induction false} MarksJoin(x: string, patterns: seq<string>)
    ensures Join(Marks(x, patterns), []) == TemplateOf(x, patterns)
    decreases |patterns|
  {
    if patterns != [] {
      MarksJoin(x, patterns[1..]);
      var marks := Marks(x, patterns);
      ConcatCons(marks);
      assert marks[1..] == Marks(x, patterns[1..]);
      var found := Occurring(patterns, name := x);
      if Contains(x, patterns[0]) {
        ConcatCons(found);
        assert found[1..] == Occurring(patterns[1..], x);
      } else {
        assert found == Occurring(patterns[1..], x);
      }
    }
  }

  /** Indices strictly inside the first chunk produce nothing. */
  lemma {:induction false} ChunksSkip(tmp: seq<string>, n: nat, j: nat)
    requires 0 < j <= n <= |tmp|
    ensures Chunks(tmp, n, j) == Chunks(tmp, n, n)
    decreases n - j
  {
    if j < n {
      assert j % n == j;
      ChunksSkip(tmp, n, j + 1);
    }
  }

  /** Shifting an index by the modulus keeps its remainder. */
  lemma ShiftedRemainder(n: nat, k: nat)
    requires n > 0
    ensures (n + k) % n == k % n
  {
    var q, r := k / n, k % n;
    var q', r' := (n + k) / n, (n + k) % n;
    assert n * (q + 1 - q') == r' - r;
    if q + 1 - q' > 0 {
      MultiplyAtLeast(n, q + 1 - q');
    } else if q + 1 - q' < 0 {
      MultiplyAtLeast(n, q' - q - 1);
    }
  }

  /** A positive multiple of `n` is at least `n`. */
  lemma MultiplyAtLeast(n: nat, m: int)
    requires m > 0
    ensures n * m >= n
  {
  }

  /** Past the first `n` marks, chunking goes on as on the marks that follow. */
  lemma {:induction false} ChunksShift(t: seq<string>, n: nat, k: nat)
    requires 0 < n <= |t| && k <= |t| - n
    ensures Chunks(t, n, n + k) == Chunks(t[n..], n, k)
    decreases |t| - k
  {
    if k < |t| - n {
      calc {
        Chunks(t, n, n + k);
        ChunkAt(t, n, n + k) + Chunks(t, n, n + k + 1);
        { ChunkAtShift(t, n, k); ChunksShift(t, n, k + 1); }
        ChunkAt(t[n..], n, k) + Chunks(t[n..], n, k + 1);
        Chunks(t[n..], n, k);
      }
    }
  }

  /** The chunk at index `n + k` is the chunk at `k` of what follows the first `n`. */
  lemma ChunkAtShift(t: seq<string>, n: nat, k: nat)
    requires 0 < n <= |t| && k < |t| - n
    ensures ChunkAt(t, n, n + k) == ChunkAt(t[n..], n, k)
  {
    var rest := t[n..];
    ShiftedRemainder(n, k);
    var hi := Min(k + n, |rest|);
    assert Min(n + k + n, |t|) == n + hi;
    assert t[n + k..n + hi] == rest[k..hi];
  }

  /** The first chunk is `''.join` of the first `n` marks. */
  lemma ChunksFirst(prefix: seq<string>, rest: seq<string>)
    requires |prefix| > 0
    ensures Chunks(prefix + rest, |prefix|, 0) == [Join(prefix, [])] + Chunks(rest, |prefix|, 0)
  {
    var n := |prefix|;
    var t := prefix + rest;
    assert t[0..Min(n, |t|)] == prefix;
    if n > 1 {
      ChunksSkip(t, n, 1);
    }
    ChunksShift(t, n, 0);
    assert t[n..] == rest;
  }

  /** Chunking the marks of several names gives one template per name. */
  lemma {:induction false} ChunksOfAllMarks(anaList: seq<string>, patterns: seq<string>)
    requires patterns != []
    ensures |Chunks(AllMarks(anaList, patterns), |patterns|, 0)| == |anaList|
    ensures forall i :: 0 <= i < |anaList| ==>
              Chunks(AllMarks(anaList, patterns), |patterns|, 0)[i] == TemplateOf(anaList[i], patterns)
    decreases |anaList|
  {
    if anaList != [] {
      var n := |patterns|;
      var head := Marks(anaList[0], patterns);
      var tail := AllMarks(anaList[1..], patterns);
      var rest := Chunks(tail, n, 0);
      var all := Chunks(AllMarks(anaList, patterns), n, 0);
      assert AllMarks(anaList, patterns) == head + tail;
      ChunksFirst(head, tail);
      assert all == [Join(head, [])] + rest;
      MarksJoin(anaList[0], patterns);
      ChunksOfAllMarks(anaList[1..], patterns);
      forall i | 0 < i < |anaList| ensures all[i] == TemplateOf(anaList[i], patterns) {
        assert all[i] == rest[i - 1];
        assert anaList[1..][i - 1] == anaList[i];
      }
    }
  }

  /** `totemplate` with a non-empty pattern list gives one entry per name, the
      concatenation in pattern order of the patterns that name contains (`''`
      when it contains none, whatever `default_str` is); with no patterns it
      gives `[]`. */
  lemma ToTemplateSpec(anaList: StrOrList, patterns: seq<string>, defaultStr: string)
    ensures patterns == [] ==> ToTemplate(anaList, patterns, defaultStr) == []
    ensures patterns != [] ==> |ToTemplate(anaList, patterns, defaultStr)| == |AsList(anaList)|
    ensures patterns != [] ==> forall i :: 0 <= i < |AsList(anaList)| ==>
              ToTemplate(anaList, patterns, defaultStr)[i] == TemplateOf(AsList(anaList)[i], patterns)
  {
    if patterns != [] {
      ChunksOfAllMarks(AsList(anaList), patterns);
    }
  }

  /** A name that contains none of the patterns has the template `''`. */
  lemma TemplateOfNoMatch(name: string, patterns: seq<string>)
    requires forall j :: 0 <= j < |patterns| ==> !Contains(name, patterns[j])
    ensures Occurring(patterns, name) == []
    ensures TemplateOf(name, patterns) == []
  {
  }

  /** With two patterns of which the name contains only the first, the
      template is the first. */
  lemma TemplateOfFirstOnly(name: string, p: string, q: string)
    requires Contains(name, p) && !Contains(name, q)
    ensures TemplateOf(name, [p, q]) == p
  {
    assert [p, q][1..] == [q];
    assert [q][1..] == [];
    assert Occurring([q], name) == [];
    assert Occurring([p, q], name) == [p];
    ConcatCons([p]);
  }

  /** With two patterns of which the name contains only the second, the
      template is the second. */
  lemma TemplateOfSecondOnly(name: string, p: string, q: string)
    requires !Contains(name, p) && Contains(name, q)
    ensures TemplateOf(name, [p, q]) == q
  {
    assert [p, q][1..] == [q];
    assert [q][1..] == [];
    assert Occurring([q], name) == [q];
    assert Occurring([p, q], name) == [q];
    ConcatCons([q]);
  }

  /** `x + p + y` contains `p`. */
  lemma ContainsMiddle(x: string, p: string, y: string)
    ensures Contains(x + p + y, p)
  {
    ContainsTrivial(p);
    ContainsInConcat(p, y, p);
    ContainsInConcat(p + y, x, p);
    assert x + p + y == x + (p + y);
  }

  /** A string without the character `c` does not contain a pattern that has it. */
  lemma LacksChar(s: string, sub: string, c: char)
    requires c in sub && c !in s
    ensures !Contains(s, sub)
  {
    ContainsChars(s, sub);
  }

  /** Five pieces joined on `c`, none of which contains `sub`, do not contain it. */
  lemma NotContainsJoinFive(a: string, b: string, d: string, e: string, f: string, c: char, sub: string)
    requires c !in sub
    requires !Contains(a, sub) && !Contains(b, sub) && !Contains(d, sub)
    requires !Contains(e, sub) && !Contains(f, sub)
    ensures !Contains(a + [c] + b + [c] + d + [c] + e + [c] + f, sub)
  {
    var x1 := e + [c] + f;
    var x2 := d + [c] + x1;
    var x3 := b + [c] + x2;
    ContainsAcross(e, c, f, sub);
    ContainsAcross(d, c, x1, sub);
    ContainsAcross(b, c, x2, sub);
    ContainsAcross(a, c, x3, sub);
    assert a + [c] + x3 == a + [c] + b + [c] + d + [c] + e + [c] + f;
  }

  /** The first example name contains `fsaverage`. */
  lemma FirstTemplateNameHas()
    ensures Contains("lh.fsaverage.f20.f-vs-o.label", "fsaverage")
  {
    ContainsMiddle("lh.", "fsaverage", ".f20.f-vs-o.label");
    assert "lh.fsaverage.f20.f-vs-o.label" == "lh." + "fsaverage" + ".f20.f-vs-o.label";
  }

  /** Five dot-separated pieces that each lack some letter of `self` do not
      contain `self`. */
  lemma LacksSelfShape(a: string, b: string, d: string, e: string, f: string)
    requires 's' !in a && 'l' !in b && 's' !in d && 'l' !in e && 's' !in f
    ensures !Contains(a + "." + b + "." + d + "." + e + "." + f, "self")
  {
    var self := "self";
    assert self[0] == 's' && self[2] == 'l';
    LacksChar(a, self, 's');
    LacksChar(b, self, 'l');
    LacksChar(d, self, 's');
    LacksChar(e, self, 'l');
    LacksChar(f, self, 's');
    NotContainsJoinFive(a, b, d, e, f, '.', self);
  }

  /** The first example name does not contain `self`. */
  lemma FirstTemplateNameLacks()
    ensures !Contains("lh.fsaverage.f20.f-vs-o.label", "self")
  {
    FirstTemplateNamePieces();
    LacksSelfShape("lh", "fsaverage", "f20", "f-vs-o", "label");
  }

  /** The first example name, piece by piece. */
  lemma FirstTemplateNamePieces()
    ensures "lh.fsaverage.f20.f-vs-o.label" == "lh" + "." + "fsaverage" + "." + "f20" + "." + "f-vs-o" + "." + "label"
  {
  }

  /** The second example name contains `self`. */
  lemma SecondTemplateNameHas()
    ensures Contains("lh.self.f13.f-vs-scr.label", "self")
  {
    ContainsMiddle("lh.", "self", ".f13.f-vs-scr.label");
    assert "lh.self.f13.f-vs-scr.label" == "lh." + "self" + ".f13.f-vs-scr.label";
  }

  /** A name without the letter `g` does not contain `fsaverage`. */
  lemma LacksFsaverageShape(name: string)
    requires 'g' !in name
    ensures !Contains(name, "fsaverage")
  {
    var fsaverage := "fsaverage";
    assert fsaverage[7] == 'g';
    LacksChar(name, fsaverage, 'g');
  }

  /** The second example name does not contain `fsaverage`. */
  lemma SecondTemplateNameLacks()
    ensures !Contains("lh.self.f13.f-vs-scr.label", "fsaverage")
  {
    LacksFsaverageShape("lh.self.f13.f-vs-scr.label");
  }

  /** Two names, the first holding only `fsaverage`, the second only `self`,
      have the templates `fsaverage` and `self`. */
  lemma TemplatesOfTwo(a: string, b: string)
    requires Contains(a, "fsaverage") && !Contains(a, "self")
    requires !Contains(b, "fsaverage") && Contains(b, "self")
    ensures ToTemplate(List([a, b]), TemplatePatterns, UnknownTemplate) == ["fsaverage", "self"]
  {
    ToTemplateSpec(List([a, b]), TemplatePatterns, UnknownTemplate);
    TemplateOfFirstOnly(a, "fsaverage", "self");
    TemplateOfSecondOnly(b, "fsaverage", "self");
  }

  /** `totemplate(['lh.fsaverage.f20.f-vs-o.label', 'lh.self.f13.f-vs-scr.label'])`
      is `['fsaverage', 'self']`. */
  lemma TemplatesOfDemoNames()
    ensures ToTemplate(List(["lh.fsaverage.f20.f-vs-o.label", "lh.self.f13.f-vs-scr.label"]),
                       TemplatePatterns, UnknownTemplate) == ["fsaverage", "self"]
  {
    FirstTemplateNameHas();
    FirstTemplateNameLacks();
    SecondTemplateNameHas();
    SecondTemplateNameLacks();
    TemplatesOfTwo("lh.fsaverage.f20.f-vs-o.label", "lh.self.f13.f-vs-scr.label");
  }

  /** `TemplateOf` with a name that holds both patterns: their concatenation. */
  lemma TemplateOfBoth(name: string, p: string, q: string)
    requires Contains(name, p) && Contains(name, q)
    ensures TemplateOf(name, [p, q]) == p + q
  {
    assert [p, q][1..] == [q];
    assert [q][1..] == [];
    assert Occurring([q], name) == [q];
    assert Occurring([p, q], name) == [p, q];
    ConcatCons([p, q]);
    ConcatCons([q]);
    assert [p, q][1..] == [q];
  }

  /** The template the documentation of `totemplate` describes: the one
      pattern found, `default_str` when none is found, `multiple` when two or
      more are. */
  function TemplateLabel(name: string, patterns: seq<string>, defaultStr: string): string
  {
    var found := Occurring(patterns, name);
    if |found| == 0 then defaultStr
    else if |found| == 1 then found[0]
    else "multiple"
  }

  /** Two patterns found in the name, at different places of the list, both
      appear in the list of found patterns. */
  lemma {:induction false} OccurringAtLeastTwo(patterns: seq<string>, name: string, j1: nat, j2: nat)
    requires j1 < j2 < |patterns|
    requires Contains(name, patterns[j1]) && Contains(name, patterns[j2])
    ensures |Occurring(patterns, name)| >= 2
    decreases |patterns|
  {
    var rest := Occurring(patterns[1..], name);
    assert Occurring(patterns, name) ==
      (if Contains(name, patterns[0]) then [patterns[0]] else []) + rest;
    if j1 == 0 {
      assert patterns[1..][j2 - 1] == patterns[j2];
      assert patterns[j2] in rest;
    } else {
      assert patterns[1..][j1 - 1] == patterns[j1];
      assert patterns[1..][j2 - 1] == patterns[j2];
      OccurringAtLeastTwo(patterns[1..], name, j1 - 1, j2 - 1);
    }
  }

  /** `TemplateLabel` gives `default_str` to a name with no pattern, the pattern
      itself to a name with exactly one, and `multiple` to a name with two or
      more, such as both default patterns. */
  lemma TemplateLabelSpec(name: string, patterns: seq<string>, defaultStr: string)
    ensures (forall j :: 0 <= j < |patterns| ==> !Contains(name, patterns[j])) ==>
              TemplateLabel(name, patterns, defaultStr) == defaultStr
    ensures |Occurring(patterns, name)| == 1 ==>
              TemplateLabel(name, patterns, defaultStr) in patterns &&
              Contains(name, TemplateLabel(name, patterns, defaultStr))
    ensures (exists j1, j2 :: 0 <= j1 < j2 < |patterns| &&
               Contains(name, patterns[j1]) && Contains(name, patterns[j2])) ==>
              TemplateLabel(name, patterns, defaultStr) == "multiple"
    ensures Contains(name, "fsaverage") && Contains(name, "self") ==>
              TemplateLabel(name, TemplatePatterns, defaultStr) == "multiple"
  {
    if forall j :: 0 <= j < |patterns| ==> !Contains(name, patterns[j]) {
      TemplateOfNoMatch(name, patterns);
    }
    if exists j1, j2 :: 0 <= j1 < j2 < |patterns| &&
         Contains(name, patterns[j1]) && Contains(name, patterns[j2]) {
      var j1, j2 :| 0 <= j1 < j2 < |patterns| &&
        Contains(name, patterns[j1]) && Contains(name, patterns[j2]);
      OccurringAtLeastTwo(patterns, name, j1, j2);
    }
    if Contains(name, "fsaverage") && Contains(name, "self") {
      TemplateOfBoth(name, "fsaverage", "self");
      assert TemplatePatterns[1..] == ["self"];
      assert ["self"][1..] == [];
      assert Occurring(["self"], name) == ["self"];
      assert Occurring(TemplatePatterns, name) == ["fsaverage", "self"];
    }
  }

  /** A lone name without the letter `s`: `totemplate` gives `['']` where the
      documented behaviour is `default_str`. */
  lemma TemplateWithoutPatternShape(name: string)
    requires 's' !in name
    ensures ToTemplate(Str(name), TemplatePatterns, UnknownTemplate) == [[]]
    ensures TemplateLabel(name, TemplatePatterns, UnknownTemplate) == UnknownTemplate
  {
    ToTemplateSpec(Str(name), TemplatePatterns, UnknownTemplate);
    LacksChar(name, "fsaverage", 's');
    LacksChar(name, "self", 's');
    TemplateOfNoMatch(name, TemplatePatterns);
    TemplateLabelSpec(name, TemplatePatterns, UnknownTemplate);
  }

  /** A lone name holding both default patterns: `totemplate` gives their
      concatenation where the documented behaviour is `multiple`. */
  lemma TemplateWithBothShape(name: string)
    requires Contains(name, "fsaverage") && Contains(name, "self")
    ensures ToTemplate(Str(name), TemplatePatterns, UnknownTemplate) == ["fsaverageself"]
    ensures TemplateLabel(name, TemplatePatterns, UnknownTemplate) == "multiple"
  {
    ToTemplateSpec(Str(name), TemplatePatterns, UnknownTemplate);
    TemplateOfBoth(name, "fsaverage", "self");
    assert AsList(Str(name)) == [name];
    assert "fsaverage" + "self" == "fsaverageself";
    TemplateLabelSpec(name, TemplatePatterns, UnknownTemplate);
  }

  /** `totemplate('lh.f20.label')` is `['']`, not `['unknown']`. */
  lemma ToTemplateUnmatchedAsWritten()
    ensures ToTemplate(Str("lh.f20.label"), TemplatePatterns, UnknownTemplate) == [[]]
    ensures TemplateLabel("lh.f20.label", TemplatePatterns, UnknownTemplate) == UnknownTemplate
  {
    TemplateWithoutPatternShape("lh.f20.label");
  }

  /** `totemplate('fsaverage.self')` is `['fsaverageself']`, not `['multiple']`. */
  lemma ToTemplateBothAsWritten()
    ensures ToTemplate(Str("fsaverage.self"), TemplatePatterns, UnknownTemplate) == ["fsaverageself"]
    ensures TemplateLabel("fsaverage.self", TemplatePatterns, UnknownTemplate) == "multiple"
  {
    ContainsMiddle([], "fsaverage", ".self");
    ContainsMiddle("fsaverage.", "self", []);
    assert "fsaverage.self" == [] + "fsaverage" + ".self";
    assert "fsaverage.self" == "fsaverage." + "self" + [];
    TemplateWithBothShape("fsaverage.self");
  }

  // ---------------------------------------------------------------------
  // colors
  // ---------------------------------------------------------------------

  /** An RGB colour with channels in [0, 1]. */
  datatype Rgb = Rgb(red: real, green: real, blue: real)

  const Black: Rgb := Rgb(0.0, 0.0, 0.0)

  /** The fixed colour table: white, yellow, magenta, green, purple, blue and
      six rows of black. */
  const ColorTable: seq<Rgb> := [
    Rgb(1.0, 1.0, 1.0),
    Rgb(1.0, 1.0, 0.0),
    Rgb(1.0, 0.0, 1.0),
    Rgb(0.0, 1.0, 0.0),
    Rgb(0.5, 0.0, 1.0),
    Rgb(0.0, 1.0, 1.0),
    Black, Black, Black, Black, Black, Black
  ]

  /** `[clr[c] for c in range(k, n_clr) if c in color]`. */
  function ColorsFrom(color: seq<int>, k: nat): seq<Rgb>
    requires k <= |ColorTable|
    decreases |ColorTable| - k
  {
    if k == |ColorTable| then []
    else (if k in color then [ColorTable[k]] else []) + ColorsFrom(color, k + 1)
  }

  /** `colors(color)`: the table rows whose index is listed in `color`.  The
      code assigns `n_color = range(n_clr)` for an empty `color` and never
      reads it. */
  function Colors(color: seq<int>): seq<Rgb>
  {
    ColorsFrom(color, 0)
  }

  /** The table indices, from `k` on, that `color` lists, in increasing order. */
  function SelectedFrom(color: seq<int>, k: nat): (idx: seq<nat>)
    requires k <= |ColorTable|
    ensures forall i :: 0 <= i < |idx| ==> k <= idx[i] < |ColorTable| && idx[i] as int in color
    ensures forall c :: c in color && k <= c < |ColorTable| ==> c as nat in idx
    ensures forall i, j :: 0 <= i < j < |idx| ==> idx[i] < idx[j]
    ensures |idx| <= |ColorTable| - k
    decreases |ColorTable| - k
  {
    if k == |ColorTable| then []
    else (if k in color then [k] else []) + SelectedFrom(color, k + 1)
  }

  /** Each selected row is the table row at the selected index. */
  lemma {:induction false} ColorsAreSelectedRows(color: seq<int>, k: nat)
    requires k <= |ColorTable|
    ensures |ColorsFrom(color, k)| == |SelectedFrom(color, k)|
    ensures forall i :: 0 <= i < |ColorsFrom(color, k)| ==>
              ColorsFrom(color, k)[i] == ColorTable[SelectedFrom(color, k)[i]]
    decreases |ColorTable| - k
  {
    if k < |ColorTable| {
      ColorsAreSelectedRows(color, k + 1);
    }
  }

  /** `colors(color)` has at most one row per table row, each of them a table
      row, and none for an empty list; which rows and in what order is
      `ColorsAreSelectedRows` with `SelectedFrom`. */
  lemma ColorsSpec(color: seq<int>)
    ensures |Colors(color)| <= |ColorTable|
    ensures forall i :: 0 <= i < |Colors(color)| ==> Colors(color)[i] in ColorTable
    ensures color == [] ==> Colors(color) == []
  {
    ColorsAreSelectedRows(color, 0);
    var idx := SelectedFrom(color, 0);
    assert color == [] ==> idx == [];
  }

  /** Rows 6 through 11 of the table are black, so a selection of those rows
      only is all black. */
  lemma BlackRows(color: seq<int>)
    requires forall c :: c in color ==> 6 <= c
    ensures forall i :: 0 <= i < |Colors(color)| ==> Colors(color)[i] == Black
  {
    BlackTail();
    ColorsAreSelectedRows(color, 0);
    var idx := SelectedFrom(color, 0);
    forall i | 0 <= i < |Colors(color)| ensures Colors(color)[i] == Black {
      var r := idx[i];
      assert r as int in color;
      assert 6 <= r < |ColorTable|;
      assert ColorTable[r] == Black;
    }
  }

  /** The last six rows of the table are black. */
  lemma BlackTail()
    ensures forall r :: 6 <= r < |ColorTable| ==> ColorTable[r] == Black
  {
  }

  /** `colors([])` is `[]`: the `n_color = range(n_clr)` the code computes for
      an empty list is never used. */
  lemma ColorsOfNothingAsWritten()
    ensures Colors([]) == []
    ensures ColorsOrAll([]) == ColorTable
  {
    ColorsSpec([]);
    ColorsOfAll(0);
  }

  /** Every table index, `range(n_clr)`. */
  function AllRows(): (rows: seq<int>)
    ensures |rows| == |ColorTable|
    ensures forall r :: 0 <= r < |ColorTable| ==> rows[r] == r
  {
    seq(|ColorTable|, i => i)
  }

  /** `colors` as its empty-list branch evidently intends: all rows when
      `color` is empty, otherwise the rows it lists. */
  function ColorsOrAll(color: seq<int>): seq<Rgb>
  {
    Colors(if color == [] then AllRows() else color)
  }

  /** Selecting every index from `k` on gives the rest of the table. */
  lemma {:induction false} ColorsOfAll(k: nat)
    requires k <= |ColorTable|
    ensures ColorsFrom(AllRows(), k) == ColorTable[k..]
    decreases |ColorTable| - k
  {
    if k < |ColorTable| {
      ColorsOfAll(k + 1);
      assert AllRows()[k] == k;
      assert ColorTable[k..] == [ColorTable[k]] + ColorTable[k + 1..];
    }
  }

  /** `ColorsOrAll` returns the whole table for an empty list and agrees with
      `colors` otherwise. */
  lemma ColorsOrAllSpec(color: seq<int>)
    ensures color == [] ==> ColorsOrAll(color) == ColorTable
    ensures color != [] ==> ColorsOrAll(color) == Colors(color)
  {
    ColorsOfAll(0);
  }
}

/** `cmdpath`: make paths inside shell commands safe for bash by replacing
    strings, one (key, value) pair at a time, in the order of a table that
    holds the default escapes followed by the caller's own pairs. */
module ShellUtil {
  import opened PyStr

  /** A Python dictionary of replacement pairs, in insertion order. */
  type Table = seq<(string, string)>

  datatype Option<T> = None | Some(value: T)

  /** `defaultKwargs`: escape a space, `(` and `)` with a backslash and spell
      `~` out as `$HOME`. */
  const DefaultTable: Table := [(" ", "\\ "), ("(", "\\("), (")", "\\)"), ("~", "$HOME")]

  /** The keys of a table, in order. */
  function Keys(t: Table): (keys: seq<string>)
    ensures |keys| == |t|
    ensures forall i :: 0 <= i < |t| ==> keys[i] == t[i].0
  {
    if t == [] then [] else [t[0].0] + Keys(t[1..])
  }

  /** A dictionary holds each key at most once. */
  predicate DistinctKeys(t: Table)
  {
    forall i, j :: 0 <= i < j < |t| ==> t[i].0 != t[j].0
  }

  /** `d.get(k)`. */
  function Lookup(t: Table, k: string): (r: Option<string>)
    ensures r.None? <==> k !in Keys(t)
    ensures r.Some? ==> (k, r.value) in t
  {
    if t == [] then None
    else if t[0].0 == k then Some(t[0].1)
    else Lookup(t[1..], k)
  }

  /** The defaults, each with the caller's value when the caller gives its key. */
  function Override(defaults: Table, kwargs: Table): (t: Table)
    ensures Keys(t) == Keys(defaults)
  {
    if defaults == [] then []
    else
      var k := defaults[0].0;
      var v := match Lookup(kwargs, k) case Some(w) => w case None => defaults[0].1;
      [(k, v)] + Override(defaults[1..], kwargs)
  }

  /** The caller's pairs whose key is not a default key, in the caller's order. */
  function NewEntries(kwargs: Table, defaults: Table): (t: Table)
    ensures |t| <= |kwargs|
  {
    if kwargs == [] then []
    else (if kwargs[0].0 in Keys(defaults) then [] else [kwargs[0]]) + NewEntries(kwargs[1..], defaults)
  }

  /** The new entries are exactly the caller's pairs whose key is not a default key. */
  lemma {:induction false} NewEntriesMembers(kwargs: Table, defaults: Table)
    ensures forall i :: 0 <= i < |NewEntries(kwargs, defaults)| ==>
              NewEntries(kwargs, defaults)[i] in kwargs && NewEntries(kwargs, defaults)[i].0 !in Keys(defaults)
    ensures forall p :: p in kwargs && p.0 !in Keys(defaults) ==> p in NewEntries(kwargs, defaults)
    decreases |kwargs|
  {
    if kwargs != [] {
      NewEntriesMembers(kwargs[1..], defaults);
      var rest := NewEntries(kwargs[1..], defaults);
      forall p | p in kwargs && p.0 !in Keys(defaults) ensures p in NewEntries(kwargs, defaults) {
        if p != kwargs[0] {
          assert p in kwargs[1..];
        }
      }
    }
  }

  /** `{**defaults, **kwargs}`: the defaults keep their places (with the
      caller's value where the caller gives the same key) and the caller's other
      pairs follow. */
  function MergeKwargs(defaults: Table, kwargs: Table): Table
  {
    Override(defaults, kwargs) + NewEntries(kwargs, defaults)
  }

  /** The caller's pairs with a new key keep the caller's order. */
  lemma {:induction false} NewEntriesAppend(a: Table, b: Table, defaults: Table)
    ensures NewEntries(a + b, defaults) == NewEntries(a, defaults) + NewEntries(b, defaults)
    decreases |a|
  {
    if a != [] {
      NewEntriesAppend(a[1..], b, defaults);
      assert (a + b)[1..] == a[1..] + b;
      assert (a + b)[0] == a[0];
    } else {
      assert a + b == b;
    }
  }

  /** Looking a key up in the overridden defaults gives the caller's value when
      the caller has the key, the default's otherwise. */
  lemma {:induction false} LookupOverride(defaults: Table, kwargs: Table, k: string)
    requires k in Keys(defaults)
    ensures Lookup(Override(defaults, kwargs), k) ==
              (if Lookup(kwargs, k).Some? then Lookup(kwargs, k) else Lookup(defaults, k))
    decreases |defaults|
  {
    if defaults[0].0 != k {
      LookupOverride(defaults[1..], kwargs, k);
    }
  }

  /** A key missing from the first table is looked up in the second. */
  lemma {:induction false} LookupAppend(a: Table, b: Table, k: string)
    ensures Lookup(a + b, k) == if k in Keys(a) then Lookup(a, k) else Lookup(b, k)
    decreases |a|
  {
    if a != [] {
      assert (a + b)[1..] == a[1..] + b;
      if a[0].0 != k {
        LookupAppend(a[1..], b, k);
      }
    } else {
      assert a + b == b;
    }
  }

  /** In a table with distinct keys, a pair it holds is what its key looks up. */
  lemma {:induction false} LookupOfMember(t: Table, k: string, v: string)
    requires DistinctKeys(t)
    requires (k, v) in t
    ensures Lookup(t, k) == Some(v)
    decreases |t|
  {
    if t[0] != (k, v) {
      assert t[0].0 != k;
      LookupOfMember(t[1..], k, v);
    }
  }

  /** The keys of the new entries are distinct when the caller's keys are. */
  lemma {:induction false} NewEntriesDistinct(kwargs: Table, defaults: Table)
    requires DistinctKeys(kwargs)
    ensures DistinctKeys(NewEntries(kwargs, defaults))
    decreases |kwargs|
  {
    if kwargs != [] {
      NewEntriesDistinct(kwargs[1..], defaults);
      NewEntriesMembers(kwargs[1..], defaults);
      var rest := NewEntries(kwargs[1..], defaults);
      forall i | 0 <= i < |rest| ensures rest[i].0 != kwargs[0].0 {
        var j :| 0 <= j < |kwargs[1..]| && kwargs[1..][j] == rest[i];
        assert kwargs[j + 1] == rest[i];
      }
    }
  }

  /** `{**defaults, **kwargs}` is a dictionary union biased to the caller: its
      keys are distinct, the defaults' keys come first in their own order, a key
      looks up the caller's value if the caller gives one and the default's
      otherwise, and the remaining pairs are the caller's pairs with new keys
      (in the caller's order, by `NewEntriesAppend`). */
  lemma MergeIsDictUnion(defaults: Table, kwargs: Table)
    requires DistinctKeys(defaults) && DistinctKeys(kwargs)
    ensures var merged := MergeKwargs(defaults, kwargs);
            DistinctKeys(merged) &&
            |merged| >= |defaults| &&
            Keys(merged)[..|defaults|] == Keys(defaults) &&
            (forall i :: |defaults| <= i < |merged| ==> merged[i] in kwargs && merged[i].0 !in Keys(defaults))
    ensures forall k :: Lookup(MergeKwargs(defaults, kwargs), k) ==
              (if Lookup(kwargs, k).Some? then Lookup(kwargs, k) else Lookup(defaults, k))
  {
    var over := Override(defaults, kwargs);
    var extra := NewEntries(kwargs, defaults);
    var merged := over + extra;
    NewEntriesDistinct(kwargs, defaults);
    NewEntriesMembers(kwargs, defaults);
    assert Keys(merged)[..|defaults|] == Keys(over);
    forall i, j | 0 <= i < j < |merged| ensures merged[i].0 != merged[j].0 {
      if j < |over| {
        assert Keys(over)[i] == Keys(defaults)[i];
      } else if i < |over| {
        assert Keys(over)[i] in Keys(defaults);
      }
    }
    forall k ensures Lookup(merged, k) ==
                       (if Lookup(kwargs, k).Some? then Lookup(kwargs, k) else Lookup(defaults, k)) {
      LookupAppend(over, extra, k);
      if k in Keys(defaults) {
        LookupOverride(defaults, kwargs, k);
      } else if Lookup(kwargs, k).Some? {
        var v := Lookup(kwargs, k).value;
        LookupOfMember(extra, k, v);
      }
    }
  }

  /** A caller key equal to a default key takes that default's place, with
      the caller's value; the other defaults keep theirs. */
  lemma {:induction false} MergeOverridesInPlace(defaults: Table, kwargs: Table, i: nat)
    requires i < |defaults|
    ensures i < |MergeKwargs(defaults, kwargs)|
    ensures MergeKwargs(defaults, kwargs)[i] ==
              (defaults[i].0, match Lookup(kwargs, defaults[i].0) case Some(w) => w case None => defaults[i].1)
    decreases i
  {
    if i > 0 {
      MergeOverridesInPlace(defaults[1..], kwargs, i - 1);
      assert Override(defaults, kwargs)[i] == Override(defaults[1..], kwargs)[i - 1];
    }
  }

  /** The replacements of `pairs` applied one after the other. */
  function ApplyPairs(pairs: Table, s: string): string
  {
    if pairs == [] then s
    else
      var last := pairs[|pairs| - 1];
      Replace(ApplyPairs(pairs[..|pairs| - 1], s), last.0, last.1)
  }

  /** Applying the first `i + 1` pairs is applying the first `i`, then pair `i`. */
  lemma ApplyPairsStep(pairs: Table, i: nat, s: string)
    requires i < |pairs|
    ensures ApplyPairs(pairs[..i + 1], s) == Replace(ApplyPairs(pairs[..i], s), pairs[i].0, pairs[i].1)
  {
    assert pairs[..i + 1][..i] == pairs[..i];
  }

  /** `[cmd.replace(k, v) for cmd in cmds]`. */
  function ReplaceEach(cmds: seq<string>, k: string, v: string): (r: seq<string>)
    ensures |r| == |cmds|
    ensures forall j :: 0 <= j < |cmds| ==> r[j] == Replace(cmds[j], k, v)
  {
    seq(|cmds|, j requires 0 <= j < |cmds| => Replace(cmds[j], k, v))
  }

  /** `cmdpath(cmdlist, **kwargs)`: merge the defaults with the caller's pairs,
      then, for each pair in order, replace every occurrence of its key by its
      value in every command.  A lone string comes back as a string. */
  method CmdPath(cmdlist: StrOrList, kwargs: Table) returns (out: StrOrList)
    ensures out.Str? == cmdlist.Str?
    ensures |AsList(out)| == |AsList(cmdlist)|
    ensures forall j :: 0 <= j < |AsList(out)| ==>
              AsList(out)[j] == ApplyPairs(MergeKwargs(DefaultTable, kwargs), AsList(cmdlist)[j])
  {
    var table := MergeKwargs(DefaultTable, kwargs);
    var cmds := AsList(cmdlist);
    var i := 0;
    while i < |table|
      invariant 0 <= i <= |table|
      invariant |cmds| == |AsList(cmdlist)|
      invariant forall j :: 0 <= j < |cmds| ==> cmds[j] == ApplyPairs(table[..i], AsList(cmdlist)[j])
    {
      var (k, v) := table[i];
      forall j | 0 <= j < |cmds| {
        ApplyPairsStep(table, i, AsList(cmdlist)[j]);
      }
      cmds := ReplaceEach(cmds, k, v);
      i := i + 1;
    }
    assert table[..i] == table;
    if cmdlist.Str? {
      out := Str(cmds[0]);
    } else {
      out := List(cmds);
    }
  }

  // ---------------------------------------------------------------------
  // The default escapes
  // ---------------------------------------------------------------------

  /** What the default table turns one character into. */
  function EscapeChar(c: char): string
  {
    if c == ' ' then "\\ "
    else if c == '(' then "\\("
    else if c == ')' then "\\)"
    else if c == '~' then "$HOME"
    else [c]
  }

  /** The default table applied character by character. */
  function Escape(s: string): string
  {
    if s == [] then [] else EscapeChar(s[0]) + Escape(s[1..])
  }

  /** The four default replacements, in order. */
  function ApplyDefaults(s: string): string
  {
    Replace(Replace(Replace(Replace(s, " ", "\\ "), "(", "\\("), ")", "\\)"), "~", "$HOME")
  }

  /** Folding the default table is the four replacements in order. */
  lemma ApplyPairsDefaults(s: string)
    ensures ApplyPairs(DefaultTable, s) == ApplyDefaults(s)
  {
    var t := DefaultTable;
    assert t[..0] == [];
    assert ApplyPairs(t[..1], s) == Replace(s, " ", "\\ ") by {
      assert t[..1][..0] == [];
    }
    assert ApplyPairs(t[..2], s) == Replace(ApplyPairs(t[..1], s), "(", "\\(") by {
      assert t[..2][..1] == t[..1];
    }
    assert ApplyPairs(t[..3], s) == Replace(ApplyPairs(t[..2], s), ")", "\\)") by {
      assert t[..3][..2] == t[..2];
    }
    assert ApplyPairs(t, s) == Replace(ApplyPairs(t[..3], s), "~", "$HOME") by {
      assert t[..|t| - 1] == t[..3];
    }
  }

  /** The default replacements distribute over concatenation. */
  lemma ApplyDefaultsConcat(a: string, b: string)
    ensures ApplyDefaults(a + b) == ApplyDefaults(a) + ApplyDefaults(b)
  {
    ReplaceCharConcat(a, b, ' ', "\\ ");
    var a1, b1 := Replace(a, " ", "\\ "), Replace(b, " ", "\\ ");
    ReplaceCharConcat(a1, b1, '(', "\\(");
    var a2, b2 := Replace(a1, "(", "\\("), Replace(b1, "(", "\\(");
    ReplaceCharConcat(a2, b2, ')', "\\)");
    var a3, b3 := Replace(a2, ")", "\\)"), Replace(b2, ")", "\\)");
    ReplaceCharConcat(a3, b3, '~', "$HOME");
  }

  /** The default replacements on one character. */
  lemma ApplyDefaultsChar(c: char)
    ensures ApplyDefaults([c]) == EscapeChar(c)
  {
    ReplaceOneChar(c, ' ', "\\ ");
    var e1 := Replace([c], " ", "\\ ");
    if c == ' ' {
      ReplaceCharAbsent(e1, '(', "\\(");
      ReplaceCharAbsent(e1, ')', "\\)");
      ReplaceCharAbsent(e1, '~', "$HOME");
    } else {
      ReplaceOneChar(c, '(', "\\(");
      if c == '(' {
        ReplaceCharAbsent("\\(", ')', "\\)");
        ReplaceCharAbsent("\\(", '~', "$HOME");
      } else {
        ReplaceOneChar(c, ')', "\\)");
        if c == ')' {
          ReplaceCharAbsent("\\)", '~', "$HOME");
        } else {
          ReplaceOneChar(c, '~', "$HOME");
        }
      }
    }
  }

  /** Replacing a character in a one-character string. */
  lemma ReplaceOneChar(c: char, d: char, repl: string)
    ensures Replace([c], [d], repl) == if c == d then repl else [c]
  {
    assert [c][..1] == [c];
    assert [c][1..] == [];
  }

  /** With the defaults only, `cmdpath` escapes character by character: each
      later default never rewrites what an earlier one inserted. */
  lemma {:induction false} DefaultsEscape(s: string)
    ensures ApplyPairs(MergeKwargs(DefaultTable, []), s) == Escape(s)
    decreases |s|
  {
    assert MergeKwargs(DefaultTable, []) == DefaultTable;
    ApplyPairsDefaults(s);
    if s != [] {
      DefaultsEscape(s[1..]);
      ApplyPairsDefaults(s[1..]);
      ApplyDefaultsConcat([s[0]], s[1..]);
      ApplyDefaultsChar(s[0]);
      assert s == [s[0]] + s[1..];
    }
  }

  /** How many times `c` occurs in `s`. */
  function Count(s: string, c: char): (n: nat)
    ensures n <= |s|
    ensures n == 0 <==> c !in s
  {
    if s == [] then 0 else (if s[0] == c then 1 else 0) + Count(s[1..], c)
  }

  /** The characters the defaults rewrite. */
  predicate Special(c: char)
  {
    c == ' ' || c == '(' || c == ')' || c == '~'
  }

  /** Each space, `(` and `)` gains a backslash and each `~` becomes five characters. */
  lemma {:induction false} EscapeLength(s: string)
    ensures |Escape(s)| == |s| + Count(s, ' ') + Count(s, '(') + Count(s, ')') + 4 * Count(s, '~')
    decreases |s|
  {
    if s != [] {
      EscapeLength(s[1..]);
    }
  }

  /** No `~` survives the defaults. */
  lemma {:induction false} EscapeNoTilde(s: string)
    ensures '~' !in Escape(s)
    decreases |s|
  {
    if s != [] {
      EscapeNoTilde(s[1..]);
      assert '~' !in EscapeChar(s[0]);
    }
  }

  /** Every space, `(` and `)` in the escaped string follows a backslash. */
  lemma {:induction false} EscapeBackslashed(s: string)
    ensures forall i :: 0 <= i < |Escape(s)| && (Escape(s)[i] == ' ' || Escape(s)[i] == '(' || Escape(s)[i] == ')') ==>
              i > 0 && Escape(s)[i - 1] == '\\'
    decreases |s|
  {
    if s != [] {
      EscapeBackslashed(s[1..]);
      var head, rest := EscapeChar(s[0]), Escape(s[1..]);
      assert Escape(s) == head + rest;
      forall i | 0 <= i < |head + rest| && ((head + rest)[i] == ' ' || (head + rest)[i] == '(' || (head + rest)[i] == ')')
        ensures i > 0 && (head + rest)[i - 1] == '\\'
      {
        if i >= |head| {
          assert rest[i - |head|] == (head + rest)[i];
        }
      }
    }
  }

  /** A string with none of the four characters comes back unchanged. */
  lemma {:induction false} EscapeUnchanged(s: string)
    requires forall i :: 0 <= i < |s| ==> !Special(s[i])
    ensures Escape(s) == s
    decreases |s|
  {
    if s != [] {
      EscapeUnchanged(s[1..]);
      assert s == [s[0]] + s[1..];
    }
  }

  /** `cmdpath(s)` with no caller pairs: no `~` is left, every space, `(` and
      `)` is preceded by a backslash, the length grows by one per space, `(`
      and `)` and by four per `~`, and a string without those characters comes
      back unchanged. */
  lemma CmdPathDefaults(s: string)
    ensures var out := ApplyPairs(MergeKwargs(DefaultTable, []), s);
            '~' !in out &&
            (forall i :: 0 <= i < |out| && (out[i] == ' ' || out[i] == '(' || out[i] == ')') ==>
               i > 0 && out[i - 1] == '\\') &&
            |out| == |s| + Count(s, ' ') + Count(s, '(') + Count(s, ')') + 4 * Count(s, '~')
    ensures (forall i :: 0 <= i < |s| ==> !Special(s[i])) ==> ApplyPairs(MergeKwargs(DefaultTable, []), s) == s
  {
    DefaultsEscape(s);
    EscapeNoTilde(s);
    EscapeBackslashed(s);
    EscapeLength(s);
    if forall i :: 0 <= i < |s| ==> !Special(s[i]) {
      EscapeUnchanged(s);
    }
  }

  /** Applying one more pair replaces after the others. */
  lemma ApplyPairsSnoc(pairs: Table, p: (string, string), s: string)
    ensures ApplyPairs(pairs + [p], s) == Replace(ApplyPairs(pairs, s), p.0, p.1)
  {
    assert (pairs + [p])[..|pairs|] == pairs;
  }

  /** Defaults whose keys the caller does not give keep their values. */
  lemma {:induction false} OverrideUntouched(defaults: Table, kwargs: Table)
    requires forall i :: 0 <= i < |defaults| ==> defaults[i].0 !in Keys(kwargs)
    ensures Override(defaults, kwargs) == defaults
    decreases |defaults|
  {
    if defaults != [] {
      OverrideUntouched(defaults[1..], kwargs);
    }
  }

  /** A caller key that is not a default is appended after the defaults. */
  lemma MergeOneNewKey(k: string, v: string)
    requires k !in Keys(DefaultTable)
    ensures MergeKwargs(DefaultTable, [(k, v)]) == DefaultTable + [(k, v)]
  {
    var kwargs := [(k, v)];
    assert Keys(kwargs) == [k];
    OverrideUntouched(DefaultTable, kwargs);
    assert kwargs[1..] == [];
    assert NewEntries(kwargs, DefaultTable) == kwargs;
  }

  /** `'test '` escapes to `'test\ '`. */
  lemma EscapeOfExample()
    ensures Escape("test ") == "test\\ "
  {
    EscapeUnchanged("test");
    EscapeConcat("test", " ");
    assert "test" + " " == "test ";
  }

  /** Every `e` of `'test\ '` becomes `magic`. */
  lemma ReplaceOfExample()
    ensures Replace("test\\ ", "e", "magic") == "tmagicst\\ "
  {
    assert "test\\ " == ['t'] + ['e'] + "st\\ ";
    ReplaceCharConcat(['t'] + ['e'], "st\\ ", 'e', "magic");
    ReplaceCharConcat(['t'], ['e'], 'e', "magic");
    ReplaceOneChar('t', 'e', "magic");
    ReplaceOneChar('e', 'e', "magic");
    ReplaceCharAbsent("st\\ ", 'e', "magic");
    assert ['t'] + "magic" + "st\\ " == "tmagicst\\ ";
  }

  /** `cmdpath('test ', e='magic')` is `'tmagicst\ '`: the space is escaped
      first, then every `e` is replaced. */
  lemma CmdPathExample()
    ensures ApplyPairs(MergeKwargs(DefaultTable, [("e", "magic")]), "test ") == "tmagicst\\ "
  {
    assert "e" !in Keys(DefaultTable);
    MergeOneNewKey("e", "magic");
    ApplyPairsSnoc(DefaultTable, ("e", "magic"), "test ");
    DefaultsEscape("test ");
    assert MergeKwargs(DefaultTable, []) == DefaultTable;
    EscapeOfExample();
    ReplaceOfExample();
  }

  /** Escaping distributes over concatenation. */
  lemma {:induction false} EscapeConcat(a: string, b: string)
    ensures Escape(a + b) == Escape(a) + Escape(b)
    decreases |a|
  {
    if a != [] {
      EscapeConcat(a[1..], b);
      assert (a + b)[1..] == a[1..] + b;
    } else {
      assert a + b == b;
    }
  }
}

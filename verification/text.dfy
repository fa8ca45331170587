/**
 Character-level string operations the materializer relies on: trimming a
 run of characters from both ends (the slash-stripping regular expressions
 and JavaScript's `String.prototype.trim`), and splitting and joining on a
 separator character (`String.prototype.split` and `Array.prototype.join`).
 */
module Text {

  /** True when every character of `s` satisfies `p`. */
  predicate All(s: string, p: char -> bool) {
    forall i :: 0 <= i < |s| ==> p(s[i])
  }

  /** `s` is `r` with a (possibly empty) run of `p`-characters before it and another after it. */
  ghost predicate Padded(s: string, r: string, p: char -> bool) {
    exists lead: nat ::
      && lead + |r| <= |s|
      && s[lead..lead + |r|] == r
      && All(s[..lead], p)
      && All(s[lead + |r|..], p)
  }

  /** Neither end of `r` is a `p`-character. */
  predicate Bare(r: string, p: char -> bool) {
    r == [] || (!p(r[0]) && !p(r[|r| - 1]))
  }

  /** Drops the leading run of `p`-characters. */
  function TrimStart(s: string, p: char -> bool): (r: string)
    ensures |r| <= |s| && r == s[|s| - |r|..]
    ensures All(s[..|s| - |r|], p)
    ensures r == [] || !p(r[0])
  {
    if s != [] && p(s[0]) then
      var r := TrimStart(s[1..], p);
      var k := |s| - |r|;
      assert s[k..] == s[1..][k - 1..];
      assert All(s[..k], p) by {
        forall i | 0 <= i < k ensures p(s[..k][i]) {
          if i > 0 {
            assert s[..k][i] == s[1..][..k - 1][i - 1];
          }
        }
      }
      r
    else
      s
  }

  /** Drops the trailing run of `p`-characters. */
  function TrimEnd(s: string, p: char -> bool): (r: string)
    ensures |r| <= |s| && r == s[..|r|]
    ensures All(s[|r|..], p)
    ensures r == [] || !p(r[|r| - 1])
  {
    if s != [] && p(s[|s| - 1]) then
      var r := TrimEnd(s[..|s| - 1], p);
      assert s[|r|..] == s[..|s| - 1][|r|..] + [s[|s| - 1]];
      r
    else
      s
  }

  /** Drops the `p`-characters at both ends: what is left is the middle of `s`, untouched. */
  function Trim(s: string, p: char -> bool): (r: string)
    ensures Padded(s, r, p)
    ensures Bare(r, p)
  {
    TrimIsPadded(s, p);
    TrimEnd(TrimStart(s, p), p)
  }

  lemma TrimIsPadded(s: string, p: char -> bool)
    ensures Padded(s, TrimEnd(TrimStart(s, p), p), p)
    ensures Bare(TrimEnd(TrimStart(s, p), p), p)
  {
    var t := TrimStart(s, p);
    var r := TrimEnd(t, p);
    var lead := |s| - |t|;
    assert t == s[lead..];
    assert s[lead..lead + |r|] == r by {
      assert r == t[..|r|];
      assert s[lead..lead + |r|] == s[lead..][..|r|];
    }
    assert All(s[lead + |r|..], p) by {
      assert s[lead + |r|..] == t[|r|..];
    }
    PaddedAt(s, r, lead, p);
    if r != [] {
      assert r[0] == t[0];
    }
  }

  /** `lead` padding characters, then `r`, then padding again: a witness for Padded. */
  lemma PaddedAt(s: string, r: string, lead: nat, p: char -> bool)
    requires lead + |r| <= |s| && s[lead..lead + |r|] == r
    requires All(s[..lead], p) && All(s[lead + |r|..], p)
    ensures Padded(s, r, p)
  {
  }

  /** Dropping a known run of leading `p`-characters is what TrimStart does. */
  lemma {:induction false} TrimStartSkips(s: string, k: nat, p: char -> bool)
    requires k <= |s| && All(s[..k], p)
    requires k == |s| || !p(s[k])
    ensures TrimStart(s, p) == s[k..]
    decreases k
  {
    if k > 0 {
      assert s[..k][0] == s[0];
      assert p(s[0]);
      var s' := s[1..];
      assert All(s'[..k - 1], p) by {
        forall i | 0 <= i < k - 1 ensures p(s'[i]) {
          assert s'[i] == s[..k][i + 1];
        }
      }
      TrimStartSkips(s', k - 1, p);
      assert s'[k - 1..] == s[k..];
    }
  }

  /** Dropping a known run of trailing `p`-characters is what TrimEnd does. */
  lemma {:induction false} TrimEndSkips(s: string, k: nat, p: char -> bool)
    requires k <= |s| && All(s[k..], p)
    requires k == 0 || !p(s[k - 1])
    ensures TrimEnd(s, p) == s[..k]
    decreases |s| - k
  {
    if k < |s| {
      var s' := s[..|s| - 1];
      assert s'[k..] == s[k..|s| - 1];
      TrimEndSkips(s', k, p);
      assert s'[..k] == s[..k];
    }
  }

  /** A string whose two halves are all `p`-characters is all `p`-characters. */
  lemma AllSplitAt(s: string, k: nat, p: char -> bool)
    requires k <= |s| && All(s[..k], p) && All(s[k..], p)
    ensures All(s, p)
  {
    forall i | 0 <= i < |s| ensures p(s[i]) {
      if i < k { assert s[..k][i] == s[i]; }
      else { assert s[k..][i - k] == s[i]; }
    }
  }

  /** Trim has exactly one answer: any bare middle of `s` padded by `p`-characters is it. */
  lemma TrimUnique(s: string, r: string, p: char -> bool)
    requires Padded(s, r, p) && Bare(r, p)
    ensures Trim(s, p) == r
  {
    var lead: nat :| lead + |r| <= |s| && s[lead..lead + |r|] == r
                   && All(s[..lead], p) && All(s[lead + |r|..], p);
    TrimAt(s, r, lead, p);
  }

  /** Trim with the padding spelled out: `lead` characters before `r`, the rest after it. */
  lemma TrimAt(s: string, r: string, lead: nat, p: char -> bool)
    requires lead + |r| <= |s| && s[lead..lead + |r|] == r
    requires All(s[..lead], p) && All(s[lead + |r|..], p)
    requires Bare(r, p)
    ensures Trim(s, p) == r
  {
    if r == [] {
      AllSplitAt(s, lead, p);
      TrimAllPadding(s, p);
    } else {
      TrimAtNonEmpty(s, r, lead, p);
    }
  }

  /** A string of padding characters only trims to nothing. */
  lemma TrimAllPadding(s: string, p: char -> bool)
    requires All(s, p)
    ensures Trim(s, p) == []
  {
    assert s[..|s|] == s;
    TrimStartSkips(s, |s|, p);
    assert TrimStart(s, p) == [];
  }

  lemma TrimAtNonEmpty(s: string, r: string, lead: nat, p: char -> bool)
    requires r != [] && lead + |r| <= |s| && s[lead..lead + |r|] == r
    requires All(s[..lead], p) && All(s[lead + |r|..], p)
    requires Bare(r, p)
    ensures Trim(s, p) == r
  {
    assert s[lead] == r[0];
    TrimStartSkips(s, lead, p);
    var t := s[lead..];
    assert t[|r|..] == s[lead + |r|..];
    assert t[|r| - 1] == r[|r| - 1];
    TrimEndSkips(t, |r|, p);
    assert t[..|r|] == r;
  }

  /** Trimming twice is trimming once. */
  lemma TrimIdempotent(s: string, p: char -> bool)
    ensures Trim(Trim(s, p), p) == Trim(s, p)
  {
    var r := Trim(s, p);
    assert r[0..0 + |r|] == r && r[..0] == [] && r[0 + |r|..] == [];
    assert Padded(r, r, p);
    TrimUnique(r, r, p);
  }

  /** Trim leaves nothing exactly when every character of `s` is a `p`-character. */
  lemma TrimEmptyIff(s: string, p: char -> bool)
    ensures Trim(s, p) == [] <==> All(s, p)
  {
    var t := TrimStart(s, p);
    if All(s, p) {
      assert s[..|s|] == s;
      TrimStartSkips(s, |s|, p);
      assert t == [];
    }
    if TrimEnd(t, p) == [] {
      assert t[0..] == t;
      assert s[|s| - |t|..] == t;
      AllSplitAt(s, |s| - |t|, p);
    }
  }

  /**
   Splits `s` at every `sep`, keeping empty pieces, as JavaScript's
   `split` with a one-character separator does (`"".split("/")` is `[""]`).
   */
  function Split(s: string, sep: char): (parts: seq<string>)
    ensures |parts| >= 1
    ensures forall x :: x in parts ==> sep !in x
  {
    if s == [] then [[]]
    else
      var rest := Split(s[1..], sep);
      if s[0] == sep then [[]] + rest
      else [[s[0]] + rest[0]] + rest[1..]
  }

  /** Joins `parts` with `sep` between neighbours; no parts give the empty string. */
  function Join(parts: seq<string>, sep: char): string {
    if |parts| == 0 then []
    else if |parts| == 1 then parts[0]
    else parts[0] + [sep] + Join(parts[1..], sep)
  }

  lemma {:induction false} JoinPrepend(x: string, parts: seq<string>, sep: char)
    requires |parts| >= 1
    ensures Join([x + parts[0]] + parts[1..], sep) == x + Join(parts, sep)
  {
    var q := [x + parts[0]] + parts[1..];
    assert q[1..] == parts[1..];
  }

  /** Joining the pieces of a split gives the string back. */
  lemma {:induction false} JoinSplit(s: string, sep: char)
    ensures Join(Split(s, sep), sep) == s
    decreases |s|
  {
    if s != [] {
      var rest := Split(s[1..], sep);
      JoinSplit(s[1..], sep);
      if s[0] == sep {
        assert ([[]] + rest)[1..] == rest;
      } else {
        JoinPrepend([s[0]], rest, sep);
      }
    }
  }

  /** A separator-free prefix is glued onto the first piece of the split. */
  lemma {:induction false} SplitPrefix(a: string, t: string, sep: char)
    requires sep !in a
    ensures Split(a + t, sep)[0] == a + Split(t, sep)[0]
    ensures Split(a + t, sep)[1..] == Split(t, sep)[1..]
    decreases |a|
  {
    if a != [] {
      assert a[0] in a;
      assert (a + t)[0] == a[0] != sep;
      assert (a + t)[1..] == a[1..] + t;
      SplitPrefix(a[1..], t, sep);
      var rest := Split(a[1..] + t, sep);
      assert Split(a + t, sep) == [[a[0]] + rest[0]] + rest[1..];
      assert [a[0]] + (a[1..] + Split(t, sep)[0]) == a + Split(t, sep)[0];
    } else {
      assert a + t == t;
    }
  }

  /** Splitting joined separator-free pieces gives the pieces back. */
  lemma {:induction false} SplitJoin(parts: seq<string>, sep: char)
    requires |parts| >= 1
    requires forall x :: x in parts ==> sep !in x
    ensures Split(Join(parts, sep), sep) == parts
    decreases |parts|
  {
    SplitPrefix(parts[0], [], sep);
    assert parts[0] + [] == parts[0];
    if |parts| > 1 {
      var tail := Join(parts[1..], sep);
      SplitJoin(parts[1..], sep);
      SplitPrefix(parts[0], [sep] + tail, sep);
      assert parts[0] + [sep] + tail == parts[0] + ([sep] + tail);
      assert ([sep] + tail)[1..] == tail;
    }
  }

  /** The last piece of a split is empty exactly when the string ends with the separator. */
  lemma {:induction false} SplitLastEmpty(s: string, sep: char)
    requires s != []
    ensures var parts := Split(s, sep); parts[|parts| - 1] == [] <==> s[|s| - 1] == sep
    decreases |s|
  {
    var t := s[1..];
    var rest := Split(t, sep);
    var parts := Split(s, sep);
    if t == [] {
      assert s[|s| - 1] == s[0];
    } else {
      SplitLastEmpty(t, sep);
      assert t[|t| - 1] == s[|s| - 1];
      if s[0] == sep {
        assert parts == [[]] + rest;
        assert parts[|parts| - 1] == rest[|rest| - 1];
      } else if |rest| == 1 {
        JoinSplit(t, sep);
        assert rest[0] == t;
        assert parts == [[s[0]] + rest[0]];
      } else {
        assert parts == [[s[0]] + rest[0]] + rest[1..];
        assert rest[1..][|rest| - 2] == rest[|rest| - 1];
        assert parts[|parts| - 1] == rest[1..][|rest| - 2];
      }
    }
  }

  /** The first character of a join is that of its first piece, when that piece is not empty. */
  lemma {:induction false} JoinFirst(parts: seq<string>, sep: char)
    requires |parts| >= 1 && parts[0] != []
    ensures Join(parts, sep) != [] && Join(parts, sep)[0] == parts[0][0]
  {
  }

  /** The last character of a join is that of its last piece, when that piece is not empty. */
  lemma {:induction false} JoinLast(parts: seq<string>, sep: char)
    requires |parts| >= 1 && parts[|parts| - 1] != []
    ensures Join(parts, sep) != []
    ensures Join(parts, sep)[|Join(parts, sep)| - 1] == parts[|parts| - 1][|parts[|parts| - 1]| - 1]
    decreases |parts|
  {
    if |parts| > 1 {
      JoinLast(parts[1..], sep);
    }
  }

  /** A string ends with `suffix`. */
  predicate EndsWith(s: string, suffix: string) {
    |suffix| <= |s| && s[|s| - |suffix|..] == suffix
  }

  /**
   JavaScript's white space for `trim`: the WhiteSpace and LineTerminator
   code points of section 12.2 and 12.3 of ECMA-262 (tab, vertical tab, form
   feed, space, no-break space, zero-width no-break space, the Unicode "Zs"
   separators, line feed, carriage return, line and paragraph separators).
   */
  predicate IsJsWhitespace(c: char) {
    var n := c as int;
    || n == 0x09 || n == 0x0A || n == 0x0B || n == 0x0C || n == 0x0D
    || n == 0x20 || n == 0xA0 || n == 0x1680
    || (0x2000 <= n <= 0x200A)
    || n == 0x2028 || n == 0x2029 || n == 0x202F || n == 0x205F
    || n == 0x3000 || n == 0xFEFF
  }

  /** `s.trim()` in JavaScript. */
  function JsTrim(s: string): string {
    Trim(s, IsJsWhitespace)
  }
}

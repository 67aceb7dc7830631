/** String operations the report pipeline relies on, with Python's meaning:
    `<` on str, `', '.join`, `str.endswith`, `str.replace` and `str(int)`,
    and `str.split`, which the pipeline never calls but which states how its
    joined label reads back. */
module Strings {

  /** Python's `a < b` on str: lexicographic by code point, and a proper
      prefix sorts first. */
  predicate StrLess(a: string, b: string)
    decreases |a|
  {
    if a == [] then b != []
    else if b == [] then false
    else if a[0] != b[0] then a[0] < b[0]
    else StrLess(a[1..], b[1..])
  }

  lemma {:induction false} StrLessIrreflexive(a: string)
    ensures !StrLess(a, a)
    decreases |a|
  {
    if a != [] {
      StrLessIrreflexive(a[1..]);
    }
  }

  lemma {:induction false} StrLessTransitive(a: string, b: string, c: string)
    requires StrLess(a, b) && StrLess(b, c)
    ensures StrLess(a, c)
    decreases |a|
  {
    if a != [] && a[0] == b[0] && b[0] == c[0] {
      StrLessTransitive(a[1..], b[1..], c[1..]);
    }
  }

  lemma {:induction false} StrLessTotal(a: string, b: string)
    requires a != b
    ensures StrLess(a, b) || StrLess(b, a)
    decreases |a|
  {
    if a != [] && b != [] && a[0] == b[0] {
      assert a == [a[0]] + a[1..] && b == [b[0]] + b[1..];
      StrLessTotal(a[1..], b[1..]);
    }
  }

  /** `sep.join(parts)`. */
  function Join(parts: seq<string>, sep: string): string
  {
    if parts == [] then ""
    else if |parts| == 1 then parts[0]
    else parts[0] + sep + Join(parts[1..], sep)
  }

  /** A join of non-empty parts is empty exactly when there are no parts. */
  lemma {:induction false} JoinEmpty(parts: seq<string>, sep: string)
    requires forall i :: 0 <= i < |parts| ==> parts[i] != ""
    ensures Join(parts, sep) == "" <==> parts == []
  {
    if parts != [] {
      assert |Join(parts, sep)| >= |parts[0]| > 0;
    }
  }

  /** `s.split(sep)`: cuts `s` at each occurrence of `sep`, scanning left to
      right; the empty string splits into one empty field. Only the label's
      round trip uses it. */
  function Split(s: string, sep: string): (r: seq<string>)
    requires sep != []
    ensures r != []
    decreases |s|
  {
    if s == [] then [""]
    else if sep <= s then [""] + Split(s[|sep|..], sep)
    else
      var rest := Split(s[1..], sep);
      [[s[0]] + rest[0]] + rest[1..]
  }

  /** A field that does not contain the first character of the separator is
      read off whole as the beginning of the first field. */
  lemma {:induction false} SplitField(p: string, rest: string, sep: string)
    requires sep != [] && sep[0] !in p
    ensures Split(p + rest, sep) == [p + Split(rest, sep)[0]] + Split(rest, sep)[1..]
    decreases |p|
  {
    if p == [] {
      var r := Split(rest, sep);
      assert p + rest == rest;
      assert p + r[0] == r[0];
      assert [r[0]] + r[1..] == r;
    } else {
      var s := p + rest;
      assert s[0] == p[0] != sep[0];
      assert !(sep <= s);
      assert s[1..] == p[1..] + rest;
      SplitField(p[1..], rest, sep);
      assert [p[0]] + (p[1..] + Split(rest, sep)[0]) == p + Split(rest, sep)[0];
    }
  }

  lemma SplitAtSeparator(rest: string, sep: string)
    requires sep != []
    ensures Split(sep + rest, sep) == [""] + Split(rest, sep)
  {
    var s := sep + rest;
    assert sep <= s;
    assert s[|sep|..] == rest;
  }

  /** Splitting a join gives the parts back, when no part contains the first
      character of the separator. */
  lemma {:induction false} SplitJoin(parts: seq<string>, sep: string)
    requires sep != [] && parts != []
    requires forall i :: 0 <= i < |parts| ==> sep[0] !in parts[i]
    ensures Split(Join(parts, sep), sep) == parts
  {
    if |parts| == 1 {
      SplitField(parts[0], "", sep);
      assert parts[0] + "" == parts[0];
    } else {
      var tail := Join(parts[1..], sep);
      assert Join(parts, sep) == parts[0] + (sep + tail);
      SplitField(parts[0], sep + tail, sep);
      SplitAtSeparator(tail, sep);
      SplitJoin(parts[1..], sep);
      assert parts[0] + "" == parts[0];
      assert parts == [parts[0]] + parts[1..];
    }
  }

  /** `s.endswith(suffix)`. */
  predicate EndsWith(s: string, suffix: string)
  {
    |suffix| <= |s| && s[|s| - |suffix|..] == suffix
  }

  /** `s.replace(pat, repl)` for a non-empty pattern: every non-overlapping
      occurrence, found left to right, is replaced. */
  function ReplaceAll(s: string, pat: string, repl: string): string
    requires pat != []
    decreases |s|
  {
    if s == [] then ""
    else if pat <= s then repl + ReplaceAll(s[|pat|..], pat, repl)
    else [s[0]] + ReplaceAll(s[1..], pat, repl)
  }

  /** A pattern that cannot overlap itself: its first character occurs
      nowhere else in it. */
  predicate SelfDisjoint(pat: string)
  {
    pat != [] && pat[0] !in pat[1..]
  }

  lemma EndsWithDrop(s: string, suffix: string, k: nat)
    requires EndsWith(s, suffix) && k + |suffix| <= |s|
    ensures EndsWith(s[k..], suffix)
  {
    assert s[k..][|s[k..]| - |suffix|..] == s[|s| - |suffix|..];
  }

  lemma EndsWithPrepend(x: string, r: string, suffix: string)
    requires EndsWith(r, suffix)
    ensures EndsWith(x + r, suffix)
  {
    assert (x + r)[|x + r| - |suffix|..] == r[|r| - |suffix|..];
  }

  /** A self-disjoint pattern at both ends of a longer string does not
      overlap itself there. */
  lemma NoOverlap(s: string, pat: string)
    requires SelfDisjoint(pat) && pat <= s && EndsWith(s, pat) && |s| > |pat|
    ensures |s| >= 2 * |pat|
  {
    var n := |pat|;
    if |s| < 2 * n {
      assert false;
    }
  }

  /** Replacing a self-disjoint pattern in a string that ends with it yields
      a string that ends with the replacement. */
  lemma {:induction false} ReplaceAllSuffix(s: string, pat: string, repl: string)
    requires SelfDisjoint(pat) && EndsWith(s, pat)
    ensures EndsWith(ReplaceAll(s, pat, repl), repl)
    decreases |s|
  {
    var n := |pat|;
    if pat <= s {
      if |s| == n {
        assert s[n..] == "";
        assert ReplaceAll(s, pat, repl) == repl + "";
      } else {
        NoOverlap(s, pat);
        EndsWithDrop(s, pat, n);
        ReplaceAllSuffix(s[n..], pat, repl);
        EndsWithPrepend(repl, ReplaceAll(s[n..], pat, repl), repl);
      }
    } else {
      assert |s| != n;
      EndsWithDrop(s, pat, 1);
      ReplaceAllSuffix(s[1..], pat, repl);
      EndsWithPrepend([s[0]], ReplaceAll(s[1..], pat, repl), repl);
    }
  }

  /** `pat` occurs in `s` starting at position `i`. */
  predicate OccursAt(s: string, pat: string, i: nat)
  {
    i + |pat| <= |s| && s[i..i + |pat|] == pat
  }

  /** `pat in s`. */
  predicate Occurs(s: string, pat: string)
  {
    exists i: nat :: i <= |s| && OccursAt(s, pat, i)
  }

  /** A self-disjoint pattern that starts a string ending with it, and is
      shorter than that string, does not also start inside the last `|pat|`
      characters: an occurrence at 0 < k < |pat| would put `pat[0]` at
      `pat[k]`. */
  lemma NoStraddle(stem: string, pat: string)
    requires SelfDisjoint(pat) && 0 < |stem| < |pat|
    ensures !(pat <= stem + pat)
  {
    var s := stem + pat;
    assert s[|stem|] == pat[0];
    assert pat[|stem|] == pat[1..][|stem| - 1];
    assert s[|stem|] != pat[|stem|];
  }

  /** A stem in which a self-disjoint pattern does not occur keeps its text,
      and only the trailing pattern is replaced. */
  lemma {:induction false} ReplaceAllStem(stem: string, pat: string, repl: string)
    requires SelfDisjoint(pat) && !Occurs(stem, pat)
    ensures ReplaceAll(stem + pat, pat, repl) == stem + repl
    decreases |stem|
  {
    var s := stem + pat;
    if stem == [] {
      assert s == pat;
      assert s[|pat|..] == "";
      assert ReplaceAll(s, pat, repl) == repl + "";
    } else {
      if |stem| < |pat| {
        NoStraddle(stem, pat);
      } else {
        assert s[..|pat|] == stem[0..|pat|];
        assert !OccursAt(stem, pat, 0);
      }
      assert s[1..] == stem[1..] + pat;
      forall i: nat
        ensures !OccursAt(stem[1..], pat, i)
      {
        assert !OccursAt(stem, pat, i + 1);
        if i + |pat| <= |stem[1..]| {
          assert stem[1..][i..i + |pat|] == stem[i + 1..i + 1 + |pat|];
        }
      }
      ReplaceAllStem(stem[1..], pat, repl);
      assert [stem[0]] + (stem[1..] + repl) == stem + repl;
    }
  }

  function DigitChar(d: nat): char
    requires d < 10
  {
    "0123456789"[d]
  }

  /** `str(n)` for a non-negative integer: its decimal digits. */
  function NatToString(n: nat): (r: string)
    ensures r != []
    decreases n
  {
    if n < 10 then [DigitChar(n)] else NatToString(n / 10) + [DigitChar(n % 10)]
  }

  /** `str(n)` for an integer: a minus sign before a negative number. */
  function IntToString(n: int): (r: string)
    ensures r != []
  {
    if n < 0 then "-" + NatToString(-n) else NatToString(n)
  }
}

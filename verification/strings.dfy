/**
 * String helpers the command builders rely on: decimal rendering of
 * integers (Python's `str(int)`), `str.replace`, `str.split(sep)`,
 * and `str.strip()`, together with the substring predicates the
 * command contracts are stated in.
 */
module Strings {

  /* ---------------------------------------------------------------- */
  /* Prefixes and suffixes                                            */
  /* ---------------------------------------------------------------- */

  predicate EndsWith(s: string, suffix: string) {
    |suffix| <= |s| && s[|s| - |suffix|..] == suffix
  }

  lemma EndsWithConcat(a: string, b: string)
    ensures EndsWith(a + b, b)
  {
    assert (a + b)[|a|..] == b;
  }

  lemma EndsWithExtend(a: string, b: string, c: string)
    requires EndsWith(b, c)
    ensures EndsWith(a + b, c)
  {
    assert (a + b)[|a + b| - |c|..] == b[|b| - |c|..];
  }

  /** Regrouping a concatenation. */
  lemma Assoc(a: string, b: string, c: string)
    ensures a + (b + c) == a + b + c
  {
  }

  lemma PrefixExtend(a: string, b: string, c: string)
    requires a <= b
    ensures a <= b + c
  {
    assert (b + c)[..|a|] == b[..|a|];
  }

  /** `t` occurs in `s` starting at position `i`. */
  predicate OccursAt(s: string, t: string, i: nat) {
    i + |t| <= |s| && s[i..i + |t|] == t
  }

  /** Python's `t in s` for strings. */
  predicate Contains(s: string, t: string) {
    exists i: nat | i <= |s| :: OccursAt(s, t, i)
  }

  lemma ContainsConcat(a: string, t: string, b: string)
    ensures Contains(a + t + b, t)
  {
    assert OccursAt(a + t + b, t, |a|);
  }

  /* ---------------------------------------------------------------- */
  /* Decimal rendering of integers                                    */
  /* ---------------------------------------------------------------- */

  predicate IsDigit(c: char) { '0' <= c <= '9' }

  predicate AllDigits(s: string) {
    forall i :: 0 <= i < |s| ==> IsDigit(s[i])
  }

  function DigitChar(d: nat): (c: char)
    requires d < 10
    ensures IsDigit(c) && c as int - '0' as int == d
  {
    (d + '0' as int) as char
  }

  /** Python's `str(n)` for a non-negative integer: shortest decimal form. */
  function NatToString(n: nat): (s: string)
    ensures |s| > 0 && AllDigits(s)
    ensures |s| > 1 ==> s[0] != '0'
  {
    if n < 10 then [DigitChar(n)] else NatToString(n / 10) + [DigitChar(n % 10)]
  }

  /** The value of a string of decimal digits (the partner of NatToString). */
  function DecimalValue(s: string): nat
    requires AllDigits(s)
  {
    if s == [] then 0
    else DecimalValue(s[..|s| - 1]) * 10 + (s[|s| - 1] as int - '0' as int)
  }

  lemma {:induction false} DecimalRoundTrip(n: nat)
    ensures DecimalValue(NatToString(n)) == n
  {
    if n >= 10 {
      var s := NatToString(n);
      assert s[..|s| - 1] == NatToString(n / 10);
      DecimalRoundTrip(n / 10);
    }
  }

  /** Python's `str(i)` / `f"{i}"` for any integer. */
  function IntToString(i: int): (s: string)
    ensures |s| > 0
    ensures i >= 0 ==> AllDigits(s)
    ensures i < 0 ==> s[0] == '-'
  {
    if i < 0 then "-" + NatToString(-i) else NatToString(i)
  }

  /* ---------------------------------------------------------------- */
  /* Python `str.replace(pat, rep)`                                   */
  /* ---------------------------------------------------------------- */

  /** Replaces every non-overlapping occurrence of `pat` by `rep`, scanning left to right. */
  function ReplaceAll(s: string, pat: string, rep: string): (r: string)
    requires |pat| > 0
    ensures rep == pat ==> r == s
    ensures |rep| == |pat| ==> |r| == |s|
    decreases |s|
  {
    if |s| < |pat| then s
    else if s[..|pat|] == pat then
      assert s == s[..|pat|] + s[|pat|..];
      rep + ReplaceAll(s[|pat|..], pat, rep)
    else
      assert s == [s[0]] + s[1..];
      [s[0]] + ReplaceAll(s[1..], pat, rep)
  }

  /** With no occurrence of `pat`, `replace` returns its input unchanged. */
  lemma {:induction false} ReplaceAbsent(s: string, pat: string, rep: string)
    requires |pat| > 0
    requires !Contains(s, pat)
    ensures ReplaceAll(s, pat, rep) == s
  {
    if |s| >= |pat| {
      assert !OccursAt(s, pat, 0);
      assert s[..|pat|] != pat;
      if Contains(s[1..], pat) {
        var i: nat :| i <= |s[1..]| && OccursAt(s[1..], pat, i);
        assert s[i + 1..i + 1 + |pat|] == s[1..][i..i + |pat|];
        assert OccursAt(s, pat, i + 1);
      }
      ReplaceAbsent(s[1..], pat, rep);
    }
  }

  /**
   * When the first occurrence of `pat` in `p + pat` is the trailing one,
   * `replace` swaps exactly that suffix.
   */
  lemma {:induction false} ReplaceTrailing(p: string, pat: string, rep: string)
    requires |pat| > 0
    requires forall i: nat :: i < |p| ==> !OccursAt(p + pat, pat, i)
    ensures ReplaceAll(p + pat, pat, rep) == p + rep
  {
    assert p + pat + [] == p + pat;
    ReplaceFirst(p, pat, rep, []);
    assert p + rep + [] == p + rep;
  }

  /**
   * The step of `replace` at the first occurrence: when `pat` first occurs
   * in `p + pat + q` right after `p`, that occurrence becomes `rep` and
   * the scan resumes after it.
   */
  lemma {:induction false} ReplaceFirst(p: string, pat: string, rep: string, q: string)
    requires |pat| > 0
    requires forall i: nat :: i < |p| ==> !OccursAt(p + pat + q, pat, i)
    ensures ReplaceAll(p + pat + q, pat, rep) == p + rep + ReplaceAll(q, pat, rep)
  {
    var s := p + pat + q;
    if p == [] {
      assert s[..|pat|] == pat;
      assert s[|pat|..] == q;
    } else {
      assert !OccursAt(s, pat, 0);
      var p' := p[1..];
      assert s[1..] == p' + pat + q;
      forall i: nat | i < |p'|
        ensures !OccursAt(p' + pat + q, pat, i)
      {
        assert !OccursAt(s, pat, i + 1);
        ShiftOccurs(p[0], p' + pat + q, pat, i);
      }
      ReplaceFirst(p', pat, rep, q);
      assert ReplaceAll(s, pat, rep) == [p[0]] + ReplaceAll(p' + pat + q, pat, rep);
      assert p == [p[0]] + p';
    }
  }

  lemma ShiftOccurs(c: char, s: string, t: string, i: nat)
    ensures OccursAt([c] + s, t, i + 1) <==> OccursAt(s, t, i)
  {
    if i + |t| <= |s| {
      assert ([c] + s)[i + 1..i + 1 + |t|] == s[i..i + |t|];
    }
  }

  /** A character absent from the input and from `rep` is absent from the output. */
  lemma {:induction false} ReplaceKeepsAbsent(s: string, pat: string, rep: string, c: char)
    requires |pat| > 0
    requires c !in s && c !in rep
    ensures c !in ReplaceAll(s, pat, rep)
  {
    if |s| >= |pat| {
      if s[..|pat|] == pat {
        assert forall k :: 0 <= k < |s[|pat|..]| ==> s[|pat|..][k] == s[k + |pat|];
        ReplaceKeepsAbsent(s[|pat|..], pat, rep, c);
      } else {
        assert forall k :: 0 <= k < |s[1..]| ==> s[1..][k] == s[k + 1];
        ReplaceKeepsAbsent(s[1..], pat, rep, c);
      }
    }
  }

  /* ---------------------------------------------------------------- */
  /* Substrings of longer strings                                     */
  /* ---------------------------------------------------------------- */

  lemma ContainsExtend(s: string, t: string, u: string)
    requires Contains(s, t)
    ensures Contains(s + u, t) && Contains(u + s, t)
  {
    var i: nat :| i <= |s| && OccursAt(s, t, i);
    assert (s + u)[i..i + |t|] == s[i..i + |t|];
    assert (u + s)[|u| + i..|u| + i + |t|] == s[i..i + |t|];
    assert OccursAt(s + u, t, i);
    assert OccursAt(u + s, t, |u| + i);
  }

  lemma ContainsSuffix(s: string, t: string)
    requires EndsWith(s, t)
    ensures Contains(s, t)
  {
    assert OccursAt(s, t, |s| - |t|);
  }

  /* ---------------------------------------------------------------- */
  /* Python `str.split(sep)` for a one-character separator            */
  /* ---------------------------------------------------------------- */

  /**
   * The fields of `s` between occurrences of `sep`; like Python it never
   * returns an empty list, and an empty string has the one field "".
   */
  function Split(s: string, sep: char): (fields: seq<string>)
    ensures |fields| >= 1
    ensures forall i :: 0 <= i < |fields| ==> sep !in fields[i]
    decreases |s|
  {
    if s == [] then [""]
    else
      var rest := Split(s[1..], sep);
      if s[0] == sep then [""] + rest
      else [[s[0]] + rest[0]] + rest[1..]
  }

  /** Python `sep.join(fields)`, the inverse of Split. */
  function Join(fields: seq<string>, sep: char): string
  {
    if |fields| == 0 then ""
    else if |fields| == 1 then fields[0]
    else fields[0] + [sep] + Join(fields[1..], sep)
  }

  /** Joining the fields of a split gives back the original string. */
  lemma {:induction false} JoinSplit(s: string, sep: char)
    ensures Join(Split(s, sep), sep) == s
    decreases |s|
  {
    if s != [] {
      var rest := Split(s[1..], sep);
      JoinSplit(s[1..], sep);
      if s[0] != sep {
        if |rest| == 1 {
          assert s == [s[0]] + s[1..];
        } else {
          assert rest == [rest[0]] + rest[1..];
          assert Join(rest, sep) == rest[0] + [sep] + Join(rest[1..], sep);
          assert s == [s[0]] + s[1..];
        }
      }
    }
  }

  /** A separator-free prefix merges into the first field. */
  lemma {:induction false} SplitAppend(w: string, rest: string, sep: char)
    requires sep !in w
    ensures Split(w + rest, sep) == [w + Split(rest, sep)[0]] + Split(rest, sep)[1..]
    decreases |w|
  {
    if w != [] {
      assert (w + rest)[1..] == w[1..] + rest;
      SplitAppend(w[1..], rest, sep);
      var tail := Split(rest, sep);
      assert Split(w + rest, sep) == [[w[0]] + (w[1..] + tail[0])] + tail[1..];
      assert [w[0]] + (w[1..] + tail[0]) == w + tail[0];
    } else {
      var tail := Split(rest, sep);
      assert w + rest == rest;
      assert w + tail[0] == tail[0];
      assert tail == [tail[0]] + tail[1..];
    }
  }

  /** Splitting separator-free fields joined by the separator gives the fields back. */
  lemma {:induction false} SplitJoin(fields: seq<string>, sep: char)
    requires |fields| >= 1
    requires forall i :: 0 <= i < |fields| ==> sep !in fields[i]
    ensures Split(Join(fields, sep), sep) == fields
  {
    if |fields| == 1 {
      SplitAppend(fields[0], "", sep);
      assert fields[0] + "" == fields[0];
    } else {
      var tail := Join(fields[1..], sep);
      SplitJoin(fields[1..], sep);
      assert fields[0] + [sep] + tail == fields[0] + ([sep] + tail);
      assert ([sep] + tail)[1..] == tail;
      assert Split([sep] + tail, sep) == [""] + fields[1..];
      SplitAppend(fields[0], [sep] + tail, sep);
      assert fields[0] + "" == fields[0];
      assert fields == [fields[0]] + fields[1..];
    }
  }

  /** A string without the separator is a single field. */
  lemma SplitSingle(w: string, sep: char)
    requires sep !in w
    ensures Split(w, sep) == [w]
  {
    SplitAppend(w, "", sep);
    assert w + "" == w;
  }

  /** A separator-free word followed by the separator is the first field. */
  lemma SplitWord(w: string, rest: string, sep: char)
    requires sep !in w
    ensures Split(w + ([sep] + rest), sep) == [w] + Split(rest, sep)
  {
    SplitAppend(w, [sep] + rest, sep);
    assert ([sep] + rest)[1..] == rest;
    assert w + "" == w;
  }

  /** Splitting at a separator splits both sides independently. */
  lemma {:induction false} SplitAtSep(a: string, b: string, sep: char)
    ensures Split(a + ([sep] + b), sep) == Split(a, sep) + Split(b, sep)
    decreases |a|
  {
    var s := a + ([sep] + b);
    if a == [] {
      assert s == [sep] + b;
      assert s[1..] == b;
    } else {
      assert s[0] == a[0];
      assert s[1..] == a[1..] + ([sep] + b);
      SplitAtSep(a[1..], b, sep);
      var r, sb := Split(a[1..], sep), Split(b, sep);
      assert Split(s[1..], sep) == r + sb;
      if a[0] == sep {
        assert Split(s, sep) == [""] + (r + sb);
        assert Split(a, sep) == [""] + r;
      } else {
        assert Split(s, sep) == [[a[0]] + (r + sb)[0]] + (r + sb)[1..];
        assert Split(a, sep) == [[a[0]] + r[0]] + r[1..];
        GlueFirstField(a[0], r, sb);
      }
    }
  }

  /** Gluing a character onto the first field commutes with appending further fields. */
  lemma GlueFirstField(c: char, r: seq<string>, sb: seq<string>)
    requires |r| >= 1
    ensures [[c] + (r + sb)[0]] + (r + sb)[1..] == [[c] + r[0]] + r[1..] + sb
  {
    assert (r + sb)[0] == r[0];
    assert (r + sb)[1..] == r[1..] + sb;
  }

  /* ---------------------------------------------------------------- */
  /* Python `str.strip()`                                             */
  /* ---------------------------------------------------------------- */

  /** The characters Python's `str.isspace` accepts. */
  predicate IsSpace(c: char) {
    ('\t' <= c <= '\r') || ('\U{1c}' <= c <= ' ') || c == '\U{85}' || c == '\U{a0}'
    || c == '\U{1680}' || ('\U{2000}' <= c <= '\U{200a}') || c == '\U{2028}' || c == '\U{2029}'
    || c == '\U{202f}' || c == '\U{205f}' || c == '\U{3000}'
  }

  /** Every character of `t` is whitespace. */
  predicate AllSpace(t: string) {
    forall k :: 0 <= k < |t| ==> IsSpace(t[k])
  }

  /** `s` without its leading whitespace. */
  function StripLeft(s: string): (r: string)
    ensures |r| <= |s| && r == s[|s| - |r|..]
    ensures AllSpace(s[..|s| - |r|])
    ensures r != [] ==> !IsSpace(r[0])
    decreases |s|
  {
    if s != [] && IsSpace(s[0]) then
      var r := StripLeft(s[1..]);
      assert s[..|s| - |r|] == [s[0]] + s[1..][..|s| - 1 - |r|];
      r
    else s
  }

  /** `s` without its trailing whitespace. */
  function StripRight(s: string): (r: string)
    ensures |r| <= |s| && r == s[..|r|]
    ensures AllSpace(s[|r|..])
    ensures r != [] ==> !IsSpace(r[|r| - 1])
    decreases |s|
  {
    if s != [] && IsSpace(s[|s| - 1]) then
      var r := StripRight(s[..|s| - 1]);
      assert s[|r|..] == s[..|s| - 1][|r|..] + [s[|s| - 1]];
      r
    else s
  }

  /** `r` is the slice of `s` at `i`, with only whitespace around it. */
  predicate CutAt(s: string, r: string, i: nat) {
    && i + |r| <= |s| && r == s[i..i + |r|]
    && AllSpace(s[..i]) && AllSpace(s[i + |r|..])
  }

  /** Python `s.strip()`: the longest middle part with no whitespace at either end. */
  function Strip(s: string): (r: string)
    ensures r != [] ==> !IsSpace(r[0]) && !IsSpace(r[|r| - 1])
    ensures exists i: nat :: CutAt(s, r, i)
  {
    var l := StripLeft(s);
    StripCut(s, l, StripRight(l));
    StripRight(l)
  }

  /** A whitespace prefix cut from `s`, then a whitespace suffix cut from the rest. */
  lemma StripCut(s: string, l: string, r: string)
    requires |l| <= |s| && l == s[|s| - |l|..] && AllSpace(s[..|s| - |l|])
    requires |r| <= |l| && r == l[..|r|] && AllSpace(l[|r|..])
    ensures CutAt(s, r, |s| - |l|)
  {
    var i := |s| - |l|;
    assert s[i..][..|r|] == s[i..i + |r|];
    assert s[i + |r|..] == l[|r|..];
  }

  /** A line whose content has no whitespace at its ends strips to that content. */
  lemma StripLine(t: string)
    requires t != [] && !IsSpace(t[0]) && !IsSpace(t[|t| - 1])
    ensures Strip(t + "\n") == t
  {
    assert (t + "\n")[..|t|] == t;
  }
}

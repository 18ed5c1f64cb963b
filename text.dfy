/** The .NET string operations the library relies on: string.IsNullOrWhiteSpace,
    ToLower (ASCII letters only), ordinal string.Contains, and the decimal
    rendering of integers used by the ToString overrides. */
module Text {

  /** char.IsWhiteSpace: the Unicode space, line and paragraph separators, the
      control characters U+0009 to U+000D, and U+0085. */
  predicate IsWhiteSpace(c: char)
  {
    var n := c as int;
    || n == 0x20 || 0x09 <= n <= 0x0D || n == 0x85 || n == 0xA0 || n == 0x1680
    || 0x2000 <= n <= 0x200A || n == 0x2028 || n == 0x2029 || n == 0x202F
    || n == 0x205F || n == 0x3000
  }

  /** string.IsNullOrWhiteSpace on a string that is not null: empty, or white space only. */
  function IsBlank(s: string): (b: bool)
    ensures b <==> forall i :: 0 <= i < |s| ==> IsWhiteSpace(s[i])
  {
    if s == [] then true
    else
      assert forall i :: 0 < i < |s| ==> s[i] == s[1..][i - 1];
      IsWhiteSpace(s[0]) && IsBlank(s[1..])
  }

  lemma BlankExamples()
    ensures IsBlank("") && IsBlank(" \t\n") && !IsBlank(" a ")
  {
    assert !IsWhiteSpace(" a "[1]);
  }

  predicate IsUpper(c: char) { 'A' <= c <= 'Z' }

  function LowerChar(c: char): char
  {
    if IsUpper(c) then (c as int + 32) as char else c
  }

  /** ToLower restricted to ASCII: each capital letter becomes its small letter. */
  function Lower(s: string): (r: string)
    ensures |r| == |s|
    ensures forall i :: 0 <= i < |s| ==> r[i] == LowerChar(s[i])
  {
    if s == [] then []
    else
      var r := [LowerChar(s[0])] + Lower(s[1..]);
      assert forall i :: 0 < i < |s| ==> r[i] == Lower(s[1..])[i - 1] && s[i] == s[1..][i - 1];
      r
  }

  /** Lower-casing is idempotent and leaves no capital letter behind. */
  lemma LowerIdempotent(s: string)
    ensures Lower(Lower(s)) == Lower(s)
    ensures forall i :: 0 <= i < |s| ==> !IsUpper(Lower(s)[i])
  {
  }

  /** q occurs in s starting at position i. */
  ghost predicate OccursAt(s: string, q: string, i: int)
  {
    0 <= i && i + |q| <= |s| && s[i..i + |q|] == q
  }

  lemma ContainsStep(s: string, q: string)
    requires s != []
    ensures (exists i :: OccursAt(s, q, i)) <==> OccursAt(s, q, 0) || exists j :: OccursAt(s[1..], q, j)
  {
    forall j | OccursAt(s[1..], q, j) ensures OccursAt(s, q, j + 1) {
      assert s[1..][j..j + |q|] == s[j + 1..j + 1 + |q|];
    }
    forall i | OccursAt(s, q, i) && i > 0 ensures OccursAt(s[1..], q, i - 1) {
      assert s[1..][i - 1..i - 1 + |q|] == s[i..i + |q|];
    }
  }

  /** Ordinal string.Contains: scans s from the left for a position where q starts. */
  function Contains(s: string, q: string): (b: bool)
    ensures b <==> exists i :: OccursAt(s, q, i)
    decreases |s|
  {
    if |q| <= |s| && s[..|q|] == q then
      assert OccursAt(s, q, 0);
      true
    else if s == [] then
      false
    else
      ContainsStep(s, q);
      Contains(s[1..], q)
  }

  /** The empty string occurs in every string. */
  lemma ContainsEmpty(s: string)
    ensures Contains(s, "")
  {
    assert OccursAt(s, "", 0);
  }

  predicate IsPrefix(p: string, s: string) { |p| <= |s| && s[..|p|] == p }

  predicate IsSuffix(p: string, s: string) { |p| <= |s| && s[|s| - |p|..] == p }

  /** The outer parts of a three-part concatenation are its prefix and its suffix. */
  lemma PrefixAndSuffix(a: string, b: string, c: string)
    ensures IsPrefix(a, a + b + c) && IsSuffix(c, a + b + c)
  {
    assert (a + b + c)[..|a|] == a;
    assert (a + b + c)[|a + b|..] == c;
  }

  /** A string ends with the last character of each of its suffixes. */
  lemma SuffixLast(p: string, s: string)
    requires p != []
    ensures IsSuffix(p, s) ==> s[|s| - 1] == p[|p| - 1]
  {
    if IsSuffix(p, s) {
      assert s[|s| - |p|..][|p| - 1] == s[|s| - 1];
    }
  }

  predicate IsDigit(c: char) { '0' <= c <= '9' }

  function DigitChar(d: nat): (c: char)
    requires d < 10
  {
    ('0' as int + d) as char
  }

  /** The number a string of decimal digits denotes. */
  ghost function DigitsValue(s: string): nat
    requires forall i :: 0 <= i < |s| ==> IsDigit(s[i])
  {
    if s == [] then 0
    else
      assert IsDigit(s[|s| - 1]);
      DigitsValue(s[..|s| - 1]) * 10 + (s[|s| - 1] as int - '0' as int)
  }

  /** int.ToString for a non-negative value: decimal digits without leading zeros,
      which read back as the number. */
  function NatToString(n: nat): (s: string)
    ensures |s| > 0 && forall i :: 0 <= i < |s| ==> IsDigit(s[i])
    ensures |s| == 1 || s[0] != '0'
    ensures DigitsValue(s) == n
    decreases n
  {
    if n < 10 then [DigitChar(n)]
    else
      var p := NatToString(n / 10);
      var s := p + [DigitChar(n % 10)];
      assert s[..|s| - 1] == p;
      s
  }

  /** s is how the invariant culture writes n: a '-' exactly when n is negative, then
      the decimal digits of the magnitude without leading zeros. */
  ghost predicate SpellsInt(s: string, n: int)
  {
    && (n < 0 <==> IsPrefix("-", s))
    && var d := if n < 0 then s[1..] else s;
       && |d| > 0 && (forall i :: 0 <= i < |d| ==> IsDigit(d[i]))
       && (|d| == 1 || d[0] != '0')
       && DigitsValue(d) == if n < 0 then -n else n
  }

  /** int.ToString with the invariant culture's minus sign. */
  function IntToString(n: int): (s: string)
    ensures SpellsInt(s, n)
  {
    if n < 0 then "-" + NatToString(-n) else NatToString(n)
  }
}

/**
 * The pieces of Python's string handling that the scraper leans on:
 * str.isspace / str.strip, ASCII digits and their values, the decimal
 * rendering of an integer (f"{n}", "%02d", "%04d"), ASCII case folding
 * (what re.IGNORECASE does for the English names matched here) and the
 * split of a string into whitespace-separated words (what the "\s+" that
 * strptime puts in place of each format space accepts).
 */
module Text {
  import Seqs

  /** Python's whitespace set: what str.isspace accepts, str.strip removes and regex \s matches. */
  predicate IsSpace(c: char) {
    var n := c as int;
    (9 <= n <= 13) || (28 <= n <= 32) || n == 0x85 || n == 0xA0 || n == 0x1680
    || (0x2000 <= n <= 0x200A) || n == 0x2028 || n == 0x2029 || n == 0x202F
    || n == 0x205F || n == 0x3000
  }

  predicate AllSpace(s: string) {
    forall i | 0 <= i < |s| :: IsSpace(s[i])
  }

  predicate NoSpace(s: string) {
    forall i | 0 <= i < |s| :: !IsSpace(s[i])
  }

  /** Neither end of s is whitespace (vacuously true of the empty string). */
  predicate Trimmed(s: string) {
    s == [] || (!IsSpace(s[0]) && !IsSpace(s[|s| - 1]))
  }

  /** The number of whitespace characters s starts with. */
  function LeadingSpace(s: string): (k: nat)
    ensures k <= |s|
    ensures forall i | 0 <= i < k :: IsSpace(s[i])
    ensures k < |s| ==> !IsSpace(s[k])
  {
    if s != [] && IsSpace(s[0]) then 1 + LeadingSpace(s[1..]) else 0
  }

  /** The position after the last non-whitespace character of s (0 when there is none). */
  function ContentEnd(s: string): (k: nat)
    ensures k <= |s|
    ensures forall i | k <= i < |s| :: IsSpace(s[i])
    ensures k > 0 ==> !IsSpace(s[k - 1])
  {
    if s != [] && IsSpace(s[|s| - 1]) then ContentEnd(s[..|s| - 1]) else |s|
  }

  /** Python's str.strip() with no argument: s with its leading and trailing whitespace removed. */
  function Strip(s: string): (r: string)
    ensures |r| <= |s| && Trimmed(r)
  {
    var i, j := LeadingSpace(s), ContentEnd(s);
    if i == |s| then [] else s[i..j]
  }

  /** What strip keeps is a slice of s with only whitespace on either side of it. */
  lemma StripIsSlice(s: string)
    ensures exists i, j | 0 <= i <= j <= |s| :: Strip(s) == s[i..j] && AllSpace(s[..i]) && AllSpace(s[j..])
  {
    var i, j := LeadingSpace(s), ContentEnd(s);
    if i == |s| {
      assert Strip(s) == s[|s|..|s|] && AllSpace(s[..|s|]) && AllSpace(s[|s|..]);
    } else {
      assert Strip(s) == s[i..j] && AllSpace(s[..i]) && AllSpace(s[j..]);
    }
  }

  lemma StripTrimmed(s: string)
    requires Trimmed(s)
    ensures Strip(s) == s
  {
    if s != [] {
      assert LeadingSpace(s) == 0 && ContentEnd(s) == |s|;
      assert s[0..|s|] == s;
    }
  }

  predicate IsDigit(c: char) {
    '0' <= c <= '9'
  }

  predicate AllDigits(s: string) {
    forall i | 0 <= i < |s| :: IsDigit(s[i])
  }

  predicate NoDigits(s: string) {
    forall i | 0 <= i < |s| :: !IsDigit(s[i])
  }

  function DigitValue(c: char): (v: nat)
    requires IsDigit(c)
    ensures v < 10
  {
    c as int - '0' as int
  }

  function DigitChar(v: nat): (c: char)
    requires v < 10
    ensures IsDigit(c) && DigitValue(c) == v
  {
    ('0' as int + v) as char
  }

  /** The number a string of decimal digits denotes (Python's int() on ASCII digits). */
  function DigitsValue(s: string): nat
    requires AllDigits(s)
  {
    if s == [] then 0 else DigitsValue(s[..|s| - 1]) * 10 + DigitValue(s[|s| - 1])
  }

  lemma DigitsValueSnoc(s: string, c: char)
    requires AllDigits(s) && IsDigit(c)
    ensures AllDigits(s + [c]) && DigitsValue(s + [c]) == DigitsValue(s) * 10 + DigitValue(c)
  {
    assert (s + [c])[..|s|] == s;
  }

  /** Python's f"{n}" for a non-negative integer: no leading zeros. */
  function DecimalString(n: nat): (s: string)
    ensures 1 <= |s| && AllDigits(s)
    ensures s[0] != '0' || n == 0
  {
    if n < 10 then [DigitChar(n)] else DecimalString(n / 10) + [DigitChar(n % 10)]
  }

  lemma {:induction false} DecimalRoundTrip(n: nat)
    ensures DigitsValue(DecimalString(n)) == n
  {
    if n >= 10 {
      var s := DecimalString(n);
      assert s[..|s| - 1] == DecimalString(n / 10);
      DecimalRoundTrip(n / 10);
    }
  }

  function Pow10(k: nat): (p: nat)
    ensures p >= 1
  {
    if k == 0 then 1 else 10 * Pow10(k - 1)
  }

  /** f"{n}" has exactly k + 1 digits when 10^k <= n < 10^(k+1). */
  lemma {:induction false} DecimalLength(n: nat, k: nat)
    requires Pow10(k) <= n < Pow10(k + 1) || (k == 0 && n == 0)
    ensures |DecimalString(n)| == k + 1
  {
    if k > 0 {
      assert Pow10(k) == 10 * Pow10(k - 1);
      assert Pow10(k + 1) == 10 * Pow10(k);
      DecimalLength(n / 10, k - 1);
    }
  }

  /** "%02d" of a number below 100. */
  function Pad2(n: nat): (s: string)
    requires n < 100
    ensures |s| == 2 && AllDigits(s) && DigitsValue(s) == n
  {
    var s := [DigitChar(n / 10), DigitChar(n % 10)];
    DigitsValueSnoc([], s[0]);
    DigitsValueSnoc([s[0]], s[1]);
    assert [s[0]] + [s[1]] == s;
    s
  }

  /** "%04d" of a number below 10000. */
  function Pad4(n: nat): (s: string)
    requires n < 10000
    ensures |s| == 4 && AllDigits(s) && DigitsValue(s) == n
  {
    var s1 := [] + [DigitChar(n / 1000)];
    var s2 := s1 + [DigitChar(n / 100 % 10)];
    var s3 := s2 + [DigitChar(n / 10 % 10)];
    var s4 := s3 + [DigitChar(n % 10)];
    DigitsValueSnoc([], DigitChar(n / 1000));
    DigitsValueSnoc(s1, DigitChar(n / 100 % 10));
    DigitsValueSnoc(s2, DigitChar(n / 10 % 10));
    DigitsValueSnoc(s3, DigitChar(n % 10));
    FourDigits(n);
    s4
  }

  /** A number below 10000 is the value of its four decimal digits. */
  lemma FourDigits(n: nat)
    requires n < 10000
    ensures ((n / 1000 * 10 + n / 100 % 10) * 10 + n / 10 % 10) * 10 + n % 10 == n
  {
    assert n / 100 == (n / 1000) * 10 + n / 100 % 10;
    assert n / 10 == (n / 100) * 10 + n / 10 % 10;
  }

  /** ASCII case folding, which is what case-insensitive matching does to the English names used here. */
  function LowerChar(c: char): char {
    if 'A' <= c <= 'Z' then (c as int + 32) as char else c
  }

  predicate EqualsIgnoreCase(s: string, t: string) {
    |s| == |t| && forall i | 0 <= i < |s| :: LowerChar(s[i]) == LowerChar(t[i])
  }

  /** Length of the longest prefix of s that holds no whitespace. */
  function NonSpaceRun(s: string): (k: nat)
    ensures k <= |s| && NoSpace(s[..k])
    ensures k < |s| ==> IsSpace(s[k])
  {
    if s == [] || IsSpace(s[0]) then 0 else 1 + NonSpaceRun(s[1..])
  }

  /** The maximal whitespace-free pieces of s, in order. */
  function Words(s: string): (w: seq<string>)
    decreases |s|
  {
    if s == [] then []
    else if IsSpace(s[0]) then Words(s[1..])
    else
      var k := NonSpaceRun(s);
      [s[..k]] + Words(s[k..])
  }

  lemma {:induction false} NonSpaceRunStops(a: string, c: string)
    requires c == [] || IsSpace(c[0])
    ensures NonSpaceRun(a + c) == NonSpaceRun(a)
  {
    if a != [] && !IsSpace(a[0]) {
      assert (a + c)[1..] == a[1..] + c;
      NonSpaceRunStops(a[1..], c);
    }
  }

  lemma {:induction false} WordsAfterSpaces(ws: string, b: string)
    requires AllSpace(ws)
    ensures Words(ws + b) == Words(b)
  {
    if ws != [] {
      assert IsSpace(ws[0]) && (ws + b)[0] == ws[0];
      assert (ws + b)[1..] == ws[1..] + b;
      assert Words(ws + b) == Words(ws[1..] + b);
      WordsAfterSpaces(ws[1..], b);
    } else {
      assert ws + b == b;
    }
  }

  lemma WordsOfWord(t: string)
    requires t != [] && NoSpace(t)
    ensures Words(t) == [t]
  {
    NonSpaceRunStops(t, []);
    assert t + [] == t;
    assert NonSpaceRun(t) == |t|;
  }

  /** Splitting at a whitespace run: the words of a, then the words of b. */
  lemma {:induction false} WordsAppend(a: string, ws: string, b: string)
    requires ws != [] && AllSpace(ws)
    ensures Words(a + ws + b) == Words(a) + Words(b)
    decreases |a|
  {
    if a == [] {
      Seqs.EmptyNeutral(ws);
      WordsAfterSpaces(ws, b);
    } else if IsSpace(a[0]) {
      Seqs.CutFirst(a, ws, b, 1);
      WordsAppend(a[1..], ws, b);
    } else {
      NonSpaceRunStops(a, ws + b);
      var k := NonSpaceRun(a);
      Seqs.CutFirst(a, ws, b, k);
      WordsAppend(a[k..], ws, b);
    }
  }
}

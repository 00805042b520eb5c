/**
  Character classes and the small string operations the extractor relies on:
  Python's `str.isspace` (which is also what `\s` matches), the word class `\w`,
  `str.strip()`, `str.split(sep)`, `int(digits)` and the `{n:02d}` format.
 */
module Text {

  import opened Wrappers

  predicate IsDigit(c: char) { '0' <= c <= '9' }

  /** The characters Python's `str.isspace()` accepts; `\s` in a str pattern matches the same set. */
  predicate IsSpace(c: char) {
    ('\t' <= c <= '\r') || ('\U{1C}' <= c <= '\U{1F}') || c == ' ' || c == '\U{85}' || c == '\U{A0}'
    || c == '\U{1680}' || ('\U{2000}' <= c <= '\U{200A}') || c == '\U{2028}' || c == '\U{2029}'
    || c == '\U{202F}' || c == '\U{205F}' || c == '\U{3000}'
  }

  /**
    The word class `\w`: letters, digits and the underscore. Beyond ASCII only the
    Latin-1 and Latin Extended-A/B word characters are recognised (enough for Czech).
   */
  predicate IsWordChar(c: char) {
    IsDigit(c) || ('a' <= c <= 'z') || ('A' <= c <= 'Z') || c == '_'
    || c == '\U{AA}' || c == '\U{B2}' || c == '\U{B3}' || c == '\U{B5}' || c == '\U{B9}' || c == '\U{BA}'
    || ('\U{BC}' <= c <= '\U{BE}') || ('\U{C0}' <= c <= '\U{D6}') || ('\U{D8}' <= c <= '\U{F6}')
    || ('\U{F8}' <= c <= '\U{24F}')
  }

  predicate AllDigits(s: string) {
    forall k :: 0 <= k < |s| ==> IsDigit(s[k])
  }

  /** Every character of `s` in the half-open range [lo, hi) satisfies the class. */
  predicate DigitsIn(s: string, lo: int, hi: int) {
    0 <= lo <= hi <= |s| && forall k {:trigger IsDigit(s[k])} :: lo <= k < hi ==> IsDigit(s[k])
  }

  predicate SpacesIn(s: string, lo: int, hi: int) {
    0 <= lo <= hi <= |s| && forall k {:trigger IsSpace(s[k])} :: lo <= k < hi ==> IsSpace(s[k])
  }

  predicate WordCharsIn(s: string, lo: int, hi: int) {
    0 <= lo <= hi <= |s| && forall k {:trigger IsWordChar(s[k])} :: lo <= k < hi ==> IsWordChar(s[k])
  }

  /** Length of the whitespace run that starts at `i` (what a greedy `\s*` consumes there). */
  function SpacesFrom(s: string, i: nat): (n: nat)
    requires i <= |s|
    ensures i + n <= |s|
    decreases |s| - i
  {
    if i < |s| && IsSpace(s[i]) then 1 + SpacesFrom(s, i + 1) else 0
  }

  /** The run `SpacesFrom` measures is all blanks and ends at the end or at a non-blank. */
  lemma {:induction false} SpacesFromRun(s: string, i: nat)
    requires i <= |s|
    ensures SpacesIn(s, i, i + SpacesFrom(s, i))
    ensures i + SpacesFrom(s, i) == |s| || !IsSpace(s[i + SpacesFrom(s, i)])
    decreases |s| - i
  {
    if i < |s| && IsSpace(s[i]) {
      SpacesFromRun(s, i + 1);
    }
  }

  /** A greedy `\s*` starting at `i` stops exactly at the first non-blank character. */
  lemma {:induction false} SpacesFromExact(s: string, i: nat, w: nat)
    requires SpacesIn(s, i, i + w) && i + w < |s| && !IsSpace(s[i + w])
    ensures SpacesFrom(s, i) == w
    decreases w
  {
    if w > 0 {
      SpacesFromExact(s, i + 1, w - 1);
    }
  }

  lemma DigitIsNotSpace(c: char)
    requires IsDigit(c)
    ensures !IsSpace(c)
  {
  }

  lemma WordCharIsNotSpace(c: char)
    requires IsWordChar(c)
    ensures !IsSpace(c)
  {
  }

  /** Length of the word-character run that starts at `i` (what a greedy `\w+` consumes there). */
  function WordCharsFrom(s: string, i: nat): (n: nat)
    requires i <= |s|
    ensures i + n <= |s|
    decreases |s| - i
  {
    if i < |s| && IsWordChar(s[i]) then 1 + WordCharsFrom(s, i + 1) else 0
  }

  /** The run `WordCharsFrom` measures is all word characters and cannot be extended. */
  lemma {:induction false} WordCharsFromRun(s: string, i: nat)
    requires i <= |s|
    ensures WordCharsIn(s, i, i + WordCharsFrom(s, i))
    ensures i + WordCharsFrom(s, i) == |s| || !IsWordChar(s[i + WordCharsFrom(s, i)])
    decreases |s| - i
  {
    if i < |s| && IsWordChar(s[i]) {
      WordCharsFromRun(s, i + 1);
    }
  }

  /** A run of word characters starting at `i` is no longer than the one `WordCharsFrom` measures. */
  lemma {:induction false} WordCharsFromLongest(s: string, i: nat, n: nat)
    requires WordCharsIn(s, i, i + n)
    ensures n <= WordCharsFrom(s, i)
    decreases n
  {
    if n > 0 {
      WordCharsFromLongest(s, i + 1, n - 1);
    }
  }

  /** Length of the whitespace run that ends just before `j`. */
  function SpacesBefore(s: string, j: nat): (n: nat)
    requires j <= |s|
    ensures n <= j
  {
    if 0 < j && IsSpace(s[j - 1]) then 1 + SpacesBefore(s, j - 1) else 0
  }

  lemma {:induction false} SpacesBeforeRun(s: string, j: nat)
    requires j <= |s|
    ensures SpacesIn(s, j - SpacesBefore(s, j), j)
    ensures SpacesBefore(s, j) == j || !IsSpace(s[j - SpacesBefore(s, j) - 1])
  {
    if 0 < j && IsSpace(s[j - 1]) {
      SpacesBeforeRun(s, j - 1);
    }
  }

  /**
    `str.strip()`: the part of `s` left after removing the leading and the trailing
    whitespace.
   */
  function Strip(s: string): (r: string)
    ensures |r| == 0 || (!IsSpace(r[0]) && !IsSpace(r[|r| - 1]))
    ensures exists a :: 0 <= a <= a + |r| <= |s| && r == s[a..a + |r|]
                        && SpacesIn(s, 0, a) && SpacesIn(s, a + |r|, |s|)
  {
    var a := SpacesFrom(s, 0);
    var b := SpacesBefore(s, |s|);
    SpacesFromRun(s, 0);
    SpacesBeforeRun(s, |s|);
    if a == |s| then
      assert SpacesIn(s, 0, 0) && SpacesIn(s, 0, |s|);
      assert s[0..0] == [];
      []
    else
      assert !IsSpace(s[a]);
      var r := s[a..|s| - b];
      assert r == s[a..a + |r|];
      r
  }

  function DigitValue(c: char): nat
    requires IsDigit(c)
  {
    c as int - '0' as int
  }

  function DigitChar(d: nat): (c: char)
    requires d < 10
    ensures IsDigit(c) && DigitValue(c) == d
  {
    (d + '0' as int) as char
  }

  function Pow10(n: nat): (p: nat)
    ensures p >= 1
  {
    if n == 0 then 1 else 10 * Pow10(n - 1)
  }

  /** The value of a decimal digit string, most significant digit first, as `int(s)` gives it. */
  function ParseNat(s: string): (n: nat)
    requires AllDigits(s)
    ensures n < Pow10(|s|)
  {
    if |s| == 0 then 0 else ParseNat(s[..|s| - 1]) * 10 + DigitValue(s[|s| - 1])
  }

  /**
    Python's `int(s)` on the strings the sort key sees: `None` stands for the
    ValueError raised on an empty or non-numeric string.
   */
  function ParseInt(s: string): (r: Option<nat>)
    ensures r.Some? <==> |s| > 0 && AllDigits(s)
    ensures r.Some? ==> r.value < Pow10(|s|)
  {
    if |s| > 0 && AllDigits(s) then Some(ParseNat(s)) else None
  }

  /** The decimal digits of `n`, most significant first, without leading zeros (`str(n)`). */
  function DecimalDigits(n: nat): (r: string)
    ensures |r| >= 1 && AllDigits(r) && ParseNat(r) == n
    ensures n < 10 <==> |r| == 1
    ensures 10 <= n < 100 <==> |r| == 2
  {
    if n < 10 then
      assert [DigitChar(n)][..0] == [];
      [DigitChar(n)]
    else
      var r := DecimalDigits(n / 10) + [DigitChar(n % 10)];
      assert r[..|r| - 1] == DecimalDigits(n / 10);
      r
  }

  /** `f"{n:02d}"`: the decimal digits of `n`, padded with a leading '0' to at least two. */
  function ZeroPad2(n: nat): (r: string)
    ensures AllDigits(r) && ParseNat(r) == n
    ensures n < 100 <==> |r| == 2
  {
    if n < 10 then
      var r := ['0', DigitChar(n)];
      assert r[..1][..0] == [] && r[..1] == ['0'];
      r
    else DecimalDigits(n)
  }

  lemma DigitCharOfValue(c: char)
    requires IsDigit(c)
    ensures DigitChar(DigitValue(c)) == c
  {
  }

  /**
    `int(g):02d` on a string of one or two digits is that string left-padded with
    one '0' when it has a single digit, and the string itself otherwise.
   */
  lemma ZeroPad2OfDigits(g: string)
    requires 1 <= |g| <= 2 && AllDigits(g)
    ensures ParseNat(g) < 100
    ensures ZeroPad2(ParseNat(g)) == if |g| == 1 then ['0'] + g else g
  {
    if |g| == 1 {
      ZeroPad2OfOneDigit(g);
    } else {
      ZeroPad2OfTwoDigits(g);
    }
  }

  lemma ZeroPad2OfOneDigit(g: string)
    requires |g| == 1 && AllDigits(g)
    ensures ParseNat(g) < 10 && ZeroPad2(ParseNat(g)) == ['0'] + g
  {
    assert g[..0] == [];
    assert ParseNat(g) == DigitValue(g[0]);
    ZeroPad2OneDigit(g[0]);
    assert ['0'] + g == ['0', g[0]];
  }

  lemma ZeroPad2OfTwoDigits(g: string)
    requires |g| == 2 && AllDigits(g)
    ensures ParseNat(g) < 100 && ZeroPad2(ParseNat(g)) == g
  {
    assert g[..1][..0] == [];
    assert ParseNat(g) == 10 * DigitValue(g[0]) + DigitValue(g[1]);
    ZeroPad2TwoDigits(g[0], g[1]);
    assert g == [g[0], g[1]];
  }

  lemma ZeroPad2OneDigit(c: char)
    requires IsDigit(c)
    ensures ZeroPad2(DigitValue(c)) == ['0', c]
  {
    DigitCharOfValue(c);
  }

  lemma ZeroPad2TwoDigits(c0: char, c1: char)
    requires IsDigit(c0) && IsDigit(c1)
    ensures ZeroPad2(10 * DigitValue(c0) + DigitValue(c1)) == [c0, c1]
  {
    var d0, d1 := DigitValue(c0), DigitValue(c1);
    var n := 10 * d0 + d1;
    DigitCharOfValue(c0);
    DigitCharOfValue(c1);
    assert n / 10 == d0 && n % 10 == d1;
    if d0 != 0 {
      assert DecimalDigits(n) == DecimalDigits(d0) + [DigitChar(d1)];
    }
  }

  /**
    `s.split(sep)`: the pieces of `s` between occurrences of `sep`; there is always
    at least one piece, and none of them contains `sep`.
   */
  function Split(s: string, sep: char): (parts: seq<string>)
    ensures |parts| >= 1
    ensures forall p :: p in parts ==> sep !in p
  {
    if |s| == 0 then [""]
    else
      var rest := Split(s[1..], sep);
      if s[0] == sep then [""] + rest else [[s[0]] + rest[0]] + rest[1..]
  }

  /** A string without the separator is a single piece. */
  lemma {:induction false} SplitWithoutSep(s: string, sep: char)
    requires sep !in s
    ensures Split(s, sep) == [s]
  {
    if |s| > 0 {
      assert sep !in s[1..];
      SplitWithoutSep(s[1..], sep);
      assert [s[0]] + s[1..] == s;
    }
  }

  /** Splitting `a + [sep] + b` yields `a` followed by the pieces of `b`. */
  lemma {:induction false} SplitAfterPiece(a: string, b: string, sep: char)
    requires sep !in a
    ensures Split(a + [sep] + b, sep) == [a] + Split(b, sep)
  {
    var s := a + [sep] + b;
    if |a| == 0 {
      assert s[1..] == b;
    } else {
      assert s[1..] == a[1..] + [sep] + b;
      assert sep !in a[1..];
      SplitAfterPiece(a[1..], b, sep);
      assert [a[0]] + a[1..] == a;
    }
  }
}

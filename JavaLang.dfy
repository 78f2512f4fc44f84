/**
 * The few java.lang operations the validator relies on, restricted to ASCII:
 * Character.isDigit, Character.toUpperCase, String.trim, String.indexOf,
 * Integer.parseInt on a two-character string, String.format("%02d", n)
 * and the truncating remainder operator.
 */
module JavaLang {
  import opened Wrappers

  predicate IsDigit(c: char) { '0' <= c <= '9' }

  predicate IsUpper(c: char) { 'A' <= c <= 'Z' }

  predicate IsLower(c: char) { 'a' <= c <= 'z' }

  predicate IsAsciiLetter(c: char) { IsUpper(c) || IsLower(c) }

  /** A character that neither upper-casing nor trimming can change. */
  predicate IsCanonical(c: char) { IsDigit(c) || IsUpper(c) }

  function DigitValue(c: char): int
    requires IsDigit(c)
  {
    c as int - '0' as int
  }

  function DigitChar(d: int): char
    requires 0 <= d < 10
  {
    ('0' as int + d) as char
  }

  /** Character.toUpperCase on the ASCII range. */
  function ToUpper(c: char): char
  {
    if IsLower(c) then (c as int - 32) as char else c
  }

  /** String.toUpperCase on the ASCII range: a character-wise map. */
  function UpperAscii(s: string): string
  {
    seq(|s|, i requires 0 <= i < |s| => ToUpper(s[i]))
  }

  /** String.trim: drop every leading and trailing character at or below U+0020. */
  function TrimStart(s: string): string
  {
    if |s| > 0 && s[0] <= ' ' then TrimStart(s[1..]) else s
  }

  function TrimEnd(s: string): string
  {
    if |s| > 0 && s[|s| - 1] <= ' ' then TrimEnd(s[..|s| - 1]) else s
  }

  function Trim(s: string): string
  {
    TrimEnd(TrimStart(s))
  }

  /** String.indexOf(char): the first index holding c, or -1. */
  function IndexOf(s: string, c: char): (r: int)
    ensures -1 <= r < |s|
    ensures r >= 0 ==> s[r] == c && forall j :: 0 <= j < r ==> s[j] != c
    ensures r == -1 <==> c !in s
  {
    if |s| == 0 then -1
    else if s[0] == c then 0
    else
      var k := IndexOf(s[1..], c);
      if k < 0 then -1 else k + 1
  }

  /** Integer.parseInt on a two-character string: an optional sign followed by digits. */
  function ParseInt2(a: char, b: char): Option<int>
  {
    if IsDigit(a) && IsDigit(b) then Some(10 * DigitValue(a) + DigitValue(b))
    else if a == '-' && IsDigit(b) then Some(-DigitValue(b))
    else if a == '+' && IsDigit(b) then Some(DigitValue(b))
    else None
  }

  /** The decimal digits of n, without sign or padding. */
  function Decimal(n: nat): string
  {
    if n < 10 then [DigitChar(n)] else Decimal(n / 10) + [DigitChar(n % 10)]
  }

  /** String.format("%02d", n): at least two characters, zero-padded, a leading '-' for negatives. */
  function Format02(n: int): string
  {
    if n < 0 then "-" + Decimal(-n)
    else if n < 10 then "0" + Decimal(n)
    else Decimal(n)
  }

  /** Java's % on int, which truncates toward zero (its sign follows the dividend). */
  function JavaRem(a: int, b: int): int
    requires b > 0
  {
    if a >= 0 then a % b else -((-a) % b)
  }

  // ---------------------------------------------------------------------------
  // Properties

  /** %02d followed by Integer.parseInt gives back every value from 0 to 99. */
  lemma Format02RoundTrip(n: int)
    requires 0 <= n < 100
    ensures |Format02(n)| == 2
    ensures IsDigit(Format02(n)[0]) && IsDigit(Format02(n)[1])
    ensures ParseInt2(Format02(n)[0], Format02(n)[1]) == Some(n)
  {
    if n >= 10 {
      assert Decimal(n) == Decimal(n / 10) + [DigitChar(n % 10)];
      assert Decimal(n / 10) == [DigitChar(n / 10)];
    }
  }

  /**
   * A truncating remainder by 100 that is not negative is the Euclidean one:
   * the dividend is non-negative or a multiple of 100.
   */
  lemma JavaRemOfYear(a: int)
    requires JavaRem(a, 100) >= 0
    ensures JavaRem(a, 100) == a % 100 && 0 <= JavaRem(a, 100) < 100
  {
    if a < 0 {
      assert (-a) % 100 == 0;
      assert -a == 100 * ((-a) / 100);
      assert a == 100 * (-((-a) / 100));
    }
  }

  /** Upper-casing is idempotent. */
  lemma UpperAsciiIdempotent(s: string)
    ensures |UpperAscii(s)| == |s|
    ensures UpperAscii(UpperAscii(s)) == UpperAscii(s)
  {
  }

  /** Trimming yields a slice of its input, with no blank at either end. */
  lemma {:induction false} TrimIsSlice(s: string)
    ensures exists a, b :: 0 <= a <= b <= |s| && Trim(s) == s[a..b]
    ensures |Trim(s)| > 0 ==> Trim(s)[0] > ' ' && Trim(s)[|Trim(s)| - 1] > ' '
  {
    TrimStartIsSuffix(s);
    var t := TrimStart(s);
    var a := |s| - |t|;
    TrimEndIsPrefix(t);
    var b := a + |TrimEnd(t)|;
    assert Trim(s) == s[a..b];
  }

  lemma {:induction false} TrimStartIsSuffix(s: string)
    ensures |TrimStart(s)| <= |s| && TrimStart(s) == s[|s| - |TrimStart(s)|..]
    ensures |TrimStart(s)| > 0 ==> TrimStart(s)[0] > ' '
  {
    if |s| > 0 && s[0] <= ' ' {
      TrimStartIsSuffix(s[1..]);
    }
  }

  lemma {:induction false} TrimEndIsPrefix(s: string)
    ensures |TrimEnd(s)| <= |s| && TrimEnd(s) == s[..|TrimEnd(s)|]
    ensures |TrimEnd(s)| > 0 ==> TrimEnd(s)[|TrimEnd(s)| - 1] > ' '
    ensures |TrimEnd(s)| > 0 && |s| > 0 && s[0] > ' ' ==> TrimEnd(s)[0] > ' '
  {
    if |s| > 0 && s[|s| - 1] <= ' ' {
      TrimEndIsPrefix(s[..|s| - 1]);
    }
  }

  /** A string without blanks at its ends is left alone by trim. */
  lemma TrimNoBlankEnds(s: string)
    requires |s| > 0 ==> s[0] > ' ' && s[|s| - 1] > ' '
    ensures Trim(s) == s
  {
  }

  /** A string of digits and capital letters is left alone by upper-casing and trimming. */
  lemma CanonicalUnchanged(s: string)
    requires forall i :: 0 <= i < |s| ==> IsCanonical(s[i])
    ensures UpperAscii(s) == s
    ensures Trim(s) == s
  {
    TrimNoBlankEnds(s);
  }
}

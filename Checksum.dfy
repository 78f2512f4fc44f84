/**
 * The check character of a codice fiscale (calcolaCarattereControllo).
 * Each character gets a base value (a digit its value, a letter its offset
 * from 'A'); characters at odd 1-based positions are weighted through the
 * substitution table VALORI_DISPARI, those at even positions through the
 * identity table VALORI_PARI; the sum modulo 26 selects a letter A..Z.
 * A base value outside 0..25 indexes past a table, which in Java throws
 * ArrayIndexOutOfBoundsException; the model answers None then.
 */
module Checksum {
  import opened Wrappers
  import opened JavaLang

  const VALORI_DISPARI: seq<int> :=
    [1, 0, 5, 7, 9, 13, 15, 17, 19, 21, 2, 4, 18, 20, 11, 3, 6, 8, 12, 14, 16, 10, 22, 25, 24, 23]
  const VALORI_PARI: seq<int> :=
    [0, 1, 2, 3, 4, 5, 6, 7, 8, 9, 10, 11, 12, 13, 14, 15, 16, 17, 18, 19, 20, 21, 22, 23, 24, 25]
  const CARATTERI_CONTROLLO: string := "ABCDEFGHIJKLMNOPQRSTUVWXYZ"

  /** The table index the loop computes for c. */
  function BaseValue(c: char): int
  {
    if IsDigit(c) then DigitValue(c) else c as int - 'A' as int
  }

  /** The characters that index inside the tables: the digits and 'A'..'Z'. */
  predicate HasValue(c: char)
  {
    0 <= BaseValue(c) < 26
  }

  predicate AllHaveValues(s: string)
  {
    forall i :: 0 <= i < |s| ==> HasValue(s[i])
  }

  /** The entry for base value v of the table for even (true) or odd (false) 1-based positions. */
  function TableValue(even: bool, v: int): int
    requires 0 <= v < 26
  {
    if even then VALORI_PARI[v] else VALORI_DISPARI[v]
  }

  /** The weighted value of c at 0-based index i. */
  function Weight(i: nat, c: char): int
    requires HasValue(c)
  {
    TableValue((i + 1) % 2 == 0, BaseValue(c))
  }

  /** The sum of the weights of the first n characters. */
  function WeightedSum(s: string, n: nat): int
    requires n <= |s|
    requires forall i :: 0 <= i < n ==> HasValue(s[i])
  {
    if n == 0 then 0 else WeightedSum(s, n - 1) + Weight(n - 1, s[n - 1])
  }

  /** The check character of s, or None where Java throws. */
  function CheckChar(s: string): Option<char>
  {
    if AllHaveValues(s) then Some(CARATTERI_CONTROLLO[WeightedSum(s, |s|) % 26]) else None
  }

  /** calcolaCarattereControllo */
  method CalcolaCarattereControllo(cfSenzaControllo: string) returns (r: Option<char>)
    ensures r == CheckChar(cfSenzaControllo)
  {
    var somma := 0;
    for i := 0 to |cfSenzaControllo|
      invariant forall j :: 0 <= j < i ==> HasValue(cfSenzaControllo[j])
      invariant somma == WeightedSum(cfSenzaControllo, i)
    {
      var c := cfSenzaControllo[i];
      var valore := if IsDigit(c) then DigitValue(c) else c as int - 'A' as int;
      if valore < 0 || valore >= 26 {
        // VALORI_PARI[valore] or VALORI_DISPARI[valore] throws
        return None;
      }
      if (i + 1) % 2 == 0 {
        somma := somma + VALORI_PARI[valore];
      } else {
        somma := somma + VALORI_DISPARI[valore];
      }
    }
    // Java's % truncates; the sum is never negative, so it agrees with Dafny's
    WeightedSumNonNegative(cfSenzaControllo, |cfSenzaControllo|);
    var resto := JavaRem(somma, 26);
    return Some(CARATTERI_CONTROLLO[resto]);
  }

  // ---------------------------------------------------------------------------
  // The tables

  /** The inverse of VALORI_DISPARI, used only to prove it a permutation. */
  ghost const INVERSO_DISPARI: seq<int> :=
    [1, 0, 10, 15, 11, 2, 16, 3, 17, 4, 21, 14, 18, 5, 19, 6, 20, 7, 12, 8, 13, 9, 22, 25, 24, 23]

  /** Both weight tables are permutations of 0..25, and the odd one is not the identity. */
  lemma TablesArePermutations()
    ensures |VALORI_DISPARI| == 26 && |VALORI_PARI| == 26
    ensures forall k :: 0 <= k < 26 ==> 0 <= VALORI_DISPARI[k] < 26 && VALORI_PARI[k] == k
    ensures forall j, k :: 0 <= j < 26 && 0 <= k < 26 && VALORI_DISPARI[j] == VALORI_DISPARI[k] ==> j == k
    ensures VALORI_DISPARI != VALORI_PARI
  {
    assert forall k :: 0 <= k < 26 ==> INVERSO_DISPARI[VALORI_DISPARI[k]] == k;
    assert VALORI_DISPARI[0] != VALORI_PARI[0];
  }

  /** Each table maps base values into 0..25, distinct values to distinct entries. */
  lemma TableValueInjective(even: bool, v: int, w: int)
    requires 0 <= v < 26 && 0 <= w < 26
    ensures 0 <= TableValue(even, v) < 26
    ensures TableValue(even, v) == TableValue(even, w) ==> v == w
  {
    TablesArePermutations();
  }

  lemma WeightRange(i: nat, c: char)
    requires HasValue(c)
    ensures 0 <= Weight(i, c) < 26
  {
    TableValueInjective((i + 1) % 2 == 0, BaseValue(c), 0);
  }

  /** The letter table maps k to the k-th letter of the alphabet. */
  lemma LetterTable()
    ensures |CARATTERI_CONTROLLO| == 26
    ensures forall k :: 0 <= k < 26 ==> CARATTERI_CONTROLLO[k] as int == 'A' as int + k
  {
  }

  /** Two remainders by 26 differ when their operands differ by less than 26. */
  lemma RemaindersDiffer(x: int, y: int)
    requires x != y && -26 < x - y < 26
    ensures x % 26 != y % 26
  {
  }

  // ---------------------------------------------------------------------------
  // Properties

  /** The sum never becomes negative, so Java's % and Dafny's agree on it. */
  lemma {:induction false} WeightedSumNonNegative(s: string, n: nat)
    requires n <= |s|
    requires forall i :: 0 <= i < n ==> HasValue(s[i])
    ensures WeightedSum(s, n) >= 0
  {
    if n > 0 {
      WeightedSumNonNegative(s, n - 1);
      WeightRange(n - 1, s[n - 1]);
    }
  }

  /**
   * The check character is defined exactly when every character is a digit
   * or a capital letter, and it is then a capital letter.
   */
  lemma CheckCharIsLetter(s: string)
    ensures CheckChar(s).Some? <==> forall i :: 0 <= i < |s| ==> IsCanonical(s[i])
    ensures CheckChar(s).Some? ==> IsUpper(CheckChar(s).value)
  {
    LetterTable();
    assert forall c :: HasValue(c) <==> IsCanonical(c);
  }

  /** Two strings that differ only at index k: their sums differ by the two weights at k. */
  lemma {:induction false} WeightedSumDifference(s: string, t: string, k: nat, n: nat)
    requires |s| == |t| && n <= |s| && k < |s|
    requires AllHaveValues(s) && AllHaveValues(t)
    requires forall i :: 0 <= i < |s| && i != k ==> s[i] == t[i]
    ensures WeightedSum(s, n) - WeightedSum(t, n) == if k < n then Weight(k, s[k]) - Weight(k, t[k]) else 0
  {
    if n > 0 {
      WeightedSumDifference(s, t, k, n - 1);
    }
  }

  /**
   * Changing one character changes the check character exactly when the new
   * character has a different base value: a single substitution is always
   * detected, except that digit d and letter 'A' + d are interchangeable.
   */
  lemma SingleSubstitution(s: string, t: string, k: nat)
    requires |s| == |t| && k < |s|
    requires AllHaveValues(s) && AllHaveValues(t)
    requires forall i :: 0 <= i < |s| && i != k ==> s[i] == t[i]
    ensures CheckChar(s).Some? && CheckChar(t).Some?
    ensures CheckChar(s) == CheckChar(t) <==> BaseValue(s[k]) == BaseValue(t[k])
  {
    WeightedSumDifference(s, t, k, |s|);
    var x, y := WeightedSum(s, |s|), WeightedSum(t, |t|);
    if BaseValue(s[k]) != BaseValue(t[k]) {
      var even := (k + 1) % 2 == 0;
      TableValueInjective(even, BaseValue(s[k]), BaseValue(t[k]));
      TableValueInjective(even, BaseValue(t[k]), BaseValue(s[k]));
      RemaindersDiffer(x, y);
      LetterTable();
      assert CARATTERI_CONTROLLO[x % 26] != CARATTERI_CONTROLLO[y % 26];
    }
  }

  /** Digit d and the letter 'A' + d weigh the same at every position. */
  lemma DigitLetterInterchangeable(s: string, k: nat, d: int)
    requires AllHaveValues(s) && k < |s| && 0 <= d < 10
    requires s[k] == DigitChar(d)
    ensures CheckChar(s[k := ('A' as int + d) as char]) == CheckChar(s)
  {
    SingleSubstitution(s, s[k := ('A' as int + d) as char], k);
  }
}

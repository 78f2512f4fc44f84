/**
 * Homograph codes (codici omocodici). To tell apart two people whose codes
 * would coincide, the digits at the seven numeric-bearing offsets
 * 6, 7, 9, 10, 12, 13, 14 may be replaced by the letters L M N P Q R S T U V
 * (standing for 0..9). normalizzaCF undoes the replacement, isOmocodico
 * detects it. Both leave strings of any length other than 16 alone.
 */
module Omocodia {
  import opened JavaLang

  const POSIZIONI_NUMERICHE: seq<int> := [6, 7, 9, 10, 12, 13, 14]

  const CONVERSIONE_OMOCODICI: map<char, char> := map[
    'L' := '0', 'M' := '1', 'N' := '2', 'P' := '3', 'Q' := '4',
    'R' := '5', 'S' := '6', 'T' := '7', 'U' := '8', 'V' := '9']

  /** The letters of the table, in the order of the digits they stand for. */
  const LETTERE_OMOCODICHE: string := "LMNPQRSTUV"

  predicate IsNumericPosition(i: int)
  {
    i in POSIZIONI_NUMERICHE
  }

  predicate IsHomographLetter(c: char)
  {
    c in CONVERSIONE_OMOCODICI
  }

  /** The character normalisation leaves at a numeric-bearing offset. */
  function Converted(c: char): char
  {
    if c in CONVERSIONE_OMOCODICI then CONVERSIONE_OMOCODICI[c] else c
  }

  /** The string normalizzaCF returns. */
  function Normalized(cf: string): string
  {
    if |cf| != 16 then cf
    else seq(16, i requires 0 <= i < 16 => if IsNumericPosition(i) then Converted(cf[i]) else cf[i])
  }

  /** What isOmocodico answers. */
  predicate IsHomocode(cf: string)
  {
    |cf| == 16 && exists k :: 0 <= k < |POSIZIONI_NUMERICHE| && IsHomographLetter(cf[POSIZIONI_NUMERICHE[k]])
  }

  lemma PositionsInRange()
    ensures |POSIZIONI_NUMERICHE| == 7
    ensures forall k :: 0 <= k < 7 ==> 0 <= POSIZIONI_NUMERICHE[k] < 16
  {
  }

  /** normalizzaCF: rewrites a copy of cf in place, one numeric-bearing offset at a time. */
  method NormalizzaCF(cf: string) returns (r: string)
    ensures r == Normalized(cf)
  {
    if |cf| != 16 {
      return cf;
    }
    PositionsInRange();
    var cfNormalizzato := new char[16](i requires 0 <= i < 16 => cf[i]);
    for k := 0 to |POSIZIONI_NUMERICHE|
      invariant forall i :: 0 <= i < 16 ==>
        cfNormalizzato[i] == if i in POSIZIONI_NUMERICHE[..k] then Converted(cf[i]) else cf[i]
    {
      var pos := POSIZIONI_NUMERICHE[k];
      var c := cf[pos];
      if c in CONVERSIONE_OMOCODICI {
        cfNormalizzato[pos] := CONVERSIONE_OMOCODICI[c];
      }
      assert POSIZIONI_NUMERICHE[..k + 1] == POSIZIONI_NUMERICHE[..k] + [pos];
    }
    assert POSIZIONI_NUMERICHE[..|POSIZIONI_NUMERICHE|] == POSIZIONI_NUMERICHE;
    r := cfNormalizzato[..];
  }

  /** isOmocodico: scans the numeric-bearing offsets and stops at the first homograph letter. */
  method IsOmocodico(cf: string) returns (b: bool)
    ensures b == IsHomocode(cf)
  {
    if |cf| != 16 {
      return false;
    }
    PositionsInRange();
    for k := 0 to |POSIZIONI_NUMERICHE|
      invariant forall j :: 0 <= j < k ==> !IsHomographLetter(cf[POSIZIONI_NUMERICHE[j]])
    {
      var c := cf[POSIZIONI_NUMERICHE[k]];
      if c >= 'A' && c <= 'Z' && c in CONVERSIONE_OMOCODICI {
        return true;
      }
    }
    return false;
  }

  // ---------------------------------------------------------------------------
  // Properties

  /** Each homograph letter stands for the digit of its rank in L M N P Q R S T U V; no digit is a homograph letter. */
  lemma ConversionTable()
    ensures |LETTERE_OMOCODICHE| == 10
    ensures forall c :: IsHomographLetter(c) <==> c in LETTERE_OMOCODICHE
    ensures forall d :: 0 <= d < 10 ==> CONVERSIONE_OMOCODICI[LETTERE_OMOCODICHE[d]] == DigitChar(d)
    ensures forall c :: IsHomographLetter(c) ==> IsUpper(c) && IsDigit(CONVERSIONE_OMOCODICI[c])
  {
    assert CONVERSIONE_OMOCODICI.Keys == {'L', 'M', 'N', 'P', 'Q', 'R', 'S', 'T', 'U', 'V'};
  }

  /**
   * Normalisation keeps the length, changes nothing when the length is not
   * 16, and otherwise changes only homograph letters at numeric-bearing
   * offsets, each into the digit it stands for.
   */
  lemma NormalizedChangesOnlyHomographLetters(cf: string, i: int)
    requires 0 <= i < |cf|
    ensures |Normalized(cf)| == |cf|
    ensures |cf| != 16 ==> Normalized(cf) == cf
    ensures Normalized(cf)[i] != cf[i] <==> |cf| == 16 && IsNumericPosition(i) && IsHomographLetter(cf[i])
    ensures Normalized(cf)[i] != cf[i] ==>
      IsDigit(Normalized(cf)[i]) && LETTERE_OMOCODICHE[DigitValue(Normalized(cf)[i])] == cf[i]
  {
    ConversionTable();
  }

  /** Normalising twice is normalising once. */
  lemma NormalizedIdempotent(cf: string)
    ensures Normalized(Normalized(cf)) == Normalized(cf)
  {
    ConversionTable();
  }

  /** A normalised string is never a homograph code. */
  lemma NormalizedIsStandard(cf: string)
    ensures !IsHomocode(Normalized(cf))
  {
    ConversionTable();
    PositionsInRange();
  }

  /** A string is a homograph code exactly when normalisation changes it. */
  lemma HomocodeIffNormalizationChanges(cf: string)
    ensures IsHomocode(cf) <==> Normalized(cf) != cf
  {
    ConversionTable();
    PositionsInRange();
    if IsHomocode(cf) {
      var k :| 0 <= k < |POSIZIONI_NUMERICHE| && IsHomographLetter(cf[POSIZIONI_NUMERICHE[k]]);
      var p := POSIZIONI_NUMERICHE[k];
      assert Normalized(cf)[p] != cf[p];
    }
  }
}

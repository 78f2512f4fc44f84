/**
 * Birth-date decoding (estraiDataNascita). The year comes from offsets 6-7,
 * the month from the letter at offset 8 (its index in MESI, plus one), the
 * day from offsets 9-10, less 40 when it is over 40 (women's codes). The
 * century is the one before the current year's: (currentYear / 100 - 1) * 100.
 * The date is then built with LocalDate.of, which throws DateTimeException
 * for an impossible date; substring, charAt and Integer.parseInt throw on
 * strings that are too short or not numeric there.
 */
module DataNascita {
  import opened Wrappers
  import opened JavaLang
  import opened Calendar

  const MESI: string := "ABCDEHLMPRST"

  /** The exceptions the Java code can raise while decoding or computing a code. */
  datatype JavaException =
    | StringIndexOutOfBounds
    | NumberFormat
    | DateTime
    | ArrayIndexOutOfBounds

  datatype DateOutcome = Decoded(date: Date) | DecodeThrows(exception: JavaException)

  /** The full year for the two-digit year anno, given the current year (lines 352-356). */
  function FullYear(currentYear: nat, anno: int): int
  {
    var secoloAttuale := currentYear / 100;
    var annoCompleto := (secoloAttuale - 1) * 100 + anno;
    if annoCompleto > currentYear then annoCompleto - 100 else annoCompleto
  }

  /** estraiDataNascita, with the current year passed in instead of read from the clock. */
  function EstraiDataNascita(codiceFiscale: string, currentYear: nat): DateOutcome
  {
    if |codiceFiscale| < 8 then DecodeThrows(StringIndexOutOfBounds)
    else match ParseInt2(codiceFiscale[6], codiceFiscale[7])
      case None => DecodeThrows(NumberFormat)
      case Some(anno) =>
        if |codiceFiscale| < 11 then DecodeThrows(StringIndexOutOfBounds)
        else
          var indiceMese := IndexOf(MESI, codiceFiscale[8]);
          match ParseInt2(codiceFiscale[9], codiceFiscale[10])
          case None => DecodeThrows(NumberFormat)
          case Some(g) =>
            var giorno := if g > 40 then g - 40 else g;
            var data := Date(FullYear(currentYear, anno), indiceMese + 1, giorno);
            if IsValidDate(data) then Decoded(data) else DecodeThrows(DateTime)
  }

  // ---------------------------------------------------------------------------
  // Properties

  /**
   * The decoded year keeps the two encoded digits modulo 100 and never
   * exceeds the current year; as written it always falls in the century
   * before the current one, so the correction for future years never applies.
   */
  lemma FullYearInPreviousCentury(currentYear: nat, anno: int)
    requires 0 <= anno < 100
    ensures FullYear(currentYear, anno) % 100 == anno
    ensures FullYear(currentYear, anno) <= currentYear
    ensures FullYear(currentYear, anno) == (currentYear / 100 - 1) * 100 + anno
  {
  }

  /** Each month letter decodes to its month and only MESI letters decode to a month. */
  lemma MonthLetters(c: char)
    ensures IndexOf(MESI, c) >= 0 <==> c in MESI
    ensures IndexOf(MESI, c) >= 0 ==> MESI[IndexOf(MESI, c)] == c
    ensures forall k :: 0 <= k < 12 ==> IndexOf(MESI, MESI[k]) == k
  {
    assert forall j, k :: 0 <= j < k < 12 ==> MESI[j] != MESI[k];
  }

  /** What a code with digits at the year and day offsets decodes to, in terms of its fields. */
  lemma {:induction false} DecodedFields(cf: string, currentYear: nat)
    requires |cf| >= 11
    requires forall i :: i in {6, 7, 9, 10} ==> IsDigit(cf[i])
    ensures var g := 10 * DigitValue(cf[9]) + DigitValue(cf[10]);
            var data := Date(FullYear(currentYear, 10 * DigitValue(cf[6]) + DigitValue(cf[7])),
                             IndexOf(MESI, cf[8]) + 1,
                             if g > 40 then g - 40 else g);
            EstraiDataNascita(cf, currentYear) == if IsValidDate(data) then Decoded(data) else DecodeThrows(DateTime)
  {
    assert IsDigit(cf[6]) && IsDigit(cf[7]) && IsDigit(cf[9]) && IsDigit(cf[10]);
  }

  /** A day field of 00 or 40 never decodes: 40 is not reduced, and neither is a day of the month. */
  lemma DayZeroOrFortyThrows(cf: string, currentYear: nat)
    requires |cf| >= 11
    requires forall i :: i in {6, 7, 9, 10} ==> IsDigit(cf[i])
    requires cf[9] in "04" && cf[10] == '0'
    ensures EstraiDataNascita(cf, currentYear) == DecodeThrows(DateTime)
  {
    DecodedFields(cf, currentYear);
    var g := 10 * DigitValue(cf[9]) + DigitValue(cf[10]);
    assert g == 0 || g == 40;
    forall d: Date | d.day == g ensures !IsValidDate(d) {
      if 1 <= d.month <= 12 {
        DaysInMonthBound(d.year, d.month);
      }
    }
  }

  /** Adding 40 to a day field between 01 and 31 (a woman's code) decodes to the same date. */
  lemma FemaleDayDecodesSame(cf: string, cf': string, currentYear: nat)
    requires |cf| >= 11 && |cf'| == |cf|
    requires forall i :: i in {6, 7, 9, 10} ==> IsDigit(cf[i]) && IsDigit(cf'[i])
    requires forall i :: 0 <= i < |cf| && i != 9 && i != 10 ==> cf'[i] == cf[i]
    requires var g := 10 * DigitValue(cf[9]) + DigitValue(cf[10]);
             1 <= g <= 31 && 10 * DigitValue(cf'[9]) + DigitValue(cf'[10]) == g + 40
    ensures EstraiDataNascita(cf', currentYear) == EstraiDataNascita(cf, currentYear)
  {
    DecodedFields(cf, currentYear);
    DecodedFields(cf', currentYear);
  }
}

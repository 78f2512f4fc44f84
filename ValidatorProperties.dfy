/**
 * What validaFormato, generaCodiceFiscale and valida promise: the fixed
 * order of the checks, the meaning of a valid result, the round trip from
 * generation to validation, and the consequences of the code as written.
 */
module ValidatorProperties {
  import opened Wrappers
  import opened JavaLang
  import opened Calendar
  import opened Places
  import opened Checksum
  import opened Omocodia
  import opened DataNascita
  import opened CodiceNome
  import opened Validator

  /** The upper-cased, trimmed form validaFormato checks. */
  function Canonical(raw: string): string
  {
    Trim(UpperAscii(raw))
  }

  /** The regex's digit slots are the offsets normalizzaCF rewrites. */
  lemma SlotsAgree(i: int)
    requires 0 <= i < 16
    ensures IsRegexDigitSlot(i) <==> IsNumericPosition(i)
  {
  }

  /**
   * A code that matches the format normalises to a code that matches it too,
   * has digits at every numeric-bearing offset and only digits and capital
   * letters anywhere; normalising it only when it is a homograph code is
   * normalising it.
   */
  lemma {:induction false} NormalizedMatch(cf: string)
    requires MatchesPattern(cf)
    ensures (if IsHomocode(cf) then Normalized(cf) else cf) == Normalized(cf)
    ensures |Normalized(cf)| == 16 && MatchesPattern(Normalized(cf))
    ensures forall i :: 0 <= i < 16 && IsNumericPosition(i) ==> IsDigit(Normalized(cf)[i])
    ensures forall i :: 0 <= i < 16 ==> IsCanonical(Normalized(cf)[i])
    ensures forall i :: 0 <= i < 16 && !IsNumericPosition(i) ==> Normalized(cf)[i] == cf[i]
  {
    HomocodeIffNormalizationChanges(cf);
    ConversionTable();
    assert CLASSE_OMOCODICA == LETTERE_OMOCODICHE;
    var n := Normalized(cf);
    forall i | 0 <= i < 16
      ensures IsNumericPosition(i) ==> IsDigit(n[i])
      ensures IsCanonical(n[i]) && SlotAccepts(i, n[i])
    {
      SlotsAgree(i);
    }
  }

  /** On a matching code, date decoding either succeeds or throws DateTimeException from LocalDate.of. */
  lemma MatchedDateOutcome(cf: string, currentYear: nat)
    requires MatchesPattern(cf)
    ensures EstraiDataNascita(Normalized(cf), currentYear).Decoded? ||
            EstraiDataNascita(Normalized(cf), currentYear) == DecodeThrows(DateTime)
  {
    NormalizedMatch(cf);
    DecodedFields(Normalized(cf), currentYear);
  }

  /** On a matching code, the check character of the first 15 normalised characters always exists. */
  lemma MatchedCheckChar(cf: string)
    requires MatchesPattern(cf)
    ensures CheckChar(Normalized(cf)[..15]).Some?
  {
    NormalizedMatch(cf);
    CheckCharIsLetter(Normalized(cf)[..15]);
  }

  /** On a matching code, validaFormato runs its remaining checks on the normal form. */
  lemma ValidaFormatoOnMatch(reg: PlaceRegistry, raw: string, currentYear: nat)
    requires MatchesPattern(Canonical(raw))
    ensures |Normalized(Canonical(raw))| == 16
    ensures ValidaFormato(reg, Some(raw), currentYear) ==
            ControlliSuNormalizzato(reg, Normalized(Canonical(raw)), IsHomocode(Canonical(raw)), currentYear)
  {
    NormalizedMatch(Canonical(raw));
  }

  /** The shape of every outcome of the checks after normalisation, when the check character exists. */
  lemma ControlliResults(reg: PlaceRegistry, n: string, omocodico: bool, currentYear: nat)
    requires |n| == 16 && CheckChar(n[..15]).Some?
    ensures var o := ControlliSuNormalizzato(reg, n, omocodico, currentYear);
            (o.Thrown? <==> EstraiDataNascita(n, currentYear).DecodeThrows?) &&
            (o.Thrown? ==> o.exception == EstraiDataNascita(n, currentYear).exception) &&
            (o.Returned? ==>
               (o.risultato.valido <==> o.risultato.tipoErrore == NessunErrore) &&
               o.risultato.tipoErrore !in {FormatoNonValido, DataNonValida, DatiAnagraficiNonCorrispondenti} &&
               o.risultato.omocodico == omocodico) &&
            ((o.Returned? && o.risultato.valido) <==>
               (EstraiDataNascita(n, currentYear).Decoded? &&
                IsCodiceBelfioreValido(reg, n[11..15]) == Answer(true) &&
                CheckChar(n[..15]) == Some(n[15])))
  {
  }

  // ---------------------------------------------------------------------------
  // validaFormato: the order of the checks

  /** 1. A null code, or one that does not match the format once upper-cased and trimmed, is FORMATO_NON_VALIDO. */
  lemma FormatCheckedFirst(reg: PlaceRegistry, codiceFiscale: Option<string>, currentYear: nat)
    ensures var o := ValidaFormato(reg, codiceFiscale, currentYear);
            (o.Returned? && o.risultato.tipoErrore == FormatoNonValido) <==>
            (codiceFiscale.None? || !MatchesPattern(Canonical(codiceFiscale.value)))
    ensures codiceFiscale.None? ==>
            ValidaFormato(reg, codiceFiscale, currentYear) == Returned(Risultato(false, MSG_NULL, FormatoNonValido, false))
    ensures codiceFiscale.Some? && !MatchesPattern(Canonical(codiceFiscale.value)) ==>
            ValidaFormato(reg, codiceFiscale, currentYear) == Returned(Risultato(false, MSG_FORMATO, FormatoNonValido, false))
  {
    if codiceFiscale.Some? && MatchesPattern(Canonical(codiceFiscale.value)) {
      var raw := codiceFiscale.value;
      ValidaFormatoOnMatch(reg, raw, currentYear);
      MatchedCheckChar(Canonical(raw));
      ControlliResults(reg, Normalized(Canonical(raw)), IsHomocode(Canonical(raw)), currentYear);
    }
  }

  /**
   * 2. A matching code whose date cannot be built makes validaFormato throw
   * DateTimeException: it never answers DATA_NON_VALIDA.
   */
  lemma DateCheckedSecond(reg: PlaceRegistry, raw: string, currentYear: nat)
    requires MatchesPattern(Canonical(raw))
    ensures ValidaFormato(reg, Some(raw), currentYear).Thrown? <==>
            EstraiDataNascita(Normalized(Canonical(raw)), currentYear).DecodeThrows?
    ensures ValidaFormato(reg, Some(raw), currentYear).Thrown? ==>
            ValidaFormato(reg, Some(raw), currentYear).exception == DateTime
  {
    var cf := Canonical(raw);
    ValidaFormatoOnMatch(reg, raw, currentYear);
    MatchedDateOutcome(cf, currentYear);
    MatchedCheckChar(cf);
    ControlliResults(reg, Normalized(cf), IsHomocode(cf), currentYear);
  }

  /**
   * 3. Past format and date, the place code at normalised offsets 11-14 is
   * looked up: a miss is COMUNE_NON_VALIDO naming the code, a failure of the
   * store is ERRORE_DATABASE, whatever the check character.
   */
  lemma PlaceCheckedThird(reg: PlaceRegistry, raw: string, currentYear: nat)
    requires MatchesPattern(Canonical(raw))
    requires EstraiDataNascita(Normalized(Canonical(raw)), currentYear).Decoded?
    ensures var cf := Canonical(raw);
            var codice := Normalized(cf)[11..15];
            var o := ValidaFormato(reg, Some(raw), currentYear);
            (IsCodiceBelfioreValido(reg, codice) == Answer(false) ==>
               o == Returned(Risultato(false, MSG_COMUNE + codice, ComuneNonValido, IsHomocode(cf)))) &&
            (IsCodiceBelfioreValido(reg, codice).Failed? ==>
               o == Returned(Risultato(false, MSG_DATABASE + IsCodiceBelfioreValido(reg, codice).message,
                                       ErroreDatabase, IsHomocode(cf))))
  {
    ValidaFormatoOnMatch(reg, raw, currentYear);
  }

  /** 4. Past the other three checks, the code is valid exactly when its last character is the check character. */
  lemma ChecksumCheckedLast(reg: PlaceRegistry, raw: string, currentYear: nat)
    requires MatchesPattern(Canonical(raw))
    requires EstraiDataNascita(Normalized(Canonical(raw)), currentYear).Decoded?
    requires IsCodiceBelfioreValido(reg, Normalized(Canonical(raw))[11..15]) == Answer(true)
    ensures var cf := Canonical(raw);
            var n := Normalized(cf);
            ValidaFormato(reg, Some(raw), currentYear) ==
              if CheckChar(n[..15]) == Some(n[15]) then
                Returned(Risultato(true, if IsHomocode(cf) then MSG_OMOCODICO_VALIDO else MSG_VALIDO, NessunErrore, IsHomocode(cf)))
              else
                Returned(Risultato(false, MSG_CONTROLLO, CarattereControlloErrato, IsHomocode(cf)))
  {
    ValidaFormatoOnMatch(reg, raw, currentYear);
    MatchedCheckChar(Canonical(raw));
  }

  /** A valid result means: the format matches, the date exists, the place code exists and the check character is right. */
  lemma ValidaFormatoValidIff(reg: PlaceRegistry, raw: string, currentYear: nat)
    ensures var o := ValidaFormato(reg, Some(raw), currentYear);
            var n := Normalized(Canonical(raw));
            (o.Returned? && o.risultato.valido) <==>
              (MatchesPattern(Canonical(raw)) &&
               EstraiDataNascita(n, currentYear).Decoded? &&
               IsCodiceBelfioreValido(reg, n[11..15]) == Answer(true) &&
               CheckChar(n[..15]) == Some(n[15]))
    ensures var o := ValidaFormato(reg, Some(raw), currentYear);
            o.Returned? ==> o.risultato.omocodico == (MatchesPattern(Canonical(raw)) && IsHomocode(Canonical(raw)))
  {
    if MatchesPattern(Canonical(raw)) {
      ValidaFormatoOnMatch(reg, raw, currentYear);
      MatchedCheckChar(Canonical(raw));
      ControlliResults(reg, Normalized(Canonical(raw)), IsHomocode(Canonical(raw)), currentYear);
    }
  }

  /**
   * Every result of validaFormato is valid exactly when its error kind is
   * NESSUN_ERRORE; it is never DATA_NON_VALIDA nor DATI_ANAGRAFICI_NON_CORRISPONDENTI,
   * so isFormaleValido is the same as valid; the only exception is DateTimeException.
   */
  lemma ValidaFormatoResults(reg: PlaceRegistry, codiceFiscale: Option<string>, currentYear: nat)
    ensures var o := ValidaFormato(reg, codiceFiscale, currentYear);
            (o.Returned? ==>
               (o.risultato.valido <==> o.risultato.tipoErrore == NessunErrore) &&
               o.risultato.tipoErrore != DataNonValida &&
               o.risultato.tipoErrore != DatiAnagraficiNonCorrispondenti &&
               o.risultato.IsFormaleValido() == o.risultato.valido) &&
            (o.Thrown? ==> o.exception == DateTime)
  {
    if codiceFiscale.Some? && MatchesPattern(Canonical(codiceFiscale.value)) {
      var raw := codiceFiscale.value;
      ValidaFormatoOnMatch(reg, raw, currentYear);
      MatchedCheckChar(Canonical(raw));
      MatchedDateOutcome(Canonical(raw), currentYear);
      ControlliResults(reg, Normalized(Canonical(raw)), IsHomocode(Canonical(raw)), currentYear);
    }
  }

  /** validaFormato looks at its argument only through its upper-cased, trimmed form. */
  lemma ValidaFormatoIgnoresCaseAndBlanks(reg: PlaceRegistry, a: string, b: string, currentYear: nat)
    requires Canonical(a) == Canonical(b)
    ensures ValidaFormato(reg, Some(a), currentYear) == ValidaFormato(reg, Some(b), currentYear)
  {
  }

  // ---------------------------------------------------------------------------
  // valida

  /** valida passes on unchanged every exception and every invalid result of validaFormato. */
  lemma ValidaGate(reg: PlaceRegistry, codiceFiscale: Option<string>, nome: string, cognome: string,
                   dataNascita: LocalDate, sesso: char, luogoNascita: string, siglaProvincia: string,
                   currentYear: nat)
    ensures var f := ValidaFormato(reg, codiceFiscale, currentYear);
            (f.Thrown? || !f.risultato.valido) ==>
              Valida(reg, codiceFiscale, nome, cognome, dataNascita, sesso, luogoNascita, siglaProvincia, currentYear) == f
  {
    ValidaFormatoResults(reg, codiceFiscale, currentYear);
  }

  /**
   * valida succeeds exactly when validaFormato does and the argument as
   * given, normalised, equals the code generated from the personal data; a
   * generated code that differs, or none at all, is DATI_ANAGRAFICI_NON_CORRISPONDENTI.
   */
  lemma ValidaValidIff(reg: PlaceRegistry, raw: string, nome: string, cognome: string,
                       dataNascita: LocalDate, sesso: char, luogoNascita: string, siglaProvincia: string,
                       currentYear: nat)
    ensures var v := Valida(reg, Some(raw), nome, cognome, dataNascita, sesso, luogoNascita, siglaProvincia, currentYear);
            var f := ValidaFormato(reg, Some(raw), currentYear);
            var g := GeneraCodiceFiscale(reg, nome, cognome, dataNascita, sesso, luogoNascita, siglaProvincia);
            ((v.Returned? && v.risultato.valido) <==> (f.Returned? && f.risultato.valido && g == Some(Normalized(raw)))) &&
            (f.Returned? && f.risultato.valido && g != Some(Normalized(raw)) ==>
               v.Returned? && v.risultato.tipoErrore == DatiAnagraficiNonCorrispondenti &&
               v.risultato.messaggio == if g.None? then MSG_NON_GENERABILE else MSG_NON_CORRISPONDE) &&
            (v.Returned? && v.risultato.valido ==> v.risultato.omocodico == IsHomocode(raw))
  {
    ValidaFormatoResults(reg, Some(raw), currentYear);
    HomocodeIffNormalizationChanges(raw);
  }

  /**
   * Because valida compares the argument as given, and not its upper-cased,
   * trimmed form, only an argument that already is in that form can pass:
   * a lower-case letter or a surrounding blank fails against the personal data.
   */
  lemma ValidaNeedsCanonicalInput(reg: PlaceRegistry, raw: string, nome: string, cognome: string,
                                  dataNascita: LocalDate, sesso: char, luogoNascita: string, siglaProvincia: string,
                                  currentYear: nat)
    requires var v := Valida(reg, Some(raw), nome, cognome, dataNascita, sesso, luogoNascita, siglaProvincia, currentYear);
             v.Returned? && v.risultato.valido
    ensures Canonical(raw) == raw && MatchesPattern(raw)
  {
    ValidaValidIff(reg, raw, nome, cognome, dataNascita, sesso, luogoNascita, siglaProvincia, currentYear);
    GeneraCodiceFiscaleIs(reg, nome, cognome, dataNascita, sesso, luogoNascita, siglaProvincia);
    var g := Normalized(raw);
    var u := g[..|g| - 1];
    assert g == u + [g[|g| - 1]];
    CheckCharIsLetter(u);
    forall i | 0 <= i < |raw| ensures IsCanonical(raw[i]) {
      NormalizedChangesOnlyHomographLetters(raw, i);
      ConversionTable();
      if i < |u| {
        assert g[i] == u[i];
      }
    }
    CanonicalUnchanged(raw);
  }

  /**
   * The exact answer of valida for an argument that passes validaFormato but
   * is not already upper-cased and trimmed: it fails against the personal
   * data, whatever they are.
   */
  lemma ValidaRejectsNonCanonical(reg: PlaceRegistry, raw: string, nome: string, cognome: string,
                                  dataNascita: LocalDate, sesso: char, luogoNascita: string, siglaProvincia: string,
                                  currentYear: nat)
    requires var f := ValidaFormato(reg, Some(raw), currentYear); f.Returned? && f.risultato.valido
    requires Canonical(raw) != raw
    ensures var g := GeneraCodiceFiscale(reg, nome, cognome, dataNascita, sesso, luogoNascita, siglaProvincia);
            Valida(reg, Some(raw), nome, cognome, dataNascita, sesso, luogoNascita, siglaProvincia, currentYear) ==
              Returned(Risultato(false, if g.None? then MSG_NON_GENERABILE else MSG_NON_CORRISPONDE,
                                 DatiAnagraficiNonCorrispondenti, IsHomocode(raw)))
  {
    ValidaFormatoResults(reg, Some(raw), currentYear);
    if Valida(reg, Some(raw), nome, cognome, dataNascita, sesso, luogoNascita, siglaProvincia, currentYear).risultato.valido {
      ValidaNeedsCanonicalInput(reg, raw, nome, cognome, dataNascita, sesso, luogoNascita, siglaProvincia, currentYear);
    }
    HomocodeIffNormalizationChanges(raw);
  }

  // ---------------------------------------------------------------------------
  // generaCodiceFiscale

  /** The fields of a code in their order: surname, name, year, month, day, place. */
  function Assemble(codiceCognome: string, codiceNome: string, anno: string, mese: char, giorno: string, p: string): string
  {
    codiceCognome + codiceNome + anno + [mese] + giorno + p
  }

  /** The 15 characters generaCodiceFiscale puts before the check character, for the place code p. */
  function Unchecked(nome: string, cognome: string, dataNascita: LocalDate, sesso: char, p: string): string
  {
    Assemble(NameCode(cognome, false), NameCode(nome, true), Format02(JavaRem(dataNascita.year, 100)),
             MESI[dataNascita.month - 1], Format02(if sesso == 'F' then dataNascita.day + 40 else dataNascita.day), p)
  }

  /** generaCodiceFiscale appends the check character of those 15 characters to them, or returns null. */
  lemma GeneraCodiceFiscaleIs(reg: PlaceRegistry, nome: string, cognome: string, dataNascita: LocalDate,
                              sesso: char, luogoNascita: string, siglaProvincia: string)
    ensures var lookup := GetCodiceBelfiore(reg, siglaProvincia, luogoNascita);
            GeneraCodiceFiscale(reg, nome, cognome, dataNascita, sesso, luogoNascita, siglaProvincia) ==
              if lookup.Answer? && lookup.value.Some? &&
                 CheckChar(Unchecked(nome, cognome, dataNascita, sesso, lookup.value.value)).Some?
              then
                var u := Unchecked(nome, cognome, dataNascita, sesso, lookup.value.value);
                Some(u + [CheckChar(u).value])
              else None
  {
    NameCodeIgnoresCase(cognome, false);
    NameCodeIgnoresCase(nome, true);
  }

  /** A character without a check value anywhere in the input leaves the check character undefined. */
  lemma UncheckableAt(s: string, i: int)
    requires 0 <= i < |s| && !IsCanonical(s[i])
    ensures CheckChar(s).None?
  {
    CheckCharIsLetter(s);
  }

  /** Offset 6 of an assembled code is the first character of the year. */
  lemma AssembledAt6(codiceCognome: string, codiceNome: string, anno: string, mese: char, giorno: string, p: string)
    requires |codiceCognome| == 3 && |codiceNome| == 3 && |anno| > 0
    ensures |Assemble(codiceCognome, codiceNome, anno, mese, giorno, p)| > 6
    ensures Assemble(codiceCognome, codiceNome, anno, mese, giorno, p)[6] == anno[0]
  {
  }

  /** A negative int has '%02d' starting with its minus sign. */
  lemma Format02Negative(n: int)
    requires n < 0
    ensures |Format02(n)| > 0 && Format02(n)[0] == '-'
  {
  }

  /** Java's remainder by 100 of a negative int that is not a multiple of 100 is negative. */
  lemma JavaRemNegative(a: int)
    requires a < 0 && a % 100 != 0
    ensures JavaRem(a, 100) < 0
  {
  }

  /** A year before 0 that is not a multiple of 100 puts a minus sign at offset 6, which has no check value. */
  lemma NegativeYearUnchecked(nome: string, cognome: string, dataNascita: LocalDate, sesso: char, p: string)
    requires dataNascita.year < 0 && dataNascita.year % 100 != 0
    ensures CheckChar(Unchecked(nome, cognome, dataNascita, sesso, p)).None?
  {
    NameCodeIsThreeLetters(cognome, false);
    NameCodeIsThreeLetters(nome, true);
    JavaRemNegative(dataNascita.year);
    Format02Negative(JavaRem(dataNascita.year, 100));
    AssembledAt6(NameCode(cognome, false), NameCode(nome, true), Format02(JavaRem(dataNascita.year, 100)),
                 MESI[dataNascita.month - 1], Format02(if sesso == 'F' then dataNascita.day + 40 else dataNascita.day), p);
    UncheckableAt(Unchecked(nome, cognome, dataNascita, sesso, p), 6);
  }

  /**
   * No code without a place code from the store: a miss or a failure of the
   * store gives null, and so does a year before 0 that is not a multiple of
   * 100, whose '%02d' carries a minus sign.
   */
  lemma GenerationFails(reg: PlaceRegistry, nome: string, cognome: string, dataNascita: LocalDate,
                        sesso: char, luogoNascita: string, siglaProvincia: string)
    ensures var lookup := GetCodiceBelfiore(reg, siglaProvincia, luogoNascita);
            GeneraCodiceFiscale(reg, nome, cognome, dataNascita, sesso, luogoNascita, siglaProvincia).Some? ==>
              lookup.Answer? && lookup.value.Some?
    ensures dataNascita.year < 0 && dataNascita.year % 100 != 0 ==>
            GeneraCodiceFiscale(reg, nome, cognome, dataNascita, sesso, luogoNascita, siglaProvincia).None?
  {
    GeneraCodiceFiscaleIs(reg, nome, cognome, dataNascita, sesso, luogoNascita, siglaProvincia);
    var lookup := GetCodiceBelfiore(reg, siglaProvincia, luogoNascita);
    if lookup.Answer? && lookup.value.Some? && dataNascita.year < 0 && dataNascita.year % 100 != 0 {
      NegativeYearUnchecked(nome, cognome, dataNascita, sesso, lookup.value.value);
    }
  }

  /** Where each field sits in an assembled code of the usual field widths. */
  lemma AssembledLayout(codiceCognome: string, codiceNome: string, anno: string, mese: char, giorno: string, p: string)
    requires |codiceCognome| == 3 && |codiceNome| == 3 && |anno| == 2 && |giorno| == 2 && |p| == 4
    ensures var u := Assemble(codiceCognome, codiceNome, anno, mese, giorno, p);
            |u| == 15 && u[..3] == codiceCognome && u[3..6] == codiceNome && u[6..8] == anno &&
            u[8] == mese && u[9..11] == giorno && u[11..15] == p
  {
  }

  /** An assembled code of letters, digits and a place code has digits exactly at the format's numeric slots. */
  lemma AssembledShape(codiceCognome: string, codiceNome: string, anno: string, mese: char, giorno: string, p: string)
    requires |codiceCognome| == 3 && |codiceNome| == 3 && |anno| == 2 && |giorno| == 2 && IsPlaceCode(p)
    requires forall i :: 0 <= i < 3 ==> IsUpper(codiceCognome[i]) && IsUpper(codiceNome[i])
    requires IsDigit(anno[0]) && IsDigit(anno[1]) && IsUpper(mese) && IsDigit(giorno[0]) && IsDigit(giorno[1])
    ensures var u := Assemble(codiceCognome, codiceNome, anno, mese, giorno, p);
            |u| == 15 && forall i :: 0 <= i < 15 ==> if IsRegexDigitSlot(i) then IsDigit(u[i]) else IsUpper(u[i])
  {
    var u := Assemble(codiceCognome, codiceNome, anno, mese, giorno, p);
    forall i | 0 <= i < 15
      ensures if IsRegexDigitSlot(i) then IsDigit(u[i]) else IsUpper(u[i])
    {
      if i < 3 {
        assert u[i] == codiceCognome[i];
      } else if i < 6 {
        assert u[i] == codiceNome[i - 3];
      } else if i < 8 {
        assert u[i] == anno[i - 6];
      } else if 9 <= i < 11 {
        assert u[i] == giorno[i - 9];
      } else if i >= 11 {
        assert u[i] == p[i - 11];
      }
    }
  }

  /** Every month letter is a capital letter. */
  lemma MonthLetterUpper(k: int)
    requires 0 <= k < 12
    ensures IsUpper(MESI[k])
  {
  }

  /**
   * For a year from 0 on and a place code of a letter and three digits, the
   * 15 characters have digits exactly at the numeric-bearing slots of the
   * format and capital letters elsewhere.
   */
  lemma UncheckedShape(nome: string, cognome: string, dataNascita: LocalDate, sesso: char, p: string)
    requires IsPlaceCode(p) && JavaRem(dataNascita.year, 100) >= 0
    ensures var u := Unchecked(nome, cognome, dataNascita, sesso, p);
            |u| == 15 &&
            u[..3] == NameCode(cognome, false) && u[3..6] == NameCode(nome, true) &&
            u[6..8] == Format02(dataNascita.year % 100) && u[8] == MESI[dataNascita.month - 1] &&
            u[9..11] == Format02(if sesso == 'F' then dataNascita.day + 40 else dataNascita.day) &&
            u[11..15] == p &&
            forall i :: 0 <= i < 15 ==> if IsRegexDigitSlot(i) then IsDigit(u[i]) else IsUpper(u[i])
  {
    var cc, cn := NameCode(cognome, false), NameCode(nome, true);
    NameCodeIsThreeLetters(cognome, false);
    NameCodeIsThreeLetters(nome, true);
    JavaRemOfYear(dataNascita.year);
    var anno := Format02(JavaRem(dataNascita.year, 100));
    Format02RoundTrip(JavaRem(dataNascita.year, 100));
    var giorno := Format02(if sesso == 'F' then dataNascita.day + 40 else dataNascita.day);
    Format02RoundTrip(if sesso == 'F' then dataNascita.day + 40 else dataNascita.day);
    var mese := MESI[dataNascita.month - 1];
    MonthLetterUpper(dataNascita.month - 1);
    AssembledLayout(cc, cn, anno, mese, giorno, p);
    AssembledShape(cc, cn, anno, mese, giorno, p);
  }

  /**
   * A 16-character code with digits at every numeric slot and capital letters
   * elsewhere matches the format, is not a homograph code, and is its own
   * normal form and its own upper-cased, trimmed form.
   */
  lemma StandardCode(t: string)
    requires |t| == 16
    requires forall i :: 0 <= i < 16 ==> if IsRegexDigitSlot(i) then IsDigit(t[i]) else IsUpper(t[i])
    ensures MatchesPattern(t) && !IsHomocode(t) && Normalized(t) == t && Canonical(t) == t
  {
    forall i | 0 <= i < 16 ensures SlotAccepts(i, t[i]) && IsCanonical(t[i]) {
    }
    forall k | 0 <= k < 7 ensures !IsHomographLetter(t[POSIZIONI_NUMERICHE[k]]) {
      PositionsInRange();
      SlotsAgree(POSIZIONI_NUMERICHE[k]);
    }
    HomocodeIffNormalizationChanges(t);
    CanonicalUnchanged(t);
  }

  /**
   * For a place code found in the store and a year from 0 on, generation
   * succeeds: the code is the 15 characters of UncheckedShape followed by
   * their check character, and it is a standard code that matches the format.
   */
  lemma GeneratedCodeShape(reg: PlaceRegistry, nome: string, cognome: string, dataNascita: LocalDate,
                           sesso: char, luogoNascita: string, siglaProvincia: string, p: string)
    requires GetCodiceBelfiore(reg, siglaProvincia, luogoNascita) == Answer(Some(p))
    requires IsPlaceCode(p) && JavaRem(dataNascita.year, 100) >= 0
    ensures GeneraCodiceFiscale(reg, nome, cognome, dataNascita, sesso, luogoNascita, siglaProvincia).Some?
    ensures var g := GeneraCodiceFiscale(reg, nome, cognome, dataNascita, sesso, luogoNascita, siglaProvincia).value;
            |g| == 16 && g[..15] == Unchecked(nome, cognome, dataNascita, sesso, p) &&
            CheckChar(g[..15]) == Some(g[15]) &&
            MatchesPattern(g) && !IsHomocode(g) && Normalized(g) == g && Canonical(g) == g
  {
    GeneraCodiceFiscaleIs(reg, nome, cognome, dataNascita, sesso, luogoNascita, siglaProvincia);
    var u := Unchecked(nome, cognome, dataNascita, sesso, p);
    UncheckedShape(nome, cognome, dataNascita, sesso, p);
    CheckCharIsLetter(u);
    var g := u + [CheckChar(u).value];
    assert g[..15] == u;
    StandardCode(g);
  }

  /** The date fields of a code are those of its first 15 characters. */
  lemma DateSlicesOfPrefix(g: string, u: string)
    requires |g| == 16 && g[..15] == u
    ensures g[6..8] == u[6..8] && g[8] == u[8] && g[9..11] == u[9..11]
  {
    assert g[6..8] == g[..15][6..8] && g[9..11] == g[..15][9..11];
  }

  /** A code whose date fields are '%02d' of a year and a day and a month letter decodes to those fields. */
  lemma DateFieldsDecode(t: string, anno: int, mese: int, giorno: int, currentYear: nat)
    requires |t| >= 11 && 0 <= anno < 100 && 1 <= mese <= 12 && 1 <= giorno <= 71 && giorno != 40
    requires t[6..8] == Format02(anno) && t[8] == MESI[mese - 1] && t[9..11] == Format02(giorno)
    ensures var data := Date(FullYear(currentYear, anno), mese, if giorno > 40 then giorno - 40 else giorno);
            EstraiDataNascita(t, currentYear) == if IsValidDate(data) then Decoded(data) else DecodeThrows(DateTime)
  {
    Format02RoundTrip(anno);
    Format02RoundTrip(giorno);
    assert t[6] == Format02(anno)[0] && t[7] == Format02(anno)[1];
    assert t[9] == Format02(giorno)[0] && t[10] == Format02(giorno)[1];
    MonthLetters(t[8]);
    DecodedFields(t, currentYear);
  }

  /** The date decoded from a code carrying the date fields of dataNascita. */
  lemma DateOfFields(g: string, dataNascita: LocalDate, sesso: char, currentYear: nat)
    requires |g| == 16 && JavaRem(dataNascita.year, 100) >= 0
    requires g[6..8] == Format02(dataNascita.year % 100) && g[8] == MESI[dataNascita.month - 1]
    requires g[9..11] == Format02(if sesso == 'F' then dataNascita.day + 40 else dataNascita.day)
    ensures var back := Date(FullYear(currentYear, dataNascita.year % 100), dataNascita.month, dataNascita.day);
            EstraiDataNascita(g, currentYear) == if IsValidDate(back) then Decoded(back) else DecodeThrows(DateTime)
    ensures currentYear / 100 - 1 == dataNascita.year / 100 ==> EstraiDataNascita(g, currentYear) == Decoded(dataNascita)
  {
    DaysInMonthBound(dataNascita.year, dataNascita.month);
    DateFieldsDecode(g, dataNascita.year % 100, dataNascita.month,
                     if sesso == 'F' then dataNascita.day + 40 else dataNascita.day, currentYear);
    FullYearInPreviousCentury(currentYear, dataNascita.year % 100);
    if currentYear / 100 - 1 == dataNascita.year / 100 {
      assert FullYear(currentYear, dataNascita.year % 100) == dataNascita.year;
    }
  }

  /**
   * Decoding a generated code gives back its month and day, and its year
   * modulo 100 placed in the century before the current one; so the birth
   * date itself comes back only when it lies in that century.
   */
  lemma GeneratedDateRoundTrip(reg: PlaceRegistry, nome: string, cognome: string, dataNascita: LocalDate,
                               sesso: char, luogoNascita: string, siglaProvincia: string, p: string,
                               currentYear: nat)
    requires GetCodiceBelfiore(reg, siglaProvincia, luogoNascita) == Answer(Some(p))
    requires IsPlaceCode(p) && JavaRem(dataNascita.year, 100) >= 0
    ensures GeneraCodiceFiscale(reg, nome, cognome, dataNascita, sesso, luogoNascita, siglaProvincia).Some?
    ensures var g := GeneraCodiceFiscale(reg, nome, cognome, dataNascita, sesso, luogoNascita, siglaProvincia).value;
            var back := Date(FullYear(currentYear, dataNascita.year % 100), dataNascita.month, dataNascita.day);
            EstraiDataNascita(g, currentYear) == if IsValidDate(back) then Decoded(back) else DecodeThrows(DateTime)
    ensures var g := GeneraCodiceFiscale(reg, nome, cognome, dataNascita, sesso, luogoNascita, siglaProvincia).value;
            currentYear / 100 - 1 == dataNascita.year / 100 ==> EstraiDataNascita(g, currentYear) == Decoded(dataNascita)
  {
    GeneratedCodeShape(reg, nome, cognome, dataNascita, sesso, luogoNascita, siglaProvincia, p);
    UncheckedShape(nome, cognome, dataNascita, sesso, p);
    var g := GeneraCodiceFiscale(reg, nome, cognome, dataNascita, sesso, luogoNascita, siglaProvincia).value;
    DateSlicesOfPrefix(g, Unchecked(nome, cognome, dataNascita, sesso, p));
    DateOfFields(g, dataNascita, sesso, currentYear);
  }

  /** The place field of a code is that of its first 15 characters. */
  lemma PlaceSliceOfPrefix(g: string, u: string)
    requires |g| == 16 && g[..15] == u
    ensures g[11..15] == u[11..15]
  {
    assert g[11..15] == g[..15][11..15];
  }

  /**
   * What validaFormato answers on a generated code or any homograph variant
   * of it (a code that normalises to it), when the store knows the place
   * code: the error of the date decoding, or else valid.
   */
  lemma ValidaFormatoOnVariant(reg: PlaceRegistry, nome: string, cognome: string, dataNascita: LocalDate,
                               sesso: char, luogoNascita: string, siglaProvincia: string, p: string,
                               raw: string, currentYear: nat)
    requires GetCodiceBelfiore(reg, siglaProvincia, luogoNascita) == Answer(Some(p))
    requires IsPlaceCode(p) && JavaRem(dataNascita.year, 100) >= 0
    requires IsCodiceBelfioreValido(reg, p) == Answer(true)
    requires GeneraCodiceFiscale(reg, nome, cognome, dataNascita, sesso, luogoNascita, siglaProvincia) == Some(Normalized(raw))
    requires MatchesPattern(raw)
    ensures Canonical(raw) == raw
    ensures var back := Date(FullYear(currentYear, dataNascita.year % 100), dataNascita.month, dataNascita.day);
            ValidaFormato(reg, Some(raw), currentYear) ==
              if IsValidDate(back) then
                Returned(Risultato(true, if IsHomocode(raw) then MSG_OMOCODICO_VALIDO else MSG_VALIDO, NessunErrore, IsHomocode(raw)))
              else Thrown(DateTime)
  {
    forall i | 0 <= i < 16 ensures IsCanonical(raw[i]) {
      ConversionTable();
      assert CLASSE_OMOCODICA == LETTERE_OMOCODICHE;
      assert SlotAccepts(i, raw[i]);
    }
    CanonicalUnchanged(raw);
    GeneratedCodeShape(reg, nome, cognome, dataNascita, sesso, luogoNascita, siglaProvincia, p);
    UncheckedShape(nome, cognome, dataNascita, sesso, p);
    GeneratedDateRoundTrip(reg, nome, cognome, dataNascita, sesso, luogoNascita, siglaProvincia, p, currentYear);
    var g := Normalized(raw);
    PlaceSliceOfPrefix(g, Unchecked(nome, cognome, dataNascita, sesso, p));
    ValidaFormatoOnMatch(reg, raw, currentYear);
  }

  /**
   * Replacing the digit at one numeric-bearing offset of a standard code by
   * the letter standing for it gives a homograph code that matches the format
   * and normalises back to the standard code.
   */
  lemma SubstitutedDigit(t: string, k: int)
    requires |t| == 16
    requires forall i :: 0 <= i < 16 ==> if IsRegexDigitSlot(i) then IsDigit(t[i]) else IsUpper(t[i])
    requires 0 <= k < 16 && IsRegexDigitSlot(k)
    ensures var r := t[k := LETTERE_OMOCODICHE[DigitValue(t[k])]];
            MatchesPattern(r) && IsHomocode(r) && Normalized(r) == t
  {
    SlotsAgree(k);
    StandardCode(t);
    ConversionTable();
    assert CLASSE_OMOCODICA == LETTERE_OMOCODICHE;
    var d := DigitValue(t[k]);
    var r := t[k := LETTERE_OMOCODICHE[d]];
    assert DigitChar(d) == t[k];
    forall i | 0 <= i < 16 ensures SlotAccepts(i, r[i]) && Normalized(r)[i] == t[i] {
      SlotsAgree(i);
      NormalizedChangesOnlyHomographLetters(t, i);
    }
    var j :| 0 <= j < |POSIZIONI_NUMERICHE| && POSIZIONI_NUMERICHE[j] == k;
    assert IsHomographLetter(r[POSIZIONI_NUMERICHE[j]]);
  }

  /**
   * Round trip: a code generated from personal data whose place code the
   * store knows passes validaFormato and valida with the same data, as long
   * as the date decoded from it exists.
   */
  lemma GenerateThenValida(reg: PlaceRegistry, nome: string, cognome: string, dataNascita: LocalDate,
                           sesso: char, luogoNascita: string, siglaProvincia: string, p: string,
                           currentYear: nat)
    requires GetCodiceBelfiore(reg, siglaProvincia, luogoNascita) == Answer(Some(p))
    requires IsPlaceCode(p) && JavaRem(dataNascita.year, 100) >= 0
    requires IsCodiceBelfioreValido(reg, p) == Answer(true)
    requires IsValidDate(Date(FullYear(currentYear, dataNascita.year % 100), dataNascita.month, dataNascita.day))
    ensures var g := GeneraCodiceFiscale(reg, nome, cognome, dataNascita, sesso, luogoNascita, siglaProvincia);
            g.Some? &&
            ValidaFormato(reg, g, currentYear) == Returned(Risultato(true, MSG_VALIDO, NessunErrore, false)) &&
            Valida(reg, g, nome, cognome, dataNascita, sesso, luogoNascita, siglaProvincia, currentYear) ==
              Returned(Risultato(true, MSG_VALIDO, NessunErrore, false))
  {
    GeneratedCodeShape(reg, nome, cognome, dataNascita, sesso, luogoNascita, siglaProvincia, p);
    var g := GeneraCodiceFiscale(reg, nome, cognome, dataNascita, sesso, luogoNascita, siglaProvincia).value;
    ValidaFormatoOnVariant(reg, nome, cognome, dataNascita, sesso, luogoNascita, siglaProvincia, p, g, currentYear);
  }

  /**
   * A homograph variant of a generated code (digits at numeric offsets
   * replaced by their letters) passes valida with the same personal data,
   * and the result says it is a homograph code.
   */
  lemma HomographVariantThenValida(reg: PlaceRegistry, nome: string, cognome: string, dataNascita: LocalDate,
                                   sesso: char, luogoNascita: string, siglaProvincia: string, p: string,
                                   raw: string, currentYear: nat)
    requires GetCodiceBelfiore(reg, siglaProvincia, luogoNascita) == Answer(Some(p))
    requires IsPlaceCode(p) && JavaRem(dataNascita.year, 100) >= 0
    requires IsCodiceBelfioreValido(reg, p) == Answer(true)
    requires IsValidDate(Date(FullYear(currentYear, dataNascita.year % 100), dataNascita.month, dataNascita.day))
    requires GeneraCodiceFiscale(reg, nome, cognome, dataNascita, sesso, luogoNascita, siglaProvincia) == Some(Normalized(raw))
    requires MatchesPattern(raw) && IsHomocode(raw)
    ensures Valida(reg, Some(raw), nome, cognome, dataNascita, sesso, luogoNascita, siglaProvincia, currentYear) ==
            Returned(Risultato(true, MSG_OMOCODICO_VALIDO, NessunErrore, true))
  {
    ValidaFormatoOnVariant(reg, nome, cognome, dataNascita, sesso, luogoNascita, siglaProvincia, p, raw, currentYear);
  }

  /**
   * Replacing any one digit of a generated code at a numeric offset by its
   * homograph letter gives a code that valida accepts as a homograph code.
   */
  lemma GeneratedHomographThenValida(reg: PlaceRegistry, nome: string, cognome: string, dataNascita: LocalDate,
                                     sesso: char, luogoNascita: string, siglaProvincia: string, p: string,
                                     k: int, currentYear: nat)
    requires GetCodiceBelfiore(reg, siglaProvincia, luogoNascita) == Answer(Some(p))
    requires IsPlaceCode(p) && JavaRem(dataNascita.year, 100) >= 0
    requires IsCodiceBelfioreValido(reg, p) == Answer(true)
    requires IsValidDate(Date(FullYear(currentYear, dataNascita.year % 100), dataNascita.month, dataNascita.day))
    requires 0 <= k < 16 && IsRegexDigitSlot(k)
    ensures GeneraCodiceFiscale(reg, nome, cognome, dataNascita, sesso, luogoNascita, siglaProvincia).Some?
    ensures var g := GeneraCodiceFiscale(reg, nome, cognome, dataNascita, sesso, luogoNascita, siglaProvincia).value;
            |g| == 16 && IsDigit(g[k]) &&
            Valida(reg, Some(g[k := LETTERE_OMOCODICHE[DigitValue(g[k])]]), nome, cognome, dataNascita, sesso,
                   luogoNascita, siglaProvincia, currentYear) ==
              Returned(Risultato(true, MSG_OMOCODICO_VALIDO, NessunErrore, true))
  {
    GeneratedCodeShape(reg, nome, cognome, dataNascita, sesso, luogoNascita, siglaProvincia, p);
    var g := GeneraCodiceFiscale(reg, nome, cognome, dataNascita, sesso, luogoNascita, siglaProvincia).value;
    var u := Unchecked(nome, cognome, dataNascita, sesso, p);
    UncheckedShape(nome, cognome, dataNascita, sesso, p);
    forall i | 0 <= i < 16 ensures if IsRegexDigitSlot(i) then IsDigit(g[i]) else IsUpper(g[i]) {
      if i < 15 {
        assert g[i] == g[..15][i];
      } else {
        assert SlotAccepts(15, g[15]);
      }
    }
    SubstitutedDigit(g, k);
    var r := g[k := LETTERE_OMOCODICHE[DigitValue(g[k])]];
    HomographVariantThenValida(reg, nome, cognome, dataNascita, sesso, luogoNascita, siglaProvincia, p, r, currentYear);
  }

  /**
   * The other direction of the round trip: when the date decoded from a
   * generated code does not exist, validaFormato and valida throw
   * DateTimeException for it.
   */
  lemma GenerateThenThrow(reg: PlaceRegistry, nome: string, cognome: string, dataNascita: LocalDate,
                          sesso: char, luogoNascita: string, siglaProvincia: string, p: string,
                          currentYear: nat)
    requires GetCodiceBelfiore(reg, siglaProvincia, luogoNascita) == Answer(Some(p))
    requires IsPlaceCode(p) && JavaRem(dataNascita.year, 100) >= 0
    requires IsCodiceBelfioreValido(reg, p) == Answer(true)
    requires !IsValidDate(Date(FullYear(currentYear, dataNascita.year % 100), dataNascita.month, dataNascita.day))
    ensures var g := GeneraCodiceFiscale(reg, nome, cognome, dataNascita, sesso, luogoNascita, siglaProvincia);
            g.Some? &&
            ValidaFormato(reg, g, currentYear) == Thrown(DateTime) &&
            Valida(reg, g, nome, cognome, dataNascita, sesso, luogoNascita, siglaProvincia, currentYear) == Thrown(DateTime)
  {
    GeneratedCodeShape(reg, nome, cognome, dataNascita, sesso, luogoNascita, siglaProvincia, p);
    var g := GeneraCodiceFiscale(reg, nome, cognome, dataNascita, sesso, luogoNascita, siglaProvincia).value;
    ValidaFormatoOnVariant(reg, nome, cognome, dataNascita, sesso, luogoNascita, siglaProvincia, p, g, currentYear);
  }

  /**
   * A generated code whose check character is replaced by another capital
   * letter fails validaFormato and valida with CARATTERE_CONTROLLO_ERRATO,
   * when everything before it passes.
   */
  lemma WrongCheckCharacter(reg: PlaceRegistry, nome: string, cognome: string, dataNascita: LocalDate,
                            sesso: char, luogoNascita: string, siglaProvincia: string, p: string,
                            c: char, currentYear: nat)
    requires GetCodiceBelfiore(reg, siglaProvincia, luogoNascita) == Answer(Some(p))
    requires IsPlaceCode(p) && JavaRem(dataNascita.year, 100) >= 0
    requires IsCodiceBelfioreValido(reg, p) == Answer(true)
    requires IsValidDate(Date(FullYear(currentYear, dataNascita.year % 100), dataNascita.month, dataNascita.day))
    requires IsUpper(c)
    requires CheckChar(Unchecked(nome, cognome, dataNascita, sesso, p)) != Some(c)
    ensures var t := Unchecked(nome, cognome, dataNascita, sesso, p) + [c];
            ValidaFormato(reg, Some(t), currentYear) == Returned(Risultato(false, MSG_CONTROLLO, CarattereControlloErrato, false)) &&
            Valida(reg, Some(t), nome, cognome, dataNascita, sesso, luogoNascita, siglaProvincia, currentYear) ==
              Returned(Risultato(false, MSG_CONTROLLO, CarattereControlloErrato, false))
  {
    GeneratedCodeShape(reg, nome, cognome, dataNascita, sesso, luogoNascita, siglaProvincia, p);
    var u := Unchecked(nome, cognome, dataNascita, sesso, p);
    UncheckedShape(nome, cognome, dataNascita, sesso, p);
    var t := u + [c];
    assert t[..15] == u;
    StandardCode(t);
    DateSlicesOfPrefix(t, u);
    DateOfFields(t, dataNascita, sesso, currentYear);
    PlaceSliceOfPrefix(t, u);
    ValidaFormatoOnMatch(reg, t, currentYear);
    ValidaGate(reg, Some(t), nome, cognome, dataNascita, sesso, luogoNascita, siglaProvincia, currentYear);
  }

  /**
   * A code carrying a place code the store does not know fails validaFormato
   * and valida with COMUNE_NON_VALIDO, naming that code, whatever its check
   * character.
   */
  lemma UnknownPlaceCode(reg: PlaceRegistry, nome: string, cognome: string, dataNascita: LocalDate,
                         sesso: char, q: string, c: char, luogoNascita: string, siglaProvincia: string,
                         currentYear: nat)
    requires IsPlaceCode(q) && JavaRem(dataNascita.year, 100) >= 0
    requires IsCodiceBelfioreValido(reg, q) == Answer(false)
    requires IsValidDate(Date(FullYear(currentYear, dataNascita.year % 100), dataNascita.month, dataNascita.day))
    requires IsUpper(c)
    ensures var t := Unchecked(nome, cognome, dataNascita, sesso, q) + [c];
            var r := Returned(Risultato(false, MSG_COMUNE + q, ComuneNonValido, false));
            ValidaFormato(reg, Some(t), currentYear) == r &&
            Valida(reg, Some(t), nome, cognome, dataNascita, sesso, luogoNascita, siglaProvincia, currentYear) == r
  {
    var u := Unchecked(nome, cognome, dataNascita, sesso, q);
    UncheckedShape(nome, cognome, dataNascita, sesso, q);
    var t := u + [c];
    assert t[..15] == u;
    StandardCode(t);
    DateSlicesOfPrefix(t, u);
    DateOfFields(t, dataNascita, sesso, currentYear);
    PlaceSliceOfPrefix(t, u);
    PlaceCheckedThird(reg, t, currentYear);
    ValidaGate(reg, Some(t), nome, cognome, dataNascita, sesso, luogoNascita, siglaProvincia, currentYear);
  }

  /**
   * As written, the century rule puts a two-digit year always in the previous
   * century: a code generated for 29 February 2000 decodes to 29 February 1900,
   * which does not exist, so validaFormato and valida throw DateTimeException
   * for it whenever the current year is in 2000-2099.
   */
  lemma LeapDay2000Throws(reg: PlaceRegistry, nome: string, cognome: string, dataNascita: LocalDate, sesso: char,
                          luogoNascita: string, siglaProvincia: string, p: string, currentYear: nat)
    requires GetCodiceBelfiore(reg, siglaProvincia, luogoNascita) == Answer(Some(p))
    requires IsPlaceCode(p) && IsCodiceBelfioreValido(reg, p) == Answer(true)
    requires dataNascita == Date(2000, 2, 29) && 2000 <= currentYear < 2100
    ensures var g := GeneraCodiceFiscale(reg, nome, cognome, dataNascita, sesso, luogoNascita, siglaProvincia);
            g.Some? &&
            ValidaFormato(reg, g, currentYear) == Thrown(DateTime) &&
            Valida(reg, g, nome, cognome, dataNascita, sesso, luogoNascita, siglaProvincia, currentYear) == Thrown(DateTime)
  {
    assert FullYear(currentYear, dataNascita.year % 100) == 1900;
    assert !IsValidDate(Date(1900, 2, 29));
    GenerateThenThrow(reg, nome, cognome, dataNascita, sesso, luogoNascita, siglaProvincia, p, currentYear);
  }
}

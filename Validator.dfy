/**
 * CodiceFiscaleValidator's orchestration: formal validation (validaFormato),
 * generation from personal data (generaCodiceFiscale) and validation against
 * personal data (valida). The place-code store is the oracle of Places, the
 * current year a parameter. A Java exception that escapes a call is the
 * outcome Thrown.
 */
module Validator {
  import opened Wrappers
  import opened JavaLang
  import opened Calendar
  import opened Places
  import opened Checksum
  import opened Omocodia
  import opened DataNascita
  import opened CodiceNome

  /** Risultato.TipoErrore */
  datatype TipoErrore =
    | NessunErrore
    | FormatoNonValido
    | CarattereControlloErrato
    | DataNonValida
    | ComuneNonValido
    | DatiAnagraficiNonCorrispondenti
    | ErroreDatabase

  /** Risultato: an immutable outcome of one validation. */
  datatype Risultato = Risultato(valido: bool, messaggio: string, tipoErrore: TipoErrore, omocodico: bool)
  {
    /** isFormaleValido: valid, or failed only against the personal data. */
    predicate IsFormaleValido()
    {
      valido || tipoErrore == DatiAnagraficiNonCorrispondenti
    }
  }

  /** What a call of validaFormato or valida does: return a Risultato or throw. */
  datatype Outcome = Returned(risultato: Risultato) | Thrown(exception: JavaException)

  const MSG_NULL: string := "Il codice fiscale è null"
  const MSG_FORMATO: string := "Il codice fiscale non rispetta il formato corretto"
  const MSG_COMUNE: string := "Il codice del comune o nazione non è valido: "
  const MSG_DATABASE: string := "Errore durante la verifica del comune: "
  const MSG_CONTROLLO: string := "Il carattere di controllo non è valido"
  const MSG_VALIDO: string := "Codice fiscale valido"
  const MSG_OMOCODICO_VALIDO: string := "Codice fiscale omocodico valido"
  const MSG_NON_GENERABILE: string := "Impossibile generare il codice fiscale dai dati anagrafici forniti"
  const MSG_NON_CORRISPONDE: string := "Il codice fiscale non corrisponde ai dati anagrafici forniti"

  // ---------------------------------------------------------------------------
  // The format, REGEX_CODICE_FISCALE as a predicate per position

  /** The letters the regular expression admits beside the digits at the numeric slots. */
  const CLASSE_OMOCODICA: string := "LMNPQRSTUV"

  /** The slots [0-9LMNPQRSTUV] of the regular expression: offsets 6-7, 9-10 and 12-14. */
  predicate IsRegexDigitSlot(i: int)
  {
    6 <= i <= 7 || 9 <= i <= 10 || 12 <= i <= 14
  }

  predicate SlotAccepts(i: int, c: char)
  {
    if IsRegexDigitSlot(i) then IsDigit(c) || c in CLASSE_OMOCODICA else IsUpper(c)
  }

  /** PATTERN_CODICE_FISCALE.matcher(s).matches() */
  predicate MatchesPattern(s: string)
  {
    |s| == 16 && forall i :: 0 <= i < 16 ==> SlotAccepts(i, s[i])
  }

  /** The 4-character place codes the store holds: a letter and three digits. */
  predicate IsPlaceCode(p: string)
  {
    |p| == 4 && IsUpper(p[0]) && IsDigit(p[1]) && IsDigit(p[2]) && IsDigit(p[3])
  }

  // ---------------------------------------------------------------------------
  // The operations

  /** validaFormato: format, then date, then place code, then check character. */
  function ValidaFormato(reg: PlaceRegistry, codiceFiscale: Option<string>, currentYear: nat): Outcome
  {
    match codiceFiscale
    case None => Returned(Risultato(false, MSG_NULL, FormatoNonValido, false))
    case Some(raw) =>
      var cf := Trim(UpperAscii(raw));
      if !MatchesPattern(cf) then Returned(Risultato(false, MSG_FORMATO, FormatoNonValido, false))
      else
        var omocodico := IsHomocode(cf);
        var cfNormalizzato := if omocodico then Normalized(cf) else cf;
        ControlliSuNormalizzato(reg, cfNormalizzato, omocodico, currentYear)
  }

  /** The checks of validaFormato that follow normalisation: date, then place code, then check character. */
  function ControlliSuNormalizzato(reg: PlaceRegistry, cfNormalizzato: string, omocodico: bool, currentYear: nat): Outcome
    requires |cfNormalizzato| == 16
  {
    match EstraiDataNascita(cfNormalizzato, currentYear)
    // none of these exceptions is a DateTimeParseException, so the catch of DateTimeParseException in validaFormato lets it through
    case DecodeThrows(e) => Thrown(e)
    case Decoded(_) =>
      var codiceBelfiore := cfNormalizzato[11..15];
      match IsCodiceBelfioreValido(reg, codiceBelfiore)
      case Failed(m) => Returned(Risultato(false, MSG_DATABASE + m, ErroreDatabase, omocodico))
      case Answer(false) => Returned(Risultato(false, MSG_COMUNE + codiceBelfiore, ComuneNonValido, omocodico))
      case Answer(true) =>
        match CheckChar(cfNormalizzato[..15])
        case None => Thrown(ArrayIndexOutOfBounds)
        case Some(atteso) =>
          if cfNormalizzato[15] != atteso then
            Returned(Risultato(false, MSG_CONTROLLO, CarattereControlloErrato, omocodico))
          else
            Returned(Risultato(true, if omocodico then MSG_OMOCODICO_VALIDO else MSG_VALIDO, NessunErrore, omocodico))
  }

  /** The 15 characters before the check character; every exception of generaCodiceFiscale ends in null. */
  function GeneraCodiceFiscale(reg: PlaceRegistry, nome: string, cognome: string, dataNascita: LocalDate,
                               sesso: char, luogoNascita: string, siglaProvincia: string): Option<string>
  {
    var codiceCognome := NameCode(UpperAscii(cognome), false);
    var codiceNome := NameCode(UpperAscii(nome), true);
    var annoStr := Format02(JavaRem(dataNascita.year, 100));
    var codMese := MESI[dataNascita.month - 1];
    var giornoBase := if sesso == 'F' then dataNascita.day + 40 else dataNascita.day;
    var giornoStr := Format02(giornoBase);
    match GetCodiceBelfiore(reg, siglaProvincia, luogoNascita)
    case Failed(_) => None
    case Answer(None) => None
    case Answer(Some(codiceBelfiore)) =>
      var cfSenzaControllo := codiceCognome + codiceNome + annoStr + [codMese] + giornoStr + codiceBelfiore;
      match CheckChar(cfSenzaControllo)
      case None => None
      case Some(carattereControllo) => Some(cfSenzaControllo + [carattereControllo])
  }

  /** valida: formal validation, then comparison of the raw argument, normalised, with the generated code. */
  function Valida(reg: PlaceRegistry, codiceFiscale: Option<string>, nome: string, cognome: string,
                  dataNascita: LocalDate, sesso: char, luogoNascita: string, siglaProvincia: string,
                  currentYear: nat): Outcome
  {
    match ValidaFormato(reg, codiceFiscale, currentYear)
    case Thrown(e) => Thrown(e)
    case Returned(risultato) =>
      if !risultato.IsFormaleValido() then Returned(risultato)
      else
        var raw := codiceFiscale.value;
        var omocodico := IsHomocode(raw);
        var cfNormalizzato := if omocodico then Normalized(raw) else raw;
        match GeneraCodiceFiscale(reg, nome, cognome, dataNascita, sesso, luogoNascita, siglaProvincia)
        case None => Returned(Risultato(false, MSG_NON_GENERABILE, DatiAnagraficiNonCorrispondenti, omocodico))
        case Some(cfAtteso) =>
          if cfNormalizzato != cfAtteso then
            Returned(Risultato(false, MSG_NON_CORRISPONDE, DatiAnagraficiNonCorrispondenti, omocodico))
          else
            Returned(Risultato(true, if omocodico then MSG_OMOCODICO_VALIDO else MSG_VALIDO, NessunErrore, omocodico))
  }
}

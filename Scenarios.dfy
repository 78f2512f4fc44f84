/**
 * The behaviour the repository's unit tests describe, stated on concrete
 * inputs: a place store that knows Rome (province RM) as H501, and the code
 * RSSMRA85M01H501Q of Mario Rossi, born in Rome on 1 August 1985.
 */
module Scenarios {
  import opened Wrappers
  import opened JavaLang
  import opened Calendar
  import opened Places
  import opened Checksum
  import opened Omocodia
  import opened DataNascita
  import opened CodiceNome
  import opened Validator
  import opened ValidatorProperties

  /** The personal data of the tests. */
  const NOME: string := "Mario"
  const COGNOME: string := "Rossi"
  const NASCITA: LocalDate := Date(1985, 8, 1)
  const LUOGO: string := "Roma"
  const PROVINCIA: string := "RM"

  /** The store of the tests: Rome is H501 and H501 is the only known place code. */
  function Roma(): PlaceRegistry
  {
    PlaceRegistry((provincia, luogo) => if provincia == "RM" && luogo == "ROMA" then Answer(Some("H501")) else Answer(None),
                  codice => Answer(codice == "H501"))
  }

  /** Only on a five-character text, one character at a time. */
  lemma OnlyOfFive(t: string, alphabet: string)
    requires |t| == 5
    ensures Only(t, alphabet) ==
            (if t[0] in alphabet then [t[0]] else []) + (if t[1] in alphabet then [t[1]] else []) +
            (if t[2] in alphabet then [t[2]] else []) + (if t[3] in alphabet then [t[3]] else []) +
            (if t[4] in alphabet then [t[4]] else [])
  {
    assert t[..0] == [];
    OnlyStep(t, 0, alphabet);
    OnlyStep(t, 1, alphabet);
    OnlyStep(t, 2, alphabet);
    OnlyStep(t, 3, alphabet);
    OnlyStep(t, 4, alphabet);
    assert t[..5] == t;
  }

  /** The letters generaCodice keeps of a five-letter word are the word upper-cased. */
  lemma LettersOfFive(t: string, u: string)
    requires |t| == 5 && |u| == 5
    requires forall i :: 0 <= i < 5 ==> IsAsciiLetter(t[i]) && ToUpper(t[i]) == u[i]
    ensures Letters(t) == u
  {
    OnlyLettersOfLetters(t);
  }

  /** The surname code of Rossi. */
  lemma SurnameCodeRossi()
    ensures NameCode("Rossi", false) == "RSS"
  {
    LettersOfFive("Rossi", "ROSSI");
    AlphabetsPartitionLetters('R');
    AlphabetsPartitionLetters('O');
    AlphabetsPartitionLetters('S');
    AlphabetsPartitionLetters('I');
    OnlyOfFive("ROSSI", CONSONANTI);
    OnlyOfFive("ROSSI", VOCALI);
  }

  /** The name code of Mario. */
  lemma NameCodeMario()
    ensures NameCode("Mario", true) == "MRA"
  {
    LettersOfFive("Mario", "MARIO");
    AlphabetsPartitionLetters('M');
    AlphabetsPartitionLetters('A');
    AlphabetsPartitionLetters('R');
    AlphabetsPartitionLetters('I');
    AlphabetsPartitionLetters('O');
    OnlyOfFive("MARIO", CONSONANTI);
    OnlyOfFive("MARIO", VOCALI);
  }

  /** The weighted sum over the first n characters, from the one over the first n - 1. */
  lemma SumStep(s: string, n: nat, before: int, c: char, v: int, w: int)
    requires 0 < n <= |s| && AllHaveValues(s) && s[n - 1] == c
    requires WeightedSum(s, n - 1) == before
    requires BaseValue(c) == v && 0 <= v < 26 && TableValue(n % 2 == 0, v) == w
    ensures WeightedSum(s, n) == before + w
  {
  }

  /** RSSMRA85M01H501, field by field: surname, name, year, month, day, place. */
  const CODICE_PROVA: string := "RSS" + "MRA" + "85" + ['M'] + "01" + "H501"

  lemma CodiceProvaHasValues()
    ensures AllHaveValues(CODICE_PROVA)
  {
    forall i | 0 <= i < |CODICE_PROVA| ensures HasValue(CODICE_PROVA[i]) {
    }
  }

  lemma CodiceProvaSum5()
    ensures AllHaveValues(CODICE_PROVA) && WeightedSum(CODICE_PROVA, 5) == 58
  {
    CodiceProvaHasValues();
    var s := CODICE_PROVA;
    SumStep(s, 1, 0, 'R', 17, 8);
    SumStep(s, 2, 8, 'S', 18, 18);
    SumStep(s, 3, 26, 'S', 18, 12);
    SumStep(s, 4, 38, 'M', 12, 12);
    SumStep(s, 5, 50, 'R', 17, 8);
  }

  lemma CodiceProvaSum10()
    ensures AllHaveValues(CODICE_PROVA) && WeightedSum(CODICE_PROVA, 10) == 100
  {
    CodiceProvaSum5();
    var s := CODICE_PROVA;
    SumStep(s, 6, 58, 'A', 0, 0);
    SumStep(s, 7, 58, '8', 8, 19);
    SumStep(s, 8, 77, '5', 5, 5);
    SumStep(s, 9, 82, 'M', 12, 18);
    SumStep(s, 10, 100, '0', 0, 0);
  }

  lemma CodiceProvaSum15()
    ensures AllHaveValues(CODICE_PROVA) && WeightedSum(CODICE_PROVA, 15) == 120
  {
    CodiceProvaSum10();
    var s := CODICE_PROVA;
    SumStep(s, 11, 100, '1', 1, 0);
    SumStep(s, 12, 100, 'H', 7, 7);
    SumStep(s, 13, 107, '5', 5, 13);
    SumStep(s, 14, 120, '0', 0, 0);
    SumStep(s, 15, 120, '1', 1, 0);
  }

  /** The check character of the 15 characters of the test code is Q. */
  lemma CheckCharOfTestCode()
    ensures CheckChar(CODICE_PROVA) == Some('Q')
  {
    CodiceProvaSum15();
  }

  /** The whole test code, RSSMRA85M01H501Q. */
  const CODICE_MARIO_ROSSI: string := CODICE_PROVA + "Q"

  /** RSSMRA85M01H999Z: the test code with a place code the store does not know. */
  const CODICE_H999: string := "RSS" + "MRA" + "85" + ['M'] + "01" + "H999" + "Z"

  /** The lookup keys of the tests are already normalised except the place name, which is upper-cased. */
  lemma TestKeys()
    ensures NormalizeKey(PROVINCIA) == "RM" && NormalizeKey(LUOGO) == "ROMA" && NormalizeKey("H501") == "H501"
    ensures NormalizeKey("H999") == "H999"
  {
    CanonicalUnchanged("RM");
    CanonicalUnchanged("H501");
    CanonicalUnchanged("H999");
    assert UpperAscii("Roma") == "ROMA";
    CanonicalUnchanged("ROMA");
  }

  /** The store of the tests finds Rome in province RM, and knows H501 but not H999. */
  lemma TestLookups()
    ensures GetCodiceBelfiore(Roma(), PROVINCIA, LUOGO) == Answer(Some("H501"))
    ensures IsCodiceBelfioreValido(Roma(), "H501") == Answer(true)
    ensures IsCodiceBelfioreValido(Roma(), "H999") == Answer(false)
  {
    TestKeys();
  }

  /** The name codes of the test data. */
  lemma TestNameCodes()
    ensures NameCode(COGNOME, false) == "RSS" && NameCode(NOME, true) == "MRA"
  {
    SurnameCodeRossi();
    NameCodeMario();
  }

  /** The date fields of the test data, born on 1 August 1985. */
  lemma TestDateFields()
    ensures Format02(JavaRem(NASCITA.year, 100)) == "85"
    ensures Format02(if 'M' == 'F' then NASCITA.day + 40 else NASCITA.day) == "01"
    ensures MESI[NASCITA.month - 1] == 'M'
    ensures JavaRem(NASCITA.year, 100) >= 0
  {
    assert JavaRem(1985, 100) == 85;
    assert Decimal(85) == Decimal(8) + [DigitChar(5)];
  }

  /** The 15 characters for given name codes and date fields. */
  lemma UncheckedOf(nome: string, cognome: string, dataNascita: LocalDate, sesso: char, p: string,
                    cc: string, cn: string, anno: string, mese: char, giorno: string)
    requires NameCode(cognome, false) == cc && NameCode(nome, true) == cn
    requires Format02(JavaRem(dataNascita.year, 100)) == anno && MESI[dataNascita.month - 1] == mese
    requires Format02(if sesso == 'F' then dataNascita.day + 40 else dataNascita.day) == giorno
    ensures Unchecked(nome, cognome, dataNascita, sesso, p) == cc + cn + anno + [mese] + giorno + p
  {
  }

  /** The 15 characters generated for the test data, and those with H999 as place code. */
  lemma TestUnchecked()
    ensures Unchecked(NOME, COGNOME, NASCITA, 'M', "H501") == CODICE_PROVA
    ensures Unchecked(NOME, COGNOME, NASCITA, 'M', "H999") + ['Z'] == CODICE_H999
  {
    TestNameCodes();
    TestDateFields();
    UncheckedOf(NOME, COGNOME, NASCITA, 'M', "H501", "RSS", "MRA", "85", 'M', "01");
    UncheckedOf(NOME, COGNOME, NASCITA, 'M', "H999", "RSS", "MRA", "85", 'M', "01");
  }

  /** Generation for known fields: the place code found, the 15 characters and their check character. */
  lemma GeneratedFrom(reg: PlaceRegistry, nome: string, cognome: string, dataNascita: LocalDate, sesso: char,
                      luogoNascita: string, siglaProvincia: string, p: string, u: string, c: char)
    requires GetCodiceBelfiore(reg, siglaProvincia, luogoNascita) == Answer(Some(p))
    requires Unchecked(nome, cognome, dataNascita, sesso, p) == u && CheckChar(u) == Some(c)
    ensures GeneraCodiceFiscale(reg, nome, cognome, dataNascita, sesso, luogoNascita, siglaProvincia) == Some(u + [c])
  {
    GeneraCodiceFiscaleIs(reg, nome, cognome, dataNascita, sesso, luogoNascita, siglaProvincia);
  }

  /** The test code is what generaCodiceFiscale produces for Mario Rossi, born in Rome on 1 August 1985. */
  lemma GeneratedTestCode()
    ensures GeneraCodiceFiscale(Roma(), NOME, COGNOME, NASCITA, 'M', LUOGO, PROVINCIA) == Some(CODICE_MARIO_ROSSI)
  {
    TestLookups();
    TestUnchecked();
    CheckCharOfTestCode();
    GeneratedFrom(Roma(), NOME, COGNOME, NASCITA, 'M', LUOGO, PROVINCIA, "H501", CODICE_PROVA, 'Q');
  }

  /** The year 85 decodes to a year in which 1 August exists, for every current year up to Year.MAX_VALUE. */
  lemma TestDateDecodes(currentYear: nat)
    requires currentYear <= MAX_YEAR
    ensures IsValidDate(Date(FullYear(currentYear, NASCITA.year % 100), NASCITA.month, NASCITA.day))
  {
    FullYearInPreviousCentury(currentYear, 85);
  }

  /** The test code with the given data is valid and not a homograph code. */
  lemma ValidTestCode(currentYear: nat)
    requires currentYear <= MAX_YEAR
    ensures Valida(Roma(), Some(CODICE_MARIO_ROSSI), NOME, COGNOME, NASCITA, 'M', LUOGO, PROVINCIA, currentYear) ==
            Returned(Risultato(true, "Codice fiscale valido", NessunErrore, false))
  {
    TestLookups();
    TestDateFields();
    TestDateDecodes(currentYear);
    GenerateThenValida(Roma(), NOME, COGNOME, NASCITA, 'M', LUOGO, PROVINCIA, "H501", currentYear);
    GeneratedTestCode();
  }

  /** A code of seven characters fails the format check, before any lookup. */
  lemma InvalidFormat(currentYear: nat)
    ensures Valida(Roma(), Some("INVALID"), NOME, COGNOME, NASCITA, 'M', LUOGO, PROVINCIA, currentYear) ==
            Returned(Risultato(false, "Il codice fiscale non rispetta il formato corretto", FormatoNonValido, false))
  {
    assert |Canonical("INVALID")| == 7 by {
      CanonicalUnchanged("INVALID");
    }
    FormatCheckedFirst(Roma(), Some("INVALID"), currentYear);
    ValidaGate(Roma(), Some("INVALID"), NOME, COGNOME, NASCITA, 'M', LUOGO, PROVINCIA, currentYear);
  }

  /** RSSMRA85M01H501X: the right fields with the wrong check character. */
  lemma WrongControlCharacter(currentYear: nat)
    requires currentYear <= MAX_YEAR
    ensures Valida(Roma(), Some(CODICE_PROVA + "X"), NOME, COGNOME, NASCITA, 'M', LUOGO, PROVINCIA, currentYear) ==
            Returned(Risultato(false, "Il carattere di controllo non è valido", CarattereControlloErrato, false))
  {
    TestLookups();
    TestDateFields();
    TestUnchecked();
    CheckCharOfTestCode();
    TestDateDecodes(currentYear);
    WrongCheckCharacter(Roma(), NOME, COGNOME, NASCITA, 'M', LUOGO, PROVINCIA, "H501", 'X', currentYear);
  }

  /** The message for an unknown place code names it. */
  lemma MessageH999()
    ensures MSG_COMUNE + "H999" == "Il codice del comune o nazione non è valido: H999"
  {
  }

  /** RSSMRA85M01H999Z: a place code the store does not know. */
  lemma UnknownComune(cf: string, currentYear: nat)
    requires cf == CODICE_H999 && currentYear <= MAX_YEAR
    ensures Valida(Roma(), Some(cf), NOME, COGNOME, NASCITA, 'M', LUOGO, PROVINCIA, currentYear) ==
            Returned(Risultato(false, "Il codice del comune o nazione non è valido: H999", ComuneNonValido, false))
  {
    TestLookups();
    TestDateFields();
    TestUnchecked();
    TestDateDecodes(currentYear);
    MessageH999();
    UnknownPlaceCode(Roma(), NOME, COGNOME, NASCITA, 'M', "H999", 'Z', LUOGO, PROVINCIA, currentYear);
  }

  /** normalizzaCF leaves the test code, which has digits at every numeric offset, unchanged. */
  lemma TestCodeNormalizesToItself()
    ensures Normalized(CODICE_MARIO_ROSSI) == CODICE_MARIO_ROSSI && !IsHomocode(CODICE_MARIO_ROSSI)
    ensures MatchesPattern(CODICE_MARIO_ROSSI) && Canonical(CODICE_MARIO_ROSSI) == CODICE_MARIO_ROSSI
  {
    TestLookups();
    TestDateFields();
    GeneratedTestCode();
    GeneratedCodeShape(Roma(), NOME, COGNOME, NASCITA, 'M', LUOGO, PROVINCIA, "H501");
  }

  /** RSSMRA85M01H50MQ: the test code with the last digit of H501 written as its homograph letter M. */
  lemma HomographTestCode(cf: string, currentYear: nat)
    requires cf == CODICE_MARIO_ROSSI[14 := 'M'] && currentYear <= MAX_YEAR
    ensures Valida(Roma(), Some(cf), NOME, COGNOME, NASCITA, 'M', LUOGO, PROVINCIA, currentYear) ==
            Returned(Risultato(true, "Codice fiscale omocodico valido", NessunErrore, true))
  {
    TestLookups();
    TestDateFields();
    TestDateDecodes(currentYear);
    GeneratedTestCode();
    GeneratedHomographThenValida(Roma(), NOME, COGNOME, NASCITA, 'M', LUOGO, PROVINCIA, "H501", 14, currentYear);
    HomographOf14();
  }

  /** The digit at offset 14 of the test code is 1, whose homograph letter is M. */
  lemma HomographOf14()
    ensures IsDigit(CODICE_MARIO_ROSSI[14]) && LETTERE_OMOCODICHE[DigitValue(CODICE_MARIO_ROSSI[14])] == 'M'
  {
    assert CODICE_MARIO_ROSSI[14] == '1';
  }
}

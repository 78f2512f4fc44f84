# Codice fiscale validator, modelled in Dafny

A model of the core of `CodiceFiscaleValidator`, a Java validator and generator of the Italian
tax code (*codice fiscale*), with proofs about it. A codice fiscale has 16 characters:

- three letters from the surname and three from the given name;
- two year digits and a month letter;
- two day digits, with 40 added for women;
- a four-character place code (*codice Belfiore*);
- a check character.

In a homograph code (*codice omocodico*), some digits are replaced by the letters L M N P Q R S T U V.

The model covers:

- the check-character computation (`calcolaCarattereControllo`);
- homograph normalisation and detection (`normalizzaCF`, `isOmocodico`);
- birth-date decoding (`estraiDataNascita`);
- the surname and name codes (`generaCodice`, `generaCodiceCognome`, `generaCodiceNome`);
- generation of a whole code from personal data (`generaCodiceFiscale`);
- formal validation (`validaFormato`);
- validation against personal data (`valida`);
- the result value `Risultato`, with `TipoErrore` and `isFormaleValido`.

Modules, by source structure:

| module | what it holds |
|---|---|
| `Wrappers` | `Option` |
| `JavaLang` | the parts of `String`, `Integer.parseInt`, `String.format("%02d")` and `%` the code relies on, for ASCII |
| `Calendar` | the dates `LocalDate.of` accepts |
| `Places` | the place-code store behind `DatabaseManager`, as an oracle with two queries |
| `Checksum` | the check character |
| `Omocodia` | homograph normalisation and detection |
| `DataNascita` | birth-date decoding |
| `CodiceNome` | the surname and given-name codes |
| `Validator` | `Risultato`, `validaFormato`, `generaCodiceFiscale`, `valida` |
| `ValidatorProperties` | lemmas about the order and meaning of the checks, generation round trips, and counterexamples |
| `Scenarios` | the unit tests of the repository, restated as lemmas over a store that knows Rome (H501), and one homograph code |

How each kind of code is modelled:

- **Loops become methods.** The methods that work by loops are imperative Dafny: `CalcolaCarattereControllo`, `NormalizzaCF` (over a `char` array, like the `StringBuilder`), `IsOmocodico` and `GeneraCodice`. Each one is proved equal to a specification function, and the properties are lemmas about those functions.
- **The rest become functions.** The code made of calls and branches is written as functions.
- **Exceptions escape as values.** A Java exception that escapes a call is the outcome `Thrown(e)` of `Validator.Outcome`.
- **Inputs replace outside state.**
  - The current year, read by `LocalDate.now()` in the source, is a parameter.
  - The database is a `Places.PlaceRegistry` value.

## Model

| member | source | states |
|---|---|---|
| Checksum.CheckChar | src/main/java/it/codicefiscale/CodiceFiscaleValidator.java:306-331 | Definition of the check character: the letter at the weighted sum mod 26, or None where a character indexes past the tables. Its properties are `CalcolaCarattereControllo`, `CheckCharIsLetter`, `SingleSubstitution` and `DigitLetterInterchangeable`. |
| Omocodia.Normalized | src/main/java/it/codicefiscale/CodiceFiscaleValidator.java:136-157 | Definition of `normalizzaCF`. Its properties are `NormalizzaCF`, `NormalizedChangesOnlyHomographLetters`, `NormalizedIdempotent`, `NormalizedIsStandard` and `HomocodeIffNormalizationChanges`. |
| Omocodia.IsHomocode | src/main/java/it/codicefiscale/CodiceFiscaleValidator.java:165-180 | Definition of `isOmocodico`. Its properties are `IsOmocodico`, `NormalizedIsStandard` and `HomocodeIffNormalizationChanges`. |
| DataNascita.FullYear | src/main/java/it/codicefiscale/CodiceFiscaleValidator.java:351-356 | Definition of the century rule. Its property is `FullYearInPreviousCentury`. |
| DataNascita.EstraiDataNascita | src/main/java/it/codicefiscale/CodiceFiscaleValidator.java:341-360 | Definition of `estraiDataNascita`, with the current year as a parameter and each Java exception as `DecodeThrows`. Its properties are `DecodedFields`, `DayZeroOrFortyThrows`, `FemaleDayDecodesSame` and `GeneratedDateRoundTrip`. |
| Places.GetCodiceBelfiore | src/main/java/it/codicefiscale/db/DatabaseManager.java:113-152 | Definition of the place-name query over normalised keys. Its property is `LookupsIgnoreCaseAndBlanks`. |
| Places.IsCodiceBelfioreValido | src/main/java/it/codicefiscale/db/DatabaseManager.java:161-187 | Definition of the place-code query over a normalised key. Its properties are `LookupsIgnoreCaseAndBlanks` and `NormalizeKeyIdempotent`. |
| Validator.Risultato.IsFormaleValido | src/main/java/it/codicefiscale/CodiceFiscaleValidator.java:106-109 | Definition of `isFormaleValido`: valid, or failed only against the personal data. Its properties are `ValidaFormatoResults` and `ValidaGate`. |
| Validator.MatchesPattern | src/main/java/it/codicefiscale/CodiceFiscaleValidator.java:22-23 | Definition of the regular expression, position by position. Its properties are `FormatCheckedFirst`, `ValidaNeedsCanonicalInput` and `GeneratedCodeShape`. |
| Validator.ValidaFormato | src/main/java/it/codicefiscale/CodiceFiscaleValidator.java:189-205 | Definition of `validaFormato` up to the normalisation. Its properties are `FormatCheckedFirst`, `ValidaFormatoValidIff`, `ValidaFormatoResults` and `ValidaFormatoIgnoresCaseAndBlanks`. |
| Validator.ControlliSuNormalizzato | src/main/java/it/codicefiscale/CodiceFiscaleValidator.java:207-247 | Definition of the three checks of `validaFormato` after the normalisation. Its properties are `DateCheckedSecond`, `PlaceCheckedThird` and `ChecksumCheckedLast`. |
| Validator.GeneraCodiceFiscale | src/main/java/it/codicefiscale/CodiceFiscaleValidator.java:369-407 | Definition of `generaCodiceFiscale`, with every caught exception as None. Its properties are `GeneratedCodeShape`, `GenerationFails`, `GeneratedDateRoundTrip` and `GenerateThenValida`. |
| Validator.Valida | src/main/java/it/codicefiscale/CodiceFiscaleValidator.java:263-298 | Definition of `valida`. Its properties are `ValidaGate`, `ValidaValidIff`, `ValidaNeedsCanonicalInput`, `ValidaRejectsNonCanonical`, `GenerateThenValida` and `GeneratedHomographThenValida`. |
| Checksum.CalcolaCarattereControllo | src/main/java/it/codicefiscale/CodiceFiscaleValidator.java:306-331 | The loop returns `CheckChar` of its input. It sums `VALORI_DISPARI` at odd 1-based positions and `VALORI_PARI` at even ones, and takes the letter at the sum mod 26. The result is None if a character indexes past the tables, where Java throws. The sum is never negative, so Java's truncating `%` agrees with the mod of the definition. |
| Checksum.CheckCharIsLetter | src/main/java/it/codicefiscale/CodiceFiscaleValidator.java:306-331 | A check character exists exactly when every character is a digit or an ASCII capital, and it is then a capital letter. |
| Checksum.TablesArePermutations | src/main/java/it/codicefiscale/CodiceFiscaleValidator.java:30-31 | Both weight tables have 26 entries in 0..25. The odd table is injective, the even table is the identity, and the two differ. |
| Checksum.SingleSubstitution | src/main/java/it/codicefiscale/CodiceFiscaleValidator.java:306-331 | Changing one character changes the check character exactly when it changes that character's base value, so every single-character error that changes the value is detected. |
| Checksum.DigitLetterInterchangeable | src/main/java/it/codicefiscale/CodiceFiscaleValidator.java:314-318 | Replacing digit d by the d-th letter of the alphabet leaves the check character unchanged. |
| Omocodia.NormalizzaCF | src/main/java/it/codicefiscale/CodiceFiscaleValidator.java:136-157 | The array loop over the numeric positions returns `Normalized(cf)`. Input that is not 16 characters long comes back unchanged. |
| Omocodia.IsOmocodico | src/main/java/it/codicefiscale/CodiceFiscaleValidator.java:165-180 | The early-return scan returns `IsHomocode(cf)`: true iff the input has 16 characters and a homograph letter at one of offsets 6, 7, 9, 10, 12, 13, 14. |
| Omocodia.ConversionTable | src/main/java/it/codicefiscale/CodiceFiscaleValidator.java:34-46 | The conversion map sends the d-th letter of LMNPQRSTUV to digit d, and its keys are exactly those ten capital letters. |
| Omocodia.NormalizedChangesOnlyHomographLetters | src/main/java/it/codicefiscale/CodiceFiscaleValidator.java:136-157 | Normalisation keeps the length. It changes a character exactly when the code has 16 characters, the offset is numeric and the character is a homograph letter, and it then writes that letter's digit. |
| Omocodia.NormalizedIdempotent | src/main/java/it/codicefiscale/CodiceFiscaleValidator.java:136-157 | Normalising twice is normalising once. |
| Omocodia.NormalizedIsStandard | src/main/java/it/codicefiscale/CodiceFiscaleValidator.java:136-180 | A normalised code is never a homograph code. |
| Omocodia.HomocodeIffNormalizationChanges | src/main/java/it/codicefiscale/CodiceFiscaleValidator.java:136-180 | `isOmocodico` holds exactly when `normalizzaCF` changes the code. |
| DataNascita.FullYearInPreviousCentury | src/main/java/it/codicefiscale/CodiceFiscaleValidator.java:352-356 | The decoded year ends in the two encoded digits and never exceeds the current year. As written it is always in the century before the current one, so the correction for future years never applies. |
| DataNascita.MonthLetters | src/main/java/it/codicefiscale/CodiceFiscaleValidator.java:343 | `MESI.indexOf` finds exactly the twelve month letters, each at its own month. |
| DataNascita.DecodedFields | src/main/java/it/codicefiscale/CodiceFiscaleValidator.java:341-360 | For digits at offsets 6, 7, 9 and 10, the result is the date built from the fields when `LocalDate.of` accepts it, and `DateTimeException` otherwise. |
| DataNascita.DayZeroOrFortyThrows | src/main/java/it/codicefiscale/CodiceFiscaleValidator.java:344-359 | A day field of 00 or 40 always throws `DateTimeException`, because 40 is not reduced. |
| DataNascita.FemaleDayDecodesSame | src/main/java/it/codicefiscale/CodiceFiscaleValidator.java:344-349 | A day field of 41-71 decodes to the same date as the field less 40. |
| JavaLang.Format02RoundTrip | src/main/java/it/codicefiscale/CodiceFiscaleValidator.java:380-387 | `%02d` of 0..99 gives two digits that `parseInt` reads back to the number. |
| JavaLang.IndexOf | src/main/java/it/codicefiscale/CodiceFiscaleValidator.java:343 | The result is the first index of the character, and -1 exactly when it is absent. |
| CodiceNome.GeneraCodice | src/main/java/it/codicefiscale/CodiceFiscaleValidator.java:427-462 | The two builders and the padding loop return `NameCode(testo, isNome)`: consonants, then vowels, then X, cut at three characters. A name with more than three consonants uses consonants 1, 3 and 4. |
| CodiceNome.GeneraCodiceCognome | src/main/java/it/codicefiscale/CodiceFiscaleValidator.java:412-414 | Returns the surname code. |
| CodiceNome.GeneraCodiceNome | src/main/java/it/codicefiscale/CodiceFiscaleValidator.java:419-421 | Returns the given-name code. |
| CodiceNome.NameCodeIsThreeLetters | src/main/java/it/codicefiscale/CodiceFiscaleValidator.java:427-462 | Every code has exactly three capital letters. |
| CodiceNome.NameCodeLayout | src/main/java/it/codicefiscale/CodiceFiscaleValidator.java:435-461 | Character i of the code is the i-th consonant, else the next vowel, else X. This holds whenever the consonant rule for names does not apply. |
| CodiceNome.SurnameFirstThreeConsonants | src/main/java/it/codicefiscale/CodiceFiscaleValidator.java:435-461 | A surname with at least three consonants gives its first three. |
| CodiceNome.NameFirstThirdFourthConsonants | src/main/java/it/codicefiscale/CodiceFiscaleValidator.java:443-449 | A given name with more than three consonants gives its first, third and fourth. |
| CodiceNome.NonLettersIgnored | src/main/java/it/codicefiscale/CodiceFiscaleValidator.java:429 | A character that is not an ASCII letter, anywhere in the text, does not change the code. |
| CodiceNome.NameCodeIgnoresCase | src/main/java/it/codicefiscale/CodiceFiscaleValidator.java:374-377 | Upper-casing the text before the call, as `generaCodiceFiscale` does, does not change the code. |
| Places.LookupsIgnoreCaseAndBlanks | src/main/java/it/codicefiscale/db/DatabaseManager.java:113-187 | Both queries give the same answer for a key and for its upper-cased, trimmed form. |
| Places.NormalizeKeyIdempotent | src/main/java/it/codicefiscale/db/DatabaseManager.java:119-120 | Upper-casing and trimming a key twice is doing it once. |
| ValidatorProperties.FormatCheckedFirst | src/main/java/it/codicefiscale/CodiceFiscaleValidator.java:189-202 | `FORMATO_NON_VALIDO` is returned exactly when the code is null or its upper-cased, trimmed form does not match the pattern. The result has the exact null and format messages. |
| ValidatorProperties.DateCheckedSecond | src/main/java/it/codicefiscale/CodiceFiscaleValidator.java:204-215 | After the format check, `validaFormato` throws exactly when the date of the normalised code cannot be decoded. It then throws `DateTimeException`, which the catch of `DateTimeParseException` does not stop. |
| ValidatorProperties.PlaceCheckedThird | src/main/java/it/codicefiscale/CodiceFiscaleValidator.java:217-231 | After the date, an unknown place code gives `COMUNE_NON_VALIDO` with the code in the message. A failing query gives `ERRORE_DATABASE` with the failure message. Both carry the homograph flag. |
| ValidatorProperties.ChecksumCheckedLast | src/main/java/it/codicefiscale/CodiceFiscaleValidator.java:233-247 | After the place, the result is valid, with the plain or the homograph message, iff the check character matches. Otherwise it is `CARATTERE_CONTROLLO_ERRATO`. |
| ValidatorProperties.ValidaFormatoValidIff | src/main/java/it/codicefiscale/CodiceFiscaleValidator.java:189-248 | The code is formally valid iff all four checks pass on its normalised form. The homograph flag is set iff the canonical code matches the pattern and is a homograph code. |
| ValidatorProperties.ValidaFormatoResults | src/main/java/it/codicefiscale/CodiceFiscaleValidator.java:54-111 | `valido` holds iff `tipoErrore` is `NESSUN_ERRORE`. `validaFormato` never produces `DATA_NON_VALIDA` or `DATI_ANAGRAFICI_NON_CORRISPONDENTI`, `isFormaleValido` equals `valido` on its results, and the only exception it lets through is `DateTimeException`. |
| ValidatorProperties.ValidaFormatoIgnoresCaseAndBlanks | src/main/java/it/codicefiscale/CodiceFiscaleValidator.java:195 | Two inputs with the same upper-cased, trimmed form get the same result. |
| ValidatorProperties.ValidaGate | src/main/java/it/codicefiscale/CodiceFiscaleValidator.java:267-271 | When `validaFormato` throws or reports a formal error, `valida` returns exactly that. |
| ValidatorProperties.ValidaValidIff | src/main/java/it/codicefiscale/CodiceFiscaleValidator.java:263-298 | `valida` succeeds iff the code is formally valid and the generated code equals the normalised raw argument. Otherwise the error is `DATI_ANAGRAFICI_NON_CORRISPONDENTI`, with the not-generable message when generation gives null. |
| ValidatorProperties.ValidaNeedsCanonicalInput | src/main/java/it/codicefiscale/CodiceFiscaleValidator.java:273-292 | Only an argument that is already upper-case, trimmed and matching the pattern can pass `valida`. |
| ValidatorProperties.ValidaRejectsNonCanonical | src/main/java/it/codicefiscale/CodiceFiscaleValidator.java:273-292 | A formally valid code written in lower case or with blanks is always rejected as not matching the personal data. |
| ValidatorProperties.GenerationFails | src/main/java/it/codicefiscale/CodiceFiscaleValidator.java:380-405 | A generated code implies the place was found. A negative year that is not a multiple of 100 always gives null, because its `%02d` field has a minus sign. |
| ValidatorProperties.GeneratedCodeShape | src/main/java/it/codicefiscale/CodiceFiscaleValidator.java:369-402 | For a found place code of one letter and three digits, generation succeeds. The result has 16 characters and ends in the check character of the other 15. It matches the pattern, is not a homograph code, and normalisation, upper-casing and trimming leave it unchanged. |
| ValidatorProperties.GeneratedDateRoundTrip | src/main/java/it/codicefiscale/CodiceFiscaleValidator.java:341-360 | The date decoded from a generated code has the birth month and day, and the year the century rule gives for its two digits. It is exactly the birth date when the birth year is in the previous century. |
| ValidatorProperties.GenerateThenValida | src/main/java/it/codicefiscale/CodiceFiscaleValidator.java:189-298 | A generated code whose decoded date exists, with a known place, passes `validaFormato` and `valida` as "Codice fiscale valido", not homograph. |
| ValidatorProperties.HomographVariantThenValida | src/main/java/it/codicefiscale/CodiceFiscaleValidator.java:263-298 | A homograph code matching the pattern whose normal form is the generated code passes `valida` with the homograph message and flag. |
| ValidatorProperties.GeneratedHomographThenValida | src/main/java/it/codicefiscale/CodiceFiscaleValidator.java:136-298 | Writing any one digit of a generated code at a numeric offset as its homograph letter gives a code that `valida` accepts as a homograph code. |
| ValidatorProperties.GenerateThenThrow | src/main/java/it/codicefiscale/CodiceFiscaleValidator.java:208-215 | When the decoded date of a generated code does not exist, both `validaFormato` and `valida` throw `DateTimeException`. |
| ValidatorProperties.LeapDay2000Throws | src/main/java/it/codicefiscale/CodiceFiscaleValidator.java:352-359 | A person born on 29 February 2000, checked in 2000-2099, gets a code that is decoded as 29 February 1900. Both calls throw. |
| ValidatorProperties.WrongCheckCharacter | src/main/java/it/codicefiscale/CodiceFiscaleValidator.java:233-242 | Any other capital letter after the generated 15 characters gives `CARATTERE_CONTROLLO_ERRATO`. |
| ValidatorProperties.UnknownPlaceCode | src/main/java/it/codicefiscale/CodiceFiscaleValidator.java:217-225 | Generated fields followed by a place code the store does not know give `COMUNE_NON_VALIDO`, whatever the last letter. |
| Scenarios.GeneratedTestCode | src/test/java/it/codicefiscale/CodiceFiscaleValidatorTest.java:24-34 | Mario Rossi, born in Rome on 1 August 1985, gets RSSMRA85M01H501Q. |
| Scenarios.ValidTestCode | src/test/java/it/codicefiscale/CodiceFiscaleValidatorTest.java:23-49 | RSSMRA85M01H501Q with that data is valid, with "Codice fiscale valido", no error and not homograph. |
| Scenarios.InvalidFormat | src/test/java/it/codicefiscale/CodiceFiscaleValidatorTest.java:51-67 | "INVALID" gives `FORMATO_NON_VALIDO` with the format message. |
| Scenarios.WrongControlCharacter | src/test/java/it/codicefiscale/CodiceFiscaleValidatorTest.java:69-87 | RSSMRA85M01H501X gives `CARATTERE_CONTROLLO_ERRATO`. |
| Scenarios.UnknownComune | src/test/java/it/codicefiscale/CodiceFiscaleValidatorTest.java:89-107 | RSSMRA85M01H999Z gives `COMUNE_NON_VALIDO` with the message naming H999. |
| Scenarios.TestCodeNormalizesToItself | src/test/java/it/codicefiscale/CodiceFiscaleValidatorTest.java:109-114 | The test code is left unchanged by `normalizzaCF` and is not a homograph code. |
| Scenarios.HomographTestCode | src/main/java/it/codicefiscale/CodiceFiscaleValidator.java:263-298 | RSSMRA85M01H50MQ with the test data is valid, with "Codice fiscale omocodico valido" and the homograph flag. |

## Left out

- Null arguments are modelled only for the code passed to `validaFormato` and `valida` (an `Option`). The personal-data strings and the birth date are always non-null. Not modelled:
  - the null checks of `normalizzaCF`, `isOmocodico` and `DatabaseManager`;
  - the `NullPointerException` that a null name, surname or birth date raises inside `generaCodiceFiscale` (lines 374-380 of `CodiceFiscaleValidator.java`). The catch at line 403 turns it into null, so `valida` would report `DATI_ANAGRAFICI_NON_CORRISPONDENTI` with the message that the code cannot be generated.
- `toUpperCase`, `trim`, `Character.isDigit` and `Character.getNumericValue` are modelled for ASCII only. Upper-casing maps exactly a-z to A-Z, which is what the no-argument `toUpperCase()` does under a default locale other than Turkish or Azeri. Under those locales `i` becomes U+0130, so a lower-case code containing `i` fails the format check, and an `i` in a name is no longer counted as a vowel. Trimming removes characters up to U+0020. Non-ASCII upper-casing and Unicode digits are not modelled.
- The cache, the JDBC connection, the singleton, `close`, `reset` and `isComuneValido` of `DatabaseManager` are not modelled. The store is an oracle over already normalised keys, and an `SQLException` is its `Failed` answer. `DatabaseInitializer` and `Main` are not part of this model.
- The current year, read with `LocalDate.now()` twice in `estraiDataNascita`, is one parameter. This means both reads return the same year.
- The regular expression is modelled by its meaning per position (`Validator.MatchesPattern`), not as a regular-expression engine.
- `Validator.IsPlaceCode`: the generation round-trip lemmas need a found place code to be one capital letter and three digits, which the place table holds. A store answering any other code is outside those lemmas.
- Logging and the temporary prints of the tests are not modelled.
- Two comments in `CodiceFiscaleValidator.java` describe behaviour the code does not have. The model follows the code:
  - **Date errors.** The Javadoc at line 339 says `estraiDataNascita` throws `DateTimeParseException`, and the catch at line 210 names that exception. `LocalDate.of` throws `DateTimeException` instead, so an impossible date escapes `validaFormato` and `DATA_NON_VALIDA` is never produced.
  - **Century rule.** The comment at line 351 says the century is 1900 or 2000. The code at lines 352-356 always places the year in the century before the current one.
- Two behaviours of the code as written, which the model keeps:
  - **Raw input in `valida`.** `valida` normalises and compares the argument exactly as given (lines 274-287), not the upper-cased, trimmed form that `validaFormato` checked.
  - **Month letter.** The regular expression at line 22 admits any capital letter as the month letter. A letter outside `MESI` then decodes to month 0, and `LocalDate.of` throws `DateTimeException`.

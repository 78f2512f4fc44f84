/**
 * The place-code store behind DatabaseManager, as an oracle. The store is
 * given by its two queries, each of which answers or fails (the SQLException
 * path). DatabaseManager upper-cases and trims every key before querying;
 * that normalisation is modelled here, the cache, the JDBC connection and the
 * singleton are not.
 */
module Places {
  import opened Wrappers
  import opened JavaLang

  /** The answer of one query, or the failure message of the SQLException it threw. */
  datatype Lookup<T> = Answer(value: T) | Failed(message: string)

  datatype PlaceRegistry = PlaceRegistry(
    /** The most recent place code of (province code, place name), or None; keys already normalised. */
    byProvinceAndName: (string, string) -> Lookup<Option<string>>,
    /** Whether some row carries this place code; key already normalised. */
    byCode: string -> Lookup<bool>)

  /** toUpperCase() followed by trim(), as applied to every key. */
  function NormalizeKey(s: string): string
  {
    Trim(UpperAscii(s))
  }

  /** DatabaseManager.getCodiceBelfiore */
  function GetCodiceBelfiore(reg: PlaceRegistry, siglaProvincia: string, denominazione: string): Lookup<Option<string>>
  {
    reg.byProvinceAndName(NormalizeKey(siglaProvincia), NormalizeKey(denominazione))
  }

  /** DatabaseManager.isCodiceBelfioreValido */
  function IsCodiceBelfioreValido(reg: PlaceRegistry, codiceBelfiore: string): Lookup<bool>
  {
    reg.byCode(NormalizeKey(codiceBelfiore))
  }

  /** Normalising a key twice is normalising it once. */
  lemma NormalizeKeyIdempotent(s: string)
    ensures NormalizeKey(NormalizeKey(s)) == NormalizeKey(s)
  {
    var x := UpperAscii(s);
    var t := Trim(x);
    TrimIsSlice(x);
    assert forall i :: 0 <= i < |t| ==> !IsLower(t[i]);
    assert UpperAscii(t) == t;
    TrimNoBlankEnds(t);
  }

  /** Both queries ignore case and surrounding blanks: an already normalised key gives the same answer. */
  lemma LookupsIgnoreCaseAndBlanks(reg: PlaceRegistry, provincia: string, luogo: string, codice: string)
    ensures GetCodiceBelfiore(reg, NormalizeKey(provincia), NormalizeKey(luogo)) == GetCodiceBelfiore(reg, provincia, luogo)
    ensures IsCodiceBelfioreValido(reg, NormalizeKey(codice)) == IsCodiceBelfioreValido(reg, codice)
  {
    NormalizeKeyIdempotent(provincia);
    NormalizeKeyIdempotent(luogo);
    NormalizeKeyIdempotent(codice);
  }
}

/**
 * The three-letter codes for surname and given name (generaCodice and its
 * two wrappers). Non-letters are dropped and the rest upper-cased; the
 * consonants come first, in order, then the vowels, then 'X' as filler, and
 * the first three characters are kept. For a given name with more than three
 * consonants only the first, third and fourth consonants are used.
 */
module CodiceNome {
  import opened JavaLang

  const CONSONANTI: string := "BCDFGHJKLMNPQRSTVWXYZ"
  const VOCALI: string := "AEIOU"

  /** testo.replaceAll("[^a-zA-Z]", ""): the ASCII letters of s, in order. */
  function OnlyLetters(s: string): string
  {
    if s == [] then []
    else OnlyLetters(s[..|s| - 1]) + (if IsAsciiLetter(s[|s| - 1]) then [s[|s| - 1]] else [])
  }

  /** The characters of s that occur in alphabet, in order. */
  function Only(s: string, alphabet: string): string
  {
    if s == [] then []
    else Only(s[..|s| - 1], alphabet) + (if s[|s| - 1] in alphabet then [s[|s| - 1]] else [])
  }

  /** The upper-cased letters generaCodice works on. */
  function Letters(testo: string): string
  {
    UpperAscii(OnlyLetters(testo))
  }

  function Consonants(testo: string): string
  {
    Only(Letters(testo), CONSONANTI)
  }

  function Vowels(testo: string): string
  {
    Only(Letters(testo), VOCALI)
  }

  /** The consonants used: for a given name with more than three, the first, third and fourth. */
  function ConsonantiFinali(consonanti: string, isNome: bool): string
  {
    if isNome && |consonanti| > 3 then [consonanti[0], consonanti[2], consonanti[3]] else consonanti
  }

  /** The code generaCodice returns. */
  function NameCode(testo: string, isNome: bool): string
  {
    (ConsonantiFinali(Consonants(testo), isNome) + Vowels(testo) + "XXX")[..3]
  }

  /** generaCodice: splits the letters into two builders, joins them and pads with 'X'. */
  method GeneraCodice(testo: string, isNome: bool) returns (r: string)
    ensures r == NameCode(testo, isNome)
  {
    var t := UpperAscii(OnlyLetters(testo));
    var consonanti := "";
    var vocali := "";
    for i := 0 to |t|
      invariant consonanti == Only(t[..i], CONSONANTI)
      invariant vocali == Only(t[..i], VOCALI)
    {
      var c := t[i];
      OnlyStep(t, i, CONSONANTI);
      OnlyStep(t, i, VOCALI);
      // CONSONANTI.indexOf(c) >= 0, VOCALI.indexOf(c) >= 0
      if c in CONSONANTI {
        AlphabetsDisjoint(c);
        consonanti := consonanti + [c];
      } else if c in VOCALI {
        vocali := vocali + [c];
      }
    }
    assert t[..|t|] == t;
    assert consonanti == Consonants(testo) && vocali == Vowels(testo);
    var consonantiFinali := consonanti;
    if isNome && |consonantiFinali| > 3 {
      consonantiFinali := [consonantiFinali[0], consonantiFinali[2], consonantiFinali[3]];
    }
    assert consonantiFinali == ConsonantiFinali(Consonants(testo), isNome);
    var base := consonantiFinali + vocali;
    var risultato := base;
    ghost var padding := 0;
    while |risultato| < 3
      invariant risultato == base + Filler(padding)
      invariant padding > 0 ==> |risultato| <= 3
      decreases 3 - |risultato|
    {
      risultato := risultato + "X";
      padding := padding + 1;
      FillerStep(padding - 1);
    }
    r := risultato[..3];
    PaddedToThree(base, padding);
  }

  /** n filler characters 'X'. */
  function Filler(n: nat): string
  {
    seq(n, _ => 'X')
  }

  lemma FillerStep(n: nat)
    ensures Filler(n + 1) == Filler(n) + "X"
  {
  }

  /** One more character of t extends the characters of each alphabet by at most that character. */
  lemma OnlyStep(t: string, i: nat, alphabet: string)
    requires i < |t|
    ensures Only(t[..i + 1], alphabet) == Only(t[..i], alphabet) + if t[i] in alphabet then [t[i]] else []
  {
    assert t[..i + 1][..i] == t[..i];
  }

  /** The outcome of the padding loop: base followed by 'X' up to three characters, cut at three. */
  lemma PaddedToThree(base: string, padding: nat)
    requires |base| + padding >= 3
    requires padding > 0 ==> |base| + padding <= 3
    ensures (base + Filler(padding))[..3] == (base + "XXX")[..3]
  {
    assert forall i :: 0 <= i < 3 ==> (base + Filler(padding))[i] == (base + "XXX")[i];
  }

  /** generaCodiceCognome */
  method GeneraCodiceCognome(cognome: string) returns (r: string)
    ensures r == NameCode(cognome, false)
  {
    r := GeneraCodice(cognome, false);
  }

  /** generaCodiceNome */
  method GeneraCodiceNome(nome: string) returns (r: string)
    ensures r == NameCode(nome, true)
  {
    r := GeneraCodice(nome, true);
  }

  // ---------------------------------------------------------------------------
  // Properties

  /** The vowels are A, E, I, O, U and the consonants every other capital letter. */
  lemma AlphabetsPartitionLetters(c: char)
    ensures c in VOCALI <==> c == 'A' || c == 'E' || c == 'I' || c == 'O' || c == 'U'
    ensures c in CONSONANTI <==> IsUpper(c) && c !in VOCALI
  {
    if IsUpper(c) && c !in VOCALI {
      assert c == CONSONANTI[IndexOfLetter(c)];
    }
  }

  /** Where a capital letter that is not a vowel sits in CONSONANTI. */
  function IndexOfLetter(c: char): (k: int)
    requires IsUpper(c) && c !in VOCALI
    ensures 0 <= k < |CONSONANTI|
  {
    var n := c as int - 'A' as int;
    if c < 'E' then n - 1 else if c < 'I' then n - 2 else if c < 'O' then n - 3 else if c < 'U' then n - 4 else n - 5
  }

  /** No letter is both a consonant and a vowel, and both alphabets hold capital letters only. */
  lemma AlphabetsDisjoint(c: char)
    ensures c in CONSONANTI ==> c !in VOCALI && IsUpper(c)
    ensures c in VOCALI ==> IsUpper(c)
  {
    if c in VOCALI {
      assert c == 'A' || c == 'E' || c == 'I' || c == 'O' || c == 'U';
    }
  }

  lemma {:induction false} OnlyWithin(s: string, alphabet: string)
    ensures |Only(s, alphabet)| <= |s|
    ensures forall i :: 0 <= i < |Only(s, alphabet)| ==> Only(s, alphabet)[i] in alphabet
  {
    if s != [] {
      OnlyWithin(s[..|s| - 1], alphabet);
    }
  }

  /** The code is always three capital letters. */
  lemma NameCodeIsThreeLetters(testo: string, isNome: bool)
    ensures |NameCode(testo, isNome)| == 3
    ensures forall i :: 0 <= i < 3 ==> IsUpper(NameCode(testo, isNome)[i])
  {
    OnlyWithin(Letters(testo), CONSONANTI);
    OnlyWithin(Letters(testo), VOCALI);
    var c := ConsonantiFinali(Consonants(testo), isNome);
    var v := Vowels(testo);
    assert forall i :: 0 <= i < |c| ==> c[i] in CONSONANTI;
    var w := c + v + "XXX";
    forall i | 0 <= i < |w| ensures IsUpper(w[i]) {
      if i < |c| {
        AlphabetsDisjoint(c[i]);
      } else if i < |c| + |v| {
        AlphabetsDisjoint(v[i - |c|]);
      }
    }
    assert NameCode(testo, isNome) == w[..3];
  }

  /** The consonants first, then the vowels, then 'X', as far as three characters. */
  lemma NameCodeLayout(testo: string, isNome: bool, i: int)
    requires 0 <= i < 3
    requires !isNome || |Consonants(testo)| <= 3
    ensures var c, v := Consonants(testo), Vowels(testo);
            NameCode(testo, isNome)[i] ==
              if i < |c| then c[i] else if i - |c| < |v| then v[i - |c|] else 'X'
  {
  }

  /** A surname with at least three consonants gives its first three consonants. */
  lemma SurnameFirstThreeConsonants(cognome: string)
    requires |Consonants(cognome)| >= 3
    ensures NameCode(cognome, false) == Consonants(cognome)[..3]
  {
  }

  /** A given name with more than three consonants gives its consonants 1, 3 and 4. */
  lemma NameFirstThirdFourthConsonants(nome: string)
    requires |Consonants(nome)| > 3
    ensures var c := Consonants(nome); NameCode(nome, true) == [c[0], c[2], c[3]]
  {
  }

  /** A text made of letters only keeps all of them. */
  lemma {:induction false} OnlyLettersOfLetters(s: string)
    requires forall i :: 0 <= i < |s| ==> IsAsciiLetter(s[i])
    ensures OnlyLetters(s) == s
  {
    if s != [] {
      OnlyLettersOfLetters(s[..|s| - 1]);
      assert s == s[..|s| - 1] + [s[|s| - 1]];
    }
  }

  lemma {:induction false} OnlyLettersConcat(a: string, b: string)
    ensures OnlyLetters(a + b) == OnlyLetters(a) + OnlyLetters(b)
  {
    if b != [] {
      assert (a + b)[..|a + b| - 1] == a + b[..|b| - 1];
      OnlyLettersConcat(a, b[..|b| - 1]);
    } else {
      assert a + b == a;
    }
  }

  /** A character that is not an ASCII letter makes no difference anywhere in the text. */
  lemma NonLettersIgnored(a: string, c: char, b: string, isNome: bool)
    requires !IsAsciiLetter(c)
    ensures NameCode(a + [c] + b, isNome) == NameCode(a + b, isNome)
  {
    OnlyLettersConcat(a + [c], b);
    OnlyLettersConcat(a, [c]);
    OnlyLettersConcat(a, b);
    assert OnlyLetters([c]) == [];
    assert Letters(a + [c] + b) == Letters(a + b);
  }

  lemma {:induction false} OnlyLettersUpper(s: string)
    ensures OnlyLetters(UpperAscii(s)) == UpperAscii(OnlyLetters(s))
  {
    if s != [] {
      assert UpperAscii(s)[..|s| - 1] == UpperAscii(s[..|s| - 1]);
      OnlyLettersUpper(s[..|s| - 1]);
    }
  }

  /** Upper-casing the text first, as generaCodiceFiscale does, changes nothing. */
  lemma NameCodeIgnoresCase(testo: string, isNome: bool)
    ensures NameCode(UpperAscii(testo), isNome) == NameCode(testo, isNome)
  {
    OnlyLettersUpper(testo);
    UpperAsciiIdempotent(OnlyLetters(testo));
  }
}

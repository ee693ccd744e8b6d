/**
 * The lexical features of a target word or phrase: consonant frequency,
 * syllable count and word shape, with the language dispatch the last two share.
 *
 * The hyphenation dictionary and the linguistic-analysis pipeline are foreign
 * libraries; they enter as function parameters:
 *   hyphenate(code, token)  -- what the dictionary for `code` inserts into `token`
 *   shapes(code, text)      -- the shape of each token the pipeline for `code` finds in `text`
 */
module LexicalFeatures {
  import opened Wrappers
  import opened PyStrings

  /** The exceptions the features raise. */
  datatype Error =
    | UnsupportedLanguage(language: string)  // ValueError, naming the offending language
    | EmptyDoc                               // IndexError from taking the first token of an empty analysis

  const SupportedLanguages: set<string> := {"english", "spanish", "german"}

  // ---------------------------------------------------------------------------
  // Language dispatch

  /** The two-letter resource code of a language, or None when it is not supported. */
  function LangCode(language: string): (r: Option<string>)
    ensures r.Some? <==> language in SupportedLanguages
    ensures r.Some? ==> |r.value| == 2
  {
    if language == "english" then Some("en")
    else if language == "spanish" then Some("es")
    else if language == "german" then Some("de")
    else None
  }

  /** Different supported languages select different resources. */
  lemma LangCodeInjective(a: string, b: string)
    requires LangCode(a).Some? && LangCode(a) == LangCode(b)
    ensures a == b
  {
  }

  /** The match is exact: no case folding, no trimming. */
  lemma LangCodeExact()
    ensures LangCode("english") == Some("en")
    ensures LangCode("spanish") == Some("es")
    ensures LangCode("german") == Some("de")
    ensures LangCode("English") == None && LangCode("english ") == None
    ensures LangCode("french") == None && LangCode("") == None
  {
  }

  // ---------------------------------------------------------------------------
  // Consonant frequency

  /** The fixed character set the source (mis)names `consonants`: the lowercase vowels. */
  const Vowels: set<char> := {'a', 'e', 'i', 'o', 'u'}

  /** The characters of `s` kept by the filter `letter not in consonants`, in order. */
  function NonVowels(s: string): (r: string)
    ensures |r| <= |s|
    ensures forall i :: 0 <= i < |r| ==> r[i] !in Vowels
  {
    if s == [] then []
    else if s[0] in Vowels then NonVowels(s[1..])
    else [s[0]] + NonVowels(s[1..])
  }

  /** The filter keeps every occurrence of every other character and no vowel. */
  lemma {:induction false} NonVowelsContent(s: string)
    ensures forall c :: c !in Vowels ==> multiset(NonVowels(s))[c] == multiset(s)[c]
    ensures forall c :: c in Vowels ==> multiset(NonVowels(s))[c] == 0
  {
    if s != [] {
      NonVowelsContent(s[1..]);
      assert s == [s[0]] + s[1..];
    }
  }

  /** The count of kept characters is bounded by the length, and its extremes are exact. */
  lemma {:induction false} NonVowelsLength(s: string)
    ensures |NonVowels(s)| <= |s|
    ensures |NonVowels(s)| == |s| <==> forall i :: 0 <= i < |s| ==> s[i] !in Vowels
    ensures |NonVowels(s)| == 0 <==> forall i :: 0 <= i < |s| ==> s[i] in Vowels
  {
    if s != [] {
      NonVowelsLength(s[1..]);
      assert forall i :: 1 <= i < |s| ==> s[i] == s[1..][i - 1];
    }
  }

  /** How many characters of `s` are lowercase vowels, counted with multiplicity. */
  function VowelOccurrences(s: string): nat {
    var m := multiset(s);
    m['a'] + m['e'] + m['i'] + m['o'] + m['u']
  }

  /** What the filter drops is exactly the vowel occurrences. */
  lemma {:induction false} NonVowelsCount(s: string)
    ensures |NonVowels(s)| + VowelOccurrences(s) == |s|
  {
    if s != [] {
      NonVowelsCount(s[1..]);
      assert s == [s[0]] + s[1..];
    }
  }

  /** The filter works character by character. */
  lemma {:induction false} NonVowelsAppend(a: string, b: string)
    ensures NonVowels(a + b) == NonVowels(a) + NonVowels(b)
  {
    if a == [] {
      assert a + b == b;
    } else {
      assert (a + b)[0] == a[0];
      assert (a + b)[1..] == a[1..] + b;
      NonVowelsAppend(a[1..], b);
    }
  }

  /** The facts about an exact fraction `kept / total` of a whole that the frequency needs. */
  lemma RatioFacts(kept: nat, total: nat, r: real)
    requires kept <= total && 0 < total
    requires r == (kept as real) / (total as real)
    ensures 0.0 <= r <= 1.0
    ensures r == 1.0 <==> kept == total
    ensures r == 0.0 <==> kept == 0
    ensures r * (total as real) == kept as real
  {
  }

  /**
   * consonant_frequency: the share of characters of `s` that are not lowercase
   * vowels, over the raw length. Empty input divides by zero, so it is excluded.
   */
  function ConsonantFrequency(s: string): (r: real)
    requires |s| > 0
    ensures 0.0 <= r <= 1.0
    ensures r == 1.0 <==> forall i :: 0 <= i < |s| ==> s[i] !in Vowels
    ensures r == 0.0 <==> forall i :: 0 <= i < |s| ==> s[i] in Vowels
  {
    var kept := |NonVowels(s)|;
    NonVowelsLength(s);
    var r := (kept as real) / (|s| as real);
    RatioFacts(kept, |s|, r);
    r
  }

  /** The frequency is the number of characters that are not lowercase vowels over the length. */
  lemma ConsonantFrequencyCount(s: string)
    requires |s| > 0
    ensures ConsonantFrequency(s) == ((|s| - VowelOccurrences(s)) as real) / (|s| as real)
  {
    NonVowelsCount(s);
    assert (|NonVowels(s)| as real) == (|s| - VowelOccurrences(s)) as real;
  }

  /** A word with no lowercase vowel is all consonants. */
  lemma ConsonantFrequencySky()
    ensures ConsonantFrequency("sky") == 1.0
  {
    assert "y"[1..] == [] && NonVowels("y") == "y";
    assert "ky"[1..] == "y" && NonVowels("ky") == "ky";
    assert "sky"[1..] == "ky" && NonVowels("sky") == "sky";
  }

  /** A word of lowercase vowels only has none. */
  lemma ConsonantFrequencyVowels()
    ensures ConsonantFrequency("aeiou") == 0.0
  {
    assert "u"[1..] == [] && NonVowels("u") == [];
    assert "ou"[1..] == "u" && NonVowels("ou") == [];
    assert "iou"[1..] == "ou" && NonVowels("iou") == [];
    assert "eiou"[1..] == "iou" && NonVowels("eiou") == [];
    assert "aeiou"[1..] == "eiou" && NonVowels("aeiou") == [];
  }

  /** Three of the five characters of "hello" are kept. */
  lemma ConsonantFrequencyHello()
    ensures ConsonantFrequency("hello") == 0.6
  {
    assert "o"[1..] == [] && NonVowels("o") == [];
    assert "lo"[1..] == "o" && NonVowels("lo") == "l";
    assert "llo"[1..] == "lo" && NonVowels("llo") == "ll";
    assert "ello"[1..] == "llo" && NonVowels("ello") == "ll";
    assert "hello"[1..] == "ello" && NonVowels("hello") == "hll";
  }

  /** The input is never lowercased: uppercase vowels count as consonants. */
  lemma ConsonantFrequencyUppercase()
    ensures ConsonantFrequency("AEIOU") == 1.0
  {
    assert "U"[1..] == [] && NonVowels("U") == "U";
    assert "OU"[1..] == "U" && NonVowels("OU") == "OU";
    assert "IOU"[1..] == "OU" && NonVowels("IOU") == "IOU";
    assert "EIOU"[1..] == "IOU" && NonVowels("EIOU") == "EIOU";
    assert "AEIOU"[1..] == "EIOU" && NonVowels("AEIOU") == "AEIOU";
  }

  /** Spaces and punctuation count too, and the length is the raw length. */
  lemma ConsonantFrequencyPunctuation()
    ensures ConsonantFrequency("a e!") == 0.5
  {
    assert "!"[1..] == [] && NonVowels("!") == "!";
    assert "e!"[1..] == "!" && NonVowels("e!") == "!";
    assert " e!"[1..] == "e!" && NonVowels(" e!") == " !";
    assert "a e!"[1..] == " e!" && NonVowels("a e!") == " !";
  }

  // ---------------------------------------------------------------------------
  // Syllables

  /** len(hyphenated.split('-')): one more than the number of hyphens inserted. */
  function PieceCount(hyphenated: string): (n: nat)
    ensures n >= 1
    ensures n == multiset(hyphenated)['-'] + 1
  {
    SplitOnCount(hyphenated, '-');
    |SplitOn(hyphenated, '-')|
  }

  /** The total piece count of `tokens` hyphenated with the dictionary for `code`. */
  function SumPieces(hyphenate: (string, string) -> string, code: string, tokens: seq<string>): (n: nat)
    ensures n >= |tokens|
  {
    if tokens == [] then 0
    else
      SumPieces(hyphenate, code, tokens[..|tokens| - 1])
      + PieceCount(hyphenate(code, tokens[|tokens| - 1]))
  }

  /** Piece counts of concatenated token lists add up. */
  lemma {:induction false} SumPiecesAppend(hyphenate: (string, string) -> string, code: string, a: seq<string>, b: seq<string>)
    ensures SumPieces(hyphenate, code, a + b) == SumPieces(hyphenate, code, a) + SumPieces(hyphenate, code, b)
    decreases |b|
  {
    if b == [] {
      assert a + b == a;
    } else {
      var ab := a + b;
      var last := PieceCount(hyphenate(code, b[|b| - 1]));
      assert ab[..|ab| - 1] == a + b[..|b| - 1];
      assert ab[|ab| - 1] == b[|b| - 1];
      assert SumPieces(hyphenate, code, ab) == SumPieces(hyphenate, code, a + b[..|b| - 1]) + last;
      assert SumPieces(hyphenate, code, b) == SumPieces(hyphenate, code, b[..|b| - 1]) + last;
      SumPiecesAppend(hyphenate, code, a, b[..|b| - 1]);
    }
  }

  /** num_syllables as a value: the dispatch error, or the summed piece counts of the tokens. */
  function Syllables(targetWord: string, language: string, hyphenate: (string, string) -> string): (r: Result<nat, Error>)
    ensures r.Err? <==> language !in SupportedLanguages
    ensures r.Err? ==> r.error == UnsupportedLanguage(language)
    ensures r.Ok? ==> r.value >= |Split(targetWord)|
  {
    match LangCode(language)
    case None => Err(UnsupportedLanguage(language))
    case Some(code) => Ok(SumPieces(hyphenate, code, Split(targetWord)))
  }

  /**
   * num_syllables: reject an unsupported language before counting, then add
   * up the hyphenated pieces of every whitespace-separated token.
   */
  method NumSyllables(targetWord: string, language: string, hyphenate: (string, string) -> string)
    returns (r: Result<nat, Error>)
    ensures r == Syllables(targetWord, language, hyphenate)
  {
    var code := LangCode(language);
    if code.None? {
      return Err(UnsupportedLanguage(language));
    }
    var tokens := Split(targetWord);
    var count := 0;
    for i := 0 to |tokens|
      invariant count == SumPieces(hyphenate, code.value, tokens[..i])
    {
      assert tokens[..i + 1][..i] == tokens[..i];
      var hyphenated := hyphenate(code.value, tokens[i]);
      count := count + PieceCount(hyphenated);
    }
    assert tokens[..|tokens|] == tokens;
    r := Ok(count);
  }

  /** For a supported language the count is the summed piece count of the split phrase. */
  lemma SyllablesOfCode(targetWord: string, language: string, code: string, hyphenate: (string, string) -> string)
    requires LangCode(language) == Some(code)
    ensures Syllables(targetWord, language, hyphenate) == Ok(SumPieces(hyphenate, code, Split(targetWord)))
  {
  }

  /** Empty or whitespace-only input has no tokens and so no syllables. */
  lemma SyllablesOfBlank(targetWord: string, language: string, hyphenate: (string, string) -> string)
    requires language in SupportedLanguages
    requires forall i :: 0 <= i < |targetWord| ==> IsSpace(targetWord[i])
    ensures Syllables(targetWord, language, hyphenate) == Ok(0)
  {
    SplitEmptyIff(targetWord);
  }

  /** Conversely, a zero count means the input held no token. */
  lemma SyllablesZero(targetWord: string, language: string, hyphenate: (string, string) -> string)
    requires Syllables(targetWord, language, hyphenate) == Ok(0)
    ensures forall i :: 0 <= i < |targetWord| ==> IsSpace(targetWord[i])
  {
    SplitEmptyIff(targetWord);
  }

  /** A single token counts one more than the hyphens the dictionary inserts into it. */
  lemma SyllablesOfToken(token: string, language: string, hyphenate: (string, string) -> string)
    requires IsToken(token)
    requires language in SupportedLanguages
    ensures Syllables(token, language, hyphenate)
         == Ok(multiset(hyphenate(LangCode(language).value, token))['-'] + 1)
  {
    var code := LangCode(language).value;
    SplitToken(token);
    assert [token][..0] == [];
    assert SumPieces(hyphenate, code, [token]) == PieceCount(hyphenate(code, token));
  }

  /** Tokens are counted independently: the count of a phrase is the sum over its halves. */
  lemma SyllablesAdditive(p: string, c: char, q: string, language: string, hyphenate: (string, string) -> string)
    requires IsSpace(c)
    requires language in SupportedLanguages
    ensures Syllables(p, language, hyphenate).Ok? && Syllables(q, language, hyphenate).Ok?
    ensures Syllables(p + [c] + q, language, hyphenate)
         == Ok(Syllables(p, language, hyphenate).value + Syllables(q, language, hyphenate).value)
  {
    var code := LangCode(language).value;
    SplitAppend(p, c, q);
    SumPiecesAppend(hyphenate, code, Split(p), Split(q));
    SyllablesOfCode(p, language, code, hyphenate);
    SyllablesOfCode(q, language, code, hyphenate);
    SyllablesOfCode(p + [c] + q, language, code, hyphenate);
  }

  // ---------------------------------------------------------------------------
  // Word shape

  /**
   * word_shape: reject an unsupported language, then return the shape of the
   * first token the pipeline finds; an analysis with no token fails on the index.
   */
  function WordShape(targetWord: string, language: string, shapes: (string, string) -> seq<string>): (r: Result<string, Error>)
    ensures r == Err(UnsupportedLanguage(language)) <==> language !in SupportedLanguages
    ensures language in SupportedLanguages
        ==> (r == Err(EmptyDoc) <==> |shapes(LangCode(language).value, targetWord)| == 0)
    ensures r.Ok? ==> language in SupportedLanguages && r.value == shapes(LangCode(language).value, targetWord)[0]
    ensures language in SupportedLanguages && |shapes(LangCode(language).value, targetWord)| > 0
        ==> r == Ok(shapes(LangCode(language).value, targetWord)[0])
  {
    match LangCode(language)
    case None => Err(UnsupportedLanguage(language))
    case Some(code) =>
      var doc := shapes(code, targetWord);
      if |doc| == 0 then Err(EmptyDoc) else Ok(doc[0])
  }

  /** Both language-dependent features refuse exactly the same languages, with the same error. */
  lemma SameLanguageCheck(
    word: string, phrase: string, language: string,
    shapes: (string, string) -> seq<string>, hyphenate: (string, string) -> string)
    ensures WordShape(word, language, shapes) == Err(UnsupportedLanguage(language))
        <==> Syllables(phrase, language, hyphenate) == Err(UnsupportedLanguage(language))
  {
  }
}

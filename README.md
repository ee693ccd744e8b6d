# Lexical features of a target word or phrase

A Dafny model of `src/features/lexical_features.py`, the part of the
complex-word-identification features that does its own string processing:

- `consonant_frequency(target_word)`: the share of characters that are not in
  the fixed set `{a, e, i, o, u}` over the raw length. The set is named
  `consonants` in the code but holds the vowels. The input is never lowercased,
  so uppercase vowels, spaces and punctuation are all counted.
- `num_syllables(target_word, language)`: map the language (exactly
  `english`, `spanish` or `german`) to a hyphenation dictionary code (`en`,
  `es`, `de`) or raise `ValueError`; split the phrase with `str.split()`; for
  each token add `len(hyphenated.split('-'))` to an accumulator.
- `word_shape(target_word, language)`: the same language check, then the
  shape of the first token of the analysed text.

Files:

- `wrappers.dfy` (module `Wrappers`): `Option` and `Result`. An `Err` result
  stands for a raised exception.
- `py_strings.dfy` (module `PyStrings`): Python 3's `str.split()` with no
  argument (`Split`), `str.split(sep)` with a one-character separator
  (`SplitOn`) and `sep.join` (`Join`), with their round trips and
  concatenation laws.
- `lexical_features.dfy` (module `LexicalFeatures`): the shared language
  dispatch `LangCode`, `ConsonantFrequency`, the syllable count as a
  specification function `Syllables` and as the accumulating loop
  `NumSyllables`, and `WordShape`.

The two foreign libraries are function parameters:

- `hyphenate(code, token)` is what the pyphen dictionary for `code` returns
  from `inserted(token)`. Nothing is assumed about it beyond returning a string.
- `shapes(code, text)` is the list of `shape_` values of the tokens that
  `spacy.load(code)` finds in `text`. Nothing is assumed about it.

The frequency is an exact `real`, `count / length`, not an IEEE double.

Points of the code's behaviour that the model keeps as they are:

- The comparison is on the raw character against a lowercase set, so
  uppercase vowels count as consonants.
- `str.split()` splits on any run of Python whitespace and drops empty
  pieces (`PyStrings.IsSpace` lists the characters).
- `doc[0]` on an empty analysis raises `IndexError`, which the model returns
  as `Err(EmptyDoc)`.

## Model

| member | source | states |
|---|---|---|
| `LexicalFeatures.LangCode` | src/features/lexical_features.py:45-53 | a code is returned exactly for the three supported language names, and it has two letters; anything else is the `ValueError` case |
| `LexicalFeatures.LangCodeExact` | src/features/lexical_features.py:45-53 | english, spanish and german map to en, es and de; the match is exact, so "English", "english " and "french" are rejected |
| `LexicalFeatures.LangCodeInjective` | src/features/lexical_features.py:45-53 | two supported languages that select the same resource are the same language |
| `LexicalFeatures.NonVowelsContent` | src/features/lexical_features.py:24-25 | the filtered list keeps every occurrence of every character outside `{a,e,i,o,u}` (uppercase vowels, spaces, punctuation included) and no lowercase vowel |
| `LexicalFeatures.NonVowelsCount` | src/features/lexical_features.py:24-25 | the numerator is the length minus the number of lowercase-vowel occurrences |
| `LexicalFeatures.NonVowelsLength` | src/features/lexical_features.py:25 | the numerator is at most the length; it equals the length iff no character is a lowercase vowel, and it is 0 iff every character is one |
| `LexicalFeatures.NonVowelsAppend` | src/features/lexical_features.py:25 | the filter works character by character: filtering a concatenation concatenates the filtered parts |
| `LexicalFeatures.NonVowels` | src/features/lexical_features.py:25 | the filtered list is no longer than the input and holds no lowercase vowel (that it keeps every other character is `NonVowelsContent`) |
| `LexicalFeatures.ConsonantFrequency` | src/features/lexical_features.py:24-27 | for non-empty input the result is in [0, 1]; it is 1 iff there is no lowercase vowel and 0 iff every character is a lowercase vowel |
| `LexicalFeatures.ConsonantFrequencyCount` | src/features/lexical_features.py:24-25 | the result is (length minus the number of lowercase-vowel occurrences) divided by the raw length |
| `LexicalFeatures.ConsonantFrequencySky` | src/features/lexical_features.py:24-25 | "sky" gives 1 |
| `LexicalFeatures.ConsonantFrequencyVowels` | src/features/lexical_features.py:24-25 | "aeiou" gives 0 |
| `LexicalFeatures.ConsonantFrequencyHello` | src/features/lexical_features.py:24-25 | "hello" gives 0.6 |
| `LexicalFeatures.ConsonantFrequencyUppercase` | src/features/lexical_features.py:24-25 | "AEIOU" gives 1, because the input is not lowercased |
| `LexicalFeatures.ConsonantFrequencyPunctuation` | src/features/lexical_features.py:24-25 | "a e!" gives 0.5: the space and the "!" count, and the length is the raw length |
| `PyStrings.IsSpace` | src/features/lexical_features.py:57 | the whitespace of Python 3's `str.split()`: \t..\r, U+001C..U+001F, space, U+0085, U+00A0, U+1680, U+2000..U+200A, U+2028, U+2029, U+202F, U+205F, U+3000 |
| `PyStrings.IsSpaceAscii` | src/features/lexical_features.py:57 | on ASCII that whitespace is exactly tab, newline, carriage return, vertical tab, form feed, U+001C..U+001F and space |
| `PyStrings.Split` | src/features/lexical_features.py:57 | every piece of `str.split()` is non-empty and holds no whitespace |
| `PyStrings.SplitEmptyIff` | src/features/lexical_features.py:57 | the split is empty iff the input is empty or all whitespace |
| `PyStrings.SplitToken` | src/features/lexical_features.py:57 | a single token splits into itself |
| `PyStrings.SplitAppend` | src/features/lexical_features.py:57 | one whitespace character between two strings makes the split of the whole the splits of the parts, concatenated |
| `PyStrings.SplitSkipsSpace` | src/features/lexical_features.py:57 | leading whitespace of any length is dropped |
| `PyStrings.SplitRun` | src/features/lexical_features.py:57 | a run of whitespace separates exactly like one whitespace character |
| `PyStrings.SplitJoin` | src/features/lexical_features.py:57 | tokens joined with a whitespace character split back into the same tokens |
| `PyStrings.SplitOn` | src/features/lexical_features.py:59 | `split('-')` always gives at least one piece, and no piece holds the separator |
| `PyStrings.SplitOnCount` | src/features/lexical_features.py:59 | `split('-')` gives one more piece than there are `'-'` characters |
| `PyStrings.JoinSplitOn` | src/features/lexical_features.py:59 | joining the pieces with the separator restores the string |
| `PyStrings.SplitOnAppend` | src/features/lexical_features.py:59 | a separator between two strings makes the pieces of the whole the pieces of the parts, concatenated |
| `PyStrings.SplitOnFree` | src/features/lexical_features.py:59 | a string without the separator is a single piece |
| `PyStrings.SplitOnJoin` | src/features/lexical_features.py:59 | separator-free pieces joined with the separator split back into the same pieces |
| `LexicalFeatures.PieceCount` | src/features/lexical_features.py:59 | a token contributes 1 plus the number of `'-'` its hyphenated form holds, so at least 1 |
| `LexicalFeatures.SumPieces` | src/features/lexical_features.py:55-59 | the summed contribution of a token list is at least its number of tokens |
| `LexicalFeatures.SumPiecesAppend` | src/features/lexical_features.py:57-59 | the sum over a concatenation of token lists is the sum of the two sums |
| `LexicalFeatures.Syllables` | src/features/lexical_features.py:45-61 | the result is an error iff the language is not one of the three, and that error is `UnsupportedLanguage` naming it; otherwise it is at least the number of whitespace tokens |
| `LexicalFeatures.NumSyllables` | src/features/lexical_features.py:30-61 | the dispatch followed by the accumulating loop over `split()` computes exactly `Syllables` |
| `LexicalFeatures.SyllablesOfBlank` | src/features/lexical_features.py:55-57 | empty or whitespace-only input gives 0 for a supported language |
| `LexicalFeatures.SyllablesZero` | src/features/lexical_features.py:55-59 | a count of 0 only comes from empty or whitespace-only input |
| `LexicalFeatures.SyllablesOfToken` | src/features/lexical_features.py:57-59 | a single token counts 1 plus the number of `'-'` the dictionary inserts into it |
| `LexicalFeatures.SyllablesAdditive` | src/features/lexical_features.py:57-61 | for a supported language the count of `p + c + q`, with `c` whitespace, is the count of `p` plus the count of `q` |
| `LexicalFeatures.WordShape` | src/features/lexical_features.py:77-93 | the result is `UnsupportedLanguage` iff the language is not one of the three; for a supported language it is `EmptyDoc` iff the analysis has no token, and otherwise it is `Ok` with the shape of the first token |
| `LexicalFeatures.SameLanguageCheck` | src/features/lexical_features.py:77-87 | `word_shape` and `num_syllables` raise the unsupported-language error for exactly the same languages, whatever the other inputs |

## Left out

- `src/features/file_io.py` `read_file`: file I/O, CSV parsing and `float()` parsing of text. Its only own logic is that a later duplicate key overwrites an earlier one, which is plain dictionary assignment.
- The pyphen hyphenation patterns: a foreign library, abstracted as the `hyphenate` parameter with no constraint on what it inserts.
- SpaCy's model loading, tokenisation and shape alphabet: a foreign library, abstracted as the `shapes` parameter.
- Loading a fresh dictionary or pipeline on every call: a resource effect with no bearing on the results.
- The text of the `ValueError` message: the model's error carries the offending language, which is what the message mentions.
- Floating-point rounding of the division in `consonant_frequency`: the result is an exact real.
- ConsonantFrequency: empty input requires `|s| > 0` rather than returning an error, because the code does not handle it and simply fails with `ZeroDivisionError`.
- Python 2 string semantics: the model follows Python 3, where `str.split()` splits on Unicode whitespace. A Dafny `char` is a Unicode scalar value, so the lone surrogates a Python 3 `str` may hold (for example after `surrogateescape` decoding) cannot be represented. Under Python 2, `len(...) / len(...)` would be floor division of integers; the exact real follows Python 3's true division.

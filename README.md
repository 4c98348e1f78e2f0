# String analyzer service: a Dafny model

This project models the core of a small HTTP service. The service stores submitted strings, computes properties of each one, and answers filtered queries over the stored set. It has four parts:

- **Analyzer** (`analyzer.dfy`, from `helper-fns/analyze-strs.js`). For each stored string it computes:
  - the length;
  - a case- and whitespace-insensitive palindrome flag;
  - the number of distinct characters;
  - the number of words;
  - the SHA-256 fingerprint;
  - a character frequency map.
- **Filter evaluator** (`filters.dfy`, from `helper-fns/filters.js`). It keeps the records that meet every constraint present in a filter set, in their original order.
- **Natural-language translator** (`nlquery.dfy`, from `helper-fns/nlquery.js`). It turns a free-text query into a filter set. It applies seven keyword and regular-expression rules in a fixed order, and a later rule overwrites a field an earlier one set.
- **Request handlers and the in-memory store** (`store.dfy`, from `controllers/routeControllers.js`):
  - creating a string;
  - deleting a string;
  - listing strings with validated query parameters;
  - listing strings by a natural-language query, including its conflict test.

`text.dfy` states the parts of the JavaScript string library the service relies on, over `string`. These are the `\s` class, `toLowerCase`, `includes`, `split("").reverse()`, `trim` and `parseInt`. `wrappers.dfy` holds `Option`.

How the model is built:

- **The store.** The store is a `Map` from fingerprint to record. It is modelled as the sequence of its values in insertion order, which is the order `Array.from(strings.values())` sees. It lives in the class `StringStore`, whose `records` field the handlers reassign.
- **Handler methods.** Each handler is a method that is proved equal to a function of the old store: `Create`, `Delete`, `FilterByQuery` or `ListAll`. The lemmas are stated about those functions.
- **Translator and analyzer.**
  - The translator is a straight-line method (`ParseNaturalLanguage`). It is proved equal to a fold of the rule list (`Translate`).
  - The analyzer's frequency loop becomes the method `AnalyzeString`. It is proved equal to `Analysis`.
- **The regular expressions.** Each regular expression is a matcher at one start position, and the capture is taken at the leftmost position that matches. In each pattern, `\d`, `\s` and the letters of the fixed phrases are pairwise disjoint, so every greedy quantifier has only one way to go on. The one real choice is the alternation `(?:the letter |)` of the containing pattern. At "containing the letter x" both branches match: the first captures `x`, the empty one captures `t`. The engine takes the first branch that matches, and so does the matcher.

The conflict test of the natural-language handler is modelled as the code writes it, using JavaScript truthiness: both bounds must be truthy and the minimum must be larger. The handler (controllers/routeControllers.js:61-69) answers "Query parsed but resulted in conflicting filters" only when `min_length && max_length && min_length > max_length`. So a derived maximum of 0 (from "shorter than 1") is falsy, and such a query is answered with an empty list, not a conflict:
- `Store.ConflictIff` states exactly when the conflict answer is given;
- `Store.ZeroMaximumSlipsThrough` and `Store.ZeroMaximumExample` show the gap.

## Model

| member | source | states |
|---|---|---|
| Text.LowerAll | helper-fns/nlquery.js:4 | lower-casing keeps the length and maps every character to its lower-case form (ASCII letters change, everything else stays) |
| Text.LowerAllIdempotent | helper-fns/nlquery.js:4 | lower-casing an already lower-cased text changes nothing |
| Text.ContainsIffOccurs | helper-fns/nlquery.js:7 | `includes` holds exactly when the pattern occurs at some position |
| Text.ContainsNeedsFirstChar | helper-fns/nlquery.js:7 | a text lacking a pattern's first character does not include the pattern |
| Text.ReverseReverse | helper-fns/analyze-strs.js:14 | reversing twice gives the original text back |
| Text.ReverseAt | helper-fns/analyze-strs.js:14 | the k-th character of the reversal is the k-th from the end |
| Text.TrimStart | helper-fns/analyze-strs.js:21 | the result is a suffix, everything cut is whitespace, and it does not start with whitespace |
| Text.TrimEnd | helper-fns/analyze-strs.js:21 | the result is a prefix, everything cut is whitespace, and it does not end with whitespace |
| Text.ParseInt | controllers/routeControllers.js:118-119 | NaN exactly when no number can be read after leading whitespace and one sign; a negative result needs a leading minus |
| Text.ParseIntOfDigits | controllers/routeControllers.js:118 | `parseInt` of a run of decimal digits is their decimal value |
| Text.ParseIntSkipsWhitespace | controllers/routeControllers.js:118 | leading whitespace does not change what `parseInt` returns |
| Text.ParseIntNegative | controllers/routeControllers.js:118-119 | after a leading minus, the result is the negated magnitude of what follows, and no magnitude stays NaN |
| Text.ParseIntDecimalExample | controllers/routeControllers.js:118 | "42" parses as 42 |
| Text.ParseIntIgnoresTrailingExample | controllers/routeControllers.js:118-119 | "12abc" parses as 12, so it passes the handler's NaN test |
| Text.ParseIntHexExample | controllers/routeControllers.js:118 | "0x1f" parses as 31 (the 0x prefix is read as hexadecimal) |
| Text.ParseIntNaNExamples | controllers/routeControllers.js:119 | "abc" and "" are NaN |
| Analyzer.RemoveWhitespace | helper-fns/analyze-strs.js:13 | the result is no longer than the input and holds no whitespace |
| Analyzer.RemoveWhitespaceAppend | helper-fns/analyze-strs.js:13 | removing whitespace distributes over concatenation |
| Analyzer.RemoveWhitespaceOfClean | helper-fns/analyze-strs.js:13 | text without whitespace is left unchanged |
| Analyzer.RemoveWhitespaceReverse | helper-fns/analyze-strs.js:13-14 | removing whitespace commutes with reversal |
| Analyzer.LowerAllReverse | helper-fns/analyze-strs.js:13-14 | lower-casing commutes with reversal |
| Analyzer.IsPalindrome | helper-fns/analyze-strs.js:13-14 | the flag holds exactly when the normalized text has equal characters at every mirrored pair of positions |
| Analyzer.PalindromeOfReverse | helper-fns/analyze-strs.js:13-14 | a value is a palindrome exactly when its reversal is |
| Analyzer.PalindromeExample | helper-fns/analyze-strs.js:12-14 | "A man am a" normalizes to "amanama" and is a palindrome, because case and spaces are ignored |
| Analyzer.UniqueCharacters | helper-fns/analyze-strs.js:17 | there are never more distinct characters than characters, and there are none only for "" |
| Analyzer.WordCount | helper-fns/analyze-strs.js:20-23 | trim, split on `\s+` and count non-empty tokens equals an independent count of maximal non-whitespace runs |
| Analyzer.WordCountBounds | helper-fns/analyze-strs.js:20-23 | the word count is at most the length, and it is 0 exactly when the text is all whitespace |
| Analyzer.Frequencies | helper-fns/analyze-strs.js:29-32 | the map has an entry for exactly the characters occurring in the value, and each count is between 1 and the length |
| Analyzer.FrequenciesAppend | helper-fns/analyze-strs.js:30-31 | one more character bumps its own entry (creating it at 1) and no other |
| Analyzer.FrequencyMapKeys | helper-fns/analyze-strs.js:29-32 | the map's keys are the characters of the value, its size is the unique-character count, and each entry is that character's number of occurrences (at least 1) |
| Analyzer.FrequencyCountsSumToLength | helper-fns/analyze-strs.js:29-32 | the counts add up to the length of the value |
| Analyzer.Analysis | helper-fns/analyze-strs.js:9-42 | the length is the character count, the fingerprint is the digest of the value, distinct characters and words are at most the length, and the frequency map is keyed by the characters |
| Analyzer.AnalysisFacts | helper-fns/analyze-strs.js:9-41 | how the properties of one analysis relate: length, fingerprint, palindrome flag invariant under reversal, bounds on unique characters and words, frequency map keyed by the characters |
| Analyzer.AnalyzeString | helper-fns/analyze-strs.js:9-42 | the for-of loop builds the frequency map of the whole value (loop invariant: the map of the prefix read so far), and the result is the analysis |
| Filters.Keeps | helper-fns/filters.js:3-42 | the chain of early-rejecting guards keeps a record exactly when every present constraint holds |
| Filters.ApplyFilters | helper-fns/filters.js:2-43 | the result is never longer than the input, and every record in it passes the filter set |
| Filters.ApplyFiltersSelects | helper-fns/filters.js:2-43 | the result lists, in increasing order of position, exactly the records that satisfy the filter set |
| Filters.ApplyFiltersMembership | helper-fns/filters.js:2-43 | a record is in the result exactly when it is in the input and satisfies every constraint |
| Filters.ApplyFiltersKeepsAll | helper-fns/filters.js:2-43 | when every record passes, the result is the input |
| Filters.NoFiltersKeepEverything | helper-fns/filters.js:6-41 | an empty filter set keeps every record |
| Filters.ApplyFiltersIdempotent | helper-fns/filters.js:2-43 | filtering twice with the same set gives the same result as filtering once |
| Filters.ApplyFiltersIsSubsequence | helper-fns/filters.js:2-43 | the result is a subsequence of the input, so it is no longer |
| Filters.NarrowerFiltersKeepFewer | helper-fns/filters.js:2-43 | adding constraints never adds records: the narrower result is a subsequence of the wider one |
| Filters.MinAboveMaxKeepsNothing | helper-fns/filters.js:13-25 | a minimum length above the maximum keeps nothing |
| Filters.PalindromeAndLengthExample | helper-fns/filters.js:6-18 | palindromes of length at least 3 are "abba" and not "hello" |
| Filters.ContainsCharacterIsCaseSensitive | helper-fns/filters.js:34-39 | the character test reads the raw text case-sensitively: 'h' does not match "Hello", 'H' does |
| Filters.HelloIsNotPalindrome | helper-fns/analyze-strs.js:13-14 | "hello" is not a palindrome |
| Filters.AbbaIsPalindrome | helper-fns/analyze-strs.js:13-14 | "abba" is a palindrome |
| NlQuery.ParseNaturalLanguage | helper-fns/nlquery.js:2-45 | the straight-line sequence of conditional assignments yields the fold of the seven rules, in order, over the lower-cased query |
| NlQuery.NumberAfterMatches | helper-fns/nlquery.js:23 | the number matcher succeeds exactly when `phrase(\d+)` matches at that position, and then captures all the digits |
| NlQuery.WordsAtMatches | helper-fns/nlquery.js:17 | the word-count matcher succeeds exactly when `(\d+)\s+words?` matches at that position, and captures the digits of every such match |
| NlQuery.WordsAtIsMatch | helper-fns/nlquery.js:17 | what the word-count matcher finds is a match of the pattern |
| NlQuery.WordsMatchIsFound | helper-fns/nlquery.js:17 | every match of the pattern at a position is the one the matcher finds there |
| NlQuery.ContainingAtMatches | helper-fns/nlquery.js:34 | the containing pattern matches exactly when a lower-case letter follows "containing "; it captures the letter after "the letter " when there is one, and the letter right after "containing " otherwise |
| NlQuery.MatchNeedsKeyword | helper-fns/nlquery.js:17-34 | a pattern matches only where its fixed word occurs |
| NlQuery.Capture | helper-fns/nlquery.js:17-34 | a capture of a numeric pattern is a non-empty digit run, and a capture of the containing pattern is one lower-case letter |
| NlQuery.CaptureIsLeftmost | helper-fns/nlquery.js:23 | `match` captures at the leftmost position where the pattern matches |
| NlQuery.CaptureNone | helper-fns/nlquery.js:23 | there is no capture exactly when the pattern matches nowhere |
| NlQuery.CaptureNeedsKeyword | helper-fns/nlquery.js:17-34 | a query lacking a pattern's fixed word captures nothing |
| NlQuery.NumberIsParseInt | helper-fns/nlquery.js:19 | the value given to a captured digit run is what `parseInt` makes of it |
| NlQuery.ApplyFrame | helper-fns/nlquery.js:7-42 | one rule (`Apply`) leaves every field other than its own unchanged, for any filter set: the palindrome rule touches only `is_palindrome`, the two word rules only `word_count`, and so on |
| NlQuery.RunRules | helper-fns/nlquery.js:7-42 | running the rules in order keeps the translator's shape: a flag that is never false, a minimum of at least 1, a maximum of at least -1, a lower-case letter |
| NlQuery.Translate | helper-fns/nlquery.js:2-45 | every filter set the translator produces has that shape, so `is_palindrome` is never false and `max_length` can be -1 but no lower |
| NlQuery.TranslateFields | helper-fns/nlquery.js:2-45 | each field of a translation, read off the rules that write it: the last rule that fires on a field decides it, and a field no rule writes is absent |
| NlQuery.TranslateIgnoresCase | helper-fns/nlquery.js:4 | the translation depends only on the lower-cased query |
| NlQuery.TranslatePalindromeField | helper-fns/nlquery.js:7-9 | the palindrome field is true when "palindrome" or "palindromic" occurs, and absent otherwise |
| NlQuery.TranslatePalindromeFlag | helper-fns/nlquery.js:7-9 | the flag is present exactly when one of its two words occurs, and it is never false |
| NlQuery.TranslateWordCountField | helper-fns/nlquery.js:12-20 | the leftmost "<digits> word" decides the word count and wins over "single word", which gives 1 |
| NlQuery.TranslateWordCount | helper-fns/nlquery.js:17-20 | the leftmost "<digits> word" sets the word count to its number |
| NlQuery.TranslateSingleWord | helper-fns/nlquery.js:12-14 | without a "<digits> word", "single word" sets the word count to 1 |
| NlQuery.TranslateMinLengthField | helper-fns/nlquery.js:23-26 | the minimum length is one more than the number after the leftmost "longer than ", and absent without one |
| NlQuery.TranslateMaxLengthField | helper-fns/nlquery.js:28-31 | the maximum length is one less than the number after the leftmost "shorter than ", and absent without one |
| NlQuery.TranslateCharacterField | helper-fns/nlquery.js:34-42 | "first vowel" gives 'a' and wins over the letter after "containing " |
| NlQuery.TranslateCharacter | helper-fns/nlquery.js:34-42 | a character constraint is always one lower-case letter, and "first vowel" makes it 'a' |
| NlQuery.TranslateWithoutKeywords | helper-fns/nlquery.js:2-45 | a query with none of the rules' words gives the empty filter set |
| NlQuery.LongerThanCapture | helper-fns/nlquery.js:23 | the leftmost "longer than N" captures exactly the digits N after the phrase |
| NlQuery.MinLengthFromCapture | helper-fns/nlquery.js:24-26 | a captured N sets the minimum length to N + 1 |
| NlQuery.ShorterThanCapture | helper-fns/nlquery.js:28 | the leftmost "shorter than N" captures exactly the digits N after the phrase |
| NlQuery.MaxLengthFromCapture | helper-fns/nlquery.js:29-31 | a captured N sets the maximum length to N - 1 |
| NlQuery.ShorterThanZeroExample | helper-fns/nlquery.js:28-31 | "shorter than 0" gives a maximum length of -1 and nothing else |
| NlQuery.LongerAndShorterExample | helper-fns/nlquery.js:23-31 | "longer than 10 shorter than 5" gives a minimum of 11 and a maximum of 4, and nothing else |
| Store.FindIndex | controllers/routeControllers.js:27 | the lookup finds the first record carrying the key, and finds none exactly when no record carries it |
| Store.Create | controllers/routeControllers.js:9-47 | a missing value gives 400, a non-string gives 422, a known fingerprint gives 409 with the store unchanged; otherwise the analysed record is appended |
| Store.CreatePreservesValid | controllers/routeControllers.js:26-44 | creating keeps every record keyed by its fingerprint and carrying its analysis, with all keys distinct |
| Store.CreateTwiceConflicts | controllers/routeControllers.js:26-31 | posting the same string again conflicts and leaves the store as it was |
| Store.Delete | controllers/routeControllers.js:169-181 | an unknown fingerprint gives 404 with the store unchanged; otherwise one record under that key is cut out and the others stay, in their order |
| Store.DeleteRemovesKey | controllers/routeControllers.js:173-179 | with distinct keys, no record is left under the deleted key |
| Store.DeletePreservesValid | controllers/routeControllers.js:179 | deleting keeps the store's invariant |
| Store.DeleteThenCreate | controllers/routeControllers.js:27-44 | after a deletion, the same string can be created again |
| Store.DeleteTwiceNotFound | controllers/routeControllers.js:173-177 | a second deletion of the same string finds nothing and changes nothing |
| Store.CreateThenDeleteRestores | controllers/routeControllers.js:44 | deleting what was just created restores the store exactly |
| Store.FilterByQuery | controllers/routeControllers.js:50-85 | a missing or empty query is rejected; otherwise the answer is either the conflict or the matches of the translation, with their count, the echoed query and the derived filters |
| Store.Conflicting | controllers/routeControllers.js:61-65 | a filter set the conflict test rejects is one no record could satisfy |
| Store.ConflictIff | controllers/routeControllers.js:61-69 | the conflict answer comes exactly when both bounds are derived, the maximum is not 0 and the minimum exceeds it |
| Store.ConflictOnlyWhenNothingMatches | controllers/routeControllers.js:61-72 | a rejected query is one for which no stored string would match |
| Store.ZeroMaximumSlipsThrough | controllers/routeControllers.js:61-65 | with a derived maximum of 0 and any minimum, the answer is an empty match list, not a conflict |
| Store.ZeroMaximumExample | controllers/routeControllers.js:61-65 | "longer than 3 shorter than 1" is answered with no matches instead of a conflict |
| Store.LongerAndShorterConflicts | controllers/routeControllers.js:61-69 | "longer than 10 shorter than 5" is answered with the conflict |
| Store.ParseCountParam | controllers/routeControllers.js:118-119 | a count parameter is accepted exactly when `parseInt` gives a number that is not negative, and then it is that number |
| Store.ParseCharParam | controllers/routeControllers.js:148-149 | a character parameter is accepted exactly when it is one character long |
| Store.ParsePalindromeParam | controllers/routeControllers.js:107-114 | "true" and "false" are accepted in any letter case, giving the matching flag, and nothing else is: an accepted value has 4 or 5 characters |
| Store.PalindromeParamExamples | controllers/routeControllers.js:107-114 | "TRUE" and "False" are accepted in any letter case, and "yes" is rejected |
| Store.ValidateParams | controllers/routeControllers.js:106-156 | an accepted parameter set has every parameter absent or well formed, and a rejection names a malformed parameter |
| Store.ValidateAcceptsIff | controllers/routeControllers.js:106-156 | the parameters are accepted exactly when each one is absent or well formed |
| Store.ValidateRejectsFirstBad | controllers/routeControllers.js:106-156 | a rejection names a bad parameter, and every parameter checked before it was fine |
| Store.ValidateKeepsSuppliedFields | controllers/routeControllers.js:114-155 | the filter set holds exactly the supplied parameters, each with its parsed value |
| Store.ValidateListParams | controllers/routeControllers.js:106-156 | the handler's checks, one after another, give the validation result |
| Store.ListAll | controllers/routeControllers.js:103-166 | a bad parameter is reported exactly when some parameter is malformed; otherwise the stored strings the filters keep are listed, with their count and the filters applied |
| Store.NoParamsListsEverything | controllers/routeControllers.js:158-165 | without parameters, every stored string is listed in insertion order |
| Store.StringStore.constructor | controllers/routeControllers.js:6 | the store starts empty and valid |
| Store.StringStore.CreateStr | controllers/routeControllers.js:9-47 | the POST handler keeps the store valid, and its answer and new contents are those of `Create` on the old contents |
| Store.StringStore.DeleteStr | controllers/routeControllers.js:169-181 | the DELETE handler keeps the store valid, and its answer and new contents are those of `Delete` on the old contents |
| Store.StringStore.FilterByNaturalLanguage | controllers/routeControllers.js:50-85 | the natural-language GET handler answers `FilterByQuery` of the stored strings |
| Store.StringStore.GetAllStrs | controllers/routeControllers.js:103-166 | the listing GET handler answers `ListAll` of the stored strings |

## Left out

- `getSpecificStr` (controllers/routeControllers.js:88-100) is not modelled. It reads an undefined `string_value` at line 89, so every call throws before the store is read; no store lookup happens.
- `computeSHA256` is a parameter `hash` of the store and the analyzer. The SHA-256 algorithm is not modelled, and nothing is assumed about the function (not even injectivity).
- `created_at` comes from the clock (`new Date().toISOString()`). It is a parameter of `Create`.
- The Express router, the JSON body and query-string parsing, the response bodies' error texts and the JSON layout are not modelled. Status codes appear only as `Store.StatusCode`.
- Request-body shape: the `value` field is absent, present but not a string, or a string. A body that is not an object at all is not modelled.
- Query parameters are absent or a single string. A repeated or nested parameter, which the query-string parser turns into an array or object, is not modelled. In the source that would make `toLowerCase` throw, or fail the `typeof` test.
- The `catch` branch of `filterByNaturalLanguage` (controllers/routeControllers.js:82-84) is not modelled. With a string query, translation cannot throw.
- `toLowerCase` is modelled on ASCII letters only. A `char` is one unit of the text (no surrogate pairs and no Unicode case mapping). `Set(value)` and `for…of` therefore count units.
- `parseInt` works on unbounded integers. Precision loss above 2^53 and `Infinity` are not modelled, whether for query parameters or for digits captured by the translator.
- The regular expressions are modelled as direct matchers, not as a general regex engine. The optional `s` in `words?` never decides whether the pattern matches, so it is not represented.
- The order of keys in the response's `filters_applied` and `parsed_filters` objects is not modelled: they are `FilterSet` values.
- Concurrency is not modelled: the store is accessed one request at a time.

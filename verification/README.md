# NCM code resolution, modelled in Dafny

This project models the part of the NCM classification service that turns an oracle's
free-text answer into a code from the Mercosur Common Nomenclature (NCM) reference table:

- `NcmCodes` (Controllers/NcmController.cs) covers two functions.
  - `ExtrairCodigoNcm` finds the leftmost `\b\d{8}\b` or `\b\d{4}\.\d{2}\.\d{2}\b` token and prints it as `DDDD.DD.DD`. It returns the sentinel `0000.00.00` when there is no text or no token.
  - `NormalizarNcm` keeps the digits. Exactly eight of them are dotted after the fourth and sixth; any other count throws `FormatException`.
- `NcmController` (Controllers/NcmController.cs) covers the resolver and the end of the consultation action.
  - `ValidarNcm` is the resolver. It returns the exact table hit, or else a code suggested from the description at threshold 85, or else `"Código NCM inválido ou obsoleto."`.
  - The end of the consultation action (lines 80-102) is modelled as `TextAfter` (the subcategory text after `"A subcategoria do produto é "`), `Aproximado` and `ClassificarResposta`.
- `NcmTableLoader` (Utils/NcmTableLoader.cs) covers loading and suggestion.
  - `LoadNcmTable` is a method of the class `NcmTableStore`, whose field `ncmTable` stands for the static property `NcmTable`. It keeps the entries whose `Data_Fim` is `31/12/9999` and builds the code-to-description dictionary; a duplicate code throws.
  - `SugerirNcmPorDescricao` scores every ten-character code's description against the query. It sorts by score (descending, stable), cuts at the threshold and returns the first code or null.
- `Ranking` holds the LINQ pipeline of the suggestion: a stable `OrderByDescending` written as insertion sort, and `Where`.
- `DotNet` holds the .NET string primitives the code relies on: `char.IsDigit`, `char.IsWhiteSpace`, `Trim`, `ToLowerInvariant` and `IndexOf`.

The model represents the .NET runtime as follows:

- `null` is `None`, and a thrown exception is a `Failure`.
- The table is a map plus the sequence in which enumerating it yields the codes. That order decides ties between equal scores.
- The loaded table is a `ConcurrentDictionary`, which enumerates its codes bucket by bucket. String hashes are randomised per process, so the model takes the bucket of each code as the function parameter `bucket` of `LoadNcmTable`. `AnyOrderIsAnEnumeration` shows that every order of the codes arises from some choice of buckets, and every suggestion property holds for whatever order a table carries.
- `Fuzz.TokenSetRatio` is the function parameter `ratio`. Every property about suggestions holds for every such function.

## Model

| member | source | states |
|---|---|---|
| DotNet.Digits | Controllers/NcmController.cs:233 | the digit filter keeps only digits, never grows the string, and leaves an all-digit string as it is |
| DotNet.DigitsOfConcat | Controllers/NcmController.cs:233 | the digits of a concatenation are the digits of each part in turn, so the filter keeps the digits' order |
| DotNet.DigitsKeepsEveryDigit | Controllers/NcmController.cs:233 | every digit of the input survives the filter, as many times as it occurs |
| DotNet.IsDigit | Controllers/NcmController.cs:233 | definition of `char.IsDigit` and of the regex's `\d`: the ASCII digits 0 to 9 |
| DotNet.IsWordChar | Controllers/NcmController.cs:210 | definition of the regex's `\w` as `\b` uses it: ASCII letters, digits and the underscore |
| DotNet.IsWhiteSpace | Controllers/NcmController.cs:256 | definition: the characters `char.IsWhiteSpace` accepts in the Latin-1 range (space, tab to carriage return, U+0085, U+00A0) |
| DotNet.IsNullOrWhiteSpace | Controllers/NcmController.cs:204 | definition: null, or every character is white space |
| DotNet.BlankIffTrimsToEmpty | Utils/NcmTableLoader.cs:74 | a string is blank exactly when trimming leaves nothing |
| DotNet.Trim | Controllers/NcmController.cs:256 | the trimmed string neither starts nor ends with white space |
| DotNet.TrimStart | Controllers/NcmController.cs:256 | the result is a suffix of the input, and what was dropped is all white space |
| DotNet.TrimEnd | Controllers/NcmController.cs:256 | the result is a prefix of the input, and what was dropped is all white space |
| DotNet.TrimKeepsDigits | Controllers/NcmController.cs:256-257 | trimming before normalising never changes the digits, so it never changes the outcome of NormalizarNcm |
| DotNet.IndexOf | Controllers/NcmController.cs:88-91 | the index returned is an occurrence, with none before it; None means no occurrence at all |
| DotNet.Contains | Controllers/NcmController.cs:88 | definition: the ordinal search finds an occurrence |
| DotNet.ContainsIffOccurs | Controllers/NcmController.cs:88 | the phrase is contained exactly when it occurs at some offset |
| DotNet.ToLowerInvariant | Utils/NcmTableLoader.cs:90 | lower-casing keeps the length, leaves no capital letter, changes only capital letters, and moves each changed one to its small letter |
| NcmCodes.Dotted | Controllers/NcmController.cs:239 | eight digits printed with dots after the 4th and 6th are in display form and have those same digits |
| NcmCodes.NormalizarNcm | Controllers/NcmController.cs:230-244 | succeeds exactly when the input has eight digits; the result is in display form with the input's digits; otherwise FormatException |
| NcmCodes.CanonicalIsNormal | Controllers/NcmController.cs:233-239 | a code already in display form normalises to itself |
| NcmCodes.CanonicalFromDigits | Controllers/NcmController.cs:239 | two display-form codes with the same digits are the same string |
| NcmCodes.NormalizarNcmIdempotent | Controllers/NcmController.cs:233-239 | normalising a normalised code changes nothing |
| NcmCodes.NormalizarNcmDependsOnDigitsOnly | Controllers/NcmController.cs:233-243 | any two inputs with the same digits, whatever their punctuation or blanks, normalise alike (success and failure) |
| NcmCodes.NormalizarNcmBareExample | Controllers/NcmController.cs:236-239 | "12345678" normalises to "1234.56.78" |
| NcmCodes.NormalizarNcmDottedExample | Controllers/NcmController.cs:233-239 | "1234.56.78" normalises to itself |
| NcmCodes.NormalizarNcmShortExample | Controllers/NcmController.cs:243 | seven digits throw FormatException |
| NcmCodes.WordBoundary | Controllers/NcmController.cs:210 | definition of `\b`: the characters on either side of the offset differ in being word characters, the text's ends counting as non-word |
| NcmCodes.PlainCodeAt | Controllers/NcmController.cs:210 | definition of the alternative `\b\d{8}\b` matching at an offset |
| NcmCodes.DottedCodeAt | Controllers/NcmController.cs:210 | definition of the alternative `\b\d{4}\.\d{2}\.\d{2}\b` matching at an offset |
| NcmCodes.CodeAt | Controllers/NcmController.cs:210 | definition: either alternative matches at the offset |
| NcmCodes.AlternativesExclusive | Controllers/NcmController.cs:210 | the two alternatives never match at the same offset |
| NcmCodes.MatchValue | Controllers/NcmController.cs:210-215 | the matched text is the eight or ten characters of the input at the match offset; it has no dot exactly when the bare alternative matched; bare matches are eight digits, dotted matches are in display form |
| NcmCodes.MatchedCode | Controllers/NcmController.cs:217-223 | the code returned for a match is in display form with the matched text's digits, and is the matched text itself when that is dotted |
| NcmCodes.FirstCodeFrom | Controllers/NcmController.cs:210-212 | the regex scan finds a matching offset with no match before it, or reports that nothing matches |
| NcmCodes.FirstCodeIsUnique | Controllers/NcmController.cs:210 | the leftmost match offset is unique |
| NcmCodes.CodeStartsWithDigit | Controllers/NcmController.cs:210 | every match starts on a digit, so blank text holds none |
| NcmCodes.ExtrairCodigoNcm | Controllers/NcmController.cs:202-227 | the result is always in display form; the sentinel for null or blank text and for text without a token; otherwise the leftmost match, dotted if bare, verbatim if dotted |
| NcmCodes.ExtractedCodeIsNormal | Controllers/NcmController.cs:210-223 | NormalizarNcm never throws on an extracted code and returns it unchanged |
| NcmCodes.LongDigitRunHasNoCode | Controllers/NcmController.cs:210 | a run of nine or more digits holds no match anywhere inside it |
| NcmCodes.ExtrairCodigoNcmExamples | Controllers/NcmController.cs:204-207 | null and all-blank answers give the sentinel |
| Ranking.InsertDescending | Utils/NcmTableLoader.cs:100 | inserting is a permutation of the list plus the new element, and puts either it or the old head first |
| Ranking.InsertKeepsSorted | Utils/NcmTableLoader.cs:100 | insertion keeps a list sorted by descending score |
| Ranking.OrderByDescending | Utils/NcmTableLoader.cs:93-101 | the sorted list is a permutation of the candidates, in descending score order |
| Ranking.FirstBest | Utils/NcmTableLoader.cs:100 | reference definition: an index of maximal score with every earlier candidate scoring strictly less |
| Ranking.OrderByDescendingHead | Utils/NcmTableLoader.cs:93-101 | the stable sort puts the earliest best-scoring candidate first |
| Ranking.Where | Utils/NcmTableLoader.cs:110-112 | keeps exactly the candidates reaching the threshold, the head first if it passes, nothing if none passes |
| Ranking.FirstPassing | Utils/NcmTableLoader.cs:109-118 | on a sorted list something passes the threshold exactly when the head does |
| NcmTableLoader.Vigentes | Utils/NcmTableLoader.cs:47 | keeps exactly the entries whose end date is 31/12/9999 |
| NcmTableLoader.VigentesConcat | Utils/NcmTableLoader.cs:47 | the filter distributes over concatenation, so it keeps order and repeated entries |
| NcmTableLoader.VigentesCodesMembership | Utils/NcmTableLoader.cs:47 | a code is among the filtered codes exactly when some in-force entry has it |
| NcmTableLoader.InForceCodesDistinctCons | Utils/NcmTableLoader.cs:47-48 | no shared in-force code in a list means none in its tail and none between its head, if in force, and the tail |
| NcmTableLoader.VigentesCodesDistinct | Utils/NcmTableLoader.cs:47-48 | the filtered codes are duplicate-free exactly when no two in-force entries of the corpus share a code |
| NcmTableLoader.Add | Utils/NcmTableLoader.cs:48 | adding an entry whose code is new appends the code to the enumeration, maps it to the entry's description, and keeps every earlier mapping |
| NcmTableLoader.AddAll | Utils/NcmTableLoader.cs:48 | ToDictionary fails only with an ArgumentException naming one of the added codes |
| NcmTableLoader.AddAllKeys | Utils/NcmTableLoader.cs:48 | ToDictionary succeeds exactly when no code repeats, and then enumerates the codes in order |
| NcmTableLoader.AddAllDescriptions | Utils/NcmTableLoader.cs:48 | every added code maps to its entry's description and earlier entries are kept |
| NcmTableLoader.BuildTable | Utils/NcmTableLoader.cs:46-48 | building throws only ArgumentException, and a built dictionary has one code per in-force entry |
| NcmTableLoader.BuildTableSucceedsIffNoSharedCode | Utils/NcmTableLoader.cs:46-48 | building throws exactly when two in-force entries, at any two positions, share a code |
| NcmTableLoader.RepeatedEntryThrows | Utils/NcmTableLoader.cs:48 | an in-force entry listed twice makes building throw ArgumentException naming its code |
| NcmTableLoader.BuildTableKeys | Utils/NcmTableLoader.cs:46-48 | building the intermediate dictionary succeeds exactly when no two in-force entries share a code; it then lists the in-force codes in the order they were added; a failure names an in-force entry's code |
| NcmTableLoader.BuildTableDomain | Utils/NcmTableLoader.cs:45-49 | a built table holds a code exactly when some in-force entry has it; other entries are absent |
| NcmTableLoader.BuildTableDescriptions | Utils/NcmTableLoader.cs:45-49 | each in-force code maps to its entry's description |
| NcmTableLoader.InsertByBucket | Utils/NcmTableLoader.cs:45 | inserting a code into a list ordered by bucket adds exactly that code and keeps the list ordered by bucket |
| NcmTableLoader.InsertByBucketDistinct | Utils/NcmTableLoader.cs:45 | inserting a new code into a duplicate-free list leaves it duplicate-free |
| NcmTableLoader.BucketOrder | Utils/NcmTableLoader.cs:45 | enumeration lists the same codes, as many as before, ordered by bucket |
| NcmTableLoader.BucketOrderDistinct | Utils/NcmTableLoader.cs:45 | enumeration lists each code of a duplicate-free list once |
| NcmTableLoader.Enumerate | Utils/NcmTableLoader.cs:45 | the concurrent copy has the same code-to-description map and as many codes, enumerated by bucket |
| NcmTableLoader.StrictBucketOrderIsUnique | Utils/NcmTableLoader.cs:45 | a duplicate-free list strictly ordered by bucket is the only bucket order of its codes |
| NcmTableLoader.AnyOrderIsAnEnumeration | Utils/NcmTableLoader.cs:45 | for every order of the codes, buckets ranking them in that order make the table enumerate exactly that order |
| NcmTableLoader.NcmTableStore.constructor | Utils/NcmTableLoader.cs:12 | the table starts out null |
| NcmTableLoader.NcmTableStore.LoadNcmTable | Utils/NcmTableLoader.cs:14-64 | a missing file or an empty corpus returns leaving the table as it was; read and parse errors are rethrown with the table unchanged; a duplicate in-force code rethrows ArgumentException with the table unchanged; otherwise the table becomes the concurrent copy of the built dictionary, enumerated by bucket, possibly empty, and the count is its number of codes |
| NcmTableLoader.SuggestionKeys | Utils/NcmTableLoader.cs:81 | keeps exactly the codes of ten characters |
| NcmTableLoader.NormalizedQuery | Utils/NcmTableLoader.cs:90 | the compared query is no longer than the description, has no capital letter, and neither starts nor ends with white space |
| NcmTableLoader.Score | Utils/NcmTableLoader.cs:98 | definition: the similarity of the query to the code's description lower-cased |
| NcmTableLoader.Candidates | Utils/NcmTableLoader.cs:93-99 | one candidate per code, as many as codes, the i-th candidate carrying the i-th code |
| NcmTableLoader.SugerirNcmPorDescricao | Utils/NcmTableLoader.cs:66-122 | null for a null or empty table and for a null or blank description; any result is a ten-character table code whose score reaches the threshold |
| NcmTableLoader.SuggestionIsFirstBest | Utils/NcmTableLoader.cs:93-121 | the result is the earliest best-scoring candidate when its score reaches the threshold, and null otherwise |
| NcmTableLoader.FirstBestCandidateIsBest | Utils/NcmTableLoader.cs:93-99 | the earliest best candidate is a ten-character table code scoring at least as well as every ten-character code |
| NcmTableLoader.SuggestionIsBest | Utils/NcmTableLoader.cs:93-121 | null exactly when no ten-character code reaches the threshold; otherwise the result scores at least as well as every ten-character code |
| NcmTableLoader.SuggestionTieBreak | Utils/NcmTableLoader.cs:100-121 | every ten-character code enumerated before the result scores strictly less, so ties go to the earliest code |
| NcmTableLoader.EarlierKeyStaysEarlier | Utils/NcmTableLoader.cs:81 | the length filter keeps the relative order of distinct codes |
| NcmTableLoader.SuggestionKeysConcat | Utils/NcmTableLoader.cs:81 | filtering a concatenation is concatenating the filtered parts |
| NcmTableLoader.LowerThresholdKeepsSuggestion | Utils/NcmTableLoader.cs:109-121 | lowering the threshold never changes a non-null suggestion |
| NcmTableLoader.SuggestionDependsOnNormalizedQuery | Utils/NcmTableLoader.cs:90-98 | descriptions equal after lower-casing and trimming get the same suggestion |
| NcmController.ValidarNcm | Controllers/NcmController.cs:246-277 | throws NullReferenceException for a null code or table and FormatException when the code does not have eight digits; otherwise returns a table code or the invalid-code message |
| NcmController.ExactHitWins | Controllers/NcmController.cs:256-262 | a code whose normal form is a table key is returned as that key, whatever the description |
| NcmController.ValidarNcmOnMiss | Controllers/NcmController.cs:264-276 | on a miss the result is never the missed code; it is the invalid-code message exactly when no ten-character code reaches 85 (always for a null or blank description), else a best-scoring ten-character table code |
| NcmController.ValidarNcmReturnsSuggestion | Controllers/NcmController.cs:264-276 | on a miss the resolver returns exactly the code SugerirNcmPorDescricao suggests at threshold 85, or the invalid-code message when it suggests nothing |
| NcmController.ValidationKeepsExactly | Controllers/NcmController.cs:256-276 | for a display-form code, validation throws only for a null table and returns the code unchanged exactly when the table holds it |
| NcmController.TextAfter | Controllers/NcmController.cs:87-94 | null exactly when the phrase does not occur; otherwise the trimmed text after its first occurrence |
| NcmController.Aproximado | Controllers/NcmController.cs:100-102 | the message is the precise one exactly when the validated code equals the extracted one |
| NcmController.ClassificarResposta | Controllers/NcmController.cs:80-102 | throws NullReferenceException exactly for a null answer or table; otherwise flags the answer approximate exactly when the extracted code is not in the table, keeping the extracted code when it is |
| NcmController.ClassificarRespostaOnMiss | Controllers/NcmController.cs:80-102 | when the extracted code is not in the table, the answer is flagged approximate and its code is the suggestion for the subcategory text after the phrase, at threshold 85, or the invalid-code message |

## Left out

- The HTTP action around lines 80-102 (`ConsultarNcm`, Controllers/NcmController.cs:24-121) is not modelled. It consists of request validation, the JSON responses and the `HttpRequestException` handler.
- `ConsultarNcmNaIA` and `ExpandirDescricao` are not modelled: they are HTTP calls to an external language model. The oracle's answer is the parameter `ncmResposta`.
- The retry branch at Controllers/NcmController.cs:54-78 is not modelled. It can never run, because a null or empty answer cannot contain the phrases it tests.
- `IMemoryCache` look-ups and stores are not modelled: they are an external cache with a time-to-live.
- `File.Exists`, `File.ReadAllText` and `JsonSerializer.Deserialize` are replaced by the parameter `CorpusFile`. It says whether the file is missing, unreadable, malformed, or parsed into an entry list. Exceptions other than I/O, JSON and duplicate keys are not modelled.
- Console logging, including the score dump at Utils/NcmTableLoader.cs:104-107, is left out. It has no effect on results.
- `Fuzz.TokenSetRatio` (FuzzySharp) is not part of this model. It is the parameter `ratio`, so no property depends on its definition.
- Character classes are restricted to ASCII for `char.IsDigit`, regex `\d` and `\w`, and `ToLowerInvariant`, and to Latin-1 for `char.IsWhiteSpace`. Unicode digits, letters and separators beyond those are not modelled.
- DotNet.IndexOf: `string.IndexOf(string)` is culture-sensitive in .NET; the model compares ordinally, like `string.Contains`.
- `ConcurrentDictionary` concurrency is not modelled. Its bucket layout is reduced to the bucket of each code, and resizing is not modelled. `BucketOrder` lists codes sharing a bucket in the order they were added, which need not be the runtime's order within a bucket. This does not narrow the model: by `AnyOrderIsAnEnumeration`, some `bucket` function yields any given order of the codes.
- Null fields in corpus entries are not modelled. A null `Data_Fim` does not throw: the comparison at Utils/NcmTableLoader.cs:47 is false, so the entry is filtered out. A null `Codigo` throws `ArgumentNullException` in `ToDictionary`, but only when its entry is in force. A null `Descricao` is stored as is, and throws only at Utils/NcmTableLoader.cs:98, when its code has ten characters and a suggestion is scored.
- The second, identical call `ExtrairCodigoNcm(ncmResposta)` at Controllers/NcmController.cs:81 is folded into the first, since the function is deterministic.
- NcmCodes.NormalizarNcmDependsOnDigitsOnly stands in for the concrete example `" 1234-56-78 "`: that string has the digits of `"12345678"`, so it normalises to `"1234.56.78"`. The model does not state that example literally.
- The resolver is exactly what the code does. Suggestion compares whole descriptions only, with no substring search. Ties between equal scores are broken by enumeration order alone. There is no fallback to a nearby code, and the result does not say how it was found.
- `ValidarNcm` does not treat the sentinel `0000.00.00` specially. If the table held it, it would be returned as an exact hit, and the model does the same.
- Two in-force entries with the same code make `ToDictionary` throw: the later one does not replace the earlier one.
- The code length for description matching is hard-coded as 10 characters at Utils/NcmTableLoader.cs:81 (`SuggestionCodeLength`).

# Aura.Accept value sets, in Dafny

This project models the Accept-header value set of Aura.Accept
(`src/Request/Accept/AbstractValues.php`) and proves properties of it. The set
handles the headers whose syntax section 5.3 of RFC 7231 defines (`Accept`,
`Accept-Language`, `Accept-Charset`, …). It parses a header into entries of a
token, a quality and parameters. It orders the entries by quality, keeps one
entry per token, and negotiates the client's preferences against the server's
list of available values.

Modules, one per step of the pipeline:

- `Wrappers`: `Option`. `None` stands for the `false` that `negotiate` returns.
- `Text`: PHP `explode` on one character and PHP `trim`.
- `Values`: the entry record `Value(token, quality, params)`. The quality is
  an integer in thousandths, which is the qvalue grain of section 5.3.1 of
  RFC 7231, so 1000 is 1.0.
- `Parser`: `parseAcceptable`. This covers:
  - the parameter pattern, modelled by its effect rather than by a regex engine;
  - the parameter map, where later names overwrite earlier ones;
  - `(float) $quality` in thousandths;
  - the handling of `q`.
- `Sorting`: `qualitySort` as bucket sorting under a bucket-key function
  `key`. `TruncKey` is what PHP does with a float array key. `ExactKey` orders
  by the quality itself.
- `Dedupe`: `removeDuplicates` as a fold of PHP array assignments. A token keeps
  the slot of its first occurrence and the data of its last occurrence.
- `ValueSet`: `add`, `set` and `convertAvailable`.
- `Negotiation`: `negotiate`. The `match` test of the value classes is a
  parameter, and `TokenMatch` (token equality) is its minimal instance.
- `Scenarios`: negotiation outcomes for available lists of plain strings. A plain string holds no `,` and no `;`, so it parses to a single entry with no parameters.

Every operation that depends on the bucket key takes it as a parameter. All
the general results hold for every key, so they hold for the code as written
(`TruncKey`) and for the code as its comment describes it (`ExactKey`).

Behaviour of the code that a reader may not expect:

- **Empty header.** An empty header string explodes into one empty piece. The
  set then holds one entry with the empty token (`ValueSet.SetEmptyHeader`),
  not the empty set. As a result, an empty header refuses every non-empty
  token (`Scenarios.EmptyHeaderRefuses`). Only a header absent from the server
  variables gives the empty set, which accepts anything
  (`Scenarios.AbsentHeaderTakesFirst`).
- **Non-matching parameter segment.** A parameter segment that does not match
  the pattern is not skipped. It stores PHP `null` under the key `""`.
- **Whitespace before a parameter name.** Parameter names are not trimmed. In
  `text/html; q=0.5` the segment ` q=0.5` stores `"0.5"` under the name `" q"`,
  so the `q` is ignored and the quality stays 1.0
  (`Parser.SpacedQualityIgnored`, `Parser.SpacedQualityExample`). Section 5.3
  of RFC 7231 allows whitespace after `;` (`OWS ";" OWS "q="`), but the code
  does not accept it there. Whitespace before `;` is harmless, because the
  token is trimmed.
- **Quotes.** A leading quote is removed even when no closing quote matches
  it (`Parser.UnquoteUnbalanced`).
- **Adding twice.** Adding the same header twice is not idempotent, and the
  set after `add` need not be ordered by quality (`ValueSet.AddTwiceCanReorder`).
  De-duplication keeps the slot of a token's first occurrence after sorting,
  but the data of its last occurrence after sorting, which has the lowest
  bucket key. With the code's truncated key, that is the last one written
  among a token's qualities below 1.0, so `x;q=0.5, x;q=0.8` keeps `x;q=0.8`
  (`ValueSet.TruncatedMergeKeepsLater`).
- **Wildcard ahead of a refusal.** A wildcard ahead of an explicit `q=0`
  refusal returns the first available value, even when that value is the
  refused one (`Scenarios.WildcardOverridesRefusal`). The source flags this
  case as an open question at line 172.

## Model

| member | source | states |
|---|---|---|
| Text.Explode | src/Request/Accept/AbstractValues.php:65-69 | `explode` gives one more piece than there are separators, no piece holds the separator, joining the pieces restores the input, and the first piece is the text before the first separator |
| Text.ExplodeImplode | src/Request/Accept/AbstractValues.php:65 | splitting pieces joined by the separator gives the pieces back, so the split is the exact inverse of the join |
| Text.TrimSpec | src/Request/Accept/AbstractValues.php:88 | `trim` returns an infix of its input with only trim-space removed around it, and the result neither starts nor ends with trim-space |
| Text.TrimIdempotent | src/Request/Accept/AbstractValues.php:88 | trimming twice is trimming once |
| Text.TrimPadded | src/Request/Accept/AbstractValues.php:88 | a trimmed text padded with whitespace on both sides trims back to itself |
| Parser.MatchParam | src/Request/Accept/AbstractValues.php:75 | the pattern matches exactly when the segment, less one trailing line feed, has no line feed and has an `=` after at least one byte; the name is the untrimmed text before the first such `=` and the value is the unquoted rest |
| Parser.UnquoteQuoted | src/Request/Accept/AbstractValues.php:75 | a value wrapped in a matching pair of `"` or `'` is stored without them |
| Parser.UnquoteUnbalanced | src/Request/Accept/AbstractValues.php:75 | an opening quote with no matching closing quote is still dropped |
| Parser.ParseParamsSpec | src/Request/Accept/AbstractValues.php:72-78 | the parameter map has exactly the segments' names as keys, and each name holds the value of its last segment |
| Parser.QualityParamIsText | src/Request/Accept/AbstractValues.php:75-81 | a segment stored under `q` always matched the pattern, so `isset` sees every stored `q` |
| Parser.ParseQualityNoDigits | src/Request/Accept/AbstractValues.php:89 | a quality text without any digit casts to 0 |
| Parser.FormatParseQuality | src/Request/Accept/AbstractValues.php:89 | every quality in thousandths, written as `[-]digits.ddd`, casts back to itself |
| Parser.ParseEntrySpec | src/Request/Accept/AbstractValues.php:67-91 | an entry's token is the trimmed text before the first `;`, and `q` never stays among its parameters; its quality is the cast `q` value when one is set and 1.0 otherwise |
| Parser.ParseEntryBySegments | src/Request/Accept/AbstractValues.php:80-84 | read off the segments: no segment named exactly `q` gives quality 1.0, otherwise the last `q` segment gives the quality; every other name keeps its last segment's value |
| Parser.ParseEntryWithQuality | src/Request/Accept/AbstractValues.php:67-91 | `token;q=<quality>` parses back to that token and quality with no parameters |
| Parser.Parse | src/Request/Accept/AbstractValues.php:63-95 | parsing gives one entry per comma plus one, so even the empty header gives one entry |
| Parser.SpacedQualityIgnored | src/Request/Accept/AbstractValues.php:72-91 | a `q` segment written after `; ` is stored under the untrimmed name `" q"`; the entry keeps quality 1.0 and holds that parameter |
| Parser.SpacedQualityExample | src/Request/Accept/AbstractValues.php:72-91 | `text/html; q=0.5`, or any trimmed token followed by `; q=0.5`, parses to quality 1.0 with the one parameter `" q"` = `0.5` |
| Parser.ParseImplode | src/Request/Accept/AbstractValues.php:65-92 | a comma-joined list of pieces parses to the entries of the pieces, in order |
| Sorting.QualitySortSpec | src/Request/Accept/AbstractValues.php:114-136 | the sort returns a permutation of its input whose bucket keys never increase |
| Sorting.QualitySortStable | src/Request/Accept/AbstractValues.php:119-133 | for every key, the entries in that key's bucket come out in their input order |
| Sorting.QualitySortUnique | src/Request/Accept/AbstractValues.php:114-136 | any sequence ordered by descending key with the input's buckets is the sort's result |
| Sorting.SortOneBucket | src/Request/Accept/AbstractValues.php:119-133 | entries that all share one key are left as they are |
| Sorting.TruncKey | src/Request/Accept/AbstractValues.php:121 | a float quality used as an array key keeps only its whole part, truncated toward zero |
| Sorting.TruncatedSortKeepsFractionOrder | src/Request/Accept/AbstractValues.php:121-126 | as written, qualities 0.5, 1.0, 0.8 sort to 1.0, 0.5, 0.8 |
| Sorting.ExactSortOrdersByQuality | src/Request/Accept/AbstractValues.php:124-126 | keyed by the quality itself, qualities never increase along the result |
| Sorting.ExactSortExample | src/Request/Accept/AbstractValues.php:124-126 | keyed by the quality itself, qualities 0.5, 1.0, 0.8 sort to 1.0, 0.8, 0.5 |
| Dedupe.RemoveDuplicatesSpec | src/Request/Accept/AbstractValues.php:138-146 | the result has pairwise distinct tokens and exactly the input's tokens; each token sits in the order of its first occurrence and carries the data of its last occurrence |
| Dedupe.RemoveDuplicatesUnique | src/Request/Accept/AbstractValues.php:138-146 | those four properties determine the result: any sequence with all of them is the result |
| Dedupe.RemoveDuplicatesOfDistinct | src/Request/Accept/AbstractValues.php:138-146 | entries whose tokens are already distinct pass through unchanged |
| ValueSet.MergeSpec | src/Request/Accept/AbstractValues.php:55-60 | after sorting and removing duplicates, every token of the old and new entries occurs once, as an entry taken from them whose key is the lowest among that token's occurrences |
| ValueSet.AddSpec | src/Request/Accept/AbstractValues.php:43-61 | server variables without the header empty the set; otherwise tokens stay distinct, and the tokens are the old ones plus the parsed ones |
| ValueSet.SetEmptyHeader | src/Request/Accept/AbstractValues.php:34-69 | setting the empty header gives one entry with the empty token at quality 1.0 |
| ValueSet.AddTwiceCanReorder | src/Request/Accept/AbstractValues.php:43-61 | the entries `x, y, x;q=0.5` merge to `x;q=0.5, y`, which is not quality-ordered, and adding them again puts `y` first |
| ValueSet.TruncatedMergeKeepsLater | src/Request/Accept/AbstractValues.php:55-60 | with the truncated key, merging `x;q=0.5, x;q=0.8` keeps only `x;q=0.8`, the later entry with the higher quality |
| ValueSet.MergeSameBucket | src/Request/Accept/AbstractValues.php:55-60 | two entries of one token that share a bucket merge to the later of the two, whatever their qualities |
| ValueSet.ParsePlain | src/Request/Accept/AbstractValues.php:63-95 | a string with no `,` and no `;` parses to its trimmed text at quality 1.0 with no parameters |
| ValueSet.MergePlain | src/Request/Accept/AbstractValues.php:55-60 | adding one plain entry to distinct plain entries appends it, unless its token is already present |
| ValueSet.ConvertAvailableNonEmpty | src/Request/Accept/AbstractValues.php:153-161 | a non-empty available list converts to a non-empty set |
| ValueSet.ConvertAvailableSpec | src/Request/Accept/AbstractValues.php:153-161 | the converted set holds every token of the available strings exactly once |
| ValueSet.ConvertPlain | src/Request/Accept/AbstractValues.php:153-161 | plain available strings convert to the list itself, trimmed, at quality 1.0, with later repetitions of a token dropped |
| Negotiation.FirstMatch | src/Request/Accept/AbstractValues.php:204-208 | the inner loop stops at the first available entry the acceptable entry matches |
| Negotiation.Walk | src/Request/Accept/AbstractValues.php:191-211 | the loop succeeds exactly when some acceptable entry has non-zero quality and is the wildcard or matches an available entry; the result is then an available entry |
| Negotiation.WalkPicksFirstDecisive | src/Request/Accept/AbstractValues.php:191-211 | the earliest such entry decides: the wildcard gives the first available entry, any other entry gives the first available entry it matches |
| Negotiation.WalkIgnoresZeroQuality | src/Request/Accept/AbstractValues.php:193-196 | removing the quality-zero entries from the acceptable set changes no outcome |
| Negotiation.Negotiate | src/Request/Accept/AbstractValues.php:175-212 | nothing available gives no match; an empty acceptable set gives the first converted entry; otherwise the result is a converted entry, and there is one exactly when some acceptable entry is decisive |
| Negotiation.NegotiatePicksFirstDecisive | src/Request/Accept/AbstractValues.php:175-212 | the negotiated value is the one the first decisive acceptable entry picks from the converted set |
| Negotiation.AllZeroRefuses | src/Request/Accept/AbstractValues.php:191-211 | an acceptable set in which every entry has quality zero refuses everything |
| Scenarios.EmptyAcceptableTakesFirst | src/Request/Accept/AbstractValues.php:185-188 | with no acceptable entries, the first plain available string, trimmed, wins |
| Scenarios.ConvertedHead | src/Request/Accept/AbstractValues.php:153-161 | the first converted entry is the first plain available string, trimmed |
| Scenarios.AbsentHeaderTakesFirst | src/Request/Accept/AbstractValues.php:47-51 | a header missing from any server variables leaves the set empty, and negotiation then takes the first plain available string |
| Scenarios.EmptyHeaderRefuses | src/Request/Accept/AbstractValues.php:175-211 | the empty header refuses every plain available string that does not trim to nothing |
| Scenarios.NotAvailable | src/Request/Accept/AbstractValues.php:204-208 | a token that no plain available string trims to matches nothing in the converted set |
| Scenarios.WildcardFallsBack | src/Request/Accept/AbstractValues.php:191-209 | an unavailable preferred token falls through to a lower wildcard, which takes the first available string |
| Scenarios.WildcardOverridesRefusal | src/Request/Accept/AbstractValues.php:193-201 | `*` ahead of `t;q=0` still returns `t` when `t` is available first |
| Scenarios.RefusalOnlyFails | src/Request/Accept/AbstractValues.php:193-211 | a lone `t;q=0` refuses `t` |

## Left out

- The value classes and `ValueFactory::newInstance` (line 86) are not part of this model. An entry is the record `Value(token, quality, params)`. `match` (line 205) is a parameter of the negotiation, and `isWildcard` is the token `*`. The value type passed to the factory is dropped.
- Parser.ParseQuality: the cast `(float) $quality` (line 89) is modelled in thousandths. Digits past the third decimal place are dropped. Exponent notation (`1e-1`), `INF`/`NAN` and hexadecimal forms are not modelled. A quality below 0.001 therefore counts as 0 and is skipped by the negotiation, which PHP would not skip. PHP rounds a decimal text to the nearest double, but the model truncates. This can change the bucket: `0.99999999999999999999` is 1.0 in PHP, so bucket 1, but 999 in the model, so bucket 0. Qualities are unbounded integers, whereas PHP holds them in a 53-bit-mantissa float and truncates them to a 64-bit array key.
- The PCRE engine (line 75) is modelled by the effect of its one pattern on a segment. Match errors and backtracking limits are not modelled.
- `get`, `getIterator`, `clone` and the constructor (lines 18-32, 148-151, 155) are PHP object plumbing. The set is a value, and `convertAvailable` builds a fresh one.
- `negotiate(null)` is the same as an empty available list, and the model has no separate null case. Non-string available entries and non-string server variables are not modelled.
- Negotiation.Negotiate: the result is an `Option`. It does not mimic PHP's `false`, which a caller could confuse with a falsy value.
- config/default.php is dependency-injection wiring with no logic.

## Findings

| source | as written | input that shows it | evidently intended | confidence | as-written member | corrected member |
|---|---|---|---|---|---|---|
| src/Request/Accept/AbstractValues.php:121-126 | the bucket key is the float quality, which PHP truncates to an integer array key, so every quality below 1.0 shares bucket 0 and keeps its header order | qualities `0.5, 1.0, 0.8` sort to `1.0, 0.5, 0.8` | the comment orders buckets by quality, giving `1.0, 0.8, 0.5` | not executed | Sorting.TruncatedSortKeepsFractionOrder | Sorting.ExactSortOrdersByQuality |

The sort, the merge, `add`, `convertAvailable` and `negotiate` take the bucket
key as a parameter. Every general property above holds for `ExactKey` as well as
for `TruncKey`. `Sorting.ExactSortExample` shows the corrected order on the same
input.

# qsfuzz core in Dafny

qsfuzz reads candidate URLs, and for every rule of its YAML configuration rewrites the URLs'
query parameters one value at a time, requests the rewritten URLs and judges each response
against the rule's expectations. Optionally it confirms a match by comparing a heuristic
("control") response with a baseline response. This project models the logic that does this:

- **the URL source** (`UrlSource`): the deduplication loop of `getUrlsFromFile`;
- **the injection generator** (`Injection`, `Utils`): `getInjectedUrls`, `expandTemplatedValues`,
  `getInjectedQueryString` and `isLengthWithinTenPercent`;
- **the evaluator** (`Evaluations`): `Rule.evaluate` and its four category checks, from
  evaluations.go;
- **the older evaluator** (`LegacyMain`): `runEvaluation` of main.go, with the types main.go
  declares for it;
- **the configuration** (`Config`): the cookie and header flags of `verifyFlags`, and the Slack
  channel and extra-parameter handling of `loadConfig`.

The Go library behaviour these depend on is modelled next to them:

- `GoStrings`: `Index`, `Contains`, `Split`, `Join`, `TrimSpace`, ASCII `ToLower`, byte-wise
  `sort.Strings` and `strings.Replacer`.
- `GoNumbers`: `strconv.Atoi`/`Itoa` on 64-bit integers, and truncating division.
- `NetUrl`: a full model of `url.QueryUnescape`. `url.Values` and a `*url.URL` whose
  `RawQuery` is overwritten in place. Parsing, encoding and escaping are abstract functions,
  passed in as a `UrlLibrary` value.
- `NetHttp`: `http.Header` with its canonical-key `Get`.

State the Go code changes in place is modelled in place:

- The `*url.URL` that `getInjectedUrls` keeps rewriting is a class, `NetUrl.Url`, with a
  mutable `rawQuery`.
- The `url.Values` map shared between `getInjectedUrls` and `expandTemplatedValues` is a class,
  `NetUrl.QueryValues`.
- The global configuration is a class, `Config.Configuration`.
- The global list of confirmed matches is a class: `Evaluations.ResultLog`, and
  `LegacyMain.ResultLog` for the older evaluator.

Loops over Go maps choose their next key nondeterministically. The proofs therefore hold for
every iteration order. A Go run-time panic (an index out of range, an integer division by zero)
is a `Panic` outcome, and the model states exactly when it happens.

Behaviour of the code worth noting, where it departs from what its comments or names suggest:

- **Templated tokens.** The tokens are matched with their case: the code replaces only the
  exact lower-case tokens (`Utils.UpperCaseTokenIsLiteral`).
- **Plain payloads.** The comment at utils.go:220 says the original value is set back so that
  only one parameter is updated at a time. The assignment at utils.go:191 copies the value onto
  itself through the same map. Only a payload that still holds both `[[` and `]]` after the
  first expansion pass (utils.go:181) rewrites the parameter, and it rewrites the parameter's
  whole list, through `Values.Set` at utils.go:247. Any other payload yields the parsed query,
  re-encoded (`Injection.PlainPayloadInjectsNothing`).
- **Multi-valued parameters.** The code visits every value of a parameter. A template payload
  shortens the list to one value, so the second value panics with an index out of range
  (`Injection.InjectPayload`, `Injection.GetInjectedUrls`). The number of injections is the
  number of payloads times the number of all values, not of parameters.
- **Extra parameters.** The comment at config.go:143-144 says extra parameters exist so that
  URLs without a query string are also included. The code runs the loop only on an empty
  query, and adds only to parameters that already have values, so it never adds anything
  (`Injection.AddExtraParams`, `Injection.GetInjectedUrls`).
- **Baselines.** Despite the comment at utils.go:220, the code never restores `RawQuery`, so
  each baseline is the URL the previous injection left behind (`Injection.BaselinesDrift`).
- **Length tolerance.** The comment at utils.go:272 says a match is a difference of less than
  10%. `isLengthWithinTenPercent` divides with truncation, so a positive length matches
  whenever the difference is below 100% of it (`Evaluations.LengthToleranceIsWholeLength`). An
  unknown length (-1) matches every expected length that is not too far from it
  (`Evaluations.UnknownLengthMatchesWithoutWrap`). The quotient times 100 is computed in 64-bit
  `int` and wraps: a difference of 2^62 against a length of 1 matches
  (`Utils.HugeDifferenceWrapsToMatch`), and a difference of 2^57 against -1 does not
  (`Utils.UnknownLengthWrapsToMismatch`).
  A zero length panics once an expected length parses (`Evaluations.LengthOutcome`).
- **Deduplication key.** The comment at utils.go:150 says each host, path and parameter-name
  combination is output once. The code joins the names with `&` into one string, so distinct
  name sets can collide (`UrlSource.AmpersandNameCollides`).

## Model

| member | source | states |
|---|---|---|
| GoStrings.Index | evaluations.go:96 | `strings.Index`: the result is the first position where the needle occurs, and it is -1 exactly when the needle occurs nowhere |
| GoStrings.ContainsIff | evaluations.go:96 | `strings.Contains` holds exactly when the needle occurs at some position |
| GoStrings.ContainsChar | evaluations.go:79 | `strings.Contains(u, "%")` holds exactly when `%` is one of the bytes of `u` |
| GoStrings.ToLower | evaluations.go:96 | `strings.ToLower` on ASCII keeps the length |
| GoStrings.TrimLeftDropsSpace | config.go:100 | trimming on the left keeps a suffix of the input and drops exactly its leading white space |
| GoStrings.TrimRightDropsSpace | config.go:100 | trimming on the right keeps a prefix of the input and drops exactly its trailing white space |
| GoStrings.TrimSpaceTrims | config.go:100 | `strings.TrimSpace` gives a text that neither starts nor ends with white space, and returns a text without white space at either end unchanged |
| GoStrings.TrimSpaceIdempotent | config.go:100 | trimming twice is trimming once |
| GoStrings.Split | config.go:90-96 | `strings.Split` gives at least one piece, and two or more exactly when the separator occurs; the first piece is the text before the first occurrence |
| GoStrings.JoinSplit | config.go:90 | joining the pieces of `strings.Split` with the separator gives back the input |
| GoStrings.SplitPiecesFree | config.go:90 | no piece of `strings.Split` holds the separator |
| GoStrings.LessEqReflexive | utils.go:146 | the byte order `sort.Strings` uses is reflexive |
| GoStrings.LessEqTotal | utils.go:146 | any two strings are comparable |
| GoStrings.LessEqAntisymmetric | utils.go:146 | strings ordered both ways are equal |
| GoStrings.LessEqTransitive | utils.go:146 | the order is transitive |
| GoStrings.Insert | utils.go:146 | inserting into a sorted list keeps it sorted and adds exactly that string |
| GoStrings.Sort | utils.go:146 | `sort.Strings` returns a sorted permutation of its input |
| GoStrings.SortedUnique | utils.go:146 | two sorted permutations of the same strings are equal |
| GoStrings.SortPair | utils.go:146 | example of Sort: two strings out of byte order come back swapped |
| GoStrings.SortIgnoresOrder | utils.go:143-146 | the sorted parameter names do not depend on the order in which the map gave them |
| GoStrings.FirstMatch | utils.go:234-238 | at one position the replacer uses the earliest-listed pattern that starts there, and says none when no pattern starts there |
| GoStrings.ReplaceNoPattern | utils.go:250 | a text in which no pattern occurs comes back unchanged from the replacer |
| GoStrings.ReplaceWithoutOpening | utils.go:230-250 | when every pattern starts with `[[`, a text without `[[` comes back unchanged |
| GoNumbers.Atoi | evaluations.go:126 | `strconv.Atoi` succeeds only on a signed or unsigned digit string, and only with a value in the 64-bit range |
| GoNumbers.AtoiItoa | evaluations.go:126 | every 64-bit integer written in decimal is read back by `strconv.Atoi` |
| GoNumbers.DigitsRoundTrip | evaluations.go:126 | the decimal digits of a natural number evaluate back to that number |
| NetUrl.QueryUnescape | utils.go:256 | `url.QueryUnescape`: a success is shorter by two bytes per `%`, a text without `%` always decodes, and one without `%` or `+` decodes to itself |
| NetUrl.DecodeForDisplay | evaluations.go:79-85 | the displayed URL is no longer than where decoding started, and it holds a `%` only when it cannot be unescaped |
| NetUrl.DecodeForDisplayIdempotent | evaluations.go:79-85 | decoding for display again changes nothing |
| NetUrl.AddValue | utils.go:174 | `Values.Add` keeps every parameter and adds only the named one |
| NetUrl.QueryValues.Set | utils.go:247 | `Values.Set` makes the parameter's list the single given value and changes nothing else |
| NetUrl.QueryValues.SetAt | utils.go:191 | `v[key][index] = value` overwrites one position of one list and changes nothing else |
| NetHttp.CanonicalKey | evaluations.go:111 | the canonical header key has the length of the name |
| NetHttp.GetIgnoresCase | evaluations.go:111 | `Header.Get` gives the same value for two header names that differ only in ASCII case |
| Utils.WithinTenPercent | utils.go:270-277 | while the quotient times 100 does not leave the int64 range, the check holds for a positive response length exactly when the difference is below the whole length, and always for a negative length |
| GoNumbers.Wrap64 | utils.go:273 | a product in Go's 64-bit `int` keeps the exact value wrapped into the int64 range: unchanged inside it, equal modulo 2^64 outside |
| Utils.HugeDifferenceWrapsToMatch | utils.go:273 | expected length 2^62+1 against response length 1 is within tolerance, because 2^62 * 100 wraps to 0 |
| Utils.UnknownLengthWrapsToMismatch | utils.go:273 | expected length 2^57-1 against the unknown length -1 (a difference of 2^57, which `float64` also gives) is not within tolerance, because -100 * 2^57 wraps to a positive product |
| Utils.QuoOfDifference | utils.go:273 | Go's truncating `diff/responseLength` of a difference is zero exactly when the difference is below a positive length, and is never positive for a negative length |
| Utils.TokenValues | utils.go:234-246 | the replacer's patterns are all non-empty and all start with `[[` |
| Utils.ExpandKeepsUnknownTokens | utils.go:234-250 | a template holding none of the four exact tokens comes back unchanged, whatever else it holds between brackets |
| Utils.UpperCaseTokenIsLiteral | utils.go:235-245 | `[[DOMAIN]]` is not replaced: tokens are matched with their case |
| Utils.OriginalValueNeedsParameter | utils.go:234-238 | without a named parameter, `[[originalvalue]]` stays literal |
| Utils.OriginalValueResolved | utils.go:240-247 | with a named parameter, `[[originalvalue]]` becomes the parameter's first value |
| Utils.DomainResolved | utils.go:236 | `[[domain]]` becomes the host name without port |
| Utils.ExpandTemplatedValues | utils.go:229-251 | a payload lacking `[[` or `]]` is returned unchanged and touches nothing; otherwise it is expanded with the URL's current values, and with a named parameter that parameter's whole list becomes the expansion; the map returned is the map given |
| Utils.InjectedQueryString | utils.go:253-268 | the result is an error exactly when the encoded query does not unescape (in both modes); otherwise it is the encoded query, or its unescaped form in decoded mode, never longer than the encoding |
| Utils.DecodedModeAgreesOnPlainQuery | utils.go:256-265 | on an encoded query without `%` or `+` both modes give the encoding |
| Injection.MutatedQuery | utils.go:188-191 | the injected query differs from the parsed one in the target parameter only, and only for a named parameter and a payload that is still a template, which shortens the parameter's list to one value |
| Injection.HeuristicQuery | utils.go:204-207 | the heuristic query differs from its base in the target parameter only, which is either left as it was or shortened to one value |
| Injection.RequestInjected | utils.go:188-201 | the baseline is the URL before the request; the injected URL carries `MutatedQuery`; a second value of a rewritten list panics; `u` is left showing the injected URL |
| Injection.RequestHeuristic | utils.go:203-215 | the value is written back, then the heuristic URL carries `HeuristicQuery` of the restored map; it panics exactly when the value is not the first and the heuristic expansion rewrote the list |
| Injection.InjectAt | utils.go:187-221 | one value: the injected and heuristic URLs differ from the parsed query in that parameter only; the parameter is restored afterwards, except for a list a template shortened; `u` shows the last URL requested |
| Injection.RestoreValue | utils.go:221 | writing the original value back restores the parsed map, or the map with the list shortened to its first value |
| Injection.InjectParameter | utils.go:187-222 | one injection per value of the parameter, each for that parameter alone; a template payload on a named parameter with two or more values panics, and only multi-valued parameters can panic |
| Injection.InjectPayload | utils.go:186-223 | for one payload every value position of the query is visited exactly once, in some order, each injection rewriting its own parameter only; the map is left as parsed |
| Injection.Payloads | utils.go:179-183 | each payload is expanded once, without a parameter |
| Injection.ExpandPayloads | utils.go:179-183 | the first loop computes `Payloads` of the rule's injections |
| Injection.AddExtraParams | utils.go:171-177 | no parameter is added; a parameter with values gets one empty value per mention, one without values gets none |
| Injection.InjectAll | utils.go:185-224 | as many injections as payloads times value positions, each pair of payload and value position exactly once; only a multi-valued query can panic, and a template payload on a named multi-valued parameter always does |
| Injection.GetInjectedUrls | utils.go:161-226 | a parse error is returned as is; otherwise the injections cover every pair of payload and value position once, each differing from the parsed query in one parameter, with baselines drifting and the panic conditions above |
| Injection.PlainPayloadInjectsNothing | utils.go:188-193 | a payload that is not a template produces an injected URL carrying the parsed query unchanged |
| Injection.BaselinesDrift | utils.go:189-215 | the first baseline is the URL as given; every later baseline is the URL the previous injection left |
| UrlSource.ParamNames | utils.go:142-145 | the collected names are the query's parameter names, each once |
| UrlSource.OfferOf | utils.go:129-148 | a line that does not parse, or has an empty query while no rule adds parameters, offers nothing; otherwise its key and rendered URL |
| UrlSource.Keep | utils.go:150-156 | a new key is recorded and its URL appended; a seen key or no key changes nothing |
| UrlSource.GetUrlsFromFile | utils.go:121-159 | the URLs returned are the offers kept in input order, each kept iff no earlier line offered its key |
| UrlSource.KeptKeysDistinct | utils.go:150-154 | every offered key is kept exactly once |
| UrlSource.KeptIsFirst | utils.go:150-156 | each kept URL is the one from the first line offering its key |
| UrlSource.KeyIgnoresValues | utils.go:141-148 | URLs with the same host name, escaped path and parameter names share a key, whatever their scheme, port and values |
| UrlSource.AmpersandNameCollides | utils.go:148 | a parameter named `a&b` and the parameters `a` and `b` give the same key |
| Config.HeaderPair | config.go:92-100 | a segment yields a header exactly when it holds a colon |
| Config.HeaderMapKeys | config.go:89-101 | a name is in the header map exactly when some segment gives it |
| Config.LastHeaderWins | config.go:100 | the last segment giving a name decides its value |
| Config.ColonSpaceTakesPrecedence | config.go:93-94 | example of HeaderPair: `X: a:b` splits at `": "`, giving the value `a:b` |
| Config.ParseHeaders | config.go:89-102 | the header loop builds `FlagHeaders` of the flag |
| Config.FlagsError | config.go:77-88 | no error exactly when a config file is given and the header flag is empty or holds a colon; a missing config file is reported first |
| Config.VerifyFlags | config.go:77-106 | the error is `FlagsError`; cookies are replaced when given; headers are replaced only when the flag is accepted; nothing else changes |
| Config.WithHash | config.go:137-138 | the channel starts with `#`, which is added only when missing |
| Config.WithHashIdempotent | config.go:137-138 | adding the `#` twice is adding it once |
| Config.NormalizedSlack | config.go:136-140 | empty settings are unchanged; otherwise a `channel` key exists and starts with `#`, and every other setting is kept |
| Config.NormalizedSlackIdempotent | config.go:136-140 | normalising twice is normalising once |
| Config.HasExtraParams | config.go:142-149 | the flag is set exactly when some rule lists extra parameters |
| Config.FinishLoading | config.go:130-151 | an error exactly when fewer than two Slack settings are given and Slack output is on, and then nothing changes; otherwise the channel is normalised and the extra-parameter flag set |
| Evaluations.ExpectedCategories | evaluations.go:23-41 | a category is expected exactly when its field is present, even if empty |
| Evaluations.HeuristicsExpected | evaluations.go:17-45 | the four guard names are present; a name is true exactly when some baseline-match name lower-cases to it |
| Evaluations.EvaluateContent | evaluations.go:94-107 | true exactly when some expected text occurs in the body ignoring ASCII case and, if guarded, the heuristic and baseline bodies are equal |
| Evaluations.EvaluateHeaders | evaluations.go:109-122 | true exactly when some expected header's value contains the expected text ignoring case and, if guarded, the heuristic and baseline header maps are equal |
| Evaluations.EvaluateStatusCode | evaluations.go:124-147 | true exactly when some expected code parses to the status and, if guarded, the heuristic and baseline codes agree and differ from the status |
| Evaluations.EvaluateContentLength | evaluations.go:149-167 | the result is `LengthOutcome`: false when no length parses, a panic for a zero divisor, otherwise whether some length is within tolerance (and, if guarded, the heuristic length is within tolerance of the baseline's) |
| Evaluations.Tally | evaluations.go:47-69 | the matched categories are expected ones, one per expected category whose check returned true |
| Evaluations.MatchedIsTally | evaluations.go:47-69 | the matched categories are the tally of the four checks' answers |
| Evaluations.Count | evaluations.go:47-69 | the counter adds one per expected category that matched |
| Evaluations.CountMatches | evaluations.go:43-69 | the count is the number of matched categories, or the length check's panic |
| Evaluations.DecodeUntilPlain | evaluations.go:79-85 | the loop ends with `DecodeForDisplay` of its start |
| Evaluations.Evaluate | evaluations.go:12-92 | the evaluation is `EvaluationOf`, and exactly one record with the injected URL as requested is appended when it succeeds |
| Evaluations.CategoryCount | evaluations.go:19-41 | the number of checks is the number of present fields |
| Evaluations.ChecksMatchedBounded | evaluations.go:47-69 | the count never exceeds the number of expected categories, at most four |
| Evaluations.SuccessfulIffAllExpectedMatch | evaluations.go:71 | success exactly when at least one category is expected and every expected category matched |
| Evaluations.NoExpectationNeverSucceeds | evaluations.go:71 | a rule expecting nothing never succeeds |
| Evaluations.OneMissedCategoryFails | evaluations.go:71 | one expected category that did not match makes the rule fail with no message |
| Evaluations.MessageShowsDecodedUrl | evaluations.go:73-87 | the message shows the injected URL decoded until no `%` is left or decoding fails, never longer than the URL |
| Evaluations.UnknownGuardNameIgnored | evaluations.go:43-45 | a baseline-match name other than the four guards changes nothing |
| Evaluations.SameGuardsSameEvaluation | evaluations.go:43-69 | the baseline-match names act only through the four guards |
| Evaluations.SameGuardsSameMatches | evaluations.go:43-69 | rules with the same expectations and the same four guards match the same categories and panic alike |
| Evaluations.LengthToleranceIsWholeLength | evaluations.go:156 | an unguarded length check on a positive length succeeds when some expected length differs by less than the whole length, and otherwise only through an expected length whose quotient times 100 wraps in 64 bits |
| Evaluations.LengthWithinWholeLength | evaluations.go:156 | an expected length that differs from a positive length by less than the whole length makes the unguarded check succeed |
| Evaluations.LengthBeyondWholeLengthWraps | evaluations.go:156 | a successful unguarded check on a positive length has an expected length within the whole length or one whose product wraps |
| Evaluations.UnknownLengthMatchesWithoutWrap | evaluations.go:149-158 | with length -1 an unguarded length check succeeds only when some expected length parses, and does succeed when one parses and differs from -1 by at most MaxInt64/100 |
| Evaluations.HeaderNameCaseIgnored | evaluations.go:110-111 | renaming an expected header to a name differing only in ASCII case leaves the header check's answer unchanged |
| LegacyMain.NumOfChecks | main.go:102-115 | at most three checks, and none exactly when no field is present |
| LegacyMain.ContentHits | main.go:117-123 | the content hits never exceed the number of expected contents |
| LegacyMain.CountContents | main.go:117-123 | the loop counts each expected content found in the body, case-sensitively |
| LegacyMain.CountCodes | main.go:125-131 | the loop counts the expected codes equal to the status, duplicates included |
| LegacyMain.CountHeaders | main.go:133-139 | the loop counts the expected headers whose value contains the expected text, in any map order |
| LegacyMain.RunEvaluation | main.go:93-152 | the evaluation is `EvaluationOf`: success when the hits reach the number of present fields; exactly one record is appended iff it succeeds |
| LegacyMain.NoExpectationsSucceed | main.go:141 | a rule expecting nothing always succeeds, with zero checks matched |
| LegacyMain.ChecksMatchedBounded | main.go:117-139 | the hits never exceed the number of expected items |
| LegacyMain.SurplusCompensates | main.go:141 | two content hits make up for a code that did not match: the rule succeeds |
| LegacyMain.DuplicateCodesCountTwice | main.go:125-131 | a rule expecting only the response's status, listed twice, counts two matches against one check and succeeds |

## Left out

- The dispatcher in `main` is not modelled: its worker goroutines, channels, request counters and the per-run response requests. These are concurrency and network I/O.
- httpUtils.go (the HTTP client and requests) and slack.go (posting to Slack) are not part of this model. They are network I/O.
- Flag registration, `flag.Parse`, printing the version and `os.Exit` in `verifyFlags` are not modelled: they are process I/O. `Config.VerifyFlags` starts from the parsed options.
- Reading and unmarshalling the YAML file with viper in `loadConfig` is not modelled: it is file I/O. `Config.FinishLoading` starts from the loaded rules and Slack settings.
- utils.go:16-119 repeats `verifyFlags` and `loadConfig`. Their logic after the flags are read is the same as in config.go, so it is modelled once, from config.go.
- Reading standard input in `getUrlsFromFile` and its `scanner.Err()` are not modelled: they are I/O. `UrlSource.GetUrlsFromFile` takes the lines as a sequence.
- The debug printing of query-string errors (utils.go:194-198, utils.go:209-213) is not modelled: it is output only. The error itself is modelled, through `Utils.QueryOrEmpty`.
- `url.Parse`, `url.ParseQuery`, `Values.Encode` and `url.QueryEscape` are abstract functions: the model does not describe their internals. `URL.String` is rendered from an opaque prefix (scheme, authority and escaped path), the query and the fragment.
- The order of Go map iteration is left unspecified: every loop over a map picks its next key nondeterministically, so the properties hold for every order, and the output order of injections is not fixed.
- Utils.WithinTenPercent: computes the absolute difference exactly, whereas the source goes through `float64`, which rounds differences above 2^53, and converts back to `int`, whose result Go leaves to the platform for a difference of 2^63 or more; the later `*100` is wrapped to 64 bits as Go does.
- GoStrings.ToLower: maps only ASCII letters; the source's `strings.ToLower` also maps non-ASCII letters.
- GoStrings.TrimSpace: trims only ASCII white space, not the other Unicode spaces `strings.TrimSpace` removes.
- GoStrings.ToLower: the contract states only that the length is kept; what it computes is stated through the predicates that use it.
- NetHttp.CanonicalKey: the contract states only that the length is kept; its use is stated by `NetHttp.GetIgnoresCase`.
- The global results list and the shared configuration are modelled as objects, not as shared globals. The races on them between workers are not modelled.

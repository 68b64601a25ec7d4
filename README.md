# Semantic image search: relevance filter and captioning-failure classifier

This project models the two decision procedures of a semantic image-search
application in Dafny and proves properties about them.

- **The `search` server action** (`app/actions/search.ts`). It validates the
  submitted query and asks the search index for up to 20 candidates. It ranks
  the candidates by score, highest first, and applies a two-tier relevance
  rule. A score of at least 0.6 always survives. A score of at least 0.4
  survives when it also reaches 75% of the top score. The action then returns
  the metadata of the survivors that have metadata, or an error message. The
  three constants are a `Thresholds` value, `SourceThresholds`, so that laws
  such as monotonicity can be stated for any thresholds while the concrete
  behaviour stays pinned to 0.6 / 0.4 / 0.75.
- **The failure handling of the `generateDescription` workflow step**
  (`app/api/upload/generate-description.ts`). On success the step returns
  the generated text. On failure it classifies the error message with a fixed
  sequence of case-sensitive substring tests, then looks at the attempt
  number. The outcome is one of: retry after "5m" (rate limit), fatal (bad
  input), fatal (attempts exhausted), or a plain error that the workflow
  runtime retries.

Both files are pure decision logic, so the model is pure too: datatypes,
functions and lemmas. There are no classes or loops, because the source has
none. The one mutation in the source is the in-place sort of a fresh array,
read only through its result. It is modelled as a function returning the
sorted sequence.

Collaborators that perform I/O become parameters:

- The search index is a function from (query, limit) to either the retrieved
  candidates or a thrown value.
- The vision-model call is a `ModelCall` value: generated text or a thrown
  value.
- The step metadata is a `StepMetadata` value: attempt number, step id and
  start time as an ISO-8601 string.

Files:

- `wrappers.dfy`: `Option`, the thrown value of a catch block, and its
  message.
- `strings.dfy`: JavaScript's `includes` as a substring predicate, and the
  decimal rendering of an integer with its inverse.
- `subsequences.dfy`: the subsequence relation, which is what filtering
  leaves of a list.
- `ranking.dfy`: candidates and the stable descending sort.
- `search.dfy`: query validation, threshold rule, projection to metadata, the
  response, and the laws about them.
- `captioning.dfy`: the failure classifier and the step outcome.

Some facts about the code that the model keeps, because they are easy to
assume otherwise:

- Ranking and filtering are the whole pipeline. No later step re-ranks the
  survivors or falls back to the unfiltered list.
- The three constants are fixed in the action and are not configurable. The
  minimum of 0.4 only matters below the strong threshold of 0.6: there is no
  separate floor that applies to every score, and the relative threshold is
  `0.75 * topScore` itself, not its maximum with the minimum.
- The data is not deduplicated. Two surviving candidates with equal metadata
  both contribute it (`DuplicateMetadataIsKept`).
- Scores are not assumed to lie in [0, 1].

## Model

| member | source | states |
|---|---|---|
| `SearchAction.QueryOf` | app/actions/search.ts:24-28 | A query exists exactly when the `search` field holds non-empty text. A missing field, an uploaded file and the empty string are all rejected. |
| `SearchAction.SearchWith` | app/actions/search.ts:20-64 | Without a query the answer is the fixed "Please enter a search query" error. With a query, a thrown value gives `Error(message)`. Retrieved candidates give `Data` holding exactly the pipeline's output for those candidates. |
| `SearchAction.Search` | app/actions/search.ts:20-64 | The answer is an error exactly when the query is missing or the index call throws. Otherwise it is data. The response datatype holds exactly one of the two. |
| `SearchAction.NoQueryNoSearch` | app/actions/search.ts:24-28 | A missing, file or empty query yields the fixed error whatever the index would return, so no search is performed. |
| `Wrappers.MessageOf` | app/actions/search.ts:61 | The reported message is the thrown `Error`'s own message, and "Unknown error" for any other thrown value. The captioning step uses the same rule. |
| `SearchAction.IndexFailureIsReported` | app/actions/search.ts:60-64 | A throwing index call yields `Error` with the thrown `Error`'s message, or "Unknown error" for a non-`Error` value. |
| `SearchAction.AnswerDependsOnlyOnFetch` | app/actions/search.ts:30-34 | With a valid query, the answer depends only on what the index returns for that query with a limit of 20. |
| `Ranking.SortByScore` | app/actions/search.ts:36 | The ranked list has non-increasing scores and is a permutation of the retrieved candidates (multiset equality). |
| `Ranking.SortIsStable` | app/actions/search.ts:36 | For every score value, the candidates with that score appear in the ranked list in their retrieval order. |
| `Ranking.SortKeepsCandidates` | app/actions/search.ts:36 | A candidate is in the ranked list exactly when it was retrieved. |
| `Ranking.SortKeepsRankedList` | app/actions/search.ts:36 | A list that already has non-increasing scores is left unchanged. |
| `SearchAction.TopScoreIsBest` | app/actions/search.ts:46 | After ranking, the top score is 0 when nothing was retrieved. Otherwise it is the score of a retrieved candidate, and no retrieved candidate scores higher. |
| `SearchAction.TopScore` | app/actions/search.ts:46 | 0 for an empty list. Otherwise it is the score of one of the candidates, and for a ranked list no candidate scores higher. |
| `SearchAction.RelativeThreshold` | app/actions/search.ts:47 | For a fraction in [0, 1] and a non-negative top score it lies between 0 and the top score. It is 0 when the fraction or the top score is 0. |
| `SearchAction.Keeps` | app/actions/search.ts:50-54 | A score at or above the strong threshold always survives. If minimum ≤ strong, a score below the minimum never survives. A score between the two survives exactly when it reaches fraction × top. |
| `SearchAction.SourceBands` | app/actions/search.ts:44-54 | With the action's constants (`SourceThresholds`: strong 0.6, minimum 0.4, fraction 0.75): ≥ 0.6 survives, < 0.4 is dropped, and [0.4, 0.6) survives exactly when ≥ 0.75 × top. |
| `SearchAction.TopSurvivesIffAboveMinimum` | app/actions/search.ts:46-54 | For 0 ≤ minimum ≤ strong and 0 ≤ fraction ≤ 1, the first ranked candidate survives exactly when its score reaches the minimum. |
| `SearchAction.BestSurvivesIffAtLeastMinimum` | app/actions/search.ts:44-54 | With the action's constants, the best retrieved candidate survives exactly when it scores at least 0.4. |
| `SearchAction.ApplyThresholds` | app/actions/search.ts:49-55 | Every survivor passes the two-tier rule, and there are no more survivors than candidates. |
| `SearchAction.ApplyThresholdsCounts` | app/actions/search.ts:49-55 | A candidate the rule keeps survives exactly as often as it occurs in the ranked list. Any other candidate does not survive. |
| `SearchAction.ApplyThresholdsDetermined` | app/actions/search.ts:49-55 | Order and multiplicities fix the survivors: any subsequence of the ranked list with the counts above is the filter's result. |
| `SearchAction.ApplyThresholdsMembers` | app/actions/search.ts:49-55 | A candidate survives exactly when it is in the list and the rule keeps its score. |
| `SearchAction.ApplyThresholdsIsSubsequence` | app/actions/search.ts:49-55 | The survivors are a subsequence of the ranked list, so ranked order is kept. |
| `SearchAction.ApplyThresholdsMonotone` | app/actions/search.ts:44-55 | With a higher strong or minimum threshold, the survivors are a subsequence of those under the lower thresholds. |
| `SearchAction.Metadata` | app/actions/search.ts:56 | The projection has one entry per survivor: that survivor's metadata, missing or not. |
| `SearchAction.Present` | app/actions/search.ts:57 | There are no more outputs than inputs. Every present value is output, and every output is a present value. |
| `SearchAction.PresentIsFilter` | app/actions/search.ts:57 | Every present value is output exactly as often as it occurs, and the outputs keep the input order. |
| `SearchAction.PresentDetermined` | app/actions/search.ts:57 | Order and multiplicities fix the output: any list with the counts above whose values form a subsequence of the input is the result. |
| `SearchAction.PresentMetadataIsWithMetadata` | app/actions/search.ts:56-57 | Projecting and then dropping missing values equals keeping the candidates that have metadata and then projecting. |
| `SearchAction.PresentMetadataKeepsSubsequence` | app/actions/search.ts:56-57 | The projection maps subsequences of candidates to subsequences of metadata. |
| `SearchAction.Relevant` | app/actions/search.ts:36-57 | The data has at most one item per retrieved candidate. |
| `SearchAction.ShownCounts` | app/actions/search.ts:36-57 | A retrieved candidate whose metadata is returned is one that has metadata and passes the rule. Each such candidate is counted exactly as often as the index returned it. |
| `SearchAction.RelevantMembers` | app/actions/search.ts:36-57 | A metadata value is returned exactly when a retrieved candidate carries it and passes the rule against the top score. So the data is a subset of the retrieved set, and candidates without metadata never appear. |
| `SearchAction.RelevantInRankOrder` | app/actions/search.ts:36-57 | The data is the metadata, one item each, of a subsequence of the ranked list, so scores do not increase. That subsequence holds every retrieved candidate that has metadata and passes the rule, as often as the index returned it, and no other candidate. |
| `SearchAction.RelevantMonotone` | app/actions/search.ts:44-57 | Raising the strong or minimum threshold gives data that is a subsequence of the former data. It is no longer and contains no new item. |
| `SearchAction.SearchMonotone` | app/actions/search.ts:20-64 | For a fixed index, stricter thresholds leave an error answer unchanged, message included. A data answer stays data and becomes a subsequence of the former data. |
| `SearchAction.EmptyRetrievalIsEmptyData` | app/actions/search.ts:31-59 | An index returning no candidates yields `Data([])`, not an error. |
| `SearchAction.LoneModerateMatchSurvives` | app/actions/search.ts:46-57 | A lone candidate scoring 0.55 survives: it is below 0.6 but reaches both 0.4 and 0.75 × 0.55. |
| `SearchAction.ScenarioKeepsTwoStrongMatches` | app/actions/search.ts:44-57 | Scores 0.9, 0.7, 0.5 and 0.2 keep exactly the first two. 0.5 is under 0.675 and 0.2 is under 0.4. |
| `SearchAction.DuplicateMetadataIsKept` | app/actions/search.ts:49-57 | Two survivors scoring 0.9 and 0.8 that carry the same metadata `m` give the data `[m, m]`. |
| `SearchAction.MissingMetadataIsDropped` | app/actions/search.ts:46-57 | A top-scoring candidate without metadata is dropped from the data, but its score still sets the relative threshold. |
| `Captioning.GenerateDescription` | app/api/upload/generate-description.ts:17-84 | On success the generated text is returned unchanged. On failure the outcome is the classification of the thrown value's message, or of "Unknown error" for a non-`Error`, and never a description. |
| `Captioning.IsRateLimited` | app/api/upload/generate-description.ts:54-58 | The rate-limit test (keywords "rate limit", "429", "quota"). A match needs a message of at least three characters. |
| `Captioning.IsInvalidInput` | app/api/upload/generate-description.ts:65-69 | The bad-input test (keywords "invalid image", "unsupported", "400"). A match needs a message of at least three characters. |
| `Captioning.KeywordsSurviveWrapping` | app/api/upload/generate-description.ts:54-69 | A message that passes either test still passes it with any text added before or after it. |
| `Captioning.RateLimitedText` | app/api/upload/generate-description.ts:59 | The rate-limit text ends with the failure's message. |
| `Captioning.InvalidInputText` | app/api/upload/generate-description.ts:71 | The bad-input text starts with the bracketed step id and ends with the message. |
| `Captioning.ExhaustedText` | app/api/upload/generate-description.ts:78 | The exhausted-attempts text starts with the bracketed step id and ends with the message. |
| `Captioning.RetryText` | app/api/upload/generate-description.ts:83 | The plain error text ends with the failure's message. |
| `Captioning.ClassifyFailure` | app/api/upload/generate-description.ts:50-84 | A failure is always turned into one of the four error kinds. |
| `Captioning.OutcomeKinds` | app/api/upload/generate-description.ts:54-83 | Each outcome arises exactly under its own condition. Retryable iff rate limited. Fatal for bad input iff not rate limited and the message names bad input. Fatal exhausted iff neither and attempt ≥ 5. Plain error iff neither and attempt < 5. |
| `Captioning.RateLimitedIsRetryable` | app/api/upload/generate-description.ts:54-61 | A message containing "rate limit", "429" or "quota" yields Retryable("Rate limited: " + message, "5m") at every attempt. |
| `Captioning.RateLimitTakesPrecedence` | app/api/upload/generate-description.ts:54-72 | A message containing both "429" and "400" is retryable, not fatal. |
| `Captioning.InvalidInputIsFatal` | app/api/upload/generate-description.ts:64-73 | Otherwise, "invalid image", "unsupported" or "400" yields the bad-input fatal error at every attempt. |
| `Captioning.UnclassifiedDependsOnAttempt` | app/api/upload/generate-description.ts:75-83 | Otherwise attempt < 5 yields the plain error "AI generation failed: " + message, and attempt ≥ 5 yields the exhausted fatal error with its full text. Which of the two kinds it is depends on nothing else; the exhausted text also names the step id, the attempt and the start time. |
| `Captioning.ErrorTextQuotesMessage` | app/api/upload/generate-description.ts:59-83 | Every error text ends with the original failure message. |
| `Captioning.ExhaustedTextNamesAttempt` | app/api/upload/generate-description.ts:77-79 | The exhausted-attempts text contains the attempt number in decimal, and that number reads back to the attempt. |
| `Strings.DecimalString` | app/api/upload/generate-description.ts:78 | The rendering of the attempt is non-empty and all digits, with no leading zero. |
| `Strings.DecimalRoundTrip` | app/api/upload/generate-description.ts:78 | Reading the rendered digits back gives the number. |
| `Captioning.UnknownErrorMatchesNoKeyword` | app/api/upload/generate-description.ts:51-68 | "Unknown error" contains none of the six keywords. |
| `Captioning.NonErrorDependsOnlyOnAttempt` | app/api/upload/generate-description.ts:51-83 | A thrown non-`Error` is classified by the attempt alone: a plain error before attempt 5, the exhausted fatal error from attempt 5. |
| `Captioning.MixedStatusCodesExample` | app/api/upload/generate-description.ts:54-72 | "status 429 after status 400" is retryable. |
| `Captioning.CapitalisedRateLimitIsUnclassified` | app/api/upload/generate-description.ts:54-83 | The tests are case-sensitive: "Rate limit exceeded" is not rate limiting, and before attempt 5 it yields the plain error. |
| `Captioning.TimeoutMentioningFourHundredIsFatal` | app/api/upload/generate-description.ts:64-73 | The tests are unanchored: "timed out after 4000ms" contains "400" and is the bad-input fatal error. |

## Left out

- The search client, its credentials and the network call are not modelled. The index is a parameter that returns candidates or a thrown value.
- The limit of 20 is passed to the index, but the model does not require that the index respects it.
- The first parameter of the action (the previous form state) is not modelled, because the action never reads it.
- Only the value of the form's `search` field is modelled, not the rest of the form data.
- Scores, thresholds and `0.75 * topScore` are exact reals, not IEEE-754 doubles. Rounding, NaN and infinities are not modelled. The sort's comparator subtracts scores, and with exact reals it orders by score exactly.
- Metadata is an opaque type parameter. Absent metadata is `None`. A present but falsy metadata value, such as `0` or `""`, cannot be represented, because the index stores metadata as an object. The cast of the data to the blob-result type is not modelled.
- The vision-model call, its prompt, the model name and the console logging are not modelled. Only the call's outcome is a parameter.
- The workflow runtime is not modelled. That covers how it schedules retries, what it does with `RetryableError`, `FatalError` and plain errors, how it honours "5m", and what `maxRetries = 5` means to it. The step's outcome is a datatype with one constructor per thrown error kind. The model does not relate the step's own give-up test, `attempt >= 5`, to `maxRetries`. Whether attempt 5 is the runtime's last attempt depends on how the runtime counts attempts and retries.
- `Strings.DecimalString`: renders every attempt number in plain decimal. JavaScript switches to exponent notation from 10^21 on, and the model does not follow that.
- The step's start time is an ISO-8601 string parameter. Calling the clock and formatting the date are not modelled.
- The `FatalCause` tag is a model addition. The source tells the two fatal errors apart only by their message text, which the model also produces.
- The user-interface components, the layout, the deploy button and the debug-search endpoint are not modelled. They render, handle toasts or echo raw search results, and contain no decision logic.

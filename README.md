# PRR scoring and comparison engine in Dafny

This project models the scoring and comparison engine of a Product Readiness Review (PRR) service. Teams answer a questionnaire per service. Each answer names a question of the catalog. Each question belongs to a section.

- **Scorer.** When a submission is created, its answers become per-section Yes/No/N-A tallies. An answer whose question is unknown, or whose question has no section, is skipped. The response is lower-cased and matched against `yes`, `no` and `n/a`. A matching response increments that counter of its section's tally. Any other response still creates the section's tally, but increments nothing.
- **Comparator.** Two submissions of one service are compared into a report. The report holds the old and new tally of every section that appears on either side, using the zero value where a side lacks the section. It lists the answers that changed, the questions answered only in the new submission, and the questions answered only in the old one. Answers are read last-seen-wins.
- **Old/new selection.** The compare request fetches two submissions. The one with the strictly earlier timestamp is "old". On a tie, the second one fetched is old.

Files:

- `models.dfy` (module `Models`): the records of the data model, as datatypes.
- `scoring.dfy` (module `Scoring`): the scoring loop as the method `Score`. It is proved equal to `Scored`, a closed form in which each section's counters are the numbers of matching answers. Lemmas about `Scored` cover one more answer, skipping, order independence and the bound on the sum of all counters.
- `comparison.dfy` (module `Comparison`): `GenerateComparisonReport`, written as its loops. Each loop over a map's keys takes the next key by an arbitrary choice, because map iteration order is unspecified. The method is proved against the predicate `IsComparisonReport`. Lemmas derive the partition of question ids, the last-seen-wins reading of the details, old/new symmetry and the section ids of compared tallies. This file also holds the timestamp selection.
- `scenarios.dfy` (module `Scenarios`): the four table-driven comparison cases of the handler test, and scoring cases, stated for every report the comparator may produce.

## Model

| member | source | states |
|---|---|---|
| `Scoring.Classify` | api/handlers/prr_submission_handlers.go:175-185 | A response counts as Yes, No or N/A exactly for the case-insensitive spellings of `yes`, `no` and `n/a` that the contract lists character by character. Every other string is unrecognised. |
| `Scoring.Sections` | api/handlers/prr_submission_handlers.go:157-173 | A section gets a tally exactly when some answer names a catalog question in that section. The empty section id never gets one. |
| `Scoring.Count` | api/handlers/prr_submission_handlers.go:175-185 | A counter never exceeds the number of answers. |
| `Scoring.Recognised` | api/handlers/prr_submission_handlers.go:157-187 | At most all answers increment some counter. All of them do exactly when every answer is scorable and has a recognised response. |
| `Scoring.Score` | api/handlers/prr_submission_handlers.go:157-187 | The scoring loop returns exactly the closed-form tallies. Each tally is stored under its own non-empty section id. Empty answers give an empty map. |
| `Scoring.NewSubmission` | api/handlers/prr_submission_handlers.go:146-187 | A new submission copies its id, service, user, timestamp and answers, and carries the tallies of its answers. Id and timestamp are parameters. |
| `Scoring.ScoredWellKeyed` | models/models.go:48-53 | The tally map is keyed by section id, and each stored tally's `SectionId` equals its key. |
| `Scoring.ScoredSnoc` | api/handlers/prr_submission_handlers.go:157-187 | One more answer: if its question is unknown or has no section, the tallies are unchanged. Otherwise its section's tally is fetched, or created with zero counts, then the response is applied and the tally stored back. An unrecognised response stores the tally unchanged. |
| `Scoring.ScoredSkips` | api/handlers/prr_submission_handlers.go:158-168 | A skipped answer, wherever it stands, does not stop the answers after it from being tallied. The result is the same as if it were absent. |
| `Scoring.ScoredOrderIndependent` | api/handlers/prr_submission_handlers.go:157-187 | Two answer sequences that are permutations of each other give the same tallies. |
| `Scoring.ScoredGrandTotal` | api/handlers/prr_submission_handlers.go:157-187 | The sum of all counters of all sections equals the number of answers that increment a counter. |
| `Scoring.ScoredTotalBound` | api/handlers/prr_submission_handlers.go:153-187 | The sum of all counters is at most the number of answers. It equals it exactly when every answer names a known question with a section and gives a recognised response. |
| `Comparison.AnswerMap` | api/handlers/prr_submission_handlers.go:436-443 | The lookup map has exactly the answered question ids as keys. |
| `Comparison.AnswerMapLastSeen` | api/handlers/prr_submission_handlers.go:436-443 | Last-seen-wins: each key maps to the response of the last answer to that question. |
| `Comparison.BuildAnswerMap` | api/handlers/prr_submission_handlers.go:436-443 | The map-building loop yields the answered ids as keys, each mapped to the response of its last answer. |
| `Comparison.CompareSections` | api/handlers/prr_submission_handlers.go:418-433 | The section comparison's keys are exactly the union of both tally maps' keys. Each entry pairs the stored tallies, with the zero value on a side that lacks the key. |
| `Comparison.ListOldAnswers` | api/handlers/prr_submission_handlers.go:445-468 | Answer changes list exactly the ids answered differently on both sides (exact comparison). No-longer-answered lists exactly the ids missing from the new side. Each id appears once, with its catalog text or "", and its two responses ("" for the missing side). |
| `Comparison.ListNewAnswers` | api/handlers/prr_submission_handlers.go:470-483 | Newly-answered lists exactly the ids missing from the old side, each once, with old answer "". |
| `Comparison.ListsAppend` | api/handlers/prr_submission_handlers.go:453-481 | Appending the detail of an id not yet listed keeps a list exact. |
| `Comparison.GenerateComparisonReport` | api/handlers/prr_submission_handlers.go:405-485 | The report copies the service id and both submission ids. Its section comparison and its three lists are as stated in the rows above, built from the last-seen-wins maps. |
| `Comparison.Chronological` | api/handlers/prr_submission_handlers.go:549-554 | The pair is (old, new) with old not after new, and it is the two given submissions. On equal timestamps the second submission is old. |
| `Comparison.CompareSubmissions` | api/handlers/prr_submission_handlers.go:549-554 | The report compares the strictly earlier submission (the second on a tie) as old against the other as new. |
| `Comparison.ReportPartition` | api/handlers/prr_submission_handlers.go:445-483 | Any question id is in answer changes iff both sides answer it differently. It is in no-longer-answered iff only the old side answers it, and in newly-answered iff only the new side does. So it is in at most one list, and in none when both sides answer it identically. |
| `Comparison.ReportDetails` | api/handlers/prr_submission_handlers.go:445-483 | Every detail has its catalog text and the responses of the last answers on each side. It has "" on the unanswered side. A change always has two different responses. |
| `Comparison.EmptyIds` | api/handlers/prr_submission_handlers.go:411-414 | A detail list is empty exactly when it names no question. |
| `Comparison.ListedDetail` | api/handlers/prr_submission_handlers.go:453-481 | Every id of an exact list appears in it with its own detail. |
| `Comparison.ReportSwap` | api/handlers/prr_submission_handlers.go:405-485 | Comparing in the other direction gives the same changed ids with their responses swapped. Newly-answered and no-longer-answered trade places, and each section comparison has its two tallies exchanged. |
| `Comparison.SameAnswersNoDetails` | api/handlers/prr_submission_handlers.go:445-483 | Two submissions with the same last answers give three empty lists. |
| `Comparison.ComparedSectionIds` | models/models.go:59-63 | With well-keyed tally maps, each side of a section comparison is that section's tally. A side that lacks the section gets the zero value with an empty section id. At least one side names the section. |
| `Scenarios.DistinctIdsCount` | api/handlers/prr_submission_handlers.go:445-483 | A list that names each question once is as long as its set of ids. |
| `Scenarios.SingletonList` | api/handlers/prr_submission_handlers_test.go:86-88 | An exact list of one id is that id's detail alone. |
| `Scenarios.PairList` | api/handlers/prr_submission_handlers_test.go:178-181 | An exact list of two ids holds their two details, in either order. |
| `Scenarios.NoChangesCase` | api/handlers/prr_submission_handlers_test.go:29-59 | Test case "No changes": the report is exactly the expected one, with three empty lists. |
| `Scenarios.OneAnswerChangeCase` | api/handlers/prr_submission_handlers_test.go:60-92 | Test case "One answer change": the report is exactly the expected one. |
| `Scenarios.NewlyAndNoLongerCase` | api/handlers/prr_submission_handlers_test.go:93-128 | Test case "Newly and No Longer Answered": the report is exactly the expected one. |
| `Scenarios.SectionScoreChangesCase` | api/handlers/prr_submission_handlers_test.go:129-186 | Test case "Section score changes complex": the header, section comparison, answer changes and no-longer-answered list are as expected. The newly answered q2 and q4 come in either order. |
| `Scenarios.ChronologicalCase` | api/handlers/prr_submission_handlers.go:549-554 | The earlier fixture is old, in whichever order the two are fetched. |
| `Scenarios.OldFixtureScoresCase` | api/handlers/prr_submission_handlers_test.go:136-143 | The tallies stored in the old fixture of the complex case are those the scorer computes. |
| `Scenarios.NewFixtureScoresCase` | api/handlers/prr_submission_handlers_test.go:149-157 | The tallies stored in the new fixture of the complex case are those the scorer computes. |
| `Scenarios.UnknownQuestionCase` | api/handlers/prr_submission_handlers.go:158-162 | An answer to a question missing from the catalog yields an empty tally map, not an error. |
| `Scenarios.UnrecognisedResponseCase` | api/handlers/prr_submission_handlers.go:170-186 | The response "Maybe" creates section s1's tally with zero counts. |

## Left out

- HTTP routing, request decoding and validation, and the Elasticsearch search, get and index calls. This includes the re-marshalling of untyped search hits. These are network I/O and a foreign library. The core takes the catalog and the submissions as already-fetched values.
- The handler's checks that the service, user and answers are non-empty, that the two ids differ, and that both submissions belong to the service. These are request validation done before the core runs.
- `uuid.New()` and `time.Now()`. `NewSubmission` takes the id and timestamp as parameters. Timestamps are integers, and "before" is `<`.
- Logging of skipped answers and unrecognised responses. It has no effect on results.
- The other handler files, `main.go` and the database client are not part of this model. They are create/read/update/delete and search plumbing.
- Comparison.CompareSubmissions: models the request path with the one comparator, `GenerateComparisonReport`. The handler's own inline copy of the comparator (api/handlers/prr_submission_handlers.go:596-657) differs in two ways that are not modelled. It does not initialise the three lists, so an empty list is encoded as JSON `null` rather than `[]`. Its file also calls `fmt.Errorf` without importing `fmt`.
- Go `nil` slices: Dafny sequences cannot be nil. So "the three lists are never nil" holds by construction and is not a separate contract.
- Scoring.ToLower: lower-cases ASCII letters only, where Go's `strings.ToLower` uses Unicode case mapping. This does not change which responses match `yes`, `no` or `n/a`. In Go, the only non-ASCII runes that lower-case to ASCII letters are the Kelvin sign (to `k`) and the dotted capital I (to `i`), and neither letter occurs in the three words.
- Scoring.Score: counters are unbounded integers. Go's 64-bit `int` overflow cannot happen for any realistic number of answers and is not modelled.
- The order of the three detail lists follows Go's unspecified map iteration order, so the model states them up to order. The test's expectation of `[q2, q4]` in that order (api/handlers/prr_submission_handlers_test.go:178-181) is not guaranteed by the code. `Scenarios.SectionScoreChangesCase` proves only "in either order".
- An absent section reads as Go's zero value, whose section id is empty too, rather than as a zero-count tally carrying that section's id. The model keeps this, as `Comparison.ComparedSectionIds` states.

# Per-keyword message counting of the Camel search demo

The application sends a search request, with the user's query in the
`keywords` header, to a social-media search provider. The search result then
goes to two wire taps. The log tap writes the result to a file. The count tap
splits the result into one message per result item. For each item it splits
the `keywords` header on `" "` and increments a per-keyword Micrometer
counter once per piece.

This project models that count tap in three modules:

- `KeywordSplit` (`keyword_split.dfy`): Kotlin's `String.split(" ")` as a pure
  function `Split`, with its inverse `Join` (`joinToString(" ")`). Empty
  pieces are kept.
- `TaggedCounters` (`tagged_counter.dfy`): the class `TaggedCounter`. It holds
  the `counters` table as a `map<string, nat>`. A ghost `history` records every
  tag value passed to `Increment`. A ghost `registered` records the tag value
  of each counter registration with the meter registry. `Valid()` ties both
  fields to pure functions of `history`:
  - `Tally` is get-or-create followed by `+1`, applied call by call.
  - `FirstSeen` lists the tag values in the order they were first passed.

  The lemmas relate these functions to independent definitions. They use the
  multiset of calls, the set of distinct tag values and the sum `Total` of all
  counter values.
- `Router` (`router.dfy`): the `.process` lambda (`CountProcessor`) and the
  `split(body())` step that runs it once per result item (`CountRoute`). Both
  are methods with loops.
  - A message is a body together with a header map.
  - A header value is either a `String` or some other object.
  - A missing header (Camel's `null`) is a name absent from the map.
  - `KeywordTerms` holds the processor's `is String` test: the pieces of the
    `keywords` header when it is a string, no pieces otherwise.

Three behaviours of the code that the model keeps:

- The table is a plain `HashMap` (`Application.kt:68`), so the model covers
  sequential calls only.
- Every piece of `split(" ")` is passed to `increment`, empty ones included:
  `""` increments the counter tagged `""` once, and `"a  b"` increments `a`,
  `""` and `b`.
- `Increment` accepts any string, as `increment(tagValue: String)` does
  (`Application.kt:69`).

## Model

| member | source | states |
|---|---|---|
| KeywordSplit.IndexOf | src/main/kotlin/soa/camel/Application.kt:59 | the index of the first separator, or the header's length when there is none; no earlier character is the separator |
| KeywordSplit.Split | src/main/kotlin/soa/camel/Application.kt:59 | splitting always yields at least one piece |
| KeywordSplit.SplitPiecesHaveNoSeparator | src/main/kotlin/soa/camel/Application.kt:59 | no piece contains a space |
| KeywordSplit.JoinSplit | src/main/kotlin/soa/camel/Application.kt:59 | joining the pieces with the separator gives back the header |
| KeywordSplit.SplitJoin | src/main/kotlin/soa/camel/Application.kt:59 | every non-empty list of separator-free pieces, empty pieces included, is what splitting its join returns, so the split is the unique such decomposition |
| KeywordSplit.SplitCount | src/main/kotlin/soa/camel/Application.kt:59 | the number of pieces is the number of separators plus one |
| KeywordSplit.SplitKeepsEmptyPieces | src/main/kotlin/soa/camel/Application.kt:59 | two adjacent separators leave an empty piece: `a  b` splits into `a`, `""`, `b` |
| KeywordSplit.SplitEmpty | src/main/kotlin/soa/camel/Application.kt:59 | the empty header splits into one empty piece |
| TaggedCounters.TallyGet | src/main/kotlin/soa/camel/Application.kt:68-73 | a counter exists for a tag value exactly when that value was passed to `increment`, and its value is the number of times it was passed |
| TaggedCounters.TallyPositive | src/main/kotlin/soa/camel/Application.kt:70-72 | every existing counter has value at least 1, because a counter is created only by a call that then increments it |
| TaggedCounters.TallyAppend | src/main/kotlin/soa/camel/Application.kt:69-73 | further calls add to each counter the number of times its tag value occurs among them |
| TaggedCounters.TallyMonotone | src/main/kotlin/soa/camel/Application.kt:68-73 | over any further calls, no counter disappears and no counter value decreases |
| TaggedCounters.TotalBump | src/main/kotlin/soa/camel/Application.kt:70-72 | one get-or-create-and-increment adds exactly one to the sum of all counter values |
| TaggedCounters.TallyTotal | src/main/kotlin/soa/camel/Application.kt:68-73 | the counter values add up to the number of `increment` calls, so no increment is lost |
| TaggedCounters.FirstSeenDistinct | src/main/kotlin/soa/camel/Application.kt:70-71 | the registered tag values are exactly the tag values passed, with no duplicates |
| TaggedCounters.FirstSeenCount | src/main/kotlin/soa/camel/Application.kt:70-71 | the number of registrations equals the number of distinct tag values passed |
| TaggedCounters.CounterFacts | src/main/kotlin/soa/camel/Application.kt:67-74 | a valid counter table has one registration per distinct tag value and no duplicate registration; every counter is at least 1; the values sum to the number of calls |
| TaggedCounters.TaggedCounter.constructor | src/main/kotlin/soa/camel/Application.kt:67-68 | a new `TaggedCounter` keeps its metric name and tag key, and starts with an empty table and no registrations |
| TaggedCounters.TaggedCounter.Increment | src/main/kotlin/soa/camel/Application.kt:69-73 | a new tag value gets exactly one registration and ends at 1; a known tag value reuses its counter without registering and gains exactly 1; every other counter is unchanged, and the key set grows by at most the tag value |
| Router.RepeatCounts | src/main/kotlin/soa/camel/Application.kt:55-61 | `n` messages with the same header produce `n` times the header's pieces, so each term is counted `n` times per occurrence |
| Router.CountProcessor | src/main/kotlin/soa/camel/Application.kt:56-63 | one message increments once per piece of its `keywords` header when that header is a string, and nothing otherwise; the body is never read |
| Router.CountRoute | src/main/kotlin/soa/camel/Application.kt:54-63 | for M result items, each term's counter grows by M times its occurrences in the split header, and the total grows by M times the number of pieces; with no string `keywords` header, or with no items, no counter changes and nothing is registered; the effect depends on the headers and the number of items only |
| Router.SplitBabyYoda | src/main/kotlin/soa/camel/Application.kt:59 | the header `baby yoda` splits into `baby` and `yoda` |
| Router.BabyYodaScenario | src/main/kotlin/soa/camel/Application.kt:54-63 | a `baby yoda` request with three result items leaves both the `baby` and the `yoda` counter at 3, with six increments in all |

## Left out

- Spring Boot start-up and `SearchController` (`Application.kt:17-37`): this is HTTP wiring. The model starts from the message whose headers the controller sets.
- The main route and the `twitter-search:` producer (`Application.kt:45-48`): the search runs over the network through an external provider. The search result is a parameter of `CountRoute`.
- The log route (`Application.kt:50-52`): it does Gson marshalling and writes a file named after the current time. Both are I/O.
- Micrometer's `MeterRegistry` and `Counter`: registration is modelled as "a new counter at 0", recorded as a tag value in the ghost `registered` list. A `Counter` object is modelled by its value in the table, with no object identity. Micrometer keeps values as doubles. The model uses `nat`, since only steps of +1 occur and doubles count exactly up to 2^53.
- Concurrency: the wire tap delivers asynchronously, and the table is an unsynchronised `HashMap`. Calls are modelled one after another, and the model makes no atomicity claim.
- `CountRoute` gets the result's items in one sequence and runs the processor item by item, in order. Camel's splitter options beyond that default are not modelled: parallel processing and error handling.
- Header names are matched exactly. Camel matches header names without regard to case, so `Keywords` would also be found; the only header set here is named exactly `keywords` (`Application.kt:36`).
- `build.gradle.kts` (build configuration) and `src/main/resources/static/functions.js` (page scripting) are not part of this model.

# Smart Notes: categories and AI suggestions, modelled in Dafny

Smart Notes is a web notes application. Each note can carry categories.
Each user owns their own categories. Every new user starts with five
defaults: Work, Personal, Study, Important and Ideas. A hosted inference
service can summarise a note and suggest categories for it.

This project models three parts of the application:

- **The AI client** (module `Ai`, `ai.dfy`), from `src/services/ai.ts`.
  - Sending a request again while the service answers 503.
  - Recognising a "model loading" body.
  - Choosing the summary text.
  - Turning the classifier's labels and scores into category ids.
  - Joining the candidate names and splitting them again.
  - The analysis flow: the summary call, then the classification call.
  - How errors are turned into the messages the caller sees.
- **The category service** (module `Categories`, `categories.dfy`), from
  `src/services/categories.ts`.
  - The `categories` table is a class, `CategoryTable`. It holds every
    user's rows in insertion order.
  - Its methods are getAll, create (return the existing row or insert a
    new one), initialise defaults, scoped delete and the duplicate cleanup.
  - The cleanup loop is a `method` proved against a function that
    specifies it.
- **The category selector's logic** (module `CategorySelector`,
  `category_selector.dfy`), from `src/components/CategorySelector.tsx`.
  - Toggling a category in the selection.
  - Dropping a deleted category from the selection.
  - Recognising a default category.
  - When the delete control is shown.
  - The trim guard on a new category's name.
  - The light/dark test that picks the text colour.

Supporting modules:

- `Text` (`text.dfy`) models the JavaScript string operations the core
  uses: `toLowerCase`, `trim`, `includes`, `join`, `split`, and number
  rendering.
- `NoteTypes` (`note_types.dfy`) holds the records and the default
  categories (`src/types/notes.ts`).
- `Wrappers` (`wrappers.dfy`) holds `Option`, `Result` and `Outcome`.
  A thrown error is modelled as `Failure`/`Fail`.

The HTTP service is an oracle function `server(request, k)`. It gives the
response to the k-th attempt at sending `request`. The signed-in user is
a parameter, `None` when nobody is signed in. The Hugging Face token is a
string; an empty string stands for a token that is not configured.

Where the documented behaviour of the application and its code
disagree, the model follows the code:

- A "model loading" body that arrives on an ok response is not retried.
  It ends the analysis at once with the try-again message
  (`Ai.AnalyzeLoadingOnce`). Only HTTP 503 is retried.
- Suggested ids are a sequence in label order. Each label maps to the
  first candidate with the same name ignoring case. The same id can
  appear twice if two labels map to it.

## Model

| member | source | states |
|---|---|---|
| Ai.FetchWithRetry | src/services/ai.ts:17-31 | At most `maxRetries` requests are sent (none when it is not positive). Every attempt before the last was answered 503. Success returns the last response unchanged, ok or not, and its status is not 503. Failure is the retries-exhausted error after `maxRetries` 503s. The result equals the recursive specification `RetryFrom`. |
| Ai.WaitForModel | src/services/ai.ts:7-15 | Fails exactly when the body is an object whose `error` contains "loading", and then with the loading signal. Otherwise it returns the body unchanged. |
| Ai.MessageIsLoadingIff | src/services/ai.ts:119-122 | A fault's message is "MODEL_LOADING" exactly when the fault is the loading signal. No status error can be taken for it, whatever its status text. |
| Ai.Message | src/services/ai.ts:61-63 | Every error message is non-empty. A status error's message is its endpoint's prefix ("Summary API error: " or "Classification API error: "), then the status in decimal, a space and the status text. |
| Ai.Receive | src/services/ai.ts:61-65 | A failed fetch passes its error on. A status that is not ok gives the endpoint's status error, with the status and text. An ok response gives `waitForModel`'s verdict on its body. A body comes back only from an ok response, unchanged, and the loading signal only from an ok response. |
| Ai.Surfaced | src/services/ai.ts:119-124 | The loading signal becomes the "still loading, try again" message. Every other message passes through unchanged. |
| Ai.SelectSummary | src/services/ai.ts:68-73 | The first array element's non-empty `summary_text` wins. For an object body, its own non-empty `summary_text` wins. Any other result is the fallback "No summary available". The result is never empty. |
| Ai.FindCategory | src/services/ai.ts:109-111 | None exactly when no candidate has the name ignoring case. Otherwise it is the id of the first candidate that does. |
| Ai.ConfidentLabelsIff | src/services/ai.ts:104-105 | A label is kept exactly when the score at the same index exists and is strictly above 0.3. |
| Ai.MatchIdsIff | src/services/ai.ts:108-112 | An id is produced exactly when some kept name maps to it. Names that match no candidate are dropped. |
| Ai.SuggestedIdsIff | src/services/ai.ts:100-113 | An id is suggested exactly when some label scored above 0.3 has that id as its first case-insensitive match. |
| Ai.SuggestedIdsAppend | src/services/ai.ts:104-112 | Suggestions follow label order: the ids from a prefix of the labels come before the ids from the rest. |
| Ai.SuggestedIdsExample | src/services/ai.ts:100-113 | Labels Work (0.5) and Ideas (0.2) against candidates 1 Work and 2 Ideas suggest exactly [1]. |
| Ai.ClassificationIds | src/services/ai.ts:100-113 | Without both `labels` and `scores`, nothing is suggested. Every suggested id is a candidate's id. |
| Ai.CandidateLabelsAreNames | src/services/ai.ts:39-87 | Joining the names with ", " and splitting at ", " gives back the names, provided there is at least one candidate and no name contains ", ". |
| Text.SplitJoin | src/services/ai.ts:87 | `split(join(xs, ", "), ", ") == xs` for a non-empty list of pieces without the separator. |
| Text.SplitJoinEmpty | src/services/ai.ts:87 | With no candidates, the classifier receives one empty label. |
| Text.SplitJoinBreaksName | src/services/ai.ts:87 | A category named "A, B" reaches the classifier as two labels, "A" and "B". |
| Text.Split | src/services/ai.ts:87 | `split` never returns an empty list. |
| Text.Lower | src/services/ai.ts:110 | Lower-casing keeps the length and maps each character on its own. |
| Text.Decimal | src/services/ai.ts:62 | The status renders as a non-empty string of decimal digits. |
| Text.DecimalValue | src/services/ai.ts:62 | The digits in the message denote the status exactly, with no leading zero unless the status is 0. |
| Ai.AnalyzeNote | src/services/ai.ts:33-126 | Equals the analysis function `Analyze`, both the result and the requests sent in order. On success the summary is non-empty and every suggested id is a candidate's. |
| Ai.AnalyzeWithoutToken | src/services/ai.ts:34-36 | Without a token, nothing is sent and the configuration error is thrown. |
| Ai.AnalyzeSends | src/services/ai.ts:43-91 | The requests sent are this note's summary request n times, then its classification request m times, with n and m each at most three. |
| Ai.RetryAttempts | src/services/ai.ts:18 | However the service answers, `fetchWithRetry` counts at most `maxRetries` attempts. |
| Ai.AnalyzeStopsOnError | src/services/ai.ts:61-63 | A first status that is neither ok nor 503 ends the analysis after one request, with "Summary API error: <status> <statusText>". |
| Ai.AnalyzeLoadingOnce | src/services/ai.ts:65 | An ok response whose body says "loading" ends the analysis after one request, with the try-again message. |
| Ai.ClassifyStopsOnError | src/services/ai.ts:93-95 | After a good summary, a classification status that is neither ok nor 503 ends the analysis after one request to each endpoint, with "Classification API error: <status> <statusText>". |
| Ai.ClassifyLoadingOnce | src/services/ai.ts:97 | After a good summary, an ok classification response whose body says "loading" is not retried. The analysis ends after one request to each endpoint, with the try-again message. |
| Ai.AnalyzeExhausted | src/services/ai.ts:17-31 | Three 503 answers to the summary request end the analysis after exactly three requests, with the retries-exhausted message. |
| Categories.Filter | src/services/categories.ts:49-53 | A row is selected exactly when it is in the table and passes the filter. There are never more rows than the table has. |
| Categories.FilterCommute | src/services/categories.ts:49-53 | Two row filters can be applied in either order. |
| Categories.FilterUnique | src/services/categories.ts:124-127 | Removing rows keeps ids unique. |
| Categories.FindDuplicates | src/services/categories.ts:109-120 | The loop with its `seen` map returns exactly `DuplicateIds`: in order, the ids of the rows whose lower-cased name an earlier row already has. |
| Categories.DuplicateIdsIff | src/services/categories.ts:113-120 | With unique ids, a row's id is marked exactly when an earlier row has the same name ignoring case. |
| Categories.SurvivorsIff | src/services/categories.ts:113-120 | With unique ids, a row is kept exactly when no earlier row has its name, so the oldest row of each name stays. |
| Categories.SurvivorsDistinct | src/services/categories.ts:109-130 | After the cleanup, no two rows share a name ignoring case. |
| Categories.SurvivorsCoverNames | src/services/categories.ts:109-130 | The cleanup loses no name: the kept rows have every lower-cased name of the input. |
| Categories.SurvivorsInInput | src/services/categories.ts:109-130 | Every kept row was in the input. |
| Categories.DuplicatesPartition | src/services/categories.ts:122-130 | Deleting the marked ids leaves exactly the kept rows. Kept plus deleted counts every row once. |
| Categories.CleanupIdempotent | src/services/categories.ts:94-135 | A second cleanup finds nothing to delete. |
| Categories.LowerNamesIff | src/services/categories.ts:110-118 | A name is in the set of seen names exactly when some row has it lower-cased. |
| Categories.Existing | src/services/categories.ts:23-33 | Corrected lookup. None exactly when no row of the user has the name ignoring case. Otherwise it is the first row of the user that has the name: no earlier row matches. |
| Categories.FirstNameMatch | src/services/categories.ts:24-29 | The first row the name filter selects is the earliest row with that name ignoring case. |
| Categories.HeadMatchTwo | src/services/categories.ts:24-29 | When the first row has the name, a second matching row exists exactly when the rest of the rows contain a match. |
| Categories.ExistingAsWritten | src/services/categories.ts:24-29 | As written, `.single()` gives nothing exactly when no row has the name ignoring case or two different rows have it. Otherwise it gives the one matching row. |
| Categories.TwoMatchingIff | src/services/categories.ts:24-29 | The name filter selects two rows or more exactly when two different rows have the name ignoring case. |
| Categories.ExistingAsWrittenMissesDuplicates | src/services/categories.ts:24-33 | Rows "Work" and "work" make the lookup as written miss "WORK", so a third row would be inserted. The corrected lookup finds the first row. |
| Categories.ExistingAgrees | src/services/categories.ts:24-33 | While the user's names are distinct ignoring case, the two lookups agree. |
| Categories.Defaults | src/services/categories.ts:77-80 | One row per default category, in order. Each row has the default's name and colour, the user's id and the next serial id. |
| Categories.DefaultsDistinct | src/services/categories.ts:77-84 | Seeding the defaults creates no duplicate names. |
| Categories.CategoryTable.GetAllCategories | src/services/categories.ts:5-17 | Fails with "User not authenticated" when nobody is signed in. Otherwise it returns exactly the signed-in user's rows. |
| Categories.CategoryTable.CreateCategory | src/services/categories.ts:19-43 | Returns the user's existing row with the same name ignoring case, leaving the table as it was. Otherwise it appends one new row made of the input, the user's id and a fresh id, and returns it. Distinct names stay distinct. Fails unauthenticated. |
| Categories.CategoryTable.InitializeDefaultCategories | src/services/categories.ts:58-92 | A user with any row is left alone. A user with none gets exactly the five defaults appended, and then owns exactly them. Fails unauthenticated. |
| Categories.CategoryTable.DeleteCategory | src/services/categories.ts:45-56 | Removes the row with this id only when the user owns it. Every other row stays, in order. Other users' rows are unchanged. |
| Categories.CategoryTable.CleanupDuplicateCategories | src/services/categories.ts:94-135 | Deletes exactly the marked ids of the user's rows, in created order; no delete is issued when nothing is marked. The user's rows become the oldest row of each name, all distinct. Other users' rows are unchanged. |
| Categories.CleanupOwnerRows | src/services/categories.ts:100-130 | After the delete, the owner's rows are the survivors of the owner's rows, with distinct names. |
| Categories.CleanupOthersRows | src/services/categories.ts:100-130 | The marked ids belong to the owner, so deleting them leaves every other user's rows as they were. |
| CategorySelector.Toggle | src/components/CategorySelector.tsx:80-86 | A selected id is filtered out, every occurrence of it. An unselected id is appended once, at the end. So the toggled id is selected afterwards exactly when it was not before, and every other id keeps its membership. |
| CategorySelector.ToggleKeepsOthers | src/components/CategorySelector.tsx:80-86 | Once the toggled id is filtered out, the selections before and after are the same sequence. |
| CategorySelector.ToggleTwice | src/components/CategorySelector.tsx:80-86 | Toggling an unselected id twice restores the selection exactly. |
| CategorySelector.Remove | src/components/CategorySelector.tsx:71 | After a delete, and after toggling a selected id, that id no longer occurs in the selection. |
| CategorySelector.RemoveKeepsOthers | src/components/CategorySelector.tsx:83 | Every other id keeps its membership. |
| CategorySelector.RemoveCount | src/components/CategorySelector.tsx:83 | The length drops by exactly the number of occurrences of the id. |
| CategorySelector.RemoveAbsent | src/components/CategorySelector.tsx:83 | Filtering an id that is not selected changes nothing. |
| CategorySelector.RemoveAppend | src/components/CategorySelector.tsx:83 | Filtering distributes over concatenation, so the remaining ids keep their order. |
| CategorySelector.IsDefaultCategory | src/components/CategorySelector.tsx:88-90 | A name is a default exactly when it is Work, Personal, Study, Important or Ideas, spelt exactly so. |
| CategorySelector.DefaultIsCaseSensitive | src/components/CategorySelector.tsx:88-90 | "Work" is a default category and "work" is not: the comparison is exact. |
| CategorySelector.ShowsDeleteControl | src/components/CategorySelector.tsx:111 | The control shows exactly when deleting is allowed and the name is not one of the five default names, spelt exactly. |
| CategorySelector.NewCategoryInput | src/components/CategorySelector.tsx:48-56 | Nothing is created exactly when the name is empty or all white space. Otherwise the input carries the trimmed name, which starts and ends with a non-space, and the chosen colour. |
| CategorySelector.NewCategoryInputStable | src/components/CategorySelector.tsx:50-54 | Entering the stored name again yields the same input, because trimming is idempotent. |
| Text.Trim | src/components/CategorySelector.tsx:50 | The trimmed name is empty exactly when the input is all white space. Otherwise it starts and ends with a non-space character. |
| Text.TrimIsSlice | src/components/CategorySelector.tsx:54 | The trimmed name is a contiguous slice of the input, with only white space cut on either side. |
| Text.TrimIdempotent | src/components/CategorySelector.tsx:50-54 | Trimming twice is trimming once. |
| CategorySelector.Channel | src/components/CategorySelector.tsx:242-245 | Each colour channel read from two hex digits lies in 0..255. |
| CategorySelector.IsLightColor | src/components/CategorySelector.tsx:241-248 | A well-formed `#RRGGBB` is light exactly when 299r + 587g + 114b > 128000 over its channels. A green channel of 0xDB or more always makes it light, and one of 0x26 or less always makes it dark. |
| CategorySelector.IsLight | src/components/CategorySelector.tsx:246-247 | Brightness (299r + 587g + 114b)/1000 is above 128 exactly when 299r + 587g + 114b > 128000. |
| CategorySelector.TextColor | src/components/CategorySelector.tsx:106 | The text is black on a light background and white on a dark one. |
| CategorySelector.WhiteLightBlackDark | src/components/CategorySelector.tsx:240-248 | #FFFFFF is light and #000000 is dark. |
| CategorySelector.LightIsMonotone | src/components/CategorySelector.tsx:246-247 | Raising any channel never turns a light colour dark. |
| CategorySelector.DefaultTextColors | src/components/CategorySelector.tsx:240-248 | Of the five default colours, only #3357FF (Study) takes white text. The other four take black. |

## Left out

- HTTP, the JSON encoding of request and response bodies, and the request headers are not modelled. The service is an oracle from (request, attempt) to a decoded response. Bodies that do not decode, and `response.json()` failures, are not modelled.
- A `fetch` that rejects, such as a network failure, is not modelled: the oracle always answers. In the source the rejection leaves `fetchWithRetry` at once, with no further attempt, and `analyzeNote` rethrows its message.
- A JSON `null` body is not modelled. Reading `result.error` on it throws inside `waitForModel`, and `analyzeNote` rethrows that error's message.
- The 5-second waits between attempts and after a loading body, and all console logging, are not modelled; they change nothing observable in the result.
- Ai.AnalyzeNote: the fallback message "Failed to analyze note with AI", for a thrown value that is not an `Error`, is not modelled. Every failure in the model carries a message.
- Database errors from Supabase are not modelled: every query is assumed to succeed. The `if (error) throw error` branches, and the rethrow in initialise and cleanup, are therefore absent.
- Categories.CategoryTable.GetAllCategories: does not state the `.order('name')` ordering. It returns the user's rows in table order, and its contract is about membership only.
- Categories.CategoryTable.CleanupDuplicateCategories: reads the rows in insertion order, which stands for `created_at` order. Equal timestamps are not modelled.
- Categories.CategoryTable.CreateCategory: uses the corrected lookup, `Existing`, rather than `.single()` as written. The as-written lookup is `ExistingAsWritten`; see Findings.
- `ilike` is modelled as equality ignoring case. Its `%` and `_` wildcards in a category name are not modelled.
- `toLowerCase` is modelled for ASCII letters only. Other Unicode case mappings are not modelled.
- Ids generated by the database are modelled as serial numbers. The authentication session is a parameter.
- Row-level security is modelled only by the owner filters the code itself applies.
- CategorySelector.IsLightColor: requires a well-formed `#RRGGBB`; malformed colours are not modelled. Every colour the application offers is well formed.
- The React state, rendering, the colour picker and the delete-confirmation dialog are not modelled. Only the decisions the component makes are.
- Concurrency between requests is not modelled. Neither is another browser tab changing the table between the cleanup's read and its delete.
- The notes service (`src/services/notes.ts`) is not part of this model.

## Findings

| source | as written | input that shows it | evidently intended | confidence | as-written member | corrected member |
|---|---|---|---|---|---|---|
| src/services/categories.ts:24-33 | The existing-name check ends in `.single()`, which yields no row when two or more rows match. `createCategory` then inserts yet another row. | The user already has "Work" and "work"; creating "WORK" inserts a third row with that name. | Return the first row whose name matches ignoring case, whenever one exists. | not executed | Categories.ExistingAsWrittenMissesDuplicates | Categories.CategoryTable.CreateCategory |

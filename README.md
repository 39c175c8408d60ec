# Rug Pull Simulator leaderboard — a Dafny model

This project models the in-memory leaderboard of the Rug Pull Simulator
backend (`src/index.js`). The service keeps one process-wide array of
leaderboard entries, one per finished game session. Three request handlers
use it:

- **POST /leaderboard** checks the submitted body and rejects it when a
  required field is missing. Otherwise it fills in 0 for the optional
  counters, builds an entry and appends it to the array.
- **GET /leaderboard** sorts a copy of the array by `finalScore`, highest
  first, and returns the first 100 entries.
- **DELETE /leaderboard** replaces the array with an empty one.

Files:

- `wrappers.dfy` (module `Wrappers`): `Option` for the fields a body may omit
  and `Result` for the outcome of a submission.
- `entry.dfy` (module `Entries`): the request body `Payload`, the stored
  `Entry`, and the POST handler's pure part. That is the guard `Accepts`, the
  `x || 0` default `OrZero` and the construction `MakeEntry`, with a round
  trip through `ToPayload`.
- `ranking.dfy` (module `Ranking`): the ranked read. The comparator sort is
  modelled as a stable insertion sort `SortByScore`, and `TopList` cuts its
  result to `TopLimit` (100) entries. The lemmas prove its size, its order,
  that it is a permutation of the store cut to 100, and that no left-out
  entry scores more than the last entry returned. They also prove that the
  scores at each position do not depend on how ties are ordered.
- `leaderboard.dfy` (module `Store`): class `Leaderboard`, whose field
  `entries` is the module-level array. Its methods `Submit`, `Ranked` and
  `Clear` are the three handlers.

The code does not trim names and has no 15-character limit
on `playerName`. It does no HTML escaping, does not check that scores are
numeric and has no rate limiter. It also reports one error,
"Missing required fields", rather than a list of field errors.

## Model

| member | source | states |
|---|---|---|
| `Entries.AcceptsExactly` | src/index.js:42-44 | A body is accepted exactly when `playerName`, `tokenName` and `tokenSymbol` are present and non-empty and `finalScore` is present; a score of 0 is accepted |
| `Entries.OrZero` | src/index.js:53-56 | The `or 0` default keeps a present value, 0 included, and gives 0 for an absent field |
| `Entries.Accepts` | src/index.js:42-44 | The guard of the POST handler: the three names must be present and non-empty and the score present; its characterisation is proved by `Entries.AcceptsExactly` |
| `Entries.MakeEntry` | src/index.js:47-58 | The new entry carries the given id and date, copies the three names and the score unchanged, and holds each optional counter or 0 when it is absent or falsy; its names are non-empty |
| `Entries.MakeEntryRoundTrip` | src/index.js:47-58 | Any entry with non-empty names, sent back as a full body, is accepted and rebuilt unchanged |
| `Entries.MakeEntryStable` | src/index.js:47-58 | Building an entry, sending it back and building again gives the same entry |
| `Ranking.InsertByScore` | src/index.js:22 | Inserting one entry into the sorted copy adds exactly that entry and nothing else |
| `Ranking.SortByScore` | src/index.js:22 | The sorted copy is a permutation of the store |
| `Ranking.InsertKeepsSorted` | src/index.js:22 | Inserting into a sequence sorted by score, highest first, keeps it sorted |
| `Ranking.SortByScoreSorted` | src/index.js:22 | The sorted copy is ordered by `finalScore`, never increasing |
| `Ranking.SortedPermutationScores` | src/index.js:22 | Two score-sorted sequences with the same entries have the same score at every position |
| `Ranking.TopList` | src/index.js:22-25 | The ranked read: the score-sorted copy of the store cut to its first 100 entries; its size, order, permutation and left-out-score properties are proved by `Ranking.TopListSpec`, `Ranking.TopListOmitted` and `Ranking.TopListScoresUnique` |
| `Ranking.TopListSpec` | src/index.js:22-25 | The ranked read has min(n, 100) entries and is sorted: each entry scores at least as much as the next. Its entries all come from the store, and when the store holds 100 or fewer it returns all of them |
| `Ranking.TopListOmitted` | src/index.js:22-25 | Every stored entry the ranked read leaves out scores no more than the last entry it returns |
| `Ranking.TopListScoresUnique` | src/index.js:22-25 | Any other sort that orders by score, with ties in any order, gives the same score at every position of the ranked read |
| `Ranking.NewEntryVisible` | src/index.js:22-25 | An entry appended to a store of fewer than 100 entries appears in the next ranked read |
| `Store.Leaderboard.constructor` | src/index.js:17 | The leaderboard starts empty |
| `Store.Leaderboard.Submit` | src/index.js:29-65 | A refused body yields the "missing required fields" error and leaves the store unchanged. An accepted body appends exactly `MakeEntry(body, id, date)` at the end, keeps all earlier entries where they were, and returns that entry. Every stored entry keeps non-empty names |
| `Store.Leaderboard.Ranked` | src/index.js:20-26 | Returns `TopList` of the store, with the size, order, permutation and left-out-score properties above; it modifies nothing |
| `Store.Leaderboard.Clear` | src/index.js:68-72 | The store becomes empty and the next ranked read is empty |

## Left out

- Express setup, CORS, JSON body parsing, `app.listen` and the port variable (src/index.js:1-14, 80-82): framework and I/O plumbing.
- HTTP status codes and response bodies: the model returns an `Ok(entry)` or `Err(MissingRequiredFields)` result instead. The constant `/health` endpoint (src/index.js:75-77) is not modelled.
- `Date.now()` and `new Date().toISOString()`: `id` and `date` are parameters of `Submit`. Nothing is claimed about `id` being unique, because two submissions in the same millisecond share one.
- JavaScript values: scores and counters are unbounded integers and names are strings. The model does not cover floats, `NaN`, `null` (which passes the `finalScore === undefined` check), or non-numeric values reaching the comparator.
- Tie order among equal scores depends on the JavaScript engine's sort. The model sorts stably, but no lemma relies on that. `TopListScoresUnique` shows that only the order of equal-score entries can differ between sorts.
- Trimming, HTML escaping, the name-length limit, numeric checks on scores and counters, and rate limiting are not in this code, so they are not modelled.
- Concurrency: handlers run one at a time on the event loop, and the model treats each call as atomic.

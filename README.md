# Terminology mapper: a verified model of the rating workflow

The terminology mapper is a small web application for rating terms. Users log in
and start a rating session. A session is a snapshot of terms picked from the
terms table, plus a cursor into that list. For each term at the cursor the user
submits a mapping, and the cursor moves on. At the end, the session is stamped
as completed. A dashboard shows per-user statistics, overall progress (the
share of terms rated by at least two people) and a leaderboard. An admin console
can reset tables and moderate the messages sent through a contact form.

The model covers two versions of the application:

- the FastAPI application (`main.py`): modules `Mapper`, `MapperFlow` and
  `MapperAdmin`;
- the earlier Flask application (`app.py`): module `Flask`.

Both versions share four helper modules:

- `Text`: Python's `str.strip()` and the blank test.
- `Ranking`: `ORDER BY key ASC LIMIT n` as a stable sort of an enumeration of
  the rows.
- `Percent`: Python's `round` on an exact quotient.
- `Tables`: AUTOINCREMENT inserts and UNIQUE constraints on maps.

Each SQLite table is a `map` from its AUTOINCREMENT id to the row, held in a
class: `Mapper.Database` or `Flask.FlaskDatabase`. Its `Valid()` predicate
states the schema's UNIQUE constraints and the id counters. The signed session
cookie is the class `Mapper.Cookie`, in which a missing key is `None`. Handlers
are methods that change the database and the cookie. Their `ensures` clauses
state the whole new state: every table, every cookie key, and the counters
through `Counters()`, which only the table a handler inserts into can raise.
Since `Valid()` keeps every id below its counter, an id is never handed out
twice over any run of requests, resets included. Queries are functions specified by what their result
means.

How the environment is modelled:

- `RANDOM()`, used to break ties in term selection, is a parameter: an
  enumeration `order` of the candidate rows. Handlers pick one
  nondeterministically. `Ranking.LowestReachesEverySelection` shows that every
  ordering the SQL allows is reachable.
- The clock is a parameter `now` in whole seconds.
- An input file is given already read, or as `None` when reading it fails.
- Configuration values (the global password, the admin password and the
  contact-form switches) are parameters.

The two versions differ in these ways, and the contracts state each difference:

- **Uniqueness.** In `main.py`, UNIQUE(term_id, user_id) makes a second
  submission for the same term a no-op. `app.py` has no such constraint, so each
  non-blank submission adds a row. See `Mapper.AtMostOneRow` and
  `Flask.InsertAddsRow`.
- **Term selection.**
  - `main.py` excludes terms the user already rated and ranks the rest by
    distinct raters.
  - `app.py` offers every term, ranked by mapping rows. With an unlimited count
    it therefore offers terms the user already rated.
- **Progress.** `main.py` counts a term as complete once two distinct users rated
  it. `app.py` counts it once it has two rows, even if both come from one user
  (`Flask.RepeatRatingCompletesTerm`).
- **Empty session.** In `main.py` an empty term list routes to the dashboard.
  In `app.py` it routes to the completion page.
- **Login.**
  - `main.py` checks a password and stores the username exactly as typed.
  - `app.py` has no password and stores the stripped name.
- **Shared handlers and queries.** `app.py`'s `logout`, `get_user_stats` and
  `get_leaderboard` (app.py:232-236, app.py:121-148, app.py:175-191) behave like
  their `main.py` counterparts. The model therefore uses the same members for
  both: `MapperFlow.Logout`, `Mapper.Stats` and `Mapper.Leaderboard`. In
  `app.py`, a mapping row is a `Mapper.Mapping` whose code is the stripped code
  string and whose `noCodeFound` flag is false.

## Model

| member | source | states |
|---|---|---|
| Text.Strip | main.py:274-275 | `str.strip()`: the result is a slice of the input, with only whitespace cut off on either side, and does not start or end with whitespace |
| Text.BlankIffStripEmpty | main.py:429 | the blank test `not s.strip()` holds exactly when stripping leaves the empty string |
| Text.StripIdempotent | app.py:204 | stripping an already stripped name changes nothing, so the name `app.py` stores finds the same account on the next login |
| Ranking.Lowest | main.py:315-317 | `ORDER BY key ASC LIMIT n` over the rows in tie order: length `min(n, rows)`, or all rows when `n` is negative; the rows chosen, each once; sorted by key; no row left out has a smaller key than a chosen one |
| Ranking.LowestOfEnumeration | main.py:315-317 | `Lowest` over an enumeration of a row set: distinct rows of that set, `min(n, rows)` of them, none left out with a smaller key, and the whole set when nothing is cut |
| Ranking.LowestReachesEverySelection | main.py:315 | every selection with the properties of `Lowest` is produced by some order of the ties, so the `RANDOM()` parameter loses no behaviour |
| Ranking.Limit | main.py:317 | SQLite `LIMIT n`: the first `n` rows, or all of them when `n` is negative or large |
| Ranking.SortBy | main.py:315 | the sort is a permutation of its input, ordered by key, and keeps rows distinct |
| Percent.RoundHalfEven | main.py:523 | Python's `round` on an exact quotient: within one half of `p / q`, and an exact half goes to the even neighbour |
| Percent.PercentOf | main.py:523 | `round(i / n * 100)` lies between 0 and 100 when `i <= n`, is 0 at the first term and 100 at the end |
| Percent.PercentMonotone | main.py:523 | a cursor further along never shows a smaller percentage |
| Percent.TenthsOf | main.py:387 | `round(c / t * 100, 1)` in tenths: 0 when there are no terms, at most 100.0 when `c <= t`, exactly 100.0 when `c == t` |
| Tables.InsertNext | main.py:200-250 | an AUTOINCREMENT insert uses an id no row has, and the counter stays above every id |
| Tables.InjectiveInsert | main.py:203 | inserting a value not yet present keeps a UNIQUE column unique |
| Tables.InjectiveCard | main.py:214 | under a UNIQUE constraint, a table has as many distinct values as rows |
| Mapper.Database.Valid | main.py:200-250 | the schema: usernames UNIQUE, `(category, term)` UNIQUE, `(term_id, user_id)` UNIQUE, and every AUTOINCREMENT counter above the ids in its table |
| Mapper.LoggedIn | main.py:291-297 | `get_current_user`: both cookie keys present, the id non-zero and the username non-empty |
| Mapper.ImportedTermsStep | main.py:273-280 | one more import row adds its stripped `(Kategorie, Item)` pair exactly when both cells are non-blank |
| Mapper.RatedByHasRated | main.py:312-314 | a term is among the user's rated terms exactly when a mapping row for that pair exists |
| Mapper.AtMostOneRow | main.py:227 | UNIQUE(term_id, user_id): at most one row per pair, and exactly one once the user has rated the term |
| Mapper.DistinctRatersAreRows | main.py:309 | under the uniqueness constraint, the distinct-rater count of a term equals its number of rows |
| Mapper.RowsAreRatedTerms | main.py:340-341 | under the uniqueness constraint, a user's row count equals the number of terms the user rated |
| Mapper.RowsCoverRatedTerms | main.py:340-341 | a user has at least as many rows as rated terms |
| Mapper.SelectTerms | main.py:299-332 | the chosen terms are distinct, stored, and not rated by the user; `min(count, eligible)` of them; non-decreasing in distinct raters; no eligible term left out has fewer raters than a chosen one |
| Mapper.Stats | main.py:334-361 | total mappings is the user's number of mapping rows, and under the uniqueness constraint the number of terms rated; completed sessions are those of the user with a completion stamp; the streak is at most that count |
| Mapper.MappedSince | main.py:588-589 | the completion page's count is at most the user's rows, and 0 when the session row is missing |
| Mapper.OverallProgress | main.py:363-388 | `get_overall_progress()` as written: the total is the terms count, the completed count is the number of term ids with two distinct raters in the mappings table, and the percentage is their rounded ratio in tenths; 0 % with no terms; at most 100 % when every rated term id is a stored term |
| Mapper.StaleRatingsOverflowProgress | main.py:373-387 | a store with ratings on two deleted term ids and one remaining term reports 200.0 % |
| Mapper.JoinedProgress | main.py:363-388 | progress with completed terms joined to the terms table: never more than the total, at most 100 %, 0 % with no terms, and equal to `OverallProgress` whenever every rating names a stored term |
| Mapper.MappingCount | main.py:396 | the leaderboard's `COUNT(m.id)`, the number of the user's mapping rows, is at least the number of terms the user rated, and equal to it under the uniqueness constraint |
| Mapper.LeaderIds | main.py:390-406 | the listed users are distinct and stored; `min(limit, users)` of them; descending by their number of mapping rows; no user left out has more rows than a listed one; every user, including one with no mappings, when the limit does not cut |
| Mapper.LeaderRows | main.py:396-399 | one row per listed user, in order: that user's name and number of mapping rows, 0 without mappings |
| Mapper.Leaderboard | main.py:390-406 | `get_leaderboard(limit)`: `min(limit, users)` rows, each a stored user's name with that user's number of mapping rows; descending by that count; no user left off has more rows than a listed one; distinct usernames; and every user's row when the limit does not cut |
| Mapper.LeaderRowsFacts | main.py:400 | the rows inherit the order, origin and distinctness of the user ids |
| Mapper.LeaderRowsLowest | main.py:400-401 | a user whose row is not listed has no more mapping rows than any listed row shows |
| Mapper.LeaderRowsCover | main.py:396-399 | ids that list every user give rows that list every user |
| MapperFlow.ImportTerms | main.py:254-289 | the import does nothing once terms exist or when reading fails; otherwise the stored terms are exactly the stripped pairs of the rows with both cells non-blank, each once, so a second run changes nothing |
| MapperFlow.ImportRow | main.py:273-280 | one loop pass keeps the stored terms equal to the import of the rows read so far |
| MapperFlow.AddTerm | main.py:277-280 | an insert that UNIQUE(category, term) rejects is ignored: the set of terms gains the pair and nothing else |
| MapperFlow.Login | main.py:426-457 | an empty username or password field is refused with 422, so a configured password of "" admits nobody; a blank username or a wrong password renders the login page; neither creates a user; otherwise the unstripped name is reused or gets exactly one new row, only the users counter moves, and the cookie holds the name |
| MapperFlow.FindOrAddUser | main.py:440-451 | an existing username keeps its id; a new one gets a fresh id and exactly one row |
| MapperFlow.Logout | main.py:459-463 | the whole cookie is cleared, admin flag included |
| MapperFlow.StartSession | main.py:484-504 | without a login nothing changes; a `count` outside SQLite's 64-bit integers fails with HTTP 500 before anything changes; otherwise one session row is added under a fresh id, and the cookie holds that id, cursor 0 and a selection `get_terms_for_session` can return |
| MapperFlow.OpenSession | main.py:494-496 | the session row is inserted under the next id, stamped with the start time |
| MapperFlow.ChooseTerms | main.py:501 | the snapshot is the selection for some order of the ties |
| MapperFlow.PutSession | main.py:500-502 | the cookie holds the new session id, cursor 0 and a selection `get_terms_for_session` can return; the login keys are untouched |
| MapperFlow.ViewSession | main.py:506-531 | not logged in goes to login; a missing or empty list goes to the dashboard; a cursor at or past the end goes to completion; otherwise the term at the cursor, its 1-based position and the rounded percentage of the cursor through the list, 0 to 100 |
| MapperFlow.SubmitMapping | main.py:533-568 | with the cursor in range, the pair is rated afterwards (a new row, or none if one existed), an empty `codes_json` is stored as its default `"[]"`, and the cursor moves by exactly 1; otherwise nothing changes; only the mappings counter can move |
| MapperFlow.CompleteSession | main.py:570-604 | without a truthy `current_session` nothing changes; otherwise that session row alone is stamped, the page shows the count of mappings since its start, and the three session keys are removed |
| MapperAdmin.AdminLogin | main.py:614-622 | an empty password field is refused with 422, so a configured admin password of "" admits nobody; otherwise only the admin password sets the admin flag |
| MapperAdmin.AdminLogout | main.py:756-760 | drops the admin flag and nothing else |
| MapperAdmin.ResetMappings | main.py:700-712 | without the flag nothing changes; with it, mappings are emptied and terms, users, sessions and messages stay |
| MapperAdmin.ResetAll | main.py:714-730 | without the flag nothing changes; with it, there are no mappings and the terms are exactly a fresh import, under ids no earlier term had |
| MapperAdmin.WithoutUser | main.py:746 | the remaining mappings are exactly the rows of other users, unchanged, and the user has none left |
| MapperAdmin.WithoutUserKeepsOthers | main.py:746 | deleting one user's mappings leaves every other user's rows and rated terms as they were |
| MapperAdmin.ResetUser | main.py:732-754 | an empty username field is refused with 422, whatever the flag; without the flag, or for an unknown username, mappings are unchanged; otherwise exactly that user's mappings go; no counter moves |
| MapperAdmin.MarkRead | main.py:783-795 | without the flag nothing changes; an id outside SQLite's 64-bit integers fails with HTTP 500; otherwise only the given message is marked read |
| MapperAdmin.DeleteMessage | main.py:797-810 | without the flag nothing changes; an id outside SQLite's 64-bit integers fails with HTTP 500; otherwise only the given message is removed |
| MapperAdmin.SubmitContact | main.py:855-889 | any empty field, the subject included, is refused with 422 before the enabled check; disabled gives 404; a blank name, e-mail or message stores nothing; otherwise exactly one row is stored iff `store_in_db` is set; a subject of whitespace passes |
| Flask.FlaskDatabase.Valid | app.py:23-58 | the schema: usernames UNIQUE, term texts UNIQUE, no constraint on mappings, and every AUTOINCREMENT counter above the ids in its table |
| Flask.SignedIn | app.py:93-100 | `login_required`: the `user_id` key is present |
| Flask.ImportedLinesStep | app.py:79-85 | one more line adds its stripped text exactly when it is not blank |
| Flask.ImportTerms | app.py:62-91 | the import does nothing once terms exist, and stores nothing when the file is missing or empty; otherwise the stored terms are the stripped non-blank lines after the header, each once |
| Flask.ImportLine | app.py:79-85 | one loop pass keeps the stored terms equal to the import of the lines read so far |
| Flask.AddTerm | app.py:82-85 | an insert that UNIQUE(term) rejects is ignored |
| Flask.Login | app.py:200-230 | a blank username creates no user; otherwise the stripped name is reused or gets exactly one new row, and the cookie holds it; no password is asked |
| Flask.SignIn | app.py:212-227 | the cookie names the account with the stripped name, created when no row has it; the other tables and cookie keys are unchanged |
| Flask.FindOrAddUser | app.py:212-221 | an existing name keeps its id; a new one gets a fresh id and exactly one row |
| Flask.SelectTerms | app.py:102-119 | distinct stored terms, `min(count, terms)` of them, non-decreasing in mapping rows, none left out with fewer rows, and every term, rated ones included, when the count does not cut |
| Flask.ChooseTerms | app.py:268 | the snapshot is the selection for some order of the ties and names stored terms |
| Flask.PutSession | app.py:267-269 | the cookie holds the new session id, cursor 0 and a possible selection of stored terms; the login keys are untouched |
| Flask.StartSession | app.py:252-271 | without a login nothing changes; a count outside SQLite's 64-bit integers fails with HTTP 500 before anything changes; otherwise one session row is added under a fresh id, the cookie holds cursor 0 and a possible selection, and the cookie's terms stay stored terms |
| Flask.OpenSession | app.py:261-263 | the session row is inserted under the next id, stamped with the start time |
| Flask.ViewSession | app.py:273-293 | missing keys go to the dashboard; a cursor at or past the end, including an empty list, goes to completion; otherwise the term at the cursor with the rounded percentage of the cursor through the list, 0 to 100 |
| Flask.SubmitMapping | app.py:295-323 | missing keys go to the dashboard and a cursor past the end goes to completion, changing nothing; otherwise a row with the stripped code is added iff the code is non-blank, and the cursor moves by exactly 1 |
| Flask.AddMapping | app.py:311-315 | the insert always succeeds under the next id |
| Flask.InsertAddsRow | app.py:39-47 | with no uniqueness constraint, each rating adds a row for its (term, user) pair, however many exist |
| Flask.CompleteSession | app.py:325-351 | only a missing `current_session` goes to the dashboard; otherwise the session row is stamped, the count of mappings since its start is shown, and the three keys are removed |
| Flask.OverallProgress | app.py:150-173 | the total is the terms count, the completed count is the number of term ids with two mapping rows, and the percentage is their rounded ratio in tenths; 0 % with no terms; at most 100 % since ratings only name stored terms |
| Flask.WellRatedIsMultiplyRated | app.py:160-166 | every term complete under the distinct-rater rule is complete under the row-count rule |
| Flask.RepeatRatingCompletesTerm | app.py:160-166 | one user rating the only term twice gives 100.0 % here, while the distinct-rater rule counts no term as complete |

## Left out

- The SMTP e-mail sent for a contact message (main.py:75-193) is not modelled: it is network I/O. Whether it succeeds never changes the response.
- Loading the YAML configuration (main.py:26-54) is not modelled. Its values are parameters: the global password, the admin password, the contact form's `enabled` and `store_in_db`.
- The framework is not modelled: routing, templates, the `X-Robots-Tag` middleware, static files, robots.txt, the imprint and privacy pages, the landing redirect and the login page GET.
- The dashboard and the admin console pages only gather query results for a template. Their queries are modelled (`Mapper.Stats`, `Mapper.OverallProgress`, `Mapper.Leaderboard`); the pages are not.
- The admin messages listing (main.py:762-781) is not modelled: it is a read-only page.
- The CSV export (main.py:664-698) is not modelled: it formats text for download.
- File reading is not modelled: `csv.DictReader`, the configured encoding, and `app.py`'s encoding fallback loop. The input is given as parsed rows or decoded lines, or `None` when opening or reading raises. Inserts left pending by an abandoned decoding attempt in `app.py` are not modelled.
- MapperFlow.ImportTerms: every exception during reading becomes `None` with nothing stored. This covers the missing file and the errors the handler catches; all of them leave the transaction uncommitted.
- Python's `round` on floats is modelled as exact round-half-even of the rational quotient. Floating-point representation error is not modelled. The overall percentage is kept in integer tenths.
- Timestamps are integer seconds passed as `now`. `datetime('now', '-7 days')` is `now - 7*24*3600`, and timestamp strings compare as integers.
- `int(count)` in `app.py`'s `start_session` is not modelled: a non-numeric count raises before anything changes. The model takes an integer.
- FastAPI's conversion of form and path values to integers (`count`, `message_id`) is not modelled: a value that is not an integer is rejected before the handler runs. The model takes an integer, and an integer outside SQLite's signed 64-bit range gives HTTP 500 where `sqlite3` would raise `OverflowError`.
- FastAPI reads an empty form field as a missing one. For a required string field (login, admin login, user reset, contact form) the model answers 422, and for `codes_json` it stores the default `"[]"`. A field left out of the request altogether is represented by the empty string too.
- MapperFlow.StartSession: takes `count` after conversion, so an empty `count` field, which FastAPI replaces by its default 15, is not represented.
- MapperFlow.SubmitMapping: takes `no_code_found` after FastAPI's parsing of the form string into a boolean; that parsing is not modelled.
- A negative `LIMIT` is modelled as SQLite runs it: no limit at all.
- Concurrency is not modelled: concurrent requests, tabs racing on one cookie, and interleaved inserts.
- Cookie signing is not modelled. The cookie is trusted as the application wrote it.
- In the cookie, the session snapshot is a list of term ids, not the term dictionaries the applications store.
- Text.IsBlank: defined as "every character is whitespace". Its equivalence with `s.strip() == ''` is proved separately (`Text.BlankIffStripEmpty`).
- Text.IsSpace: covers Python's `str.isspace()` characters by code point. There is no Unicode normalisation.
- Flask.ViewSession and Flask.SubmitMapping: a malformed cookie value (a term list that is not a list) is not modelled.

## Findings

| source | as written | input that shows it | evidently intended | confidence | as-written member | corrected member |
|---|---|---|---|---|---|---|
| main.py:373-387 | completed terms are counted from the mappings table without joining the terms table | admin `reset/all` (main.py:714-730) deletes the terms but not a user's cookie snapshot. SQLite does not enforce foreign keys by default, so submit (main.py:547-561) still inserts mappings for the deleted term ids. Two users rating two deleted ids, with one new term present, report 200.0 % | only stored terms count as completed, so the percentage stays at most 100 % | not executed | Mapper.StaleRatingsOverflowProgress | Mapper.JoinedProgress |

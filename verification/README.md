# shelf: a model of the self-destructing note store

shelf stores short text notes under memorable ids made of two words joined
by a hyphen. A note disappears once it has been shown `max_visits` times, or after its first showing when `max_visits` is below 1.
This project models the note store behind the web layer in Dafny:

- the SQLite `shelf` table, as an immutable `map<string, Note>` keyed by id (`Db`);
- id generation with collision retry, where the random word draws are a supplied sequence of index pairs (`Db.GenerateId`, `Db.GenerateIdLoop`);
- row insertion with the column default `visits = 0` and expiry `insert_date + ttl_days` days, and lookup by id (`Db.Insert`, `Db.FetchOne`). An insert fails when the expiry date overflows `datetime`'s range or `max_visits` does not fit a 64-bit SQLite INTEGER;
- the visit accounting of the fetch route (`App.Fetch`). It reads the row, stores `visits + 1`, and deletes the note once `visits + 1 >= max_visits`. It shows the row as it was read, so the visitor sees the old visit count;
- the form handling of the insert route, with its defaults (`Form.ParseForm`), and the insert route as a whole (`App.InsertRoute`).

Timestamps are integers counting microseconds since the epoch in UTC, which is the resolution of Python's `datetime`.

Three behaviours are reproduced exactly as the code has them:

- The insert route tests for the form key `'ttlDays'` but reads the value from `'ttl_days'`. A form that sends only `ttl_days` therefore always gets a one-day note. A form that sends `ttlDays` without `ttl_days` is rejected. See `Form.TtlDaysValueIgnored`.
- The fetch route never looks at `expiry_date`.
- The note shown by a fetch is the pre-update snapshot, not the incremented row.

The headline result is `App.InsertedNoteServedExactlyK`. A note inserted with a visit limit `k >= 1` is shown by exactly `k` consecutive fetches. The `i`-th of those fetches shows visit count `i - 1`. Fetch `k + 1` finds nothing, and the table is then exactly what it was before the insert.

## Model

| member | source | states |
|---|---|---|
| Db.Insert | shelf/db.py:22-31 | fails, storing nothing, exactly when the expiry date overflows (ttl beyond 999999999 days or a date outside years 1..9999), max_visits does not fit a 64-bit INTEGER, or the id is already a key, and reports the first of these in that order; otherwise adds exactly that key, leaves every other row unchanged, and stores the given data, private flag and max_visits with visits 0, insert date `now` and expiry `ttl_days` days later |
| Db.InsertRejectsOutOfRange | shelf/db.py:27-30 | a visit limit of 2^63 fails with an integer overflow and a ttl of -1000000000 days fails with a date overflow |
| Db.InsertKeepsWellKeyed | shelf/db.py:15-16 | inserting keeps every row stored under its own primary key |
| Db.FetchOne | shelf/db.py:33-35 | returns the row for the id when it is a key and nothing otherwise; the table is only read |
| Db.InsertThenFetchOne | shelf/db.py:29-35 | a lookup right after a successful insert returns the inserted row with visits 0, and lookups of other ids are unaffected |
| Db.UpdateVisits | shelf/app.py:70 | sets only the visits column of the named row; the key set and all other rows are unchanged, and an absent id is a no-op |
| Db.RemoveNote | shelf/app.py:72 | removes exactly the named key and keeps every other row |
| Db.RemoveNoteIdempotent | shelf/app.py:72 | deleting twice equals deleting once |
| Db.GenerateId | shelf/db.py:37-50 | the id is not a key of the table; it is the first draw whose joined words are free, and every earlier draw collided; it fails only for an empty word list or when every draw collides |
| Db.GeneratedIdIsWordPair | shelf/db.py:39 | a generated id is `w1 + "-" + w2` for two entries of the word list |
| Db.GenerateIdLoop | shelf/db.py:37-50 | the iterative retry loop returns exactly what the recursive definition returns; its id is free and a word pair |
| Form.ParseInt | shelf/app.py:48-51 | conversion succeeds exactly on decimal literals with an optional sign and at most 4300 digits |
| Form.LongLiteralRejected | shelf/app.py:51 | a literal of 4301 zeros followed by a 5 is rejected |
| Form.DigitsRoundTrip | shelf/app.py:48-51 | reading back the decimal digits of a natural number gives the number |
| Form.ParseIntRoundTrip | shelf/app.py:48-51 | parsing the decimal text of any integer of at most 4300 digits gives that integer |
| Form.TtlDays | shelf/app.py:48 | 1 when the key 'ttlDays' is absent; otherwise the integer in 'ttl_days', with a missing-field or not-an-integer error |
| Form.MaxVisits | shelf/app.py:51 | 3 when 'max_visits' is absent; otherwise its integer value, or a not-an-integer error |
| Form.ParseForm | shelf/app.py:45-53 | accepted exactly when 'private' and 'note' are present and the numeric fields that are read are integers; a rejected form reports the first failing read in the order 'private', 'ttl_days', 'max_visits', 'note'; the private flag is true exactly for 'true' or 'on'; the defaults are 1 day and 3 visits; the note text is the 'note' field |
| Form.TtlDaysValueIgnored | shelf/app.py:48 | the value under 'ttlDays' never affects the result, and without 'ttlDays' the value under 'ttl_days' never affects it either |
| App.Fetch | shelf/app.py:61-77 | an absent id shows nothing and leaves the table unchanged; a present id shows the row as read; the stored count becomes exactly old + 1 while old + 1 < max_visits, and otherwise the row is deleted; no other row is added, changed or removed |
| App.FetchKeepsWellKeyed | shelf/app.py:66-72 | a fetch keeps every row stored under its own id |
| App.FetchMany | shelf/app.py:61-77 | n fetches show exactly n responses |
| App.FetchManyAbsent | shelf/app.py:74-77 | any number of fetches of an absent id show nothing and leave the table unchanged |
| App.FetchCounts | shelf/app.py:70-71 | a fetch with more than one visit left raises the stored count by exactly one and keeps the row |
| App.FetchManyShown | shelf/app.py:66-73 | while visits remain, the i-th fetch shows the note with its original count plus i |
| App.FetchManyStore | shelf/app.py:69-72 | after fewer fetches than visits left, the count has grown by that many; after exactly the visits left, the row is gone and every other row is as it was |
| App.ExhaustedRowServedOnce | shelf/app.py:69-73 | a row already at its limit is shown once more, deleted, and not found by the next fetch |
| App.InsertRoute | shelf/app.py:30-56 | succeeds exactly when id generation succeeds, the form is accepted, and the parsed ttl and max_visits are in range for the insert; an id-generation failure wins over a form error, which wins over an insert error, and an insert failure is a date overflow when the ttl is out of range and an integer overflow otherwise; never fails on the primary key; the new id was not stored before, every old row is kept, and the new row carries the form's values with visits 0 |
| App.InsertedNoteBelowOneServedOnce | shelf/app.py:69-73 | a note inserted with max_visits below 1 is shown once with its text and count 0, that fetch deletes it and restores the table to its state before the insert, and the next fetch finds nothing |
| App.SuccessiveInsertsDistinct | shelf/app.py:42-53 | two successive inserts hand out different ids and both notes are stored |
| App.InsertedNoteServedExactlyK | shelf/app.py:69-77 | a note inserted with max_visits k >= 1 is shown by exactly k fetches with its text and counts 0..k-1; fetch k+1 finds nothing and the table is back to its state before the insert |

## Left out

- HTTP routing, the GET branch of the insert route, templates, `jsonify`, and the per-request connection handling (shelf/app.py:8-27, 81-100): these are I/O glue. A rejected form is a `FormError` value rather than Flask's 400 or 500 response.
- SQLite itself, commits, and the separate connection `removeNote` opens: the table is a map and each route is one sequential step.
- Concurrency: the fetch route reads and then writes without atomicity, and concurrent fetches are not modelled.
- shelf/db.py defines neither `DBManager.updateVisits` (called at shelf/app.py:70) nor a module-level `removeNote` (called at shelf/app.py:72). As written, every fetch of a stored id would raise `AttributeError` at shelf/app.py:70. `Db.UpdateVisits` and `Db.RemoveNote` assume an UPDATE of `visits` by id and a DELETE by id.
- Time-based expiry: the code has no scheduler, and the fetch route never checks `expiry_date`, so no time check is modelled. `datetime.utcnow()` is the parameter `now`, a `Timestamp` within `datetime`'s range.
- Db.GenerateId: `random.choice` is a supplied sequence of draws. The source's unbounded recursion becomes the `PicksExhausted` error when the draws run out. The `RecursionError` that Python would raise after about a thousand collisions is not modelled.
- Loading the word list from `words.json` is not modelled. The word list is a parameter.
- The column default `max_visits = 1` in the schema is never used, because every insert supplies `max_visits`.
- Form.ParseInt: accepts only an optional sign followed by at most 4300 ASCII digits. Python's `int()` also strips surrounding whitespace and accepts underscores between digits and non-ASCII decimal digits, so the model rejects some forms that the source accepts. The 4300-digit limit is that of Python 3.11 and later and of the security releases that added it. Older interpreters accept longer literals, which this model rejects.
- App.Fetch: does not check that `visits + 1` fits a 64-bit INTEGER. For rows created by an insert it always fits, because `max_visits` fits and the row is deleted once `visits + 1` reaches `max_visits`.

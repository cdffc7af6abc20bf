/**
 * The `shelf` table and the operations of the database manager on it.
 * The SQLite table is modelled as an immutable map from note id to row;
 * every operation takes the table and returns the table it leaves behind.
 */
module Db {
  import opened Results

  /** Microseconds in one day; datetime values carry microsecond resolution. */
  const MicrosPerDay: int := 86_400_000_000

  /** Column default of `visits` in the table schema. */
  const DefaultVisits: int := 0

  /**
   * One row of the `shelf` table. Timestamps are microseconds since the
   * epoch, in UTC. `visits` and `maxVisits` are plain SQL integers and are
   * not constrained by the schema.
   */
  datatype Note = Note(
    id: string,
    data: string,
    isPrivate: bool,
    visits: int,
    maxVisits: int,
    insertDate: int,
    expiryDate: int)

  /** The table, keyed by its primary key `id`. */
  type Table = map<string, Note>

  /** Every row is stored under its own `id` column. */
  ghost predicate WellKeyed(t: Table) {
    forall k :: k in t ==> t[k].id == k
  }

  /** Earliest datetime, 0001-01-01 00:00:00, in microseconds since the epoch. */
  const MinTimestamp: int := -62_135_596_800_000_000

  /** Latest datetime, 9999-12-31 23:59:59.999999, in microseconds since the epoch. */
  const MaxTimestamp: int := 253_402_300_799_999_999

  /** A value a datetime can hold, such as the current UTC time. */
  type Timestamp = x: int | MinTimestamp <= x <= MaxTimestamp witness 0

  /** Largest magnitude, in days, that a timedelta accepts. */
  const MaxTimedeltaDays: int := 999_999_999

  /** The expiry date can be computed: the timedelta and the sum both stay in range. */
  predicate ExpiryInRange(now: int, ttlDays: int) {
    && -MaxTimedeltaDays <= ttlDays <= MaxTimedeltaDays
    && MinTimestamp <= now + ttlDays * MicrosPerDay <= MaxTimestamp
  }

  /** A value that can be bound to a 64-bit SQLite INTEGER. */
  predicate IsSqlInteger(n: int) {
    -0x8000_0000_0000_0000 <= n < 0x8000_0000_0000_0000
  }

  /**
   * Why an insert stored nothing: the expiry date overflowed the datetime
   * range, `max_visits` did not fit a 64-bit INTEGER, or the id violated
   * the PRIMARY KEY UNIQUE constraint.
   */
  datatype DbError = DateOverflow | IntegerOverflow | DuplicateId(id: string)

  /**
   * Adds a row under `id`. `visits` takes its column default and the
   * expiry date lies `ttlDays` days after `now`. Computing the expiry date
   * comes first and can overflow; binding `max_visits` comes next and can
   * overflow; an id already present then violates the primary key. On any
   * failure the table is left as it was.
   */
  function Insert(t: Table, id: string, data: string, isPrivate: bool,
                  ttlDays: int, maxVisits: int, now: Timestamp): (r: Result<Table, DbError>)
    ensures r.Failure? <==> !ExpiryInRange(now, ttlDays) || !IsSqlInteger(maxVisits) || id in t
    ensures r == Failure(DateOverflow) <==> !ExpiryInRange(now, ttlDays)
    ensures r == Failure(IntegerOverflow) <==> ExpiryInRange(now, ttlDays) && !IsSqlInteger(maxVisits)
    ensures r == Failure(DuplicateId(id)) <==> ExpiryInRange(now, ttlDays) && IsSqlInteger(maxVisits) && id in t
    ensures r.Success? ==> r.value.Keys == t.Keys + {id}
    ensures r.Success? ==> forall k :: k in t ==> r.value[k] == t[k]
    ensures r.Success? ==>
      && r.value[id].id == id
      && r.value[id].data == data
      && r.value[id].isPrivate == isPrivate
      && r.value[id].visits == 0
      && r.value[id].maxVisits == maxVisits
      && r.value[id].insertDate == now
      && r.value[id].expiryDate - r.value[id].insertDate == ttlDays * MicrosPerDay
  {
    if !ExpiryInRange(now, ttlDays) then Failure(DateOverflow)
    else if !IsSqlInteger(maxVisits) then Failure(IntegerOverflow)
    else if id in t then Failure(DuplicateId(id))
    else Success(t[id := Note(id, data, isPrivate, DefaultVisits, maxVisits, now, now + ttlDays * MicrosPerDay)])
  }

  /** A visit limit of 2^63 cannot be stored, and neither can a ttl of a billion days. */
  lemma InsertRejectsOutOfRange(t: Table, id: string, now: Timestamp)
    ensures Insert(t, id, "x", true, 1, 0x8000_0000_0000_0000, 0) == Failure(IntegerOverflow)
    ensures Insert(t, id, "x", true, -1_000_000_000, 3, now) == Failure(DateOverflow)
  {
  }

  /** Inserting a row under its own id keeps the table well keyed. */
  lemma InsertKeepsWellKeyed(t: Table, id: string, data: string, isPrivate: bool,
                             ttlDays: int, maxVisits: int, now: Timestamp)
    requires WellKeyed(t)
    requires Insert(t, id, data, isPrivate, ttlDays, maxVisits, now).Success?
    ensures WellKeyed(Insert(t, id, data, isPrivate, ttlDays, maxVisits, now).value)
  {
  }

  /** The row stored under `id`, if there is one; the table is only read. */
  function FetchOne(t: Table, id: string): (r: Option<Note>)
    ensures r.Some? <==> id in t
    ensures r.Some? ==> r.value == t[id]
  {
    if id in t then Some(t[id]) else None
  }

  /** A row just inserted is what a lookup of its id returns, and no other lookup changes. */
  lemma InsertThenFetchOne(t: Table, id: string, data: string, isPrivate: bool,
                           ttlDays: int, maxVisits: int, now: Timestamp, other: string)
    requires Insert(t, id, data, isPrivate, ttlDays, maxVisits, now).Success?
    requires other != id
    ensures var t' := Insert(t, id, data, isPrivate, ttlDays, maxVisits, now).value;
      && FetchOne(t', id) == Some(Note(id, data, isPrivate, 0, maxVisits, now, now + ttlDays * MicrosPerDay))
      && FetchOne(t', other) == FetchOne(t, other)
  {
  }

  /**
   * Sets the `visits` column of the row with key `id`. An UPDATE that
   * matches no row changes nothing.
   */
  function UpdateVisits(t: Table, id: string, visits: int): (r: Table)
    ensures r.Keys == t.Keys
    ensures id in t ==> r[id].visits == visits
    ensures id in t ==> r[id] == t[id].(visits := r[id].visits)
    ensures forall k :: k in t && k != id ==> r[k] == t[k]
  {
    if id in t then t[id := t[id].(visits := visits)] else t
  }

  /** Deletes the row with key `id`; deleting an absent id is a no-op. */
  function RemoveNote(t: Table, id: string): (r: Table)
    ensures r.Keys == t.Keys - {id}
    ensures forall k :: k in r ==> r[k] == t[k]
  {
    t - {id}
  }

  /** Deleting twice leaves the same table as deleting once. */
  lemma RemoveNoteIdempotent(t: Table, id: string)
    ensures RemoveNote(RemoveNote(t, id), id) == RemoveNote(t, id)
  {
  }

  /** One draw of two random word indices (with replacement). */
  datatype Pick = Pick(first: nat, second: nat)

  /** Why no id could be produced. */
  datatype IdError =
    | EmptyWordList   // random.choice on an empty list raises
    | PicksExhausted  // every supplied draw collided with a stored id

  /** Every draw indexes into the word list. */
  predicate ValidPicks(words: seq<string>, picks: seq<Pick>) {
    forall i :: 0 <= i < |picks| ==> picks[i].first < |words| && picks[i].second < |words|
  }

  /** The id built from one draw: the two words joined by a hyphen. */
  function Candidate(words: seq<string>, p: Pick): (id: string)
    requires p.first < |words| && p.second < |words|
  {
    words[p.first] + "-" + words[p.second]
  }

  /** `id` is two entries of the word list joined by a hyphen. */
  ghost predicate IsWordPair(id: string, words: seq<string>) {
    exists a, b :: 0 <= a < |words| && 0 <= b < |words| && id == words[a] + "-" + words[b]
  }

  /**
   * Id generation as the source writes it: draw two words, and if the
   * joined id is already a key of the table, try again with the next draw.
   * The random draws are supplied as `picks`; running out of them stands
   * for the unbounded retry of the source.
   */
  function GenerateId(t: Table, words: seq<string>, picks: seq<Pick>): (r: Result<string, IdError>)
    requires ValidPicks(words, picks)
    ensures r == Failure(EmptyWordList) <==> |words| == 0
    ensures r.Success? ==> r.value !in t
    ensures r.Success? ==>
      exists i :: 0 <= i < |picks| && r.value == Candidate(words, picks[i])
        && forall j :: 0 <= j < i ==> Candidate(words, picks[j]) in t
    ensures r == Failure(PicksExhausted) <==>
      |words| > 0 && forall i :: 0 <= i < |picks| ==> Candidate(words, picks[i]) in t
    decreases |picks|
  {
    if |words| == 0 then Failure(EmptyWordList)
    else if |picks| == 0 then Failure(PicksExhausted)
    else
      var id := Candidate(words, picks[0]);
      if id in t then
        var r := GenerateId(t, words, picks[1..]);
        assert forall i :: 0 <= i < |picks[1..]| ==> picks[1..][i] == picks[i + 1];
        r
      else Success(id)
  }

  /** A generated id is a pair of words from the word list. */
  lemma GeneratedIdIsWordPair(t: Table, words: seq<string>, picks: seq<Pick>)
    requires ValidPicks(words, picks)
    requires GenerateId(t, words, picks).Success?
    ensures IsWordPair(GenerateId(t, words, picks).value, words)
  {
    var id := GenerateId(t, words, picks).value;
    var i :| 0 <= i < |picks| && id == Candidate(words, picks[i]);
    assert id == words[picks[i].first] + "-" + words[picks[i].second];
  }

  /**
   * Id generation restated as a loop over the draws; it returns exactly
   * what the recursive definition returns.
   */
  method GenerateIdLoop(t: Table, words: seq<string>, picks: seq<Pick>) returns (r: Result<string, IdError>)
    requires ValidPicks(words, picks)
    ensures r == GenerateId(t, words, picks)
    ensures r.Success? ==> r.value !in t && IsWordPair(r.value, words)
  {
    if |words| == 0 {
      return Failure(EmptyWordList);
    }
    var i := 0;
    while i < |picks|
      invariant 0 <= i <= |picks|
      invariant ValidPicks(words, picks[i..])
      invariant GenerateId(t, words, picks[i..]) == GenerateId(t, words, picks)
    {
      var id := Candidate(words, picks[i]);
      if id !in t {
        GeneratedIdIsWordPair(t, words, picks);
        return Success(id);
      }
      assert picks[i..][1..] == picks[i + 1..];
      i := i + 1;
    }
    return Failure(PicksExhausted);
  }
}

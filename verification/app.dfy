/**
 * The two routes of the web layer that act on the note store: the insert
 * route (generate an id, read the form, insert the row) and the fetch
 * route (read the row, count the visit, delete the note once its visits
 * are used up). Routing, templates and connections are left out.
 */
module App {
  import opened Results
  import opened Db
  import opened Form

  /** The table after a fetch and the row shown to the visitor, if any. */
  datatype FetchOutcome = FetchOutcome(store: Table, served: Option<Note>)

  /**
   * The fetch route. The row read before the update is what is shown, so
   * it carries the old visit count. The stored count becomes old + 1, and
   * the note is deleted once old + 1 reaches `maxVisits`. The expiry date
   * is not consulted.
   */
  function Fetch(t: Table, noteId: string): (r: FetchOutcome)
    ensures noteId !in t ==> r == FetchOutcome(t, None)
    ensures noteId in t ==> r.served == Some(t[noteId])
    ensures noteId in t && t[noteId].visits + 1 < t[noteId].maxVisits ==>
      noteId in r.store && r.store[noteId] == t[noteId].(visits := t[noteId].visits + 1)
    ensures noteId in t && t[noteId].visits + 1 >= t[noteId].maxVisits ==> noteId !in r.store
    ensures forall k :: k != noteId ==> (k in r.store <==> k in t)
    ensures forall k :: k != noteId && k in t ==> r.store[k] == t[k]
  {
    match FetchOne(t, noteId)
    case None => FetchOutcome(t, None)
    case Some(row) =>
      var updated := UpdateVisits(t, noteId, row.visits + 1);
      var store := if row.visits + 1 >= row.maxVisits then RemoveNote(updated, noteId) else updated;
      FetchOutcome(store, Some(row))
  }

  /** A fetch keeps every row under its own id. */
  lemma FetchKeepsWellKeyed(t: Table, noteId: string)
    requires WellKeyed(t)
    ensures WellKeyed(Fetch(t, noteId).store)
  {
  }

  /** `n` consecutive fetches of the same id: the final table and what each fetch showed. */
  function FetchMany(t: Table, noteId: string, n: nat): (r: (Table, seq<Option<Note>>))
    ensures |r.1| == n
    decreases n
  {
    if n == 0 then (t, [])
    else
      var first := Fetch(t, noteId);
      var rest := FetchMany(first.store, noteId, n - 1);
      (rest.0, [first.served] + rest.1)
  }

  /** Fetching an id that is not stored shows nothing, however often, and changes nothing. */
  lemma {:induction false} FetchManyAbsent(t: Table, noteId: string, n: nat)
    requires noteId !in t
    ensures FetchMany(t, noteId, n).0 == t
    ensures forall i :: 0 <= i < n ==> FetchMany(t, noteId, n).1[i] == None
    decreases n
  {
    if n > 0 {
      FetchManyAbsent(t, noteId, n - 1);
    }
  }

  /** One fetch of a row with more than one visit left counts the visit and keeps the row. */
  lemma FetchCounts(t: Table, noteId: string)
    requires noteId in t
    requires t[noteId].visits + 1 < t[noteId].maxVisits
    ensures Fetch(t, noteId).store == t[noteId := t[noteId].(visits := t[noteId].visits + 1)]
  {
  }

  /**
   * While visits remain, each fetch shows the note with the visit count it
   * had before that fetch.
   */
  lemma {:induction false} FetchManyShown(t: Table, noteId: string, n: nat)
    requires noteId in t
    requires t[noteId].visits < t[noteId].maxVisits
    requires n <= t[noteId].maxVisits - t[noteId].visits
    ensures forall i :: 0 <= i < n ==>
      FetchMany(t, noteId, n).1[i] == Some(t[noteId].(visits := t[noteId].visits + i))
    decreases n
  {
    if n > 0 {
      var row := t[noteId];
      var first := Fetch(t, noteId);
      var shown := FetchMany(t, noteId, n).1;
      assert shown[0] == Some(row);
      if n > 1 {
        FetchCounts(t, noteId);
        var t1 := first.store;
        assert t1[noteId] == row.(visits := row.visits + 1);
        FetchManyShown(t1, noteId, n - 1);
        var rest := FetchMany(t1, noteId, n - 1).1;
        assert shown == [Some(row)] + rest;
        forall i | 1 <= i < n
          ensures shown[i] == Some(row.(visits := row.visits + i))
        {
          assert shown[i] == rest[i - 1];
        }
      }
    }
  }

  /**
   * After `n` fetches, fewer than the visits left, the row's count has grown
   * by `n`; after exactly the visits left, the row is gone. Every other row
   * is as it was.
   */
  lemma {:induction false} FetchManyStore(t: Table, noteId: string, n: nat)
    requires noteId in t
    requires t[noteId].visits < t[noteId].maxVisits
    requires n <= t[noteId].maxVisits - t[noteId].visits
    ensures n < t[noteId].maxVisits - t[noteId].visits ==>
      FetchMany(t, noteId, n).0 == t[noteId := t[noteId].(visits := t[noteId].visits + n)]
    ensures n == t[noteId].maxVisits - t[noteId].visits ==>
      FetchMany(t, noteId, n).0 == t - {noteId}
    decreases n
  {
    var row := t[noteId];
    if n == 0 {
      assert t[noteId := row.(visits := row.visits + 0)] == t;
    } else if row.visits + 1 >= row.maxVisits {
      assert FetchMany(t, noteId, n).0 == FetchMany(Fetch(t, noteId).store, noteId, 0).0;
    } else {
      FetchCounts(t, noteId);
      var t1 := t[noteId := row.(visits := row.visits + 1)];
      assert FetchMany(t, noteId, n).0 == FetchMany(t1, noteId, n - 1).0;
      FetchManyStore(t1, noteId, n - 1);
      if n < row.maxVisits - row.visits {
        assert t1[noteId := t1[noteId].(visits := t1[noteId].visits + (n - 1))]
          == t[noteId := row.(visits := row.visits + n)];
      } else {
        assert t1 - {noteId} == t - {noteId};
      }
    }
  }

  /** A row whose visit count already reaches its limit is shown once more and then deleted. */
  lemma ExhaustedRowServedOnce(t: Table, noteId: string)
    requires noteId in t
    requires t[noteId].visits + 1 >= t[noteId].maxVisits
    ensures Fetch(t, noteId).served == Some(t[noteId])
    ensures Fetch(t, noteId).store == t - {noteId}
    ensures Fetch(Fetch(t, noteId).store, noteId).served == None
  {
  }

  /** Why the insert route failed. */
  datatype InsertError =
    | IdFailure(idError: IdError)
    | FormFailure(formError: FormError)
    | StoreFailure(dbError: DbError)

  /** The table after a successful insert and the id handed back to the user. */
  datatype Inserted = Inserted(store: Table, id: string)

  /**
   * The insert route: generate an id, read the form fields, insert the
   * row at time `now`. The generated id is never already stored, so the
   * insert never hits the primary key constraint.
   */
  function InsertRoute(t: Table, words: seq<string>, picks: seq<Pick>, form: FormData, now: Timestamp)
    : (r: Result<Inserted, InsertError>)
    requires ValidPicks(words, picks)
    ensures r.Failure? ==> !(r.error.StoreFailure? && r.error.dbError.DuplicateId?)
    ensures GenerateId(t, words, picks).Failure? ==>
      r == Failure(IdFailure(GenerateId(t, words, picks).error))
    ensures GenerateId(t, words, picks).Success? && ParseForm(form).Failure? ==>
      r == Failure(FormFailure(ParseForm(form).error))
    ensures GenerateId(t, words, picks).Success? && ParseForm(form).Success? && r.Failure? ==>
      r == Failure(StoreFailure(
        if !ExpiryInRange(now, ParseForm(form).value.ttlDays) then DateOverflow else IntegerOverflow))
    ensures r.Success? <==>
      && GenerateId(t, words, picks).Success?
      && Accepted(form)
      && ExpiryInRange(now, ParseForm(form).value.ttlDays)
      && IsSqlInteger(ParseForm(form).value.maxVisits)
    ensures r.Success? ==> r.value.id !in t && r.value.id == GenerateId(t, words, picks).value
    ensures r.Success? ==> r.value.store.Keys == t.Keys + {r.value.id}
    ensures r.Success? ==> forall k :: k in t ==> r.value.store[k] == t[k]
    ensures r.Success? ==>
      var p := ParseForm(form).value;
      var n := r.value.store[r.value.id];
      && n.id == r.value.id && n.data == form["note"] && n.isPrivate == p.isPrivate
      && n.visits == 0 && n.maxVisits == p.maxVisits
      && n.insertDate == now && n.expiryDate == now + p.ttlDays * MicrosPerDay
  {
    match GenerateId(t, words, picks)
    case Failure(e) => Failure(IdFailure(e))
    case Success(id) =>
      match ParseForm(form)
      case Failure(f) => Failure(FormFailure(f))
      case Success(p) =>
        match Insert(t, id, p.note, p.isPrivate, p.ttlDays, p.maxVisits, now)
        case Failure(d) => Failure(StoreFailure(d))
        case Success(t') => Success(Inserted(t', id))
  }

  /** Two successive inserts hand out different ids, and both notes are stored. */
  lemma SuccessiveInsertsDistinct(t: Table, words: seq<string>, picks1: seq<Pick>, picks2: seq<Pick>,
                                  form1: FormData, form2: FormData, now1: Timestamp, now2: Timestamp)
    requires ValidPicks(words, picks1) && ValidPicks(words, picks2)
    requires InsertRoute(t, words, picks1, form1, now1).Success?
    requires InsertRoute(InsertRoute(t, words, picks1, form1, now1).value.store, words, picks2, form2, now2).Success?
    ensures var a := InsertRoute(t, words, picks1, form1, now1).value;
      var b := InsertRoute(a.store, words, picks2, form2, now2).value;
      a.id != b.id && a.id in b.store && b.id in b.store
  {
  }

  /**
   * A note inserted with a visit limit of k >= 1 is shown by exactly k
   * consecutive fetches, the i-th showing visit count i - 1 and the stored
   * text; the next fetch finds nothing and the table is back to what it
   * was before the insert.
   */
  lemma InsertedNoteServedExactlyK(t: Table, words: seq<string>, picks: seq<Pick>, form: FormData, now: Timestamp)
    requires ValidPicks(words, picks)
    requires InsertRoute(t, words, picks, form, now).Success?
    requires ParseForm(form).value.maxVisits >= 1
    ensures var ins := InsertRoute(t, words, picks, form, now).value;
      var k := ParseForm(form).value.maxVisits;
      var (final, shown) := FetchMany(ins.store, ins.id, k + 1);
      && (forall i :: 0 <= i < k ==>
            shown[i].Some? && shown[i].value.data == form["note"] && shown[i].value.visits == i)
      && shown[k] == None
      && final == t
  {
    var ins := InsertRoute(t, words, picks, form, now).value;
    var k := ParseForm(form).value.maxVisits;
    var row := ins.store[ins.id];
    FetchManyShown(ins.store, ins.id, k);
    FetchManyStore(ins.store, ins.id, k);
    FetchManyPlusOne(ins.store, ins.id, k);
    assert ins.store - {ins.id} == t;
  }

  /**
   * A note inserted with a visit limit below 1 is still shown once, by the
   * first fetch, which deletes it; the table is then back to what it was
   * before the insert.
   */
  lemma InsertedNoteBelowOneServedOnce(t: Table, words: seq<string>, picks: seq<Pick>, form: FormData, now: Timestamp)
    requires ValidPicks(words, picks)
    requires InsertRoute(t, words, picks, form, now).Success?
    requires ParseForm(form).value.maxVisits < 1
    ensures var ins := InsertRoute(t, words, picks, form, now).value;
      var first := Fetch(ins.store, ins.id);
      && first.served.Some? && first.served.value.data == form["note"] && first.served.value.visits == 0
      && first.store == t
      && Fetch(first.store, ins.id).served == None
  {
    var ins := InsertRoute(t, words, picks, form, now).value;
    assert ins.store - {ins.id} == t;
  }

  /** One more fetch after `n` appends what a fetch of the resulting table shows. */
  lemma {:induction false} FetchManyPlusOne(t: Table, noteId: string, n: nat)
    ensures FetchMany(t, noteId, n + 1).0 == Fetch(FetchMany(t, noteId, n).0, noteId).store
    ensures FetchMany(t, noteId, n + 1).1
      == FetchMany(t, noteId, n).1 + [Fetch(FetchMany(t, noteId, n).0, noteId).served]
    decreases n
  {
    var first := Fetch(t, noteId);
    if n == 0 {
      assert FetchMany(t, noteId, 1).1 == [first.served] + [];
    } else {
      FetchManyPlusOne(first.store, noteId, n - 1);
      var rest := FetchMany(first.store, noteId, n - 1);
      var last := Fetch(rest.0, noteId);
      assert FetchMany(t, noteId, n).1 == [first.served] + rest.1;
      assert FetchMany(t, noteId, n + 1).1 == [first.served] + FetchMany(first.store, noteId, n).1;
      assert [first.served] + (rest.1 + [last.served]) == ([first.served] + rest.1) + [last.served];
    }
  }
}

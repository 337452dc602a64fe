/**
 * The rules of the inbox service over an abstract id -> record table.
 *
 * `Apply` is what saving one pending change does to the table (the database
 * layer, treated as a collaborator): changing or deleting a row that is not
 * there, or inserting a key that is, makes the save throw a DbUpdateException.
 * The step functions give the observable outcome of each service operation
 * directly; Services.InboxService is proved to produce exactly these.
 */
module InboxRules {
  import opened Models

  /** The one change the service asks the database to save. */
  datatype Change =
    | Insert(row: Inbox)
      /** An attached stub whose `Item` and `ModifyTime` are marked modified. */
    | Modify(stub: Inbox)
    | Remove(id: int)
  {
    /** The key of the row the change concerns. */
    function Target(): int {
      match this
      case Insert(row) => row.id
      case Modify(stub) => stub.id
      case Remove(id) => id
    }
  }

  /**
   * The table after saving `change`, or None when the save throws. A save
   * touches only the row under the change's key.
   */
  function Apply(rows: map<int, Inbox>, change: Change): (saved: Option<map<int, Inbox>>)
    ensures saved.Some? ==>
      forall k :: k in rows && k != change.Target() ==> k in saved.value && saved.value[k] == rows[k]
    ensures saved.Some? && change.Insert? ==>
      saved.value.Keys == rows.Keys + {change.row.id} && saved.value[change.row.id] == change.row
    ensures saved.Some? && change.Modify? ==>
      && saved.value.Keys == rows.Keys
      && change.stub.id in rows && change.stub.id in saved.value
      && saved.value[change.stub.id] ==
           rows[change.stub.id].(item := change.stub.item, modifyTime := change.stub.modifyTime)
    ensures saved.Some? && change.Remove? ==> saved.value.Keys == rows.Keys - {change.id}
  {
    match change
    case Insert(row) =>
      if row.id in rows then None else Some(rows[row.id := row])
    case Modify(stub) =>
      if stub.id in rows
      then Some(rows[stub.id := rows[stub.id].(item := stub.item, modifyTime := stub.modifyTime)])
      else None
    case Remove(id) =>
      if id in rows then Some(rows - {id}) else None
  }

  /**
   * A well-formed table: every key is positive, is the id of its record and is
   * below `nextId`, the identity value the table hands out next.
   */
  ghost predicate StoreInvariant(rows: map<int, Inbox>, nextId: int) {
    0 < nextId &&
    forall k :: k in rows ==> 0 < k < nextId && rows[k].id == k
  }

  /** The keys of `rows` below `bound`: what a scan in key order has passed. */
  ghost function KeysBelow(rows: map<int, Inbox>, bound: int): set<int> {
    set k | k in rows && k < bound
  }

  /** Moving the scan one key on adds that key exactly when it is stored. */
  lemma KeysBelowStep(rows: map<int, Inbox>, bound: int)
    ensures bound in rows ==> KeysBelow(rows, bound + 1) == KeysBelow(rows, bound) + {bound}
    ensures bound in rows ==> |KeysBelow(rows, bound + 1)| == |KeysBelow(rows, bound)| + 1
    ensures bound !in rows ==> KeysBelow(rows, bound + 1) == KeysBelow(rows, bound)
  {
    if bound in rows {
      assert KeysBelow(rows, bound + 1) == KeysBelow(rows, bound) + {bound};
    } else {
      assert KeysBelow(rows, bound + 1) == KeysBelow(rows, bound);
    }
  }

  /** Scanning up to the identity value passes every key. */
  lemma KeysBelowNextIdAll(rows: map<int, Inbox>, nextId: int)
    requires StoreInvariant(rows, nextId)
    ensures |KeysBelow(rows, nextId)| == |rows|
  {
    assert KeysBelow(rows, nextId) == rows.Keys;
  }

  /** Every stored record has a non-blank item. */
  ghost predicate ItemsValid(rows: map<int, Inbox>) {
    forall k :: k in rows ==> !IsBlank(rows[k].item)
  }

  /** The outcome of one service call: what it returns and the table after it. */
  datatype Step<R> = Step(result: R, rows: map<int, Inbox>, nextId: int)

  /** Create: only the candidate's item is used; the id comes from the table. */
  function CreateStep(rows: map<int, Inbox>, nextId: int, candidate: Inbox, now: Time): Step<Option<Inbox>> {
    if IsBlank(candidate.item) then Step(None, rows, nextId)
    else
      var created := Inbox(nextId, candidate.item, Some(now), None);
      Step(Some(created), rows[nextId := created], nextId + 1)
  }

  /** Update: only Item and ModifyTime of an existing row change. */
  function UpdateStep(rows: map<int, Inbox>, nextId: int, candidate: Inbox, now: Time): Step<Option<Inbox>> {
    var id := candidate.id;
    if id > 0 && !IsBlank(candidate.item) && id in rows then
      Step(Some(Inbox(id, candidate.item, None, Some(now))),
           rows[id := rows[id].(item := candidate.item, modifyTime := Some(now))],
           nextId)
    else Step(None, rows, nextId)
  }

  /** Delete: true exactly when there was a row to remove. */
  function DeleteStep(rows: map<int, Inbox>, nextId: int, id: int): Step<bool> {
    if id in rows then Step(true, rows - {id}, nextId) else Step(false, rows, nextId)
  }

  // ---------------------------------------------------------------- the save

  /**
   * A save fails exactly on a conflict: an update or delete of a row that is
   * not stored, or an insert under a key that is.
   */
  lemma ApplyFailsExactlyOnConflict(rows: map<int, Inbox>, change: Change)
    ensures Apply(rows, change).None? <==> (change.Insert? <==> change.Target() in rows)
  {
  }

  // ------------------------------------------------------------------ create

  /** A blank item is rejected: nothing is returned, stored or allocated. */
  lemma CreateRejectsBlank(rows: map<int, Inbox>, nextId: int, candidate: Inbox, now: Time)
    requires IsBlank(candidate.item)
    ensures CreateStep(rows, nextId, candidate, now) == Step(None, rows, nextId)
  {
  }

  /**
   * A valid item yields a new record carrying that item, a non-zero id that no
   * stored row has, the clock as CreateTime and no ModifyTime; the table gains
   * exactly that one row and keeps its invariant.
   */
  lemma CreateAddsOneFreshRecord(rows: map<int, Inbox>, nextId: int, candidate: Inbox, now: Time)
    requires StoreInvariant(rows, nextId)
    requires !IsBlank(candidate.item)
    ensures var s := CreateStep(rows, nextId, candidate, now);
      && s.result.Some?
      && var r := s.result.value;
      && r.id != 0 && r.id !in rows
      && r.item == candidate.item && r.createTime == Some(now) && r.modifyTime.None?
      && s.rows.Keys == rows.Keys + {r.id}
      && |s.rows| == |rows| + 1
      && s.rows[r.id] == r
      && (forall k :: k in rows ==> s.rows[k] == rows[k])
      && StoreInvariant(s.rows, s.nextId)
  {
    var s := CreateStep(rows, nextId, candidate, now);
    assert nextId !in rows;
    assert s.rows.Keys == rows.Keys + {nextId};
    assert |s.rows.Keys| == |rows.Keys| + 1;
  }

  /** Only the item of the candidate matters: its id and timestamps are ignored. */
  lemma CreateIgnoresSuppliedFields(rows: map<int, Inbox>, nextId: int, a: Inbox, b: Inbox, now: Time)
    requires a.item == b.item
    ensures CreateStep(rows, nextId, a, now) == CreateStep(rows, nextId, b, now)
  {
  }

  /** Ids are never reused: a later Create never hands out an id handed out before, even after a Delete. */
  lemma CreateNeverReusesIds(rows: map<int, Inbox>, nextId: int, candidate: Inbox, now: Time, earlier: int)
    requires StoreInvariant(rows, nextId)
    requires 0 < earlier < nextId
    ensures CreateStep(rows, nextId, candidate, now).nextId >= nextId
    ensures CreateStep(rows, nextId, candidate, now).result.Some? ==>
      CreateStep(rows, nextId, candidate, now).result.value.id != earlier
  {
  }

  // ------------------------------------------------------------------ update

  /** A non-positive id, a blank item or a missing row: nothing returned, the table unchanged. */
  lemma UpdateRejects(rows: map<int, Inbox>, nextId: int, candidate: Inbox, now: Time)
    ensures UpdateStep(rows, nextId, candidate, now).result.None? <==>
      (candidate.id <= 0 || IsBlank(candidate.item) || candidate.id !in rows)
    ensures UpdateStep(rows, nextId, candidate, now).result.None? ==>
      UpdateStep(rows, nextId, candidate, now).rows == rows
  {
  }

  /**
   * On an existing row the stored Item becomes the candidate's and ModifyTime
   * the clock; Id and CreateTime are kept and every other row is untouched.
   * The record returned carries only Id, Item and ModifyTime.
   */
  lemma UpdateChangesOnlyItemAndModifyTime(rows: map<int, Inbox>, nextId: int, candidate: Inbox, now: Time)
    requires StoreInvariant(rows, nextId)
    requires candidate.id > 0 && !IsBlank(candidate.item) && candidate.id in rows
    ensures var s := UpdateStep(rows, nextId, candidate, now);
      var id := candidate.id;
      && s.rows.Keys == rows.Keys
      && s.rows[id].id == rows[id].id == id
      && s.rows[id].createTime == rows[id].createTime
      && s.rows[id].item == candidate.item
      && s.rows[id].modifyTime == Some(now)
      && (forall k :: k in rows && k != id ==> s.rows[k] == rows[k])
      && s.result == Some(Inbox(id, candidate.item, None, Some(now)))
      && StoreInvariant(s.rows, s.nextId)
  {
  }

  // ------------------------------------------------------------------ delete

  /** Delete reports whether the row existed; afterwards it is gone and nothing else changed. */
  lemma DeleteRemovesExactlyOne(rows: map<int, Inbox>, nextId: int, id: int)
    requires StoreInvariant(rows, nextId)
    ensures var s := DeleteStep(rows, nextId, id);
      && (s.result <==> id in rows)
      && id !in s.rows
      && s.rows.Keys == rows.Keys - {id}
      && |s.rows| == (if s.result then |rows| - 1 else |rows|)
      && (forall k :: k in s.rows ==> s.rows[k] == rows[k])
      && StoreInvariant(s.rows, s.nextId)
  {
    var s := DeleteStep(rows, nextId, id);
    if id in rows {
      assert |s.rows.Keys| == |rows.Keys - {id}| == |rows.Keys| - 1;
    } else {
      assert s.rows == rows;
    }
  }

  // -------------------------------------------------------------- invariants

  /** Create keeps the table well-formed and every stored item non-blank. */
  lemma CreatePreservesInvariants(rows: map<int, Inbox>, nextId: int, candidate: Inbox, now: Time)
    requires StoreInvariant(rows, nextId) && ItemsValid(rows)
    ensures var c := CreateStep(rows, nextId, candidate, now);
      StoreInvariant(c.rows, c.nextId) && ItemsValid(c.rows)
  {
    if !IsBlank(candidate.item) {
      CreateAddsOneFreshRecord(rows, nextId, candidate, now);
    }
  }

  /** Update keeps the table well-formed and every stored item non-blank. */
  lemma UpdatePreservesInvariants(rows: map<int, Inbox>, nextId: int, candidate: Inbox, now: Time)
    requires StoreInvariant(rows, nextId) && ItemsValid(rows)
    ensures var u := UpdateStep(rows, nextId, candidate, now);
      StoreInvariant(u.rows, u.nextId) && ItemsValid(u.rows)
  {
  }

  /** Delete keeps the table well-formed and every stored item non-blank. */
  lemma DeletePreservesInvariants(rows: map<int, Inbox>, nextId: int, id: int)
    requires StoreInvariant(rows, nextId) && ItemsValid(rows)
    ensures var d := DeleteStep(rows, nextId, id);
      StoreInvariant(d.rows, d.nextId) && ItemsValid(d.rows)
  {
  }

  /** Deleting a row and then creating one never brings the deleted id back. */
  lemma DeleteThenCreateFreshId(rows: map<int, Inbox>, nextId: int, id: int, candidate: Inbox, now: Time)
    requires StoreInvariant(rows, nextId)
    requires id in rows && !IsBlank(candidate.item)
    ensures var d := DeleteStep(rows, nextId, id);
      var c := CreateStep(d.rows, d.nextId, candidate, now);
      c.result.Some? && c.result.value.id != id && id !in c.rows
  {
    DeleteRemovesExactlyOne(rows, nextId, id);
  }

  /** The service tests' table: ids 1, 2, 3 and 5. */
  function TestTable(): map<int, Inbox> {
    map[
      1 := Inbox(1, Some("Task One"), Some(1), Some(2)),
      2 := Inbox(2, Some("Task 2"), Some(3), None),
      3 := Inbox(3, Some("Task Three"), Some(4), Some(4)),
      5 := Inbox(5, Some("Simple Task"), Some(5), None)]
  }

  /**
   * On the tests' table (next identity value 6): creating "New Task" gets an id
   * outside {1, 2, 3, 5}; updating id 3 keeps its CreateTime; updating id 99
   * changes nothing; deleting id 2 succeeds and leaves no row 2.
   */
  lemma TestTableScenarios(now: Time)
    ensures var c := CreateStep(TestTable(), 6, Inbox(0, Some("New Task"), None, None), now);
      c.result.Some? && c.result.value.id !in {1, 2, 3, 5} && c.result.value.item == Some("New Task") &&
      c.result.value.createTime == Some(now) && c.result.value.modifyTime.None?
    ensures var u := UpdateStep(TestTable(), 6, Inbox(3, Some("Sort Out Stuff"), None, None), now);
      u.result.Some? && u.rows[3] == Inbox(3, Some("Sort Out Stuff"), Some(4), Some(now))
    ensures var m := UpdateStep(TestTable(), 6, Inbox(99, Some("X"), None, None), now);
      m.result.None? && m.rows == TestTable()
    ensures var d := DeleteStep(TestTable(), 6, 2);
      d.result && 2 !in d.rows
  {
    assert !IsBlank(Some("New Task")) by { assert !IsWhiteSpace("New Task"[0]); }
    assert !IsBlank(Some("Sort Out Stuff")) by { assert !IsWhiteSpace("Sort Out Stuff"[0]); }
  }
}

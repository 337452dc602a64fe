/**
 * The inbox service (Services/InboxService.cs) over an abstract table: `rows`
 * is the Inbox table and `nextId` the value its identity column hands out
 * next. The clock is passed in as `now`.
 */
module Services {
  import opened Models
  import opened InboxRules

  class InboxService {
    var rows: map<int, Inbox>
    var nextId: int

    ghost predicate Valid()
      reads this
    {
      StoreInvariant(rows, nextId)
    }

    /** A service over an already populated table. */
    constructor (seed: map<int, Inbox>, identity: int)
      requires StoreInvariant(seed, identity)
      ensures Valid() && rows == seed && nextId == identity
    {
      rows := seed;
      nextId := identity;
    }

    /**
     * Every stored record, each exactly once; the count equals the number of
     * rows. The scan walks the key range, so no order beyond that is promised.
     */
    method GetAll() returns (all: seq<Inbox>)
      requires Valid()
      ensures |all| == |rows|
      ensures forall i :: 0 <= i < |all| ==> all[i].id in rows && rows[all[i].id] == all[i]
      ensures forall k :: k in rows ==> rows[k] in all
      ensures forall i, j :: 0 <= i < j < |all| ==> all[i].id != all[j].id
    {
      var table := rows;
      all := [];
      ghost var at: map<int, nat> := map[];
      for id := 1 to nextId
        invariant Scanned(table, id, all, at)
      {
        ScanStep(table, id, all, at);
        if id in table {
          at := at[id := |all|];
          all := all + [table[id]];
        }
      }
      ScanDone(table, nextId, all, at);
    }

    /** The single record whose Id is `id`, or None when no record has it. */
    function GetById(id: int): (r: Option<Inbox>)
      reads this
      requires Valid()
      ensures r.Some? ==> id in rows && r.value == rows[id] && r.value.id == id
      ensures r.None? <==> forall k :: k in rows ==> rows[k].id != id
    {
      if id in rows then Some(rows[id]) else None
    }

    /**
     * Saves one pending change; a DbUpdateException (a change to a missing
     * row) becomes `false` and leaves the table as it was.
     */
    method SaveDbChanges(change: Change) returns (ok: bool)
      modifies this`rows
      ensures ok <==> Apply(old(rows), change).Some?
      ensures rows == if ok then Apply(old(rows), change).value else old(rows)
    {
      ok := true;
      var saved := Apply(rows, change);
      if saved.None? {
        ok := false;
      } else {
        rows := saved.value;
      }
    }

    /**
     * Builds a brand-new record from the candidate's item, stamps CreateTime,
     * and stores it when the item is not blank; the table assigns the id.
     */
    method Create(inbox: Inbox, now: Time) returns (r: Option<Inbox>)
      requires Valid()
      modifies this
      ensures Valid()
      ensures Step(r, rows, nextId) == CreateStep(old(rows), old(nextId), inbox, now)
    {
      var success := false;
      var newInbox := NewInboxWithItem(inbox.item).(createTime := Some(now));
      if !IsBlank(inbox.item) {
        CreateAddsOneFreshRecord(rows, nextId, inbox, now);
        // Adding the record draws its key from the identity column.
        newInbox := newInbox.(id := nextId);
        nextId := nextId + 1;
        success := SaveDbChanges(Insert(newInbox));
      }
      r := if success then Some(newInbox) else None;
    }

    /**
     * Attaches a stub carrying only the id and marks Item and ModifyTime
     * modified, when the id is positive and the item not blank; a missing row
     * makes the save fail.
     */
    method Update(inbox: Inbox, now: Time) returns (r: Option<Inbox>)
      requires Valid()
      modifies this
      ensures Valid()
      ensures Step(r, rows, nextId) == UpdateStep(old(rows), old(nextId), inbox, now)
    {
      var success := false;
      var modInbox := NewInbox().(id := inbox.id);
      if inbox.id > 0 && !IsBlank(inbox.item) {
        modInbox := modInbox.(item := inbox.item, modifyTime := Some(now));
        success := SaveDbChanges(Modify(modInbox));
      }
      r := if success then Some(modInbox) else None;
    }

    /** Marks a stub with the id deleted; the save fails when there is no such row. */
    method Delete(id: int) returns (ok: bool)
      requires Valid()
      modifies this
      ensures Valid()
      ensures Step(ok, rows, nextId) == DeleteStep(old(rows), old(nextId), id)
    {
      var inbox := NewInbox().(id := id);
      ok := SaveDbChanges(Remove(inbox.id));
    }
  }

  /** `all` holds only rows of the table, each under a key below `bound`. */
  ghost predicate FromTable(table: map<int, Inbox>, bound: int, all: seq<Inbox>) {
    forall i :: 0 <= i < |all| ==> all[i].id in table && all[i].id < bound && table[all[i].id] == all[i]
  }

  /** Every row under a key below `bound` sits in `all` at the position `at` gives. */
  ghost predicate Covers(table: map<int, Inbox>, bound: int, all: seq<Inbox>, at: map<int, nat>) {
    forall k :: k in table && k < bound ==> k in at && at[k] < |all| && all[at[k]] == table[k]
  }

  /** The rows of `all` come in strictly ascending id order. */
  ghost predicate Ascending(all: seq<Inbox>) {
    forall i, j :: 0 <= i < j < |all| ==> all[i].id < all[j].id
  }

  /**
   * A scan of the table in key order that has passed every key below `bound`:
   * `all` holds exactly those rows, in ascending key order, and `at` says where.
   */
  ghost predicate Scanned(table: map<int, Inbox>, bound: int, all: seq<Inbox>, at: map<int, nat>) {
    && |all| == |KeysBelow(table, bound)|
    && FromTable(table, bound, all)
    && Covers(table, bound, all, at)
    && Ascending(all)
  }

  /** Passing one more key keeps the scan invariant. */
  lemma ScanStep(table: map<int, Inbox>, bound: int, all: seq<Inbox>, at: map<int, nat>)
    requires Scanned(table, bound, all, at)
    requires bound in table ==> table[bound].id == bound
    ensures bound in table ==> Scanned(table, bound + 1, all + [table[bound]], at[bound := |all|])
    ensures bound !in table ==> Scanned(table, bound + 1, all, at)
  {
    KeysBelowStep(table, bound);
    if bound in table {
      AppendKeepsFromTable(table, bound, all);
      AppendKeepsCovers(table, bound, all, at);
      AppendKeepsAscending(bound, all, table[bound]);
    }
  }

  /** Appending the row under `bound` keeps `all` drawn from the table. */
  lemma AppendKeepsFromTable(table: map<int, Inbox>, bound: int, all: seq<Inbox>)
    requires FromTable(table, bound, all)
    requires bound in table && table[bound].id == bound
    ensures FromTable(table, bound + 1, all + [table[bound]])
  {
  }

  /** Appending the row under `bound` extends the coverage to `bound` itself. */
  lemma AppendKeepsCovers(table: map<int, Inbox>, bound: int, all: seq<Inbox>, at: map<int, nat>)
    requires Covers(table, bound, all, at)
    requires bound in table
    ensures Covers(table, bound + 1, all + [table[bound]], at[bound := |all|])
  {
    var all', at' := all + [table[bound]], at[bound := |all|];
    forall k | k in table && k < bound + 1
      ensures k in at' && at'[k] < |all'| && all'[at'[k]] == table[k]
    {
      if k < bound {
        assert at'[k] == at[k] && all'[at[k]] == all[at[k]];
      }
    }
  }

  /** Appending a row whose id exceeds every id so far keeps the order ascending. */
  lemma AppendKeepsAscending(bound: int, all: seq<Inbox>, row: Inbox)
    requires Ascending(all)
    requires forall i :: 0 <= i < |all| ==> all[i].id < bound
    requires row.id == bound
    ensures Ascending(all + [row])
  {
  }

  /** A finished scan lists every row once. */
  lemma ScanDone(table: map<int, Inbox>, nextId: int, all: seq<Inbox>, at: map<int, nat>)
    requires StoreInvariant(table, nextId)
    requires Scanned(table, nextId, all, at)
    ensures |all| == |table|
    ensures forall k :: k in table ==> table[k] in all
    ensures forall i, j :: 0 <= i < j < |all| ==> all[i].id != all[j].id
  {
    KeysBelowNextIdAll(table, nextId);
    forall k | k in table ensures table[k] in all {
      assert all[at[k]] == table[k];
    }
  }
}

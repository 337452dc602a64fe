/**
 * The legacy in-memory prototype: the InboxOld record (Old/InboxOld.cs) with
 * its process-wide id counter, and the old controller
 * (Controllers/api/InboxControllerOld.cs) working on a process-wide list of
 * such records. The records are objects: the list holds references and
 * UpdateInbox changes the referenced record in place.
 */
module Legacy {
  import opened Models

  /** The item an InboxOld gets when none (null) is given. */
  const InboxDefault := "Undefined Inbox"
  /** The user an InboxOld gets when none (null) is given. */
  const UserDefault := "Unknown"

  /** `value ?? fallback` */
  function OrElse(value: Option<string>, fallback: string): (s: string)
    ensures value.Some? ==> s == value.value
    ensures value.None? ==> s == fallback
  {
    if value.Some? then value.value else fallback
  }

  /** The static `_idCount` that every InboxOld constructor draws its id from. */
  class IdCounter {
    var next: int
    /** The ids handed out so far. */
    ghost var issued: set<int>

    ghost predicate Valid()
      reads this
    {
      forall i :: i in issued ==> i < next
    }

    /** The counter as the program starts: the first id is 1. */
    constructor ()
      ensures Valid() && next == 1 && issued == {}
    {
      next := 1;
      issued := {};
    }
  }

  class InboxOld {
    var id: int
    var createTime: Time
    var modifyTime: Time
    /** `_item`: a string, never null. */
    var item: string
    /** `_user`: a string, never null. */
    var user: string

    /**
     * `InboxOld()`: takes the counter's value as id and advances it, stamps
     * both times, and sets the default item and user.
     */
    constructor (counter: IdCounter, now: Time)
      requires counter.Valid()
      modifies counter
      ensures counter.Valid()
      ensures id == old(counter.next) && counter.next == id + 1
      ensures id !in old(counter.issued) && counter.issued == old(counter.issued) + {id}
      ensures item == InboxDefault && user == UserDefault
      ensures createTime == now && modifyTime == now
    {
      var drawn := counter.next;
      id := drawn;
      counter.next := drawn + 1;
      counter.issued := counter.issued + {drawn};
      createTime := now;
      modifyTime := now;
      user := UserDefault;
      item := InboxDefault;
    }

    /** `InboxOld(item)`: as `InboxOld()`, then the item, or the default for null. */
    constructor WithItem(item: Option<string>, counter: IdCounter, now: Time)
      requires counter.Valid()
      modifies counter
      ensures counter.Valid()
      ensures id == old(counter.next) && counter.next == id + 1
      ensures id !in old(counter.issued) && counter.issued == old(counter.issued) + {id}
      ensures this.item == OrElse(item, InboxDefault) && user == UserDefault
      ensures createTime == now && modifyTime == now
    {
      var drawn := counter.next;
      id := drawn;
      counter.next := drawn + 1;
      counter.issued := counter.issued + {drawn};
      createTime := now;
      modifyTime := now;
      user := UserDefault;
      this.item := OrElse(item, InboxDefault);
    }

    /** `InboxOld(item, user)`: as `InboxOld(item)`, then the user, or the default for null. */
    constructor WithItemAndUser(item: Option<string>, user: Option<string>, counter: IdCounter, now: Time)
      requires counter.Valid()
      modifies counter
      ensures counter.Valid()
      ensures id == old(counter.next) && counter.next == id + 1
      ensures id !in old(counter.issued) && counter.issued == old(counter.issued) + {id}
      ensures this.item == OrElse(item, InboxDefault) && this.user == OrElse(user, UserDefault)
      ensures createTime == now && modifyTime == now
    {
      var drawn := counter.next;
      id := drawn;
      counter.next := drawn + 1;
      counter.issued := counter.issued + {drawn};
      createTime := now;
      modifyTime := now;
      this.item := OrElse(item, InboxDefault);
      this.user := OrElse(user, UserDefault);
    }

    /** The `Item` setter: the value or the default, and a fresh ModifyTime; nothing else changes. */
    method SetItem(value: Option<string>, now: Time)
      modifies this
      ensures item == OrElse(value, InboxDefault) && modifyTime == now
      ensures id == old(id) && createTime == old(createTime) && user == old(user)
    {
      item := OrElse(value, InboxDefault);
      modifyTime := now;
    }

    /** The `User` setter: the value or the default, and a fresh ModifyTime; nothing else changes. */
    method SetUser(value: Option<string>, now: Time)
      modifies this
      ensures user == OrElse(value, UserDefault) && modifyTime == now
      ensures id == old(id) && createTime == old(createTime) && item == old(item)
    {
      user := OrElse(value, UserDefault);
      modifyTime := now;
    }
  }

  /**
   * The position of the first record in `list` whose Id is `id`, or -1 when
   * there is none (`IndexOf(Where(i => i.Id == id).FirstOrDefault())`).
   */
  function FirstIndexOf(list: seq<InboxOld>, id: int): (idx: int)
    reads list
    ensures -1 <= idx < |list|
    ensures idx == -1 <==> forall j :: 0 <= j < |list| ==> list[j].id != id
    ensures 0 <= idx ==> list[idx].id == id && forall j :: 0 <= j < idx ==> list[j].id != id
    decreases |list|
  {
    if |list| == 0 then -1
    else if list[0].id == id then 0
    else
      var rest := FirstIndexOf(list[1..], id);
      if rest == -1 then -1 else rest + 1
  }

  /** The responses of the old controller. */
  datatype OldResponse = Ok(record: InboxOld) | NotFound | BadRequest(message: string)

  const NotDefinedMessage := "Error: Inbox Item is not defined"

  /** The items and users of the four seed records, in order. */
  const SeedItems: seq<string> := ["Post Letter", "Phone Fred", "Clean Fridge", "Write up finances"]
  const SeedUsers: seq<string> := ["Gill", "Bob", UserDefault, "Accountant"]

  /** `seeds` are the four seed records, with consecutive ids from `firstId`, both times stamped `now`. */
  ghost predicate SeedRecords(seeds: seq<InboxOld>, firstId: int, now: Time)
    reads seeds
  {
    && |seeds| == 4
    && forall i :: 0 <= i < 4 ==>
         && seeds[i].id == firstId + i
         && seeds[i].item == SeedItems[i]
         && seeds[i].user == SeedUsers[i]
         && seeds[i].createTime == now
         && seeds[i].modifyTime == now
  }

  /**
   * The static state of the old controller: the shared `InboxList` and the
   * `Init` flag. Every HTTP action first runs `Construct`.
   */
  class InboxControllerOld {
    var inboxList: seq<InboxOld>
    var init: bool

    /** The static state as the process starts. */
    constructor ()
      ensures inboxList == [] && !init
    {
      inboxList := [];
      init := false;
    }

    /** The controller's constructor: seeds the list the first time only. */
    method Construct(counter: IdCounter, now: Time)
      requires counter.Valid()
      modifies this, counter
      ensures counter.Valid()
      ensures init
      ensures old(init) ==>
        && inboxList == old(inboxList)
        && counter.next == old(counter.next)
        && counter.issued == old(counter.issued)
      ensures !old(init) ==>
        var n, first := |old(inboxList)|, old(counter.next);
        && |inboxList| == n + 4
        && inboxList[..n] == old(inboxList)
        && counter.next == first + 4
        && counter.issued == old(counter.issued) + {first, first + 1, first + 2, first + 3}
        && (forall i :: n <= i < |inboxList| ==> fresh(inboxList[i]))
        && SeedRecords(inboxList[n..], first, now)
    {
      if !init {
        init := InitialiseInboxList(counter, now);
      }
    }

    /** Appends the four seed records. */
    method InitialiseInboxList(counter: IdCounter, now: Time) returns (done: bool)
      requires counter.Valid()
      modifies this`inboxList, counter
      ensures counter.Valid() && done
      ensures
        var n, first := |old(inboxList)|, old(counter.next);
        && |inboxList| == n + 4
        && inboxList[..n] == old(inboxList)
        && counter.next == first + 4
        && counter.issued == old(counter.issued) + {first, first + 1, first + 2, first + 3}
        && (forall i :: n <= i < |inboxList| ==> fresh(inboxList[i]))
        && SeedRecords(inboxList[n..], first, now)
    {
      var a := new InboxOld.WithItemAndUser(Some("Post Letter"), Some("Gill"), counter, now);
      var b := new InboxOld.WithItemAndUser(Some("Phone Fred"), Some("Bob"), counter, now);
      var c := new InboxOld.WithItem(Some("Clean Fridge"), counter, now);
      var d := new InboxOld.WithItemAndUser(Some("Write up finances"), Some("Accountant"), counter, now);
      inboxList := inboxList + [a, b, c, d];
      done := true;
    }

    /** GET: the whole list, the same records in the same order, unfiltered. */
    function GetInbox(): (all: seq<InboxOld>)
      reads this
      ensures |all| == |inboxList| && forall i :: 0 <= i < |all| ==> all[i] == inboxList[i]
    {
      inboxList
    }

    /** GET {id}: the first record with that id, or NotFound. */
    method GetInboxById(id: int) returns (resp: OldResponse)
      ensures resp.NotFound? <==> forall j :: 0 <= j < |inboxList| ==> inboxList[j].id != id
      ensures resp.Ok? ==> var idx := FirstIndexOf(inboxList, id);
        0 <= idx && resp.record == inboxList[idx] && resp.record.id == id
      ensures !resp.BadRequest?
    {
      var idx := FirstIndexOf(inboxList, id);
      if idx < 0 || idx >= |inboxList| {
        return NotFound;
      }
      resp := Ok(inboxList[idx]);
    }

    /**
     * POST: an empty item is refused and the list left alone; any other record
     * is appended exactly as given (no check that its id is new).
     */
    method CreateInbox(inboxItem: InboxOld) returns (resp: OldResponse)
      modifies this`inboxList
      ensures |old(inboxItem.item)| == 0 ==>
        resp == BadRequest(NotDefinedMessage) && inboxList == old(inboxList)
      ensures |old(inboxItem.item)| != 0 ==>
        resp == Ok(inboxItem) && inboxList == old(inboxList) + [inboxItem]
    {
      if |inboxItem.item| == 0 {
        resp := BadRequest(NotDefinedMessage);
      } else {
        inboxList := inboxList + [inboxItem];
        resp := Ok(inboxItem);
      }
    }

    /**
     * PUT {id}: the first record with that id gets the given Item and User
     * through their setters; the list itself, and every other record object,
     * stay as they were.
     */
    method UpdateInbox(id: int, item: InboxOld, now: Time) returns (resp: OldResponse)
      modifies inboxList
      ensures inboxList == old(inboxList)
      ensures var idx := old(FirstIndexOf(inboxList, id));
        && (idx == -1 ==> resp.NotFound?)
        && (idx >= 0 ==>
              var target := inboxList[idx];
              && resp == Ok(target)
              && target.item == old(item.item) && target.user == old(item.user)
              && target.modifyTime == now
              && target.id == old(target.id) && target.createTime == old(target.createTime))
        && (forall j :: 0 <= j < |inboxList| && (idx == -1 || inboxList[j] != inboxList[idx]) ==>
              && inboxList[j].id == old(inboxList[j].id)
              && inboxList[j].item == old(inboxList[j].item)
              && inboxList[j].user == old(inboxList[j].user)
              && inboxList[j].createTime == old(inboxList[j].createTime)
              && inboxList[j].modifyTime == old(inboxList[j].modifyTime))
    {
      var idx := FirstIndexOf(inboxList, id);
      if idx < 0 || idx >= |inboxList| {
        return NotFound;
      }
      inboxList[idx].SetItem(Some(item.item), now);
      inboxList[idx].SetUser(Some(item.user), now);
      resp := Ok(inboxList[idx]);
    }

    /**
     * DELETE {id}: removes exactly the first record with that id and returns
     * it; the others keep their relative order.
     */
    method DeleteInbox(id: int) returns (resp: OldResponse)
      modifies this`inboxList
      ensures var idx := old(FirstIndexOf(inboxList, id));
        && (idx == -1 ==> resp.NotFound? && inboxList == old(inboxList))
        && (idx >= 0 ==>
              && resp == Ok(old(inboxList[idx]))
              && inboxList == old(inboxList[..idx] + inboxList[idx + 1..])
              && |inboxList| == |old(inboxList)| - 1)
    {
      var idx := FirstIndexOf(inboxList, id);
      if idx < 0 || idx >= |inboxList| {
        return NotFound;
      }
      var item := inboxList[idx];
      inboxList := inboxList[..idx] + inboxList[idx + 1..];
      resp := Ok(item);
    }
  }
}

/** The queue mutators of the authentication context: a store of queue rows
    and queue-item rows that each operation reads and then updates in place,
    guarded by the signed-in user's role. */
module QueueStore {

  import opened Common
  import opened Seqs
  import opened Ordering
  import opened Positions

  datatype QueueRow = QueueRow(id: QueueId, title: string, createdBy: UserId)

  /** One element of the refreshed `queues` list. */
  datatype QueueWithItems = QueueWithItems(id: QueueId, title: string, items: seq<QueueEntry>)

  /** A queue_items row as a listing returns it. */
  datatype ItemRow = ItemRow(id: ItemId, item: QueueItem)

  predicate QueueIn(queues: seq<QueueRow>, q: QueueId)
  {
    exists r :: r in queues && r.id == q
  }

  function EntryOf(id: ItemId, item: QueueItem): QueueEntry
  {
    QueueEntry(id, item.name, item.position, item.status, item.requestedBy)
  }

  predicate RowsSorted(rows: seq<ItemRow>)
  {
    forall i, j :: 0 <= i < j < |rows| ==> rows[i].item.position <= rows[j].item.position
  }

  /** `select * from queue_items order by position`: every row of the table
      once, in ascending position. */
  predicate IsListing(t: Table, rows: seq<ItemRow>)
  {
    && (forall i :: 0 <= i < |rows| ==> rows[i].id in t && t[rows[i].id] == rows[i].item)
    && (forall id :: id in t ==> exists i :: 0 <= i < |rows| && rows[i].id == id)
    && (forall i, j :: 0 <= i < j < |rows| ==> rows[i].id != rows[j].id)
    && RowsSorted(rows)
  }

  /** `.map(item => ({ id, name, position, status, requestedBy }))`. */
  function Entries(rows: seq<ItemRow>): (r: seq<QueueEntry>)
    ensures |r| == |rows|
    ensures forall i :: 0 <= i < |r| ==> r[i] == EntryOf(rows[i].id, rows[i].item)
  {
    seq(|rows|, i requires 0 <= i < |rows| => EntryOf(rows[i].id, rows[i].item))
  }

  predicate RowOrder(a: ItemRow, b: ItemRow)
  {
    a.item.position <= b.item.position
  }

  predicate RowIdsDiffer(a: ItemRow, b: ItemRow)
  {
    a.id != b.id
  }

  /** `itemsData.filter(item => item.queue_id === q).map(...)`. */
  function ItemsOf(rows: seq<ItemRow>, q: QueueId): seq<QueueEntry>
  {
    Entries(Filter(rows, (row: ItemRow) => row.item.queueId == q))
  }

  /** The queues in creation order, each with its own items. */
  function Grouped(queues: seq<QueueRow>, rows: seq<ItemRow>): (r: seq<QueueWithItems>)
    ensures |r| == |queues|
    ensures forall i :: 0 <= i < |r| ==> r[i].id == queues[i].id && r[i].title == queues[i].title
  {
    seq(|queues|, i requires 0 <= i < |queues| => QueueWithItems(queues[i].id, queues[i].title, ItemsOf(rows, queues[i].id)))
  }

  /** refreshQueues gives each queue exactly the items whose queue_id is its
      id, in ascending position. */
  lemma RefreshGroupsByQueue(t: Table, queues: seq<QueueRow>, rows: seq<ItemRow>, i: int)
    requires IsListing(t, rows) && 0 <= i < |queues|
    ensures var items := Grouped(queues, rows)[i].items;
            && SortedByPosition(items)
            && (forall e :: e in items ==> e.id in Members(t, queues[i].id) && e == EntryOf(e.id, t[e.id]))
            && (forall id :: id in Members(t, queues[i].id) ==> EntryOf(id, t[id]) in items)
            && (forall a, b :: 0 <= a < b < |items| ==> items[a].id != items[b].id)
  {
    GroupOrdered(t, queues, rows, i);
    GroupMembers(t, queues, rows, i);
  }

  /** A queue's group keeps the listing's order and its distinct ids. */
  lemma GroupOrdered(t: Table, queues: seq<QueueRow>, rows: seq<ItemRow>, i: int)
    requires IsListing(t, rows) && 0 <= i < |queues|
    ensures var items := Grouped(queues, rows)[i].items;
            && SortedByPosition(items)
            && (forall a, b :: 0 <= a < b < |items| ==> items[a].id != items[b].id)
  {
    var q := queues[i].id;
    var keep := (row: ItemRow) => row.item.queueId == q;
    var kept := Filter(rows, keep);
    var items := Grouped(queues, rows)[i].items;
    assert items == Entries(kept);
    assert Pairwise(rows, RowOrder);
    FilterKeepsPairwise(rows, keep, RowOrder);
    forall a, b | 0 <= a < b < |items| ensures items[a].position <= items[b].position {
      assert RowOrder(kept[a], kept[b]);
    }
    assert Pairwise(rows, RowIdsDiffer);
    FilterKeepsPairwise(rows, keep, RowIdsDiffer);
    forall a, b | 0 <= a < b < |items| ensures items[a].id != items[b].id {
      assert RowIdsDiffer(kept[a], kept[b]);
    }
  }

  /** A queue's group holds exactly the queue's members, as the table has them. */
  lemma GroupMembers(t: Table, queues: seq<QueueRow>, rows: seq<ItemRow>, i: int)
    requires IsListing(t, rows) && 0 <= i < |queues|
    ensures var items := Grouped(queues, rows)[i].items;
            && (forall e :: e in items ==> e.id in Members(t, queues[i].id) && e == EntryOf(e.id, t[e.id]))
            && (forall id :: id in Members(t, queues[i].id) ==> EntryOf(id, t[id]) in items)
  {
    var q := queues[i].id;
    var keep := (row: ItemRow) => row.item.queueId == q;
    var kept := Filter(rows, keep);
    var items := Grouped(queues, rows)[i].items;
    assert items == Entries(kept);
    forall e | e in items ensures e.id in Members(t, q) && e == EntryOf(e.id, t[e.id]) {
      var k :| 0 <= k < |items| && items[k] == e;
      assert kept[k] in kept;
      var m :| 0 <= m < |rows| && rows[m] == kept[k];
    }
    forall id | id in Members(t, q) ensures EntryOf(id, t[id]) in items {
      var k :| 0 <= k < |rows| && rows[k].id == id;
      assert rows[k] in rows && keep(rows[k]);
      assert rows[k] in kept;
      var m :| 0 <= m < |kept| && kept[m] == rows[k];
      assert items[m] == EntryOf(id, t[id]);
    }
  }

  /** `username.includes(" ")` makes signup fail before any write. */
  predicate UsernameAllowed(username: string)
  {
    ' ' !in username
  }

  class Store {
    /** The queues table, in creation order. */
    var queues: seq<QueueRow>
    /** The queue_items table. */
    var items: Table
    /** The signed-in user, if any. */
    var user: Option<AuthUser>

    /** Referential integrity of queue_items.queue_id, and unique queue ids. */
    ghost predicate Valid()
      reads this
    {
      && (forall id :: id in items ==> QueueIn(queues, items[id].queueId))
      && (forall i, j :: 0 <= i < j < |queues| ==> queues[i].id != queues[j].id)
    }

    /** The position invariant: every queue's items occupy 1..N. */
    ghost predicate AllDense()
      reads this
    {
      forall q :: Dense(items, q)
    }

    constructor (signedIn: Option<AuthUser>)
      ensures queues == [] && items == map[] && user == signedIn
      ensures Valid() && AllDense()
    {
      queues := [];
      items := map[];
      user := signedIn;
      new;
      forall q ensures Dense(items, q) {
        assert Members(items, q) == {};
      }
    }

    /** The `order("position", { ascending: false }).limit(1)` lookup: one
        pass over the table keeping the highest position seen. */
    method TopPosition(q: QueueId) returns (r: Option<int>)
      ensures r == Top(items, q)
      ensures r.Some? ==> exists id :: id in items && items[id].queueId == q && items[id].position == r.value
    {
      var t := items;
      var rest := t.Keys;
      ghost var seen: set<ItemId> := {};
      ghost var holder: ItemId := "";
      r := None;
      while rest != {}
        invariant rest + seen == t.Keys && rest !! seen
        invariant r.None? ==> forall x :: x in seen ==> t[x].queueId != q
        invariant r.Some? ==> holder in t && t[holder].queueId == q && t[holder].position == r.value
        invariant r.Some? ==> forall x :: x in seen && t[x].queueId == q ==> t[x].position <= r.value
        decreases |rest|
      {
        var id :| id in rest;
        if t[id].queueId == q && (r.None? || t[id].position > r.value) {
          r := Some(t[id].position);
          holder := id;
        }
        rest := rest - {id};
        seen := seen + {id};
      }
      if r.Some? {
        assert holder in Members(t, q);
        TopIsUnique(t, q, holder);
      } else {
        assert Members(t, q) == {};
      }
    }

    /** addPersonToQueue: a master appends an approved item requested by
        themself; anyone else changes nothing, nor does an unknown queue
        (the foreign key refuses the insert). */
    method AddPersonToQueue(queueId: QueueId, name: string, freshId: ItemId, fault: Fault)
      requires Valid() && freshId !in items
      modifies this
      ensures Valid()
      ensures queues == old(queues) && user == old(user)
      ensures items == if IsMaster(user) && QueueIn(queues, queueId)
                       then Appended(old(items), freshId, queueId, name, Approved, user.value.id, fault)
                       else old(items)
      ensures old(AllDense()) ==> AllDense()
    {
      if !IsMaster(user) {
        return;
      }
      var next := TopPosition(queueId);
      var position := if next.Some? then next.value + 1 else 1;
      if !QueueIn(queues, queueId) || !Runs(fault, 0) {
        return;
      }
      ghost var before := items;
      var row := QueueItem(queueId, name, position, Approved, user.value.id);
      items := items[freshId := row];
      assert items == Appended(before, freshId, queueId, row.name, Approved, row.requestedBy, fault);
      forall id | id in items ensures QueueIn(queues, items[id].queueId) {
        if id != freshId {
          assert items[id] == before[id];
        }
      }
      forall q | old(AllDense()) ensures Dense(items, q) {
        AppendKeepsDense(before, freshId, queueId, row.name, Approved, row.requestedBy, q);
      }
    }

    /** requestToJoinQueue: a signed-in "user" appends a waiting item under
        their own name; masters and anonymous visitors change nothing. */
    method RequestToJoinQueue(queueId: QueueId, freshId: ItemId, fault: Fault)
      requires Valid() && freshId !in items
      modifies this
      ensures Valid()
      ensures queues == old(queues) && user == old(user)
      ensures items == if user.Some? && user.value.role == Member && QueueIn(queues, queueId)
                       then Appended(old(items), freshId, queueId, user.value.name, Waiting, user.value.id, fault)
                       else old(items)
      ensures old(AllDense()) ==> AllDense()
    {
      if user.None? || user.value.role != Member {
        return;
      }
      var next := TopPosition(queueId);
      var position := if next.Some? then next.value + 1 else 1;
      if !QueueIn(queues, queueId) || !Runs(fault, 0) {
        return;
      }
      ghost var before := items;
      var row := QueueItem(queueId, user.value.name, position, Waiting, user.value.id);
      items := items[freshId := row];
      assert items == Appended(before, freshId, queueId, row.name, Waiting, row.requestedBy, fault);
      forall id | id in items ensures QueueIn(queues, items[id].queueId) {
        if id != freshId {
          assert items[id] == before[id];
        }
      }
      forall q | old(AllDense()) ensures Dense(items, q) {
        AppendKeepsDense(before, freshId, queueId, row.name, Waiting, row.requestedBy, q);
      }
    }

    /** removePersonFromQueue: delete the item, then decrement the later
        items of `queueId`. A missing item or a non-master changes nothing. */
    method RemovePersonFromQueue(queueId: QueueId, itemId: ItemId, fault: Fault)
      requires Valid()
      modifies this
      ensures Valid()
      ensures queues == old(queues) && user == old(user)
      ensures items == if IsMaster(user) then Removed(old(items), queueId, itemId, fault) else old(items)
      ensures fault.NoFault? && old(AllDense()) && (itemId in old(items) ==> old(items)[itemId].queueId == queueId)
              ==> AllDense()
    {
      if !IsMaster(user) || itemId !in items {
        return;
      }
      ghost var before := items;
      var removed := items[itemId].position;
      if !Runs(fault, 0) {
        return;
      }
      items := items - {itemId};
      if !Runs(fault, 1) {
        return;
      }
      items := ShiftDown(items, queueId, removed);
      forall q | fault.NoFault? && old(AllDense()) && before[itemId].queueId == queueId
        ensures Dense(items, q)
      {
        RemoveKeepsDense(before, queueId, itemId, q);
      }
    }

    /** moveToEnd: only the item at position 1 moves; the rest of `queueId`
        above 1 shifts down and the item takes the old maximum (`|| 1`). */
    method MoveToEnd(queueId: QueueId, itemId: ItemId, fault: Fault)
      requires Valid()
      modifies this
      ensures Valid()
      ensures queues == old(queues) && user == old(user)
      ensures items == if IsMaster(user) then MovedToEnd(old(items), queueId, itemId, fault) else old(items)
      ensures fault.NoFault? && old(AllDense()) && (itemId in old(items) ==> old(items)[itemId].queueId == queueId)
              ==> AllDense()
    {
      if !IsMaster(user) || itemId !in items || items[itemId].position != 1 {
        return;
      }
      ghost var before := items;
      MoveToEndKeepsQueues(before, queueId, itemId, fault);
      var top := TopPosition(queueId);
      var maxPosition := if top.None? || top.value == 0 then 1 else top.value;
      assert maxPosition == MoveTarget(before, queueId);
      if !Runs(fault, 0) {
        return;
      }
      items := ShiftDown(items, queueId, 1);
      if !Runs(fault, 1) {
        assert items == MovedToEnd(before, queueId, itemId, fault);
        return;
      }
      items := items[itemId := items[itemId].(position := maxPosition)];
      assert items == MovedToEnd(before, queueId, itemId, fault);
      forall q | fault.NoFault? && old(AllDense()) && before[itemId].queueId == queueId
        ensures Dense(items, q)
      {
        MoveToEndKeepsDense(before, queueId, itemId, q);
      }
    }

    /** approveRequest: a master sets the item's status to approved. */
    method ApproveRequest(queueId: QueueId, itemId: ItemId, fault: Fault)
      requires Valid()
      modifies this
      ensures Valid()
      ensures queues == old(queues) && user == old(user)
      ensures items == if IsMaster(user) then ApprovedIn(old(items), itemId, fault) else old(items)
      ensures old(AllDense()) ==> AllDense()
    {
      if !IsMaster(user) || !Runs(fault, 0) {
        return;
      }
      if itemId in items {
        items := items[itemId := items[itemId].(status := Approved)];
      }
      forall q | old(AllDense()) ensures Dense(items, q) {
        ApproveKeepsDense(old(items), itemId, q);
      }
    }

    /** createQueue: a master inserts a queue row owned by themself. */
    method CreateQueue(title: string, freshId: QueueId, fault: Fault)
      requires Valid() && !QueueIn(queues, freshId)
      modifies this
      ensures Valid()
      ensures items == old(items) && user == old(user)
      ensures queues == if IsMaster(user) && Runs(fault, 0)
                        then old(queues) + [QueueRow(freshId, title, user.value.id)]
                        else old(queues)
    {
      if !IsMaster(user) || !Runs(fault, 0) {
        return;
      }
      queues := queues + [QueueRow(freshId, title, user.value.id)];
      forall id | id in items ensures QueueIn(queues, items[id].queueId) {
        var r :| r in old(queues) && r.id == items[id].queueId;
        assert r in queues;
      }
    }

    /** deleteQueue: a master deletes the queue row; the cascade deletes
        its items. */
    method DeleteQueue(queueId: QueueId, fault: Fault)
      requires Valid()
      modifies this
      ensures Valid()
      ensures user == old(user)
      ensures IsMaster(user) && Runs(fault, 0) ==>
                queues == Filter(old(queues), (r: QueueRow) => r.id != queueId) &&
                items == WithoutQueue(old(items), queueId)
      ensures !(IsMaster(user) && Runs(fault, 0)) ==> queues == old(queues) && items == old(items)
      ensures old(AllDense()) ==> AllDense()
    {
      if !IsMaster(user) || !Runs(fault, 0) {
        return;
      }
      ghost var before := items;
      var keep := (r: QueueRow) => r.id != queueId;
      FilterKeepsPairwise(queues, keep, (a: QueueRow, b: QueueRow) => a.id != b.id);
      queues := Filter(queues, keep);
      items := WithoutQueue(items, queueId);
      forall id | id in items ensures QueueIn(queues, items[id].queueId) {
        var r :| r in old(queues) && r.id == items[id].queueId;
        assert r in queues;
      }
      forall q | old(AllDense()) ensures Dense(items, q) {
        DeleteQueueKeepsDense(before, queueId, q);
      }
    }

    /** signup's own rule: a username with a space is refused before the
        insert; otherwise the new account (role "user") is signed in when
        the insert succeeds. */
    method Signup(name: string, username: string, newId: UserId, insertOk: bool) returns (ok: bool)
      modifies this
      ensures ok <==> UsernameAllowed(username) && insertOk
      ensures user == if ok then Some(AuthUser(newId, name, username, Member)) else old(user)
      ensures queues == old(queues) && items == old(items)
    {
      if ' ' in username {
        return false;
      }
      if !insertOk {
        return false;
      }
      user := Some(AuthUser(newId, name, username, Member));
      return true;
    }
  }
}

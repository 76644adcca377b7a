/** The queue card: the two tabs a master sees (approved and waiting items,
    each by position), the users that can still be added, the controls of
    the approved rows and the add-person form. */
module QueueCard {

  import opened Common
  import opened Seqs
  import opened Ordering
  import opened Positions
  import QueueStore

  /** `approvedItems`. */
  function ApprovedItems(items: seq<QueueEntry>): (r: seq<QueueEntry>)
    ensures forall x :: x in r <==> x in items && x.status == Approved
  {
    WithStatusCounts(items, Approved);
    WithStatusSorted(items, Approved)
  }

  /** `waitingItems`. */
  function WaitingItems(items: seq<QueueEntry>): (r: seq<QueueEntry>)
    ensures forall x :: x in r <==> x in items && x.status == Waiting
  {
    WithStatusCounts(items, Waiting);
    WithStatusSorted(items, Waiting)
  }

  /** Each tab is ordered by position and holds every item of its status as
      often as the queue does and nothing else; an item is in neither tab
      exactly when it is completed. */
  lemma Tabs(items: seq<QueueEntry>)
    ensures SortedByPosition(ApprovedItems(items)) && SortedByPosition(WaitingItems(items))
    ensures forall x :: multiset(ApprovedItems(items))[x] == if x.status == Approved then multiset(items)[x] else 0
    ensures forall x :: multiset(WaitingItems(items))[x] == if x.status == Waiting then multiset(items)[x] else 0
    ensures forall x :: x in items ==> (x.status == Completed <==> x !in ApprovedItems(items) && x !in WaitingItems(items))
  {
    WithStatusOrdered(items, Approved);
    WithStatusOrdered(items, Waiting);
    WithStatusCounts(items, Approved);
    WithStatusCounts(items, Waiting);
  }

  /** `items.some(item => item.requestedBy === u.id)`. */
  predicate InQueue(items: seq<QueueEntry>, u: AuthUser)
  {
    Any(items, (e: QueueEntry) => e.requestedBy == u.id)
  }

  /** `availableUsers`: the accounts with role "user" that requested none of
      the queue's items, in the order of the user list. */
  function AddableUsers(users: seq<AuthUser>, items: seq<QueueEntry>): (r: seq<AuthUser>)
    ensures |r| <= |users|
    ensures forall u :: u in r <==>
              u in users && u.role == Member && forall e :: e in items ==> e.requestedBy != u.id
  {
    Filter(users, (u: AuthUser) => u.role == Member && !InQueue(items, u))
  }

  // ---------------------------------------------------------------------
  // The approved tab

  /** One approved row: its rank badge, its item and whether it carries the
      move-to-end control. */
  datatype Row = Row(rank: nat, item: QueueEntry, moveControl: bool)

  /** The move-to-end control as the card places it: on the first row. */
  predicate MoveControlAsWritten(approved: seq<QueueEntry>, i: nat)
  {
    i == 0 && i < |approved|
  }

  /** The move-to-end control where a click acts: on the first row, when
      its item stands at position 1 as moveToEnd requires. */
  predicate MoveControl(approved: seq<QueueEntry>, i: nat)
  {
    i == 0 && i < |approved| && approved[0].position == 1
  }

  function RowsFrom(approved: seq<QueueEntry>, i: nat): (r: seq<Row>)
    ensures |r| == if i <= |approved| then |approved| - i else 0
    decreases |approved| - i
  {
    if i >= |approved| then []
    else [Row(i + 1, approved[i], MoveControlAsWritten(approved, i))] + RowsFrom(approved, i + 1)
  }

  /** `approvedItems.map((item, index) => ...)`. */
  function ApprovedRows(approved: seq<QueueEntry>): (r: seq<Row>)
    ensures |r| == |approved|
    ensures |approved| > 0 ==> r[0].moveControl && r[0].item == approved[0]
  {
    RowsFrom(approved, 0)
  }

  lemma {:induction false} RowsFromAt(approved: seq<QueueEntry>, i: nat)
    requires i <= |approved|
    ensures |RowsFrom(approved, i)| == |approved| - i
    ensures forall k :: i <= k < |approved| ==>
              RowsFrom(approved, i)[k - i] == Row(k + 1, approved[k], MoveControlAsWritten(approved, k))
    decreases |approved| - i
  {
    if i < |approved| {
      RowsFromAt(approved, i + 1);
      var r := RowsFrom(approved, i);
      var rest := RowsFrom(approved, i + 1);
      assert r == [Row(i + 1, approved[i], MoveControlAsWritten(approved, i))] + rest;
      forall k | i < k < |approved|
        ensures r[k - i] == Row(k + 1, approved[k], MoveControlAsWritten(approved, k))
      {
        assert r[k - i] == rest[k - (i + 1)];
      }
    }
  }

  /** One row per approved item, in order, ranked 1, 2, 3, ...; the first
      row, and only it, carries the move-to-end control, and when the tab
      is sorted that row holds the lowest position. */
  lemma ApprovedRowsShape(approved: seq<QueueEntry>)
    ensures |ApprovedRows(approved)| == |approved|
    ensures forall i :: 0 <= i < |approved| ==>
              && ApprovedRows(approved)[i].rank == i + 1 && ApprovedRows(approved)[i].item == approved[i]
              && (ApprovedRows(approved)[i].moveControl <==> i == 0)
    ensures forall i :: 0 <= i < |approved| && ApprovedRows(approved)[i].moveControl && SortedByPosition(approved) ==>
              forall j :: 0 <= j < |approved| ==> approved[i].position <= approved[j].position
  {
    RowsFromAt(approved, 0);
    var r := ApprovedRows(approved);
    forall i | 0 <= i < |approved|
      ensures r[i] == Row(i + 1, approved[i], MoveControlAsWritten(approved, i))
    {
      assert r[i - 0] == r[i];
    }
  }

  /** As written, the control can sit on an item a click leaves alone: a
      request waiting at position 1 ahead of the only approved item, at 2,
      is a reachable dense queue, and moveToEnd only acts at position 1. */
  lemma MoveControlAsWrittenCanBeIdle(q: QueueId, f: Fault)
    ensures var t := map["w" := QueueItem(q, "Ana", 1, Waiting, "u1"),
                         "a" := QueueItem(q, "Bia", 2, Approved, "u2")];
            var items := [QueueEntry("w", "Ana", 1, Waiting, "u1"), QueueEntry("a", "Bia", 2, Approved, "u2")];
            && Dense(t, q)
            && ApprovedItems(items) == [items[1]]
            && ApprovedRows(ApprovedItems(items))[0].moveControl
            && !MoveControl(ApprovedItems(items), 0)
            && MovedToEnd(t, q, "a", f) == t
  {
    var t := map["w" := QueueItem(q, "Ana", 1, Waiting, "u1"),
                 "a" := QueueItem(q, "Bia", 2, Approved, "u2")];
    var items := [QueueEntry("w", "Ana", 1, Waiting, "u1"), QueueEntry("a", "Bia", 2, Approved, "u2")];
    assert Members(t, q) == {"w", "a"};
    var p := (e: QueueEntry) => e.status == Approved;
    assert Filter(items, p) == Filter(items[1..], p);
    assert Filter(items[1..], p) == [items[1]] + Filter(items[2..], p);
    assert Filter(items, p) == [items[1]];
    assert SortByPosition([items[1]]) == [items[1]];
    assert ApprovedRows([items[1]]) == [Row(1, items[1], true)] + RowsFrom([items[1]], 1);
    MoveToEndNeedsFront(t, q, "a", f);
  }

  /** The row item `e` mirrors its row of the table. */
  predicate Mirrors(t: Table, q: QueueId, e: QueueEntry)
  {
    e.id in t && t[e.id].queueId == q && t[e.id].position == e.position
  }

  /** Where the control is offered, a click on a dense queue of N items
      moves the item to position N and every other item of the queue up
      by one. */
  lemma MoveControlRotates(t: Table, q: QueueId, approved: seq<QueueEntry>, i: nat)
    requires Dense(t, q) && MoveControl(approved, i) && Mirrors(t, q, approved[i])
    ensures var id := approved[i].id;
            var r := MovedToEnd(t, q, id, NoFault);
            && r[id].position == |Members(t, q)|
            && forall x :: x in Members(t, q) && x != id ==> r[x].position == t[x].position - 1
  {
    MoveToEndRotates(t, q, approved[i].id);
  }

  // ---------------------------------------------------------------------
  // The add-person form

  class AddForm {
    var selectedUserId: UserId
    var isAdding: bool

    constructor ()
      ensures selectedUserId == "" && !isAdding
    {
      selectedUserId := "";
      isAdding := false;
    }

    /** The "Adicionar Pessoa" button opens the form. */
    method Open()
      modifies this
      ensures isAdding && selectedUserId == old(selectedUserId)
    {
      isAdding := true;
    }

    /** The select's `onValueChange`. */
    method Choose(id: UserId)
      modifies this
      ensures selectedUserId == id && isAdding == old(isAdding)
    {
      selectedUserId := id;
    }

    /** "Cancelar" closes the form and keeps the choice. */
    method Cancel()
      modifies this
      ensures !isAdding && selectedUserId == old(selectedUserId)
    {
      isAdding := false;
    }

    /** handleAddPerson: nothing without a selected user; otherwise the
        selected user's id goes to addPersonToQueue as the item's name, and
        the form resets (addPersonToQueue reports its own errors, so the
        card's catch never runs). */
    method Submit(store: QueueStore.Store, queueId: QueueId, freshId: ItemId, fault: Fault)
      requires store.Valid() && freshId !in store.items
      modifies this, store
      ensures store.Valid()
      ensures old(selectedUserId) == "" ==> unchanged(this) && unchanged(store)
      ensures old(selectedUserId) != "" ==>
                && selectedUserId == "" && !isAdding
                && store.queues == old(store.queues) && store.user == old(store.user)
                && store.items == if IsMaster(store.user) && QueueStore.QueueIn(store.queues, queueId)
                                  then Appended(old(store.items), freshId, queueId, old(selectedUserId), Approved,
                                                store.user.value.id, fault)
                                  else old(store.items)
    {
      if selectedUserId == "" {
        return;
      }
      store.AddPersonToQueue(queueId, selectedUserId, freshId, fault);
      selectedUserId := "";
      isAdding := false;
    }
  }
}

/** The queue_items table as a map from item id to row, the position rules
    the queue mutators follow, and the density invariant they keep: within
    each queue, the positions of all its items (whatever their status) are
    exactly 1..N. */
module Positions {

  import opened Common

  datatype QueueItem = QueueItem(queueId: QueueId, name: string, position: int, status: Status, requestedBy: UserId)

  type Table = map<ItemId, QueueItem>

  /** `.eq("queue_id", q)`: the items of one queue, of every status. */
  function Members(t: Table, q: QueueId): set<ItemId>
  {
    set id | id in t && t[id].queueId == q
  }

  function PositionsOf(t: Table, q: QueueId): set<int>
  {
    set id | id in Members(t, q) :: t[id].position
  }

  function Range(n: int): (r: set<int>)
    ensures forall i :: i in r <==> 1 <= i <= n
  {
    if n <= 0 then {} else Range(n - 1) + {n}
  }

  predicate UniquePositions(t: Table, q: QueueId)
  {
    forall a, b :: a in Members(t, q) && b in Members(t, q) && a != b ==> t[a].position != t[b].position
  }

  /** The queue's N items occupy positions 1..N, one each. */
  predicate Dense(t: Table, q: QueueId)
  {
    && (forall id :: id in Members(t, q) ==> 1 <= t[id].position <= |Members(t, q)|)
    && UniquePositions(t, q)
  }

  lemma {:induction false} RangeSize(n: nat)
    ensures |Range(n)| == n
  {
    if n == 0 {
      assert Range(0) == {};
    } else {
      RangeSize(n - 1);
      assert n !in Range(n - 1);
    }
  }

  /** Pigeonhole: items with pairwise different positions, all drawn from
      `P`, are at most |P| many. */
  lemma {:induction false} InjectiveBound(t: Table, s: set<ItemId>, P: set<int>)
    requires forall id :: id in s ==> id in t && t[id].position in P
    requires forall a, b :: a in s && b in s && a != b ==> t[a].position != t[b].position
    ensures |s| <= |P|
    decreases s
  {
    if s != {} {
      var a :| a in s;
      InjectiveBound(t, s - {a}, P - {t[a].position});
    }
  }

  /** Density says exactly that the positions form the set {1..N}. */
  lemma DenseIsExactRange(t: Table, q: QueueId)
    ensures Dense(t, q) <==> UniquePositions(t, q) && PositionsOf(t, q) == Range(|Members(t, q)|)
  {
    var n := |Members(t, q)|;
    if Dense(t, q) {
      forall p | p in Range(n) ensures p in PositionsOf(t, q) {
        if p !in PositionsOf(t, q) {
          RangeSize(n);
          InjectiveBound(t, Members(t, q), Range(n) - {p});
          assert false;
        }
      }
    }
    if UniquePositions(t, q) && PositionsOf(t, q) == Range(n) {
      forall id | id in Members(t, q) ensures 1 <= t[id].position <= n {
        assert t[id].position in PositionsOf(t, q);
      }
    }
  }

  /** An item of `ids` whose position no other item of `ids` exceeds. */
  ghost function Highest(t: Table, ids: set<ItemId>): (h: ItemId)
    requires ids != {} && forall id :: id in ids ==> id in t
    ensures h in ids && forall x :: x in ids ==> t[x].position <= t[h].position
    decreases ids
  {
    var x :| x in ids;
    if ids == {x} then x
    else
      var h := Highest(t, ids - {x});
      if t[x].position > t[h].position then x else h
  }

  /** `.order("position", { ascending: false }).limit(1)`: the highest
      position in the queue, if it has items. */
  ghost function Top(t: Table, q: QueueId): (r: Option<int>)
    ensures r.None? <==> Members(t, q) == {}
    ensures r.Some? ==> r.value in PositionsOf(t, q) &&
                        forall x :: x in Members(t, q) ==> t[x].position <= r.value
  {
    if Members(t, q) == {} then None
    else
      var h := Highest(t, Members(t, q));
      assert t[h].position in PositionsOf(t, q);
      Some(t[h].position)
  }

  /** An item no other item of its queue exceeds holds the top position. */
  lemma TopIsUnique(t: Table, q: QueueId, h: ItemId)
    requires h in Members(t, q)
    requires forall x :: x in Members(t, q) ==> t[x].position <= t[h].position
    ensures Top(t, q) == Some(t[h].position)
  {
    var k :| k in Members(t, q) && t[k].position == Top(t, q).value;
  }

  lemma DenseTop(t: Table, q: QueueId)
    requires Dense(t, q)
    ensures Top(t, q) == if Members(t, q) == {} then None else Some(|Members(t, q)|)
  {
    var n := |Members(t, q)|;
    if n > 0 {
      DenseIsExactRange(t, q);
      assert n in Range(n);
      var id :| id in Members(t, q) && t[id].position == n;
    }
  }

  /** `position - 1` for the items of queue `q` above `above`. */
  function ShiftDown(t: Table, q: QueueId, above: int): (r: Table)
    ensures r.Keys == t.Keys
    ensures forall id :: id in r ==> r[id] == t[id].(position := r[id].position)
    ensures forall id :: id in r ==> r[id].position == t[id].position || r[id].position == t[id].position - 1
  {
    map id | id in t :: if t[id].queueId == q && t[id].position > above then t[id].(position := t[id].position - 1) else t[id]
  }

  /** `items[0].position + 1`, or 1 for an empty queue. */
  ghost function NextPosition(t: Table, q: QueueId): int
  {
    match Top(t, q)
    case None => 1
    case Some(m) => m + 1
  }

  /** addPersonToQueue / requestToJoinQueue: one insert at the next position. */
  ghost function Appended(t: Table, id: ItemId, q: QueueId, name: string, status: Status, requester: UserId, f: Fault): Table
  {
    if !Runs(f, 0) then t
    else t[id := QueueItem(q, name, NextPosition(t, q), status, requester)]
  }

  /** removePersonFromQueue: delete, then shift later items of `q` down. */
  ghost function Removed(t: Table, q: QueueId, id: ItemId, f: Fault): (r: Table)
    ensures t.Keys - {id} <= r.Keys <= t.Keys
    ensures forall x :: x in r ==> r[x] == t[x].(position := r[x].position)
    ensures forall x :: x in r ==> r[x].position == t[x].position || r[x].position == t[x].position - 1
  {
    if id !in t || !Runs(f, 0) then t
    else if !Runs(f, 1) then t - {id}
    else ShiftDown(t - {id}, q, t[id].position)
  }

  /** `maxPositionData?.[0]?.position || 1`. */
  ghost function MoveTarget(t: Table, q: QueueId): int
  {
    match Top(t, q)
    case None => 1
    case Some(m) => if m == 0 then 1 else m
  }

  /** moveToEnd: only for the item at position 1; shift every item of `q`
      above 1 down, then put the item at the old maximum. */
  ghost function MovedToEnd(t: Table, q: QueueId, id: ItemId, f: Fault): (r: Table)
    ensures r.Keys == t.Keys
    ensures forall x :: x in r ==> r[x] == t[x].(position := r[x].position)
  {
    if id !in t || t[id].position != 1 || !Runs(f, 0) then t
    else if !Runs(f, 1) then ShiftDown(t, q, 1)
    else ShiftDown(t, q, 1)[id := t[id].(position := MoveTarget(t, q))]
  }

  /** approveRequest: flips the status of the row, if there is one. */
  function ApprovedIn(t: Table, id: ItemId, f: Fault): Table
  {
    if !Runs(f, 0) || id !in t then t
    else t[id := t[id].(status := Approved)]
  }

  /** deleteQueue: `on delete CASCADE` removes the queue's items. */
  function WithoutQueue(t: Table, q: QueueId): Table
  {
    map id | id in t && t[id].queueId != q :: t[id]
  }

  // ---------------------------------------------------------------------
  // What each mutator does to positions

  /** An insert lands one past the highest position, so on a dense queue
      of N items at N + 1, and at 1 on an empty queue. */
  lemma AppendedPosition(t: Table, id: ItemId, q: QueueId, name: string, status: Status, requester: UserId)
    requires id !in t && Dense(t, q)
    ensures var r := Appended(t, id, q, name, status, requester, NoFault);
            && r.Keys == t.Keys + {id}
            && r[id] == QueueItem(q, name, |Members(t, q)| + 1, status, requester)
            && forall x :: x in t ==> r[x] == t[x]
  {
    DenseTop(t, q);
  }

  /** Removal deletes the item and decrements exactly the items of the same
      queue that stood behind it; nothing else changes. A missing item
      leaves the table alone. */
  lemma RemovedEffect(t: Table, q: QueueId, id: ItemId)
    ensures id !in t ==> Removed(t, q, id, NoFault) == t
    ensures id in t ==>
      var r := Removed(t, q, id, NoFault);
      && r.Keys == t.Keys - {id}
      && forall x :: x in r ==>
           r[x] == if t[x].queueId == q && t[x].position > t[id].position
                   then t[x].(position := t[x].position - 1) else t[x]
  {
  }

  /** moveToEnd is a no-op unless the item is at position 1. */
  lemma MoveToEndNeedsFront(t: Table, q: QueueId, id: ItemId, f: Fault)
    requires id in t ==> t[id].position != 1
    ensures MovedToEnd(t, q, id, f) == t
  {
  }

  /** On a dense queue of N items, moving the front item is a left rotation:
      it goes to position N and every other item of the queue moves up one. */
  lemma MoveToEndRotates(t: Table, q: QueueId, id: ItemId)
    requires Dense(t, q) && id in Members(t, q) && t[id].position == 1
    ensures var r := MovedToEnd(t, q, id, NoFault);
            && r.Keys == t.Keys
            && r[id] == t[id].(position := |Members(t, q)|)
            && (forall x :: x in Members(t, q) && x != id ==> r[x] == t[x].(position := t[x].position - 1))
            && (forall x :: x in t && t[x].queueId != q ==> r[x] == t[x])
  {
    DenseTop(t, q);
    forall x | x in Members(t, q) && x != id ensures t[x].position > 1 {
    }
  }

  /** A queue with a single item is left as it was. */
  lemma MoveToEndSingle(t: Table, q: QueueId, id: ItemId)
    requires Dense(t, q) && Members(t, q) == {id}
    ensures MovedToEnd(t, q, id, NoFault) == t
  {
    DenseTop(t, q);
    var r := MovedToEnd(t, q, id, NoFault);
    assert t[id].position == 1;
    assert forall x :: x in t && x != id ==> x !in Members(t, q);
    assert r == t;
  }

  /** Approval changes the status of one row and nothing else. */
  lemma ApprovedOnlyStatus(t: Table, id: ItemId)
    requires id in t
    ensures var r := ApprovedIn(t, id, NoFault);
            && r.Keys == t.Keys
            && r[id].status == Approved
            && r[id].position == t[id].position && r[id].queueId == t[id].queueId
            && r[id].name == t[id].name && r[id].requestedBy == t[id].requestedBy
            && forall x :: x in t && x != id ==> r[x] == t[x]
  {
  }

  // ---------------------------------------------------------------------
  // Density is kept by every complete mutation

  lemma {:induction false} AppendKeepsDense(t: Table, id: ItemId, q: QueueId, name: string, status: Status, requester: UserId, q': QueueId)
    requires id !in t && Dense(t, q')
    ensures Dense(Appended(t, id, q, name, status, requester, NoFault), q')
  {
    var r := Appended(t, id, q, name, status, requester, NoFault);
    if q' == q {
      DenseTop(t, q);
      var item := QueueItem(q, name, |Members(t, q)| + 1, status, requester);
      assert r == t[id := item];
      PlaceLastKeepsDense(t, id, item);
    } else {
      assert Members(r, q') == Members(t, q');
    }
  }

  /** A new item placed one past the last position of a dense queue keeps
      it dense. */
  lemma PlaceLastKeepsDense(t: Table, id: ItemId, item: QueueItem)
    requires id !in t && Dense(t, item.queueId) && item.position == |Members(t, item.queueId)| + 1
    ensures Dense(t[id := item], item.queueId)
  {
    PlaceLastBounds(t, id, item, t[id := item]);
    PlaceLastUnique(t, id, item);
  }

  lemma PlaceLastBounds(t: Table, id: ItemId, item: QueueItem, r: Table)
    requires id !in t && Dense(t, item.queueId) && item.position == |Members(t, item.queueId)| + 1
    requires r == t[id := item]
    ensures forall x :: x in Members(r, item.queueId) ==> 1 <= r[x].position <= |Members(r, item.queueId)|
  {
    var q := item.queueId;
    var n := |Members(t, q)|;
    assert Members(r, q) == Members(t, q) + {id};
    forall x | x in Members(r, q) ensures 1 <= r[x].position <= n + 1 {
      if x != id { assert x in Members(t, q); }
    }
  }

  lemma PlaceLastUnique(t: Table, id: ItemId, item: QueueItem)
    requires id !in t && Dense(t, item.queueId) && item.position == |Members(t, item.queueId)| + 1
    ensures UniquePositions(t[id := item], item.queueId)
  {
    var q := item.queueId;
    var r := t[id := item];
    forall a, b | a in Members(r, q) && b in Members(r, q) && a != b
      ensures r[a].position != r[b].position
    {
      if a != id && b != id {
        assert a in Members(t, q) && b in Members(t, q);
      }
    }
  }

  lemma {:induction false} RemoveKeepsDense(t: Table, q: QueueId, id: ItemId, q': QueueId)
    requires id in t ==> t[id].queueId == q
    requires Dense(t, q')
    ensures Dense(Removed(t, q, id, NoFault), q')
  {
    if id in t {
      var r := Removed(t, q, id, NoFault);
      var p := t[id].position;
      if q' == q {
        var n := |Members(t, q)|;
        assert Members(r, q) == Members(t, q) - {id};
        assert |Members(r, q)| == n - 1;
        forall x | x in Members(r, q) ensures 1 <= r[x].position <= n - 1 {
          assert x in Members(t, q) && t[x].position != p;
        }
        forall a, b | a in Members(r, q) && b in Members(r, q) && a != b
          ensures r[a].position != r[b].position
        {
          assert a in Members(t, q) && b in Members(t, q);
          assert t[a].position != p && t[b].position != p;
        }
      } else {
        assert Members(r, q') == Members(t, q');
      }
    }
  }

  /** moveToEnd, complete or not, keeps the set of rows and their queues. */
  lemma MoveToEndKeepsQueues(t: Table, q: QueueId, id: ItemId, f: Fault)
    ensures var r := MovedToEnd(t, q, id, f);
            r.Keys == t.Keys && forall x :: x in r ==> r[x].queueId == t[x].queueId
  {
  }

  lemma {:induction false} MoveToEndKeepsDense(t: Table, q: QueueId, id: ItemId, q': QueueId)
    requires id in t ==> t[id].queueId == q
    requires Dense(t, q')
    ensures Dense(MovedToEnd(t, q, id, NoFault), q')
  {
    if id in t && t[id].position == 1 {
      var r := MovedToEnd(t, q, id, NoFault);
      if q' == q {
        MoveToEndBounds(t, q, id);
        MoveToEndUnique(t, q, id);
      } else {
        assert Members(r, q') == Members(t, q');
      }
    }
  }

  lemma MoveToEndBounds(t: Table, q: QueueId, id: ItemId)
    requires Dense(t, q) && id in Members(t, q) && t[id].position == 1
    ensures var r := MovedToEnd(t, q, id, NoFault);
            && Members(r, q) == Members(t, q)
            && forall x :: x in Members(r, q) ==> 1 <= r[x].position <= |Members(r, q)|
  {
    var r := MovedToEnd(t, q, id, NoFault);
    DenseTop(t, q);
    var n := |Members(t, q)|;
    assert Members(r, q) == Members(t, q);
    assert r[id].position == n;
    forall x | x in Members(r, q) && x != id ensures 1 <= r[x].position <= n - 1 {
      assert t[x].position != 1;
    }
  }

  lemma MoveToEndUnique(t: Table, q: QueueId, id: ItemId)
    requires Dense(t, q) && id in Members(t, q) && t[id].position == 1
    ensures UniquePositions(MovedToEnd(t, q, id, NoFault), q)
  {
    var r := MovedToEnd(t, q, id, NoFault);
    DenseTop(t, q);
    var n := |Members(t, q)|;
    assert Members(r, q) == Members(t, q);
    assert r[id].position == n;
    forall x | x in Members(r, q) && x != id ensures r[x].position == t[x].position - 1 < n {
      assert t[x].position != 1;
    }
    forall a, b | a in Members(r, q) && b in Members(r, q) && a != b
      ensures r[a].position != r[b].position
    {
      if a != id && b != id {
        assert t[a].position != t[b].position;
      }
    }
  }

  lemma ApproveKeepsDense(t: Table, id: ItemId, q: QueueId)
    requires Dense(t, q)
    ensures Dense(ApprovedIn(t, id, NoFault), q)
  {
    assert Members(ApprovedIn(t, id, NoFault), q) == Members(t, q);
  }

  lemma DeleteQueueKeepsDense(t: Table, q: QueueId, q': QueueId)
    requires Dense(t, q')
    ensures Dense(WithoutQueue(t, q), q')
  {
    if q' == q {
      assert Members(WithoutQueue(t, q), q) == {};
    } else {
      assert Members(WithoutQueue(t, q), q') == Members(t, q');
    }
  }

  /** The two writes of moveToEnd are not atomic: if the second one fails
      after the shift, the queue holds two items at position 1. */
  lemma InterruptedMoveToEndBreaksDensity(t: Table, q: QueueId, id: ItemId)
    requires Dense(t, q) && id in Members(t, q) && t[id].position == 1
    requires |Members(t, q)| >= 2
    ensures !Dense(MovedToEnd(t, q, id, FailAt(1)), q)
  {
    var n := |Members(t, q)|;
    DenseIsExactRange(t, q);
    assert 2 in Range(n);
    var second :| second in Members(t, q) && t[second].position == 2;
    var r := MovedToEnd(t, q, id, FailAt(1));
    assert Members(r, q) == Members(t, q);
    assert r[second].position == 1 && r[id].position == 1;
  }

  /** removePersonFromQueue as written: the shift's new value is built with
      a template tag the client does not have, so it throws once the delete
      is done, which is the `FailAt(1)` run. Removing anyone but the last
      item then leaves a gap: the last item stays at N in a queue of N - 1. */
  lemma RemoveAsWrittenLeavesGap(t: Table, q: QueueId, id: ItemId)
    requires Dense(t, q) && id in Members(t, q) && t[id].position < |Members(t, q)|
    ensures !Dense(Removed(t, q, id, FailAt(1)), q)
  {
    var n := |Members(t, q)|;
    DenseIsExactRange(t, q);
    assert n in Range(n);
    var last :| last in Members(t, q) && t[last].position == n;
    var r := Removed(t, q, id, FailAt(1));
    assert Members(r, q) == Members(t, q) - {id};
    assert last in Members(r, q) && r[last].position == n;
  }

  /** moveToEnd as written: the same tag throws before the first write,
      which is the `FailAt(0)` run, so the front item of a queue of two or
      more never moves, although the intended run would move it. */
  lemma MoveToEndAsWrittenIdle(t: Table, q: QueueId, id: ItemId)
    requires Dense(t, q) && id in Members(t, q) && t[id].position == 1
    requires |Members(t, q)| >= 2
    ensures MovedToEnd(t, q, id, FailAt(0)) == t
    ensures MovedToEnd(t, q, id, NoFault) != t
  {
    MoveToEndRotates(t, q, id);
  }
}

/** The drop-draw sessions of the drop context as values: how a session is
    built from a queue, how deciding on one name advances it, where the focus
    goes next, the progress figure, the copied text and the reload split of
    logged decisions. */
module DropSession {

  import opened Common
  import opened Seqs
  import opened Ordering

  /** An item as a session keeps it: no status. */
  datatype DropItem = DropItem(id: ItemId, name: string, position: int, requestedBy: UserId)

  datatype ActiveDrop = ActiveDrop(
    queueId: QueueId,
    dropEventId: EventId,
    itemName: Option<string>,
    imageUrl: Option<string>,
    remainingItems: seq<DropItem>,
    processedCount: int,
    totalCount: int,
    currentItems: seq<DropItem>,
    currentItem: Option<DropItem>)

  /** A drop_events row. */
  datatype DropEventRow = DropEventRow(id: EventId, queueId: QueueId, dropCount: int, createdBy: UserId)

  /** A drop_participants row: one logged decision. */
  datatype ParticipantRow = ParticipantRow(id: nat, eventId: EventId, itemId: ItemId, name: string, action: Action)

  /** A logged decision as the result lists show it. */
  datatype ListedRow = ListedRow(row: ParticipantRow, itemName: string, imageUrl: Option<string>)

  function ToDropItem(e: QueueEntry): DropItem
  {
    DropItem(e.id, e.name, e.position, e.requestedBy)
  }

  /** `s.map(item => ({ id, name, position, requestedBy }))`. */
  function DropItems(s: seq<QueueEntry>): (r: seq<DropItem>)
    ensures |r| == |s|
  {
    if |s| == 0 then [] else [ToDropItem(s[0])] + DropItems(s[1..])
  }

  lemma {:induction false} DropItemsAt(s: seq<QueueEntry>)
    ensures forall i :: 0 <= i < |s| ==> DropItems(s)[i] == ToDropItem(s[i])
  {
    if |s| > 0 {
      DropItemsAt(s[1..]);
      assert forall i :: 1 <= i < |s| ==> s[1..][i - 1] == s[i];
    }
  }

  /** The first `count` entries of `s` whose name is a participant, as
      session items. */
  function Listed(s: seq<QueueEntry>, participants: seq<string>, count: nat): (r: seq<DropItem>)
    ensures |r| <= count
  {
    if count == 0 || |s| == 0 then []
    else if s[0].name in participants then [ToDropItem(s[0])] + Listed(s[1..], participants, count - 1)
    else Listed(s[1..], participants, count)
  }

  /** Reference definition: `s.filter(participant).slice(0, count)`. */
  lemma {:induction false} ListedIsTakeOfFilter(s: seq<QueueEntry>, participants: seq<string>, count: nat)
    ensures Listed(s, participants, count) ==
            DropItems(Take(Filter(s, (e: QueueEntry) => e.name in participants), count))
  {
    var p := (e: QueueEntry) => e.name in participants;
    if count == 0 || |s| == 0 {
      assert Take(Filter(s, p), count) == [];
    } else {
      assert s == [s[0]] + s[1..];
      var rest := Filter(s[1..], p);
      if s[0].name in participants {
        ListedIsTakeOfFilter(s[1..], participants, count - 1);
        var t := Take(Filter(s, p), count);
        assert t == [s[0]] + Take(rest, count - 1);
        assert t[1..] == Take(rest, count - 1);
      } else {
        assert Filter(s, p) == rest;
        ListedIsTakeOfFilter(s[1..], participants, count);
      }
    }
  }

  /** `s[0] || null`. */
  function Head(s: seq<DropItem>): Option<DropItem>
  {
    if |s| == 0 then None else Some(s[0])
  }

  /** `s.some(c => c.id === id)`. */
  predicate HasId(s: seq<DropItem>, id: ItemId)
  {
    |s| > 0 && (s[0].id == id || HasId(s[1..], id))
  }

  lemma {:induction false} HasIdIff(s: seq<DropItem>, id: ItemId)
    ensures HasId(s, id) <==> exists c :: c in s && c.id == id
  {
    if |s| > 0 {
      HasIdIff(s[1..], id);
      assert forall c :: c in s <==> c == s[0] || c in s[1..];
    }
  }

  predicate DistinctIds(s: seq<DropItem>)
  {
    forall i, j :: 0 <= i < j < |s| ==> s[i].id != s[j].id
  }

  predicate AscendingItems(s: seq<DropItem>)
  {
    forall i, j :: 0 <= i < j < |s| ==> s[i].position <= s[j].position
  }

  /** The CHECK constraint on drop_events.drop_count. */
  predicate CountAccepted(count: int)
  {
    0 <= count <= 5
  }

  /** The queue's approved items in ascending position. */
  function ApprovedOf(q: QueueInfo): seq<QueueEntry>
  {
    WithStatusSorted(q.items, Approved)
  }

  /** `approvedItems.filter(item => participants.includes(item.name))`. */
  function ParticipantItems(q: QueueInfo, participants: seq<string>): seq<QueueEntry>
  {
    Filter(ApprovedOf(q), (e: QueueEntry) => e.name in participants)
  }

  /** The session startDrops pushes for one queue once its event row exists. */
  function NewSession(q: QueueInfo, count: nat, participants: seq<string>, eventId: EventId): (r: ActiveDrop)
  {
    var approved := ApprovedOf(q);
    var current := Listed(approved, participants, count);
    ActiveDrop(q.id, eventId, q.itemName, q.imageUrl, DropItems(approved), 0, count, current, Head(current))
  }

  /** The session's two lists item by item: the snapshot follows the
      approved items, the list follows the first `count` participants. */
  lemma NewSessionLists(q: QueueInfo, count: nat, participants: seq<string>, eventId: EventId)
    ensures var d := NewSession(q, count, participants, eventId);
            var approved := ApprovedOf(q);
            var eligible := ParticipantItems(q, participants);
            && |d.remainingItems| == |approved|
            && (forall i :: 0 <= i < |approved| ==> d.remainingItems[i] == ToDropItem(approved[i]))
            && |d.currentItems| == (if count <= |eligible| then count else |eligible|)
            && (forall i :: 0 <= i < |d.currentItems| ==> d.currentItems[i] == ToDropItem(eligible[i]))
  {
    var approved := ApprovedOf(q);
    var eligible := ParticipantItems(q, participants);
    ListedIsTakeOfFilter(approved, participants, count);
    DropItemsAt(approved);
    DropItemsAt(Take(eligible, count));
  }

  /** A new session starts with nothing processed, a target of `count`, and
      a snapshot of every approved item of the queue in ascending position. */
  lemma NewSessionSnapshot(q: QueueInfo, count: nat, participants: seq<string>, eventId: EventId)
    ensures var d := NewSession(q, count, participants, eventId);
            && d.queueId == q.id && d.dropEventId == eventId
            && d.processedCount == 0 && d.totalCount == count
            && AscendingItems(d.remainingItems)
            && (forall x :: x in d.remainingItems <==>
                  exists e :: e in q.items && e.status == Approved && ToDropItem(e) == x)
  {
    var snapshot := NewSession(q, count, participants, eventId).remainingItems;
    var approved := ApprovedOf(q);
    NewSessionLists(q, count, participants, eventId);
    WithStatusOrdered(q.items, Approved);
    forall i, j | 0 <= i < j < |snapshot| ensures snapshot[i].position <= snapshot[j].position {
      assert snapshot[i] == ToDropItem(approved[i]) && snapshot[j] == ToDropItem(approved[j]);
    }
    forall x | x in snapshot ensures exists e :: e in q.items && e.status == Approved && ToDropItem(e) == x {
      var k :| 0 <= k < |snapshot| && snapshot[k] == x;
      assert approved[k] in approved;
    }
    forall x | exists e :: e in q.items && e.status == Approved && ToDropItem(e) == x
      ensures x in snapshot
    {
      var e :| e in q.items && e.status == Approved && ToDropItem(e) == x;
      assert e in approved;
      var k :| 0 <= k < |approved| && approved[k] == e;
      assert snapshot[k] == x;
    }
  }

  /** Every listed item is an approved item of the queue whose name is a
      participant, and `currentItem` is the head of the list. */
  lemma NewSessionCurrentFrom(q: QueueInfo, count: nat, participants: seq<string>, eventId: EventId)
    ensures var d := NewSession(q, count, participants, eventId);
            && (forall x :: x in d.currentItems ==>
                  x.name in participants && exists e :: e in q.items && e.status == Approved && ToDropItem(e) == x)
            && d.currentItem == Head(d.currentItems)
  {
    var current := NewSession(q, count, participants, eventId).currentItems;
    var eligible := ParticipantItems(q, participants);
    NewSessionLists(q, count, participants, eventId);
    WithStatusOrdered(q.items, Approved);
    forall x | x in current
      ensures x.name in participants && exists e :: e in q.items && e.status == Approved && ToDropItem(e) == x
    {
      var k :| 0 <= k < |current| && current[k] == x;
      assert eligible[k] in eligible;
    }
  }

  /** `currentItems` is the first `count` approved participants in ascending
      position: as long as `count` allows, and no approved participant left
      out stands ahead of one taken. */
  lemma NewSessionCurrentFirst(q: QueueInfo, count: nat, participants: seq<string>, eventId: EventId)
    ensures var d := NewSession(q, count, participants, eventId);
            var eligible := ParticipantItems(q, participants);
            && AscendingItems(d.currentItems)
            && |d.currentItems| == (if count <= |eligible| then count else |eligible|)
            && (forall e, x :: e in eligible && ToDropItem(e) !in d.currentItems && x in d.currentItems ==>
                  x.position <= e.position)
  {
    var eligible := ParticipantItems(q, participants);
    var current := NewSession(q, count, participants, eventId).currentItems;
    NewSessionLists(q, count, participants, eventId);
    WithStatusOrdered(q.items, Approved);
    assert Pairwise(ApprovedOf(q), PositionOrder);
    FilterKeepsPairwise(ApprovedOf(q), (e: QueueEntry) => e.name in participants, PositionOrder);
    assert Pairwise(eligible, PositionOrder);
    forall i, j | 0 <= i < j < |current| ensures current[i].position <= current[j].position {
      assert PositionOrder(eligible[i], eligible[j]);
    }
    forall e, x | e in eligible && ToDropItem(e) !in current && x in current
      ensures x.position <= e.position
    {
      var m :| 0 <= m < |eligible| && eligible[m] == e;
      var k :| 0 <= k < |current| && current[k] == x;
      assert m >= |current|;
      assert PositionOrder(eligible[k], eligible[m]);
    }
  }

  /** Sessions built from a keyed queue never list an item twice. */
  lemma NewSessionDistinct(q: QueueInfo, count: nat, participants: seq<string>, eventId: EventId)
    requires UniqueIds(q.items)
    ensures var d := NewSession(q, count, participants, eventId);
            DistinctIds(d.currentItems) && DistinctIds(d.remainingItems)
  {
    var approved := ApprovedOf(q);
    var eligible := ParticipantItems(q, participants);
    var d := NewSession(q, count, participants, eventId);
    NewSessionLists(q, count, participants, eventId);
    WithStatusKeepsUniqueIds(q.items, Approved);
    var differ := (a: QueueEntry, b: QueueEntry) => a.id != b.id;
    assert Pairwise(approved, differ);
    FilterKeepsPairwise(approved, (e: QueueEntry) => e.name in participants, differ);
    forall i, j | 0 <= i < j < |d.currentItems| ensures d.currentItems[i].id != d.currentItems[j].id {
      assert differ(eligible[i], eligible[j]);
    }
    forall i, j | 0 <= i < j < |d.remainingItems| ensures d.remainingItems[i].id != d.remainingItems[j].id {
      assert approved[i].id != approved[j].id;
    }
  }

  // ---------------------------------------------------------------------
  // startDrops' loop over the drop-count entries

  /** Some item of the queue is approved; `approvedItems.length === 0`
      fails exactly then. */
  predicate HasApproved(q: QueueInfo)
  {
    exists e :: e in q.items && e.status == Approved
  }

  lemma HasApprovedIff(q: QueueInfo)
    ensures HasApproved(q) <==> |ApprovedOf(q)| > 0
  {
    WithStatusOrdered(q.items, Approved);
    if HasApproved(q) {
      var e :| e in q.items && e.status == Approved;
      assert e in ApprovedOf(q);
    }
    if |ApprovedOf(q)| > 0 {
      assert ApprovedOf(q)[0] in ApprovedOf(q);
    }
  }

  /** What the loop has done so far: the queues (with their counts) that got
      an event row and a session, in order, and whether an insert failed
      (which ends the loop with an exception). */
  datatype Plan = Plan(picks: seq<(QueueInfo, nat)>, failed: bool)

  /** One iteration for the entry `(queueId, count)`: an unknown queue or
      one without approved items is skipped; otherwise the event row is
      inserted, which the CHECK constraint refuses for a count outside 0..5
      and which can fail like any write. */
  function PlanStep(p: Plan, view: seq<QueueInfo>, entry: (QueueId, int), fault: Fault): Plan
  {
    if p.failed then p
    else match FindQueue(view, entry.0)
      case None => p
      case Some(q) =>
        if |ApprovedOf(q)| == 0 then p
        else if !CountAccepted(entry.1) || !Runs(fault, |p.picks|) then p.(failed := true)
        else Plan(p.picks + [(q, entry.1)], false)
  }

  function Planned(view: seq<QueueInfo>, entries: seq<(QueueId, int)>, fault: Fault): Plan
    decreases |entries|
  {
    if |entries| == 0 then Plan([], false)
    else PlanStep(Planned(view, entries[..|entries| - 1], fault), view, entries[|entries| - 1], fault)
  }

  /** The event rows inserted for the picks, numbered from `firstEvent`,
      in the order of the loop. */
  function EventRows(picks: seq<(QueueInfo, nat)>, creator: UserId, firstEvent: EventId): (r: seq<DropEventRow>)
    ensures |r| == |picks|
    decreases |picks|
  {
    if |picks| == 0 then []
    else
      var n := |picks| - 1;
      EventRows(picks[..n], creator, firstEvent) + [DropEventRow(firstEvent + n, picks[n].0.id, picks[n].1, creator)]
  }

  /** The sessions pushed for the picks, each with its own event id. */
  function Sessions(picks: seq<(QueueInfo, nat)>, participants: seq<string>, firstEvent: EventId): (r: seq<ActiveDrop>)
    ensures |r| == |picks|
    decreases |picks|
  {
    if |picks| == 0 then []
    else
      var n := |picks| - 1;
      Sessions(picks[..n], participants, firstEvent) + [NewSession(picks[n].0, picks[n].1, participants, firstEvent + n)]
  }

  /** One more entry is one more step. */
  lemma PlannedNext(view: seq<QueueInfo>, entries: seq<(QueueId, int)>, i: nat, fault: Fault)
    requires i < |entries|
    ensures Planned(view, entries[..i + 1], fault) == PlanStep(Planned(view, entries[..i], fault), view, entries[i], fault)
  {
    assert entries[..i + 1][..i] == entries[..i];
  }

  /** One more pick adds its event row and its session at the end. */
  lemma PickAppended(picks: seq<(QueueInfo, nat)>, pick: (QueueInfo, nat), creator: UserId,
                     participants: seq<string>, firstEvent: EventId)
    ensures EventRows(picks + [pick], creator, firstEvent) ==
            EventRows(picks, creator, firstEvent) + [DropEventRow(firstEvent + |picks|, pick.0.id, pick.1, creator)]
    ensures Sessions(picks + [pick], participants, firstEvent) ==
            Sessions(picks, participants, firstEvent) + [NewSession(pick.0, pick.1, participants, firstEvent + |picks|)]
  {
    assert (picks + [pick])[..|picks|] == picks;
  }

  /** The `i`-th event row belongs to the `i`-th pick and carries the event
      id `firstEvent + i`. */
  lemma {:induction false} EventRowAt(picks: seq<(QueueInfo, nat)>, creator: UserId, firstEvent: EventId, i: nat)
    requires i < |picks|
    ensures EventRows(picks, creator, firstEvent)[i] == DropEventRow(firstEvent + i, picks[i].0.id, picks[i].1, creator)
    decreases |picks|
  {
    var n := |picks| - 1;
    if i < n {
      EventRowAt(picks[..n], creator, firstEvent, i);
    }
  }

  /** The `i`-th session is the `i`-th pick's, under the event id
      `firstEvent + i`. */
  lemma {:induction false} SessionAt(picks: seq<(QueueInfo, nat)>, participants: seq<string>, firstEvent: EventId, i: nat)
    requires i < |picks|
    ensures Sessions(picks, participants, firstEvent)[i] == NewSession(picks[i].0, picks[i].1, participants, firstEvent + i)
    decreases |picks|
  {
    var n := |picks| - 1;
    if i < n {
      SessionAt(picks[..n], participants, firstEvent, i);
      assert picks[..n][i] == picks[i];
    }
  }

  /** The rows and sessions of the picks carry exactly the event ids
      handed out from `firstEvent` on. */
  lemma EventIdsFrom(picks: seq<(QueueInfo, nat)>, creator: UserId, participants: seq<string>, firstEvent: EventId)
    ensures forall e :: e in EventRows(picks, creator, firstEvent) ==> firstEvent <= e.id < firstEvent + |picks|
    ensures forall d :: d in Sessions(picks, participants, firstEvent) ==> firstEvent <= d.dropEventId < firstEvent + |picks|
  {
    var rows := EventRows(picks, creator, firstEvent);
    var drops := Sessions(picks, participants, firstEvent);
    forall e | e in rows ensures firstEvent <= e.id < firstEvent + |picks| {
      var j :| 0 <= j < |rows| && rows[j] == e;
      EventRowAt(picks, creator, firstEvent, j);
    }
    forall d | d in drops ensures firstEvent <= d.dropEventId < firstEvent + |picks| {
      var j :| 0 <= j < |drops| && drops[j] == d;
      SessionAt(picks, participants, firstEvent, j);
    }
  }

  /** Every name listed by the pushed sessions is a participant, so the
      clean-up pass that follows finds nothing to move. */
  predicate AllListedParticipate(drops: seq<ActiveDrop>, participants: seq<string>)
  {
    forall j, x :: 0 <= j < |drops| && x in drops[j].currentItems ==> x.name in participants
  }

  lemma SessionsListParticipants(picks: seq<(QueueInfo, nat)>, participants: seq<string>, firstEvent: EventId)
    ensures AllListedParticipate(Sessions(picks, participants, firstEvent), participants)
  {
    var drops := Sessions(picks, participants, firstEvent);
    forall j, x | 0 <= j < |drops| && x in drops[j].currentItems ensures x.name in participants {
      SessionAt(picks, participants, firstEvent, j);
      NewSessionCurrentFrom(picks[j].0, picks[j].1, participants, firstEvent + j);
    }
  }

  /** Every pick is a selected queue that is known, has approved items and
      was given a count within 0..5; unknown queues and queues without
      approved items get no session. */
  lemma {:induction false} PlannedPicks(view: seq<QueueInfo>, entries: seq<(QueueId, int)>, fault: Fault)
    ensures var p := Planned(view, entries, fault);
            && |p.picks| <= |entries|
            && forall i :: 0 <= i < |p.picks| ==> GoodPick(view, entries, p.picks[i])
    decreases |entries|
  {
    if |entries| > 0 {
      var n := |entries| - 1;
      var init := entries[..n];
      PlannedPicks(view, init, fault);
      var p0 := Planned(view, init, fault);
      var p := Planned(view, entries, fault);
      assert p == PlanStep(p0, view, entries[n], fault);
      assert entries == init + [entries[n]];
      forall i | 0 <= i < |p0.picks| ensures GoodPick(view, entries, p0.picks[i]) {
        GoodPickGrows(view, init, entries[n], p0.picks[i]);
      }
      if |p.picks| > |p0.picks| {
        var q := FindQueue(view, entries[n].0).value;
        HasApprovedIff(q);
        assert p.picks == p0.picks + [(q, entries[n].1)];
        assert entries[n] in entries;
        assert GoodPick(view, entries, p.picks[|p0.picks|]);
      } else {
        assert p.picks == p0.picks;
      }
    }
  }

  /** A pick of the loop: a known queue with approved items, a count
      within 0..5, and an entry that asked for it. */
  predicate GoodPick(view: seq<QueueInfo>, entries: seq<(QueueId, int)>, pick: (QueueInfo, nat))
  {
    && pick.0 in view
    && FindQueue(view, pick.0.id) == Some(pick.0)
    && HasApproved(pick.0)
    && CountAccepted(pick.1)
    && (exists e :: e in entries && e.0 == pick.0.id && e.1 == pick.1)
  }

  lemma GoodPickGrows(view: seq<QueueInfo>, entries: seq<(QueueId, int)>, entry: (QueueId, int), pick: (QueueInfo, nat))
    requires GoodPick(view, entries, pick)
    ensures GoodPick(view, entries + [entry], pick)
  {
    var e :| e in entries && e.0 == pick.0.id && e.1 == pick.1;
    assert e in entries + [entry];
  }

  /** When the queues shown are keyed, no session that startDrops pushes
      lists an item twice. */
  lemma SessionsDistinct(view: seq<QueueInfo>, entries: seq<(QueueId, int)>, fault: Fault, participants: seq<string>, firstEvent: EventId)
    requires forall q :: q in view ==> UniqueIds(q.items)
    ensures var drops := Sessions(Planned(view, entries, fault).picks, participants, firstEvent);
            forall d :: d in drops ==> DistinctIds(d.currentItems)
  {
    var picks := Planned(view, entries, fault).picks;
    var drops := Sessions(picks, participants, firstEvent);
    PlannedPicks(view, entries, fault);
    forall d | d in drops ensures DistinctIds(d.currentItems) {
      var j :| 0 <= j < |drops| && drops[j] == d;
      SessionAt(picks, participants, firstEvent, j);
      NewSessionDistinct(picks[j].0, picks[j].1, participants, firstEvent + j);
    }
  }

  /** Once an insert fails the loop is over: no later entry adds anything. */
  lemma {:induction false} PlannedStopsAtFailure(view: seq<QueueInfo>, entries: seq<(QueueId, int)>, more: seq<(QueueId, int)>, fault: Fault)
    requires Planned(view, entries, fault).failed
    ensures Planned(view, entries + more, fault) == Planned(view, entries, fault)
    decreases |more|
  {
    if |more| == 0 {
      assert entries + more == entries;
    } else {
      var n := |more| - 1;
      PlannedStopsAtFailure(view, entries, more[..n], fault);
      var all := entries + more;
      assert all[..|all| - 1] == entries + more[..n];
    }
  }

  /** A count above 5 for a queue with approved items aborts the start. */
  lemma OversizedCountFails(view: seq<QueueInfo>, queueId: QueueId, count: int)
    requires count > 5
    requires FindQueue(view, queueId).Some? && HasApproved(FindQueue(view, queueId).value)
    ensures Planned(view, [(queueId, count)], NoFault).failed
  {
    HasApprovedIff(FindQueue(view, queueId).value);
    assert [(queueId, count)][..0] == [];
  }

  // ---------------------------------------------------------------------
  // processNextItem

  /** A skip candidate: a participant whose id is not currently listed. */
  predicate Candidate(x: DropItem, kept: seq<DropItem>, participants: seq<string>)
  {
    x.name in participants && !HasId(kept, x.id)
  }

  /** `s.filter(candidate).sort(by position)[0]`: with a stable sort, the
      candidate of least position, the earliest among equals. */
  function Lowest(s: seq<DropItem>, kept: seq<DropItem>, participants: seq<string>): Option<DropItem>
  {
    if |s| == 0 then None
    else
      var rest := Lowest(s[1..], kept, participants);
      if Candidate(s[0], kept, participants) && (rest.None? || s[0].position <= rest.value.position) then Some(s[0])
      else rest
  }

  /** There is a replacement exactly when some snapshot item is a candidate;
      it is a candidate of least position, and no candidate of the same
      position stands before it. */
  lemma {:induction false} LowestIsEarliestMinimum(s: seq<DropItem>, kept: seq<DropItem>, participants: seq<string>)
    ensures var r := Lowest(s, kept, participants);
            && (r.None? <==> forall x :: x in s ==> !Candidate(x, kept, participants))
            && (r.Some? ==> r.value in s && Candidate(r.value, kept, participants))
            && (r.Some? ==> forall x :: x in s && Candidate(x, kept, participants) ==> r.value.position <= x.position)
            && (r.Some? ==> exists k :: 0 <= k < |s| && s[k] == r.value &&
                              forall j :: 0 <= j < k && Candidate(s[j], kept, participants) ==> s[j].position > r.value.position)
  {
    if |s| > 0 {
      LowestIsEarliestMinimum(s[1..], kept, participants);
      var rest := Lowest(s[1..], kept, participants);
      var r := Lowest(s, kept, participants);
      assert forall x :: x in s <==> x == s[0] || x in s[1..];
      if Candidate(s[0], kept, participants) && (rest.None? || s[0].position <= rest.value.position) {
        assert s[0] == r.value;
      } else if r.Some? {
        var k :| 0 <= k < |s[1..]| && s[1..][k] == r.value &&
                 forall j :: 0 <= j < k && Candidate(s[1..][j], kept, participants) ==> s[1..][j].position > r.value.position;
        assert s[k + 1] == r.value;
        forall j | 0 <= j < k + 1 && Candidate(s[j], kept, participants) ensures s[j].position > r.value.position {
          if j > 0 {
            assert s[j] == s[1..][j - 1];
          }
        }
      }
    }
  }

  /** `currentItems.filter(item => item.id !== itemId)`. */
  function Without(s: seq<DropItem>, itemId: ItemId): (r: seq<DropItem>)
    ensures |r| <= |s|
  {
    if |s| == 0 then []
    else if s[0].id == itemId then Without(s[1..], itemId)
    else [s[0]] + Without(s[1..], itemId)
  }

  /** Exactly the entries with a different id survive, in their order. */
  lemma {:induction false} WithoutMembers(s: seq<DropItem>, itemId: ItemId)
    ensures forall c :: c in Without(s, itemId) <==> c in s && c.id != itemId
    ensures !HasId(Without(s, itemId), itemId)
  {
    if |s| > 0 {
      WithoutMembers(s[1..], itemId);
      assert forall c :: c in s <==> c == s[0] || c in s[1..];
      HasIdIff(Without(s, itemId), itemId);
      HasIdIff(Without(s[1..], itemId), itemId);
    }
  }

  lemma {:induction false} WithoutKeepsDistinct(s: seq<DropItem>, itemId: ItemId)
    requires DistinctIds(s)
    ensures DistinctIds(Without(s, itemId))
  {
    if |s| > 0 {
      assert DistinctIds(s[1..]) by {
        forall i, j | 0 <= i < j < |s[1..]| ensures s[1..][i].id != s[1..][j].id {
          assert s[1..][i] == s[i + 1] && s[1..][j] == s[j + 1];
        }
      }
      WithoutKeepsDistinct(s[1..], itemId);
      WithoutMembers(s[1..], itemId);
      var rest := Without(s[1..], itemId);
      if s[0].id != itemId {
        var r := [s[0]] + rest;
        forall i, j | 0 <= i < j < |r| ensures r[i].id != r[j].id {
          assert r[j] == rest[j - 1];
          if i == 0 {
            var k :| 0 <= k < |s[1..]| && s[1..][k] == r[j];
            assert s[k + 1] == r[j];
          } else {
            assert r[i] == rest[i - 1];
          }
        }
      }
    }
  }

  /** The update processNextItem applies to the session of the decided
      queue. */
  function Processed(d: ActiveDrop, pull: bool, itemId: ItemId, participants: seq<string>): (r: ActiveDrop)
    ensures r.queueId == d.queueId && r.processedCount == d.processedCount + 1
    ensures r.currentItem == Head(r.currentItems)
  {
    var kept := Without(d.currentItems, itemId);
    var processed := d.processedCount + 1;
    var current :=
      if pull && |d.remainingItems| > processed then
        match Lowest(d.remainingItems, kept, participants)
        case None => kept
        case Some(n) => kept + [n]
      else kept;
    d.(currentItems := current, processedCount := processed, currentItem := Head(current))
  }

  /** `prev.map(drop => drop.queueId === queueId ? ... : drop)`. */
  function ProcessNext(drops: seq<ActiveDrop>, queueId: QueueId, pull: bool, itemId: ItemId, participants: seq<string>): (r: seq<ActiveDrop>)
    ensures |r| == |drops|
  {
    if |drops| == 0 then []
    else
      var d := drops[0];
      [if d.queueId == queueId then Processed(d, pull, itemId, participants) else d]
        + ProcessNext(drops[1..], queueId, pull, itemId, participants)
  }

  /** Sessions of other queues come back unchanged, and the decided
      queue's session gets the update. */
  lemma {:induction false} ProcessNextAt(drops: seq<ActiveDrop>, queueId: QueueId, pull: bool, itemId: ItemId, participants: seq<string>, i: nat)
    requires i < |drops|
    ensures var r := ProcessNext(drops, queueId, pull, itemId, participants);
            && (drops[i].queueId != queueId ==> r[i] == drops[i])
            && (drops[i].queueId == queueId ==> r[i] == Processed(drops[i], pull, itemId, participants))
  {
    if i > 0 {
      ProcessNextAt(drops[1..], queueId, pull, itemId, participants, i - 1);
    }
  }

  /** A decision keeps every session's queue and event, and keeps lists
      free of repeated ids. */
  lemma ProcessNextKeeps(drops: seq<ActiveDrop>, queueId: QueueId, pull: bool, itemId: ItemId, participants: seq<string>)
    ensures var r := ProcessNext(drops, queueId, pull, itemId, participants);
            && (forall j :: 0 <= j < |r| ==> r[j].queueId == drops[j].queueId && r[j].dropEventId == drops[j].dropEventId)
            && ((forall d :: d in drops ==> DistinctIds(d.currentItems)) ==> forall d :: d in r ==> DistinctIds(d.currentItems))
  {
    var r := ProcessNext(drops, queueId, pull, itemId, participants);
    forall j | 0 <= j < |r| ensures r[j].queueId == drops[j].queueId && r[j].dropEventId == drops[j].dropEventId
      && (DistinctIds(drops[j].currentItems) ==> DistinctIds(r[j].currentItems))
    {
      ProcessNextAt(drops, queueId, pull, itemId, participants, j);
      if drops[j].queueId == queueId {
        ProcessedEffect(drops[j], pull, itemId, participants);
        if DistinctIds(drops[j].currentItems) {
          ProcessedKeepsDistinct(drops[j], pull, itemId, participants);
        }
      }
    }
    if forall d :: d in drops ==> DistinctIds(d.currentItems) {
      forall d | d in r ensures DistinctIds(d.currentItems) {
        var j :| 0 <= j < |r| && r[j] == d;
        assert drops[j] in drops;
      }
    }
  }

  /** Deciding an item keeps every session's event id below a bound the
      old ones were below, and keeps every session free of repeated ids. */
  lemma ProcessNextBelow(drops: seq<ActiveDrop>, queueId: QueueId, pull: bool, itemId: ItemId,
                         participants: seq<string>, bound: EventId)
    requires forall d :: d in drops ==> d.dropEventId < bound
    ensures forall d :: d in ProcessNext(drops, queueId, pull, itemId, participants) ==> d.dropEventId < bound
    ensures (forall d :: d in drops ==> DistinctIds(d.currentItems)) ==>
              forall d :: d in ProcessNext(drops, queueId, pull, itemId, participants) ==> DistinctIds(d.currentItems)
  {
    var r := ProcessNext(drops, queueId, pull, itemId, participants);
    ProcessNextKeeps(drops, queueId, pull, itemId, participants);
    forall d | d in r ensures d.dropEventId < bound {
      var j :| 0 <= j < |r| && r[j] == d;
      assert drops[j] in drops;
    }
  }

  /** Deciding one item: the count goes up by exactly one, the snapshot,
      target, event and queue stay, every entry with the item's id leaves the
      list and the rest keep their order, `currentItem` is the new head, and
      at most one item is appended. */
  lemma ProcessedEffect(d: ActiveDrop, pull: bool, itemId: ItemId, participants: seq<string>)
    ensures var r := Processed(d, pull, itemId, participants);
            var kept := Without(d.currentItems, itemId);
            && r.processedCount == d.processedCount + 1
            && r.remainingItems == d.remainingItems && r.totalCount == d.totalCount
            && r.queueId == d.queueId && r.dropEventId == d.dropEventId
            && r.itemName == d.itemName && r.imageUrl == d.imageUrl
            && (forall c :: c in kept <==> c in d.currentItems && c.id != itemId)
            && |kept| <= |r.currentItems| <= |kept| + 1
            && r.currentItems[..|kept|] == kept
            && r.currentItem == Head(r.currentItems)
  {
    WithoutMembers(d.currentItems, itemId);
  }

  /** Accept and decline never pull a replacement; skip pulls at most one,
      and only while the snapshot is longer than the new count. */
  lemma ReplacementOnlyOnSkip(d: ActiveDrop, pull: bool, itemId: ItemId, participants: seq<string>)
    ensures var r := Processed(d, pull, itemId, participants);
            var kept := Without(d.currentItems, itemId);
            && (!pull ==> r.currentItems == kept)
            && (|r.currentItems| == |kept| + 1 ==> pull && |d.remainingItems| > d.processedCount + 1)
  {
  }

  /** The pulled item is the snapshot item of least position among the
      participants not currently listed, the earliest of equals, and it goes
      to the end of the list; with such a candidate and room left, one is
      always pulled. */
  lemma ReplacementIsLowestEligible(d: ActiveDrop, itemId: ItemId, participants: seq<string>)
    ensures var kept := Without(d.currentItems, itemId);
            var r := Processed(d, true, itemId, participants);
            && (|r.currentItems| == |kept| + 1 <==>
                  |d.remainingItems| > d.processedCount + 1 &&
                  exists x :: x in d.remainingItems && Candidate(x, kept, participants))
            && (|r.currentItems| == |kept| + 1 ==>
                  var n := r.currentItems[|kept|];
                  && n in d.remainingItems && Candidate(n, kept, participants)
                  && (forall x :: x in d.remainingItems && Candidate(x, kept, participants) ==> n.position <= x.position)
                  && exists k :: 0 <= k < |d.remainingItems| && d.remainingItems[k] == n &&
                       forall j :: 0 <= j < k && Candidate(d.remainingItems[j], kept, participants) ==>
                         d.remainingItems[j].position > n.position)
  {
    var kept := Without(d.currentItems, itemId);
    LowestIsEarliestMinimum(d.remainingItems, kept, participants);
  }

  /** A list without repeated ids keeps that property. */
  lemma ProcessedKeepsDistinct(d: ActiveDrop, pull: bool, itemId: ItemId, participants: seq<string>)
    requires DistinctIds(d.currentItems)
    ensures DistinctIds(Processed(d, pull, itemId, participants).currentItems)
  {
    var kept := Without(d.currentItems, itemId);
    WithoutKeepsDistinct(d.currentItems, itemId);
    var r := Processed(d, pull, itemId, participants).currentItems;
    if |r| > |kept| {
      LowestIsEarliestMinimum(d.remainingItems, kept, participants);
      HasIdIff(kept, r[|kept|].id);
      forall i, j | 0 <= i < j < |r| ensures r[i].id != r[j].id {
        if j < |kept| {
          assert r[i] == kept[i] && r[j] == kept[j];
        } else {
          assert r[i] == kept[i] && kept[i] in kept;
        }
      }
    }
  }

  /** The snapshot is never refreshed, so a skipped participant can be
      pulled straight back: a session listing only `a`, with `a` and `b` in
      the snapshot, lists `a` again after `a` is skipped. */
  lemma SkipCanRepullSameItem()
    ensures var a := DropItem("a", "Ana", 1, "u1");
            var b := DropItem("b", "Bia", 2, "u2");
            var d := ActiveDrop("q", 0, None, None, [a, b], 0, 1, [a], Some(a));
            Processed(d, true, "a", ["Ana", "Bia"]).currentItems == [a]
  {
    var a := DropItem("a", "Ana", 1, "u1");
    var b := DropItem("b", "Bia", 2, "u2");
    assert [a][1..] == [] && [a, b][1..] == [b] && [b][1..] == [];
    assert Without([a], "a") == [];
    assert Lowest([b], [], ["Ana", "Bia"]) == Some(b);
    assert Lowest([a, b], [], ["Ana", "Bia"]) == Some(a);
  }

  // ---------------------------------------------------------------------
  // Where the focus goes after a decision

  datatype Focus = Focus(currentDrop: Option<ActiveDrop>, eventCleared: bool)

  /** The decided queue's session while it still lists items, else the first
      session that does; with none left the current event id is cleared. */
  function NextFocus(updated: seq<ActiveDrop>, queueId: QueueId): (r: Focus)
    ensures r.eventCleared <==> r.currentDrop.None?
    ensures r.currentDrop.Some? ==> r.currentDrop.value in updated && |r.currentDrop.value.currentItems| > 0
  {
    var own := Find(updated, (d: ActiveDrop) => d.queueId == queueId);
    if own.Some? && |own.value.currentItems| > 0 then Focus(own, false)
    else
      var next := Find(updated, (d: ActiveDrop) => |d.currentItems| > 0);
      Focus(next, next.None?)
  }

  /** The focus is a session that still lists someone, and is missing
      only when none does, which is exactly when the event id is cleared;
      the decided queue's own session keeps the focus while it lists
      someone. */
  lemma NextFocusChoice(updated: seq<ActiveDrop>, queueId: QueueId)
    ensures var f := NextFocus(updated, queueId);
            && (f.currentDrop.Some? ==> f.currentDrop.value in updated && |f.currentDrop.value.currentItems| > 0)
            && (f.currentDrop.None? <==> forall d :: d in updated ==> |d.currentItems| == 0)
            && (f.eventCleared <==> f.currentDrop.None?)
            && (forall k :: 0 <= k < |updated| && updated[k].queueId == queueId && |updated[k].currentItems| > 0 &&
                  (forall j :: 0 <= j < k ==> updated[j].queueId != queueId)
                  ==> f.currentDrop == Some(updated[k]))
  {
    var own := Find(updated, (d: ActiveDrop) => d.queueId == queueId);
    forall k | 0 <= k < |updated| && updated[k].queueId == queueId && |updated[k].currentItems| > 0 &&
               (forall j :: 0 <= j < k ==> updated[j].queueId != queueId)
      ensures NextFocus(updated, queueId).currentDrop == Some(updated[k])
    {
      assert updated[k] in updated;
      assert own.Some?;
      var m :| 0 <= m < |updated| && updated[m] == own.value && forall j :: 0 <= j < m ==> updated[j].queueId != queueId;
      assert !(m < k);
      assert !(k < m);
    }
  }

  // ---------------------------------------------------------------------
  // getTotalProgress

  function SumProcessed(drops: seq<ActiveDrop>): int
  {
    if |drops| == 0 then 0 else drops[0].processedCount + SumProcessed(drops[1..])
  }

  function SumTotal(drops: seq<ActiveDrop>): int
  {
    if |drops| == 0 then 0 else drops[0].totalCount + SumTotal(drops[1..])
  }

  /** A percentage as the exact fraction `num / den`. */
  datatype Ratio = Ratio(num: int, den: int)

  /** `totalItems > 0 ? processedItems / totalItems * 100 : 0`. */
  function TotalProgress(drops: seq<ActiveDrop>): (r: Ratio)
    ensures r.den > 0
  {
    var total := SumTotal(drops);
    if total > 0 then Ratio(100 * SumProcessed(drops), total) else Ratio(0, 1)
  }

  /** A decision adds one to Σprocessed per session of the queue (one, when
      queue ids are unique) and leaves Σtotal alone. */
  lemma {:induction false} ProcessNextProgress(drops: seq<ActiveDrop>, queueId: QueueId, pull: bool, itemId: ItemId, participants: seq<string>)
    ensures var r := ProcessNext(drops, queueId, pull, itemId, participants);
            && SumTotal(r) == SumTotal(drops)
            && SumProcessed(r) == SumProcessed(drops) + CountWhere(drops, (d: ActiveDrop) => d.queueId == queueId)
  {
    if |drops| > 0 {
      ProcessNextProgress(drops[1..], queueId, pull, itemId, participants);
      var r := ProcessNext(drops, queueId, pull, itemId, participants);
      assert r[1..] == ProcessNext(drops[1..], queueId, pull, itemId, participants);
    }
  }

  lemma ScaleMonotone(x: int, y: int, t: int)
    requires x <= y && t > 0
    ensures x * t <= y * t
  {
    assert y * t - x * t == (y - x) * t;
  }

  /** The bar never moves back: a decision leaves the overall progress
      where it was or moves it forward (compared as fractions). */
  lemma ProgressNeverDecreases(drops: seq<ActiveDrop>, queueId: QueueId, pull: bool, itemId: ItemId, participants: seq<string>)
    ensures var a := TotalProgress(drops);
            var b := TotalProgress(ProcessNext(drops, queueId, pull, itemId, participants));
            a.num * b.den <= b.num * a.den
  {
    var r := ProcessNext(drops, queueId, pull, itemId, participants);
    ProcessNextProgress(drops, queueId, pull, itemId, participants);
    var total := SumTotal(drops);
    if total > 0 {
      var p := SumProcessed(drops);
      var c := CountWhere(drops, (d: ActiveDrop) => d.queueId == queueId);
      assert TotalProgress(drops) == Ratio(100 * p, total);
      assert TotalProgress(r) == Ratio(100 * (p + c), total);
      ScaleMonotone(100 * p, 100 * (p + c), total);
    }
  }

  /** Skips count toward progress and the snapshot outlives the target, so
      progress can pass 100%: a one-item target skipped twice stands at
      200%. */
  lemma ProgressCanExceedTarget()
    ensures var a := DropItem("a", "Ana", 1, "u1");
            var b := DropItem("b", "Bia", 2, "u2");
            var c := DropItem("c", "Caio", 3, "u3");
            var d := ActiveDrop("q", 0, None, None, [a, b, c], 0, 1, [a], Some(a));
            var once := ProcessNext([d], "q", true, "a", ["Ana"]);
            var twice := ProcessNext(once, "q", true, "a", ["Ana"]);
            TotalProgress(twice) == Ratio(200, 1)
  {
    var a := DropItem("a", "Ana", 1, "u1");
    var b := DropItem("b", "Bia", 2, "u2");
    var c := DropItem("c", "Caio", 3, "u3");
    var d := ActiveDrop("q", 0, None, None, [a, b, c], 0, 1, [a], Some(a));
    assert [a][1..] == [] && [a, b, c][1..] == [b, c] && [b, c][1..] == [c] && [c][1..] == [];
    assert Without([a], "a") == [];
    assert Lowest([c], [], ["Ana"]) == None;
    assert Lowest([b, c], [], ["Ana"]) == None;
    assert Lowest([a, b, c], [], ["Ana"]) == Some(a);
    var d1 := d.(currentItems := [a], processedCount := 1, currentItem := Some(a));
    assert Processed(d, true, "a", ["Ana"]) == d1;
    var once := ProcessNext([d], "q", true, "a", ["Ana"]);
    assert [d][1..] == [] && once == [d1];
    var d2 := d.(currentItems := [a], processedCount := 2, currentItem := Some(a));
    assert Processed(d1, true, "a", ["Ana"]) == d2;
    var twice := ProcessNext(once, "q", true, "a", ["Ana"]);
    assert [d1][1..] == [] && twice == [d2];
    assert [d2][1..] == [];
    assert SumTotal(twice) == 1 && SumProcessed(twice) == 2;
  }

  // ---------------------------------------------------------------------
  // copyDropResults text

  /** `${value}` of an optional string: JavaScript writes "undefined". */
  function Shown(s: Option<string>): string
  {
    if s.Some? then s.value else "undefined"
  }

  function Names(items: seq<DropItem>): (r: seq<string>)
    ensures |r| == |items| && forall i :: 0 <= i < |items| ==> r[i] == items[i].name
  {
    seq(|items|, i requires 0 <= i < |items| => items[i].name)
  }

  /** `parts.join(sep)`. */
  function Join(parts: seq<string>, sep: string): string
  {
    if |parts| == 0 then ""
    else if |parts| == 1 then parts[0]
    else parts[0] + sep + Join(parts[1..], sep)
  }

  /** `${itemName}: ${names.join(', ')}` for the queue's session, or nothing
      to copy when there is no session or it lists no one. */
  function CopyText(drops: seq<ActiveDrop>, queueId: QueueId): (r: Option<string>)
    ensures (forall d :: d in drops ==> d.queueId != queueId) ==> r.None?
    ensures r.Some? ==> exists d :: d in drops && d.queueId == queueId && |d.currentItems| > 0
  {
    match Find(drops, (d: ActiveDrop) => d.queueId == queueId)
    case None => None
    case Some(d) =>
      if |d.currentItems| == 0 then None
      else Some(Shown(d.itemName) + ": " + Join(Names(d.currentItems), ", "))
  }

  function SumLengths(parts: seq<string>): nat
  {
    if |parts| == 0 then 0 else |parts[0]| + SumLengths(parts[1..])
  }

  /** The joined text is every part with one separator between neighbours. */
  lemma {:induction false} JoinLength(parts: seq<string>, sep: string)
    requires |parts| > 0
    ensures |Join(parts, sep)| == SumLengths(parts) + (|parts| - 1) * |sep|
  {
    if |parts| > 1 {
      JoinLength(parts[1..], sep);
    }
  }

  /** Joining one more part appends the separator and that part: with
      `Join([p], sep) == p` this pins `Join` down completely. */
  lemma {:induction false} JoinSnoc(parts: seq<string>, p: string, sep: string)
    requires |parts| > 0
    ensures Join(parts + [p], sep) == Join(parts, sep) + sep + p
    decreases |parts|
  {
    if |parts| == 1 {
      assert (parts + [p])[1..] == [p];
    } else {
      assert (parts + [p])[1..] == parts[1..] + [p];
      JoinSnoc(parts[1..], p, sep);
    }
  }

  /** The join of the first `i` parts is where the join of all of them
      starts. */
  lemma {:induction false} JoinPrefixes(parts: seq<string>, sep: string, i: int)
    requires 0 < i <= |parts|
    ensures Join(parts[..i], sep) <= Join(parts, sep)
    decreases |parts| - i
  {
    if i < |parts| {
      JoinPrefixes(parts, sep, i + 1);
      assert parts[..i + 1] == parts[..i] + [parts[i]];
      JoinSnoc(parts[..i], parts[i], sep);
    } else {
      assert parts[..i] == parts;
    }
  }

  /** After the item name and the first `i` listed names, the copied text
      goes on with ", " and the next listed name: the names appear in list
      order, each once, separated by ", ". */
  lemma CopyTextNames(drops: seq<ActiveDrop>, queueId: QueueId)
    ensures var found := Find(drops, (d: ActiveDrop) => d.queueId == queueId);
            var r := CopyText(drops, queueId);
            r.Some? ==>
              var items := found.value.currentItems;
              forall i :: 0 < i < |items| ==>
                Shown(found.value.itemName) + ": " + Join(Names(items[..i]), ", ") + ", " + items[i].name <= r.value
  {
    var found := Find(drops, (d: ActiveDrop) => d.queueId == queueId);
    if found.Some? && |found.value.currentItems| > 0 {
      var items := found.value.currentItems;
      var names := Names(items);
      var prefix := Shown(found.value.itemName) + ": ";
      forall i | 0 < i < |items|
        ensures prefix + Join(Names(items[..i]), ", ") + ", " + items[i].name <= prefix + Join(names, ", ")
      {
        assert Names(items[..i]) == names[..i];
        assert names[..i + 1] == names[..i] + [names[i]];
        JoinSnoc(names[..i], names[i], ", ");
        JoinPrefixes(names, ", ", i + 1);
        var part := Join(names[..i + 1], ", ");
        assert prefix + Join(Names(items[..i]), ", ") + ", " + items[i].name == prefix + part;
        assert (prefix + Join(names, ", "))[..|prefix + part|] == prefix + part;
      }
    }
  }

  /** There is something to copy exactly when the queue's first session
      lists someone, and the text opens with the item name and ": ", then
      the first listed name. */
  lemma CopyTextShape(drops: seq<ActiveDrop>, queueId: QueueId)
    ensures var found := Find(drops, (d: ActiveDrop) => d.queueId == queueId);
            var r := CopyText(drops, queueId);
            && (r.Some? <==> found.Some? && |found.value.currentItems| > 0)
            && (r.Some? ==>
                  var head := Shown(found.value.itemName) + ": " + found.value.currentItems[0].name;
                  |head| <= |r.value| && r.value[..|head|] == head)
  {
    var found := Find(drops, (d: ActiveDrop) => d.queueId == queueId);
    if found.Some? && |found.value.currentItems| > 0 {
      var names := Names(found.value.currentItems);
      var prefix := Shown(found.value.itemName) + ": ";
      var joined := Join(names, ", ");
      assert joined[..|names[0]|] == names[0] by {
        if |names| > 1 {
          assert joined == names[0] + (", " + Join(names[1..], ", "));
        }
      }
      assert (prefix + joined)[..|prefix| + |names[0]|] == prefix + joined[..|names[0]|];
    }
  }

  // ---------------------------------------------------------------------
  // Reload: splitting logged decisions into the two result lists

  /** `queue?.item_name || "Unknown Item"`: a missing queue, a null name and
      an empty name all fall back. */
  function ItemLabel(q: Option<QueueInfo>): (r: string)
    ensures r != ""
    ensures r == "Unknown Item" || (q.Some? && q.value.itemName == Some(r))
  {
    if q.Some? && q.value.itemName.Some? && q.value.itemName.value != "" then q.value.itemName.value
    else "Unknown Item"
  }

  function ImageOf(q: Option<QueueInfo>): Option<string>
  {
    if q.Some? then q.value.imageUrl else None
  }

  /** The queue of a row's event, looked up as the reload does it. */
  function QueueOfEvent(events: seq<DropEventRow>, view: seq<QueueInfo>, eventId: EventId): Option<QueueInfo>
  {
    match Find(events, (e: DropEventRow) => e.id == eventId)
    case None => None
    case Some(e) => FindQueue(view, e.queueId)
  }

  function Enriched(p: ParticipantRow, events: seq<DropEventRow>, view: seq<QueueInfo>): ListedRow
  {
    var q := QueueOfEvent(events, view, p.eventId);
    ListedRow(p, ItemLabel(q), ImageOf(q))
  }

  function EnrichedAll(rows: seq<ParticipantRow>, events: seq<DropEventRow>, view: seq<QueueInfo>): (r: seq<ListedRow>)
    ensures |r| == |rows|
    decreases |rows|
  {
    if |rows| == 0 then []
    else EnrichedAll(rows[..|rows| - 1], events, view) + [Enriched(rows[|rows| - 1], events, view)]
  }

  datatype Lists = Lists(pickedUp: seq<ListedRow>, missed: seq<ListedRow>)

  /** The pushes of the reload's forEach: an accepted row goes to the
      picked-up list, a skipped or declined one to the missed list. */
  function Split(all: seq<ListedRow>): (r: Lists)
    ensures |r.pickedUp| + |r.missed| == |all|
    decreases |all|
  {
    if |all| == 0 then Lists([], [])
    else
      var l := Split(all[..|all| - 1]);
      var r := all[|all| - 1];
      if r.row.action == Accept then l.(pickedUp := l.pickedUp + [r])
      else l.(missed := l.missed + [r])
  }

  /** Each logged decision is enriched with its queue's label and image and
      pushed to one of the two lists. */
  function Partition(rows: seq<ParticipantRow>, events: seq<DropEventRow>, view: seq<QueueInfo>): (r: Lists)
    ensures |r.pickedUp| + |r.missed| == |rows|
  {
    Split(EnrichedAll(rows, events, view))
  }

  predicate IsAccept(r: ListedRow)
  {
    r.row.action == Accept
  }

  predicate IsMissed(r: ListedRow)
  {
    r.row.action != Accept
  }

  /** The picked-up list is exactly the accepted rows and the missed list
      exactly the skipped and declined ones, each in the order given, and
      together they hold every row. */
  lemma SplitIsFilter(all: seq<ListedRow>)
    ensures Split(all).pickedUp == Filter(all, IsAccept)
    ensures Split(all).missed == Filter(all, IsMissed)
    ensures |Split(all).pickedUp| + |Split(all).missed| == |all|
  {
    SplitPickedUp(all);
    SplitMissed(all);
    SplitSizes(all);
  }

  lemma {:induction false} SplitPickedUp(all: seq<ListedRow>)
    ensures Split(all).pickedUp == Filter(all, IsAccept)
    decreases |all|
  {
    if |all| > 0 {
      var n := |all| - 1;
      SplitPickedUp(all[..n]);
      assert all == all[..n] + [all[n]];
      FilterAppend(all[..n], [all[n]], IsAccept);
      assert Filter([all[n]], IsAccept) == if IsAccept(all[n]) then [all[n]] else [];
    }
  }

  lemma {:induction false} SplitMissed(all: seq<ListedRow>)
    ensures Split(all).missed == Filter(all, IsMissed)
    decreases |all|
  {
    if |all| > 0 {
      var n := |all| - 1;
      SplitMissed(all[..n]);
      assert all == all[..n] + [all[n]];
      FilterAppend(all[..n], [all[n]], IsMissed);
      assert Filter([all[n]], IsMissed) == if IsMissed(all[n]) then [all[n]] else [];
    }
  }

  lemma {:induction false} SplitSizes(all: seq<ListedRow>)
    ensures |Split(all).pickedUp| + |Split(all).missed| == |all|
    decreases |all|
  {
    if |all| > 0 {
      SplitSizes(all[..|all| - 1]);
    }
  }

  /** Every row reaches the lists, enriched: the `i`-th logged decision is
      its event's queue label and image attached to the row. */
  lemma {:induction false} EnrichedAt(rows: seq<ParticipantRow>, events: seq<DropEventRow>, view: seq<QueueInfo>, i: nat)
    requires i < |rows|
    ensures EnrichedAll(rows, events, view)[i].row == rows[i]
    ensures EnrichedAll(rows, events, view)[i].itemName == ItemLabel(QueueOfEvent(events, view, rows[i].eventId))
    decreases |rows|
  {
    var n := |rows| - 1;
    if i < n {
      EnrichedAt(rows[..n], events, view, i);
    }
  }

  /** Every listed row is one of the logged decisions, with the action of
      its list. */
  lemma PartitionRowsFrom(rows: seq<ParticipantRow>, events: seq<DropEventRow>, view: seq<QueueInfo>)
    ensures var l := Partition(rows, events, view);
            && (forall x :: x in l.pickedUp ==> x.row in rows && x.row.action == Accept)
            && (forall x :: x in l.missed ==> x.row in rows && x.row.action != Accept)
  {
    var all := EnrichedAll(rows, events, view);
    SplitIsFilter(all);
    forall x | x in all ensures x.row in rows {
      var i :| 0 <= i < |all| && all[i] == x;
      EnrichedAt(rows, events, view, i);
    }
  }
}

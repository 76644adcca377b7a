/** The drop context as a stateful object: the React state of the provider
    (sessions, focus, result lists, participants) and the two tables it
    writes (drop_events and drop_participants), updated by the actions the
    screens call. Queue items are moved through the queue store. */
module DropEngine {

  import opened Common
  import opened Seqs
  import opened Ordering
  import opened DropSession
  import opened Positions
  import QueueStore

  /** The candidates of the clean-up pass: approved participants of the
      queue not already listed. */
  predicate Eligible(e: QueueEntry, participants: seq<string>, current: seq<DropItem>)
  {
    e.status == Approved && e.name in participants && !HasId(current, e.id)
  }

  /** `queue.items.filter(approved, participant, not listed).sort(by
      position)[0]`, the pick of the clean-up pass: an eligible item of
      least position, the earliest of equals since the sort is stable, and
      None exactly when there is no eligible item. */
  function NextParticipant(q: QueueInfo, participants: seq<string>, current: seq<DropItem>): (r: Option<QueueEntry>)
    ensures r.None? <==> forall e :: e in q.items ==> !Eligible(e, participants, current)
    ensures r.Some? ==> && r.value in q.items && Eligible(r.value, participants, current)
                        && forall e :: e in q.items && Eligible(e, participants, current) ==> r.value.position <= e.position
    ensures r.Some? ==> exists k :: 0 <= k < |q.items| && q.items[k] == r.value &&
                          EarliestAt(q.items, (e: QueueEntry) => Eligible(e, participants, current), k)
  {
    var kept := Filter(q.items, (e: QueueEntry) => Eligible(e, participants, current));
    var found := SortByPosition(kept);
    if |kept| == 0 then
      None
    else
      SortedHeadIsLeast(kept);
      FilterSortHeadIsEarliest(q.items, (e: QueueEntry) => Eligible(e, participants, current));
      assert Eligible(found[0], participants, current);
      Some(found[0])
  }

  /** `current.findIndex(i => i.id === id)`, with -1 written as None: the
      first index holding the id. */
  function IndexOfId(s: seq<DropItem>, id: ItemId): (r: Option<nat>)
    ensures r.Some? ==> r.value < |s| && s[r.value].id == id
    ensures r.Some? ==> forall k :: 0 <= k < r.value ==> s[k].id != id
    ensures r.None? ==> !HasId(s, id)
  {
    if |s| == 0 then None
    else if s[0].id == id then Some(0)
    else match IndexOfId(s[1..], id)
      case None => None
      case Some(k) =>
        assert forall j :: 1 <= j < k + 1 ==> s[j] == s[1..][j - 1];
        Some(k + 1)
  }

  /** Index `i` holds the first entry with the id. */
  predicate FirstWithId(items: seq<DropItem>, itemId: ItemId, i: int)
    requires 0 <= i < |items|
  {
    items[i].id == itemId && forall k :: 0 <= k < i ==> items[k].id != itemId
  }

  /** One non-participant of a list handled: with a next participant, the
      first entry with its id is replaced in place by that participant and
      every other entry stays; with none, every entry with its id leaves the
      list. */
  function Substituted(items: seq<DropItem>, itemId: ItemId, next: Option<QueueEntry>): (r: seq<DropItem>)
    ensures |r| <= |items|
    ensures next.Some? ==>
              && |r| == |items|
              && forall i :: 0 <= i < |r| ==> r[i] == if FirstWithId(items, itemId, i) then ToDropItem(next.value) else items[i]
    ensures next.None? ==> forall c :: c in r <==> c in items && c.id != itemId
  {
    match next
    case None => WithoutMembers(items, itemId); Without(items, itemId)
    case Some(e) =>
      match IndexOfId(items, itemId)
      case None =>
        HasIdIff(items, itemId);
        items
      case Some(i) =>
        assert forall j :: 0 <= j < |items| && j != i ==> !FirstWithId(items, itemId, j) by {
          forall j | 0 <= j < |items| && j != i ensures !FirstWithId(items, itemId, j) {
            if j > i {
              assert items[i].id == itemId;
            }
          }
        }
        items[i := ToDropItem(e)]
  }

  /** One stranger handled against the list as it stands. */
  function ReplaceOne(queue: QueueInfo, participants: seq<string>, items: seq<DropItem>, stranger: DropItem): seq<DropItem>
  {
    Substituted(items, stranger.id, NextParticipant(queue, participants, items))
  }

  /** The list after the strangers, in order, were each handled against
      the list the previous ones left. */
  function ReplacedAll(queue: QueueInfo, participants: seq<string>, items: seq<DropItem>, strangers: seq<DropItem>): (r: seq<DropItem>)
    ensures |r| <= |items|
    decreases |strangers|
  {
    if |strangers| == 0 then items
    else ReplaceOne(queue, participants, ReplacedAll(queue, participants, items, strangers[..|strangers| - 1]), strangers[|strangers| - 1])
  }

  /** The moveToEnd calls for a list of strangers of one queue. */
  function MovesOf(queueId: QueueId, strangers: seq<DropItem>): (r: seq<(QueueId, ItemId)>)
    ensures |r| == |strangers| && forall i :: 0 <= i < |r| ==> r[i] == (queueId, strangers[i].id)
  {
    seq(|strangers|, i requires 0 <= i < |strangers| => (queueId, strangers[i].id))
  }

  /** moveToEnd applied for each (queue, item) pair in turn, every call
      under the same fault. */
  ghost function MovedAll(t: Table, moves: seq<(QueueId, ItemId)>, fault: Fault): Table
    decreases |moves|
  {
    if |moves| == 0 then t
    else
      var last := moves[|moves| - 1];
      MovedToEnd(MovedAll(t, moves[..|moves| - 1], fault), last.0, last.1, fault)
  }

  /** Moving for `a` and then for `b` is moving for `a + b`. */
  lemma {:induction false} MovedAllAppend(t: Table, a: seq<(QueueId, ItemId)>, b: seq<(QueueId, ItemId)>, fault: Fault)
    ensures MovedAll(t, a + b, fault) == MovedAll(MovedAll(t, a, fault), b, fault)
    decreases |b|
  {
    if |b| == 0 {
      assert a + b == a;
    } else {
      var ab := a + b;
      assert ab[..|ab| - 1] == a + b[..|b| - 1];
      assert ab[|ab| - 1] == b[|b| - 1];
      MovedAllAppend(t, a, b[..|b| - 1], fault);
    }
  }

  /** The inner loop of filterNonParticipants over one session's list: each
      non-participant, in order, is moved to the end of the queue and then
      substituted in the list. */
  method ReplaceStrangers(store: QueueStore.Store, queue: QueueInfo, queueId: QueueId, items: seq<DropItem>,
                          strangers: seq<DropItem>, participants: seq<string>, moveFault: Fault)
    returns (items': seq<DropItem>)
    requires store.Valid()
    modifies store
    ensures store.Valid() && store.queues == old(store.queues) && store.user == old(store.user)
    ensures items' == ReplacedAll(queue, participants, items, strangers)
    ensures store.items == if IsMaster(store.user) then MovedAll(old(store.items), MovesOf(queueId, strangers), moveFault)
                           else old(store.items)
    ensures strangers == [] ==> items' == items && unchanged(store)
  {
    items' := items;
    for m := 0 to |strangers|
      invariant store.Valid() && store.queues == old(store.queues) && store.user == old(store.user)
      invariant items' == ReplacedAll(queue, participants, items, strangers[..m])
      invariant store.items == if IsMaster(store.user) then MovedAll(old(store.items), MovesOf(queueId, strangers[..m]), moveFault)
                               else old(store.items)
      invariant strangers == [] ==> unchanged(store)
    {
      items' := ReplaceNext(store, queue, queueId, items, strangers, m, participants, moveFault, old(store.items), items');
    }
    assert strangers[..|strangers|] == strangers;
  }

  /** The turn of the inner loop for the `m`-th stranger, stated against the
      list `items` and the table `start` the loop began with. */
  method ReplaceNext(store: QueueStore.Store, queue: QueueInfo, queueId: QueueId, ghost items: seq<DropItem>,
                     strangers: seq<DropItem>, m: nat, participants: seq<string>, moveFault: Fault,
                     ghost start: Table, current: seq<DropItem>)
    returns (current': seq<DropItem>)
    requires m < |strangers| && store.Valid()
    requires current == ReplacedAll(queue, participants, items, strangers[..m])
    requires store.items == if IsMaster(store.user) then MovedAll(start, MovesOf(queueId, strangers[..m]), moveFault)
                            else start
    modifies store
    ensures store.Valid() && store.queues == old(store.queues) && store.user == old(store.user)
    ensures current' == ReplacedAll(queue, participants, items, strangers[..m + 1])
    ensures store.items == if IsMaster(store.user) then MovedAll(start, MovesOf(queueId, strangers[..m + 1]), moveFault)
                           else start
  {
    StrangerNext(queue, queueId, participants, items, strangers, m, start, moveFault);
    current' := ReplaceOne(queue, participants, current, strangers[m]);
    store.MoveToEnd(queueId, strangers[m].id, moveFault);
  }

  /** One more stranger is one more substitution and one more move. */
  lemma StrangerNext(queue: QueueInfo, queueId: QueueId, participants: seq<string>, items: seq<DropItem>,
                     strangers: seq<DropItem>, m: nat, t: Table, fault: Fault)
    requires m < |strangers|
    ensures ReplacedAll(queue, participants, items, strangers[..m + 1]) ==
            ReplaceOne(queue, participants, ReplacedAll(queue, participants, items, strangers[..m]), strangers[m])
    ensures MovedAll(t, MovesOf(queueId, strangers[..m + 1]), fault) ==
            MovedToEnd(MovedAll(t, MovesOf(queueId, strangers[..m]), fault), queueId, strangers[m].id, fault)
  {
    assert strangers[..m + 1][..m] == strangers[..m];
    assert MovesOf(queueId, strangers[..m + 1])[..m] == MovesOf(queueId, strangers[..m]);
  }

  /** `drop.currentItems.filter(item => !participants.includes(item.name))`. */
  function NonParticipants(s: seq<DropItem>, participants: seq<string>): (r: seq<DropItem>)
    ensures |r| <= |s|
    ensures forall x :: x in r <==> x in s && x.name !in participants
    ensures (forall x :: x in s ==> x.name in participants) ==> r == []
  {
    if |s| == 0 then []
    else
      assert forall x :: x in s ==> x == s[0] || x in s[1..];
      if s[0].name in participants then NonParticipants(s[1..], participants)
      else [s[0]] + NonParticipants(s[1..], participants)
  }

  /** One session's list after the clean-up pass: a session whose queue is
      not shown keeps its list. */
  function Cleaned(view: seq<QueueInfo>, d: ActiveDrop, participants: seq<string>): (r: seq<DropItem>)
    ensures |r| <= |d.currentItems|
  {
    match FindQueue(view, d.queueId)
    case None => d.currentItems
    case Some(q) => ReplacedAll(q, participants, d.currentItems, NonParticipants(d.currentItems, participants))
  }

  /** The moveToEnd calls the clean-up pass makes for one session. */
  function OneMoves(view: seq<QueueInfo>, d: ActiveDrop, participants: seq<string>): seq<(QueueId, ItemId)>
  {
    if FindQueue(view, d.queueId).Some? then MovesOf(d.queueId, NonParticipants(d.currentItems, participants)) else []
  }

  /** The moveToEnd calls of the clean-up pass over the sessions, in order. */
  function CleanupMoves(view: seq<QueueInfo>, drops: seq<ActiveDrop>, participants: seq<string>): seq<(QueueId, ItemId)>
    decreases |drops|
  {
    if |drops| == 0 then []
    else CleanupMoves(view, drops[..|drops| - 1], participants) + OneMoves(view, drops[|drops| - 1], participants)
  }

  /** The sessions after the clean-up pass, in order. */
  function CleanedAll(view: seq<QueueInfo>, drops: seq<ActiveDrop>, participants: seq<string>): (r: seq<ActiveDrop>)
    ensures |r| == |drops|
    decreases |drops|
  {
    if |drops| == 0 then []
    else
      var last := drops[|drops| - 1];
      CleanedAll(view, drops[..|drops| - 1], participants) + [last.(currentItems := Cleaned(view, last, participants))]
  }

  /** Session by session, the clean-up pass only replaces the list. */
  lemma {:induction false} CleanedAllAt(view: seq<QueueInfo>, drops: seq<ActiveDrop>, participants: seq<string>)
    ensures forall j :: 0 <= j < |drops| ==>
              CleanedAll(view, drops, participants)[j] == drops[j].(currentItems := Cleaned(view, drops[j], participants))
    decreases |drops|
  {
    if |drops| > 0 {
      var init := drops[..|drops| - 1];
      CleanedAllAt(view, init, participants);
      forall j | 0 <= j < |init|
        ensures CleanedAll(view, drops, participants)[j] == drops[j].(currentItems := Cleaned(view, drops[j], participants))
      {
        assert init[j] == drops[j];
      }
    }
  }

  /** One turn of the outer loop of filterNonParticipants: the session's
      list becomes `Cleaned` and the queue table takes its moves. */
  method CleanOne(store: QueueStore.Store, view: seq<QueueInfo>, d: ActiveDrop, participants: seq<string>, moveFault: Fault)
    returns (d': ActiveDrop)
    requires store.Valid()
    modifies store
    ensures store.Valid() && store.queues == old(store.queues) && store.user == old(store.user)
    ensures d' == d.(currentItems := Cleaned(view, d, participants))
    ensures store.items == if IsMaster(store.user) then MovedAll(old(store.items), OneMoves(view, d, participants), moveFault)
                           else old(store.items)
    ensures (forall x :: x in d.currentItems ==> x.name in participants) ==> d' == d && unchanged(store)
  {
    d' := d;
    var found := FindQueue(view, d.queueId);
    if found.Some? {
      var strangers := NonParticipants(d.currentItems, participants);
      var items := ReplaceStrangers(store, found.value, d.queueId, d.currentItems, strangers, participants, moveFault);
      d' := d.(currentItems := items);
    }
  }

  /** The turn of the outer loop of filterNonParticipants for session `k`,
      stated against the table `start` the loop began with. */
  method CleanNext(store: QueueStore.Store, view: seq<QueueInfo>, drops: seq<ActiveDrop>, k: nat, participants: seq<string>,
                   moveFault: Fault, ghost start: Table, done: seq<ActiveDrop>)
    returns (done': seq<ActiveDrop>)
    requires k < |drops| && store.Valid()
    requires done == CleanedAll(view, drops[..k], participants)
    requires store.items == if IsMaster(store.user) then MovedAll(start, CleanupMoves(view, drops[..k], participants), moveFault)
                            else start
    requires AllListedParticipate(drops, participants) ==> done == drops[..k]
    modifies store
    ensures store.Valid() && store.queues == old(store.queues) && store.user == old(store.user)
    ensures done' == CleanedAll(view, drops[..k + 1], participants)
    ensures store.items == if IsMaster(store.user) then MovedAll(start, CleanupMoves(view, drops[..k + 1], participants), moveFault)
                           else start
    ensures AllListedParticipate(drops, participants) ==> done' == drops[..k + 1] && unchanged(store)
  {
    assert drops[..k + 1] == drops[..k] + [drops[k]];
    assert drops[..k + 1][..k] == drops[..k];
    assert AllListedParticipate(drops, participants) ==> forall x :: x in drops[k].currentItems ==> x.name in participants;
    var d := CleanOne(store, view, drops[k], participants, moveFault);
    MovedAllAppend(start, CleanupMoves(view, drops[..k], participants), OneMoves(view, drops[k], participants), moveFault);
    done' := done + [d];
  }

  /** What the clean-up keeps true of a list once the strangers `done`
      were handled: ids stay distinct, and every entry is a participant or
      an original entry whose id none of those strangers had. */
  ghost predicate CleanSoFar(r: seq<DropItem>, items: seq<DropItem>, participants: seq<string>, done: seq<DropItem>)
  {
    && DistinctIds(r)
    && forall x :: x in r ==> x.name in participants || (x in items && forall s :: s in done ==> x.id != s.id)
  }

  lemma ReplaceOneKeepsClean(queue: QueueInfo, participants: seq<string>, r: seq<DropItem>, items: seq<DropItem>,
                             done: seq<DropItem>, s: DropItem)
    requires CleanSoFar(r, items, participants, done)
    ensures CleanSoFar(ReplaceOne(queue, participants, r, s), items, participants, done + [s])
  {
    var next := NextParticipant(queue, participants, r);
    var r' := ReplaceOne(queue, participants, r, s);
    if next.None? {
      WithoutKeepsDistinct(r, s.id);
    } else {
      var e := next.value;
      HasIdIff(r, e.id);
      forall i, j | 0 <= i < j < |r'| ensures r'[i].id != r'[j].id {
        if r[i].id == s.id {
          assert !FirstWithId(r, s.id, j);
          assert r[j] in r;
        } else if r[j].id == s.id {
          assert FirstWithId(r, s.id, j);
          assert r[i] in r;
        } else {
          assert !FirstWithId(r, s.id, i) && !FirstWithId(r, s.id, j);
        }
      }
      forall x | x in r'
        ensures x.name in participants || (x in items && forall t :: t in done + [s] ==> x.id != t.id)
      {
        var i :| 0 <= i < |r'| && r'[i] == x;
        if r[i].id == s.id {
          assert FirstWithId(r, s.id, i);
        } else {
          assert !FirstWithId(r, s.id, i);
          assert r[i] in r;
        }
      }
    }
  }

  lemma {:induction false} ReplacedAllClean(queue: QueueInfo, participants: seq<string>, items: seq<DropItem>, strangers: seq<DropItem>)
    requires DistinctIds(items)
    ensures CleanSoFar(ReplacedAll(queue, participants, items, strangers), items, participants, strangers)
    decreases |strangers|
  {
    if |strangers| > 0 {
      var init := strangers[..|strangers| - 1];
      ReplacedAllClean(queue, participants, items, init);
      ReplaceOneKeepsClean(queue, participants, ReplacedAll(queue, participants, items, init), items, init, strangers[|strangers| - 1]);
      assert init + [strangers[|strangers| - 1]] == strangers;
    }
  }

  /** The purpose of the clean-up pass: on a list without repeated ids, a
      session whose queue is shown ends up listing only participants, each
      id once. */
  lemma CleanedListsParticipants(view: seq<QueueInfo>, d: ActiveDrop, participants: seq<string>)
    requires DistinctIds(d.currentItems)
    ensures DistinctIds(Cleaned(view, d, participants))
    ensures FindQueue(view, d.queueId).Some? ==> forall x :: x in Cleaned(view, d, participants) ==> x.name in participants
  {
    var found := FindQueue(view, d.queueId);
    if found.Some? {
      ReplacedAllClean(found.value, participants, d.currentItems, NonParticipants(d.currentItems, participants));
    }
  }

  /** The new sessions and focus after one decision, with the bounds the
      engine's invariants need. */
  method AfterDecision(drops: seq<ActiveDrop>, queueId: QueueId, pull: bool, itemId: ItemId,
                       participants: seq<string>, bound: EventId)
    returns (updated: seq<ActiveDrop>, focus: Focus)
    requires forall d :: d in drops ==> d.dropEventId < bound
    ensures updated == ProcessNext(drops, queueId, pull, itemId, participants)
    ensures focus == NextFocus(updated, queueId)
    ensures forall d :: d in updated ==> d.dropEventId < bound
    ensures (forall d :: d in drops ==> DistinctIds(d.currentItems)) ==> forall d :: d in updated ==> DistinctIds(d.currentItems)
  {
    updated := ProcessNext(drops, queueId, pull, itemId, participants);
    ProcessNextBelow(drops, queueId, pull, itemId, participants, bound);
    focus := NextFocus(updated, queueId);
  }

  /** The drop_participants rows a clear deletes: of an event of the window
      and of one of the given actions. */
  function Kept(rows: seq<ParticipantRow>, window: set<EventId>, cleared: set<Action>): (r: seq<ParticipantRow>)
    ensures forall x :: x in r <==> x in rows && !(x.eventId in window && x.action in cleared)
  {
    Filter(rows, (x: ParticipantRow) => !(x.eventId in window && x.action in cleared))
  }

  function Reverse<T(!new)>(s: seq<T>): (r: seq<T>)
    ensures |r| == |s| && forall i :: 0 <= i < |s| ==> r[i] == s[|s| - 1 - i]
    ensures forall x :: x in r <==> x in s
  {
    if |s| == 0 then [] else Reverse(s[1..]) + [s[0]]
  }

  /** Reversing turns an order into its converse. */
  lemma ReverseOfPairwise<T(!new)>(s: seq<T>, rel: (T, T) -> bool, flipped: (T, T) -> bool)
    requires Pairwise(s, rel)
    requires forall a, b :: rel(a, b) ==> flipped(b, a)
    ensures Pairwise(Reverse(s), flipped)
  {
    var r := Reverse(s);
    forall i, j | 0 <= i < j < |r| ensures flipped(r[i], r[j]) {
      assert rel(s[|s| - 1 - j], s[|s| - 1 - i]);
    }
  }

  /** The event id `setCurrentDropEventId` leaves after `n` inserts numbered
      from `first`: the last one, or the previous value with none. */
  function LastEvent(first: EventId, n: nat, previous: Option<EventId>): Option<EventId>
  {
    if n > 0 then Some(first + n - 1) else previous
  }

  /** `activeDrops.find(d => d.queueId === queueId)`. */
  function SessionOf(drops: seq<ActiveDrop>, queueId: QueueId): (r: Option<ActiveDrop>)
    ensures r.None? <==> forall d :: d in drops ==> d.queueId != queueId
    ensures r.Some? ==> r.value in drops && r.value.queueId == queueId
  {
    Find(drops, (d: ActiveDrop) => d.queueId == queueId)
  }

  /** The ids of the drop_events rows created in the clearing window (the
      last 24 hours, given as the set of ids created in it). */
  function RecentIds(events: seq<DropEventRow>, window: set<EventId>): (r: set<EventId>)
    ensures forall id :: id in r <==> id in window && exists e :: e in events && e.id == id
  {
    set e | e in events && e.id in window :: e.id
  }

  /** Creation order of drop_events rows, read off their ids. */
  predicate EventBefore(a: DropEventRow, b: DropEventRow) { a.id < b.id }
  predicate EventAfter(a: DropEventRow, b: DropEventRow) { a.id > b.id }

  /** The drop_events of the window, `order("created_at", desc)`: exactly
      the window's events, newest first. */
  function RecentEvents(events: seq<DropEventRow>, window: set<EventId>): (r: seq<DropEventRow>)
    ensures forall e :: e in r <==> e in events && e.id in window
    ensures Pairwise(events, EventBefore) ==> Pairwise(r, EventAfter)
  {
    var p := (e: DropEventRow) => e.id in window;
    var r := Reverse(Filter(events, p));
    assert Pairwise(events, EventBefore) ==> Pairwise(r, EventAfter) by {
      if Pairwise(events, EventBefore) {
        FilterKeepsPairwise(events, p, EventBefore);
        ReverseOfPairwise(Filter(events, p), EventBefore, EventAfter);
      }
    }
    r
  }

  /** Creation order of drop_participants rows, read off their ids. */
  predicate RowBefore(a: ParticipantRow, b: ParticipantRow) { a.id < b.id }
  predicate RowAfter(a: ParticipantRow, b: ParticipantRow) { a.id > b.id }

  /** The drop_participants rows of the given events,
      `order("created_at", desc)`: exactly the rows of those events, newest
      first. */
  function RowsOf(rows: seq<ParticipantRow>, recent: seq<DropEventRow>): (r: seq<ParticipantRow>)
    ensures forall x :: x in r <==> x in rows && exists e :: e in recent && e.id == x.eventId
    ensures Pairwise(rows, RowBefore) ==> Pairwise(r, RowAfter)
  {
    var p := (x: ParticipantRow) => exists e :: e in recent && e.id == x.eventId;
    var r := Reverse(Filter(rows, p));
    assert Pairwise(rows, RowBefore) ==> Pairwise(r, RowAfter) by {
      if Pairwise(rows, RowBefore) {
        FilterKeepsPairwise(rows, p, RowBefore);
        ReverseOfPairwise(Filter(rows, p), RowBefore, RowAfter);
      }
    }
    r
  }

  /** The insert and the push for one accepted pick. */
  method PushPick(ghost picks: seq<(QueueInfo, nat)>, queue: QueueInfo, count: nat, participants: seq<string>,
                  creator: UserId, first: EventId, previous: Option<EventId>, inserted: seq<DropEventRow>, drops: seq<ActiveDrop>)
    returns (inserted': seq<DropEventRow>, drops': seq<ActiveDrop>, lastEvent': Option<EventId>)
    requires inserted == EventRows(picks, creator, first) && drops == Sessions(picks, participants, first)
    ensures inserted' == EventRows(picks + [(queue, count)], creator, first)
    ensures drops' == Sessions(picks + [(queue, count)], participants, first)
    ensures lastEvent' == LastEvent(first, |picks + [(queue, count)]|, previous)
  {
    PickAppended(picks, (queue, count), creator, participants, first);
    var eventId := first + |inserted|;
    inserted' := inserted + [DropEventRow(eventId, queue.id, count, creator)];
    drops' := drops + [NewSession(queue, count, participants, eventId)];
    lastEvent' := Some(eventId);
  }

  /** The step for an entry whose queue has approved items and whose insert
      goes through pushes the queue. */
  lemma PlanStepPushes(picks: seq<(QueueInfo, nat)>, view: seq<QueueInfo>, entry: (QueueId, int), fault: Fault, queue: QueueInfo)
    requires FindQueue(view, entry.0) == Some(queue) && |ApprovedOf(queue)| > 0
    requires CountAccepted(entry.1) && Runs(fault, |picks|)
    ensures entry.1 >= 0 && PlanStep(Plan(picks, false), view, entry, fault) == Plan(picks + [(queue, entry.1)], false)
  {
  }

  /** One turn of the insert loop of startDrops, for the entry
      `(queueId, count)`: it keeps the rows, sessions and last event id in
      step with the plan. */
  method InsertOne(view: seq<QueueInfo>, entry: (QueueId, int), participants: seq<string>,
                   creator: UserId, fault: Fault, first: EventId, previous: Option<EventId>,
                   ghost picks: seq<(QueueInfo, nat)>, inserted: seq<DropEventRow>, drops: seq<ActiveDrop>,
                   lastEvent: Option<EventId>)
    returns (ghost picks': seq<(QueueInfo, nat)>, inserted': seq<DropEventRow>, drops': seq<ActiveDrop>,
             lastEvent': Option<EventId>, failed: bool)
    requires inserted == EventRows(picks, creator, first) && drops == Sessions(picks, participants, first)
    requires lastEvent == LastEvent(first, |picks|, previous)
    ensures PlanStep(Plan(picks, false), view, entry, fault) == Plan(picks', failed)
    ensures inserted' == EventRows(picks', creator, first) && drops' == Sessions(picks', participants, first)
    ensures |inserted'| == |picks'|
    ensures lastEvent' == LastEvent(first, |picks'|, previous)
  {
    picks', inserted', drops', lastEvent', failed := picks, inserted, drops, lastEvent, false;
    var found := FindQueue(view, entry.0);
    if found.Some? {
      var queue := found.value;
      if |ApprovedOf(queue)| > 0 {
        if !CountAccepted(entry.1) || !Runs(fault, |inserted|) {
          failed := true;
        } else {
          var count: nat := entry.1;
          PlanStepPushes(picks, view, entry, fault, queue);
          inserted', drops', lastEvent' := PushPick(picks, queue, count, participants, creator, first, previous, inserted, drops);
          picks' := picks + [(queue, count)];
        }
      }
    }
  }

  /** The loop of startDrops over the entries: an unknown queue or one
      without approved items is skipped; otherwise an event row is inserted
      (refused for a count outside 0..5, and able to fail like any write),
      the session is pushed and its event becomes the current one. The
      first failure ends the loop. Returns the rows inserted, the sessions
      pushed, the last event id and whether an insert failed. */
  method InsertEvents(view: seq<QueueInfo>, entries: seq<(QueueId, int)>, participants: seq<string>,
                      creator: UserId, fault: Fault, first: EventId, previous: Option<EventId>)
    returns (inserted: seq<DropEventRow>, drops: seq<ActiveDrop>, lastEvent: Option<EventId>, failed: bool)
    ensures var p := Planned(view, entries, fault);
            && failed == p.failed
            && inserted == EventRows(p.picks, creator, first)
            && drops == Sessions(p.picks, participants, first)
            && lastEvent == LastEvent(first, |p.picks|, previous)
  {
    inserted := [];
    drops := [];
    lastEvent := previous;
    ghost var picks: seq<(QueueInfo, nat)> := [];
    failed := false;
    var i := 0;
    while i < |entries| && !failed
      invariant 0 <= i <= |entries|
      invariant Planned(view, entries[..i], fault) == Plan(picks, failed)
      invariant inserted == EventRows(picks, creator, first) && drops == Sessions(picks, participants, first)
      invariant lastEvent == LastEvent(first, |picks|, previous)
    {
      PlannedNext(view, entries, i, fault);
      picks, inserted, drops, lastEvent, failed :=
        InsertOne(view, entries[i], participants, creator, fault, first, previous, picks, inserted, drops, lastEvent);
      i := i + 1;
    }
    if failed {
      assert entries[..i] + entries[i..] == entries;
      PlannedStopsAtFailure(view, entries[..i], entries[i..], fault);
    } else {
      assert entries[..i] == entries;
    }
  }

  class Engine {
    var activeDrops: seq<ActiveDrop>
    var currentDrop: Option<ActiveDrop>
    var currentDropEventId: Option<EventId>
    var participantList: seq<string>
    var pickedUpList: seq<ListedRow>
    var missedList: seq<ListedRow>
    /** The drop_events table, in insertion order. */
    var events: seq<DropEventRow>
    /** The drop_participants table, in insertion order. */
    var rows: seq<ParticipantRow>
    var nextEventId: EventId
    var nextRowId: nat

    /** Each list holds only decisions of its kind, every listed decision is
        logged, and ids handed out are below the counters. */
    ghost predicate Valid()
      reads this
    {
      && (forall l :: l in pickedUpList ==> l.row.action == Accept && l.row in rows)
      && (forall l :: l in missedList ==> l.row.action != Accept && l.row in rows)
      && (forall e :: e in events ==> e.id < nextEventId)
      && (forall r :: r in rows ==> r.id < nextRowId && r.eventId < nextEventId)
      && (forall d :: d in activeDrops ==> d.dropEventId < nextEventId)
    }

    /** No session lists an item twice. */
    ghost predicate Keyed()
      reads this
    {
      forall d :: d in activeDrops ==> DistinctIds(d.currentItems)
    }

    /** `activeDrops.length > 0 && currentDrop !== null`. */
    predicate HasActiveDrops()
      reads this
    {
      |activeDrops| > 0 && currentDrop.Some?
    }

    constructor ()
      ensures activeDrops == [] && currentDrop == None && currentDropEventId == None && participantList == []
      ensures pickedUpList == [] && missedList == [] && events == [] && rows == []
      ensures Valid() && Keyed() && !HasActiveDrops()
      ensures TotalProgress(activeDrops) == Ratio(0, 1)
    {
      activeDrops := [];
      currentDrop := None;
      currentDropEventId := None;
      participantList := [];
      pickedUpList := [];
      missedList := [];
      events := [];
      rows := [];
      nextEventId := 0;
      nextRowId := 0;
    }

    /** Appends the inserted event rows and sets the current event id. */
    method RecordEvents(inserted: seq<DropEventRow>, lastEvent: Option<EventId>)
      requires Valid()
      requires forall e :: e in inserted ==> nextEventId <= e.id < nextEventId + |inserted|
      modifies this
      ensures events == old(events) + inserted && nextEventId == old(nextEventId) + |inserted|
      ensures currentDropEventId == lastEvent
      ensures activeDrops == old(activeDrops) && currentDrop == old(currentDrop) && participantList == old(participantList)
      ensures pickedUpList == old(pickedUpList) && missedList == old(missedList)
      ensures rows == old(rows) && nextRowId == old(nextRowId)
      ensures Valid()
    {
      events := events + inserted;
      nextEventId := nextEventId + |inserted|;
      currentDropEventId := lastEvent;
    }

    /** startDrops: for a master, records the participants, inserts the
        event rows and builds the sessions, runs the clean-up pass and
        publishes the sessions with the first one in focus. A failed insert
        ends the start and publishes nothing, though the rows already
        inserted and the last event id stay. */
    method StartDrops(store: QueueStore.Store, view: seq<QueueInfo>, entries: seq<(QueueId, int)>, participants: seq<string>, fault: Fault)
      requires Valid() && store.Valid()
      modifies this, store
      ensures Valid() && store.Valid()
      ensures unchanged(store)
      ensures pickedUpList == old(pickedUpList) && missedList == old(missedList)
      ensures rows == old(rows) && nextRowId == old(nextRowId)
      ensures !IsMaster(store.user) ==> unchanged(this)
      ensures IsMaster(store.user) ==>
                var p := Planned(view, entries, fault);
                var first := old(nextEventId);
                && participantList == participants
                && events == old(events) + EventRows(p.picks, store.user.value.id, first)
                && nextEventId == first + |p.picks|
                && currentDropEventId == LastEvent(first, |p.picks|, old(currentDropEventId))
                && (p.failed ==> activeDrops == old(activeDrops) && currentDrop == old(currentDrop))
                && (!p.failed ==> activeDrops == Sessions(p.picks, participants, first) &&
                                  currentDrop == (if |activeDrops| > 0 then Some(activeDrops[0]) else None))
      ensures old(Keyed()) && (forall q :: q in view ==> UniqueIds(q.items)) ==> Keyed()
    {
      if !IsMaster(store.user) {
        return;
      }
      participantList := participants;
      var first := nextEventId;
      var inserted, drops, lastEvent, failed := InsertEvents(view, entries, participants, store.user.value.id, fault, first, currentDropEventId);
      ghost var picks := Planned(view, entries, fault).picks;
      EventIdsFrom(picks, store.user.value.id, participants, first);
      RecordEvents(inserted, lastEvent);
      if failed {
        return;
      }
      SessionsListParticipants(picks, participants, first);
      if forall q :: q in view ==> UniqueIds(q.items) {
        SessionsDistinct(view, entries, fault, participants, first);
      }
      Publish(store, view, drops, participants);
    }

    /** The end of startDrops: the clean-up pass, which finds nothing to do
        on sessions that list only participants, then the sessions are
        published with the first one in focus. */
    method Publish(store: QueueStore.Store, view: seq<QueueInfo>, drops: seq<ActiveDrop>, participants: seq<string>)
      requires Valid() && store.Valid()
      requires AllListedParticipate(drops, participants)
      requires forall d :: d in drops ==> d.dropEventId < nextEventId
      modifies this, store
      ensures unchanged(store)
      ensures activeDrops == drops && currentDrop == (if |drops| > 0 then Some(drops[0]) else None)
      ensures HasActiveDrops() <==> |drops| > 0
      ensures events == old(events) && nextEventId == old(nextEventId)
      ensures currentDropEventId == old(currentDropEventId) && participantList == old(participantList)
      ensures pickedUpList == old(pickedUpList) && missedList == old(missedList)
      ensures rows == old(rows) && nextRowId == old(nextRowId)
      ensures Valid()
      ensures (forall d :: d in drops ==> DistinctIds(d.currentItems)) ==> Keyed()
    {
      var cleaned := FilterNonParticipants(store, view, drops, participants, NoFault);
      activeDrops := cleaned;
      currentDrop := if |cleaned| > 0 then Some(cleaned[0]) else None;
    }

    /** filterNonParticipants: every listed non-participant is moved to the
        end of its queue and replaced in place by the lowest approved
        participant of the queue not yet listed, or dropped when there is
        none. Each session keeps everything but its list, which becomes
        `Cleaned`; the queue table takes every move of `CleanupMoves` in
        turn; and when every listed name is a participant nothing happens
        at all. */
    method FilterNonParticipants(store: QueueStore.Store, view: seq<QueueInfo>, drops: seq<ActiveDrop>, participants: seq<string>, moveFault: Fault)
      returns (r: seq<ActiveDrop>)
      requires store.Valid()
      modifies store
      ensures store.Valid() && store.queues == old(store.queues) && store.user == old(store.user)
      ensures |r| == |drops|
      ensures forall j :: 0 <= j < |r| ==> r[j] == drops[j].(currentItems := Cleaned(view, drops[j], participants))
      ensures store.items == if IsMaster(store.user) then MovedAll(old(store.items), CleanupMoves(view, drops, participants), moveFault)
                             else old(store.items)
      ensures forall j :: 0 <= j < |r| ==> |r[j].currentItems| <= |drops[j].currentItems|
      ensures AllListedParticipate(drops, participants) ==> r == drops && unchanged(store)
    {
      var done: seq<ActiveDrop> := [];
      var k := 0;
      while k < |drops|
        invariant 0 <= k <= |drops|
        invariant store.Valid() && store.queues == old(store.queues) && store.user == old(store.user)
        invariant done == CleanedAll(view, drops[..k], participants)
        invariant store.items == if IsMaster(store.user) then MovedAll(old(store.items), CleanupMoves(view, drops[..k], participants), moveFault)
                                 else old(store.items)
        invariant AllListedParticipate(drops, participants) ==> done == drops[..k] && unchanged(store)
      {
        done := CleanNext(store, view, drops, k, participants, moveFault, old(store.items), done);
        k := k + 1;
      }
      assert drops[..k] == drops;
      CleanedAllAt(view, drops, participants);
      r := done;
    }

    /** acceptName, skipName and declineName: with a session for the queue,
        the decision is logged (an insert that can fail, which ends the
        action), the item is moved to the end of its queue, the logged row
        joins the picked-up list (accept) or the missed list (skip,
        decline) under the queue's label, and processNextItem runs, pulling
        a replacement only on a skip. */
    method Decide(store: QueueStore.Store, view: seq<QueueInfo>, queueId: QueueId, itemId: ItemId, name: string,
                  action: Action, fault: Fault, moveFault: Fault)
      requires Valid() && store.Valid()
      modifies this, store
      ensures Valid() && store.Valid()
      ensures store.queues == old(store.queues) && store.user == old(store.user)
      ensures events == old(events) && nextEventId == old(nextEventId) && participantList == old(participantList)
      ensures var drop := SessionOf(old(activeDrops), queueId);
              drop.None? || !Runs(fault, 0) ==> unchanged(this) && unchanged(store)
      ensures var drop := SessionOf(old(activeDrops), queueId);
              drop.Some? && Runs(fault, 0) ==>
                var row := ParticipantRow(old(nextRowId), drop.value.dropEventId, itemId, name, action);
                var queue := FindQueue(view, queueId);
                var listed := ListedRow(row, ItemLabel(queue), ImageOf(queue));
                var updated := ProcessNext(old(activeDrops), queueId, action == Skip, itemId, participantList);
                var focus := NextFocus(updated, queueId);
                && rows == old(rows) + [row] && nextRowId == old(nextRowId) + 1
                && store.items == (if IsMaster(store.user) then Positions.MovedToEnd(old(store.items), queueId, itemId, moveFault) else old(store.items))
                && pickedUpList == (if action == Accept then old(pickedUpList) + [listed] else old(pickedUpList))
                && missedList == (if action == Accept then old(missedList) else old(missedList) + [listed])
                && activeDrops == updated
                && currentDrop == focus.currentDrop
                && currentDropEventId == (if focus.eventCleared then None else old(currentDropEventId))
      ensures old(Keyed()) ==> Keyed()
    {
      var drop := SessionOf(activeDrops, queueId);
      if drop.None? || !Runs(fault, 0) {
        return;
      }
      var row := ParticipantRow(nextRowId, drop.value.dropEventId, itemId, name, action);
      LogRow(row);
      store.MoveToEnd(queueId, itemId, moveFault);
      var queue := FindQueue(view, queueId);
      ListRow(ListedRow(row, ItemLabel(queue), ImageOf(queue)));
      ProcessNextItem(queueId, action == Skip, itemId);
    }

    /** The insert into drop_participants, once it has succeeded. */
    method LogRow(row: ParticipantRow)
      requires Valid() && row.id == nextRowId && row.eventId < nextEventId
      modifies this
      ensures rows == old(rows) + [row] && nextRowId == old(nextRowId) + 1
      ensures activeDrops == old(activeDrops) && currentDrop == old(currentDrop) && currentDropEventId == old(currentDropEventId)
      ensures participantList == old(participantList) && pickedUpList == old(pickedUpList) && missedList == old(missedList)
      ensures events == old(events) && nextEventId == old(nextEventId)
      ensures Valid()
    {
      rows := rows + [row];
      nextRowId := nextRowId + 1;
    }

    /** `setPickedUpList(prev => [...prev, row])` for an accept,
        `setMissedList` likewise for a skip or a decline. */
    method ListRow(listed: ListedRow)
      requires Valid() && listed.row in rows
      modifies this
      ensures pickedUpList == (if listed.row.action == Accept then old(pickedUpList) + [listed] else old(pickedUpList))
      ensures missedList == (if listed.row.action == Accept then old(missedList) else old(missedList) + [listed])
      ensures activeDrops == old(activeDrops) && currentDrop == old(currentDrop) && currentDropEventId == old(currentDropEventId)
      ensures participantList == old(participantList) && events == old(events) && rows == old(rows)
      ensures nextEventId == old(nextEventId) && nextRowId == old(nextRowId)
      ensures Valid()
    {
      if listed.row.action == Accept {
        pickedUpList := pickedUpList + [listed];
      } else {
        missedList := missedList + [listed];
      }
    }

    /** processNextItem: the decided queue's session drops the item (and
        on a skip may pull a replacement), and the focus moves as
        `NextFocus` says, clearing the current event id when no session
        lists anyone. */
    method ProcessNextItem(queueId: QueueId, pull: bool, itemId: ItemId)
      requires Valid()
      modifies this
      ensures var updated := ProcessNext(old(activeDrops), queueId, pull, itemId, participantList);
              var focus := NextFocus(updated, queueId);
              && activeDrops == updated
              && currentDrop == focus.currentDrop
              && currentDropEventId == (if focus.eventCleared then None else old(currentDropEventId))
      ensures participantList == old(participantList) && pickedUpList == old(pickedUpList) && missedList == old(missedList)
      ensures events == old(events) && rows == old(rows) && nextEventId == old(nextEventId) && nextRowId == old(nextRowId)
      ensures Valid()
      ensures old(Keyed()) ==> Keyed()
    {
      var updated, focus := AfterDecision(activeDrops, queueId, pull, itemId, participantList, nextEventId);
      var eventId := if focus.eventCleared then None else currentDropEventId;
      activeDrops, currentDrop, currentDropEventId := updated, focus.currentDrop, eventId;
    }

    /** resetDrops: the sessions, focus, event id and participants go; the
        result lists and the tables stay. */
    method ResetDrops()
      requires Valid()
      modifies this
      ensures activeDrops == [] && currentDrop == None && currentDropEventId == None && participantList == []
      ensures pickedUpList == old(pickedUpList) && missedList == old(missedList)
      ensures events == old(events) && rows == old(rows) && nextEventId == old(nextEventId) && nextRowId == old(nextRowId)
      ensures Valid() && Keyed() && !HasActiveDrops()
      ensures TotalProgress(activeDrops) == Ratio(0, 1)
    {
      activeDrops := [];
      currentDrop := None;
      currentDropEventId := None;
      participantList := [];
    }

    /** clearPickedUpList: the ids of the window's events are read (which
        can fail); when there are any, their accepted rows are deleted
        (which can fail too); then the picked-up list is emptied. A failure
        changes nothing. */
    method ClearPickedUpList(window: set<EventId>, fault: Fault)
      requires Valid()
      modifies this
      ensures var recent := RecentIds(old(events), window);
              var ok := Runs(fault, 0) && (recent == {} || Runs(fault, 1));
              && pickedUpList == (if ok then [] else old(pickedUpList))
              && rows == (if ok && recent != {} then Kept(old(rows), recent, {Accept}) else old(rows))
      ensures activeDrops == old(activeDrops) && currentDrop == old(currentDrop) && currentDropEventId == old(currentDropEventId)
      ensures participantList == old(participantList) && missedList == old(missedList)
      ensures events == old(events) && nextEventId == old(nextEventId) && nextRowId == old(nextRowId)
      ensures Valid()
    {
      if !Runs(fault, 0) {
        return;
      }
      var recent := RecentIds(events, window);
      if recent != {} {
        if !Runs(fault, 1) {
          return;
        }
        rows := Kept(rows, recent, {Accept});
      }
      pickedUpList := [];
    }

    /** clearMissedList: as clearPickedUpList, for the skipped and
        declined rows and the missed list. */
    method ClearMissedList(window: set<EventId>, fault: Fault)
      requires Valid()
      modifies this
      ensures var recent := RecentIds(old(events), window);
              var ok := Runs(fault, 0) && (recent == {} || Runs(fault, 1));
              && missedList == (if ok then [] else old(missedList))
              && rows == (if ok && recent != {} then Kept(old(rows), recent, {Skip, Decline}) else old(rows))
      ensures activeDrops == old(activeDrops) && currentDrop == old(currentDrop) && currentDropEventId == old(currentDropEventId)
      ensures participantList == old(participantList) && pickedUpList == old(pickedUpList)
      ensures events == old(events) && nextEventId == old(nextEventId) && nextRowId == old(nextRowId)
      ensures Valid()
    {
      if !Runs(fault, 0) {
        return;
      }
      var recent := RecentIds(events, window);
      if recent != {} {
        if !Runs(fault, 1) {
          return;
        }
        rows := Kept(rows, recent, {Skip, Decline});
      }
      missedList := [];
    }

    /** `setPickedUpList(pickedUp); setMissedList(missed)`. */
    method SetLists(l: Lists)
      requires Valid()
      requires forall x :: x in l.pickedUp ==> x.row in rows && x.row.action == Accept
      requires forall x :: x in l.missed ==> x.row in rows && x.row.action != Accept
      modifies this
      ensures pickedUpList == l.pickedUp && missedList == l.missed
      ensures activeDrops == old(activeDrops) && currentDrop == old(currentDrop) && currentDropEventId == old(currentDropEventId)
      ensures participantList == old(participantList) && events == old(events) && rows == old(rows)
      ensures nextEventId == old(nextEventId) && nextRowId == old(nextRowId)
      ensures Valid()
    {
      pickedUpList := l.pickedUp;
      missedList := l.missed;
    }

    /** The reload on mount: with a user and some queues shown, the window's
        events are read newest first, then their logged decisions newest
        first, and when both are there the two lists are rebuilt from the
        decisions. A failed read leaves everything as it was. */
    method LoadExisting(user: Option<AuthUser>, view: seq<QueueInfo>, window: set<EventId>, fault: Fault)
      requires Valid()
      modifies this
      ensures var recent := RecentEvents(old(events), window);
              var found := RowsOf(old(rows), recent);
              if user.Some? && |view| > 0 && Runs(fault, 0) && |recent| > 0 && Runs(fault, 1) && |found| > 0 then
                var l := Partition(found, recent, view);
                pickedUpList == l.pickedUp && missedList == l.missed
              else pickedUpList == old(pickedUpList) && missedList == old(missedList)
      ensures activeDrops == old(activeDrops) && currentDrop == old(currentDrop) && currentDropEventId == old(currentDropEventId)
      ensures participantList == old(participantList) && events == old(events) && rows == old(rows)
      ensures nextEventId == old(nextEventId) && nextRowId == old(nextRowId)
      ensures Valid()
    {
      if user.None? || |view| == 0 || !Runs(fault, 0) {
        return;
      }
      var recent := RecentEvents(events, window);
      if |recent| == 0 || !Runs(fault, 1) {
        return;
      }
      var found := RowsOf(rows, recent);
      if |found| == 0 {
        return;
      }
      var l := Partition(found, recent, view);
      PartitionRowsFrom(found, recent, view);
      SetLists(l);
    }
  }
}

/** The picked-up and missed lists: the "Drop #" badge, which counts the
    rows of the list that belong to the same drop event, and the action
    badge of the missed list. */
module ResultLists {

  import opened Common
  import opened Seqs
  import opened DropSession

  /** How many rows of the list belong to drop event `k`, counted in the
      order the `reduce` visits them. */
  function Tally(rows: seq<ListedRow>, k: EventId): (r: nat)
    ensures r <= |rows|
    decreases |rows|
  {
    if |rows| == 0 then 0
    else Tally(rows[..|rows| - 1], k) + (if rows[|rows| - 1].row.eventId == k then 1 else 0)
  }

  lemma TallyStep(rows: seq<ListedRow>, i: nat)
    requires i < |rows|
    ensures forall k :: Tally(rows[..i + 1], k) == Tally(rows[..i], k) + (if rows[i].row.eventId == k then 1 else 0)
  {
    assert rows[..i + 1][..i] == rows[..i];
  }

  /** The tally is the number of rows with that event. */
  lemma {:induction false} TallyIsCount(rows: seq<ListedRow>, k: EventId)
    ensures Tally(rows, k) == CountWhere(rows, (p: ListedRow) => p.row.eventId == k)
    decreases |rows|
  {
    if |rows| > 0 {
      var n := |rows| - 1;
      TallyIsCount(rows[..n], k);
      assert rows == rows[..n] + [rows[n]];
      CountWhereAppend(rows[..n], [rows[n]], (p: ListedRow) => p.row.eventId == k);
    }
  }

  /** getDropNumber: the `reduce` fills a count per drop event, then the
      count of `eventId` is read back, `|| 0` for an event with no row. */
  method DropNumber(participants: seq<ListedRow>, eventId: EventId) returns (n: nat)
    ensures n == Tally(participants, eventId)
  {
    var acc: map<EventId, nat> := map[];
    for i := 0 to |participants|
      invariant forall k :: k in acc ==> acc[k] == Tally(participants[..i], k)
      invariant forall k :: k !in acc ==> Tally(participants[..i], k) == 0
    {
      TallyStep(participants, i);
      var k := participants[i].row.eventId;
      acc := acc[k := (if k in acc then acc[k] else 0) + 1];
    }
    assert participants[..|participants|] == participants;
    n := if eventId in acc then acc[eventId] else 0;
  }

  /** The count is 0 exactly when no row of the list has that event. */
  lemma TallyZeroIff(rows: seq<ListedRow>, k: EventId)
    ensures Tally(rows, k) == 0 <==> forall p :: p in rows ==> p.row.eventId != k
  {
    TallyIsCount(rows, k);
  }

  /** Every rendered row's own badge shows at least 1, and never more than
      the list's length. */
  lemma TallyOfRenderedRow(rows: seq<ListedRow>, i: nat)
    requires i < |rows|
    ensures 1 <= Tally(rows, rows[i].row.eventId) <= |rows|
  {
    assert rows[i] in rows;
    TallyIsCount(rows, rows[i].row.eventId);
    TallyZeroIff(rows, rows[i].row.eventId);
  }

  /** The badge does not depend on the order of the list. */
  lemma TallyOrderFree(a: seq<ListedRow>, b: seq<ListedRow>, k: EventId)
    requires multiset(a) == multiset(b)
    ensures Tally(a, k) == Tally(b, k)
  {
    TallyIsCount(a, k);
    TallyIsCount(b, k);
    CountWhereOrderFree(a, b, (p: ListedRow) => p.row.eventId == k);
  }

  /** getActionBadge: "Skipped" for a skip, "Declined" for anything else. */
  function ActionLabel(a: Action): (r: string)
    ensures r == "Skipped" <==> a == Skip
    ensures r == "Declined" <==> a != Skip
  {
    if a == Skip then "Skipped" else "Declined"
  }
}

/** The `sort((a, b) => a.position - b.position)` used wherever queue items
    are shown or drawn, and the status projections built on it. */
module Ordering {

  import opened Common
  import opened Seqs

  predicate PositionOrder(a: QueueEntry, b: QueueEntry)
  {
    a.position <= b.position
  }

  predicate SortedByPosition(s: seq<QueueEntry>)
  {
    forall i, j :: 0 <= i < j < |s| ==> s[i].position <= s[j].position
  }

  /** Places `x` before the first element whose position is not smaller, so
      an element inserted from further left stays ahead of equal positions. */
  function InsertByPosition(x: QueueEntry, s: seq<QueueEntry>): (r: seq<QueueEntry>)
    ensures |r| == |s| + 1
  {
    if |s| == 0 then [x]
    else if x.position <= s[0].position then [x] + s
    else [s[0]] + InsertByPosition(x, s[1..])
  }

  /** Inserting adds exactly `x`. */
  lemma {:induction false} InsertMembers(x: QueueEntry, s: seq<QueueEntry>)
    ensures forall y :: y in InsertByPosition(x, s) <==> y == x || y in s
  {
    if |s| > 0 && x.position > s[0].position {
      assert s == [s[0]] + s[1..];
      InsertMembers(x, s[1..]);
    }
  }

  /** Inserting into an ordered sequence keeps it ordered. */
  lemma {:induction false} InsertKeepsOrder(x: QueueEntry, s: seq<QueueEntry>)
    requires SortedByPosition(s)
    ensures SortedByPosition(InsertByPosition(x, s))
  {
    if |s| > 0 && x.position > s[0].position {
      assert s == [s[0]] + s[1..];
      var rest := InsertByPosition(x, s[1..]);
      InsertKeepsOrder(x, s[1..]);
      InsertMembers(x, s[1..]);
      assert forall y :: y in rest ==> s[0].position <= y.position;
      var r := [s[0]] + rest;
      assert forall j :: 1 <= j < |r| ==> r[j] == rest[j - 1];
    }
  }

  lemma {:induction false} InsertIsPermutation(x: QueueEntry, s: seq<QueueEntry>)
    ensures multiset(InsertByPosition(x, s)) == multiset{x} + multiset(s)
  {
    if |s| > 0 && x.position > s[0].position {
      assert s == [s[0]] + s[1..];
      InsertIsPermutation(x, s[1..]);
    }
  }

  /** JavaScript's stable sort by ascending position, as an insertion sort. */
  function SortByPosition(s: seq<QueueEntry>): (r: seq<QueueEntry>)
    ensures |r| == |s|
  {
    if |s| == 0 then []
    else InsertByPosition(s[0], SortByPosition(s[1..]))
  }

  /** The sorted sequence is ordered and holds exactly the input's elements. */
  lemma {:induction false} SortOrders(s: seq<QueueEntry>)
    ensures SortedByPosition(SortByPosition(s))
    ensures forall y :: y in SortByPosition(s) <==> y in s
  {
    if |s| > 0 {
      assert s == [s[0]] + s[1..];
      SortOrders(s[1..]);
      InsertKeepsOrder(s[0], SortByPosition(s[1..]));
      InsertMembers(s[0], SortByPosition(s[1..]));
    }
  }

  /** The head of the sorted sequence is an input entry of least position. */
  lemma SortedHeadIsLeast(s: seq<QueueEntry>)
    requires |s| > 0
    ensures SortByPosition(s)[0] in s
    ensures forall e :: e in s ==> SortByPosition(s)[0].position <= e.position
  {
    SortOrders(s);
    var r := SortByPosition(s);
    assert r[0] in r;
    forall e | e in s ensures r[0].position <= e.position {
      var k :| 0 <= k < |r| && r[k] == e;
      if k > 0 {
        assert r[0].position <= r[k].position;
      }
    }
  }

  /** No entry of `s` ahead of index `k` that passes `p` has a position as
      low as the one at `k`. */
  predicate EarliestAt(s: seq<QueueEntry>, p: QueueEntry -> bool, k: int)
    requires 0 <= k < |s|
  {
    forall j :: 0 <= j < k && p(s[j]) ==> s[j].position > s[k].position
  }

  /** `s.filter(p).sort(by position)[0]` is, since the sort is stable, the
      first entry of `s` that passes `p` with the least position: every
      passing entry ahead of it lies strictly higher. */
  lemma {:induction false} FilterSortHeadIsEarliest(s: seq<QueueEntry>, p: QueueEntry -> bool)
    requires |Filter(s, p)| > 0
    ensures exists k :: 0 <= k < |s| && s[k] == SortByPosition(Filter(s, p))[0] && EarliestAt(s, p, k)
  {
    var tail := Filter(s[1..], p);
    FilterSortHead(s, p);
    if !(p(s[0]) && (|tail| == 0 || s[0].position <= SortByPosition(tail)[0].position)) {
      FilterSortHeadIsEarliest(s[1..], p);
      var k :| 0 <= k < |s[1..]| && s[1..][k] == SortByPosition(tail)[0] && EarliestAt(s[1..], p, k);
      EarliestShift(s, p, k);
    }
  }

  /** One step of the stable sort of a filter: the head is the first entry
      when it passes and lies no higher than the head of the rest. */
  lemma FilterSortHead(s: seq<QueueEntry>, p: QueueEntry -> bool)
    requires |Filter(s, p)| > 0
    ensures |s| > 0
    ensures var tail := Filter(s[1..], p);
            SortByPosition(Filter(s, p))[0] ==
              if p(s[0]) && (|tail| == 0 || s[0].position <= SortByPosition(tail)[0].position) then s[0]
              else SortByPosition(tail)[0]
  {
    var tail := Filter(s[1..], p);
    if p(s[0]) {
      assert Filter(s, p) == [s[0]] + tail;
      assert ([s[0]] + tail)[1..] == tail;
    } else {
      assert Filter(s, p) == tail;
    }
  }

  /** An earliest index of the tail is one past an earliest index of the
      whole when the first entry passes only with a higher position. */
  lemma EarliestShift(s: seq<QueueEntry>, p: QueueEntry -> bool, k: int)
    requires 0 <= k < |s| - 1 && EarliestAt(s[1..], p, k)
    requires p(s[0]) ==> s[0].position > s[k + 1].position
    ensures s[k + 1] == s[1..][k] && EarliestAt(s, p, k + 1)
  {
    forall j | 0 < j < k + 1 && p(s[j]) ensures s[j].position > s[k + 1].position {
      assert s[j] == s[1..][j - 1];
    }
  }

  /** Sorting is a permutation: every entry keeps its multiplicity. */
  lemma {:induction false} SortIsPermutation(s: seq<QueueEntry>)
    ensures multiset(SortByPosition(s)) == multiset(s)
  {
    if |s| > 0 {
      assert s == [s[0]] + s[1..];
      SortIsPermutation(s[1..]);
      InsertIsPermutation(s[0], SortByPosition(s[1..]));
    }
  }

  /** `items.filter(item => item.status === st).sort(by position)`. */
  function WithStatusSorted(items: seq<QueueEntry>, st: Status): seq<QueueEntry>
  {
    SortByPosition(Filter(items, (e: QueueEntry) => e.status == st))
  }

  /** The projection is ordered by position and holds exactly the entries of
      the status. */
  lemma WithStatusOrdered(items: seq<QueueEntry>, st: Status)
    ensures SortedByPosition(WithStatusSorted(items, st))
    ensures forall x :: x in WithStatusSorted(items, st) <==> x in items && x.status == st
  {
    SortOrders(Filter(items, (e: QueueEntry) => e.status == st));
  }

  /** The projection keeps every entry of the status as often as it occurs
      and no other entry. */
  lemma WithStatusCounts(items: seq<QueueEntry>, st: Status)
    ensures forall x :: multiset(WithStatusSorted(items, st))[x] == if x.status == st then multiset(items)[x] else 0
  {
    FilterMultiset(items, (e: QueueEntry) => e.status == st);
    SortIsPermutation(Filter(items, (e: QueueEntry) => e.status == st));
  }

  lemma {:induction false} InsertKeepsUniqueIds(x: QueueEntry, s: seq<QueueEntry>)
    requires UniqueIds(s)
    requires forall y :: y in s ==> y.id != x.id
    ensures UniqueIds(InsertByPosition(x, s))
  {
    if |s| > 0 && x.position > s[0].position {
      assert s == [s[0]] + s[1..];
      var rest := InsertByPosition(x, s[1..]);
      InsertKeepsUniqueIds(x, s[1..]);
      InsertMembers(x, s[1..]);
      var r := [s[0]] + rest;
      assert InsertByPosition(x, s) == r;
      forall j | 1 <= j < |r| ensures r[j].id != s[0].id {
        assert r[j] == rest[j - 1] && rest[j - 1] in rest;
        if r[j] != x {
          var k :| 0 <= k < |s[1..]| && s[1..][k] == r[j];
          assert s[k + 1] == r[j];
        }
      }
      forall i, j | 0 <= i < j < |r| ensures r[i].id != r[j].id {
        if i > 0 {
          assert r[i] == rest[i - 1] && r[j] == rest[j - 1];
        }
      }
    } else if |s| > 0 {
      var r := [x] + s;
      forall i, j | 0 <= i < j < |r| ensures r[i].id != r[j].id {
        if i > 0 {
          assert r[i] == s[i - 1] && r[j] == s[j - 1];
        } else {
          assert r[j] in s;
        }
      }
    }
  }

  /** Sorting neither merges nor splits entries, so unique ids stay unique. */
  lemma {:induction false} SortKeepsUniqueIds(s: seq<QueueEntry>)
    requires UniqueIds(s)
    ensures UniqueIds(SortByPosition(s))
  {
    if |s| > 0 {
      assert s == [s[0]] + s[1..];
      forall i, j | 0 <= i < j < |s[1..]| ensures s[1..][i].id != s[1..][j].id {
        assert s[1..][i] == s[i + 1] && s[1..][j] == s[j + 1];
      }
      SortKeepsUniqueIds(s[1..]);
      SortOrders(s[1..]);
      forall y | y in SortByPosition(s[1..]) ensures y.id != s[0].id {
        var k :| 0 <= k < |s[1..]| && s[1..][k] == y;
        assert s[k + 1] == y;
      }
      InsertKeepsUniqueIds(s[0], SortByPosition(s[1..]));
    }
  }

  /** The approved (or waiting) projection of a keyed queue is keyed too. */
  lemma WithStatusKeepsUniqueIds(items: seq<QueueEntry>, st: Status)
    requires UniqueIds(items)
    ensures UniqueIds(WithStatusSorted(items, st))
  {
    var keep := (e: QueueEntry) => e.status == st;
    var differ := (a: QueueEntry, b: QueueEntry) => a.id != b.id;
    assert Pairwise(items, differ);
    FilterKeepsPairwise(items, keep, differ);
    var kept := Filter(items, keep);
    assert UniqueIds(kept) by {
      forall i, j | 0 <= i < j < |kept| ensures kept[i].id != kept[j].id {
        assert differ(kept[i], kept[j]);
      }
    }
    SortKeepsUniqueIds(kept);
  }
}

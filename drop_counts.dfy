/** The drop-count editor of the drop input panel: a count per queue, kept
    in the order the queues were first touched, as a JavaScript object keeps
    its keys. */
module DropCounts {

  import opened Common
  import opened Seqs

  /** The entries of the `dropCounts` object. */
  type Counts = seq<(QueueId, int)>

  predicate UniqueKeys(c: Counts)
  {
    forall i, j :: 0 <= i < j < |c| ==> c[i].0 != c[j].0
  }

  predicate NonNegative(c: Counts)
  {
    forall i :: 0 <= i < |c| ==> c[i].1 >= 0
  }

  /** `dropCounts[queueId] || 0`. */
  function GetDropCount(c: Counts, id: QueueId): (r: int)
    ensures (forall e :: e in c ==> e.0 != id) ==> r == 0
    ensures r != 0 ==> (id, r) in c
  {
    if |c| == 0 then 0
    else if c[0].0 == id then c[0].1
    else GetDropCount(c[1..], id)
  }

  /** `Math.max(0, newCount)`. */
  function Clamp(n: int): nat
  {
    if n < 0 then 0 else n
  }

  /** `{ ...prev, [queueId]: clampedCount }`: an existing key keeps its
      place and takes the new value, a new key goes last. */
  function UpdateDropCount(c: Counts, id: QueueId, n: int): (r: Counts)
    ensures |r| == |c| || |r| == |c| + 1
  {
    if |c| == 0 then [(id, Clamp(n))]
    else if c[0].0 == id then [(id, Clamp(n))] + c[1..]
    else [c[0]] + UpdateDropCount(c[1..], id, n)
  }

  /** After an update the queue reads back the clamped count, and every
      other queue reads back what it had. */
  lemma {:induction false} UpdateThenGet(c: Counts, id: QueueId, n: int, other: QueueId)
    requires other != id
    ensures GetDropCount(UpdateDropCount(c, id, n), id) == Clamp(n)
    ensures GetDropCount(UpdateDropCount(c, id, n), other) == GetDropCount(c, other)
  {
    if |c| > 0 && c[0].0 != id {
      UpdateThenGet(c[1..], id, n, other);
    }
  }

  /** `Object.keys(dropCounts)`. */
  function Keys(c: Counts): (r: seq<QueueId>)
    ensures |r| == |c|
  {
    if |c| == 0 then [] else [c[0].0] + Keys(c[1..])
  }

  /** An update adds the key it names when it was missing and no other. */
  lemma {:induction false} UpdateKeys(c: Counts, id: QueueId, n: int)
    ensures forall k :: k in Keys(UpdateDropCount(c, id, n)) <==> k == id || k in Keys(c)
  {
    if |c| > 0 && c[0].0 != id {
      UpdateKeys(c[1..], id, n);
    }
  }

  /** With unique keys, `{ ...prev, [queueId]: n }` keeps every entry in
      its place, gives the queue's own entry the clamped count, and adds an
      entry, at the end, exactly when the queue had none. This order is the
      one the start of the drops walks. */
  lemma {:induction false} UpdateKeepsPlaces(c: Counts, id: QueueId, n: int)
    requires UniqueKeys(c)
    ensures var r := UpdateDropCount(c, id, n);
            && (forall i :: 0 <= i < |c| ==> r[i] == if c[i].0 == id then (id, Clamp(n)) else c[i])
            && (|r| == |c| + 1 <==> forall e :: e in c ==> e.0 != id)
            && (|r| == |c| + 1 ==> r[|c|] == (id, Clamp(n)))
  {
    var r := UpdateDropCount(c, id, n);
    if |c| > 0 {
      if c[0].0 == id {
        assert c[0] in c;
        forall i | 0 < i < |c| ensures r[i] == c[i] {
          assert c[i].0 != id;
        }
      } else {
        assert UniqueKeys(c[1..]);
        UpdateKeepsPlaces(c[1..], id, n);
        var rest := UpdateDropCount(c[1..], id, n);
        assert r == [c[0]] + rest;
        forall i | 0 < i < |c|
          ensures r[i] == if c[i].0 == id then (id, Clamp(n)) else c[i]
        {
          assert r[i] == rest[i - 1] && c[i] == c[1..][i - 1];
        }
        assert forall e :: e in c <==> e == c[0] || e in c[1..];
      }
    }
  }

  /** Updates keep the keys unique. */
  lemma {:induction false} UpdateKeepsUnique(c: Counts, id: QueueId, n: int)
    requires UniqueKeys(c)
    ensures UniqueKeys(UpdateDropCount(c, id, n))
  {
    var r := UpdateDropCount(c, id, n);
    if |c| > 0 && c[0].0 != id {
      var rest := UpdateDropCount(c[1..], id, n);
      assert UniqueKeys(c[1..]);
      UpdateKeepsUnique(c[1..], id, n);
      UpdateKeys(c[1..], id, n);
      UniqueKeysAbsent(c);
      KeysMembers(c[1..]);
      KeysMembers(rest);
      forall j | 0 < j < |r| ensures r[j].0 != c[0].0 {
        assert r[j] == rest[j - 1];
        assert r[j].0 in Keys(rest);
      }
      forall i, j | 0 <= i < j < |r| ensures r[i].0 != r[j].0 {
        if i > 0 {
          assert r[i] == rest[i - 1] && r[j] == rest[j - 1];
        }
      }
    } else if |c| > 0 {
      forall i, j | 0 <= i < j < |r| ensures r[i].0 != r[j].0 {
        assert r[j] == c[j];
        if i > 0 {
          assert r[i] == c[i];
        }
      }
    }
  }

  lemma {:induction false} KeysMembers(c: Counts)
    ensures forall k :: k in Keys(c) <==> exists e :: e in c && e.0 == k
  {
    if |c| > 0 {
      KeysMembers(c[1..]);
      assert forall e :: e in c <==> e == c[0] || e in c[1..];
    }
  }

  /** Counts only ever stored through updates are never negative. */
  lemma {:induction false} UpdateKeepsNonNegative(c: Counts, id: QueueId, n: int)
    requires NonNegative(c)
    ensures NonNegative(UpdateDropCount(c, id, n))
  {
    var r := UpdateDropCount(c, id, n);
    if |c| > 0 && c[0].0 != id {
      var rest := UpdateDropCount(c[1..], id, n);
      assert NonNegative(c[1..]);
      UpdateKeepsNonNegative(c[1..], id, n);
      forall i | 0 <= i < |r| ensures r[i].1 >= 0 {
        if i > 0 {
          assert r[i] == rest[i - 1];
        }
      }
    } else if |c| > 0 {
      forall i | 0 <= i < |r| ensures r[i].1 >= 0 {
        if i > 0 {
          assert r[i] == c[i];
        }
      }
    }
  }

  /** `getTotalDrops`: the sum of every stored count. */
  function TotalDrops(c: Counts): (r: int)
    ensures (forall e :: e in c ==> e.1 >= 0) ==> r >= 0
  {
    if |c| == 0 then 0 else c[0].1 + TotalDrops(c[1..])
  }

  /** With unique keys, the total moves by exactly the change of the one
      count updated. */
  lemma {:induction false} UpdateTotal(c: Counts, id: QueueId, n: int)
    requires UniqueKeys(c)
    ensures TotalDrops(UpdateDropCount(c, id, n)) == TotalDrops(c) - GetDropCount(c, id) + Clamp(n)
  {
    if |c| > 0 {
      assert UniqueKeys(c[1..]);
      if c[0].0 == id {
        UniqueKeysAbsent(c);
        assert [(id, Clamp(n))] + c[1..] == UpdateDropCount(c, id, n);
      } else {
        UpdateTotal(c[1..], id, n);
      }
    }
  }

  /** With unique keys, the first key does not come back in the rest. */
  lemma UniqueKeysAbsent(c: Counts)
    requires UniqueKeys(c) && |c| > 0
    ensures forall e :: e in c[1..] ==> e.0 != c[0].0
  {
    forall e | e in c[1..] ensures e.0 != c[0].0 {
      var k :| 0 <= k < |c[1..]| && c[1..][k] == e;
      assert c[k + 1] == e;
    }
  }

  predicate Positive(e: (QueueId, int))
  {
    e.1 > 0
  }

  /** The reduce in handleStartDrops: the entries with a positive count. */
  function ValidDropCounts(c: Counts): (r: Counts)
    ensures forall e :: e in r <==> e in c && e.1 > 0
  {
    Filter(c, Positive)
  }

  /** The entries kept by the reduce stay in the order of the object. */
  lemma ValidKeepsOrder(c: Counts, i: nat, j: nat)
    requires i < j < |ValidDropCounts(c)|
    ensures exists a, b :: 0 <= a < b < |c| && c[a] == ValidDropCounts(c)[i] && c[b] == ValidDropCounts(c)[j]
  {
    FilterKeepsOrder(c, Positive, i, j);
  }

  /** handleStartDrops: a start is requested exactly when some count is
      positive, and it carries exactly the positive entries. */
  function HandleStartDrops(c: Counts): (r: Option<Counts>)
    ensures r.None? <==> forall e :: e in c ==> e.1 <= 0
    ensures r.Some? ==> forall e :: e in r.value <==> e in c && e.1 > 0
    ensures r.Some? ==> r.value == ValidDropCounts(c)
  {
    var valid := ValidDropCounts(c);
    if |valid| > 0 then
      assert valid[0] in valid;
      Some(valid)
    else None
  }
}

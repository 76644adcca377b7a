/** The participant selection panel: the names offered for the drops, the
    search box over them and the set of names the master keeps selected. */
module Participants {

  import opened Common
  import opened Seqs
  import opened Text

  predicate NoDups(s: seq<string>)
  {
    forall i, j :: 0 <= i < j < |s| ==> s[i] != s[j]
  }

  // ---------------------------------------------------------------------
  // The order of `sort()` without a comparator
  // ---------------------------------------------------------------------

  /** `a` sorts before `b`: character by character, a proper prefix first. */
  predicate Before(a: string, b: string)
    decreases |a|
  {
    if |a| == 0 then |b| > 0
    else if |b| == 0 then false
    else if a[0] != b[0] then a[0] < b[0]
    else Before(a[1..], b[1..])
  }

  lemma {:induction false} BeforeIrreflexive(a: string)
    ensures !Before(a, a)
  {
    if |a| > 0 {
      BeforeIrreflexive(a[1..]);
    }
  }

  lemma {:induction false} BeforeTransitive(a: string, b: string, c: string)
    requires Before(a, b) && Before(b, c)
    ensures Before(a, c)
  {
    if |a| > 0 && a[0] == b[0] && b[0] == c[0] {
      BeforeTransitive(a[1..], b[1..], c[1..]);
    }
  }

  lemma {:induction false} BeforeTotal(a: string, b: string)
    requires a != b
    ensures Before(a, b) || Before(b, a)
  {
    if |a| > 0 && |b| > 0 && a[0] == b[0] {
      assert a == [a[0]] + a[1..] && b == [b[0]] + b[1..];
      BeforeTotal(a[1..], b[1..]);
    }
  }

  /** Strictly increasing in the sort order. */
  predicate Ascending(s: seq<string>)
  {
    forall i, j :: 0 <= i < j < |s| ==> Before(s[i], s[j])
  }

  lemma AscendingNoDups(s: seq<string>)
    requires Ascending(s)
    ensures NoDups(s)
  {
    forall i, j | 0 <= i < j < |s| ensures s[i] != s[j] {
      BeforeIrreflexive(s[i]);
    }
  }

  /** Puts `x` after the names that sort before it. */
  function InsertName(x: string, s: seq<string>): (r: seq<string>)
    ensures |r| == |s| + 1
  {
    if |s| == 0 then [x]
    else if Before(s[0], x) then [s[0]] + InsertName(x, s[1..])
    else [x] + s
  }

  /** `Array.from(userSet).sort()`. */
  function SortNames(s: seq<string>): (r: seq<string>)
    ensures |r| == |s|
  {
    if |s| == 0 then [] else InsertName(s[|s| - 1], SortNames(s[..|s| - 1]))
  }

  lemma {:induction false} InsertMultiset(x: string, s: seq<string>)
    ensures multiset(InsertName(x, s)) == multiset(s) + multiset{x}
  {
    if |s| > 0 && Before(s[0], x) {
      InsertMultiset(x, s[1..]);
      assert s == [s[0]] + s[1..];
    }
  }

  lemma {:induction false} InsertAscending(x: string, s: seq<string>)
    requires Ascending(s) && x !in s
    ensures Ascending(InsertName(x, s))
  {
    if |s| > 0 {
      if Before(s[0], x) {
        assert Ascending(s[1..]);
        InsertAscending(x, s[1..]);
        InsertBehindHead(x, s);
      } else {
        InsertInFront(x, s);
      }
    }
  }

  /** A name after the head goes into the tail, which stays above the head. */
  lemma InsertBehindHead(x: string, s: seq<string>)
    requires Ascending(s) && |s| > 0 && Before(s[0], x)
    requires Ascending(InsertName(x, s[1..]))
    ensures Ascending(InsertName(x, s))
  {
    var r := InsertName(x, s);
    var rest := InsertName(x, s[1..]);
    assert r == [s[0]] + rest;
    InsertMultiset(x, s[1..]);
    forall j | 0 <= j < |rest| ensures Before(s[0], rest[j]) {
      assert rest[j] in multiset(rest);
      if rest[j] != x {
        var k :| 0 <= k < |s[1..]| && s[1..][k] == rest[j];
        assert s[k + 1] == rest[j];
      }
    }
    ConsAscending(s[0], rest);
  }

  /** A name below every name of an ascending list can go in front of it. */
  lemma ConsAscending(h: string, t: seq<string>)
    requires Ascending(t) && forall j :: 0 <= j < |t| ==> Before(h, t[j])
    ensures Ascending([h] + t)
  {
    var r := [h] + t;
    forall i, j | 0 <= i < j < |r| ensures Before(r[i], r[j]) {
      assert r[j] == t[j - 1];
      if i > 0 {
        assert r[i] == t[i - 1];
      }
    }
  }

  /** A new name not after the head goes in front of it. */
  lemma InsertInFront(x: string, s: seq<string>)
    requires Ascending(s) && x !in s && |s| > 0 && !Before(s[0], x)
    ensures Ascending(InsertName(x, s))
  {
    var r := InsertName(x, s);
    assert r == [x] + s;
    assert x != s[0];
    BeforeTotal(x, s[0]);
    forall i, j | 0 <= i < j < |r| ensures Before(r[i], r[j]) {
      if i == 0 {
        if j > 1 {
          BeforeTransitive(x, s[0], s[j - 1]);
        }
      } else {
        assert r[i] == s[i - 1] && r[j] == s[j - 1];
      }
    }
  }

  /** Sorting keeps every name with its multiplicity and, on distinct names,
      lists them strictly increasing. */
  lemma {:induction false} SortNamesSorts(s: seq<string>)
    ensures multiset(SortNames(s)) == multiset(s)
    ensures NoDups(s) ==> Ascending(SortNames(s))
  {
    if |s| > 0 {
      var init := s[..|s| - 1];
      var x := s[|s| - 1];
      SortNamesSorts(init);
      InsertMultiset(x, SortNames(init));
      assert s == init + [x];
      if NoDups(s) {
        assert x !in init by {
          forall k | 0 <= k < |init| ensures init[k] != x {
            assert init[k] == s[k];
          }
        }
        assert x !in multiset(SortNames(init));
        InsertAscending(x, SortNames(init));
      }
    }
  }

  // ---------------------------------------------------------------------
  // The names offered
  // ---------------------------------------------------------------------

  /** Queue `q` holds an approved item carrying the name `u`. */
  predicate ApprovedName(q: QueueInfo, u: string)
  {
    exists e :: e in q.items && e.status == Approved && e.name == u
  }

  /** The queue with id `id` is in the view and has `u` approved. */
  predicate OfferedBy(view: seq<QueueInfo>, id: QueueId, u: string)
  {
    var q := FindQueue(view, id);
    q.Some? && ApprovedName(q.value, u)
  }

  /** One of the first `n` keys offers `u`. */
  predicate OfferedUpTo(view: seq<QueueInfo>, keys: seq<QueueId>, n: nat, u: string)
    requires n <= |keys|
  {
    exists k :: 0 <= k < n && OfferedBy(view, keys[k], u)
  }

  /** `u` is approved in a queue that has a drop count. */
  predicate Offered(view: seq<QueueInfo>, keys: seq<QueueId>, u: string)
  {
    OfferedUpTo(view, keys, |keys|, u)
  }

  /** One of the first `m` items is approved and carries `u`. */
  predicate ApprovedBefore(items: seq<QueueEntry>, m: nat, u: string)
    requires m <= |items|
  {
    exists i :: 0 <= i < m && items[i].status == Approved && items[i].name == u
  }

  lemma ApprovedBeforeStep(items: seq<QueueEntry>, m: nat)
    requires m < |items|
    ensures forall u :: ApprovedBefore(items, m + 1, u) <==>
              ApprovedBefore(items, m, u) || (items[m].status == Approved && items[m].name == u)
  {
    if items[m].status == Approved {
      assert ApprovedBefore(items, m + 1, items[m].name);
    }
  }

  lemma ApprovedBeforeAll(q: QueueInfo)
    ensures forall u :: ApprovedBefore(q.items, |q.items|, u) <==> ApprovedName(q, u)
  {
    forall u | ApprovedName(q, u) ensures ApprovedBefore(q.items, |q.items|, u) {
      var e :| e in q.items && e.status == Approved && e.name == u;
      var i :| 0 <= i < |q.items| && q.items[i] == e;
    }
  }

  lemma OfferedUpToStep(view: seq<QueueInfo>, keys: seq<QueueId>, k: nat)
    requires k < |keys|
    ensures forall u :: OfferedUpTo(view, keys, k + 1, u) <==>
              OfferedUpTo(view, keys, k, u) || OfferedBy(view, keys[k], u)
  {
  }

  /** The `availableUsers` memo: every name approved in a queue that has a
      drop count, once each (the `Set`), sorted. */
  method AvailableUsers(view: seq<QueueInfo>, keys: seq<QueueId>) returns (users: seq<string>)
    ensures Ascending(users)
    ensures forall u :: u in users <==> Offered(view, keys, u)
  {
    var userSet: seq<string> := [];
    for k := 0 to |keys|
      invariant NoDups(userSet)
      invariant forall u :: u in userSet <==> OfferedUpTo(view, keys, k, u)
    {
      OfferedUpToStep(view, keys, k);
      var queue := FindQueue(view, keys[k]);
      if queue.Some? {
        var items := queue.value.items;
        for m := 0 to |items|
          invariant NoDups(userSet)
          invariant forall u :: u in userSet <==> OfferedUpTo(view, keys, k, u) || ApprovedBefore(items, m, u)
        {
          ApprovedBeforeStep(items, m);
          if items[m].status == Approved && items[m].name !in userSet {
            userSet := userSet + [items[m].name];
          }
        }
        ApprovedBeforeAll(queue.value);
      }
    }
    SortNamesSorts(userSet);
    users := SortNames(userSet);
    assert forall u :: u in users <==> u in multiset(userSet);
  }

  // ---------------------------------------------------------------------
  // Search
  // ---------------------------------------------------------------------

  /** `user.toLowerCase().includes(searchTerm.toLowerCase())`. */
  predicate Matches(term: string, u: string)
    ensures term == "" ==> Matches(term, u)
  {
    Includes(Lower(u), Lower(term))
  }

  /** `filteredUsers`: the offered names matching the search, in order. */
  function FilteredUsers(available: seq<string>, term: string): (r: seq<string>)
    ensures forall u :: u in r <==> u in available && Matches(term, u)
  {
    Filter(available, (u: string) => Matches(term, u))
  }

  /** The search keeps the sorted order, and an empty search shows every
      name. */
  lemma FilteredUsersOrder(available: seq<string>, term: string)
    requires Ascending(available)
    ensures Ascending(FilteredUsers(available, term))
    ensures term == "" ==> FilteredUsers(available, term) == available
  {
    var p := (u: string) => Matches(term, u);
    assert Pairwise(available, Before);
    FilterKeepsPairwise(available, p, Before);
    var r := FilteredUsers(available, term);
    assert Pairwise(r, Before);
    if term == "" {
      FilterAllPass(available, p);
    }
  }

  // ---------------------------------------------------------------------
  // Selection
  // ---------------------------------------------------------------------

  /** `Set.prototype.delete`: the others stay in their order. */
  function Remove(s: seq<string>, u: string): (r: seq<string>)
    ensures forall x :: x in r <==> x in s && x != u
  {
    if |s| == 0 then []
    else if s[0] == u then Remove(s[1..], u)
    else [s[0]] + Remove(s[1..], u)
  }

  lemma {:induction false} RemoveKeepsNoDups(s: seq<string>, u: string)
    requires NoDups(s)
    ensures NoDups(Remove(s, u))
  {
    if |s| > 0 {
      assert NoDups(s[1..]);
      RemoveKeepsNoDups(s[1..], u);
      if s[0] != u {
        var rest := Remove(s[1..], u);
        var r := [s[0]] + rest;
        assert s[0] !in s[1..];
        forall i, j | 0 <= i < j < |r| ensures r[i] != r[j] {
          assert r[j] == rest[j - 1];
          if i > 0 {
            assert r[i] == rest[i - 1];
          }
        }
      }
    }
  }

  /** Removing a name that is not there changes nothing. */
  lemma {:induction false} RemoveAbsent(s: seq<string>, u: string)
    requires u !in s
    ensures Remove(s, u) == s
  {
    if |s| > 0 {
      RemoveAbsent(s[1..], u);
      assert s == [s[0]] + s[1..];
    }
  }

  /** handleUserToggle: a selected name is dropped, any other is added last. */
  function Toggle(selected: seq<string>, u: string): (r: seq<string>)
    ensures u in r <==> u !in selected
    ensures forall x :: x != u ==> (x in r <==> x in selected)
  {
    if u in selected then Remove(selected, u) else selected + [u]
  }

  /** A toggle flips the toggled name and no other, and keeps the selection
      free of repeats. */
  lemma ToggleFlips(selected: seq<string>, u: string)
    requires NoDups(selected)
    ensures forall x :: x in Toggle(selected, u) <==> (if x == u then u !in selected else x in selected)
    ensures NoDups(Toggle(selected, u))
  {
    if u in selected {
      RemoveKeepsNoDups(selected, u);
    }
  }

  /** Toggling a name twice gives the selection back: the same names, and
      the very same sequence when the name was not selected. */
  lemma ToggleTwice(selected: seq<string>, u: string)
    requires NoDups(selected)
    ensures forall x :: x in Toggle(Toggle(selected, u), u) <==> x in selected
    ensures u !in selected ==> Toggle(Toggle(selected, u), u) == selected
  {
    ToggleFlips(selected, u);
    ToggleFlips(Toggle(selected, u), u);
    if u !in selected {
      RemoveAppended(selected, u);
    }
  }

  lemma {:induction false} RemoveAppended(s: seq<string>, u: string)
    requires u !in s
    ensures Remove(s + [u], u) == s
  {
    if |s| == 0 {
      assert [u][1..] == [];
    } else {
      assert (s + [u])[1..] == s[1..] + [u];
      RemoveAppended(s[1..], u);
      assert s == [s[0]] + s[1..];
    }
  }

  /** The panel's state: the names offered and the names selected. */
  class Panel {
    var available: seq<string>
    var selected: seq<string>

    ghost predicate Valid()
      reads this
    {
      Ascending(available) && NoDups(selected)
    }

    /** Mounting: the offered names are computed and, by the effect on
        `availableUsers`, all of them start selected. */
    constructor (view: seq<QueueInfo>, keys: seq<QueueId>)
      ensures Valid()
      ensures forall u :: u in available <==> Offered(view, keys, u)
      ensures selected == available
    {
      var users := AvailableUsers(view, keys);
      AscendingNoDups(users);
      available := users;
      selected := users;
    }

    method ToggleUser(u: string)
      requires Valid()
      modifies this
      ensures Valid()
      ensures available == old(available)
      ensures selected == Toggle(old(selected), u)
    {
      ToggleFlips(selected, u);
      selected := Toggle(selected, u);
    }

    /** handleSelectAll. */
    method SelectAll()
      requires Valid()
      modifies this
      ensures Valid()
      ensures available == old(available) && selected == available
    {
      AscendingNoDups(available);
      selected := available;
    }

    /** handleDeselectAll. */
    method DeselectAll()
      requires Valid()
      modifies this
      ensures Valid()
      ensures available == old(available) && selected == []
    {
      selected := [];
    }

    /** handleConfirm behind the button that is disabled while nothing is
        selected: the selection, in the order the names were selected. */
    method Confirm() returns (emitted: Option<seq<string>>)
      requires Valid()
      ensures emitted.None? <==> |selected| == 0
      ensures emitted.Some? ==> NoDups(emitted.value) && emitted.value == selected
    {
      if |selected| == 0 {
        return None;
      }
      emitted := Some(selected);
    }
  }
}

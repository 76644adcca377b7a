/** Generic sequence operations behind the `filter`, `slice`, `some`,
    `sort(...)[0]` and `reduce` expressions of the screens. */
module Seqs {

  import opened Common

  /** `s.filter(p)`: keeps the elements satisfying `p`, in order. */
  function Filter<T(==,!new)>(s: seq<T>, p: T -> bool): (r: seq<T>)
    ensures |r| <= |s|
    ensures forall x :: x in r <==> x in s && p(x)
  {
    if |s| == 0 then []
    else
      assert s == [s[0]] + s[1..];
      (if p(s[0]) then [s[0]] else []) + Filter(s[1..], p)
  }

  /** A filter every element passes changes nothing. */
  lemma {:induction false} FilterAllPass<T(!new)>(s: seq<T>, p: T -> bool)
    requires forall x :: x in s ==> p(x)
    ensures Filter(s, p) == s
  {
    if |s| > 0 {
      FilterAllPass(s[1..], p);
      assert s == [s[0]] + s[1..];
    }
  }

  /** Filtering keeps every kept element with its multiplicity. */
  lemma {:induction false} FilterMultiset<T(!new)>(s: seq<T>, p: T -> bool)
    ensures forall x :: multiset(Filter(s, p))[x] == if p(x) then multiset(s)[x] else 0
  {
    if |s| > 0 {
      FilterMultiset(s[1..], p);
      assert s == [s[0]] + s[1..];
      assert multiset(s) == multiset{s[0]} + multiset(s[1..]);
    }
  }

  /** Filtering keeps the relative order of the kept elements: two of them
      appear in the input in the order they appear in the output. */
  lemma {:induction false} FilterKeepsOrder<T(!new)>(s: seq<T>, p: T -> bool, i: nat, j: nat)
    requires i < j < |Filter(s, p)|
    ensures exists a, b :: 0 <= a < b < |s| && s[a] == Filter(s, p)[i] && s[b] == Filter(s, p)[j]
  {
    var tail := Filter(s[1..], p);
    var r := Filter(s, p);
    if p(s[0]) && i == 0 {
      assert r == [s[0]] + tail;
      assert r[j] == tail[j - 1] && tail[j - 1] in tail;
      var b :| 0 <= b < |s[1..]| && s[1..][b] == r[j];
      assert s[0] == r[0] && s[b + 1] == r[j];
    } else {
      var d := if p(s[0]) then 1 else 0;
      assert r == (if p(s[0]) then [s[0]] else []) + tail;
      assert r[i] == tail[i - d] && r[j] == tail[j - d];
      FilterKeepsOrder(s[1..], p, i - d, j - d);
      var a, b :| 0 <= a < b < |s[1..]| && s[1..][a] == tail[i - d] && s[1..][b] == tail[j - d];
      assert s[a + 1] == r[i] && s[b + 1] == r[j];
    }
  }

  /** `rel` holds of every pair taken in sequence order. */
  ghost predicate Pairwise<T(!new)>(s: seq<T>, rel: (T, T) -> bool)
  {
    forall i, j :: 0 <= i < j < |s| ==> rel(s[i], s[j])
  }

  /** Filtering keeps the relative order of the kept elements, so every
      pairwise property (sortedness, distinctness) survives it. */
  lemma {:induction false} FilterKeepsPairwise<T(!new)>(s: seq<T>, p: T -> bool, rel: (T, T) -> bool)
    requires Pairwise(s, rel)
    ensures Pairwise(Filter(s, p), rel)
  {
    if |s| > 0 {
      TailKeepsPairwise(s, rel);
      FilterKeepsPairwise(s[1..], p, rel);
      var tail := Filter(s[1..], p);
      if p(s[0]) {
        var r := [s[0]] + tail;
        assert Filter(s, p) == r;
        forall i, j | 0 <= i < j < |r| ensures rel(r[i], r[j]) {
          if i == 0 {
            assert r[j] == tail[j - 1];
            assert r[j] in s[1..];
            HeadRelatesToTail(s, rel, r[j]);
          } else {
            assert r[i] == tail[i - 1] && r[j] == tail[j - 1];
          }
        }
      } else {
        assert Filter(s, p) == tail;
      }
    }
  }

  lemma TailKeepsPairwise<T(!new)>(s: seq<T>, rel: (T, T) -> bool)
    requires Pairwise(s, rel) && |s| > 0
    ensures Pairwise(s[1..], rel)
  {
    forall i, j | 0 <= i < j < |s[1..]| ensures rel(s[1..][i], s[1..][j]) {
      assert s[1..][i] == s[i + 1] && s[1..][j] == s[j + 1];
    }
  }

  lemma HeadRelatesToTail<T(!new)>(s: seq<T>, rel: (T, T) -> bool, y: T)
    requires Pairwise(s, rel) && |s| > 0 && y in s[1..]
    ensures rel(s[0], y)
  {
    var k :| 0 <= k < |s[1..]| && s[1..][k] == y;
    assert s[k + 1] == y;
  }

  /** Every prefix keeps a pairwise property. */
  lemma PrefixKeepsPairwise<T(!new)>(s: seq<T>, n: nat, rel: (T, T) -> bool)
    requires Pairwise(s, rel) && n <= |s|
    ensures Pairwise(s[..n], rel)
  {
    forall i, j | 0 <= i < j < n ensures rel(s[..n][i], s[..n][j]) {
      assert s[..n][i] == s[i] && s[..n][j] == s[j];
    }
  }

  /** `s.slice(0, n)` for a non-negative `n`. */
  function Take<T(==,!new)>(s: seq<T>, n: nat): (r: seq<T>)
    ensures |r| == if n <= |s| then n else |s|
    ensures forall i :: 0 <= i < |r| ==> r[i] == s[i]
  {
    if n <= |s| then s[..n] else s
  }

  /** `s.some(p)`. */
  predicate Any<T(==,!new)>(s: seq<T>, p: T -> bool)
  {
    exists x :: x in s && p(x)
  }

  /** Number of elements satisfying `p`. */
  function CountWhere<T(==,!new)>(s: seq<T>, p: T -> bool): (n: nat)
    ensures n <= |s|
    ensures n == 0 <==> forall x :: x in s ==> !p(x)
  {
    if |s| == 0 then 0
    else (if p(s[0]) then 1 else 0) + CountWhere(s[1..], p)
  }

  lemma {:induction false} CountWhereIsFilterLength<T(!new)>(s: seq<T>, p: T -> bool)
    ensures CountWhere(s, p) == |Filter(s, p)|
  {
    if |s| > 0 {
      CountWhereIsFilterLength(s[1..], p);
    }
  }

  lemma {:induction false} CountWhereAppend<T(!new)>(a: seq<T>, b: seq<T>, p: T -> bool)
    ensures CountWhere(a + b, p) == CountWhere(a, p) + CountWhere(b, p)
  {
    if |a| == 0 {
      assert a + b == b;
    } else {
      assert (a + b)[1..] == a[1..] + b;
      CountWhereAppend(a[1..], b, p);
    }
  }

  /** The count of `p` depends only on the multiset of elements. */
  lemma CountWhereOrderFree<T(!new)>(a: seq<T>, b: seq<T>, p: T -> bool)
    requires multiset(a) == multiset(b)
    ensures CountWhere(a, p) == CountWhere(b, p)
  {
    FilterMultiset(a, p);
    FilterMultiset(b, p);
    assert multiset(Filter(a, p)) == multiset(Filter(b, p));
    CountWhereIsFilterLength(a, p);
    CountWhereIsFilterLength(b, p);
    assert |Filter(a, p)| == |multiset(Filter(a, p))|;
    assert |Filter(b, p)| == |multiset(Filter(b, p))|;
  }

  /** `s.find(p)`: the first element satisfying `p`, if any. */
  function Find<T(==,!new)>(s: seq<T>, p: T -> bool): (r: Option<T>)
    ensures r.None? <==> forall x :: x in s ==> !p(x)
    ensures r.Some? ==> r.value in s && p(r.value)
    ensures r.Some? ==> exists k :: 0 <= k < |s| && s[k] == r.value && forall j :: 0 <= j < k ==> !p(s[j])
  {
    if |s| == 0 then None
    else if p(s[0]) then Some(s[0])
    else
      var r := Find(s[1..], p);
      if r.Some? then
        ghost var k :| 0 <= k < |s[1..]| && s[1..][k] == r.value && forall j :: 0 <= j < k ==> !p(s[1..][j]);
        assert s[k + 1] == r.value;
        r
      else
        assert forall x :: x in s ==> x == s[0] || x in s[1..];
        r
  }

  lemma {:induction false} FilterAppend<T(!new)>(a: seq<T>, b: seq<T>, p: T -> bool)
    ensures Filter(a + b, p) == Filter(a, p) + Filter(b, p)
  {
    if |a| == 0 {
      assert a + b == b;
    } else {
      assert (a + b)[1..] == a[1..] + b;
      FilterAppend(a[1..], b, p);
    }
  }
}

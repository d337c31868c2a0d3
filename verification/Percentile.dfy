/**
  The nearest-rank 95th percentile that both smoke runners report, and why the largest
  per-camera percentile bounds the percentile of all samples pooled.
 */
module Percentile {

  ghost predicate Ascending(s: seq<nat>) {
    forall i, j :: 0 <= i < j < |s| ==> s[i] <= s[j]
  }

  function Insert(x: nat, s: seq<nat>): (r: seq<nat>)
    ensures |r| == |s| + 1
  {
    if s == [] || x <= s[0] then [x] + s else [s[0]] + Insert(x, s[1..])
  }

  /** Sorts a copy, as the runners do before they index. */
  function SortAscending(s: seq<nat>): (r: seq<nat>)
    ensures |r| == |s|
  {
    if s == [] then [] else Insert(s[0], SortAscending(s[1..]))
  }

  lemma {:induction false} InsertElements(x: nat, s: seq<nat>)
    ensures multiset(Insert(x, s)) == multiset(s) + multiset{x}
  {
    if !(s == [] || x <= s[0]) {
      InsertElements(x, s[1..]);
      assert s == [s[0]] + s[1..];
    }
  }

  lemma {:induction false} InsertBoundedBelow(x: nat, s: seq<nat>, low: nat)
    requires low <= x && forall i :: 0 <= i < |s| ==> low <= s[i]
    ensures forall i :: 0 <= i < |Insert(x, s)| ==> low <= Insert(x, s)[i]
  {
    if !(s == [] || x <= s[0]) {
      InsertBoundedBelow(x, s[1..], low);
    }
  }

  lemma {:induction false} InsertAscending(x: nat, s: seq<nat>)
    requires Ascending(s)
    ensures Ascending(Insert(x, s))
  {
    if !(s == [] || x <= s[0]) {
      InsertAscending(x, s[1..]);
      InsertBoundedBelow(x, s[1..], s[0]);
    }
  }

  lemma {:induction false} SortAscendingSorts(s: seq<nat>)
    ensures Ascending(SortAscending(s))
    ensures multiset(SortAscending(s)) == multiset(s)
  {
    if s != [] {
      var rest := SortAscending(s[1..]);
      SortAscendingSorts(s[1..]);
      InsertAscending(s[0], rest);
      InsertElements(s[0], rest);
      assert s == [s[0]] + s[1..];
    }
  }

  /** ceil(0.95 * n), exactly. */
  function Rank(n: nat): nat {
    (95 * n + 99) / 100
  }

  function P95(values: seq<nat>): nat {
    if values == [] then 0
    else
      var sorted := SortAscending(values);
      var rank := Rank(|sorted|);
      var index := if rank == 0 then 0 else rank - 1;
      sorted[if index < |sorted| - 1 then index else |sorted| - 1]
  }

  /** How many samples do not exceed `bound`. */
  function CountAtMost(values: seq<nat>, bound: nat): nat {
    if values == [] then 0
    else (if values[0] <= bound then 1 else 0) + CountAtMost(values[1..], bound)
  }

  function CountIn(m: multiset<nat>, bound: nat): nat {
    if bound == 0 then m[0] else CountIn(m, bound - 1) + m[bound]
  }

  lemma {:induction false} CountInAdd(m: multiset<nat>, x: nat, bound: nat)
    ensures CountIn(m + multiset{x}, bound) == CountIn(m, bound) + if x <= bound then 1 else 0
  {
    if bound > 0 {
      CountInAdd(m, x, bound - 1);
    }
  }

  lemma {:induction false} CountInEmpty(bound: nat)
    ensures CountIn(multiset{}, bound) == 0
  {
    if bound > 0 {
      CountInEmpty(bound - 1);
    }
  }

  /** Counting depends on the samples only, not on their order. */
  lemma {:induction false} CountAtMostIsCountIn(values: seq<nat>, bound: nat)
    ensures CountAtMost(values, bound) == CountIn(multiset(values), bound)
  {
    if values == [] {
      CountInEmpty(bound);
    } else {
      assert values == [values[0]] + values[1..];
      assert multiset(values) == multiset(values[1..]) + multiset{values[0]};
      CountAtMostIsCountIn(values[1..], bound);
      CountInAdd(multiset(values[1..]), values[0], bound);
    }
  }

  lemma {:induction false} CountAtMostAppend(a: seq<nat>, b: seq<nat>, bound: nat)
    ensures CountAtMost(a + b, bound) == CountAtMost(a, bound) + CountAtMost(b, bound)
  {
    if a == [] {
      assert a + b == b;
    } else {
      assert (a + b)[1..] == a[1..] + b;
      CountAtMostAppend(a[1..], b, bound);
    }
  }

  /** In a sorted sequence the samples up to `bound` are a prefix. */
  lemma {:induction false} CountAtMostSorted(s: seq<nat>, bound: nat, k: nat)
    requires Ascending(s) && k < |s|
    ensures s[k] <= bound <==> CountAtMost(s, bound) > k
    ensures CountAtMost(s, bound) <= |s|
  {
    if k == 0 {
      if s[0] > bound {
        NoneAtMost(s, bound);
      }
      if |s| > 1 {
        CountAtMostSorted(s[1..], bound, 0);
      }
    } else {
      CountAtMostSorted(s[1..], bound, k - 1);
      if s[0] > bound {
        NoneAtMost(s, bound);
      }
    }
  }

  lemma {:induction false} NoneAtMost(s: seq<nat>, bound: nat)
    requires forall i :: 0 <= i < |s| ==> s[i] > bound
    ensures CountAtMost(s, bound) == 0
  {
    if s != [] {
      NoneAtMost(s[1..], bound);
    }
  }

  /** A bound on the percentile is a count of samples within the bound. */
  lemma P95AtMost(values: seq<nat>, bound: nat)
    ensures P95(values) <= bound <==> CountAtMost(values, bound) >= Rank(|values|)
  {
    if values != [] {
      var sorted := SortAscending(values);
      SortAscendingSorts(values);
      var k := Rank(|values|) - 1;
      assert P95(values) == sorted[k];
      CountAtMostSorted(sorted, bound, k);
      CountAtMostIsCountIn(values, bound);
      CountAtMostIsCountIn(sorted, bound);
    }
  }

  /** The rank is the least number that is at least 95 percent. */
  lemma RankIsCeiling(n: nat, k: nat)
    ensures k >= Rank(n) <==> 100 * k >= 95 * n
  {
  }

  /** `v` is the least value that at least 95 percent of the samples do not exceed. */
  ghost predicate IsNearestRank(values: seq<nat>, v: nat) {
    && 100 * CountAtMost(values, v) >= 95 * |values|
    && forall w: nat :: 100 * CountAtMost(values, w) >= 95 * |values| ==> v <= w
  }

  /** What `P95` means: it is a sample, and it is the only nearest-rank percentile. */
  lemma P95IsNearestRank(values: seq<nat>)
    requires values != []
    ensures P95(values) in values
    ensures forall v: nat :: IsNearestRank(values, v) <==> v == P95(values)
  {
    SortAscendingSorts(values);
    assert P95(values) in multiset(SortAscending(values));
    forall w: nat ensures P95(values) <= w <==> 100 * CountAtMost(values, w) >= 95 * |values| {
      P95AtMost(values, w);
      RankIsCeiling(|values|, CountAtMost(values, w));
    }
    assert IsNearestRank(values, P95(values));
  }

  lemma P95NotAbove(a: seq<nat>, b: seq<nat>)
    requires multiset(a) == multiset(b)
    ensures P95(a) <= P95(b)
  {
    assert |multiset(a)| == |a| && |multiset(b)| == |b|;
    P95AtMost(a, P95(b));
    P95AtMost(b, P95(b));
    CountAtMostIsCountIn(a, P95(b));
    CountAtMostIsCountIn(b, P95(b));
  }

  /** The percentile does not depend on the order of the samples. */
  lemma P95OrderIndependent(a: seq<nat>, b: seq<nat>)
    requires multiset(a) == multiset(b)
    ensures P95(a) == P95(b)
  {
    P95NotAbove(a, b);
    P95NotAbove(b, a);
  }

  function Pool(groups: seq<seq<nat>>): seq<nat> {
    if groups == [] then [] else groups[0] + Pool(groups[1..])
  }

  /** If no group's percentile exceeds `bound`, neither does the percentile of the pool: the
      ranks of the groups add up to at least the rank of the pool. */
  lemma {:induction false} PooledP95(groups: seq<seq<nat>>, bound: nat)
    requires forall i :: 0 <= i < |groups| ==> P95(groups[i]) <= bound
    ensures P95(Pool(groups)) <= bound
  {
    if groups != [] {
      PooledP95(groups[1..], bound);
      P95AtMost(groups[0], bound);
      P95AtMost(Pool(groups[1..]), bound);
      CountAtMostAppend(groups[0], Pool(groups[1..]), bound);
      P95AtMost(Pool(groups), bound);
    }
  }

  /** The bound is one-sided: a slow camera can hide in the pool. */
  lemma PooledP95MayHideACamera() returns (groups: seq<seq<nat>>)
    ensures exists i :: 0 <= i < |groups| && P95(groups[i]) >= 5000
    ensures P95(Pool(groups)) < 5000
  {
    var fast := seq(19, _ => 1);
    groups := [fast, [5000]];
    P95AtMost([5000], 4999);
    assert P95(groups[1]) >= 5000;
    assert Pool(groups) == fast + [5000] by {
      assert groups[1..] == [[5000]];
      assert Pool([[5000]]) == [5000] + Pool([]);
    }
    AllAtMost(fast, 1);
    CountAtMostAppend(fast, [5000], 1);
    P95AtMost(Pool(groups), 1);
  }

  lemma {:induction false} AllAtMost(s: seq<nat>, bound: nat)
    requires forall i :: 0 <= i < |s| ==> s[i] <= bound
    ensures CountAtMost(s, bound) == |s|
  {
    if s != [] {
      AllAtMost(s[1..], bound);
    }
  }
}

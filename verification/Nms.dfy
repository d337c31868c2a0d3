/** Intersection over union of boxes and greedy non-maximum suppression. */
module Nms {
  import opened Letterbox

  datatype Box = Box(x1: real, y1: real, x2: real, y2: real)

  function Area(b: Box): real {
    RMax(0.0, b.x2 - b.x1) * RMax(0.0, b.y2 - b.y1)
  }

  function Intersection(a: Box, b: Box): real {
    var width := RMax(0.0, RMin(a.x2, b.x2) - RMax(a.x1, b.x1));
    var height := RMax(0.0, RMin(a.y2, b.y2) - RMax(a.y1, b.y1));
    width * height
  }

  function Iou(a: Box, b: Box): real {
    var inter := Intersection(a, b);
    inter / RMax(Area(a) + Area(b) - inter, 0.000001)
  }

  lemma ProductLe(w: real, h: real, w': real, h': real)
    requires 0.0 <= w <= w' && 0.0 <= h <= h'
    ensures 0.0 <= w * h <= w' * h'
  {
  }

  lemma IntersectionBounds(a: Box, b: Box)
    ensures 0.0 <= Intersection(a, b) <= Area(a)
  {
    ProductLe(RMax(0.0, RMin(a.x2, b.x2) - RMax(a.x1, b.x1)), RMax(0.0, RMin(a.y2, b.y2) - RMax(a.y1, b.y1)),
              RMax(0.0, a.x2 - a.x1), RMax(0.0, a.y2 - a.y1));
  }

  lemma IntersectionSymmetric(a: Box, b: Box)
    ensures Intersection(a, b) == Intersection(b, a)
  {
  }

  /** The overlap measure is symmetric and between 0 and 1, for inverted and empty boxes too. */
  lemma IouIsMeasure(a: Box, b: Box)
    ensures Iou(a, b) == Iou(b, a)
    ensures 0.0 <= Iou(a, b) <= 1.0
  {
    IntersectionSymmetric(a, b);
    IntersectionBounds(a, b);
    IntersectionBounds(b, a);
    FractionBounds(Intersection(a, b), RMax(Area(a) + Area(b) - Intersection(a, b), 0.000001));
  }

  lemma FractionBounds(a: real, b: real)
    requires 0.0 <= a <= b && b > 0.0
    ensures 0.0 <= a / b <= 1.0
  {
  }

  // ----- what the overlap measure measures -----

  /** Every side of `m` lies within `a`. */
  ghost predicate LiesIn(m: Box, a: Box) {
    a.x1 <= m.x1 && m.x2 <= a.x2 && a.y1 <= m.y1 && m.y2 <= a.y2
  }

  /** `m` is the largest box that lies in both. */
  ghost predicate IsCommon(m: Box, a: Box, b: Box) {
    LiesIn(m, a) && LiesIn(m, b) && forall k :: LiesIn(k, a) && LiesIn(k, b) ==> LiesIn(k, m)
  }

  /** The area of a box is width times height, and nothing for a box turned inside out. */
  lemma AreaIsProduct(x: real, y: real, w: real, h: real)
    ensures w >= 0.0 && h >= 0.0 ==> Area(Box(x, y, x + w, y + h)) == w * h
    ensures w <= 0.0 || h <= 0.0 ==> Area(Box(x, y, x + w, y + h)) == 0.0
  {
  }

  lemma CommonExists(a: Box, b: Box) returns (m: Box)
    ensures IsCommon(m, a, b)
  {
    m := Box(RMax(a.x1, b.x1), RMax(a.y1, b.y1), RMin(a.x2, b.x2), RMin(a.y2, b.y2));
  }

  lemma IntersectionIsCommonArea(a: Box, b: Box, m: Box)
    requires IsCommon(m, a, b)
    ensures Intersection(a, b) == Area(m)
  {
    var k := Box(RMax(a.x1, b.x1), RMax(a.y1, b.y1), RMin(a.x2, b.x2), RMin(a.y2, b.y2));
    assert LiesIn(k, a) && LiesIn(k, b);
    assert m == k;
  }

  /** What the measure is: common area over joint area, the joint area being taken as one
      millionth at least. */
  lemma IouIsCommonOverJoint(a: Box, b: Box, m: Box)
    requires IsCommon(m, a, b)
    ensures var joint := Area(a) + Area(b) - Area(m);
      Iou(a, b) == if joint >= 0.000001 then Area(m) / joint else Area(m) / 0.000001
  {
    IntersectionIsCommonArea(a, b, m);
  }

  /** For a box that lies in another it is the ratio of their areas. */
  lemma IouOfNested(a: Box, b: Box)
    requires LiesIn(a, b) && Area(b) >= 0.000001
    ensures Iou(a, b) == Area(a) / Area(b)
  {
    assert IsCommon(a, a, b);
    IouIsCommonOverJoint(a, b, a);
  }

  /** A box of some size overlaps itself entirely. */
  lemma IouOfSame(b: Box)
    requires Area(b) >= 0.000001
    ensures Iou(b, b) == 1.0
  {
    IouOfNested(b, b);
    ByItself(Area(b));
  }

  lemma ByItself(x: real)
    requires x > 0.0
    ensures x / x == 1.0
  {
  }

  lemma AreaMonotone(k: Box, m: Box)
    requires LiesIn(k, m)
    ensures 0.0 <= Area(k) <= Area(m)
  {
    ProductLe(RMax(0.0, k.x2 - k.x1), RMax(0.0, k.y2 - k.y1), RMax(0.0, m.x2 - m.x1), RMax(0.0, m.y2 - m.y1));
  }

  lemma ZeroQuotient(x: real, y: real)
    requires y > 0.0
    ensures x / y == 0.0 <==> x == 0.0
  {
  }

  /** It is zero exactly when the boxes share no area. */
  lemma IouZeroIffDisjoint(a: Box, b: Box)
    ensures Iou(a, b) == 0.0 <==> forall k :: LiesIn(k, a) && LiesIn(k, b) ==> Area(k) == 0.0
  {
    var m := CommonExists(a, b);
    IouIsCommonOverJoint(a, b, m);
    var joint := Area(a) + Area(b) - Area(m);
    ZeroQuotient(Area(m), if joint >= 0.000001 then joint else 0.000001);
    forall k | LiesIn(k, a) && LiesIn(k, b) ensures 0.0 <= Area(k) <= Area(m) {
      AreaMonotone(k, m);
    }
  }

  ghost predicate ValidIndexes(order: seq<nat>, n: nat) {
    forall i :: 0 <= i < |order| ==> order[i] < n
  }

  ghost predicate Distinct(s: seq<nat>) {
    forall i, j :: 0 <= i < j < |s| ==> s[i] != s[j]
  }

  /** Any result `argsort()[::-1]` may have: each index once, scores never increasing. */
  ghost predicate DescendingOrder(order: seq<nat>, scores: seq<real>) {
    && ValidIndexes(order, |scores|)
    && Distinct(order)
    && |order| == |scores|
    && forall i, j :: 0 <= i < j < |order| ==> scores[order[i]] >= scores[order[j]]
  }

  /** Pairs of boxes that overlap by more than the threshold. */
  type Clashes = set<(nat, nat)>

  function ClashesOf(boxes: seq<Box>, threshold: real): Clashes {
    set a, b | 0 <= a < |boxes| && 0 <= b < |boxes| && Iou(boxes[a], boxes[b]) > threshold :: (a, b)
  }

  /** `x` overlaps none of the boxes kept so far. */
  predicate Free(c: Clashes, kept: seq<nat>, x: nat) {
    forall i :: 0 <= i < |kept| ==> (kept[i], x) !in c
  }

  /** The reference definition: walk through the order once and keep a box unless it overlaps a
      box kept before it. */
  function Select(c: Clashes, order: seq<nat>): seq<nat> {
    if order == [] then []
    else
      var kept, x := Select(c, order[..|order| - 1]), order[|order| - 1];
      if Free(c, kept, x) then kept + [x] else kept
  }

  /** The loop's other half: what a kept box leaves of the rest of the order. */
  function Survivors(c: Clashes, x: nat, rest: seq<nat>): (r: seq<nat>)
    ensures |r| <= |rest|
  {
    if rest == [] then []
    else
      var prior, y := Survivors(c, x, rest[..|rest| - 1]), rest[|rest| - 1];
      if (x, y) !in c then prior + [y] else prior
  }

  /** Filtering ahead by the first box is the same as checking back against it. */
  lemma {:induction false} SelectHead(c: Clashes, x: nat, rest: seq<nat>)
    ensures Select(c, [x] + rest) == [x] + Select(c, Survivors(c, x, rest))
  {
    if rest == [] {
      assert [x] + rest == [x] && ([x] + rest)[..0] == [];
      assert Select(c, []) == [];
    } else {
      var last := |rest| - 1;
      var y, prior := rest[last], Survivors(c, x, rest[..last]);
      SelectHead(c, x, rest[..last]);
      assert ([x] + rest)[..last + 1] == [x] + rest[..last];
      assert (prior + [y])[..|prior|] == prior;
      FreeHead(c, x, Select(c, prior), y);
    }
  }

  lemma FreeHead(c: Clashes, x: nat, tail: seq<nat>, y: nat)
    ensures Free(c, [x] + tail, y) <==> (x, y) !in c && Free(c, tail, y)
  {
    var all := [x] + tail;
    if Free(c, all, y) {
      assert all[0] == x;
      forall i | 0 <= i < |tail| ensures (tail[i], y) !in c {
        assert all[i + 1] == tail[i];
      }
    }
  }

  /** The suppression loop, for any order of the boxes. */
  method Suppress(boxes: seq<Box>, threshold: real, initial: seq<nat>) returns (keep: seq<nat>)
    requires ValidIndexes(initial, |boxes|)
    ensures keep == Select(ClashesOf(boxes, threshold), initial)
  {
    var clashes := ClashesOf(boxes, threshold);
    keep := [];
    var order := initial;
    while order != []
      invariant keep + Select(clashes, order) == Select(clashes, initial)
      decreases |order|
    {
      var index, rest := order[0], order[1..];
      assert order == [index] + rest;
      SelectHead(clashes, index, rest);
      keep := keep + [index];
      order := Survivors(clashes, index, rest);
    }
  }

  // ----- what the selection means -----

  lemma {:induction false} SelectIsFromOrder(c: Clashes, order: seq<nat>)
    ensures forall k :: k in Select(c, order) ==> k in order
    ensures Distinct(order) ==> Distinct(Select(c, order))
  {
    if order != [] {
      var before, x := order[..|order| - 1], order[|order| - 1];
      SelectIsFromOrder(c, before);
      assert order == before + [x];
      if Distinct(order) {
        assert x !in before && Distinct(before);
        assert x !in Select(c, before);
      }
    }
  }

  ghost predicate ClashFree(c: Clashes, s: seq<nat>) {
    forall j :: 0 <= j < |s| ==> Free(c, s[..j], s[j])
  }

  /** No two kept boxes clash. */
  lemma {:induction false} SelectIsFree(c: Clashes, order: seq<nat>)
    ensures ClashFree(c, Select(c, order))
  {
    if order != [] {
      var kept, x := Select(c, order[..|order| - 1]), order[|order| - 1];
      SelectIsFree(c, order[..|order| - 1]);
      forall j | 0 <= j <= |kept| && Free(c, kept, x) ensures Free(c, (kept + [x])[..j], (kept + [x])[j]) {
        assert (kept + [x])[..j] == kept[..j];
        assert kept[..|kept|] == kept;
      }
    }
  }

  /** `kept` decides the p-th box of the order as a greedy pass would: in exactly when no
      earlier kept box clashes with it. */
  ghost predicate GreedyAt(c: Clashes, order: seq<nat>, kept: set<nat>, p: nat)
    requires p < |order|
  {
    order[p] in kept <==> forall q :: 0 <= q < p && order[q] in kept ==> (order[q], order[p]) !in c
  }

  ghost predicate Greedy(c: Clashes, order: seq<nat>, kept: set<nat>) {
    forall p :: 0 <= p < |order| ==> GreedyAt(c, order, kept, p)
  }

  function Elements(s: seq<nat>): set<nat> {
    set k | k in s
  }

  /** The selection is greedy. */
  lemma {:induction false} SelectIsGreedy(c: Clashes, order: seq<nat>)
    requires Distinct(order)
    ensures Greedy(c, order, Elements(Select(c, order)))
  {
    if order != [] {
      var last := |order| - 1;
      var before, x := order[..last], order[last];
      var kept, all := Select(c, before), Select(c, order);
      SelectIsGreedy(c, before);
      SelectIsFromOrder(c, before);
      assert x !in before && x !in kept;
      forall p | 0 <= p < last ensures GreedyAt(c, order, Elements(all), p) {
        assert GreedyAt(c, before, Elements(kept), p);
        assert forall q :: 0 <= q <= p ==> before[q] == order[q] && order[q] != x;
      }
      assert GreedyAt(c, order, Elements(all), last) by {
        if Free(c, kept, x) {
          assert x in kept + [x];
          forall q | 0 <= q < last && order[q] in all ensures (order[q], x) !in c {
            assert order[q] in kept;
          }
        } else {
          var i :| 0 <= i < |kept| && (kept[i], x) in c;
          assert kept[i] in before;
          var q :| 0 <= q < last && before[q] == kept[i];
          assert order[q] in Elements(all);
        }
      }
    }
  }

  /** Being greedy determines the kept boxes: the selection is the only greedy set. */
  lemma {:induction false} GreedyIsUnique(c: Clashes, order: seq<nat>, a: set<nat>, b: set<nat>, p: nat)
    requires p <= |order| && Greedy(c, order, a) && Greedy(c, order, b)
    ensures forall q :: 0 <= q < p ==> (order[q] in a <==> order[q] in b)
  {
    if p > 0 {
      GreedyIsUnique(c, order, a, b, p - 1);
      assert GreedyAt(c, order, a, p - 1) && GreedyAt(c, order, b, p - 1);
    }
  }

  /** A complete order mentions every index: distinct numbers below n, n of them. */
  lemma OrderIsComplete(order: seq<nat>, scores: seq<real>, k: nat) returns (p: nat)
    requires DescendingOrder(order, scores) && k < |scores|
    ensures p < |order| && order[p] == k
  {
    var all := Below(|scores|);
    CountDistinct(order);
    if k !in order {
      assert Elements(order) <= all - {k};
      SubsetSize(Elements(order), all - {k});
    }
    p :| 0 <= p < |order| && order[p] == k;
  }

  function Below(n: nat): (r: set<nat>)
    ensures forall i: nat :: i in r <==> i < n
    ensures |r| == n
  {
    if n == 0 then {} else Below(n - 1) + {n - 1}
  }

  lemma {:induction false} CountDistinct(s: seq<nat>)
    requires Distinct(s)
    ensures |Elements(s)| == |s|
  {
    if s != [] {
      var last := |s| - 1;
      CountDistinct(s[..last]);
      assert Elements(s) == Elements(s[..last]) + {s[last]};
    }
  }

  lemma {:induction false} SubsetSize(a: set<nat>, b: set<nat>)
    requires a <= b
    ensures |a| <= |b|
  {
    if a != {} {
      var x :| x in a;
      SubsetSize(a - {x}, b - {x});
    }
  }

  /** A dropped box overlaps a kept box of at least its score. */
  lemma DroppedIsDominated(boxes: seq<Box>, scores: seq<real>, threshold: real, order: seq<nat>, k: nat) returns (w: nat)
    requires |boxes| == |scores| && DescendingOrder(order, scores)
    requires k < |boxes| && k !in Select(ClashesOf(boxes, threshold), order)
    ensures w in Select(ClashesOf(boxes, threshold), order)
    ensures w < |boxes| && Iou(boxes[w], boxes[k]) > threshold && scores[w] >= scores[k]
  {
    var c := ClashesOf(boxes, threshold);
    SelectIsGreedy(c, order);
    var kept := Elements(Select(c, order));
    var p := OrderIsComplete(order, scores, k);
    assert GreedyAt(c, order, kept, p);
    var q :| 0 <= q < p && order[q] in kept && (order[q], order[p]) in c;
    w := order[q];
  }
}

/**
  `format_detections`: suppression class by class, merged, sorted by score and cut to a limit.
  Detections are named by their index among the candidates.
 */
module Detections {
  import opened Letterbox
  import opened Nms

  /** One axis-wise mapped box, as `scale_boxes_to_original` leaves it. */
  function ScaleBox(b: Box, g: Geometry, original: Size): Box
    requires g.ratio > 0.0
  {
    Box(MapBack(b.x1, g.x.offset, g.ratio, original.w), MapBack(b.y1, g.y.offset, g.ratio, original.h),
        MapBack(b.x2, g.x.offset, g.ratio, original.w), MapBack(b.y2, g.y.offset, g.ratio, original.h))
  }

  /** Where a box of the image lies after the exact letterbox transform. */
  function Letterboxed(b: Box, g: Geometry): Box {
    Box(b.x1 * g.ratio + g.x.offset, b.y1 * g.ratio + g.y.offset, b.x2 * g.ratio + g.x.offset, b.y2 * g.ratio + g.y.offset)
  }

  /** Mapping back undoes it, for every box within the image. */
  lemma ScaleBoxInverts(b: Box, g: Geometry, original: Size)
    requires g.ratio > 0.0
    requires 0.0 <= b.x1 <= original.w as real && 0.0 <= b.x2 <= original.w as real
    requires 0.0 <= b.y1 <= original.h as real && 0.0 <= b.y2 <= original.h as real
    ensures ScaleBox(Letterboxed(b, g), g, original) == b
  {
    MapBackInverts(b.x1, g.x.offset, g.ratio, original.w);
    MapBackInverts(b.y1, g.y.offset, g.ratio, original.h);
    MapBackInverts(b.x2, g.x.offset, g.ratio, original.w);
    MapBackInverts(b.y2, g.y.offset, g.ratio, original.h);
  }

  /** Maps a copy of the boxes back, entry by entry: results lie in the image and keep the
      order of their corners. */
  method ScaleBoxesToOriginal(boxes: seq<Box>, g: Geometry, original: Size) returns (r: seq<Box>)
    requires g.ratio > 0.0
    ensures |r| == |boxes|
    ensures forall i :: 0 <= i < |boxes| ==> r[i] == ScaleBox(boxes[i], g, original)
    ensures forall i :: 0 <= i < |boxes| && boxes[i].x1 <= boxes[i].x2 && boxes[i].y1 <= boxes[i].y2 ==>
      0.0 <= r[i].x1 <= r[i].x2 <= original.w as real && 0.0 <= r[i].y1 <= r[i].y2 <= original.h as real
  {
    r := boxes;
    for i := 0 to |boxes|
      invariant |r| == |boxes|
      invariant forall k :: 0 <= k < i ==> r[k] == ScaleBox(boxes[k], g, original)
      invariant forall k :: i <= k < |boxes| ==> r[k] == boxes[k]
    {
      r := r[i := ScaleBox(r[i], g, original)];
    }
    forall i | 0 <= i < |boxes| && boxes[i].x1 <= boxes[i].x2 && boxes[i].y1 <= boxes[i].y2
      ensures 0.0 <= r[i].x1 <= r[i].x2 <= original.w as real && 0.0 <= r[i].y1 <= r[i].y2 <= original.h as real
    {
      MapBackMonotone(boxes[i].x1, boxes[i].x2, g.x.offset, g.ratio, original.w);
      MapBackMonotone(boxes[i].y1, boxes[i].y2, g.y.offset, g.ratio, original.h);
    }
  }

  // ----- one class -----

  /** The positions of the candidates of class `c`. */
  function Indexes(classIds: seq<nat>, c: nat): seq<nat> {
    if classIds == [] then []
    else
      var last := |classIds| - 1;
      var before := Indexes(classIds[..last], c);
      if classIds[last] == c then before + [last] else before
  }

  lemma {:induction false} IndexesExact(classIds: seq<nat>, c: nat)
    ensures forall i: nat :: i in Indexes(classIds, c) <==> i < |classIds| && classIds[i] == c
    ensures Distinct(Indexes(classIds, c))
  {
    if classIds != [] {
      var last := |classIds| - 1;
      var before := Indexes(classIds[..last], c);
      IndexesExact(classIds[..last], c);
      forall i: nat ensures i in Indexes(classIds, c) <==> i < |classIds| && classIds[i] == c {
        assert i in before + [last] <==> i in before || i == last;
        assert i < last ==> classIds[..last][i] == classIds[i];
      }
      assert last !in before;
    }
  }

  function Pick<T>(s: seq<T>, indexes: seq<nat>): (r: seq<T>)
    requires ValidIndexes(indexes, |s|)
    ensures |r| == |indexes|
    ensures forall i :: 0 <= i < |r| ==> r[i] == s[indexes[i]]
  {
    seq(|indexes|, i requires 0 <= i < |indexes| => s[indexes[i]])
  }

  /** The candidates a run of the detector proposes: boxes, classes, scores. */
  datatype Candidates = Candidates(boxes: seq<Box>, classIds: seq<nat>, scores: seq<real>)

  predicate WellFormed(d: Candidates) {
    |d.boxes| == |d.classIds| == |d.scores|
  }

  /** `order` is what sorting the scores of class `c` may give. */
  ghost predicate OrdersClass(d: Candidates, c: nat, order: seq<nat>)
    requires WellFormed(d)
  {
    var indexes := Indexes(d.classIds, c);
    ValidIndexes(indexes, |d.scores|) && DescendingOrder(order, Pick(d.scores, indexes))
  }

  /** Candidate `w` suppresses candidate `i`. */
  ghost predicate Suppresses(d: Candidates, threshold: real, w: nat, i: nat)
    requires WellFormed(d)
  {
    && w < |d.boxes| && i < |d.boxes|
    && d.classIds[w] == d.classIds[i]
    && Iou(d.boxes[w], d.boxes[i]) > threshold
    && d.scores[w] >= d.scores[i]
  }

  /** `kept` settles class `c`: what it keeps does not overlap, and it accounts for the rest. */
  ghost predicate Settles(d: Candidates, threshold: real, kept: seq<nat>, c: nat)
    requires WellFormed(d)
  {
    && (forall i :: 0 <= i < |d.boxes| && d.classIds[i] == c ==>
          i in kept || exists w :: w in kept && Suppresses(d, threshold, w, i))
    && (forall i, j :: i in kept && j in kept && i != j && i < |d.boxes| && j < |d.boxes|
                       && d.classIds[i] == c && d.classIds[j] == c ==>
          Iou(d.boxes[i], d.boxes[j]) <= threshold)
  }

  /** The candidates of class `c` that suppression among them keeps. */
  ghost predicate KeptOfClass(d: Candidates, threshold: real, c: nat, order: seq<nat>, local: seq<nat>, kept: seq<nat>)
    requires WellFormed(d) && OrdersClass(d, c, order)
  {
    var indexes := Indexes(d.classIds, c);
    && local == Select(ClashesOf(Pick(d.boxes, indexes), threshold), order)
    && ValidIndexes(local, |indexes|) && kept == Pick(indexes, local)
  }

  lemma ClassAccounted(d: Candidates, threshold: real, c: nat, order: seq<nat>, local: seq<nat>, kept: seq<nat>, i: nat)
    requires WellFormed(d) && OrdersClass(d, c, order) && KeptOfClass(d, threshold, c, order, local, kept)
    requires i < |d.boxes| && d.classIds[i] == c
    ensures i in kept || exists w :: w in kept && Suppresses(d, threshold, w, i)
  {
    var indexes := Indexes(d.classIds, c);
    IndexesExact(d.classIds, c);
    var k :| 0 <= k < |indexes| && indexes[k] == i;
    var w := k;
    if k !in local {
      w := DroppedIsDominated(Pick(d.boxes, indexes), Pick(d.scores, indexes), threshold, order, k);
    }
    var p :| 0 <= p < |local| && local[p] == w;
    assert kept[p] == indexes[w] && kept[p] in kept;
    if k !in local {
      IndexesExact(d.classIds, c);
      assert indexes[w] in indexes;
      assert Suppresses(d, threshold, kept[p], i);
    }
  }

  lemma ClassApart(d: Candidates, threshold: real, c: nat, order: seq<nat>, local: seq<nat>, kept: seq<nat>, i: nat, j: nat)
    requires WellFormed(d) && OrdersClass(d, c, order) && KeptOfClass(d, threshold, c, order, local, kept)
    requires i < j < |kept| && kept[i] < |d.boxes| && kept[j] < |d.boxes|
    ensures Iou(d.boxes[kept[i]], d.boxes[kept[j]]) <= threshold && Iou(d.boxes[kept[j]], d.boxes[kept[i]]) <= threshold
  {
    var boxes := Pick(d.boxes, Indexes(d.classIds, c));
    var clashes := ClashesOf(boxes, threshold);
    SelectIsFree(clashes, order);
    assert Free(clashes, local[..j], local[j]) && local[..j][i] == local[i];
    assert (local[i], local[j]) !in clashes;
    IouIsMeasure(d.boxes[kept[i]], d.boxes[kept[j]]);
  }

  lemma KeptIsOfClass(d: Candidates, threshold: real, c: nat, order: seq<nat>, local: seq<nat>, kept: seq<nat>)
    requires WellFormed(d) && OrdersClass(d, c, order) && KeptOfClass(d, threshold, c, order, local, kept)
    ensures Distinct(kept) && forall k :: k in kept ==> k < |d.boxes| && d.classIds[k] == c
  {
    var indexes := Indexes(d.classIds, c);
    IndexesExact(d.classIds, c);
    SelectIsFromOrder(ClashesOf(Pick(d.boxes, indexes), threshold), order);
    forall k | k in kept ensures k < |d.boxes| && d.classIds[k] == c {
      var p :| 0 <= p < |kept| && kept[p] == k;
      assert indexes[local[p]] in indexes;
    }
  }

  lemma ClassSettled(d: Candidates, threshold: real, c: nat, order: seq<nat>, local: seq<nat>, kept: seq<nat>)
    requires WellFormed(d) && OrdersClass(d, c, order) && KeptOfClass(d, threshold, c, order, local, kept)
    ensures Distinct(kept) && forall k :: k in kept ==> k < |d.boxes| && d.classIds[k] == c
    ensures Settles(d, threshold, kept, c)
  {
    KeptIsOfClass(d, threshold, c, order, local, kept);
    forall i | 0 <= i < |d.boxes| && d.classIds[i] == c
      ensures i in kept || exists w :: w in kept && Suppresses(d, threshold, w, i)
    {
      ClassAccounted(d, threshold, c, order, local, kept, i);
    }
    forall a, b | a in kept && b in kept && a != b ensures Iou(d.boxes[a], d.boxes[b]) <= threshold {
      var i :| 0 <= i < |kept| && kept[i] == a;
      var j :| 0 <= j < |kept| && kept[j] == b;
      if i < j {
        ClassApart(d, threshold, c, order, local, kept, i, j);
      } else {
        ClassApart(d, threshold, c, order, local, kept, j, i);
      }
    }
  }

  /** Suppression among the candidates of one class. */
  method SuppressClass(d: Candidates, threshold: real, c: nat, order: seq<nat>) returns (kept: seq<nat>)
    requires WellFormed(d) && OrdersClass(d, c, order)
    ensures Distinct(kept) && forall k :: k in kept ==> k < |d.boxes| && d.classIds[k] == c
    ensures Settles(d, threshold, kept, c)
  {
    var indexes := Indexes(d.classIds, c);
    var boxes := Pick(d.boxes, indexes);
    var local := Suppress(boxes, threshold, order);
    SelectIsFromOrder(ClashesOf(boxes, threshold), order);
    FromValid(local, order, |indexes|);
    kept := Pick(indexes, local);
    ClassSettled(d, threshold, c, order, local, kept);
  }

  lemma FromValid(s: seq<nat>, order: seq<nat>, n: nat)
    requires ValidIndexes(order, n) && forall k :: k in s ==> k in order
    ensures ValidIndexes(s, n)
  {
    forall i | 0 <= i < |s| ensures s[i] < n {
      assert s[i] in order;
    }
  }

  // ----- all classes -----

  ghost predicate StrictlyAscending(s: seq<nat>) {
    forall i, j :: 0 <= i < j < |s| ==> s[i] < s[j]
  }

  function InsertClass(c: nat, s: seq<nat>): seq<nat> {
    if s == [] || c < s[0] then [c] + s
    else if c == s[0] then s
    else [s[0]] + InsertClass(c, s[1..])
  }

  lemma {:induction false} InsertClassInserts(c: nat, s: seq<nat>)
    requires StrictlyAscending(s)
    ensures StrictlyAscending(InsertClass(c, s))
    ensures forall k :: k in InsertClass(c, s) <==> k == c || k in s
  {
    if s != [] && c > s[0] {
      InsertClassInserts(c, s[1..]);
      var r := InsertClass(c, s[1..]);
      forall i | 0 <= i < |r| ensures s[0] < r[i] {
        assert r[i] in r;
      }
      assert s == [s[0]] + s[1..];
    }
  }

  /** The classes that occur, each once, smallest first. */
  function Classes(classIds: seq<nat>): seq<nat> {
    if classIds == [] then [] else InsertClass(classIds[0], Classes(classIds[1..]))
  }

  lemma {:induction false} ClassesExact(classIds: seq<nat>)
    ensures StrictlyAscending(Classes(classIds))
    ensures forall c :: c in Classes(classIds) <==> c in classIds
  {
    if classIds != [] {
      ClassesExact(classIds[1..]);
      InsertClassInserts(classIds[0], Classes(classIds[1..]));
      assert classIds == [classIds[0]] + classIds[1..];
    }
  }

  /** Suppresses every class of the candidates, smallest class first. */
  method SuppressPerClass(d: Candidates, threshold: real, orders: map<nat, seq<nat>>) returns (kept: seq<nat>)
    requires WellFormed(d)
    requires forall c :: c in d.classIds ==> c in orders && OrdersClass(d, c, orders[c])
    ensures ValidIndexes(kept, |d.boxes|) && Distinct(kept)
    ensures forall c :: c in d.classIds ==> Settles(d, threshold, kept, c)
  {
    kept := [];
    var classes := Classes(d.classIds);
    ClassesExact(d.classIds);
    for i := 0 to |classes|
      invariant ValidIndexes(kept, |d.boxes|) && Distinct(kept)
      invariant forall k :: k in kept ==> d.classIds[k] in classes[..i]
      invariant forall c :: c in classes[..i] ==> Settles(d, threshold, kept, c)
    {
      var c := classes[i];
      assert c in classes;
      var more := SuppressClass(d, threshold, c, orders[c]);
      MergeSettles(d, threshold, kept, more, c, classes[..i]);
      kept := kept + more;
      assert classes[..i + 1] == classes[..i] + [c];
    }
    assert classes[..|classes|] == classes;
  }

  /** Adding one settled class disturbs no class settled before it. */
  lemma MergeSettles(d: Candidates, threshold: real, kept: seq<nat>, more: seq<nat>, c: nat, done: seq<nat>)
    requires WellFormed(d) && c !in done
    requires ValidIndexes(kept, |d.boxes|) && Distinct(kept) && Distinct(more)
    requires forall k :: k in kept ==> d.classIds[k] in done
    requires forall k :: k in more ==> k < |d.boxes| && d.classIds[k] == c
    requires Settles(d, threshold, more, c)
    requires forall e :: e in done ==> Settles(d, threshold, kept, e)
    ensures ValidIndexes(kept + more, |d.boxes|) && Distinct(kept + more)
    ensures forall k :: k in kept + more ==> d.classIds[k] in done + [c]
    ensures forall e :: e in done + [c] ==> Settles(d, threshold, kept + more, e)
  {
    var all := kept + more;
    assert forall k :: k in all <==> k in kept || k in more;
    forall i, j | 0 <= i < j < |all| ensures all[i] != all[j] {
      if i < |kept| <= j {
        assert all[i] in kept && all[j] in more;
      }
    }
    forall i | 0 <= i < |all| ensures all[i] < |d.boxes| {
      assert all[i] in all;
    }
    forall e | e in done + [c] ensures Settles(d, threshold, all, e) {
      var part := if e == c then more else kept;
      assert Settles(d, threshold, part, e);
      forall i | 0 <= i < |d.boxes| && d.classIds[i] == e && i !in all
        ensures exists w :: w in all && Suppresses(d, threshold, w, i)
      {
        var w :| w in part && Suppresses(d, threshold, w, i);
        assert w in all;
      }
    }
  }

  // ----- sorting and cutting -----

  ghost predicate ByScore(scores: seq<real>, s: seq<nat>) {
    && ValidIndexes(s, |scores|)
    && forall i, j :: 0 <= i < j < |s| ==> scores[s[i]] >= scores[s[j]]
  }

  /** Keeps equal scores in their original order. */
  function InsertByScore(scores: seq<real>, x: nat, s: seq<nat>): (r: seq<nat>)
    requires x < |scores| && ValidIndexes(s, |scores|)
    ensures ValidIndexes(r, |scores|)
  {
    if s == [] || scores[x] >= scores[s[0]] then [x] + s
    else [s[0]] + InsertByScore(scores, x, s[1..])
  }

  function SortByScore(scores: seq<real>, s: seq<nat>): (r: seq<nat>)
    requires ValidIndexes(s, |scores|)
    ensures ValidIndexes(r, |scores|)
  {
    if s == [] then [] else InsertByScore(scores, s[0], SortByScore(scores, s[1..]))
  }

  lemma {:induction false} InsertByScoreElements(scores: seq<real>, x: nat, s: seq<nat>)
    requires x < |scores| && ValidIndexes(s, |scores|)
    ensures multiset(InsertByScore(scores, x, s)) == multiset(s) + multiset{x}
  {
    if !(s == [] || scores[x] >= scores[s[0]]) {
      InsertByScoreElements(scores, x, s[1..]);
      assert s == [s[0]] + s[1..];
    }
  }

  ghost predicate ScoresAtMost(scores: seq<real>, s: seq<nat>, high: real)
    requires ValidIndexes(s, |scores|)
  {
    forall k :: k in s ==> scores[k] <= high
  }

  lemma {:induction false} InsertBelow(scores: seq<real>, x: nat, s: seq<nat>, high: real)
    requires x < |scores| && ValidIndexes(s, |scores|)
    requires scores[x] <= high && ScoresAtMost(scores, s, high)
    ensures ScoresAtMost(scores, InsertByScore(scores, x, s), high)
  {
    if !(s == [] || scores[x] >= scores[s[0]]) {
      assert forall k :: k in s[1..] ==> k in s;
      InsertBelow(scores, x, s[1..], high);
    }
  }

  lemma {:induction false} InsertByScoreSorts(scores: seq<real>, x: nat, s: seq<nat>)
    requires x < |scores| && ByScore(scores, s)
    ensures ByScore(scores, InsertByScore(scores, x, s))
  {
    if !(s == [] || scores[x] >= scores[s[0]]) {
      InsertByScoreSorts(scores, x, s[1..]);
      InsertBelow(scores, x, s[1..], scores[s[0]]);
      PrependByScore(scores, s[0], InsertByScore(scores, x, s[1..]));
    }
  }

  lemma PrependByScore(scores: seq<real>, x: nat, s: seq<nat>)
    requires x < |scores| && ByScore(scores, s) && ScoresAtMost(scores, s, scores[x])
    ensures ByScore(scores, [x] + s)
  {
  }

  /** Sorting by score is a permutation with scores never increasing. */
  lemma {:induction false} SortByScoreSorts(scores: seq<real>, s: seq<nat>)
    requires ValidIndexes(s, |scores|)
    ensures ByScore(scores, SortByScore(scores, s))
    ensures multiset(SortByScore(scores, s)) == multiset(s)
  {
    if s != [] {
      var rest := SortByScore(scores, s[1..]);
      SortByScoreSorts(scores, s[1..]);
      InsertByScoreSorts(scores, s[0], rest);
      InsertByScoreElements(scores, s[0], rest);
      assert s == [s[0]] + s[1..];
    }
  }

  /** Python's `s[:limit]`, negative limits included. */
  function Cut(s: seq<nat>, limit: int): (r: seq<nat>)
    ensures r <= s
  {
    if limit >= |s| then s
    else if limit >= 0 then s[..limit]
    else if |s| + limit >= 0 then s[..|s| + limit]
    else []
  }

  /** Same-class detections do not overlap by more than the threshold. */
  ghost predicate Apart(d: Candidates, threshold: real, r: seq<nat>)
    requires WellFormed(d) && ValidIndexes(r, |d.boxes|)
  {
    forall i, j :: 0 <= i < j < |r| && d.classIds[r[i]] == d.classIds[r[j]] ==>
      Iou(d.boxes[r[i]], d.boxes[r[j]]) <= threshold
  }

  /** Candidate `i` is left out for a reason: a detection of its class suppresses it, or every
      detection scores at least as well (and, for an ordinary limit, the limit is reached). */
  ghost predicate LeftOutFairly(d: Candidates, threshold: real, limit: int, r: seq<nat>, i: nat)
    requires WellFormed(d) && ValidIndexes(r, |d.boxes|) && i < |d.boxes|
  {
    || (exists w :: w in r && Suppresses(d, threshold, w, i))
    || ((limit >= 0 ==> |r| == limit) && forall p :: 0 <= p < |r| ==> d.scores[r[p]] >= d.scores[i])
  }

  /** The kept candidates, best first, at most `limit` of them. */
  method FormatDetections(d: Candidates, threshold: real, limit: int, orders: map<nat, seq<nat>>) returns (r: seq<nat>)
    requires WellFormed(d)
    requires forall c :: c in d.classIds ==> c in orders && OrdersClass(d, c, orders[c])
    ensures ByScore(d.scores, r) && Distinct(r)
    ensures limit >= 0 ==> |r| <= limit
    ensures Apart(d, threshold, r)
    ensures forall i :: 0 <= i < |d.boxes| && i !in r ==> LeftOutFairly(d, threshold, limit, r, i)
  {
    var kept := SuppressPerClass(d, threshold, orders);
    var sorted := SortByScore(d.scores, kept);
    r := Cut(sorted, limit);
    SortByScoreSorts(d.scores, kept);
    SameElements(kept, sorted);
    CutIsApart(d, threshold, kept, sorted, limit);
    forall i | 0 <= i < |d.boxes| && i !in r ensures LeftOutFairly(d, threshold, limit, r, i) {
      CutIsFair(d, threshold, kept, sorted, limit, i);
    }
  }

  lemma CutIsApart(d: Candidates, threshold: real, kept: seq<nat>, sorted: seq<nat>, limit: int)
    requires WellFormed(d) && ValidIndexes(sorted, |d.boxes|) && Distinct(sorted)
    requires forall k :: k in sorted ==> k in kept
    requires forall c :: c in d.classIds ==> Settles(d, threshold, kept, c)
    ensures ValidIndexes(Cut(sorted, limit), |d.boxes|) && Apart(d, threshold, Cut(sorted, limit))
  {
    var r := Cut(sorted, limit);
    forall i, j | 0 <= i < j < |r| && d.classIds[r[i]] == d.classIds[r[j]]
      ensures Iou(d.boxes[r[i]], d.boxes[r[j]]) <= threshold
    {
      assert r[i] == sorted[i] && r[j] == sorted[j];
      assert Settles(d, threshold, kept, d.classIds[r[i]]);
    }
  }

  lemma CutIsFair(d: Candidates, threshold: real, kept: seq<nat>, sorted: seq<nat>, limit: int, i: nat)
    requires WellFormed(d) && ByScore(d.scores, sorted) && i < |d.boxes| && i !in Cut(sorted, limit)
    requires forall k :: k in kept ==> k in sorted
    requires forall c :: c in d.classIds ==> Settles(d, threshold, kept, c)
    requires ValidIndexes(Cut(sorted, limit), |d.boxes|)
    ensures LeftOutFairly(d, threshold, limit, Cut(sorted, limit), i)
  {
    assert Settles(d, threshold, kept, d.classIds[i]);
    var w := i;
    if i !in kept {
      w :| w in kept && Suppresses(d, threshold, w, i);
    }
    if w !in Cut(sorted, limit) {
      CutOff(d.scores, sorted, limit, w);
    }
  }

  /** What a cut leaves out scores no better than what it leaves in. */
  lemma CutOff(scores: seq<real>, sorted: seq<nat>, limit: int, w: nat)
    requires ByScore(scores, sorted) && w in sorted && w !in Cut(sorted, limit)
    ensures w < |scores|
    ensures forall p :: 0 <= p < |Cut(sorted, limit)| ==>
      Cut(sorted, limit)[p] < |scores| && scores[Cut(sorted, limit)[p]] >= scores[w]
    ensures limit >= 0 ==> |Cut(sorted, limit)| == limit
  {
  }

  lemma SameElements(a: seq<nat>, b: seq<nat>)
    requires multiset(a) == multiset(b) && Distinct(a)
    ensures Distinct(b) && forall k :: k in a <==> k in b
  {
    forall k ensures k in a <==> k in b {
      assert k in multiset(a) <==> k in multiset(b);
    }
    forall i, j | 0 <= i < j < |b| ensures b[i] != b[j] {
      if b[i] == b[j] {
        TwoOccurrences(b, i, j);
        OneOccurrence(a, b[i]);
      }
    }
  }

  lemma TwoOccurrences(s: seq<nat>, i: nat, j: nat)
    requires i < j < |s| && s[i] == s[j]
    ensures multiset(s)[s[i]] >= 2
  {
    assert s == s[..j] + [s[j]] + s[j + 1..];
    assert s[i] in s[..j];
    assert multiset(s) == multiset(s[..j]) + multiset{s[j]} + multiset(s[j + 1..]);
  }

  lemma {:induction false} OneOccurrence(s: seq<nat>, k: nat)
    requires Distinct(s)
    ensures multiset(s)[k] <= 1
  {
    if s != [] {
      var last := |s| - 1;
      OneOccurrence(s[..last], k);
      assert s == s[..last] + [s[last]];
      assert s[last] !in multiset(s[..last]);
    }
  }
}

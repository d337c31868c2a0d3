/** How the parent of the load test staggers its cameras over one interval. */
module PhaseOffsets {
  import opened Schedule
  import opened SmokeSummary

  function SaturatingMul(a: nat, b: nat): nat {
    Clamp(a * b)
  }

  /** The phase of camera `index` of `count` when none is configured. */
  function AutoPhase(intervalMs: nat, index: nat, count: nat): nat {
    if count > 1 then SaturatingMul(intervalMs, index) / count else 0
  }

  lemma Floor(m: nat, n: nat)
    requires n > 0
    ensures (m / n) * n <= m < (m / n) * n + n
  {
  }

  lemma Positive(x: int, n: nat)
    ensures x * n > 0 ==> x > 0
  {
  }

  /** Numbers `w` apart have rounded quotients at least floor(w / n) apart. */
  lemma FloorsApart(a: nat, b: nat, w: nat, n: nat)
    requires n > 0 && a + w <= b
    ensures a / n + w / n <= b / n
  {
    Floor(a, n);
    Floor(b, n);
    Floor(w, n);
    var x := b / n - a / n - w / n + 1;
    assert x * n == (b / n) * n - (a / n) * n - (w / n) * n + n;
    Positive(x, n);
  }

  /** Numbers that leave `w` of `rounds * n` have rounded quotients that leave floor(w / n) of `rounds`. */
  lemma FloorsWithinRound(a: nat, b: nat, w: nat, rounds: nat, n: nat)
    requires n > 0 && b + w <= a + rounds * n
    ensures b / n + w / n <= a / n + rounds
  {
    Floor(a, n);
    Floor(b, n);
    Floor(w, n);
    var x := a / n + rounds - b / n - w / n + 1;
    assert x * n == (a / n) * n + rounds * n - (b / n) * n - (w / n) * n + n;
    Positive(x, n);
  }

  lemma ProductMonotone(m: nat, i: nat, j: nat)
    requires i <= j
    ensures m * i <= m * j
  {
  }

  lemma QuotientMonotone(a: nat, b: nat, n: nat)
    requires a <= b && n > 0
    ensures a / n <= b / n
  {
    FloorsApart(a, b, 0, n);
  }

  function ExactPhase(intervalMs: nat, index: nat, count: nat): nat
    requires count > 0
  {
    intervalMs * index / count
  }

  /** Every camera's phase is floor(interval * index / count), as if nothing saturated. */
  ghost predicate PhasesExact(intervalMs: nat, count: nat) {
    forall i {:trigger ExactPhase(intervalMs, i, count)} :: 0 <= i < count ==>
      AutoPhase(intervalMs, i, count) == ExactPhase(intervalMs, i, count)
  }

  /** Saturation, if any, does not move the last camera. */
  predicate Unsaturated(intervalMs: nat, count: nat) {
    count > 1 ==> Clamp(intervalMs * (count - 1)) / count == intervalMs * (count - 1) / count
  }

  lemma AutoPhaseExact(intervalMs: nat, index: nat, count: nat)
    requires index < count && Unsaturated(intervalMs, count)
    ensures AutoPhase(intervalMs, index, count) == intervalMs * index / count
  {
    if count > 1 && intervalMs * index > MACHINE_MAX {
      ProductMonotone(intervalMs, index, count - 1);
      QuotientMonotone(MACHINE_MAX, intervalMs * index, count);
      QuotientMonotone(intervalMs * index, intervalMs * (count - 1), count);
    }
  }

  /** It moves no camera exactly when it does not move the last one, for which it is enough that
      the largest product fits the machine. */
  lemma PhasesExactIff(intervalMs: nat, count: nat)
    requires count > 0
    ensures PhasesExact(intervalMs, count) <==> Unsaturated(intervalMs, count)
    ensures intervalMs * (count - 1) <= MACHINE_MAX ==> PhasesExact(intervalMs, count)
  {
    if Unsaturated(intervalMs, count) {
      forall i | 0 <= i < count ensures AutoPhase(intervalMs, i, count) == ExactPhase(intervalMs, i, count) {
        AutoPhaseExact(intervalMs, i, count);
      }
    } else {
      assert AutoPhase(intervalMs, count - 1, count) != ExactPhase(intervalMs, count - 1, count);
    }
  }

  /** Saturated phases can coincide. */
  lemma SaturatedPhasesCoincide()
    ensures AutoPhase(MACHINE_MAX, 1, 3) == AutoPhase(MACHINE_MAX, 2, 3)
  {
  }

  /** Two cameras i < j: their phases differ by at least floor(interval / count), and so do
      the phase of j and the next round of i. */
  ghost predicate Apart(intervalMs: nat, i: nat, j: nat, count: nat)
    requires count > 0
  {
    && AutoPhase(intervalMs, i, count) + intervalMs / count <= AutoPhase(intervalMs, j, count)
    && AutoPhase(intervalMs, j, count) + intervalMs / count <= AutoPhase(intervalMs, i, count) + intervalMs
  }

  /** The last two cameras are. */
  predicate LastTwoApart(intervalMs: nat, count: nat) {
    count > 1 ==> AutoPhase(intervalMs, count - 2, count) + intervalMs / count <= AutoPhase(intervalMs, count - 1, count)
  }

  lemma ExactPhasesApart(intervalMs: nat, i: nat, j: nat, count: nat)
    requires i < j < count
    ensures ExactPhase(intervalMs, i, count) + intervalMs / count <= ExactPhase(intervalMs, j, count)
    ensures ExactPhase(intervalMs, j, count) + intervalMs / count <= ExactPhase(intervalMs, i, count) + intervalMs
  {
    ScaledApart(intervalMs, i, j, count);
    FloorsApart(intervalMs * i, intervalMs * j, intervalMs, count);
    FloorsWithinRound(intervalMs * i, intervalMs * j, intervalMs, intervalMs, count);
  }

  /** Phases ascend, and saturation only lowers them. */
  lemma PhasesAscend(intervalMs: nat, i: nat, j: nat, count: nat)
    requires i <= j < count
    ensures AutoPhase(intervalMs, i, count) <= AutoPhase(intervalMs, j, count) <= ExactPhase(intervalMs, j, count)
  {
    ProductMonotone(intervalMs, i, j);
    QuotientMonotone(Clamp(intervalMs * i), Clamp(intervalMs * j), count);
    QuotientMonotone(Clamp(intervalMs * j), intervalMs * j, count);
  }

  lemma FitsIsExact(intervalMs: nat, i: nat, count: nat)
    requires i < count && intervalMs * i <= MACHINE_MAX
    ensures AutoPhase(intervalMs, i, count) == ExactPhase(intervalMs, i, count)
  {
  }

  /** Once the camera before the last saturates, it coincides with the last. */
  lemma SaturatedTail(intervalMs: nat, count: nat)
    requires count > 1 && intervalMs * (count - 2) > MACHINE_MAX
    ensures AutoPhase(intervalMs, count - 2, count) == AutoPhase(intervalMs, count - 1, count)
  {
    ProductMonotone(intervalMs, count - 2, count - 1);
  }

  lemma ApartIfLastTwo(intervalMs: nat, i: nat, j: nat, count: nat)
    requires i < j < count && LastTwoApart(intervalMs, count)
    ensures Apart(intervalMs, i, j, count)
  {
    ExactPhasesApart(intervalMs, i, j, count);
    PhasesAscend(intervalMs, i, j, count);
    if intervalMs * (count - 2) <= MACHINE_MAX {
      ProductMonotone(intervalMs, i, count - 2);
      FitsIsExact(intervalMs, i, count);
      if j < count - 1 {
        ProductMonotone(intervalMs, j, count - 2);
        FitsIsExact(intervalMs, j, count);
      } else {
        PhasesAscend(intervalMs, i, count - 2, count);
      }
    } else {
      SaturatedTail(intervalMs, count);
      ExactPhasesApart(intervalMs, 0, count - 1, count);
      PhasesAscend(intervalMs, j, count - 1, count);
      assert ExactPhase(intervalMs, 0, count) == 0;
    }
  }

  /** All cameras keep apart if and only if the last two do. */
  lemma PhasesKeepApart(intervalMs: nat, count: nat)
    requires count > 0
    ensures (forall i, j :: 0 <= i < j < count ==> Apart(intervalMs, i, j, count)) <==> LastTwoApart(intervalMs, count)
    ensures PhasesExact(intervalMs, count) ==> LastTwoApart(intervalMs, count)
  {
    if LastTwoApart(intervalMs, count) {
      forall i, j | 0 <= i < j < count ensures Apart(intervalMs, i, j, count) {
        ApartIfLastTwo(intervalMs, i, j, count);
      }
    } else {
      assert !Apart(intervalMs, count - 2, count - 1, count);
      ExactPhasesApart(intervalMs, count - 2, count - 1, count);
    }
  }

  lemma ScaledApart(m: nat, i: nat, j: nat, count: nat)
    requires i < j < count
    ensures m * i + m <= m * j
    ensures m * j + m <= m * i + m * count
  {
    ProductMonotone(m, i + 1, j);
    ProductMonotone(m, j + 1, i + count);
    assert m * (i + 1) == m * i + m && m * (j + 1) == m * j + m && m * (i + count) == m * i + m * count;
  }

  /** From camera `i` to the next one, or from the last to the next round of the first, it is
      floor(I/n) or ceil(I/n) milliseconds. */
  ghost predicate EvenGap(intervalMs: nat, i: nat, count: nat)
    requires count > 0
  {
    var next := if i + 1 < count then AutoPhase(intervalMs, i + 1, count) else intervalMs;
    intervalMs / count <= next - AutoPhase(intervalMs, i, count) <= (intervalMs + count - 1) / count
  }

  lemma GapIsEven(intervalMs: nat, i: nat, count: nat)
    requires i < count && PhasesExact(intervalMs, count)
    ensures EvenGap(intervalMs, i, count)
  {
    assert AutoPhase(intervalMs, i, count) == ExactPhase(intervalMs, i, count);
    assert i + 1 < count ==> AutoPhase(intervalMs, i + 1, count) == ExactPhase(intervalMs, i + 1, count);
    StepGap(intervalMs, intervalMs * i, intervalMs * (i + 1), count);
    Quotient(intervalMs, count);
  }

  /** What remains of a round after the last exact phase is at least ceil(I/n). */
  lemma RestOfRound(m: nat, n: nat, x: nat)
    requires n > 0 && x == m * (n - 1)
    ensures x / n + (m + n - 1) / n <= m
  {
    OneLess(m, n);
    RoundedParts(x, m, n);
  }

  lemma OneLess(m: nat, n: nat)
    requires n > 0
    ensures m * (n - 1) + m == m * n
  {
  }

  lemma RoundedParts(x: nat, m: nat, n: nat)
    requires n > 0 && x + m == m * n
    ensures x / n + (m + n - 1) / n <= m
  {
    Floor(x, n);
    Floor(m + n - 1, n);
    SumFits(x / n, (m + n - 1) / n, m, n);
  }

  lemma SumFits(q: nat, c: nat, m: nat, n: nat)
    requires q * n + m <= m * n && c * n < m + n
    ensures q + c <= m
  {
    assert (m - q - c + 1) * n == m * n - q * n - c * n + n;
    Positive(m - q - c + 1, n);
  }

  /** All gaps between neighbours are even if and only if saturation moves no camera. */
  lemma NeighbourGaps(intervalMs: nat, count: nat)
    requires count > 0
    ensures (forall i :: 0 <= i < count ==> EvenGap(intervalMs, i, count)) <==> Unsaturated(intervalMs, count)
  {
    PhasesExactIff(intervalMs, count);
    if Unsaturated(intervalMs, count) {
      forall i | 0 <= i < count ensures EvenGap(intervalMs, i, count) {
        GapIsEven(intervalMs, i, count);
      }
    } else {
      var last := count - 1;
      RestOfRound(intervalMs, count, intervalMs * last);
      QuotientMonotone(Clamp(intervalMs * last), intervalMs * last, count);
      assert !EvenGap(intervalMs, last, count);
    }
  }

  lemma StepGap(w: nat, a: nat, b: nat, n: nat)
    requires n > 0 && b == a + w
    ensures w / n <= b / n - a / n <= (w + n - 1) / n
  {
    FloorsApart(a, b, w, n);
    Floor(w + n - 1, n);
    FloorsWithinRound(a, b, 0, (w + n - 1) / n, n);
  }

  lemma Quotient(m: nat, n: nat)
    requires n > 0
    ensures m * n / n == m
  {
    Floor(m * n, n);
    var q := m * n / n;
    assert (m - q + 1) * n == m * n - q * n + n;
    Positive(m - q + 1, n);
    assert (q - m + 1) * n == q * n - m * n + n;
    Positive(q - m + 1, n);
  }

  /** The plan runs camera `index` of `count` at its automatic phase. */
  ghost predicate Staggered(p: Plan, index: nat, count: nat) {
    p.phaseOffsetMs == AutoPhase(IntervalMs(p), index, count)
  }

  lemma StaggeredApart(p: Plan, q: Plan, count: nat, i: nat, j: nat, gap: nat)
    requires i < j < count && Staggered(p, i, count) && Staggered(q, j, count)
    requires IntervalMs(p) == IntervalMs(q) && LastTwoApart(IntervalMs(p), count)
    requires gap == IntervalMs(p) / count
    ensures p.phaseOffsetMs + gap <= q.phaseOffsetMs
    ensures q.phaseOffsetMs + gap <= p.phaseOffsetMs + IntervalMs(p)
    ensures count <= IntervalMs(p) ==> gap >= 1
  {
    ApartIfLastTwo(IntervalMs(p), i, j, count);
    AtLeastOne(IntervalMs(p), count);
  }

  /** Over all rounds, the deadlines of two different cameras stay floor(I/n) apart, and with
      no more cameras than milliseconds they never coincide. */
  lemma DeadlinesNeverMeet(p: Plan, q: Plan, count: nat, i: nat, j: nat, k: nat, l: nat, gap: nat)
    requires i < j < count && Staggered(p, i, count) && Staggered(q, j, count)
    requires IntervalMs(p) == IntervalMs(q) && LastTwoApart(IntervalMs(p), count)
    requires gap == IntervalMs(p) / count
    ensures Deadline(p, k) + gap <= Deadline(q, l) || Deadline(q, l) + gap <= Deadline(p, k)
    ensures count <= IntervalMs(p) ==> Deadline(p, k) != Deadline(q, l)
  {
    StaggeredApart(p, q, count, i, j, gap);
    DeadlinesApart(p, q, gap, k, l);
  }

  lemma DeadlinesApart(p: Plan, q: Plan, gap: nat, k: nat, l: nat)
    requires IntervalMs(p) == IntervalMs(q)
    requires p.phaseOffsetMs + gap <= q.phaseOffsetMs && q.phaseOffsetMs + gap <= p.phaseOffsetMs + IntervalMs(p)
    ensures Deadline(p, k) + gap <= Deadline(q, l) || Deadline(q, l) + gap <= Deadline(p, k)
  {
    DeadlineClosedForm(p, k);
    DeadlineClosedForm(q, l);
    RoundsApart(p.phaseOffsetMs, q.phaseOffsetMs, IntervalMs(p), gap, k, l);
  }

  lemma AtLeastOne(m: nat, n: nat)
    requires n > 0
    ensures n <= m ==> m / n >= 1
  {
  }

  lemma RoundsApart(a: nat, b: nat, interval: nat, gap: nat, k: nat, l: nat)
    requires a + gap <= b && b + gap <= a + interval
    ensures a + k * interval + gap <= b + l * interval || b + l * interval + gap <= a + k * interval
  {
    if k <= l {
      assert k * interval <= l * interval;
    } else {
      assert k * interval >= (l + 1) * interval == l * interval + interval;
    }
  }
}

/** Picking a closed-set short answer out of a completion. */
module ShortAnswers {
  import opened Wrappers
  import opened Text

  /** Positions are compared in bytes. */
  function ByteOffset(s: string, i: nat): nat
    requires i <= |s|
  {
    if i == 0 then 0 else ByteOffset(s, i - 1) + |Utf8(s[i - 1])|
  }

  /** The non-overlapping occurrences of a pattern from position `i` on, left to right. */
  function Matches(s: string, pattern: string, i: nat): (r: seq<nat>)
    requires pattern != ""
    ensures forall k :: 0 <= k < |r| ==> i <= r[k] && OccursAt(s, pattern, r[k])
    decreases |s| - i
  {
    if i + |pattern| > |s| then []
    else if s[i..i + |pattern|] == pattern then [i] + Matches(s, pattern, i + |pattern|)
    else Matches(s, pattern, i + 1)
  }

  /** Every occurrence is one of the matches or overlaps one that starts before it. */
  lemma {:induction false} MatchesComplete(s: string, pattern: string, i: nat, q: nat) returns (k: nat)
    requires pattern != "" && i <= q && OccursAt(s, pattern, q)
    ensures k < |Matches(s, pattern, i)|
    ensures Matches(s, pattern, i)[k] <= q < Matches(s, pattern, i)[k] + |pattern|
    decreases |s| - i
  {
    if s[i..i + |pattern|] != pattern {
      assert q != i;
      k := MatchesComplete(s, pattern, i + 1, q);
      assert Matches(s, pattern, i) == Matches(s, pattern, i + 1);
    } else {
      var rest := Matches(s, pattern, i + |pattern|);
      assert Matches(s, pattern, i) == [i] + rest;
      if q < i + |pattern| {
        k := 0;
      } else {
        k := MatchesComplete(s, pattern, i + |pattern|, q);
        assert ([i] + rest)[k + 1] == rest[k];
        k := k + 1;
      }
    }
  }

  // ----- occurrences the search skips -----

  /** No proper end piece of the phrase is also a beginning of it, so occurrences cannot overlap. */
  ghost predicate Borderless(p: string) {
    forall d :: 0 < d < |p| ==> p[d..] != p[..|p| - d]
  }

  /** The matches are all the occurrences there are. */
  ghost predicate ListsAll(s: string, p: string)
    requires p != ""
  {
    forall q: nat :: OccursAt(s, p, q) ==> q in Matches(s, p, 0)
  }

  /** Two occurrences a distance `d` apart make the phrase overlap itself. */
  lemma OverlapIsBorder(s: string, p: string, m: nat, d: nat)
    requires OccursAt(s, p, m) && OccursAt(s, p, m + d) && 0 < d < |p|
    ensures p[d..] == p[..|p| - d]
  {
    forall i | 0 <= i < |p| - d ensures p[d..][i] == p[..|p| - d][i] {
      assert p[d + i] == s[m..m + |p|][d + i] == s[m + d + i] == s[m + d..m + d + |p|][i];
    }
  }

  lemma BorderlessListsAll(s: string, p: string)
    requires p != "" && Borderless(p)
    ensures ListsAll(s, p)
  {
    forall q: nat | OccursAt(s, p, q) ensures q in Matches(s, p, 0) {
      var k := MatchesComplete(s, p, 0, q);
      var m := Matches(s, p, 0)[k];
      if m != q {
        OverlapIsBorder(s, p, m, q - m);
      }
    }
  }

  /** A phrase that overlaps itself by all but `d` characters has a text in which the search
      skips an occurrence. */
  lemma BorderHidesOccurrence(p: string, d: nat) returns (s: string)
    requires 0 < d < |p| && p[d..] == p[..|p| - d]
    ensures OccursAt(s, p, d) && d !in Matches(s, p, 0)
  {
    s := p[..d] + p;
    forall i | 0 <= i < |p| ensures s[i] == p[i] {
      if i >= d {
        assert p[i] == p[d..][i - d] == p[..|p| - d][i - d];
      }
    }
    assert s[0..|p|] == p;
    assert s[d..d + |p|] == p;
    assert Matches(s, p, |p|) == [];
    assert Matches(s, p, 0) == [0];
  }

  /** The search finds every occurrence of a phrase in every text if and only if the phrase
      cannot overlap itself. */
  lemma ListsAllIffBorderless(p: string)
    requires p != ""
    ensures (forall s :: ListsAll(s, p)) <==> Borderless(p)
  {
    if Borderless(p) {
      forall s ensures ListsAll(s, p) {
        BorderlessListsAll(s, p);
      }
    } else {
      var d :| 0 < d < |p| && p[d..] == p[..|p| - d];
      var s := BorderHidesOccurrence(p, d);
      assert !ListsAll(s, p);
    }
  }

  // ----- the nearest option -----

  function Gap(a: nat, b: nat): nat {
    if a >= b then a - b else b - a
  }

  /** The distance from `x` to the nearest of some numbers. */
  function Nearest(numbers: seq<nat>, x: nat): nat
    requires numbers != []
  {
    var last := |numbers| - 1;
    var here := Gap(numbers[last], x);
    if last == 0 then here
    else
      var before := Nearest(numbers[..last], x);
      if here < before then here else before
  }

  lemma {:induction false} NearestAttained(numbers: seq<nat>, x: nat) returns (f: nat)
    requires numbers != []
    ensures f < |numbers| && Nearest(numbers, x) == Gap(numbers[f], x)
  {
    var last := |numbers| - 1;
    f := last;
    if last > 0 && Nearest(numbers[..last], x) <= Gap(numbers[last], x) {
      f := NearestAttained(numbers[..last], x);
    }
  }

  lemma {:induction false} NearestIsLeast(numbers: seq<nat>, x: nat, k: nat)
    requires k < |numbers|
    ensures Nearest(numbers, x) <= Gap(numbers[k], x)
  {
    var last := |numbers| - 1;
    if k < last {
      NearestIsLeast(numbers[..last], x, k);
    }
  }

  function Offsets(s: string, positions: seq<nat>): (r: seq<nat>)
    requires forall k :: 0 <= k < |positions| ==> positions[k] <= |s|
    ensures |r| == |positions|
    ensures forall k :: 0 <= k < |r| ==> r[k] == ByteOffset(s, positions[k])
  {
    seq(|positions|, k requires 0 <= k < |positions| => ByteOffset(s, positions[k]))
  }

  /** The distance in bytes from position `p` to the nearest of `positions`. */
  function NearestGap(s: string, positions: seq<nat>, p: nat): nat
    requires positions != [] && p <= |s| && forall k :: 0 <= k < |positions| ==> positions[k] <= |s|
  {
    Nearest(Offsets(s, positions), ByteOffset(s, p))
  }

  /** One occurrence of an option, with its distance to the focus. */
  datatype Candidate = Candidate(option: nat, distance: nat)

  function CandidatesOf(s: string, focus: seq<nat>, option: nat, places: seq<nat>): (r: seq<Candidate>)
    requires focus != [] && (forall k :: 0 <= k < |focus| ==> focus[k] <= |s|)
    requires forall k :: 0 <= k < |places| ==> places[k] <= |s|
    ensures |r| == |places|
    ensures forall k :: 0 <= k < |r| ==> r[k] == Candidate(option, NearestGap(s, focus, places[k]))
  {
    seq(|places|, k requires 0 <= k < |places| => Candidate(option, NearestGap(s, focus, places[k])))
  }

  /** All occurrences of all options, option by option. */
  function AllCandidates(s: string, focus: seq<nat>, options: seq<string>): (r: seq<Candidate>)
    requires focus != [] && (forall k :: 0 <= k < |focus| ==> focus[k] <= |s|)
    requires forall k :: 0 <= k < |options| ==> options[k] != ""
    ensures forall k :: 0 <= k < |r| ==> r[k].option < |options|
  {
    if options == [] then []
    else
      var last := |options| - 1;
      AllCandidates(s, focus, options[..last]) + CandidatesOf(s, focus, last, Matches(s, options[last], 0))
  }

  /** The first of the nearest. */
  function Best(candidates: seq<Candidate>): Option<Candidate> {
    if candidates == [] then None
    else
      var best, c := Best(candidates[..|candidates| - 1]), candidates[|candidates| - 1];
      if best.None? || c.distance < best.value.distance then Some(c) else best
  }

  lemma {:induction false} BestAt(candidates: seq<Candidate>) returns (k: nat)
    requires candidates != []
    ensures k < |candidates| && FirstNearest(candidates, k) && Best(candidates) == Some(candidates[k])
  {
    var last := |candidates| - 1;
    k := last;
    if last > 0 {
      var j := BestAt(candidates[..last]);
      NearestGrows(candidates, j);
      if candidates[last].distance >= candidates[j].distance {
        k := j;
      }
    } else {
      assert candidates[..0] == [];
    }
  }

  lemma NearestGrows(candidates: seq<Candidate>, j: nat)
    requires j < |candidates| - 1 && FirstNearest(candidates[..|candidates| - 1], j)
    ensures FirstNearest(candidates, if candidates[|candidates| - 1].distance < candidates[j].distance then |candidates| - 1 else j)
  {
    var before := candidates[..|candidates| - 1];
    assert forall i :: 0 <= i < |before| ==> before[i] == candidates[i];
  }

  lemma BestIsFirstNearest(candidates: seq<Candidate>)
    ensures candidates == [] <==> Best(candidates).None?
    ensures Best(candidates).Some? ==> exists k :: 0 <= k < |candidates| && FirstNearest(candidates, k)
                                                   && candidates[k] == Best(candidates).value
  {
    if candidates != [] {
      var k := BestAt(candidates);
    }
  }

  /** No candidate is nearer, and none before it is as near. */
  ghost predicate FirstNearest(candidates: seq<Candidate>, k: nat)
    requires k < |candidates|
  {
    && (forall j :: 0 <= j < |candidates| ==> candidates[k].distance <= candidates[j].distance)
    && forall j :: 0 <= j < k ==> candidates[k].distance < candidates[j].distance
  }

  /** The option the focus selects. */
  function FocusChoice(s: string, options: seq<string>, focus: string): (r: Option<string>)
    requires focus != "" && forall k :: 0 <= k < |options| ==> options[k] != ""
    ensures r.Some? ==> r.value in options
  {
    var places := Matches(s, focus, 0);
    if places == [] then None
    else
      var candidates := AllCandidates(s, places, options);
      var best := Best(candidates);
      BestIsFirstNearest(candidates);
      if best.Some? then Some(options[best.value.option]) else None
  }

  lemma BestAppend(a: seq<Candidate>, c: Candidate)
    ensures Best(a + [c]) == if Best(a).None? || c.distance < Best(a).value.distance then Some(c) else Best(a)
  {
  }

  /** The inner loop: keeps the first nearest of further candidates. */
  method BestAmong(start: Option<Candidate>, more: seq<Candidate>, ghost before: seq<Candidate>)
    returns (best: Option<Candidate>)
    requires start == Best(before)
    ensures best == Best(before + more)
  {
    best := start;
    assert before + more[..0] == before;
    for k := 0 to |more|
      invariant best == Best(before + more[..k])
    {
      assert before + more[..k + 1] == (before + more[..k]) + [more[k]];
      BestAppend(before + more[..k], more[k]);
      if best.None? || more[k].distance < best.value.distance {
        best := Some(more[k]);
      }
    }
    assert more[..|more|] == more;
  }

  /** The loops over options and their occurrences. */
  method MatchShortAnswerByFocus(value: string, options: seq<string>, focus: string) returns (r: Option<string>)
    requires focus != "" && forall k :: 0 <= k < |options| ==> options[k] != ""
    ensures r == FocusChoice(value, options, focus)
  {
    var positions := Matches(value, focus, 0);
    if positions == [] {
      return None;
    }
    var best: Option<Candidate> := None;
    for i := 0 to |options|
      invariant best == Best(AllCandidates(value, positions, options[..i]))
    {
      assert options[..i + 1][..i] == options[..i];
      var here := CandidatesOf(value, positions, i, Matches(value, options[i], 0));
      best := BestAmong(best, here, AllCandidates(value, positions, options[..i]));
    }
    assert options[..|options|] == options;
    BestIsFirstNearest(AllCandidates(value, positions, options));
    if best.None? {
      return None;
    }
    r := Some(options[best.value.option]);
  }

  /** The k-th occurrence of option `o` is among the candidates. */
  lemma {:induction false} CandidateListed(s: string, focus: seq<nat>, options: seq<string>, o: nat, k: nat)
    requires focus != [] && (forall i :: 0 <= i < |focus| ==> focus[i] <= |s|)
    requires forall i :: 0 <= i < |options| ==> options[i] != ""
    requires o < |options| && k < |Matches(s, options[o], 0)|
    ensures Candidate(o, NearestGap(s, focus, Matches(s, options[o], 0)[k])) in AllCandidates(s, focus, options)
  {
    var last := |options| - 1;
    if o < last {
      CandidateListed(s, focus, options[..last], o, k);
    } else {
      assert CandidatesOf(s, focus, last, Matches(s, options[last], 0))[k] in AllCandidates(s, focus, options);
    }
  }

  /** Every candidate is an occurrence of its option. */
  lemma {:induction false} CandidateIsOccurrence(s: string, focus: seq<nat>, options: seq<string>, c: Candidate) returns (k: nat)
    requires focus != [] && (forall i :: 0 <= i < |focus| ==> focus[i] <= |s|)
    requires forall i :: 0 <= i < |options| ==> options[i] != ""
    requires c in AllCandidates(s, focus, options)
    ensures c.option < |options| && k < |Matches(s, options[c.option], 0)|
    ensures c.distance == NearestGap(s, focus, Matches(s, options[c.option], 0)[k])
  {
    var last := |options| - 1;
    var here := CandidatesOf(s, focus, last, Matches(s, options[last], 0));
    if c in AllCandidates(s, focus, options[..last]) {
      k := CandidateIsOccurrence(s, focus, options[..last], c);
    } else {
      k :| 0 <= k < |here| && here[k] == c;
    }
  }

  /** The distance between the k-th occurrence of an option and the f-th of the focus. */
  function ByteGap(s: string, option: string, k: nat, focus: string, f: nat): nat
    requires option != "" && focus != "" && k < |Matches(s, option, 0)| && f < |Matches(s, focus, 0)|
  {
    Gap(ByteOffset(s, Matches(s, focus, 0)[f]), ByteOffset(s, Matches(s, option, 0)[k]))
  }

  /** The best candidate is an occurrence, and no occurrence of any option is nearer to the focus. */
  lemma BestIsNearestOccurrence(s: string, focus: seq<nat>, options: seq<string>, best: Candidate) returns (k: nat)
    requires focus != [] && (forall i :: 0 <= i < |focus| ==> focus[i] <= |s|)
    requires forall i :: 0 <= i < |options| ==> options[i] != ""
    requires Best(AllCandidates(s, focus, options)) == Some(best)
    ensures best.option < |options| && k < |Matches(s, options[best.option], 0)|
    ensures best.distance == NearestGap(s, focus, Matches(s, options[best.option], 0)[k])
    ensures forall o', k' :: 0 <= o' < |options| && 0 <= k' < |Matches(s, options[o'], 0)| ==>
      best.distance <= NearestGap(s, focus, Matches(s, options[o'], 0)[k'])
  {
    var candidates := AllCandidates(s, focus, options);
    BestIsFirstNearest(candidates);
    var at :| 0 <= at < |candidates| && FirstNearest(candidates, at) && candidates[at] == best;
    k := CandidateIsOccurrence(s, focus, options, best);
    forall o', k' | 0 <= o' < |options| && 0 <= k' < |Matches(s, options[o'], 0)|
      ensures best.distance <= NearestGap(s, focus, Matches(s, options[o'], 0)[k'])
    {
      CandidateListed(s, focus, options, o', k');
      ListedIsNoNearer(candidates, at, Candidate(o', NearestGap(s, focus, Matches(s, options[o'], 0)[k'])));
    }
  }

  /** The chosen option has a match from which the way to a match of the focus, in bytes, is no
      longer than from any match of any option to any match of the focus. */
  lemma FocusChoiceIsNearest(s: string, options: seq<string>, focus: string) returns (o: nat, k: nat, f: nat)
    requires focus != "" && forall i :: 0 <= i < |options| ==> options[i] != ""
    ensures FocusChoice(s, options, focus).Some? ==>
      && o < |options| && FocusChoice(s, options, focus) == Some(options[o])
      && k < |Matches(s, options[o], 0)| && f < |Matches(s, focus, 0)|
      && forall o', k', f' ::
           0 <= o' < |options| && 0 <= k' < |Matches(s, options[o'], 0)| && 0 <= f' < |Matches(s, focus, 0)| ==>
             ByteGap(s, options[o], k, focus, f) <= ByteGap(s, options[o'], k', focus, f')
  {
    o, k, f := 0, 0, 0;
    if FocusChoice(s, options, focus).None? {
      return;
    }
    var places := Matches(s, focus, 0);
    var best := Best(AllCandidates(s, places, options)).value;
    o := best.option;
    k := BestIsNearestOccurrence(s, places, options, best);
    f := NearestAttained(Offsets(s, places), ByteOffset(s, Matches(s, options[o], 0)[k]));
    forall o', k', f' |
      0 <= o' < |options| && 0 <= k' < |Matches(s, options[o'], 0)| && 0 <= f' < |places|
      ensures ByteGap(s, options[o], k, focus, f) <= ByteGap(s, options[o'], k', focus, f')
    {
      NearestIsLeast(Offsets(s, places), ByteOffset(s, Matches(s, options[o'], 0)[k']), f');
      assert best.distance <= NearestGap(s, places, Matches(s, options[o'], 0)[k']);
    }
  }

  /** The distance in bytes between two places. */
  function PlaceGap(s: string, p: nat, q: nat): nat
    requires p <= |s| && q <= |s|
  {
    Gap(ByteOffset(s, p), ByteOffset(s, q))
  }

  /** Where the search lists every occurrence of the focus and of each option, which it does in
      every text if they cannot overlap themselves, the choice is the nearest over all
      occurrences. */
  lemma FocusChoiceIsNearestOccurrence(s: string, options: seq<string>, focus: string) returns (o: nat, p: nat, f: nat)
    requires focus != "" && forall i :: 0 <= i < |options| ==> options[i] != ""
    requires ListsAll(s, focus) && forall i :: 0 <= i < |options| ==> ListsAll(s, options[i])
    ensures FocusChoice(s, options, focus).Some? ==>
      && o < |options| && FocusChoice(s, options, focus) == Some(options[o])
      && OccursAt(s, options[o], p) && OccursAt(s, focus, f)
      && forall o': nat, p': nat, f': nat ::
           o' < |options| && OccursAt(s, options[o'], p') && OccursAt(s, focus, f') ==>
             PlaceGap(s, f, p) <= PlaceGap(s, f', p')
    ensures FocusChoice(s, options, focus).None? <==>
      (forall f': nat :: !OccursAt(s, focus, f')) || forall o': nat, p': nat :: o' < |options| ==> !OccursAt(s, options[o'], p')
  {
    var k, g;
    o, k, g := FocusChoiceIsNearest(s, options, focus);
    p, f := 0, 0;
    ChoiceExistsIff(s, options, focus);
    if FocusChoice(s, options, focus).Some? {
      p, f := Matches(s, options[o], 0)[k], Matches(s, focus, 0)[g];
      forall o': nat, p': nat, f': nat | o' < |options| && OccursAt(s, options[o'], p') && OccursAt(s, focus, f')
        ensures PlaceGap(s, f, p) <= PlaceGap(s, f', p')
      {
        var k' :| 0 <= k' < |Matches(s, options[o'], 0)| && Matches(s, options[o'], 0)[k'] == p';
        var g' :| 0 <= g' < |Matches(s, focus, 0)| && Matches(s, focus, 0)[g'] == f';
        assert ByteGap(s, options[o], k, focus, g) <= ByteGap(s, options[o'], k', focus, g');
      }
    }
  }

  lemma NoCandidates(s: string, focus: seq<nat>, options: seq<string>)
    requires focus != [] && (forall i :: 0 <= i < |focus| ==> focus[i] <= |s|)
    requires forall i :: 0 <= i < |options| ==> options[i] != ""
    ensures AllCandidates(s, focus, options) == [] <==> forall o :: 0 <= o < |options| ==> Matches(s, options[o], 0) == []
  {
    var candidates := AllCandidates(s, focus, options);
    if candidates != [] {
      var k := CandidateIsOccurrence(s, focus, options, candidates[0]);
    }
    forall o | 0 <= o < |options| && Matches(s, options[o], 0) != [] ensures candidates != [] {
      CandidateListed(s, focus, options, o, 0);
    }
  }

  lemma MatchesIff(s: string, p: string)
    requires p != ""
    ensures Matches(s, p, 0) == [] <==> forall q: nat :: !OccursAt(s, p, q)
  {
    forall q: nat | OccursAt(s, p, q) ensures Matches(s, p, 0) != [] {
      var k := MatchesComplete(s, p, 0, q);
    }
    if Matches(s, p, 0) != [] {
      assert OccursAt(s, p, Matches(s, p, 0)[0]);
    }
  }

  /** There is no choice exactly when the focus or every option is absent. */
  lemma ChoiceExistsIff(s: string, options: seq<string>, focus: string)
    requires focus != "" && forall i :: 0 <= i < |options| ==> options[i] != ""
    ensures FocusChoice(s, options, focus).None? <==>
      (forall f: nat :: !OccursAt(s, focus, f)) || forall o: nat, p: nat :: o < |options| ==> !OccursAt(s, options[o], p)
  {
    MatchesIff(s, focus);
    forall o | 0 <= o < |options|
      ensures Matches(s, options[o], 0) == [] <==> forall q: nat :: !OccursAt(s, options[o], q)
    {
      MatchesIff(s, options[o]);
    }
    if Matches(s, focus, 0) != [] {
      NoCandidates(s, Matches(s, focus, 0), options);
      BestIsFirstNearest(AllCandidates(s, Matches(s, focus, 0), options));
    }
  }

  lemma {:induction false} NoMatchBefore(s: string, p: string, i: nat, j: nat)
    requires p != "" && i <= j && forall q :: i <= q < j ==> !OccursAt(s, p, q)
    ensures Matches(s, p, i) == Matches(s, p, j)
    decreases j - i
  {
    if i < j {
      assert !OccursAt(s, p, i);
      NoMatchBefore(s, p, i + 1, j);
    }
  }

  lemma OnlyMatch(s: string, p: string, k: nat)
    requires p != "" && OccursAt(s, p, k)
    requires forall q :: 0 <= q < k || k + |p| <= q < |s| ==> !OccursAt(s, p, q)
    ensures Matches(s, p, 0) == [k]
  {
    NoMatchBefore(s, p, 0, k);
    NoMatchBefore(s, p, k + |p|, |s|);
  }

  lemma {:induction false} AsciiOffset(s: string, i: nat)
    requires i <= |s| && forall k :: 0 <= k < |s| ==> s[k] as nat < 0x80
    ensures ByteOffset(s, i) == i
  {
    if i > 0 {
      AsciiOffset(s, i - 1);
    }
  }

  lemma OccursAtOne(s: string, c: char)
    ensures forall i :: OccursAt(s, [c], i) <==> 0 <= i < |s| && s[i] == c
  {
    forall i ensures OccursAt(s, [c], i) <==> 0 <= i < |s| && s[i] == c {
      if 0 <= i < |s| {
        assert s[i..i + 1] == [s[i]];
      }
    }
  }

  /** With one match each, the second of two options is chosen when it is nearer. */
  lemma SecondIsNearer(s: string, options: seq<string>, focus: string, a: nat, b: nat, f: nat)
    requires |options| == 2 && options[0] != "" && options[1] != "" && focus != ""
    requires Matches(s, options[0], 0) == [a] && Matches(s, options[1], 0) == [b] && Matches(s, focus, 0) == [f]
    requires a <= |s| && b <= |s| && f <= |s| && PlaceGap(s, f, b) < PlaceGap(s, f, a)
    ensures FocusChoice(s, options, focus) == Some(options[1])
  {
    var candidates := AllCandidates(s, [f], options);
    CandidatesOfTwo(s, [f], options[0], options[1]);
    assert [] + [options[0]] + [options[1]] == options;
    OnlyFocus(s, f, a);
    OnlyFocus(s, f, b);
    assert candidates == [Candidate(0, PlaceGap(s, f, a)), Candidate(1, PlaceGap(s, f, b))];
    BestOfTwo(candidates[0], candidates[1]);
  }

  lemma OnlyFocus(s: string, f: nat, p: nat)
    requires f <= |s| && p <= |s|
    ensures NearestGap(s, [f], p) == PlaceGap(s, f, p)
  {
  }

  lemma BestOfTwo(a: Candidate, b: Candidate)
    requires b.distance < a.distance
    ensures Best([a, b]) == Some(b)
  {
    BestAppend([], a);
    BestAppend([a], b);
    assert [a] + [b] == [a, b] && [] + [a] == [a];
  }

  lemma CandidatesOfTwo(s: string, focus: seq<nat>, a: string, b: string)
    requires a != "" && b != ""
    requires focus != [] && forall k :: 0 <= k < |focus| ==> focus[k] <= |s|
    ensures AllCandidates(s, focus, [] + [a] + [b]) ==
      CandidatesOf(s, focus, 0, Matches(s, a, 0)) + CandidatesOf(s, focus, 1, Matches(s, b, 0))
  {
    AllCandidatesGrow(s, focus, [], a);
    NothingBefore(CandidatesOf(s, focus, 0, Matches(s, a, 0)));
    AllCandidatesGrow(s, focus, [] + [a], b);
  }

  lemma NothingBefore(candidates: seq<Candidate>)
    ensures [] + candidates == candidates
  {
  }

  lemma AllCandidatesGrow(s: string, focus: seq<nat>, options: seq<string>, option: string)
    requires focus != [] && forall k :: 0 <= k < |focus| ==> focus[k] <= |s|
    requires option != "" && forall k :: 0 <= k < |options| ==> options[k] != ""
    ensures AllCandidates(s, focus, options + [option]) ==
      AllCandidates(s, focus, options) + CandidatesOf(s, focus, |options|, Matches(s, option, 0))
  {
    assert (options + [option])[..|options|] == options;
  }

  lemma MatchesInWitness(s: string)
    requires s == "xyxyxFzzzc"
    ensures Matches(s, "F", 0) == [5] && Matches(s, "c", 0) == [9] && Matches(s, "xyx", 0) == [0]
    ensures OccursAt(s, "xyx", 2)
  {
    OccursAtOne(s, 'F');
    OnlyMatch(s, "F", 5);
    OccursAtOne(s, 'c');
    OnlyMatch(s, "c", 9);
    assert s[0] == 'x' && s[1] == 'y' && s[2] == 'x' && s[3] == 'y' && s[4] == 'x';
    assert s[2..5] == "xyx" && s[0..3] == "xyx";
    forall q | 3 <= q < |s| ensures !OccursAt(s, "xyx", q) {
      if q + 3 <= |s| {
        assert s[q..q + 3][0] == s[q] && s[q..q + 3][1] == s[q + 1];
      }
    }
    OnlyMatch(s, "xyx", 0);
  }

  /** A phrase that overlaps itself can be passed over: "c" is chosen at distance 4 although
      "xyx" occurs at distance 3 from the only focus. */
  lemma OverlapMissesNearest() returns (s: string, options: seq<string>, focus: string)
    ensures s == "xyxyxFzzzc" && options == ["xyx", "c"] && focus == "F"
    ensures FocusChoice(s, options, focus) == Some("c")
    ensures Matches(s, focus, 0) == [5] && Matches(s, options[1], 0) == [9]
    ensures OccursAt(s, options[0], 2) && PlaceGap(s, 5, 2) == 3 && PlaceGap(s, 5, 9) == 4
  {
    s, options, focus := "xyxyxFzzzc", ["xyx", "c"], "F";
    MatchesInWitness(s);
    GapsInWitness(s);
    SecondIsNearer(s, options, focus, 0, 9, 5);
  }

  lemma GapsInWitness(s: string)
    requires s == "xyxyxFzzzc"
    ensures PlaceGap(s, 5, 0) == 5 && PlaceGap(s, 5, 2) == 3 && PlaceGap(s, 5, 9) == 4
  {
    AsciiOffset(s, 0);
    AsciiOffset(s, 2);
    AsciiOffset(s, 5);
    AsciiOffset(s, 9);
  }

  lemma ListedIsNoNearer(candidates: seq<Candidate>, at: nat, c: Candidate)
    requires at < |candidates| && FirstNearest(candidates, at) && c in candidates
    ensures candidates[at].distance <= c.distance
  {
  }

  // ----- a line, a whole answer -----

  predicate Contains(s: string, pattern: string) {
    IndexOf(s, pattern).Some?
  }

  function DropPrefix(s: string, prefix: string): string
    requires prefix != ""
  {
    if StartsWith(s, prefix) then DropPrefix(s[|prefix|..], prefix) else s
  }

  predicate IsAnswerPunctuation(c: char) {
    c in ":：。，,！!？?\"'“” "
  }

  function DropPunctuation(s: string): string {
    if s != "" && IsAnswerPunctuation(s[0]) then DropPunctuation(s[1..]) else s
  }

  function Normalize(s: string): string {
    var a := DropPrefix(Trim(s), "最终答案");
    var b := DropPrefix(a, "答案是");
    var c := DropPrefix(b, "答案");
    var d := DropPrefix(c, "结论");
    var e := DropPrefix(d, "答：");
    Trim(DropPunctuation(DropPrefix(e, "答:")))
  }

  predicate ContainsAny(s: string, phrases: seq<string>) {
    exists i :: 0 <= i < |phrases| && Contains(s, phrases[i])
  }

  function DomainHint(options: seq<string>, focus: string): (r: Option<string>)
    ensures r.Some? ==> r.value in options
  {
    var f := Normalize(focus);
    if "录像" !in options || "抓拍" !in options then None
    else if ContainsAny(f, ["持续动作", "连续动作", "持续", "连续", "一直", "不停", "长时间"]) then Some("录像")
    else if ContainsAny(f, ["单次", "瞬时", "一下", "一张", "静态", "抓拍"]) then Some("抓拍")
    else None
  }

  function YesNo(s: string): Option<string> {
    if Contains(s, "不能") || Contains(s, "不行") || Contains(s, "不可以") || Contains(s, "否") then Some("否")
    else if Contains(s, "可以") || Contains(s, "能") || Contains(s, "是") then Some("是")
    else None
  }

  function Normalized(options: seq<string>): (r: seq<string>)
    ensures |r| == |options|
    ensures forall i :: 0 <= i < |r| ==> r[i] == Normalize(options[i])
  {
    seq(|options|, i requires 0 <= i < |options| => Normalize(options[i]))
  }

  function FirstEqual(s: string, names: seq<string>): (r: Option<nat>)
    ensures r.Some? ==> r.value < |names| && names[r.value] == s && forall j :: 0 <= j < r.value ==> names[j] != s
    ensures r.None? ==> s !in names
  {
    if names == [] then None
    else if names[0] == s then Some(0)
    else
      var i := FirstEqual(s, names[1..]);
      assert forall j :: 0 < j < |names| ==> names[j] == names[1..][j - 1];
      if i.Some? then Some(i.value + 1) else None
  }

  /** The first option that the text is, but for normalisation. */
  function Same(s: string, options: seq<string>): (r: Option<string>)
    ensures r.Some? ==> r.value in options
  {
    var i := FirstEqual(s, Normalized(options));
    if i.Some? then Some(options[i.value]) else None
  }

  /** The position of the last occurrence. */
  function LastIndexOf(s: string, pattern: string): Option<nat>
    requires |pattern| <= |s|
  {
    LastIndexFrom(s, pattern, |s| - |pattern|)
  }

  function LastIndexFrom(s: string, pattern: string, i: nat): Option<nat>
    requires i + |pattern| <= |s|
  {
    if s[i..i + |pattern|] == pattern then Some(i)
    else if i == 0 then None
    else LastIndexFrom(s, pattern, i - 1)
  }

  /** The option whose last occurrence comes first, with that position. */
  function Earliest(s: string, options: seq<string>): (r: Option<(nat, string)>)
    ensures r.Some? ==> r.value.1 in options
  {
    if options == [] then None
    else
      var last := |options| - 1;
      var best := Earliest(s, options[..last]);
      var here := if |options[last]| <= |s| then LastIndexOf(s, options[last]) else None;
      if here.Some? && (best.None? || here.value < best.value.0) then Some((here.value, options[last])) else best
  }

  /** What `parse_candle_chat_request` guarantees of the options and the focus it detects. */
  predicate Detected(options: seq<string>, focus: Option<string>) {
    && (forall k :: 0 <= k < |options| ==> options[k] != "")
    && (focus.Some? ==> focus.value != "")
  }

  function MatchLine(value: string, options: seq<string>, focus: Option<string>): (r: Option<string>)
    requires Detected(options, focus)
    ensures r.Some? ==> r.value in options
  {
    var s := Normalize(value);
    if s == "" then None
    else if options == ["是", "否"] && YesNo(s).Some? then YesNo(s)
    else if focus.Some? && FocusChoice(s, options, focus.value).Some? then FocusChoice(s, options, focus.value)
    else if focus.Some? && DomainHint(options, focus.value).Some? then DomainHint(options, focus.value)
    else if Same(s, options).Some? then Same(s, options)
    else
      var earliest := Earliest(s, options);
      if earliest.Some? then Some(earliest.value.1) else None
  }

  /** What one line answers; a blank line is passed over. */
  function LineAnswer(line: string, options: seq<string>, focus: Option<string>): (r: Option<string>)
    requires Detected(options, focus)
    ensures r.Some? ==> r.value in options
  {
    if Trim(line) == "" then None else MatchLine(Trim(line), options, focus)
  }

  function LineAnswers(lines: seq<string>, options: seq<string>, focus: Option<string>): (r: seq<Option<string>>)
    requires Detected(options, focus)
    ensures |r| == |lines|
    ensures forall i :: 0 <= i < |r| ==> r[i] == LineAnswer(lines[i], options, focus)
  {
    seq(|lines|, i requires 0 <= i < |lines| => LineAnswer(lines[i], options, focus))
  }

  /** The last line that yields an answer. */
  function LastAnswer(answers: seq<Option<string>>): (r: Option<string>)
    ensures r.Some? ==> r in answers
  {
    if answers == [] then None
    else if answers[|answers| - 1].Some? then answers[|answers| - 1]
    else LastAnswer(answers[..|answers| - 1])
  }

  function OrElse(a: Option<string>, b: Option<string>): Option<string> {
    if a.Some? then a else b
  }

  function ExtractShortAnswer(value: string, options: seq<string>, focus: Option<string>): (r: Option<string>)
    requires Detected(options, focus)
    ensures r.Some? ==> r.value in options
  {
    if options == [] then None
    else
      OrElse(LastAnswer(LineAnswers(Lines(value), options, focus)), MatchLine(Trim(value), options, focus))
  }

  // ----- which answer wins -----

  lemma {:induction false} LastIndexFromIsLast(s: string, pattern: string, i: nat)
    requires i + |pattern| <= |s|
    ensures var r := LastIndexFrom(s, pattern, i);
      && (r.Some? ==> r.value <= i && OccursAt(s, pattern, r.value)
                      && forall j :: r.value < j <= i ==> !OccursAt(s, pattern, j))
      && (r.None? ==> forall j :: 0 <= j <= i ==> !OccursAt(s, pattern, j))
  {
    if s[i..i + |pattern|] != pattern && i > 0 {
      LastIndexFromIsLast(s, pattern, i - 1);
    }
  }

  /** `p` is the last place where the phrase occurs. */
  ghost predicate LastOccurrence(s: string, pattern: string, p: nat) {
    OccursAt(s, pattern, p) && forall j: nat :: OccursAt(s, pattern, j) ==> j <= p
  }

  lemma LastIndexIsLast(s: string, pattern: string, p: nat)
    requires |pattern| <= |s|
    ensures LastIndexOf(s, pattern) == Some(p) <==> LastOccurrence(s, pattern, p)
    ensures LastIndexOf(s, pattern).None? <==> forall j: nat :: !OccursAt(s, pattern, j)
  {
    LastIndexFromIsLast(s, pattern, |s| - |pattern|);
  }

  lemma OccurrenceFits(s: string, pattern: string)
    ensures |pattern| > |s| ==> forall j: nat :: !OccursAt(s, pattern, j)
  {
  }

  /** The last occurrence of option `o` is at `p`, no other option has its last occurrence before
      that, and no earlier option has it there. */
  ghost predicate OccursFirst(s: string, options: seq<string>, o: int, p: nat) {
    && 0 <= o < |options| && LastOccurrence(s, options[o], p)
    && (forall o', p': nat :: 0 <= o' < |options| && LastOccurrence(s, options[o'], p') ==> p <= p')
    && (forall o', p': nat :: 0 <= o' < o && LastOccurrence(s, options[o'], p') ==> p < p')
  }

  /** What the last of some options is asked for. */
  lemma EarliestStep(s: string, options: seq<string>, option: string)
    ensures var best, r := Earliest(s, options), Earliest(s, options + [option]);
      && (forall p: nat :: LastOccurrence(s, option, p) ==>
            r == if best.None? || p < best.value.0 then Some((p, option)) else best)
      && ((forall j: nat :: !OccursAt(s, option, j)) ==> r == best)
  {
    assert (options + [option])[..|options|] == options;
    if |option| <= |s| {
      forall p: nat ensures LastIndexOf(s, option) == Some(p) <==> LastOccurrence(s, option, p) {
        LastIndexIsLast(s, option, p);
      }
      LastIndexIsLast(s, option, 0);
    } else {
      OccurrenceFits(s, option);
    }
  }

  lemma LastExists(s: string, option: string) returns (p: nat)
    ensures LastOccurrence(s, option, p) || forall j: nat :: !OccursAt(s, option, j)
  {
    p := 0;
    if |option| <= |s| {
      if LastIndexOf(s, option).Some? {
        p := LastIndexOf(s, option).value;
      }
      LastIndexIsLast(s, option, p);
    } else {
      OccurrenceFits(s, option);
    }
  }

  lemma OnlyOneLast(s: string, option: string, p: nat, q: nat)
    requires LastOccurrence(s, option, p) && LastOccurrence(s, option, q)
    ensures p == q
  {
  }

  /** `r` is the first option that occurs first, `None` if no option occurs. */
  ghost predicate IsEarliest(s: string, options: seq<string>, r: Option<(nat, string)>) {
    if r.None? then forall o, p: nat :: 0 <= o < |options| ==> !LastOccurrence(s, options[o], p)
    else exists o :: OccursFirst(s, options, o, r.value.0) && options[o] == r.value.1
  }

  lemma EarlierStays(s: string, options: seq<string>, option: string, o: int, p: nat)
    requires OccursFirst(s, options, o, p)
    requires forall q: nat :: LastOccurrence(s, option, q) ==> p <= q
    ensures OccursFirst(s, options + [option], o, p)
  {
    var all := options + [option];
    forall o', p': nat | 0 <= o' < |all| && LastOccurrence(s, all[o'], p') ensures p <= p' {
      if o' < |options| {
        assert LastOccurrence(s, options[o'], p');
      }
    }
    forall o', p': nat | 0 <= o' < o && LastOccurrence(s, all[o'], p') ensures p < p' {
      assert LastOccurrence(s, options[o'], p');
    }
  }

  lemma NewIsFirst(s: string, options: seq<string>, option: string, p: nat)
    requires LastOccurrence(s, option, p)
    requires forall o, q: nat :: 0 <= o < |options| && LastOccurrence(s, options[o], q) ==> p < q
    ensures OccursFirst(s, options + [option], |options|, p)
  {
    var all := options + [option];
    forall o', p': nat | 0 <= o' < |all| && LastOccurrence(s, all[o'], p') ensures p <= p' && (o' < |options| ==> p < p') {
      if o' < |options| {
        assert LastOccurrence(s, options[o'], p');
      } else {
        OnlyOneLast(s, option, p, p');
      }
    }
  }

  /** Of the options that occur, the one whose last occurrence comes first is chosen, the first of
      them if there are several; none if none occurs. */
  lemma {:induction false} EarliestIsLeast(s: string, options: seq<string>)
    ensures IsEarliest(s, options, Earliest(s, options))
  {
    if options != [] {
      var last := |options| - 1;
      var before, option := options[..last], options[last];
      EarliestIsLeast(s, before);
      assert options == before + [option];
      EarliestStep(s, before, option);
      var p := LastExists(s, option);
      var best := Earliest(s, before);
      if best.Some? {
        var o :| OccursFirst(s, before, o, best.value.0) && before[o] == best.value.1;
        if LastOccurrence(s, option, p) && p < best.value.0 {
          NewIsFirst(s, before, option, p);
        } else {
          forall q: nat | LastOccurrence(s, option, q) ensures best.value.0 <= q {
            OnlyOneLast(s, option, p, q);
          }
          EarlierStays(s, before, option, o, best.value.0);
        }
      } else if LastOccurrence(s, option, p) {
        NewIsFirst(s, before, option, p);
      } else {
        assert forall o :: 0 <= o < last ==> options[o] == before[o];
      }
    }
  }

  /** Place `i` holds an answer and no later place does. */
  ghost predicate IsLastAnswer(answers: seq<Option<string>>, i: int) {
    0 <= i < |answers| && answers[i].Some? && forall j :: i < j < |answers| ==> answers[j].None?
  }

  /** The last line that has an answer decides. */
  lemma {:induction false} LastAnswerIsLast(answers: seq<Option<string>>, i: nat)
    requires IsLastAnswer(answers, i)
    ensures LastAnswer(answers) == answers[i]
  {
    var last := |answers| - 1;
    if i < last {
      assert answers[last].None?;
      LastAnswerIsLast(answers[..last], i);
    }
  }

  lemma {:induction false} NoAnswerAtAll(answers: seq<Option<string>>)
    requires forall i :: 0 <= i < |answers| ==> answers[i].None?
    ensures LastAnswer(answers).None?
  {
    if answers != [] {
      NoAnswerAtAll(answers[..|answers| - 1]);
    }
  }

  lemma OrElseLast(answers: seq<Option<string>>, whole: Option<string>)
    ensures forall i :: IsLastAnswer(answers, i) ==> OrElse(LastAnswer(answers), whole) == answers[i]
    ensures (forall i :: 0 <= i < |answers| ==> answers[i].None?) ==> OrElse(LastAnswer(answers), whole) == whole
  {
    forall i | IsLastAnswer(answers, i) ensures LastAnswer(answers) == answers[i] {
      LastAnswerIsLast(answers, i);
    }
    if forall i :: 0 <= i < |answers| ==> answers[i].None? {
      NoAnswerAtAll(answers);
    }
  }

  /** A whole response: the last answering line decides, and the response taken as one line
      only when no line answers. */
  lemma ExtractIsLastAnswer(value: string, options: seq<string>, focus: Option<string>, answers: seq<Option<string>>)
    requires Detected(options, focus) && options != [] && answers == LineAnswers(Lines(value), options, focus)
    ensures forall i :: IsLastAnswer(answers, i) ==> ExtractShortAnswer(value, options, focus) == answers[i]
    ensures (forall i :: 0 <= i < |answers| ==> answers[i].None?) ==>
      ExtractShortAnswer(value, options, focus) == MatchLine(Trim(value), options, focus)
  {
    OrElseLast(answers, MatchLine(Trim(value), options, focus));
  }

  /** A line that is not blank is answered as its trimmed text is. */
  lemma LineAnswerIs(line: string, options: seq<string>, focus: Option<string>)
    requires Detected(options, focus)
    ensures AllWhite(line) ==> LineAnswer(line, options, focus) == None
    ensures !AllWhite(line) ==> LineAnswer(line, options, focus) == MatchLine(Trim(line), options, focus)
  {
    TrimIsEmptyIff(line);
  }

  /** Option `o` is the first whose normal form is `s`. */
  ghost predicate FirstNamed(s: string, options: seq<string>, o: int) {
    var names := Normalized(options);
    0 <= o < |names| && names[o] == s && forall j :: 0 <= j < o ==> names[j] != s
  }

  /** Without a focus, and unless the options are yes and no: a line that is an option and nothing
      else is answered by the first such option, any other by the option whose last occurrence
      comes first, and not at all exactly when no option occurs. */
  lemma LineWithoutFocus(value: string, options: seq<string>)
    requires Detected(options, None) && options != ["是", "否"] && Normalize(value) != ""
    ensures var s, r := Normalize(value), MatchLine(value, options, None);
      && (forall o :: FirstNamed(s, options, o) ==> r == Some(options[o]))
      && (s !in Normalized(options) ==>
            if r.None? then forall o, p: nat :: 0 <= o < |options| ==> !LastOccurrence(s, options[o], p)
            else exists o, p: nat :: OccursFirst(s, options, o, p) && options[o] == r.value)
  {
    EarliestIsLeast(Normalize(value), options);
  }

  // ----- normal forms -----

  /** Text that normalising leaves alone: it begins with no white space, punctuation or first
      letter of an answer word, and does not end in white space. */
  predicate IsBare(b: string) {
    && b != "" && !IsWhite(b[0]) && !IsWhite(b[|b| - 1])
    && !IsAnswerPunctuation(b[0]) && b[0] != '最' && b[0] != '答' && b[0] != '结'
  }

  lemma DropsNothing(s: string, prefix: string)
    requires prefix != "" && s != "" && s[0] != prefix[0]
    ensures DropPrefix(s, prefix) == s
  {
    if |s| >= |prefix| {
      assert s[..|prefix|][0] == s[0];
    }
  }

  lemma DropsOnce(s: string, prefix: string)
    requires prefix != "" && s != "" && s[0] != prefix[0]
    ensures DropPrefix(prefix + s, prefix) == s
  {
    DropsNothing(s, prefix);
    assert (prefix + s)[..|prefix|] == prefix && (prefix + s)[|prefix|..] == s;
  }

  /** Nothing but the words that begin with one of these letters is dropped. */
  lemma NormalizeOther(s: string)
    requires s != "" && s[0] != '最' && s[0] != '答' && s[0] != '结' && Trim(s) == s
    ensures Normalize(s) == Trim(DropPunctuation(s))
  {
    DropsNothing(s, "最终答案");
    DropsNothing(s, "答案是");
    DropsNothing(s, "答案");
    DropsNothing(s, "结论");
    DropsNothing(s, "答：");
    DropsNothing(s, "答:");
  }

  lemma NormalizeKeepsBare(b: string)
    requires IsBare(b)
    ensures Normalize(b) == b
  {
    SolidIsTrimmed(b);
    NormalizeOther(b);
  }

  /** The words that introduce an answer. */
  predicate IsAnswerWord(w: string) {
    w == "最终答案" || w == "答案是" || w == "答案" || w == "结论" || w == "答：" || w == "答:"
  }

  /** The characters that may stand between an answer word and the answer. */
  predicate Separates(p: char) {
    || p == ':' || p == '：' || p == '。' || p == '，' || p == ',' || p == '！' || p == '!' || p == '？' || p == '?'
    || p == '"' || p == '\'' || p == '“' || p == '”' || p == ' '
  }

  lemma {:induction false} PunctuationDropped(seps: string, b: string)
    requires (forall i :: 0 <= i < |seps| ==> Separates(seps[i])) && IsBare(b)
    ensures DropPunctuation(seps + b) == b && Trim(b) == b
  {
    if seps == "" {
      assert seps + b == b;
    } else {
      assert (seps + b)[1..] == seps[1..] + b;
      PunctuationDropped(seps[1..], b);
    }
    SolidIsTrimmed(b);
  }

  lemma WordKept(w: string, s: string, prefix: string)
    requires |w| >= 2 && |prefix| >= 2 && (w[0] != prefix[0] || w[1] != prefix[1])
    ensures DropPrefix(w + s, prefix) == w + s
  {
    if |w + s| >= |prefix| {
      assert (w + s)[..|prefix|][0] == w[0] && (w + s)[..|prefix|][1] == w[1];
    }
  }

  /** "答案" is not taken for "答案是". */
  lemma AnswerIsNotAnswerIs(s: string)
    requires s != "" && s[0] != '是'
    ensures DropPrefix("答案" + s, "答案是") == "答案" + s
  {
    assert ("答案" + s)[..3][2] == s[0];
  }

  lemma WordDropped(w: string, tail: string)
    requires IsAnswerWord(w) && tail != "" && Separates(tail[0]) && Trim(w + tail) == w + tail
    ensures Normalize(w + tail) == Trim(DropPunctuation(tail))
  {
    DropsNothing(tail, "答案是");
    DropsNothing(tail, "答案");
    DropsNothing(tail, "结论");
    DropsNothing(tail, "答：");
    DropsNothing(tail, "答:");
    DropsOnce(tail, w);
    if w != "最终答案" {
      WordKept(w, tail, "最终答案");
      if w == "答案" {
        AnswerIsNotAnswerIs(tail);
      } else if w != "答案是" {
        WordKept(w, tail, "答案是");
        WordKept(w, tail, "答案");
        if w != "结论" {
          WordKept(w, tail, "结论");
          if w == "答:" {
            WordKept(w, tail, "答：");
          }
        }
      }
    }
  }

  /** Every answer word, with the punctuation behind it, is dropped from an answer. */
  lemma NormalizeDropsWord(w: string, seps: string, b: string)
    requires IsAnswerWord(w) && IsBare(b)
    requires seps != "" && forall i :: 0 <= i < |seps| ==> Separates(seps[i])
    ensures Normalize(w + (seps + b)) == b
  {
    SolidIsTrimmed(w + (seps + b));
    WordDropped(w, seps + b);
    PunctuationDropped(seps, b);
  }

  /** So are repetitions of a word that is dropped. */
  lemma {:induction false} DropPrefixRepeats(s: string, prefix: string)
    requires prefix != ""
    ensures DropPrefix(prefix + s, prefix) == DropPrefix(s, prefix)
    ensures !StartsWith(DropPrefix(s, prefix), prefix)
  {
    assert (prefix + s)[..|prefix|] == prefix && (prefix + s)[|prefix|..] == s;
    if StartsWith(s, prefix) {
      DropPrefixRepeats(s[|prefix|..], prefix);
    }
  }

  /** White space around an answer does not matter. */
  lemma NormalizeIgnoresWhite(a: string, s: string, b: string)
    requires AllWhite(a) && AllWhite(b) && s != "" && !IsWhite(s[0]) && !IsWhite(s[|s| - 1])
    ensures Normalize(a + s + b) == Normalize(s)
  {
    TrimPadded(a, s, b);
    SolidIsTrimmed(s);
  }

  // ----- yes or no, hints, and the order of the rules -----

  /** The phrase occurs somewhere. */
  ghost predicate Occurs(s: string, phrase: string) {
    exists i :: OccursAt(s, phrase, i)
  }

  lemma ContainsIffOccurs(s: string, phrase: string)
    ensures Contains(s, phrase) <==> Occurs(s, phrase)
  {
    IndexOfIsFirst(s, phrase, 0);
  }

  ghost predicate SaysNo(s: string) {
    Occurs(s, "不能") || Occurs(s, "不行") || Occurs(s, "不可以") || Occurs(s, "否")
  }

  ghost predicate SaysYes(s: string) {
    Occurs(s, "可以") || Occurs(s, "能") || Occurs(s, "是")
  }

  lemma YesNoWords(s: string)
    ensures YesNo(s) == if SaysNo(s) then Some("否") else if SaysYes(s) then Some("是") else None
  {
    ContainsIffOccurs(s, "不能");
    ContainsIffOccurs(s, "不行");
    ContainsIffOccurs(s, "不可以");
    ContainsIffOccurs(s, "否");
    ContainsIffOccurs(s, "可以");
    ContainsIffOccurs(s, "能");
    ContainsIffOccurs(s, "是");
  }

  /** No option occurs in the text. */
  ghost predicate NoneOccurs(s: string, options: seq<string>) {
    forall o :: 0 <= o < |options| ==> !Occurs(s, options[o])
  }

  lemma NoChoiceIff(s: string, options: seq<string>, focus: string)
    requires focus != "" && forall i :: 0 <= i < |options| ==> options[i] != ""
    ensures FocusChoice(s, options, focus).None? <==> !Occurs(s, focus) || NoneOccurs(s, options)
  {
    ChoiceExistsIff(s, options, focus);
    if !NoneOccurs(s, options) {
      var o :| 0 <= o < |options| && Occurs(s, options[o]);
      var p :| OccursAt(s, options[o], p);
    }
  }

  lemma NoneIsEarliest(s: string, options: seq<string>)
    ensures NoneOccurs(s, options) ==> Earliest(s, options).None?
  {
    EarliestIsLeast(s, options);
    if Earliest(s, options).Some? {
      var o :| OccursFirst(s, options, o, Earliest(s, options).value.0);
      assert Occurs(s, options[o]);
    }
  }

  lemma OccursInItself(s: string)
    ensures Occurs(s, s)
  {
    assert OccursAt(s, s, 0);
  }

  /** The normal forms of bare options that do not occur in a text are not the text. */
  lemma NoneIsSame(s: string, options: seq<string>)
    requires forall o :: 0 <= o < |options| ==> IsBare(options[o])
    ensures NoneOccurs(s, options) ==> Same(s, options).None?
  {
    var i := FirstEqual(s, Normalized(options));
    if i.Some? {
      NormalizeKeepsBare(options[i.value]);
      OccursInItself(s);
    }
  }

  /** With the options yes and no, whatever the focus: the answer is no exactly when one of four
      negative words occurs, yes exactly when none of them but one of three positive words does,
      and there is none otherwise. */
  lemma YesNoLine(value: string, options: seq<string>, focus: Option<string>)
    requires options == ["是", "否"] && Detected(options, focus) && Normalize(value) != ""
    ensures var s, r := Normalize(value), MatchLine(value, options, focus);
      && (r == Some("否") <==> SaysNo(s))
      && (r == Some("是") <==> !SaysNo(s) && SaysYes(s))
      && (r == None <==> !SaysNo(s) && !SaysYes(s))
  {
    var s := Normalize(value);
    YesNoWords(s);
    assert "是" != "否" by {
      assert "是"[0] != "否"[0];
    }
    if !SaysNo(s) && !SaysYes(s) {
      assert NoneOccurs(s, options);
      NoOtherRule(s, options, focus);
    }
  }

  /** None of the rules after the first answers when no option occurs and the wording of the focus
      does not matter. */
  lemma NoOtherRule(s: string, options: seq<string>, focus: Option<string>)
    requires Detected(options, focus) && NoneOccurs(s, options)
    requires forall o :: 0 <= o < |options| ==> IsBare(options[o]) && |options[o]| == 1
    ensures focus.Some? ==> FocusChoice(s, options, focus.value).None? && DomainHint(options, focus.value).None?
    ensures Same(s, options).None? && Earliest(s, options).None?
  {
    if focus.Some? {
      NoChoiceIff(s, options, focus.value);
      NotTheDomain(options, focus.value);
    }
    NoneIsSame(s, options);
    NoneIsEarliest(s, options);
  }

  lemma NotTheDomain(options: seq<string>, focus: string)
    requires forall o :: 0 <= o < |options| ==> |options[o]| == 1
    ensures DomainHint(options, focus).None?
  {
    assert |"录像"| == 2;
  }

  ghost predicate SaysLasting(s: string) {
    || Occurs(s, "持续动作") || Occurs(s, "连续动作") || Occurs(s, "持续") || Occurs(s, "连续")
    || Occurs(s, "一直") || Occurs(s, "不停") || Occurs(s, "长时间")
  }

  ghost predicate SaysMomentary(s: string) {
    || Occurs(s, "单次") || Occurs(s, "瞬时") || Occurs(s, "一下") || Occurs(s, "一张") || Occurs(s, "静态") || Occurs(s, "抓拍")
  }

  lemma ContainsAnyIffOccurs(s: string, phrases: seq<string>)
    ensures ContainsAny(s, phrases) <==> exists i :: 0 <= i < |phrases| && Occurs(s, phrases[i])
  {
    forall i | 0 <= i < |phrases| ensures Contains(s, phrases[i]) <==> Occurs(s, phrases[i]) {
      ContainsIffOccurs(s, phrases[i]);
    }
  }

  lemma LastingIff(s: string, phrases: seq<string>)
    requires phrases == ["持续动作", "连续动作", "持续", "连续", "一直", "不停", "长时间"]
    ensures ContainsAny(s, phrases) <==> SaysLasting(s)
  {
    ContainsAnyIffOccurs(s, phrases);
    assert phrases[0] == "持续动作" && phrases[1] == "连续动作" && phrases[2] == "持续" && phrases[3] == "连续"
        && phrases[4] == "一直" && phrases[5] == "不停" && phrases[6] == "长时间";
  }

  lemma MomentaryIff(s: string, phrases: seq<string>)
    requires phrases == ["单次", "瞬时", "一下", "一张", "静态", "抓拍"]
    ensures ContainsAny(s, phrases) <==> SaysMomentary(s)
  {
    ContainsAnyIffOccurs(s, phrases);
    assert phrases[0] == "单次" && phrases[1] == "瞬时" && phrases[2] == "一下" && phrases[3] == "一张"
        && phrases[4] == "静态" && phrases[5] == "抓拍";
  }

  /** With recording and snapshot among the options, words of duration ask for the first, else
      words of a moment for the second. */
  lemma DomainHintWords(options: seq<string>, focus: string)
    ensures var f := Normalize(focus);
      DomainHint(options, focus) ==
        if "录像" in options && "抓拍" in options && SaysLasting(f) then Some("录像")
        else if "录像" in options && "抓拍" in options && SaysMomentary(f) then Some("抓拍")
        else None
  {
    LastingIff(Normalize(focus), ["持续动作", "连续动作", "持续", "连续", "一直", "不停", "长时间"]);
    MomentaryIff(Normalize(focus), ["单次", "瞬时", "一下", "一张", "静态", "抓拍"]);
  }

  /** The order of the rules, other than for yes and no: the option nearest to the focus if both
      occur; else what the wording of the focus asks for; else as if there were no focus. */
  lemma LineWithFocus(value: string, options: seq<string>, focus: string)
    requires Detected(options, Some(focus)) && options != ["是", "否"] && Normalize(value) != ""
    ensures var s, r := Normalize(value), MatchLine(value, options, Some(focus));
      var domain := "录像" in options && "抓拍" in options;
      r == if Occurs(s, focus) && !NoneOccurs(s, options) then FocusChoice(s, options, focus)
           else if domain && SaysLasting(Normalize(focus)) then Some("录像")
           else if domain && SaysMomentary(Normalize(focus)) then Some("抓拍")
           else MatchLine(value, options, None)
  {
    NoChoiceIff(Normalize(value), options, focus);
    DomainHintWords(options, focus);
  }

  /** An empty normal form has no answer. */
  lemma EmptyLineHasNoAnswer(value: string, options: seq<string>, focus: Option<string>)
    requires Detected(options, focus)
    ensures Normalize(value) == "" ==> MatchLine(value, options, focus).None?
  {
  }
}

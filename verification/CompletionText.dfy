/** Cleaning up the text of a local chat completion before it is returned. */
module CompletionText {
  import opened Wrappers
  import opened Text

  // ----- thinking tags -----

  const OPEN_TAG := "<think>"
  const CLOSE_TAG := "</think>"
  const OPEN_STEM := "<think"

  /** One turn of the tag loop on a left-trimmed text: what it goes on with, or `None` to stop. */
  function StripTag(s: string): (r: Option<string>)
    ensures r.Some? ==> |r.value| < |s| && IsSuffix(r.value, s)
    ensures r.None? ==> !StartsWith(s, OPEN_TAG) && !StartsWith(s, CLOSE_TAG)
    ensures r.None? && StartsWith(s, OPEN_STEM) ==> '>' !in s
  {
    if StartsWith(s, OPEN_TAG) then
      var rest := s[|OPEN_TAG|..];
      var end := IndexOf(rest, CLOSE_TAG);
      if end.Some? then
        IndexOfIsFirst(rest, CLOSE_TAG, end.value);
        Some(rest[end.value + |CLOSE_TAG|..])
      else Some(rest)
    else if StartsWith(s, CLOSE_TAG) then Some(s[|CLOSE_TAG|..])
    else if StartsWith(s, OPEN_STEM) then
      var rest := s[|OPEN_STEM|..];
      var end := IndexOf(rest, ">");
      if end.Some? then
        IndexOfIsFirst(rest, ">", end.value);
        Some(rest[end.value + 1..])
      else
        NoBracket(s);
        None
    else None
  }

  lemma NoBracket(s: string)
    requires StartsWith(s, OPEN_STEM) && IndexOf(s[|OPEN_STEM|..], ">").None?
    ensures '>' !in s
  {
    var rest := s[|OPEN_STEM|..];
    IndexOfIsFirst(rest, ">", 0);
    forall i | 0 <= i < |s| ensures s[i] != '>' {
      if i < |OPEN_STEM| {
        assert s[i] == s[..|OPEN_STEM|][i] == OPEN_STEM[i];
      } else {
        var j := i - |OPEN_STEM|;
        assert !OccursAt(rest, ">", j);
        assert rest[j..j + 1] == [rest[j]];
      }
    }
  }

  function StripTags(s: string): string
    decreases |s|
  {
    var trimmed := TrimStart(s);
    TrimStartResult(s);
    var next := StripTag(trimmed);
    if next.Some? then StripTags(next.value) else trimmed
  }

  /** The tag loop terminates and computes the recursive definition. */
  method StripThinkTags(text: string) returns (output: string)
    ensures output == StripTags(text)
  {
    output := text;
    while true
      invariant StripTags(output) == StripTags(text)
      decreases |output|
    {
      var trimmed := TrimStart(output);
      TrimStartResult(output);
      var next := StripTag(trimmed);
      if next.None? {
        output := trimmed;
        break;
      }
      output := next.value;
    }
  }

  /** What the tag loop leaves: an end piece of the text, without leading white space or tag,
      and nothing more to strip. */
  lemma {:induction false} StripTagsResult(s: string)
    ensures var r := StripTags(s);
      && IsSuffix(r, s)
      && (r != "" ==> !IsWhite(r[0]))
      && !StartsWith(r, OPEN_TAG) && !StartsWith(r, CLOSE_TAG)
      && (StartsWith(r, OPEN_STEM) ==> '>' !in r)
      && StripTags(r) == r
    decreases |s|
  {
    var trimmed := TrimStart(s);
    TrimStartResult(s);
    var next := StripTag(trimmed);
    if next.Some? {
      StripTagsResult(next.value);
      SuffixOfSuffix(next.value, trimmed, s);
      SuffixOfSuffix(StripTags(next.value), next.value, s);
    } else {
      assert TrimStart(trimmed) == trimmed;
    }
  }

  /** Leading white space does not matter. */
  lemma StripTagsSkips(w: string, s: string)
    requires AllWhite(w) && s != "" && !IsWhite(s[0])
    ensures StripTags(w + s) == StripTags(s) && TrimStart(w + s) == TrimStart(s) == s
  {
    TrimStartSkips(w, s);
  }

  lemma StepStripped(w: string, s: string, rest: string)
    requires AllWhite(w) && s != "" && !IsWhite(s[0]) && StripTag(s) == Some(rest)
    ensures StripTags(w + s) == StripTags(rest)
  {
    StripTagsSkips(w, s);
  }

  lemma OpenBlock(open: string, close: string, a: string, b: string)
    requires open == "<think>" && close == "</think>"
    requires IndexOf(a + close + b, close) == Some(|a|)
    ensures StripTag(open + (a + close + b)) == Some(b)
  {
    var rest := a + close + b;
    assert (open + rest)[..7] == open && (open + rest)[7..] == rest;
    assert rest[|a| + 8..] == b;
  }

  /** A thinking block goes, up to the first closing tag. */
  lemma BlockStripped(w: string, open: string, a: string, close: string, b: string)
    requires AllWhite(w) && open == "<think>" && close == "</think>"
    requires forall j :: 0 <= j < |a| ==> !OccursAt(a + close + b, close, j)
    ensures StripTags(w + (open + (a + close + b))) == StripTags(b)
  {
    assert (a + close + b)[|a|..|a| + 8] == close;
    IndexOfIsFirst(a + close + b, close, |a|);
    OpenBlock(open, close, a, b);
    StepStripped(w, open + (a + close + b), b);
  }

  /** Of a block that is never closed, only the tag goes. */
  lemma UnclosedStripped(w: string, open: string, a: string, close: string)
    requires AllWhite(w) && open == "<think>" && close == "</think>"
    requires forall j :: !OccursAt(a, close, j)
    ensures StripTags(w + (open + a)) == StripTags(a)
  {
    IndexOfIsFirst(a, close, 0);
    assert (open + a)[..7] == open && (open + a)[7..] == a;
    StepStripped(w, open + a, a);
  }

  /** A closing tag without a block goes. */
  lemma StrayCloseStripped(w: string, close: string, b: string)
    requires AllWhite(w) && close == "</think>"
    ensures StripTags(w + (close + b)) == StripTags(b)
  {
    var s := close + b;
    assert s[..8] == close && s[8..] == b && s[..7][1] == '/';
    StepStripped(w, s, b);
  }

  /** A tag with attributes goes up to its bracket, its block stays. */
  lemma AttributesStripped(w: string, stem: string, a: string, b: string)
    requires AllWhite(w) && stem == "<think" && a != "" && '>' !in a
    ensures StripTags(w + (stem + (a + ['>'] + b))) == StripTags(b)
  {
    var rest := a + ['>'] + b;
    var s := stem + rest;
    SplitOnceJoin(a, '>', b);
    assert s[..6] == stem && s[6..] == rest;
    assert s[..7][6] == a[0] && s[..8][1] == 't';
    IndexOfIsFirst(rest, ">", |a|);
    assert rest[|a|..|a| + 1] == ">" && rest[|a| + 1..] == b;
    forall j | 0 <= j < |a| ensures !OccursAt(rest, ">", j) {
      assert rest[j..j + 1][0] == a[j];
    }
    StepStripped(w, s, b);
  }

  // ----- blank lines -----

  const TRIPLE := "\n\n\n"

  /** One left-to-right replacement of every triple newline by a double one. */
  function ReplaceTriples(s: string): string {
    ReplaceAll(s, TRIPLE, "\n\n")
  }

  /** The reference: drop every newline that follows two newlines; `k` of them came before. */
  function Collapse(s: string, k: nat): string {
    if s == "" then ""
    else if s[0] != '\n' then [s[0]] + Collapse(s[1..], 0)
    else if k >= 2 then Collapse(s[1..], 2)
    else ['\n'] + Collapse(s[1..], k + 1)
  }

  /** Three newlines in a row start at `i`. */
  ghost predicate TripleAt(s: string, i: int) {
    0 <= i && i + 3 <= |s| && s[i] == '\n' && s[i + 1] == '\n' && s[i + 2] == '\n'
  }

  ghost predicate HasTriple(s: string) {
    exists i :: TripleAt(s, i)
  }

  lemma OccursIsTripleAt(s: string, i: int)
    ensures OccursAt(s, TRIPLE, i) <==> TripleAt(s, i)
  {
  }

  /** No run of newlines, counting `k` that came before, exceeds two. */
  predicate ShortRuns(s: string, k: nat) {
    if s == "" then true
    else if s[0] != '\n' then ShortRuns(s[1..], 0)
    else k < 2 && ShortRuns(s[1..], k + 1)
  }

  lemma {:induction false} ShortRunsMeansNoTriple(s: string, k: nat)
    requires k <= 2
    ensures ShortRuns(s, k) <==>
      && !HasTriple(s)
      && (k >= 1 ==> !(|s| >= 2 && s[0] == '\n' && s[1] == '\n'))
      && (k >= 2 ==> !(|s| >= 1 && s[0] == '\n'))
  {
    if s == "" {
    } else {
      var rest := s[1..];
      assert forall i :: i > 0 ==> (TripleAt(s, i) <==> TripleAt(rest, i - 1));
      assert forall i :: i >= 0 ==> (TripleAt(rest, i) <==> TripleAt(s, i + 1));
      assert HasTriple(s) <==> TripleAt(s, 0) || HasTriple(rest) by {
        if HasTriple(s) && !TripleAt(s, 0) {
          var i :| TripleAt(s, i);
          assert TripleAt(rest, i - 1);
        }
        if HasTriple(rest) {
          var i :| TripleAt(rest, i);
          assert TripleAt(s, i + 1);
        }
      }
      ShortRunsMeansNoTriple(rest, 0);
      if k < 2 {
        ShortRunsMeansNoTriple(rest, k + 1);
      }
    }
  }

  lemma {:induction false} CollapseShortens(s: string, k: nat)
    requires k <= 2
    ensures ShortRuns(Collapse(s, k), k)
    ensures ShortRuns(s, k) ==> Collapse(s, k) == s
  {
    if s != "" {
      CollapseShortens(s[1..], if s[0] != '\n' then 0 else if k >= 2 then 2 else k + 1);
      var rest := Collapse(s[1..], if s[0] != '\n' then 0 else if k >= 2 then 2 else k + 1);
      assert ([s[0]] + rest)[1..] == rest;
    }
  }

  lemma {:induction false} CollapseOfReplaced(s: string, k: nat)
    requires k <= 2
    ensures Collapse(ReplaceTriples(s), k) == Collapse(s, k)
  {
    if s == "" {
    } else if StartsWith(s, TRIPLE) {
      var rest := s[3..];
      CollapseOfReplaced(rest, 2);
      assert s[0] == s[..3][0] && s[1] == s[..3][1] && s[2] == s[..3][2];
      assert s == "\n" + ("\n" + ("\n" + rest));
      Newlines(rest, k);
      Newlines(ReplaceTriples(rest), k);
      assert "\n\n" + ReplaceTriples(rest) == "\n" + ("\n" + ReplaceTriples(rest));
    } else {
      var rest := s[1..];
      CollapseOfReplaced(rest, 0);
      CollapseOfReplaced(rest, 2);
      if k < 2 {
        CollapseOfReplaced(rest, k + 1);
      }
      assert ReplaceTriples(s)[1..] == ReplaceTriples(rest);
    }
  }

  /** Two newlines and three newlines collapse alike. */
  lemma Newlines(rest: string, k: nat)
    requires k <= 2
    ensures Collapse("\n" + ("\n" + rest), k) == Collapse("\n" + ("\n" + ("\n" + rest)), k) ==
      (if k == 0 then "\n\n" else if k == 1 then "\n" else "") + Collapse(rest, 2)
  {
    var one, two, three := "\n" + rest, "\n" + ("\n" + rest), "\n" + ("\n" + ("\n" + rest));
    assert one[1..] == rest && two[1..] == one && three[1..] == two;
    var c := Collapse(rest, 2);
    assert Collapse(one, 2) == c && Collapse(two, 2) == c && Collapse(three, 2) == c;
    assert Collapse(one, 1) == ['\n'] + c && Collapse(two, 1) == ['\n'] + c;
    assert Collapse(two, 0) == ['\n'] + Collapse(one, 1) == "\n\n" + c;
    assert Collapse(three, 1) == ['\n'] + Collapse(two, 2);
    assert Collapse(three, 0) == ['\n'] + Collapse(two, 1) == "\n\n" + c;
  }

  /** The replacement loop terminates, and repeating the replacement until nothing changes
      computes the one-pass definition. */
  method CollapseBlankLines(text: string) returns (r: string)
    ensures r == Collapse(text, 0)
    ensures !HasTriple(r)
  {
    r := text;
    while IndexOf(r, TRIPLE).Some?
      invariant Collapse(r, 0) == Collapse(text, 0)
      decreases |r|
    {
      CollapseOfReplaced(r, 0);
      ReplaceShrinks(r);
      r := ReplaceTriples(r);
    }
    IndexOfIsFirst(r, TRIPLE, 0);
    forall i ensures !TripleAt(r, i) {
      OccursIsTripleAt(r, i);
    }
    ShortRunsMeansNoTriple(r, 0);
    CollapseShortens(r, 0);
  }

  lemma {:induction false} ReplaceShrinks(s: string)
    requires IndexOf(s, TRIPLE).Some?
    ensures |ReplaceTriples(s)| < |s|
  {
    var i := IndexOf(s, TRIPLE).value;
    IndexOfIsFirst(s, TRIPLE, i);
    ReplaceShrinksAt(s, i);
  }

  lemma {:induction false} ReplaceNeverGrows(s: string)
    ensures |ReplaceTriples(s)| <= |s|
  {
    if s != "" {
      ReplaceNeverGrows(s[if StartsWith(s, TRIPLE) then 3 else 1..]);
    }
  }

  lemma {:induction false} ReplaceShrinksAt(s: string, i: nat)
    requires OccursAt(s, TRIPLE, i)
    ensures |ReplaceTriples(s)| < |s|
  {
    if StartsWith(s, TRIPLE) {
      ReplaceNeverGrows(s[3..]);
    } else {
      assert i > 0 by {
        assert s[0..3] == s[..3];
      }
      assert s[1..][i - 1..i + 2] == s[i..i + 3];
      ReplaceShrinksAt(s[1..], i - 1);
    }
  }
}

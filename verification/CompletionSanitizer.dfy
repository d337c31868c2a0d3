/** The completion sanitiser from end to end. */
module CompletionSanitizer {
  import opened Wrappers
  import opened Text
  import opened CompletionText
  import opened ShortAnswers

  /** Every line break, in either notation, becomes a line feed. */
  function NormalizeLineEndings(s: string): string {
    ReplaceAll(ReplaceAll(s, "\r\n", "\n"), "\r", "\n")
  }

  /** The same in one pass. */
  function OnePass(s: string): string {
    if s == "" then ""
    else if StartsWith(s, "\r\n") then "\n" + OnePass(s[2..])
    else [if s[0] == '\r' then '\n' else s[0]] + OnePass(s[1..])
  }

  /** What a reader sees: the text between line breaks, and where the breaks are. */
  function Visible(s: string): string {
    if s == "" then "" else (if s[0] == '\r' || s[0] == '\n' then "" else [s[0]]) + Visible(s[1..])
  }

  lemma ReplaceReturnStep(c: char, s: string)
    ensures ReplaceAll([c] + s, "\r", "\n") == [if c == '\r' then '\n' else c] + ReplaceAll(s, "\r", "\n")
  {
    assert ([c] + s)[1..] == s && ([c] + s)[..1] == [c];
  }

  lemma {:induction false} TwoPassesAreOne(s: string)
    ensures NormalizeLineEndings(s) == OnePass(s)
  {
    if s != "" {
      if StartsWith(s, "\r\n") {
        TwoPassesAreOne(s[2..]);
        ReplaceReturnStep('\n', ReplaceAll(s[2..], "\r\n", "\n"));
      } else {
        TwoPassesAreOne(s[1..]);
        ReplaceReturnStep(s[0], ReplaceAll(s[1..], "\r\n", "\n"));
      }
    }
  }

  lemma {:induction false} OnePassKeeps(s: string)
    ensures '\r' !in OnePass(s)
    ensures Visible(OnePass(s)) == Visible(s)
    ensures '\r' !in s ==> OnePass(s) == s
  {
    if s != "" {
      if StartsWith(s, "\r\n") {
        OnePassKeeps(s[2..]);
        assert s[0] == '\r' && s[1] == '\n' && s[1..][1..] == s[2..];
        assert OnePass(s)[1..] == OnePass(s[2..]);
      } else {
        OnePassKeeps(s[1..]);
        assert OnePass(s)[1..] == OnePass(s[1..]);
      }
    }
  }

  /** No carriage return survives, everything but line breaks does, and a text without carriage
      returns is left alone. */
  lemma NormalizedLineEndings(s: string)
    ensures '\r' !in NormalizeLineEndings(s)
    ensures Visible(NormalizeLineEndings(s)) == Visible(s)
    ensures '\r' !in s ==> NormalizeLineEndings(s) == s
  {
    TwoPassesAreOne(s);
    OnePassKeeps(s);
  }

  // ----- preamble lines -----

  function TrimStartOf(s: string, set': string): string {
    if s != "" && s[0] in set' then TrimStartOf(s[1..], set') else s
  }

  function TrimEndOf(s: string, set': string): string {
    if s != "" && s[|s| - 1] in set' then TrimEndOf(s[..|s| - 1], set') else s
  }

  /** The thirteen words that make a preamble line. */
  function PreambleWord(i: nat): string {
    match i
    case 0 => "分析" case 1 => "分析如下" case 2 => "思考" case 3 => "思考如下" case 4 => "推理" case 5 => "结论"
    case 6 => "最终答案" case 7 => "答案" case 8 => "analysis" case 9 => "reasoning" case 10 => "thinking"
    case 11 => "final answer" case _ => "answer"
  }

  predicate IsPreambleLine(line: string) {
    exists i :: 0 <= i < 13 && PreambleWord(i) == TrimEndOf(TrimStartOf(line, ":：。 \t"), ":：。 \t")
  }

  const AFTER_PREFIX := ":：。，,-— \t"

  /** The twelve words a first line may begin with, in the order in which they are tried. */
  function PreamblePrefix(i: nat): (r: string)
    ensures r != ""
  {
    match i
    case 0 => "最终答案" case 1 => "分析如下" case 2 => "思考如下" case 3 => "analysis" case 4 => "reasoning"
    case 5 => "thinking" case 6 => "final answer" case 7 => "分析" case 8 => "思考" case 9 => "推理"
    case 10 => "结论" case _ => "答案"
  }

  /** Chinese words have no case. */
  predicate BeginsWithPrefix(line: string, i: nat) {
    |line| >= |PreamblePrefix(i)| && EqualsIgnoringCase(line[..|PreamblePrefix(i)|], PreamblePrefix(i))
  }

  /** The first prefix, from the i-th on, that the line begins with. */
  function FindPrefix(line: string, i: nat): (r: Option<nat>)
    ensures r.Some? ==> BeginsWithPrefix(line, r.value)
    decreases 12 - i
  {
    if i >= 12 then None else if BeginsWithPrefix(line, i) then Some(i) else FindPrefix(line, i + 1)
  }

  /** What remains of a line that begins with a preamble word. */
  function StripPreamblePrefix(line: string): Option<string> {
    var i := FindPrefix(line, 0);
    if i.Some? then Some(Trim(TrimStartOf(line[|PreamblePrefix(i.value)|..], AFTER_PREFIX))) else None
  }

  /** What a line yields while no content has been seen, and once it has. */
  datatype Line = Line(first: Option<string>, later: string)

  /** Before any content, blank lines and lines that are nothing but a preamble are dropped, and
      a preamble word is cut off. */
  function Judge(raw: string): Line {
    var line := TrimEnd(raw);
    var trimmed := Trim(line);
    if trimmed == "" then Line(None, "")
    else if IsPreambleLine(trimmed) then Line(None, line)
    else
      match StripPreamblePrefix(trimmed)
      case None => Line(Some(line), line)
      case Some(rest) => Line(if rest == "" then None else Some(rest), line)
  }

  function Judged(judge: string -> Line, rawLines: seq<string>): (r: seq<Line>)
    ensures |r| == |rawLines|
    ensures forall i :: 0 <= i < |r| ==> r[i] == judge(rawLines[i])
  {
    seq(|rawLines|, i requires 0 <= i < |rawLines| => judge(rawLines[i]))
  }

  function Laters(lines: seq<Line>): (r: seq<string>)
    ensures |r| == |lines|
    ensures forall i :: 0 <= i < |r| ==> r[i] == lines[i].later
  {
    seq(|lines|, i requires 0 <= i < |lines| => lines[i].later)
  }

  /** Line `k` is the first with content. */
  ghost predicate FirstContent(lines: seq<Line>, k: nat) {
    k < |lines| && lines[k].first.Some? && forall i :: 0 <= i < k ==> lines[i].first.None?
  }

  function Kept(lines: seq<Line>): seq<string> {
    if lines == [] then []
    else if lines[0].first.None? then Kept(lines[1..])
    else [lines[0].first.value] + Laters(lines[1..])
  }

  lemma {:induction false} KeptFrom(lines: seq<Line>, k: nat)
    requires k <= |lines| && forall i :: 0 <= i < k ==> lines[i].first.None?
    ensures Kept(lines) == Kept(lines[k..])
  {
    if k > 0 {
      KeptFrom(lines[1..], k - 1);
      assert lines[1..][k - 1..] == lines[k..];
    } else {
      assert lines[0..] == lines;
    }
  }

  /** From the first line with content on, everything is kept: that line without its preamble
      word, the later ones without white space at their ends.  Without content nothing is kept. */
  lemma {:induction false} KeptIsContent(lines: seq<Line>)
    ensures forall k: nat :: FirstContent(lines, k) ==> Kept(lines) == [lines[k].first.value] + Laters(lines[k + 1..])
    ensures (forall i :: 0 <= i < |lines| ==> lines[i].first.None?) ==> Kept(lines) == []
  {
    forall k: nat | FirstContent(lines, k) ensures Kept(lines) == [lines[k].first.value] + Laters(lines[k + 1..]) {
      KeptFrom(lines, k);
      assert lines[k..][0] == lines[k] && lines[k..][1..] == lines[k + 1..];
    }
    if forall i :: 0 <= i < |lines| ==> lines[i].first.None? {
      KeptFrom(lines, |lines|);
    }
  }

  /** Once content has been seen, a line only loses the white space at its end. */
  lemma LaterIsTrimmed(raw: string)
    ensures Judge(raw).later == TrimEnd(raw)
  {
    TrimEndResult(raw);
    if TrimEnd(raw) != "" {
      TrimWithSolidEnd(TrimEnd(raw));
    }
  }

  lemma {:induction false} KeptGrows(lines: seq<Line>, line: Line)
    ensures Kept(lines + [line]) ==
      if Kept(lines) != [] then Kept(lines) + [line.later]
      else if line.first.None? then [] else [line.first.value]
  {
    if lines == [] {
      assert (lines + [line])[1..] == [] && Laters([]) == [];
    } else {
      assert (lines + [line])[1..] == lines[1..] + [line];
      if lines[0].first.None? {
        KeptGrows(lines[1..], line);
      } else {
        assert Laters(lines[1..] + [line]) == Laters(lines[1..]) + [line.later];
      }
    }
  }

  lemma KeptAt(lines: seq<Line>, k: nat, j: nat)
    requires FirstContent(lines, k) && k <= j < |lines|
    ensures |Kept(lines)| == |lines| - k
    ensures Kept(lines)[j - k] == if j == k then lines[k].first.value else lines[j].later
  {
    KeptIsContent(lines);
    assert j > k ==> lines[k + 1..][j - k - 1] == lines[j];
  }

  /** In terms of the raw lines: of the first line with content its content is kept, of every later
      line everything but the white space at its end, and nothing else. */
  lemma KeptOfRawLines(rawLines: seq<string>, k: nat, j: nat)
    requires FirstContent(Judged(Judge, rawLines), k) && k <= j < |rawLines|
    ensures |Kept(Judged(Judge, rawLines))| == |rawLines| - k
    ensures Some(Kept(Judged(Judge, rawLines))[j - k]) ==
      if j == k then Judge(rawLines[k]).first else Some(TrimEnd(rawLines[j]))
  {
    KeptAt(Judged(Judge, rawLines), k, j);
    LaterIsTrimmed(rawLines[j]);
  }

  /** The line loop, however lines are judged. */
  method DropPreamble(judge: string -> Line, rawLines: seq<string>) returns (lines: seq<string>)
    ensures lines == Kept(Judged(judge, rawLines))
  {
    lines := [];
    var seenContent := false;
    ghost var judged := Judged(judge, rawLines);
    for i := 0 to |rawLines|
      invariant lines == Kept(judged[..i]) && (seenContent <==> lines != [])
    {
      KeptGrows(judged[..i], judged[i]);
      assert judged[..i + 1] == judged[..i] + [judged[i]];
      var line := judge(rawLines[i]);
      if seenContent {
        lines := lines + [line.later];
      } else if line.first.Some? {
        lines := lines + [line.first.value];
        seenContent := true;
      }
    }
    assert judged[..|rawLines|] == judged;
  }

  lemma OnlyOneFirst(lines: seq<Line>, k: nat)
    requires FirstContent(lines, k)
    ensures forall j: nat :: FirstContent(lines, j) ==> j == k
  {
  }

  function Join(lines: seq<string>): string {
    if lines == [] then ""
    else if |lines| == 1 then lines[0]
    else lines[0] + "\n" + Join(lines[1..])
  }

  /** The lines that are left when the leading tags have been stripped. */
  function InputLines(text: string): seq<Line> {
    Judged(Judge, Lines(StripTags(NormalizeLineEndings(text))))
  }

  /** The free-form text, before a short answer is looked for. */
  function FreeForm(text: string): string {
    Collapse(Trim(Join(Kept(InputLines(text)))), 0)
  }

  // ----- tags behind a preamble -----

  /** The first line with content begins with the tag, after its preamble word if it has one. */
  ghost predicate TagBehindPreamble(text: string, tag: string) {
    exists k: nat :: FirstContent(InputLines(text), k) && StartsWith(TrimStart(InputLines(text)[k].first.value), tag)
  }

  /** Empty, or going on with a new line. */
  predicate IsTail(s: string) {
    s == "" || s[0] == '\n'
  }

  lemma {:induction false} TrimStartOfSuffix(s: string, chars: string)
    ensures IsSuffix(TrimStartOf(s, chars), s)
  {
    if s != "" && s[0] in chars {
      TrimStartOfSuffix(s[1..], chars);
      SuffixOfSuffix(TrimStartOf(s[1..], chars), s[1..], s);
    }
  }

  /** Trimming leaves a piece of the line. */
  lemma TrimIsPiece(s: string)
    ensures '\n' !in s ==> '\n' !in Trim(s)
    ensures Trim(s) != "" ==> !IsWhite(Trim(s)[|Trim(s)| - 1])
  {
    TrimStartResult(s);
    TrimEndResult(TrimStart(s));
  }

  lemma RestIsPiece(line: string, n: nat)
    requires '\n' !in line && n <= |line|
    ensures var r := Trim(TrimStartOf(line[n..], AFTER_PREFIX));
      '\n' !in r && (r != "" ==> !IsWhite(r[|r| - 1]))
  {
    TrimStartOfSuffix(line[n..], AFTER_PREFIX);
    TrimIsPiece(TrimStartOf(line[n..], AFTER_PREFIX));
  }

  /** Text of a line that does not end in white space. */
  predicate IsContent(s: string) {
    s != "" && '\n' !in s && !IsWhite(s[|s| - 1])
  }

  lemma StrippedIsContent(line: string)
    requires '\n' !in line
    ensures var r := StripPreamblePrefix(line); r.Some? && r.value != "" ==> IsContent(r.value)
  {
    var i := FindPrefix(line, 0);
    if i.Some? {
      RestIsPiece(line, |PreamblePrefix(i.value)|);
    }
  }

  lemma LineIsContent(raw: string)
    requires '\n' !in raw
    ensures TrimEnd(raw) != "" ==> IsContent(TrimEnd(raw))
    ensures '\n' !in Trim(TrimEnd(raw))
  {
    TrimEndResult(raw);
    TrimIsPiece(TrimEnd(raw));
  }

  lemma NothingToTrim(line: string)
    ensures line == "" ==> Trim(line) == ""
  {
  }

  lemma ContentIsSolid(raw: string)
    requires '\n' !in raw
    ensures Judge(raw).first.Some? ==> IsContent(Judge(raw).first.value)
  {
    LineIsContent(raw);
    NothingToTrim(TrimEnd(raw));
    StrippedIsContent(Trim(TrimEnd(raw)));
  }

  lemma JoinIsHeadAndTail(head: string, rest: seq<string>)
    ensures exists tail :: IsTail(tail) && Join([head] + rest) == head + tail
  {
    var tail := if rest == [] then "" else "\n" + Join(rest);
    assert ([head] + rest)[1..] == rest;
    assert Join([head] + rest) == head + tail;
  }

  lemma TrimmedHeadAndTail(head: string, tail: string)
    requires IsTail(tail) && head != "" && !IsWhite(head[|head| - 1])
    ensures TrimStart(head) != "" && Trim(head + tail) == TrimStart(head) + TrimEnd(tail)
    ensures IsTail(TrimEnd(tail))
  {
    TrimWithSolidEnd(head);
    TrimStartResult(head);
    TrimStartOfJoined(head, tail);
    TrimEndOfJoined(TrimStart(head), tail);
    TrimEndResult(tail);
  }

  lemma {:induction false} CollapseOfLine(head: string, tail: string, k: nat)
    requires head != "" && '\n' !in head
    ensures Collapse(head + tail, k) == head + Collapse(tail, 0)
  {
    assert (head + tail)[1..] == head[1..] + tail;
    if |head| > 1 {
      CollapseOfLine(head[1..], tail, 0);
    } else {
      assert head[1..] + tail == tail;
    }
  }

  lemma CollapseKeepsTail(tail: string)
    requires IsTail(tail)
    ensures IsTail(Collapse(tail, 0))
  {
  }

  lemma TagInHead(head: string, tail: string, tag: string)
    requires IsTail(tail) && '\n' !in tag
    ensures StartsWith(head + tail, tag) <==> StartsWith(head, tag)
  {
    if |head| >= |tag| {
      assert (head + tail)[..|tag|] == head[..|tag|];
    } else if |head + tail| >= |tag| {
      assert (head + tail)[..|tag|][|head|] == '\n';
    }
  }

  /** What is kept begins with the first line with content, trimmed. */
  lemma KeptBegins(lines: seq<Line>, k: nat)
    requires FirstContent(lines, k)
    requires IsContent(lines[k].first.value)
    ensures exists tail :: IsTail(tail) && Collapse(Trim(Join(Kept(lines))), 0) == TrimStart(lines[k].first.value) + tail
  {
    var head := lines[k].first.value;
    KeptIsContent(lines);
    JoinIsHeadAndTail(head, Laters(lines[k + 1..]));
    var tail :| IsTail(tail) && Join(Kept(lines)) == head + tail;
    TrimmedHeadAndTail(head, tail);
    TrimStartResult(head);
    CollapseOfLine(TrimStart(head), TrimEnd(tail), 0);
    CollapseKeepsTail(TrimEnd(tail));
  }

  lemma InputIsSolid(text: string, k: nat)
    requires k < |InputLines(text)| && InputLines(text)[k].first.Some?
    ensures IsContent(InputLines(text)[k].first.value)
  {
    var stripped := StripTags(NormalizeLineEndings(text));
    LinesAreLines(stripped);
    ContentIsSolid(Lines(stripped)[k]);
  }

  lemma {:induction false} FirstContentFrom(lines: seq<Line>, j: nat) returns (k: nat)
    requires j <= |lines| && forall i :: 0 <= i < j ==> lines[i].first.None?
    ensures k == |lines| || FirstContent(lines, k)
    ensures forall i :: 0 <= i < k ==> lines[i].first.None?
    decreases |lines| - j
  {
    if j == |lines| || lines[j].first.Some? {
      k := j;
    } else {
      k := FirstContentFrom(lines, j + 1);
    }
  }

  /** Exactly when the free-form text begins with a tag, although leading tags were stripped. */
  lemma LeadingTagIff(text: string, tag: string)
    requires tag != "" && '\n' !in tag
    ensures StartsWith(FreeForm(text), tag) <==> TagBehindPreamble(text, tag)
  {
    var lines := InputLines(text);
    var k := FirstContentFrom(lines, 0);
    if k < |lines| {
      InputIsSolid(text, k);
      KeptBegins(lines, k);
      var head := TrimStart(lines[k].first.value);
      var tail :| IsTail(tail) && FreeForm(text) == head + tail;
      TagInHead(head, tail, tag);
      OnlyOneFirst(lines, k);
    } else {
      KeptIsContent(lines);
    }
  }

  /** A first line without preamble words is enough to rule that out. */
  lemma TagNeedsPreamble(text: string, tag: string)
    requires tag == OPEN_TAG || tag == CLOSE_TAG
    requires var raw := Lines(StripTags(NormalizeLineEndings(text)));
      raw != [] ==> Judge(raw[0]).first == Some(TrimEnd(raw[0]))
    ensures !StartsWith(FreeForm(text), tag)
  {
    LeadingTagIff(text, tag);
    var lines, raw := InputLines(text), Lines(StripTags(NormalizeLineEndings(text)));
    if raw != [] {
      assert lines[0] == Judge(raw[0]);
      OnlyOneFirst(lines, 0);
      FirstLineHasNoTag(text, tag);
    }
  }

  lemma FirstLineHasNoTag(text: string, tag: string)
    requires tag == OPEN_TAG || tag == CLOSE_TAG
    requires Lines(StripTags(NormalizeLineEndings(text))) != []
    ensures !StartsWith(TrimStart(TrimEnd(Lines(StripTags(NormalizeLineEndings(text)))[0])), tag)
  {
    var stripped := StripTags(NormalizeLineEndings(text));
    StripTagsResult(NormalizeLineEndings(text));
    LinesAreLines(stripped);
    TrimEndResult(Lines(stripped)[0]);
    NoTagInBeginning(stripped, TrimEnd(Lines(stripped)[0]), tag);
  }

  lemma NoTagInBeginning(s: string, beginning: string, tag: string)
    requires tag != "" && !StartsWith(s, tag) && (s != "" ==> !IsWhite(s[0]))
    requires beginning <= s
    ensures !StartsWith(TrimStart(beginning), tag)
  {
    if beginning != "" {
      assert TrimStart(beginning) == beginning;
      if |beginning| >= |tag| {
        assert s[..|tag|] == beginning[..|tag|];
      }
    }
  }

  function Sanitized(text: string, options: seq<string>, focus: Option<string>): string
    requires Detected(options, focus)
  {
    var free := FreeForm(text);
    var answer := ExtractShortAnswer(free, options, focus);
    if answer.Some? then answer.value else free
  }

  lemma OneInputLine(text: string)
    requires text != "" && '\n' !in text && '\r' !in text && !IsWhite(text[0]) && text[0] != '<'
    ensures InputLines(text) == [Judge(text)]
  {
    NormalizedLineEndings(text);
    NoTagAhead(text);
    IndexOfIsFirst(text, "\n", 0);
    forall i ensures !OccursAt(text, "\n", i) {
      if 0 <= i < |text| {
        assert text[i..i + 1] == [text[i]];
      }
    }
  }

  lemma NoTagAhead(text: string)
    requires text != "" && !IsWhite(text[0]) && text[0] != '<'
    ensures StripTags(text) == text
  {
    assert !StartsWith(text, OPEN_TAG) && !StartsWith(text, CLOSE_TAG) && !StartsWith(text, OPEN_STEM) by {
      assert forall tag: string :: tag != "" && StartsWith(text, tag) ==> text[..|tag|][0] == tag[0];
    }
  }

  lemma {:induction false} FindPrefixAt(line: string, i: nat, k: nat)
    requires i <= k < 12 && BeginsWithPrefix(line, k) && forall j :: i <= j < k ==> !BeginsWithPrefix(line, j)
    ensures FindPrefix(line, i) == Some(k)
    decreases k - i
  {
    if i < k {
      FindPrefixAt(line, i + 1, k);
    }
  }

  /** The characters that may stand between a preamble word and what follows. */
  predicate IsSeparator(c: char) {
    c == ':' || c == '：' || c == '。' || c == '，' || c == ',' || c == '-' || c == '—' || c == ' ' || c == '\t'
  }

  /** A body that nothing is trimmed from. */
  predicate IsSolid(body: string) {
    && body != "" && '\n' !in body && '\r' !in body
    && !IsWhite(body[0]) && !IsWhite(body[|body| - 1]) && !IsSeparator(body[0])
  }

  predicate AllSeparators(sep: string) {
    forall i :: 0 <= i < |sep| ==> IsSeparator(sep[i])
  }

  /** The words that are cut off from a first line. */
  predicate IsPrefixWord(w: string) {
    || w == "最终答案" || w == "分析如下" || w == "思考如下" || w == "analysis" || w == "reasoning" || w == "thinking"
    || w == "final answer" || w == "分析" || w == "思考" || w == "推理" || w == "结论" || w == "答案"
  }

  /** The words that make a line of their own. */
  predicate IsLineWord(w: string) {
    || w == "分析" || w == "分析如下" || w == "思考" || w == "思考如下" || w == "推理" || w == "结论" || w == "最终答案"
    || w == "答案" || w == "analysis" || w == "reasoning" || w == "thinking" || w == "final answer" || w == "answer"
  }

  lemma LineWordFound(w: string)
    ensures IsLineWord(w) <==> exists i :: 0 <= i < 13 && PreambleWord(i) == w
  {
    assert PreambleWord(0) == "分析" && PreambleWord(1) == "分析如下" && PreambleWord(2) == "思考"
        && PreambleWord(3) == "思考如下" && PreambleWord(4) == "推理" && PreambleWord(5) == "结论"
        && PreambleWord(6) == "最终答案" && PreambleWord(7) == "答案" && PreambleWord(8) == "analysis"
        && PreambleWord(9) == "reasoning" && PreambleWord(10) == "thinking" && PreambleWord(11) == "final answer"
        && PreambleWord(12) == "answer";
  }

  /** The characters that may surround such a word. */
  predicate IsPadding(c: char) {
    c == ':' || c == '：' || c == '。' || c == ' ' || c == '\t'
  }

  predicate AllPadding(s: string) {
    forall i :: 0 <= i < |s| ==> IsPadding(s[i])
  }

  lemma {:induction false} TrimStartOfPadding(a: string, s: string, chars: string)
    requires (forall c :: c in chars <==> IsPadding(c)) && AllPadding(a) && (s != "" ==> !IsPadding(s[0]))
    ensures TrimStartOf(a + s, chars) == s
  {
    if a == "" {
      assert a + s == s;
    } else {
      assert (a + s)[1..] == a[1..] + s;
      TrimStartOfPadding(a[1..], s, chars);
    }
  }

  lemma {:induction false} TrimEndOfPadding(s: string, b: string, chars: string)
    requires (forall c :: c in chars <==> IsPadding(c)) && AllPadding(b) && (s != "" ==> !IsPadding(s[|s| - 1]))
    ensures TrimEndOf(s + b, chars) == s
  {
    if b == "" {
      assert s + b == s;
    } else {
      assert (s + b)[..|s + b| - 1] == s + b[..|b| - 1];
      TrimEndOfPadding(s, b[..|b| - 1], chars);
    }
  }

  lemma LineWordIsSolid(w: string)
    requires IsLineWord(w)
    ensures w != "" && !IsPadding(w[0]) && !IsPadding(w[|w| - 1])
  {
  }

  /** A preamble word is a preamble line, with any padding around it. */
  lemma PaddedWordIsPreamble(a: string, w: string, b: string)
    requires AllPadding(a) && AllPadding(b) && IsLineWord(w)
    ensures IsPreambleLine(a + (w + b))
  {
    LineWordIsSolid(w);
    TrimStartOfPadding(a, w + b, ":：。 \t");
    TrimEndOfPadding(w, b, ":：。 \t");
    LineWordFound(w);
  }

  /** Hence it is dropped as long as no content has been seen. */
  lemma PreambleLineDropped(a: string, w: string, b: string)
    requires AllPadding(a) && AllPadding(b) && IsLineWord(w) && Trim(TrimEnd(a + (w + b))) == a + (w + b)
    ensures Judge(a + (w + b)).first == None
  {
    PaddedWordIsPreamble(a, w, b);
  }

  lemma {:induction false} TrimEndOfKeeps(s: string, chars: string, n: nat)
    requires n < |s| && s[n] !in chars
    ensures n < |TrimEndOf(s, chars)| <= |s| && TrimEndOf(s, chars) == s[..|TrimEndOf(s, chars)|]
  {
    if s[|s| - 1] in chars {
      TrimEndOfKeeps(s[..|s| - 1], chars, n);
    }
  }

  /** A separator stands within a preamble word in one place only. */
  lemma SeparatorInWord(i: nat, k: nat)
    requires i < 13 && k < |PreambleWord(i)| && IsSeparator(PreambleWord(i)[k])
    ensures k == 5
  {
  }

  lemma PrefixWordShape(v: string, w: string)
    requires IsPrefixWord(v) && EqualsIgnoringCase(w, v)
    ensures w != "" && |w| != 5 && !IsSeparator(w[0]) && !IsWhite(w[0]) && w[0] != '<' && '\n' !in w && '\r' !in w
  {
    assert forall i :: 0 <= i < |v| ==> Lower(v[i]) != '\n' && Lower(v[i]) != '\r';
    assert Lower(w[0]) == Lower(v[0]);
  }

  lemma NotJustPreamble(w: string, sep: string, body: string)
    requires w != "" && |w| != 5 && !IsSeparator(w[0]) && sep != "" && AllSeparators(sep) && IsSolid(body)
    ensures !IsPreambleLine(w + sep + body)
  {
    var s, chars := w + sep + body, ":：。 \t";
    assert s[0] == w[0] && s[|w|] == sep[0] && s[|w| + |sep|] == body[0];
    assert TrimStartOf(s, chars) == s;
    TrimEndOfKeeps(s, chars, |w| + |sep|);
    var t := TrimEndOf(s, chars);
    forall i | 0 <= i < 13 ensures PreambleWord(i) != t {
      if |w| < |PreambleWord(i)| && IsSeparator(PreambleWord(i)[|w|]) {
        SeparatorInWord(i, |w|);
      }
    }
  }

  lemma PrefixIndex(v: string) returns (k: nat)
    requires IsPrefixWord(v)
    ensures k < 12 && PreamblePrefix(k) == v
  {
    k := if v == "最终答案" then 0 else if v == "分析如下" then 1 else if v == "思考如下" then 2
         else if v == "analysis" then 3 else if v == "reasoning" then 4 else if v == "thinking" then 5
         else if v == "final answer" then 6 else if v == "分析" then 7 else if v == "思考" then 8
         else if v == "推理" then 9 else if v == "结论" then 10 else 11;
  }

  /** The prefixes tried before a word begin differently, or go on where a separator stands. */
  lemma EarlierPrefixDiffers(j: nat, k: nat)
    requires j < k < 12
    ensures var p, v := PreamblePrefix(j), PreamblePrefix(k);
      Lower(p[0]) != Lower(v[0]) || (|p| > |v| && !IsSeparator(p[|v|]) && Lower(p[|v|]) == p[|v|])
  {
  }

  lemma SeparatorHasNoCase(c: char)
    requires IsSeparator(c)
    ensures forall d :: Lower(d) == c ==> d == c
  {
  }

  lemma PrefixFound(k: nat, w: string, tail: string)
    requires k < 12 && EqualsIgnoringCase(w, PreamblePrefix(k)) && tail != "" && IsSeparator(tail[0])
    ensures FindPrefix(w + tail, 0) == Some(k)
  {
    var s := w + tail;
    assert s[..|w|] == w && s[|w|] == tail[0];
    forall j | 0 <= j < k ensures !BeginsWithPrefix(s, j) {
      EarlierPrefixDiffers(j, k);
      var p := PreamblePrefix(j);
      if |s| >= |p| && |p| > |w| {
        assert s[..|p|][0] == w[0] && s[..|p|][|w|] == tail[0];
      } else if |s| >= |p| {
        assert s[..|p|][0] == w[0];
      }
    }
    FindPrefixAt(s, 0, k);
  }

  lemma {:induction false} SeparatorsTrimmed(sep: string, body: string, chars: string)
    requires (forall c :: c in chars <==> IsSeparator(c)) && AllSeparators(sep) && IsSolid(body)
    ensures TrimStartOf(sep + body, chars) == body
  {
    if sep == "" {
      assert sep + body == body;
    } else {
      assert (sep + body)[1..] == sep[1..] + body;
      SeparatorsTrimmed(sep[1..], body, chars);
    }
  }

  /** A preamble word and its separators, written in any mixture of cases. */
  predicate IsPreamble(v: string, w: string, sep: string) {
    IsPrefixWord(v) && EqualsIgnoringCase(w, v) && sep != "" && AllSeparators(sep)
  }

  lemma PrefixStripped(v: string, w: string, sep: string, body: string)
    requires IsPreamble(v, w, sep) && IsSolid(body)
    ensures StripPreamblePrefix(w + sep + body) == Some(body)
  {
    var k := PrefixIndex(v);
    assert w + sep + body == w + (sep + body);
    PrefixFound(k, w, sep + body);
    assert (w + sep + body)[|w|..] == sep + body;
    SeparatorsTrimmed(sep, body, AFTER_PREFIX);
    SolidIsTrimmed(body);
  }

  /** Of a first line, the preamble word and its separators are cut off. */
  lemma ContentBehindPreamble(v: string, w: string, sep: string, body: string)
    requires IsPreamble(v, w, sep) && IsSolid(body)
    ensures Judge(w + sep + body).first == Some(body)
  {
    var s := w + sep + body;
    PrefixWordShape(v, w);
    assert s[0] == w[0] && s[|s| - 1] == body[|body| - 1];
    SolidIsTrimmed(s);
    NotJustPreamble(w, sep, body);
    PrefixStripped(v, w, sep, body);
  }

  lemma OneLineKept(text: string, body: string)
    requires InputLines(text) == [Judge(text)] && Judge(text).first == Some(body) && IsSolid(body)
    ensures FreeForm(text) == body
  {
    KeptIsContent([Judge(text)]);
    assert FirstContent([Judge(text)], 0) && [Judge(text)][1..] == [];
    SolidIsTrimmed(body);
    assert body + "" == body;
    CollapseOfLine(body, "", 0);
  }

  /** Whatever stands behind a preamble word is left, a tag like any other text. */
  lemma PreambleHidesTag(v: string, w: string, sep: string, body: string)
    requires IsPreamble(v, w, sep) && IsSolid(body)
    ensures FreeForm(w + sep + body) == body
  {
    PrefixWordShape(v, w);
    assert '\n' !in sep && '\r' !in sep;
    OneInputLine(w + sep + body);
    ContentBehindPreamble(v, w, sep, body);
    OneLineKept(w + sep + body, body);
  }

  lemma TagSurvives(text: string)
    requires text == "analysis: <think>secret"
    ensures FreeForm(text) == "<think>secret"
  {
    var w, sep, body := "analysis", ": ", "<think>secret";
    assert text == w + sep + body;
    PreambleHidesTag(w, w, sep, body);
  }

  // ----- ordinary lines -----

  lemma {:induction false} NoneFound(line: string, i: nat)
    requires forall v :: IsPrefixWord(v) ==> !(|line| >= |v| && EqualsIgnoringCase(line[..|v|], v))
    ensures FindPrefix(line, i).None?
    decreases 12 - i
  {
    if i < 12 {
      PrefixIsWord(i);
      NoneFound(line, i + 1);
    }
  }

  lemma PrefixIsWord(i: nat)
    ensures IsPrefixWord(PreamblePrefix(i))
  {
  }

  /** Padding, a preamble word, padding. */
  ghost predicate IsPaddedWord(line: string) {
    exists a, w, b :: line == a + (w + b) && AllPadding(a) && AllPadding(b) && IsLineWord(w)
  }

  lemma {:induction false} TrimStartOfCuts(s: string, chars: string)
    requires forall c :: c in chars <==> IsPadding(c)
    ensures exists a :: s == a + TrimStartOf(s, chars) && AllPadding(a)
  {
    if s != "" && s[0] in chars {
      TrimStartOfCuts(s[1..], chars);
      var a :| s[1..] == a + TrimStartOf(s[1..], chars) && AllPadding(a);
      assert s == ([s[0]] + a) + TrimStartOf(s, chars);
    } else {
      assert s == "" + TrimStartOf(s, chars) && AllPadding("");
    }
  }

  lemma {:induction false} TrimEndOfCuts(s: string, chars: string)
    requires forall c :: c in chars <==> IsPadding(c)
    ensures exists b :: s == TrimEndOf(s, chars) + b && AllPadding(b)
  {
    if s != "" && s[|s| - 1] in chars {
      var last := |s| - 1;
      TrimEndOfCuts(s[..last], chars);
      var b :| s[..last] == TrimEndOf(s[..last], chars) + b && AllPadding(b);
      assert s == TrimEndOf(s, chars) + (b + [s[last]]);
    } else {
      assert s == TrimEndOf(s, chars) + "" && AllPadding("");
    }
  }

  lemma PreambleIsPaddedWord(line: string, chars: string)
    requires chars == ":：。 \t" && IsPreambleLine(line)
    ensures IsPaddedWord(line)
  {
    TrimStartOfCuts(line, chars);
    var s := TrimStartOf(line, chars);
    var a :| line == a + s && AllPadding(a);
    TrimEndOfCuts(s, chars);
    var w := TrimEndOf(s, chars);
    var b :| s == w + b && AllPadding(b);
    LineWordFound(w);
  }

  /** A first line that is not blank, begins with no preamble word and is none is kept, but for
      the white space at its end. */
  lemma OrdinaryLineKept(raw: string, line: string)
    requires line == Trim(TrimEnd(raw)) && line != "" && !IsPaddedWord(line)
    requires forall v :: IsPrefixWord(v) ==> !(|line| >= |v| && EqualsIgnoringCase(line[..|v|], v))
    ensures Judge(raw).first == Some(TrimEnd(raw))
  {
    NoneFound(line, 0);
    if IsPreambleLine(line) {
      PreambleIsPaddedWord(line, ":：。 \t");
    }
  }

  /** A completion that is no offered answer begins with a tag exactly when one stands behind the
      preamble. */
  lemma SanitizedTags(text: string, options: seq<string>, focus: Option<string>, tag: string)
    requires Detected(options, focus) && (tag == OPEN_TAG || tag == CLOSE_TAG)
    ensures Sanitized(text, options, focus) in options
            || (StartsWith(Sanitized(text, options, focus), tag) <==> TagBehindPreamble(text, tag))
  {
    LeadingTagIff(text, tag);
  }

  /** Every completion is one of the offered answers, or free text without three newlines in a
      row; `SanitizedTags` says which tags it can begin with. */
  method SanitizeCompletion(text: string, options: seq<string>, focus: Option<string>) returns (r: string)
    requires Detected(options, focus)
    ensures r == Sanitized(text, options, focus)
    ensures r in options || (r == FreeForm(text) && !HasTriple(r))
    ensures options == [] ==> !HasTriple(r)
  {
    var output := StripThinkTags(NormalizeLineEndings(text));
    var lines := DropPreamble(Judge, Lines(output));
    var sanitized := CollapseBlankLines(Trim(Join(lines)));
    var answer := ExtractShortAnswer(sanitized, options, focus);
    if answer.Some? {
      return answer.value;
    }
    r := sanitized;
  }
}

/**
  Reading one RTSP response from a connection that delivers it in arbitrary pieces (section 4.4
  of RFC 2326: the header ends at the first empty line, Content-Length gives the body).  A text is
  one `char` per byte.
 */
module RtspFraming {
  import opened Wrappers
  import opened Text

  const USIZE_MODULUS: nat := 0x1_0000_0000_0000_0000

  const BLANK_LINE := "\r\n\r\n"

  // ----- the header block -----

  predicate IsDigit(c: char) {
    '0' <= c <= '9'
  }

  /** The value of a string of digits. */
  function DigitsValue(s: string): nat {
    if s == "" then 0
    else DigitsValue(s[..|s| - 1]) * 10 + if IsDigit(s[|s| - 1]) then (s[|s| - 1] - '0') as nat else 0
  }

  predicate AllDigits(s: string) {
    forall i :: 0 <= i < |s| ==> IsDigit(s[i])
  }

  /** An unsigned machine integer: digits, at most one leading plus, no overflow. */
  function ParseUsize(s: string): Option<nat> {
    var digits := if s != "" && s[0] == '+' then s[1..] else s;
    if digits == "" || !AllDigits(digits) || DigitsValue(digits) >= USIZE_MODULUS then None
    else Some(DigitsValue(digits))
  }

  /** The length a header line declares, if it is a well-formed Content-Length line. */
  function Declares(line: string): Option<nat> {
    var parts := SplitOnce(line, ":");
    if parts.Some? && EqualsIgnoringCase(Trim(parts.value.0), "Content-Length") then ParseUsize(Trim(parts.value.1))
    else None
  }

  /** The first declaration wins. */
  function FirstDeclared(lines: seq<string>): Option<nat> {
    if lines == [] then None
    else if Declares(lines[0]).Some? then Declares(lines[0])
    else FirstDeclared(lines[1..])
  }

  lemma {:induction false} FirstDeclaredIsFirst(lines: seq<string>, i: nat)
    requires i < |lines| && Declares(lines[i]).Some?
    requires forall j :: 0 <= j < i ==> Declares(lines[j]).None?
    ensures FirstDeclared(lines) == Declares(lines[i])
  {
    if i > 0 {
      assert Declares(lines[0]).None?;
      FirstDeclaredIsFirst(lines[1..], i - 1);
    }
  }

  function ContentLength(headers: string): Option<nat> {
    FirstDeclared(Lines(headers))
  }

  /** A header block as a server writes it: every line ended by CRLF, then an empty line. */
  function Render(lines: seq<string>): string {
    if lines == [] then "\r\n" else lines[0] + "\r\n" + Render(lines[1..])
  }

  lemma LinesStep(line: string, rest: string)
    requires '\n' !in line
    ensures Lines(line + "\r\n" + rest) == [line] + Lines(rest)
  {
    var s := line + "\r\n" + rest;
    assert s == (line + "\r") + ['\n'] + rest;
    SplitOnceJoin(line + "\r", '\n', rest);
    var i := IndexOf(s, "\n").value;
    IndexOfIsFirst(s, "\n", i);
    assert s[..i] == line + "\r" && s[i + 1..] == rest;
  }

  /** Splitting into lines undoes rendering. */
  lemma {:induction false} LinesOfRendered(lines: seq<string>)
    requires forall i :: 0 <= i < |lines| ==> '\n' !in lines[i]
    ensures Lines(Render(lines)) == lines + [""]
  {
    if lines == [] {
      assert "" + "\r\n" + "" == "\r\n";
      LinesStep("", "");
      assert Lines("") == [];
    } else {
      LinesStep(lines[0], Render(lines[1..]));
      LinesOfRendered(lines[1..]);
    }
  }

  /** What the parser reads from a rendered header block is what its first declaring line
      declares, and nothing when there is none. */
  lemma ContentLengthOfRendered(lines: seq<string>)
    requires forall i :: 0 <= i < |lines| ==> '\n' !in lines[i]
    ensures forall i :: 0 <= i < |lines| && Declares(lines[i]).Some?
                        && (forall j :: 0 <= j < i ==> Declares(lines[j]).None?) ==>
      ContentLength(Render(lines)) == Declares(lines[i])
    ensures (forall i :: 0 <= i < |lines| ==> Declares(lines[i]).None?) ==> ContentLength(Render(lines)).None?
    ensures ContentLength(Render(lines)) == FirstDeclared(lines)
  {
    LinesOfRendered(lines);
    EmptyLineDeclaresNothing(lines);
    forall i | 0 <= i < |lines| && Declares(lines[i]).Some? && (forall j :: 0 <= j < i ==> Declares(lines[j]).None?)
      ensures FirstDeclared(lines) == Declares(lines[i])
    {
      FirstDeclaredIsFirst(lines, i);
    }
    NoneDeclared(lines);
  }

  lemma {:induction false} NoneDeclared(lines: seq<string>)
    ensures (forall i :: 0 <= i < |lines| ==> Declares(lines[i]).None?) ==> FirstDeclared(lines).None?
  {
    if lines != [] {
      NoneDeclared(lines[1..]);
    }
  }

  lemma {:induction false} EmptyLineDeclaresNothing(lines: seq<string>)
    ensures FirstDeclared(lines + [""]) == FirstDeclared(lines)
  {
    if lines == [] {
      SplitOnceNone("", ':');
      assert [""][1..] == [];
    } else {
      assert (lines + [""])[1..] == lines[1..] + [""];
      EmptyLineDeclaresNothing(lines[1..]);
    }
  }

  /** Decimal notation. */
  function Decimal(n: nat): string {
    if n < 10 then [DigitChar(n)] else Decimal(n / 10) + [DigitChar(n % 10)]
  }

  function DigitChar(d: nat): (c: char)
    requires d < 10
    ensures IsDigit(c) && (c - '0') as nat == d
  {
    '0' + d as char
  }

  lemma {:induction false} DecimalDigits(n: nat)
    ensures Decimal(n) != "" && AllDigits(Decimal(n))
    ensures DigitsValue(Decimal(n)) == n
  {
    if n < 10 {
      assert [DigitChar(n)][..0] == "";
    } else {
      DecimalDigits(n / 10);
      assert (Decimal(n / 10) + [DigitChar(n % 10)])[..|Decimal(n / 10)|] == Decimal(n / 10);
    }
  }

  function Pow10(k: nat): nat {
    if k == 0 then 1 else 10 * Pow10(k - 1)
  }

  lemma {:induction false} DecimalShort(n: nat, k: nat)
    requires k > 0 && n < Pow10(k)
    ensures |Decimal(n)| <= k
  {
    if n >= 10 {
      DecimalShort(n / 10, k - 1);
    }
  }

  /** The header name in any mixture of cases. */
  predicate IsLengthName(name: string) {
    |name| == 14 && forall i :: 0 <= i < 14 ==> name[i] == "content-length"[i] || name[i] == "CONTENT-LENGTH"[i]
  }

  lemma LengthNameIff(name: string, lower: string, upper: string, mixed: string)
    requires lower == "content-length" && upper == "CONTENT-LENGTH" && mixed == "Content-Length"
    ensures EqualsIgnoringCase(name, mixed) <==>
      |name| == 14 && forall i :: 0 <= i < 14 ==> name[i] == lower[i] || name[i] == upper[i]
  {
    forall i | 0 <= i < 14 ensures forall c :: Lower(c) == Lower(mixed[i]) <==> c == lower[i] || c == upper[i] {
    }
  }

  /** Digits, or a plus and digits. */
  lemma ParseDecimal(n: nat)
    ensures ParseUsize(Decimal(n)) == ParseUsize("+" + Decimal(n)) ==
      if n < 18_446_744_073_709_551_616 then Some(n) else None
  {
    DecimalDigits(n);
    assert ("+" + Decimal(n))[1..] == Decimal(n);
  }

  lemma NoColon(before: string, name: string, behind: string)
    requires AllWhite(before) && AllWhite(behind) && IsLengthName(name)
    ensures ':' !in before + name + behind
  {
    assert ':' !in before && ':' !in behind;
    assert forall i :: 0 <= i < 14 ==> "content-length"[i] != ':' && "CONTENT-LENGTH"[i] != ':';
  }

  lemma NameRead(before: string, name: string, behind: string)
    requires AllWhite(before) && AllWhite(behind) && IsLengthName(name)
    ensures EqualsIgnoringCase(Trim(before + name + behind), "Content-Length")
  {
    assert name[0] == "content-length"[0] || name[0] == "CONTENT-LENGTH"[0];
    assert name[13] == "content-length"[13] || name[13] == "CONTENT-LENGTH"[13];
    TrimPadded(before, name, behind);
    LengthNameIff(name, "content-length", "CONTENT-LENGTH", "Content-Length");
  }

  /** Every machine integer can be declared and is read back, in any mixture of cases, with white
      space around the name and the number and with or without a plus; a larger number is no
      declaration. */
  lemma DeclaresDecimal(before: string, name: string, behind: string, left: string, number: string, right: string, n: nat)
    requires AllWhite(before) && AllWhite(behind) && AllWhite(left) && AllWhite(right) && IsLengthName(name)
    requires number == Decimal(n) || number == "+" + Decimal(n)
    ensures Declares((before + name + behind) + [':'] + (left + number + right)) ==
      if n < 18_446_744_073_709_551_616 then Some(n) else None
  {
    NoColon(before, name, behind);
    SplitOnceJoin(before + name + behind, ':', left + number + right);
    NameRead(before, name, behind);
    DecimalDigits(n);
    TrimPadded(left, number, right);
    ParseDecimal(n);
  }

  lemma DeclaresUnpadded(name: string, n: nat)
    requires IsLengthName(name) && n < USIZE_MODULUS
    ensures Declares(name + [':'] + Decimal(n)) == Some(n)
  {
    DeclaresDecimal("", name, "", "", Decimal(n), "", n);
    assert "" + name + "" == name && "" + Decimal(n) + "" == Decimal(n);
  }

  lemma MixedCaseIsName(name: string)
    requires name == "Content-Length"
    ensures IsLengthName(name)
  {
  }

  lemma DeclaresPlain(n: nat, line: string)
    requires n < USIZE_MODULUS && line == "Content-Length:" + Decimal(n)
    ensures Declares(line) == Some(n)
  {
    var name := "Content-Length";
    MixedCaseIsName(name);
    DeclaresUnpadded(name, n);
    assert line == name + [':'] + Decimal(n);
  }

  /** Only such a name declares a length. */
  lemma DeclaringLine(line: string) returns (name: string, value: string)
    ensures Declares(line).Some? ==>
      && line == name + [':'] + value && ':' !in name
      && IsLengthName(Trim(name)) && Declares(line) == ParseUsize(Trim(value))
  {
    name, value := "", "";
    if Declares(line).Some? {
      name, value := SplitOnce(line, ":").value.0, SplitOnce(line, ":").value.1;
      SplitOnceIs(line, ':');
      LengthNameIff(Trim(name), "content-length", "CONTENT-LENGTH", "Content-Length");
    }
  }

  // ----- one response -----

  /** Where the header block ends, once its empty line has arrived. */
  function HeaderEnd(bytes: string): Option<nat> {
    var i := IndexOf(bytes, BLANK_LINE);
    if i.Some? then Some(i.value + 4) else None
  }

  lemma HeaderEndInside(bytes: string)
    ensures HeaderEnd(bytes).Some? ==> HeaderEnd(bytes).value <= |bytes|
  {
    if HeaderEnd(bytes).Some? {
      IndexOfIsFirst(bytes, BLANK_LINE, IndexOf(bytes, BLANK_LINE).value);
    }
  }

  /** The length the header block declares for the body. */
  function BodyLength(bytes: string): Option<nat>
    requires HeaderEnd(bytes).Some?
  {
    HeaderEndInside(bytes);
    ContentLength(bytes[..HeaderEnd(bytes).value])
  }

  /** Where the message ends: after the header block, or after the body it declares. */
  function MessageEnd(bytes: string): nat
    requires HeaderEnd(bytes).Some?
  {
    var end, body := HeaderEnd(bytes).value, BodyLength(bytes);
    if body.Some? then end + body.value else end
  }

  /** The loop's test for a complete response; the addition wraps around at the machine width. */
  predicate LooksComplete(bytes: string) {
    HeaderEnd(bytes).Some? && |bytes| >= MessageEnd(bytes) % USIZE_MODULUS
  }

  datatype Ending = EndOfStream | Timeout | ReadError(message: string)

  datatype Failure = NoResponse | Broken(message: string)

  function Concat(chunks: seq<string>): string {
    if chunks == [] then "" else Concat(chunks[..|chunks| - 1]) + chunks[|chunks| - 1]
  }

  /** The loop's own test, on the numbers it keeps. */
  predicate Done(length: nat, headerEnd: nat, contentLength: Option<nat>) {
    contentLength.None? || length >= (headerEnd + contentLength.value) % USIZE_MODULUS
  }

  lemma DoneIffLooksComplete(bytes: string)
    ensures LooksComplete(bytes) <==> HeaderEnd(bytes).Some? && Done(|bytes|, HeaderEnd(bytes).value, BodyLength(bytes))
  {
    HeaderEndInside(bytes);
    if HeaderEnd(bytes).Some? {
      ModBelow(HeaderEnd(bytes).value);
    }
  }

  lemma ModBelow(n: nat)
    ensures n % USIZE_MODULUS <= n
  {
  }

  /** What a read may return: the pieces up to the first that makes the response look complete,
      or, if none does, everything, or the error that ended the stream. */
  ghost predicate Outcome(chunks: seq<string>, ending: Ending, r: Result<string, Failure>, used: nat) {
    && used <= |chunks|
    && (forall k {:trigger LooksComplete(Concat(chunks[..k]))} :: 0 < k < used ==> !LooksComplete(Concat(chunks[..k])))
    && if used > 0 && LooksComplete(Concat(chunks[..used])) then r == Ok(Concat(chunks[..used]))
       else
         && used == |chunks|
         && r == if ending.ReadError? then Err(Broken(ending.message))
                 else if chunks == [] then Err(NoResponse)
                 else Ok(Concat(chunks))
  }

  /** What the loop keeps of the response so far: the end of its header block and, once that is
      known, the declared length. */
  ghost predicate Tracks(response: string, headerEnd: Option<nat>, contentLength: Option<nat>) {
    headerEnd == HeaderEnd(response) && (headerEnd.Some? ==> contentLength == BodyLength(response))
  }

  /** One turn of the read loop: append a piece, look for the header end only while it is
      unknown, and tell whether to stop. */
  method AppendPiece(before: string, piece: string, oldEnd: Option<nat>, oldLength: Option<nat>)
    returns (response: string, headerEnd: Option<nat>, contentLength: Option<nat>, stop: bool)
    requires Tracks(before, oldEnd, oldLength)
    ensures response == before + piece && Tracks(response, headerEnd, contentLength)
    ensures stop <==> LooksComplete(response)
  {
    response, headerEnd, contentLength := before + piece, oldEnd, oldLength;
    if headerEnd.None? {
      headerEnd := HeaderEnd(response);
      if headerEnd.Some? {
        contentLength := BodyLength(response);
      }
    } else {
      HeaderStable(before, piece);
    }
    stop := headerEnd.Some? && Done(|response|, headerEnd.value, contentLength);
    DoneIffLooksComplete(response);
  }

  /** The read loop over the pieces a connection delivers; `ending` is what follows the last
      piece.  `used` is the number of reads it took. */
  method ReadRtspResponse(chunks: seq<string>, ending: Ending)
    returns (r: Result<string, Failure>, used: nat)
    requires forall i :: 0 <= i < |chunks| ==> chunks[i] != ""
    ensures Outcome(chunks, ending, r, used)
  {
    var response := "";
    var headerEnd: Option<nat> := None;
    var contentLength: Option<nat> := None;
    used := 0;
    while used < |chunks|
      invariant used <= |chunks| && response == Concat(chunks[..used])
      invariant Tracks(response, headerEnd, contentLength)
      invariant forall k {:trigger LooksComplete(Concat(chunks[..k]))} :: 0 < k <= used ==> !LooksComplete(Concat(chunks[..k]))
      invariant used > 0 ==> response != ""
    {
      var stop;
      response, headerEnd, contentLength, stop := AppendPiece(response, chunks[used], headerEnd, contentLength);
      used := used + 1;
      assert chunks[..used][..used - 1] == chunks[..used - 1];
      if stop {
        return Ok(response), used;
      }
    }
    assert chunks[..used] == chunks;
    if ending.ReadError? {
      return Err(Broken(ending.message)), used;
    }
    if response == "" {
      return Err(NoResponse), used;
    }
    r := Ok(response);
  }

  /** Later bytes change neither the end of the header block nor the declared length. */
  lemma HeaderStable(bytes: string, more: string)
    requires HeaderEnd(bytes).Some?
    ensures HeaderEnd(bytes + more) == HeaderEnd(bytes)
    ensures BodyLength(bytes + more) == BodyLength(bytes)
    ensures MessageEnd(bytes + more) == MessageEnd(bytes)
  {
    IndexOfStable(bytes, more, BLANK_LINE);
    HeaderEndInside(bytes);
    assert (bytes + more)[..HeaderEnd(bytes).value] == bytes[..HeaderEnd(bytes).value];
  }

  /** The header block of a stream is complete in every piece that reaches its end. */
  lemma HeaderInPrefix(bytes: string, more: string)
    requires HeaderEnd(bytes + more).Some?
    ensures HeaderEnd(bytes).Some? <==> HeaderEnd(bytes + more).value <= |bytes|
  {
    HeaderEndInside(bytes);
    if HeaderEnd(bytes).Some? {
      HeaderStable(bytes, more);
    } else if HeaderEnd(bytes + more).value <= |bytes| {
      IndexOfInPrefix(bytes, more, BLANK_LINE);
    }
  }

  /** When a beginning of a stream looks complete: it holds the whole message, unless the
      declared length overflows, and then already when it holds the header block. */
  lemma LooksCompleteIff(bytes: string, more: string)
    requires HeaderEnd(bytes + more).Some? && |bytes + more| < USIZE_MODULUS
    ensures MessageEnd(bytes + more) < USIZE_MODULUS ==>
      (LooksComplete(bytes) <==> |bytes| >= MessageEnd(bytes + more))
    ensures MessageEnd(bytes + more) >= USIZE_MODULUS ==>
      (LooksComplete(bytes) <==> |bytes| >= HeaderEnd(bytes + more).value)
  {
    HeaderInPrefix(bytes, more);
    HeaderEndInside(bytes + more);
    if HeaderEnd(bytes).Some? {
      HeaderStable(bytes, more);
      DeclaredFits(bytes);
      Wrap(MessageEnd(bytes));
    }
  }

  lemma Wrap(n: nat)
    ensures n < USIZE_MODULUS ==> n % USIZE_MODULUS == n
    ensures USIZE_MODULUS <= n < 2 * USIZE_MODULUS ==> n % USIZE_MODULUS == n - USIZE_MODULUS
  {
  }

  lemma DeclaredFits(bytes: string)
    requires HeaderEnd(bytes).Some?
    ensures HeaderEnd(bytes).value <= MessageEnd(bytes) < HeaderEnd(bytes).value + USIZE_MODULUS
  {
    if BodyLength(bytes).Some? {
      HeaderEndInside(bytes);
      DeclaredIsUsize(Lines(bytes[..HeaderEnd(bytes).value]));
    }
  }

  lemma {:induction false} DeclaredIsUsize(lines: seq<string>)
    ensures FirstDeclared(lines).Some? ==> FirstDeclared(lines).value < USIZE_MODULUS
  {
    if lines != [] {
      DeclaredIsUsize(lines[1..]);
    }
  }

  lemma {:induction false} ConcatSplit(chunks: seq<string>, k: nat)
    requires k <= |chunks|
    ensures exists more :: Concat(chunks) == Concat(chunks[..k]) + more
  {
    if k == |chunks| {
      assert chunks[..k] == chunks;
      assert Concat(chunks) == Concat(chunks[..k]) + "";
    } else {
      var last := |chunks| - 1;
      ConcatSplit(chunks[..last], k);
      assert chunks[..last][..k] == chunks[..k];
      var more :| Concat(chunks[..last]) == Concat(chunks[..k]) + more;
      assert Concat(chunks) == Concat(chunks[..k]) + (more + chunks[last]);
    }
  }

  /** A stream that holds a whole message, of a length that does not overflow. */
  ghost predicate HoldsMessage(stream: string) {
    HeaderEnd(stream).Some? && MessageEnd(stream) <= |stream| < USIZE_MODULUS
  }

  /** `r` is a beginning of the stream that contains its message, and the read before the last
      one had not completed it. */
  ghost predicate Delivers(chunks: seq<string>, r: Result<string, Failure>, used: nat)
    requires HeaderEnd(Concat(chunks)).Some?
  {
    var stream := Concat(chunks);
    && r.Ok? && r.value <= stream && MessageEnd(stream) <= |r.value|
    && 0 < used <= |chunks| && |Concat(chunks[..used - 1])| < MessageEnd(stream)
  }

  /** For every split of a stream into reads: if the stream holds a whole message, the reader
      returns a beginning of the stream that contains it, and stops at the first read that
      completes it. */
  lemma ReadsWholeMessage(chunks: seq<string>, ending: Ending, r: Result<string, Failure>, used: nat)
    ensures Outcome(chunks, ending, r, used) && HoldsMessage(Concat(chunks)) ==> Delivers(chunks, r, used)
  {
    var stream := Concat(chunks);
    if Outcome(chunks, ending, r, used) && HoldsMessage(stream) {
      forall k | 0 <= k <= |chunks|
        ensures Concat(chunks[..k]) <= stream
        ensures LooksComplete(Concat(chunks[..k])) <==> |Concat(chunks[..k])| >= MessageEnd(stream)
      {
        ConcatSplit(chunks, k);
        var more :| stream == Concat(chunks[..k]) + more;
        LooksCompleteIff(Concat(chunks[..k]), more);
      }
      assert chunks[..|chunks|] == chunks;
      HeaderEndInside(stream);
      DeclaredFits(stream);
      assert Concat(chunks[..0]) == "";
      HeaderIsNotEmpty(stream);
    }
  }

  lemma HeaderIsNotEmpty(bytes: string)
    ensures HeaderEnd(bytes).Some? ==> HeaderEnd(bytes).value >= 4
  {
  }

  /** The end of the header block and the message itself are those of the stream. */
  ghost predicate SameMessage(response: string, stream: string) {
    && HeaderEnd(response).Some? && HeaderEnd(response) == HeaderEnd(stream)
    && MessageEnd(response) == MessageEnd(stream)
    && MessageEnd(stream) <= |response| && MessageEnd(stream) <= |stream|
    && response[..MessageEnd(stream)] == stream[..MessageEnd(stream)]
  }

  lemma PrefixHasSameMessage(response: string, stream: string)
    requires HeaderEnd(stream).Some?
    ensures response <= stream && MessageEnd(stream) <= |response| ==> SameMessage(response, stream)
  {
    if response <= stream && MessageEnd(stream) <= |response| {
      var more := stream[|response|..];
      assert stream == response + more;
      DeclaredFits(stream);
      HeaderInPrefix(response, more);
      HeaderStable(response, more);
    }
  }

  /** A stream that ends before its message does, of a length that does not overflow. */
  ghost predicate EndsEarly(stream: string) {
    && |stream| < USIZE_MODULUS
    && (HeaderEnd(stream).Some? ==> |stream| < MessageEnd(stream) < USIZE_MODULUS)
  }

  lemma PrefixLooksIncomplete(bytes: string, more: string)
    requires EndsEarly(bytes + more)
    ensures !LooksComplete(bytes)
  {
    if HeaderEnd(bytes + more).Some? {
      LooksCompleteIff(bytes, more);
    } else if HeaderEnd(bytes).Some? {
      HeaderStable(bytes, more);
    }
  }

  /** Such a stream is read to its end and returned whole, unless an error or nothing at all ends it. */
  lemma ReadsEarlyEndWhole(chunks: seq<string>, ending: Ending, r: Result<string, Failure>, used: nat)
    ensures Outcome(chunks, ending, r, used) && EndsEarly(Concat(chunks)) ==>
      && used == |chunks|
      && r == if ending.ReadError? then Err(Broken(ending.message))
              else if chunks == [] then Err(NoResponse)
              else Ok(Concat(chunks))
  {
    if Outcome(chunks, ending, r, used) && EndsEarly(Concat(chunks)) {
      ConcatSplit(chunks, used);
      var more :| Concat(chunks) == Concat(chunks[..used]) + more;
      PrefixLooksIncomplete(Concat(chunks[..used]), more);
    }
  }

  /** Two splits of the same stream therefore give the same message, and the same response if
      the stream ends before its message. */
  lemma SplitIndependent(a: seq<string>, b: seq<string>, ending: Ending, ending': Ending,
                         r: Result<string, Failure>, r': Result<string, Failure>, used: nat, used': nat)
    requires Concat(a) == Concat(b)
    ensures HoldsMessage(Concat(a)) && Outcome(a, ending, r, used) && Outcome(b, ending', r', used') ==>
      r.Ok? && r'.Ok? && SameMessage(r.value, Concat(a)) && SameMessage(r'.value, Concat(a))
    ensures EndsEarly(Concat(a)) && Concat(a) != "" && Outcome(a, ending, r, used) && Outcome(b, ending', r', used') ==>
      ending.ReadError? || ending'.ReadError? || r == r' == Ok(Concat(a))
  {
    if HoldsMessage(Concat(a)) && Outcome(a, ending, r, used) && Outcome(b, ending', r', used') {
      ReadsWholeMessage(a, ending, r, used);
      ReadsWholeMessage(b, ending', r', used');
      PrefixHasSameMessage(r.value, Concat(a));
      PrefixHasSameMessage(r'.value, Concat(a));
    }
    ReadsEarlyEndWhole(a, ending, r, used);
    ReadsEarlyEndWhole(b, ending', r', used');
  }

  /** With a length that overflows, the reader stops at the first read that completes the header
      block: how much of the body it returns depends on the split. */
  lemma ReadsOverflowUpToHeader(chunks: seq<string>, ending: Ending, r: Result<string, Failure>, used: nat)
    ensures var stream := Concat(chunks);
      Outcome(chunks, ending, r, used) && HeaderEnd(stream).Some? && |stream| < USIZE_MODULUS <= MessageEnd(stream) ==>
        && 0 < used && |Concat(chunks[..used - 1])| < HeaderEnd(stream).value <= |Concat(chunks[..used])|
        && r == Ok(Concat(chunks[..used]))
  {
    var stream := Concat(chunks);
    if Outcome(chunks, ending, r, used) && HeaderEnd(stream).Some? && |stream| < USIZE_MODULUS <= MessageEnd(stream) {
      forall k | 0 <= k <= |chunks|
        ensures LooksComplete(Concat(chunks[..k])) <==> |Concat(chunks[..k])| >= HeaderEnd(stream).value
      {
        ConcatSplit(chunks, k);
        var more :| stream == Concat(chunks[..k]) + more;
        LooksCompleteIff(Concat(chunks[..k]), more);
      }
      assert chunks[..|chunks|] == chunks;
      HeaderEndInside(stream);
      assert Concat(chunks[..0]) == "";
      HeaderIsNotEmpty(stream);
    }
  }

  /** A declared length that overflows the machine addition makes the reader return as soon as
      the header block is there, without the body. */
  lemma OverflowCutsBody(bytes: string)
    requires |bytes| < USIZE_MODULUS
    ensures HeaderEnd(bytes).Some? ==>
      (LooksComplete(bytes) <==> |bytes| >= MessageEnd(bytes) || MessageEnd(bytes) >= USIZE_MODULUS)
  {
    if HeaderEnd(bytes).Some? {
      assert bytes + "" == bytes;
      LooksCompleteIff(bytes, "");
      HeaderEndInside(bytes);
    }
  }

  /** Such responses exist: every declared length this close to the largest machine integer. */
  lemma OverflowingResponses(n: nat, bytes: string)
    requires USIZE_MODULUS - 4 <= n < USIZE_MODULUS
    requires bytes == "Content-Length:" + Decimal(n) + BLANK_LINE
    ensures LooksComplete(bytes) && |bytes| < MessageEnd(bytes)
  {
    var line := "Content-Length:" + Decimal(n);
    DecimalDigits(n);
    HeaderEndOfOneLine(line);
    assert bytes[..|bytes|] == bytes;
    RenderOneLine(line);
    ContentLengthOfRendered([line]);
    DeclaresPlain(n, line);
    assert BodyLength(bytes) == Some(n);
    DecimalFits(n);
    OverflowCutsBody(bytes);
  }

  lemma DecimalFits(n: nat)
    requires n < USIZE_MODULUS
    ensures |Decimal(n)| <= 20
  {
    assert Pow10(10) == 10_000_000_000;
    assert Pow10(20) == 10_000_000_000 * 10_000_000_000;
    DecimalShort(n, 20);
  }

  lemma RenderOneLine(line: string)
    ensures Render([line]) == line + BLANK_LINE
  {
  }

  lemma HeaderEndOfOneLine(line: string)
    requires '\r' !in line
    ensures HeaderEnd(line + BLANK_LINE) == Some(|line| + 4)
  {
    var s := line + BLANK_LINE;
    assert OccursAt(s, BLANK_LINE, |line|) by {
      assert s[|line|..|line| + 4] == BLANK_LINE;
    }
    forall j | 0 <= j < |line| ensures !OccursAt(s, BLANK_LINE, j) {
      assert s[j] == line[j] && s[j..j + 4][0] == s[j];
    }
    IndexOfIsFirst(s, BLANK_LINE, |line|);
  }
}

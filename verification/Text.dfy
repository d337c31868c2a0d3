/** Searching, trimming and splitting text. */
module Text {
  import opened Wrappers

  /** The first position at which `pattern` occurs. */
  function IndexOf(s: string, pattern: string): Option<nat> {
    IndexFrom(s, pattern, 0)
  }

  function IndexFrom(s: string, pattern: string, i: nat): Option<nat>
    decreases |s| - i
  {
    if i + |pattern| > |s| then None
    else if s[i..i + |pattern|] == pattern then Some(i)
    else IndexFrom(s, pattern, i + 1)
  }

  ghost predicate OccursAt(s: string, pattern: string, i: int) {
    0 <= i && i + |pattern| <= |s| && s[i..i + |pattern|] == pattern
  }

  lemma {:induction false} IndexFromIsFirst(s: string, pattern: string, i: nat)
    ensures var r := IndexFrom(s, pattern, i);
      && (r.Some? ==> i <= r.value && OccursAt(s, pattern, r.value)
                      && forall j :: i <= j < r.value ==> !OccursAt(s, pattern, j))
      && (r.None? ==> forall j :: i <= j ==> !OccursAt(s, pattern, j))
    decreases |s| - i
  {
    if i + |pattern| <= |s| && s[i..i + |pattern|] != pattern {
      IndexFromIsFirst(s, pattern, i + 1);
    }
  }

  /** The first occurrence, and the only number with that property. */
  lemma IndexOfIsFirst(s: string, pattern: string, k: nat)
    ensures IndexOf(s, pattern) == Some(k) <==>
      OccursAt(s, pattern, k) && forall j :: 0 <= j < k ==> !OccursAt(s, pattern, j)
    ensures IndexOf(s, pattern).None? <==> forall j :: !OccursAt(s, pattern, j)
  {
    IndexFromIsFirst(s, pattern, 0);
  }

  /** What was found in a beginning of a text is found at the same place in all of it. */
  lemma IndexOfStable(s: string, more: string, pattern: string)
    requires IndexOf(s, pattern).Some?
    ensures IndexOf(s + more, pattern) == IndexOf(s, pattern)
  {
    var k := IndexOf(s, pattern).value;
    IndexOfIsFirst(s, pattern, k);
    IndexOfIsFirst(s + more, pattern, k);
    forall j | 0 <= j <= k ensures OccursAt(s + more, pattern, j) <==> OccursAt(s, pattern, j) {
      assert (s + more)[j..j + |pattern|] == s[j..j + |pattern|];
    }
  }

  /** What is found in a text is found in every beginning that reaches past it. */
  lemma IndexOfInPrefix(s: string, more: string, pattern: string)
    requires IndexOf(s + more, pattern).Some? && IndexOf(s + more, pattern).value + |pattern| <= |s|
    ensures IndexOf(s, pattern) == IndexOf(s + more, pattern)
  {
    var k := IndexOf(s + more, pattern).value;
    IndexOfIsFirst(s + more, pattern, k);
    assert (s + more)[k..k + |pattern|] == s[k..k + |pattern|];
    assert OccursAt(s, pattern, k);
    IndexOfIsFirst(s, pattern, k);
    IndexOfStable(s, more, pattern);
  }

  // ----- white space -----

  /** The Unicode white space characters. */
  predicate IsWhite(c: char) {
    c == ' ' || '\t' <= c <= '\r' || (c as nat >= 0x80 && exists i :: 0 <= i < 8 && InWhiteRange(c, i))
  }

  /** The ranges of white space beyond ASCII. */
  predicate InWhiteRange(c: char, i: nat) {
    var n := c as nat;
    match i
    case 0 => n == 0x85
    case 1 => n == 0xA0
    case 2 => n == 0x1680
    case 3 => 0x2000 <= n <= 0x200A
    case 4 => 0x2028 <= n <= 0x2029
    case 5 => n == 0x202F
    case 6 => n == 0x205F
    case _ => n == 0x3000
  }

  /** In code points. */
  lemma WhiteCodePoints(c: char)
    ensures IsWhite(c) <==>
      c as nat in {0x09, 0x0A, 0x0B, 0x0C, 0x0D, 0x20, 0x85, 0xA0, 0x1680, 0x2000, 0x2001, 0x2002, 0x2003, 0x2004, 0x2005,
                   0x2006, 0x2007, 0x2008, 0x2009, 0x200A, 0x2028, 0x2029, 0x202F, 0x205F, 0x3000}
  {
    assert InWhiteRange(c, 0) <==> c as nat == 0x85;
    assert InWhiteRange(c, 1) <==> c as nat == 0xA0;
    assert InWhiteRange(c, 2) <==> c as nat == 0x1680;
    assert InWhiteRange(c, 3) <==> 0x2000 <= c as nat <= 0x200A;
    assert InWhiteRange(c, 4) <==> 0x2028 <= c as nat <= 0x2029;
    assert InWhiteRange(c, 5) <==> c as nat == 0x202F;
    assert InWhiteRange(c, 6) <==> c as nat == 0x205F;
    assert InWhiteRange(c, 7) <==> c as nat == 0x3000;
  }

  /** `r` is an end piece of `s`. */
  predicate IsSuffix(r: string, s: string) {
    |r| <= |s| && r == s[|s| - |r|..]
  }

  lemma SuffixOfSuffix(a: string, b: string, c: string)
    requires IsSuffix(a, b) && IsSuffix(b, c)
    ensures IsSuffix(a, c)
  {
  }

  predicate StartsWith(s: string, prefix: string) {
    |s| >= |prefix| && s[..|prefix|] == prefix
  }

  function TrimStart(s: string): string {
    if s != "" && IsWhite(s[0]) then TrimStart(s[1..]) else s
  }

  function TrimEnd(s: string): string {
    if s != "" && IsWhite(s[|s| - 1]) then TrimEnd(s[..|s| - 1]) else s
  }

  function Trim(s: string): string {
    TrimEnd(TrimStart(s))
  }

  lemma {:induction false} TrimStartResult(s: string)
    ensures IsSuffix(TrimStart(s), s)
    ensures TrimStart(s) != "" ==> !IsWhite(TrimStart(s)[0])
  {
    if s != "" && IsWhite(s[0]) {
      TrimStartResult(s[1..]);
      assert IsSuffix(s[1..], s);
      SuffixOfSuffix(TrimStart(s[1..]), s[1..], s);
    }
  }

  lemma {:induction false} TrimEndResult(s: string)
    ensures |TrimEnd(s)| <= |s| && TrimEnd(s) == s[..|TrimEnd(s)|]
    ensures TrimEnd(s) != "" ==> !IsWhite(TrimEnd(s)[|TrimEnd(s)| - 1])
  {
    if s != "" && IsWhite(s[|s| - 1]) {
      TrimEndResult(s[..|s| - 1]);
    }
  }

  lemma {:induction false} TrimStartDropsWhite(s: string)
    ensures forall i :: 0 <= i < |s| - |TrimStart(s)| ==> IsWhite(s[i])
  {
    if s != "" && IsWhite(s[0]) {
      TrimStartResult(s[1..]);
      TrimStartDropsWhite(s[1..]);
      assert forall i :: 0 < i < |s| ==> s[i] == s[1..][i - 1];
    }
  }

  lemma SolidIsTrimmed(s: string)
    requires s != "" && !IsWhite(s[0]) && !IsWhite(s[|s| - 1])
    ensures TrimStart(s) == s && TrimEnd(s) == s && Trim(s) == s
  {
  }

  /** A text that does not end in white space loses nothing at its end. */
  lemma TrimWithSolidEnd(s: string)
    requires s != "" && !IsWhite(s[|s| - 1])
    ensures TrimStart(s) != "" && Trim(s) == TrimStart(s)
  {
    TrimStartResult(s);
    TrimStartDropsWhite(s);
  }

  lemma {:induction false} TrimStartOfJoined(a: string, b: string)
    requires TrimStart(a) != ""
    ensures TrimStart(a + b) == TrimStart(a) + b
  {
    if IsWhite(a[0]) {
      assert (a + b)[1..] == a[1..] + b;
      TrimStartOfJoined(a[1..], b);
    }
  }

  lemma {:induction false} TrimEndOfJoined(a: string, b: string)
    requires a != "" && !IsWhite(a[|a| - 1])
    ensures TrimEnd(a + b) == a + TrimEnd(b)
  {
    if b == "" {
      assert a + b == a;
    } else if IsWhite(b[|b| - 1]) {
      assert (a + b)[..|a + b| - 1] == a + b[..|b| - 1];
      TrimEndOfJoined(a, b[..|b| - 1]);
    }
  }

  predicate AllWhite(s: string) {
    forall i :: 0 <= i < |s| ==> IsWhite(s[i])
  }

  lemma TrimIsEmptyIff(s: string)
    ensures Trim(s) == "" <==> AllWhite(s)
  {
    TrimStartResult(s);
    TrimStartDropsWhite(s);
    TrimEndResult(TrimStart(s));
    if AllWhite(s) {
      TrimStartSkips(s, "");
      assert s + "" == s;
    } else {
      FirstSolidKept(TrimStart(s));
    }
  }

  lemma {:induction false} FirstSolidKept(s: string)
    ensures s != "" && !IsWhite(s[0]) ==> TrimEnd(s) != ""
  {
    if s != "" && !IsWhite(s[0]) && IsWhite(s[|s| - 1]) {
      FirstSolidKept(s[..|s| - 1]);
    }
  }

  lemma {:induction false} TrimStartSkips(a: string, s: string)
    requires AllWhite(a)
    ensures TrimStart(a + s) == TrimStart(s)
  {
    if a == "" {
      assert a + s == s;
    } else {
      assert (a + s)[1..] == a[1..] + s && (a + s)[0] == a[0];
      TrimStartSkips(a[1..], s);
    }
  }

  lemma {:induction false} TrimEndOfWhite(s: string)
    requires AllWhite(s)
    ensures TrimEnd(s) == ""
  {
    if s != "" {
      TrimEndOfWhite(s[..|s| - 1]);
    }
  }

  /** Trimming takes away the white space on both sides and nothing else. */
  lemma TrimPadded(a: string, s: string, b: string)
    requires AllWhite(a) && AllWhite(b) && s != "" && !IsWhite(s[0]) && !IsWhite(s[|s| - 1])
    ensures Trim(a + s + b) == s
  {
    assert a + s + b == a + (s + b);
    TrimStartSkips(a, s + b);
    assert TrimStart(s + b) == s + b;
    TrimEndOfJoined(s, b);
    TrimEndOfWhite(b);
  }

  // ----- splitting -----

  function SplitOnce(s: string, separator: string): Option<(string, string)> {
    var i := IndexOf(s, separator);
    if i.None? then None
    else
      IndexOfIsFirst(s, separator, i.value);
      Some((s[..i.value], s[i.value + |separator|..]))
  }

  /** Splitting at a separator the first part does not contain gives the parts back. */
  lemma SplitOnceJoin(a: string, c: char, b: string)
    requires c !in a
    ensures SplitOnce(a + [c] + b, [c]) == Some((a, b))
  {
    var s := a + [c] + b;
    assert OccursAt(s, [c], |a|) by {
      assert s[|a|..|a| + 1] == [c];
    }
    forall j | 0 <= j < |a| ensures !OccursAt(s, [c], j) {
      assert s[j..j + 1][0] == a[j];
    }
    IndexOfIsFirst(s, [c], |a|);
    assert s[..|a|] == a && s[|a| + 1..] == b;
  }

  lemma SplitOnceIs(s: string, c: char)
    ensures var r := SplitOnce(s, [c]);
      r.Some? ==> s == r.value.0 + [c] + r.value.1 && c !in r.value.0
  {
    var i := IndexOf(s, [c]);
    if i.Some? {
      IndexOfIsFirst(s, [c], i.value);
      assert s[i.value..i.value + 1] == [c];
      assert s == s[..i.value] + s[i.value..i.value + 1] + s[i.value + 1..];
      forall j | 0 <= j < i.value ensures s[j] != c {
        assert !OccursAt(s, [c], j);
        assert s[j..j + 1] == [s[j]];
      }
    }
  }

  lemma SplitOnceNone(s: string, c: char)
    requires c !in s
    ensures SplitOnce(s, [c]).None?
  {
    IndexOfIsFirst(s, [c], 0);
    forall j ensures !OccursAt(s, [c], j) {
      if 0 <= j < |s| {
        assert s[j..j + 1][0] == s[j] && s[j] in s;
      }
    }
  }

  /** Lines end at a line feed, with an optional carriage return before it. */
  function Lines(s: string): seq<string>
    decreases |s|
  {
    if s == "" then []
    else
      var i := IndexOf(s, "\n");
      if i.None? then [s]
      else
        IndexOfIsFirst(s, "\n", i.value);
        var line := s[..i.value];
        [if line != "" && line[|line| - 1] == '\r' then line[..|line| - 1] else line] + Lines(s[i.value + 1..])
  }

  function Lower(c: char): char {
    if 'A' <= c <= 'Z' then c - 'A' + 'a' else c
  }

  predicate EqualsIgnoringCase(a: string, b: string) {
    |a| == |b| && forall i :: 0 <= i < |a| ==> Lower(a[i]) == Lower(b[i])
  }

  /** Lines hold no line feed, and the first one is a beginning of the text. */
  lemma {:induction false} LinesAreLines(s: string)
    ensures forall i :: 0 <= i < |Lines(s)| ==> '\n' !in Lines(s)[i]
    ensures s != "" ==> Lines(s) != [] && Lines(s)[0] <= s
    decreases |s|
  {
    if s != "" {
      var i := IndexOf(s, "\n");
      IndexOfIsFirst(s, "\n", if i.Some? then i.value else 0);
      forall j | 0 <= j < (if i.Some? then i.value else |s|) ensures s[j] != '\n' {
        assert !OccursAt(s, "\n", j);
        assert s[j..j + 1] == [s[j]];
      }
      if i.Some? {
        LinesAreLines(s[i.value + 1..]);
      }
    }
  }

  /** The 26 capital letters change, nothing else does. */
  lemma LowerIs(c: char)
    ensures Lower(c) as nat == if 65 <= c as nat <= 90 then c as nat + 32 else c as nat
  {
  }

  // ----- UTF-8 -----

  /** The bytes a character takes in UTF-8. */
  function Utf8(c: char): seq<nat> {
    var n := c as nat;
    if n < 0x80 then [n]
    else if n < 0x800 then [0xC0 + n / 0x40, 0x80 + n % 0x40]
    else if n < 0x10000 then [0xE0 + n / 0x1000, 0x80 + n / 0x40 % 0x40, 0x80 + n % 0x40]
    else [0xF0 + n / 0x40000, 0x80 + n / 0x1000 % 0x40, 0x80 + n / 0x40 % 0x40, 0x80 + n % 0x40]
  }

  lemma SixBits(n: nat)
    ensures n == n / 0x40 * 0x40 + n % 0x40
    ensures n / 0x40 / 0x40 == n / 0x1000 && n / 0x1000 / 0x40 == n / 0x40000
  {
  }

  /** As many bytes as the code point needs (7, 11, 16 or 21 bits). */
  lemma Utf8Length(c: char)
    ensures |Utf8(c)| == if c as nat < 128 then 1 else if c as nat < 2048 then 2 else if c as nat < 65536 then 3 else 4
  {
  }

  /** The first byte tells how many, the others carry six bits each, and together they are the
      code point. */
  lemma Utf8IsEncoding(c: char, u: seq<nat>)
    requires u == Utf8(c)
    ensures |u| == 1 ==> u[0] == c as nat
    ensures |u| == 2 ==> 192 <= u[0] < 224 && (u[0] - 192) * 64 + (u[1] - 128) == c as nat
    ensures |u| == 3 ==> 224 <= u[0] < 240 && ((u[0] - 224) * 64 + (u[1] - 128)) * 64 + (u[2] - 128) == c as nat
    ensures |u| == 4 ==>
      240 <= u[0] < 248 && (((u[0] - 240) * 64 + (u[1] - 128)) * 64 + (u[2] - 128)) * 64 + (u[3] - 128) == c as nat
    ensures forall i :: 1 <= i < |u| ==> 128 <= u[i] < 192
  {
    var n := c as nat;
    SixBits(n);
    SixBits(n / 0x40);
    SixBits(n / 0x1000);
  }

  /** Every occurrence of a pattern replaced, left to right. */
  function ReplaceAll(s: string, pattern: string, with: string): string
    requires pattern != ""
  {
    if s == "" then ""
    else if StartsWith(s, pattern) then with + ReplaceAll(s[|pattern|..], pattern, with)
    else [s[0]] + ReplaceAll(s[1..], pattern, with)
  }
}

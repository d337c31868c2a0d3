/**
  Credentials in RTSP URLs: percent-encoding on the way in (sections 2.1 and 3.2.1 of RFC 3986),
  and recovering them from the authority of a URL.
 */
module RtspUserinfo {
  import opened Wrappers
  import opened Text
  import opened RtspFraming

  predicate IsUnreserved(c: char) {
    'a' <= c <= 'z' || 'A' <= c <= 'Z' || IsDigit(c) || c == '-' || c == '_' || c == '.' || c == '~'
  }

  function HexDigit(d: nat): (c: char)
    requires d < 16
    ensures HexValue(c) == Some(d) && IsUnreserved(c) && c as nat < 128
  {
    if d < 10 then '0' + d as char else 'A' + (d - 10) as char
  }

  function HexValue(c: char): Option<nat> {
    if IsDigit(c) then Some((c - '0') as nat)
    else if 'A' <= c <= 'F' then Some((c - 'A') as nat + 10)
    else if 'a' <= c <= 'f' then Some((c - 'a') as nat + 10)
    else None
  }

  /** Upper-case hexadecimal without padding. */
  function Hex(n: nat): string {
    if n < 16 then [HexDigit(n)] else Hex(n / 16) + [HexDigit(n % 16)]
  }

  /** Padded to at least two digits. */
  function Hex2(n: nat): string {
    if n < 16 then ['0', HexDigit(n)] else Hex(n)
  }

  function EscapeChar(c: char): string {
    if IsUnreserved(c) then [c] else ['%'] + Hex2(c as nat)
  }

  function Escape(s: string): string {
    if s == "" then "" else EscapeChar(s[0]) + Escape(s[1..])
  }

  /** The characters of section 2.3 of RFC 3986, and only they, stay as they are; another byte becomes
      a percent sign and two upper-case hexadecimal digits. */
  lemma EscapedForm(c: char, digits: string)
    requires digits == "0123456789ABCDEF"
    ensures 'a' <= c <= 'z' || 'A' <= c <= 'Z' || '0' <= c <= '9' || c == '-' || c == '.' || c == '_' || c == '~' <==>
      EscapeChar(c) == [c]
    ensures EscapeChar(c) != [c] && c as nat < 256 ==>
      EscapeChar(c) == ['%', digits[c as nat / 16], digits[c as nat % 16]]
  {
    var n := c as nat;
    if n < 256 {
      HexDigitIs(n / 16, digits);
      HexDigitIs(n % 16, digits);
      if n >= 16 {
        assert Hex(n) == Hex(n / 16) + [HexDigit(n % 16)] && Hex(n / 16) == [HexDigit(n / 16)];
      }
    }
    if !IsUnreserved(c) {
      assert |EscapeChar(c)| >= 2;
    }
  }

  lemma HexDigitIs(d: nat, digits: string)
    requires d < 16 && digits == "0123456789ABCDEF"
    ensures HexDigit(d) == digits[d]
  {
  }

  lemma EscapeStep(done: string, value: string, i: nat)
    requires i < |value|
    ensures done + Escape(value[i..]) == done + EscapeChar(value[i]) + Escape(value[i + 1..])
  {
  }

  /** The escaping loop. */
  method EscapeRtspUserinfo(value: string) returns (escaped: string)
    ensures escaped == Escape(value)
    ensures Plain(escaped)
  {
    escaped := "";
    assert value[0..] == value;
    for i := 0 to |value|
      invariant escaped + Escape(value[i..]) == Escape(value)
    {
      EscapeStep(escaped, value, i);
      if IsUnreserved(value[i]) {
        escaped := escaped + [value[i]];
      } else {
        escaped := escaped + (['%'] + Hex2(value[i] as nat));
      }
    }
    assert value[|value|..] == "" && escaped + "" == escaped;
    EscapeIsPlain(value);
  }

  predicate Plain(s: string) {
    forall i :: 0 <= i < |s| ==> IsUnreserved(s[i]) || s[i] == '%'
  }

  lemma {:induction false} HexIsPlain(n: nat)
    ensures Plain(Hex(n)) && '%' !in Hex(n)
  {
    if n >= 16 {
      HexIsPlain(n / 16);
    }
  }

  lemma {:induction false} EscapeIsPlain(s: string)
    ensures Plain(Escape(s))
    ensures s != "" ==> Escape(s) != ""
  {
    if s != "" {
      HexIsPlain(s[0] as nat);
      EscapeIsPlain(s[1..]);
    }
  }

  // ----- building and taking apart a URL -----

  function BuildStreamUrl(address: string, port: nat, path: string, user: Option<string>, password: Option<string>): string {
    var auth :=
      if user.Some? && password.Some? then Escape(user.value) + ":" + Escape(password.value) + "@"
      else if user.Some? then Escape(user.value) + "@"
      else "";
    var normalized := if path != "" && path[0] == '/' then path else "/" + path;
    "rtsp://" + auth + address + ":" + Decimal(port) + normalized
  }

  /** User name and optional password of an authority, trimmed. */
  function CredentialsOf(authority: string): Option<(string, Option<string>)> {
    if Trim(authority) == "" then None
    else
      var parts := SplitOnce(authority, ":");
      var name := if parts.Some? then Trim(parts.value.0) else Trim(authority);
      var password := if parts.Some? then Some(Trim(parts.value.1)) else None;
      if name == "" then None else Some((name, password))
  }

  function UserinfoFromAuthority(value: string): Option<(string, Option<string>)> {
    var afterScheme := SplitOnce(value, "://");
    if afterScheme.None? then None
    else
      var beforeHost := SplitOnce(afterScheme.value.1, "@");
      if beforeHost.None? then None else CredentialsOf(beforeHost.value.0)
  }

  lemma PlainIsTrimmed(s: string)
    requires Plain(s)
    ensures Trim(s) == s
    ensures '@' !in s && ':' !in s
  {
  }

  lemma SchemeSplits(rest: string)
    ensures SplitOnce("rtsp://" + rest, "://") == Some(("rtsp", rest))
  {
    var s := "rtsp://" + rest;
    assert OccursAt(s, "://", 4) by {
      assert s[4..7] == "://";
    }
    forall j | 0 <= j < 4 ensures !OccursAt(s, "://", j) {
      assert s[j..j + 3][0] == s[j] == "rtsp"[j];
    }
    IndexOfIsFirst(s, "://", 4);
    assert s[..4] == "rtsp" && s[7..] == rest;
  }

  function EscapeOption(s: Option<string>): Option<string> {
    if s.Some? then Some(Escape(s.value)) else None
  }

  /** What follows the credentials in a URL. */
  function Location(address: string, port: nat, path: string): string {
    address + ":" + Decimal(port) + (if path != "" && path[0] == '/' then path else "/" + path)
  }

  lemma AuthorityFound(authority: string, tail: string)
    requires '@' !in authority
    ensures UserinfoFromAuthority("rtsp://" + (authority + ['@'] + tail)) == CredentialsOf(authority)
  {
    SchemeSplits(authority + ['@'] + tail);
    SplitOnceJoin(authority, '@', tail);
  }

  lemma CredentialsWithPassword(u: string, w: string)
    requires Plain(u) && Plain(w)
    ensures CredentialsOf(u + [':'] + w) == if u == "" then None else Some((u, Some(w)))
    ensures '@' !in u + [':'] + w
  {
    PlainIsTrimmed(u);
    PlainIsTrimmed(w);
    SplitOnceJoin(u, ':', w);
    TrimKeepsColon(u, w);
  }

  lemma CredentialsWithoutPassword(u: string)
    requires Plain(u)
    ensures CredentialsOf(u) == if u == "" then None else Some((u, None))
    ensures '@' !in u
  {
    PlainIsTrimmed(u);
    SplitOnceNone(u, ':');
  }

  lemma UrlShape(address: string, port: nat, path: string, user: string, password: Option<string>)
    ensures BuildStreamUrl(address, port, path, Some(user), password) ==
      var authority := if password.Some? then Escape(user) + [':'] + Escape(password.value) else Escape(user);
      "rtsp://" + (authority + ['@'] + Location(address, port, path))
  {
    var authority := if password.Some? then Escape(user) + [':'] + Escape(password.value) else Escape(user);
    var location := Location(address, port, path);
    var a, d, p := address, Decimal(port), if path != "" && path[0] == '/' then path else "/" + path;
    var auth := authority + "@";
    assert "rtsp://" + auth + a + ":" + d + p == "rtsp://" + (auth + (a + ":" + d + p));
    assert a + ":" + d + p == location;
  }

  /** Taking a built URL apart gives the escaped credentials back, for every address, port, path
      and password, exactly when there is a nonempty user name. */
  lemma UserinfoRoundTrip(address: string, port: nat, path: string, user: string, password: Option<string>)
    ensures UserinfoFromAuthority(BuildStreamUrl(address, port, path, Some(user), password)) ==
      if user == "" then None else Some((Escape(user), EscapeOption(password)))
  {
    var location := Location(address, port, path);
    UrlShape(address, port, path, user, password);
    EscapeIsPlain(user);
    if password.Some? {
      EscapeIsPlain(password.value);
      CredentialsWithPassword(Escape(user), Escape(password.value));
      AuthorityFound(Escape(user) + [':'] + Escape(password.value), location);
    } else {
      CredentialsWithoutPassword(Escape(user));
      AuthorityFound(Escape(user), location);
    }
  }

  /** Without a user name the URL holds the location only, whatever the password. */
  lemma NoUserNoCredentials(address: string, port: nat, path: string, password: Option<string>)
    ensures BuildStreamUrl(address, port, path, None, password) == "rtsp://" + Location(address, port, path)
    ensures '@' !in Location(address, port, path) ==>
      UserinfoFromAuthority("rtsp://" + Location(address, port, path)) == None
  {
    var location := Location(address, port, path);
    var a, d, p := address, Decimal(port), if path != "" && path[0] == '/' then path else "/" + path;
    assert "rtsp://" + "" + a + ":" + d + p == "rtsp://" + (a + ":" + d + p);
    SchemeSplits(location);
    if '@' !in location {
      SplitOnceNone(location, '@');
    }
  }

  /** White space around user name and password is not part of them. */
  lemma CredentialsAreTrimmed(a: string, name: string, b: string, c: string, password: string, d: string)
    requires AllWhite(a) && AllWhite(b) && AllWhite(c) && AllWhite(d)
    requires name != "" && !IsWhite(name[0]) && !IsWhite(name[|name| - 1]) && ':' !in name
    requires password != "" && !IsWhite(password[0]) && !IsWhite(password[|password| - 1])
    ensures CredentialsOf((a + name + b) + [':'] + (c + password + d)) == Some((name, Some(password)))
  {
    var authority := (a + name + b) + [':'] + (c + password + d);
    assert ':' !in a && ':' !in b;
    SplitOnceJoin(a + name + b, ':', c + password + d);
    TrimPadded(a, name, b);
    TrimPadded(c, password, d);
    TrimIsEmptyIff(authority);
    assert authority[|a|] == name[0];
  }

  lemma TrimKeepsColon(u: string, w: string)
    requires Plain(u) && Plain(w)
    ensures Trim(u + [':'] + w) == u + [':'] + w
  {
  }

  // ----- decoding -----

  /** Percent-decoding to bytes; other characters stand for their code. */
  function PercentDecode(s: string): seq<nat> {
    if s == "" then []
    else if s[0] == '%' && |s| >= 3 && HexValue(s[1]).Some? && HexValue(s[2]).Some? then
      [16 * HexValue(s[1]).value + HexValue(s[2]).value] + PercentDecode(s[3..])
    else [s[0] as nat] + PercentDecode(s[1..])
  }

  function Codes(s: string): seq<nat> {
    if s == "" then [] else [s[0] as nat] + Codes(s[1..])
  }

  predicate Ascii(s: string) {
    forall i :: 0 <= i < |s| ==> s[i] as nat < 128
  }

  lemma DecodeEscapedChar(c: char, rest: string)
    requires c as nat < 128
    ensures PercentDecode(EscapeChar(c) + rest) == [c as nat] + PercentDecode(rest)
  {
    var n := c as nat;
    var s := EscapeChar(c) + rest;
    if IsUnreserved(c) {
      assert s[1..] == rest;
    } else {
      if n >= 16 {
        assert Hex(n) == Hex(n / 16) + [HexDigit(n % 16)] && Hex(n / 16) == [HexDigit(n / 16)];
        assert s == ['%', HexDigit(n / 16), HexDigit(n % 16)] + rest;
      } else {
        assert s == ['%', '0', HexDigit(n)] + rest;
      }
      assert s[3..] == rest;
    }
  }

  /** Decoding undoes escaping for ASCII credentials. */
  lemma {:induction false} EscapeRoundTrip(s: string)
    requires Ascii(s)
    ensures PercentDecode(Escape(s)) == Codes(s)
  {
    if s != "" {
      DecodeEscapedChar(s[0], Escape(s[1..]));
      EscapeRoundTrip(s[1..]);
    }
  }

  lemma {:induction false} HexIsAscii(n: nat)
    ensures forall i :: 0 <= i < |Hex(n)| ==> Hex(n)[i] as nat < 128 && HexValue(Hex(n)[i]).Some?
    ensures n >= 256 ==> |Hex(n)| >= 3
  {
    if n >= 16 {
      HexIsAscii(n / 16);
      if n >= 256 {
        assert n / 16 >= 16 && Hex(n / 16) == Hex(n / 16 / 16) + [HexDigit(n / 16 % 16)];
        assert |Hex(n / 16 / 16)| >= 1;
      }
    }
  }

  /** A character survives escaping and decoding exactly when it is ASCII: the escape writes the
      code point, not its UTF-8 bytes. */
  lemma CharSurvivesIffAscii(c: char)
    ensures PercentDecode(EscapeChar(c)) == Utf8(c) <==> c as nat < 128
  {
    var n := c as nat;
    var s := EscapeChar(c);
    if n < 128 {
      assert s + "" == s;
      DecodeEscapedChar(c, "");
      assert PercentDecode("") == [];
    } else {
      HexIsAscii(n);
      HexIsPlain(n);
      assert s == ['%'] + Hex(n);
      if n < 256 {
        assert Hex(n) == Hex(n / 16) + [HexDigit(n % 16)] && Hex(n / 16) == [HexDigit(n / 16)];
        assert s[3..] == "";
        assert |PercentDecode(s)| == 1;
      } else {
        assert s[1] == Hex(n)[0] && s[2] == Hex(n)[1] && s[3] == Hex(n)[2];
        assert s[3..][0] == s[3] && s[3] != '%';
        assert PercentDecode(s)[1] == s[3] as nat;
        assert Utf8(c)[1] >= 128;
      }
    }
  }

  // ----- whole credentials -----

  function Utf8All(s: string): seq<nat> {
    if s == "" then [] else Utf8(s[0]) + Utf8All(s[1..])
  }

  /** How many values lie beyond ASCII. */
  function High(bytes: seq<nat>): nat {
    if bytes == [] then 0 else (if bytes[0] >= 128 then 1 else 0) + High(bytes[1..])
  }

  lemma {:induction false} HighOfJoined(a: seq<nat>, b: seq<nat>)
    ensures High(a + b) == High(a) + High(b)
  {
    if a == [] {
      assert a + b == b;
    } else {
      assert (a + b)[1..] == a[1..] + b;
      HighOfJoined(a[1..], b);
    }
  }

  /** Decoding leaves text without percent signs alone. */
  lemma {:induction false} DecodePlainText(h: string, rest: string)
    requires '%' !in h
    ensures PercentDecode(h + rest) == Codes(h) + PercentDecode(rest)
  {
    if h == "" {
      assert h + rest == rest;
    } else {
      assert (h + rest)[1..] == h[1..] + rest;
      DecodePlainText(h[1..], rest);
    }
  }

  lemma {:induction false} NoHighInAscii(s: string)
    requires Ascii(s)
    ensures High(Codes(s)) == 0
  {
    if s != "" {
      assert Codes(s)[1..] == Codes(s[1..]);
      NoHighInAscii(s[1..]);
    }
  }

  lemma HexHasTwo(n: nat)
    requires n >= 16
    ensures |Hex(n)| >= 2
  {
    assert |Hex(n / 16)| >= 1;
  }

  /** A character beyond ASCII is escaped by its code point, of which decoding turns the first
      two digits into a byte and leaves the others. */
  lemma DecodeWideChar(c: char, rest: string)
    requires c as nat >= 128
    ensures High(PercentDecode(EscapeChar(c) + rest)) <= 1 + High(PercentDecode(rest))
  {
    var h := Hex(c as nat);
    HexIsAscii(c as nat);
    HexIsPlain(c as nat);
    HexHasTwo(c as nat);
    assert EscapeChar(c) == ['%'] + h;
    DecodeFirstByte(h, rest);
    DecodePlainText(h[2..], rest);
    NoHighInAscii(h[2..]);
    HighOfJoined(Codes(h[2..]), PercentDecode(rest));
    HighOfByte(16 * HexValue(h[0]).value + HexValue(h[1]).value, PercentDecode(h[2..] + rest));
  }

  lemma DecodeFirstByte(h: string, rest: string)
    requires |h| >= 2 && HexValue(h[0]).Some? && HexValue(h[1]).Some?
    ensures PercentDecode(['%'] + h + rest) ==
      [16 * HexValue(h[0]).value + HexValue(h[1]).value] + PercentDecode(h[2..] + rest)
  {
    var s := ['%'] + h + rest;
    assert s[1] == h[0] && s[2] == h[1] && s[3..] == h[2..] + rest;
  }

  lemma HighOfByte(b: nat, bytes: seq<nat>)
    ensures High([b] + bytes) == (if b >= 128 then 1 else 0) + High(bytes)
  {
  }

  lemma Utf8IsHigh(c: char)
    requires c as nat >= 128
    ensures High(Utf8(c)) >= 2
  {
    var u := Utf8(c);
    var last := |u| - 1;
    assert u[0] >= 128 && u[last] >= 128;
    assert u == [u[0]] + u[1..last] + [u[last]];
    HighOfJoined([u[0]] + u[1..last], [u[last]]);
    HighOfJoined([u[0]], u[1..last]);
    HighOfByte(u[0], []);
    HighOfByte(u[last], []);
  }

  function WideChars(s: string): nat {
    if s == "" then 0 else (if s[0] as nat >= 128 then 1 else 0) + WideChars(s[1..])
  }

  lemma {:induction false} DecodedIsLow(s: string)
    ensures High(PercentDecode(Escape(s))) <= WideChars(s)
  {
    if s != "" {
      DecodedIsLow(s[1..]);
      if s[0] as nat >= 128 {
        DecodeWideChar(s[0], Escape(s[1..]));
      } else {
        DecodeEscapedChar(s[0], Escape(s[1..]));
        HighOfByte(s[0] as nat, PercentDecode(Escape(s[1..])));
      }
    }
  }

  lemma {:induction false} EncodedIsHigh(s: string)
    ensures High(Utf8All(s)) >= 2 * WideChars(s)
  {
    if s != "" {
      EncodedIsHigh(s[1..]);
      HighOfJoined(Utf8(s[0]), Utf8All(s[1..]));
      if s[0] as nat >= 128 {
        Utf8IsHigh(s[0]);
      }
    }
  }

  lemma {:induction false} AsciiIffNoWideChar(s: string)
    ensures Ascii(s) <==> WideChars(s) == 0
    ensures Ascii(s) ==> Utf8All(s) == Codes(s)
  {
    if s != "" {
      AsciiIffNoWideChar(s[1..]);
      assert forall i :: 0 < i < |s| ==> s[i] == s[1..][i - 1];
    }
  }

  /** Credentials survive escaping and decoding, as the bytes they stand for, if and only if they
      are ASCII. */
  lemma CredentialsSurviveIffAscii(s: string)
    ensures PercentDecode(Escape(s)) == Utf8All(s) <==> Ascii(s)
  {
    AsciiIffNoWideChar(s);
    if Ascii(s) {
      EscapeRoundTrip(s);
    } else {
      DecodedIsLow(s);
      EncodedIsHigh(s);
    }
  }
}

/** Text to bytes and back: UTF-8, and the unpadded base64url of query cursors
    (sections 3.2 and 5 of RFC 4648; cli/src/modelable/query_service.py). */
module CursorText {
  import opened Text

  type Byte = n: nat | n < 256

  // ----- UTF-8 -----

  function EncodeChar(c: char): (r: seq<Byte>)
    ensures r != []
  {
    var n := c as int;
    if n < 0x80 then [n]
    else if n < 0x800 then [0xC0 + n / 64, 0x80 + n % 64]
    else if n < 0x10000 then [0xE0 + n / 64 / 64, 0x80 + n / 64 % 64, 0x80 + n % 64]
    else [0xF0 + n / 64 / 64 / 64, 0x80 + n / 64 / 64 % 64, 0x80 + n / 64 % 64, 0x80 + n % 64]
  }

  function Utf8Encode(s: string): seq<Byte> {
    if s == "" then [] else EncodeChar(s[0]) + Utf8Encode(s[1..])
  }

  /** The low six bits of a continuation byte. */
  function Continuation(b: seq<Byte>, i: nat): (r: Option<nat>)
    ensures r.Some? ==> i < |b| && r.value < 64
  {
    if i < |b| && 0x80 <= b[i] < 0xC0 then Some(b[i] - 0x80) else None
  }

  predicate IsScalar(n: nat) { n < 0xD800 || 0xE000 <= n < 0x110000 }

  /** A scalar value put together from the payload bits, if it needed that many bytes. */
  function Scalar(n: nat, least: nat, length: nat): Option<(char, nat)> {
    if n >= least && IsScalar(n) then Some((n as char, length)) else None
  }

  /** The first character and how many bytes it takes; overlong forms and surrogates are refused. */
  function DecodeChar(b: seq<Byte>): (r: Option<(char, nat)>)
    requires b != []
    ensures r.Some? ==> 0 < r.value.1 <= |b|
  {
    var lead: nat := b[0];
    var x, y, z := Continuation(b, 1), Continuation(b, 2), Continuation(b, 3);
    if lead < 0x80 then Some((lead as char, 1))
    else if 0xC0 <= lead < 0xE0 && x.Some? then Scalar((lead - 0xC0) * 64 + x.value, 0x80, 2)
    else if 0xE0 <= lead < 0xF0 && x.Some? && y.Some? then
      Scalar(((lead - 0xE0) * 64 + x.value) * 64 + y.value, 0x800, 3)
    else if 0xF0 <= lead < 0xF8 && x.Some? && y.Some? && z.Some? then
      Scalar((((lead - 0xF0) * 64 + x.value) * 64 + y.value) * 64 + z.value, 0x10000, 4)
    else None
  }

  function Utf8Decode(b: seq<Byte>): Option<string> {
    if b == [] then Some("")
    else
      match DecodeChar(b)
      case None => None
      case Some((c, n)) =>
        match Utf8Decode(b[n..])
        case None => None
        case Some(rest) => Some([c] + rest)
  }

  /** The payload bits of a scalar value. */
  lemma Sextets(n: nat)
    ensures n == n / 64 * 64 + n % 64
    ensures n == (n / 64 / 64 * 64 + n / 64 % 64) * 64 + n % 64
    ensures n == ((n / 64 / 64 / 64 * 64 + n / 64 / 64 % 64) * 64 + n / 64 % 64) * 64 + n % 64
  {
  }

  lemma CharBytes(c: char, rest: seq<Byte>)
    ensures DecodeChar(EncodeChar(c) + rest) == Some((c, |EncodeChar(c)|))
    ensures (EncodeChar(c) + rest)[|EncodeChar(c)|..] == rest
  {
    var n, e := c as int, EncodeChar(c);
    var b := e + rest;
    Sextets(n);
    assert forall i :: 0 <= i < |e| ==> b[i] == e[i];
    assert |e| > 1 ==> Continuation(b, 1) == Some(e[1] - 0x80);
    assert |e| > 2 ==> Continuation(b, 2) == Some(e[2] - 0x80);
    assert |e| > 3 ==> Continuation(b, 3) == Some(e[3] - 0x80);
  }

  lemma {:induction false} Utf8RoundTrip(s: string)
    ensures Utf8Decode(Utf8Encode(s)) == Some(s)
  {
    hide EncodeChar, DecodeChar;
    if s != "" {
      CharBytes(s[0], Utf8Encode(s[1..]));
      Utf8RoundTrip(s[1..]);
      assert s == [s[0]] + s[1..];
    }
  }

  // ----- base64url -----

  function SymbolOf(n: nat): (c: char)
    requires n < 64
    ensures ValueOf(c) == Some(n) && c != '='
  {
    if n < 26 then 'A' + n as char
    else if n < 52 then 'a' + (n - 26) as char
    else if n < 62 then '0' + (n - 52) as char
    else if n == 62 then '-' else '_'
  }

  /** The decoder maps both alphabets to one. */
  function ValueOf(c: char): (n: Option<nat>)
    ensures n.Some? ==> n.value < 64
  {
    if 'A' <= c <= 'Z' then Some(c as int - 'A' as int)
    else if 'a' <= c <= 'z' then Some(c as int - 'a' as int + 26)
    else if '0' <= c <= '9' then Some(c as int - '0' as int + 52)
    else if c == '-' || c == '+' then Some(62)
    else if c == '_' || c == '/' then Some(63)
    else None
  }

  /** Up to three bytes to four symbols, filled up with `=`. */
  function EncodeGroup(b: seq<Byte>): (s: string)
    requires 1 <= |b| <= 3
    ensures |s| == 4
  {
    var first := SymbolOf(b[0] / 4);
    if |b| == 1 then [first, SymbolOf(b[0] % 4 * 16), '=', '=']
    else
      var second := SymbolOf(b[0] % 4 * 16 + b[1] / 16);
      if |b| == 2 then [first, second, SymbolOf(b[1] % 16 * 4), '=']
      else [first, second, SymbolOf(b[1] % 16 * 4 + b[2] / 64), SymbolOf(b[2] % 64)]
  }

  /** Only the last group is filled up. */
  function EncodePadded(b: seq<Byte>): (s: string)
    ensures |s| % 4 == 0
  {
    if b == [] then "" else if |b| <= 3 then EncodeGroup(b) else EncodeGroup(b[..3]) + EncodePadded(b[3..])
  }

  /** `rstrip("=")`. */
  function StripPadding(s: string): string {
    if s != "" && s[|s| - 1] == '=' then StripPadding(s[..|s| - 1]) else s
  }

  function Padding(n: nat): string { if n == 0 then "" else "=" + Padding(n - 1) }

  /** `cursor + "=" * (-len(cursor) % 4)`. */
  function Repad(s: string): string { s + Padding((4 - |s| % 4) % 4) }

  function DecodeGroup(s: string): Option<seq<Byte>>
    requires |s| == 4
  {
    var a, b, c, d := ValueOf(s[0]), ValueOf(s[1]), ValueOf(s[2]), ValueOf(s[3]);
    if a.None? || b.None? then None
    else if s[2] == '=' && s[3] == '=' then Some([a.value * 4 + b.value / 16])
    else if c.None? then None
    else if s[3] == '=' then Some([a.value * 4 + b.value / 16, b.value % 16 * 16 + c.value / 4])
    else if d.None? then None
    else Some([a.value * 4 + b.value / 16, b.value % 16 * 16 + c.value / 4, c.value % 4 * 64 + d.value])
  }

  /** Padding ends the text. */
  function DecodePadded(s: string): Option<seq<Byte>> {
    if s == "" then Some([])
    else if |s| < 4 then None
    else
      match DecodeGroup(s[..4])
      case None => None
      case Some(bytes) =>
        if |bytes| < 3 && |s| > 4 then None
        else match DecodePadded(s[4..]) case None => None case Some(rest) => Some(bytes + rest)
  }

  lemma Bits(x: nat, y: nat)
    requires x < 256 && y < 256
    ensures x / 4 * 4 + (x % 4 * 16 + y / 16) / 16 == x && (x % 4 * 16 + y / 16) % 16 == y / 16
    ensures y / 16 * 16 + y % 16 == y
    ensures (x % 16 * 4 + y / 64) / 4 == x % 16 && (x % 16 * 4 + y / 64) % 4 == y / 64
    ensures y / 64 * 64 + y % 64 == y
    ensures (x % 4 * 16) / 16 == x % 4 && (x % 16 * 4) / 4 == x % 16
  {
  }

  lemma GroupRoundTrip(b: seq<Byte>)
    requires 1 <= |b| <= 3
    ensures DecodeGroup(EncodeGroup(b)) == Some(b)
  {
    hide SymbolOf, ValueOf;
    if |b| == 1 {
      Bits(b[0], 0);
    } else {
      Bits(b[0], b[1]);
      Bits(b[1], if |b| == 3 then b[2] else 0);
    }
    assert b == if |b| == 1 then [b[0]] else if |b| == 2 then [b[0], b[1]] else [b[0], b[1], b[2]];
  }

  lemma Regroup(head: string, tail: string)
    requires |head| == 4
    ensures (head + tail)[..4] == head && (head + tail)[4..] == tail
  {
  }

  lemma {:induction false} PaddedRoundTrip(b: seq<Byte>)
    ensures DecodePadded(EncodePadded(b)) == Some(b)
  {
    hide DecodeGroup, EncodeGroup;
    if 1 <= |b| <= 3 {
      GroupRoundTrip(b);
      assert EncodePadded(b)[..4] == EncodeGroup(b) && EncodePadded(b)[4..] == "";
      assert b + [] == b;
    } else if |b| > 3 {
      GroupRoundTrip(b[..3]);
      PaddedRoundTrip(b[3..]);
      Regroup(EncodeGroup(b[..3]), EncodePadded(b[3..]));
      assert b == b[..3] + b[3..];
    }
  }

  /** An encoding ends in at most two `=`, with a symbol before them. */
  ghost predicate PaddedTo(s: string, body: string) {
    && s == body + Padding((4 - |body| % 4) % 4) && |body| % 4 != 1
    && (body != "" ==> body[|body| - 1] != '=')
  }

  lemma GroupBody(b: seq<Byte>) returns (body: string)
    requires 1 <= |b| <= 3
    ensures PaddedTo(EncodeGroup(b), body)
  {
    hide SymbolOf;
    body := EncodeGroup(b)[..|b| + 1];
    assert Padding(1) == "=" && Padding(2) == "==" by { assert Padding(0) == ""; }
    assert EncodeGroup(b) == body + Padding((4 - |body| % 4) % 4);
  }

  lemma BodyAfter(head: string, s: string, body: string)
    requires |head| == 4 && PaddedTo(s, body) && (body == "" ==> s != "")
    ensures PaddedTo(head + s, head + body)
  {
    assert |head + body| % 4 == |body| % 4;
    assert head + s == (head + body) + Padding((4 - |body| % 4) % 4);
  }

  lemma {:induction false} EncodedBody(b: seq<Byte>) returns (body: string)
    ensures PaddedTo(EncodePadded(b), body) && (b != [] ==> body != "")
  {
    hide EncodeGroup, PaddedTo;
    if b == [] {
      body := "";
      EmptyBody();
    } else if |b| <= 3 {
      body := GroupBody(b);
      BodyNonEmpty(EncodeGroup(b), body);
    } else {
      var rest := EncodedBody(b[3..]);
      BodyAfter(EncodeGroup(b[..3]), EncodePadded(b[3..]), rest);
      body := EncodeGroup(b[..3]) + rest;
    }
  }

  lemma EmptyBody()
    ensures PaddedTo("", "")
  {
  }

  lemma BodyNonEmpty(s: string, body: string)
    requires PaddedTo(s, body) && s != ""
    ensures body != ""
  {
  }

  lemma {:induction false} StripOfPadding(body: string, n: nat)
    requires body != "" ==> body[|body| - 1] != '='
    ensures StripPadding(body + Padding(n)) == body
  {
    if n == 0 {
      assert body + Padding(0) == body;
    } else {
      PaddingEnds(n - 1);
      var s := body + Padding(n);
      assert Padding(n) == Padding(n - 1) + "=";
      assert s[..|s| - 1] == body + Padding(n - 1) && s[|s| - 1] == '=';
      StripOfPadding(body, n - 1);
    }
  }

  lemma {:induction false} PaddingEnds(n: nat)
    ensures "=" + Padding(n) == Padding(n) + "="
  {
    if n > 0 {
      PaddingEnds(n - 1);
      assert ("=" + Padding(n - 1)) + "=" == "=" + (Padding(n - 1) + "=");
    }
  }

  function EncodeUnpadded(b: seq<Byte>): string { StripPadding(EncodePadded(b)) }

  function DecodeUnpadded(s: string): Option<seq<Byte>> { DecodePadded(Repad(s)) }

  /** What the padding said is recovered from the length. */
  lemma UnpaddedRoundTrip(b: seq<Byte>)
    ensures DecodeUnpadded(EncodeUnpadded(b)) == Some(b)
  {
    hide EncodePadded, DecodePadded;
    var body := EncodedBody(b);
    StripOfPadding(body, (4 - |body| % 4) % 4);
    PaddedRoundTrip(b);
  }
}

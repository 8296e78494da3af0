/** JSON text: the compact printer and the parser of Python's json module, as facets and query
    cursors use them (cli/src/modelable/facets.py, cli/src/modelable/query_service.py). Printers
    write in front of the text that follows, so a parser's leftover is that text itself. */
module JsonText {
  import opened Text
  import opened Ordering
  import opened Json

  /** How floats are written: `repr` on the way out, `float` on the way in. */
  datatype Floats = Floats(repr: nat -> string, parse: string -> nat)

  /** Every float is written as a float and read back as itself. */
  ghost predicate Faithful(f: Floats) {
    forall bits {:trigger f.repr(bits)} ::
      f.parse(f.repr(bits)) == bits && IsFloatText(f.repr(bits)) && !IsIntText(f.repr(bits)) &&
      OnlyNumberChars(f.repr(bits))
  }

  // ----- numbers -----

  predicate IsNumberChar(c: char) { IsDigit(c) || c == '-' || c == '+' || c == '.' || c == 'e' || c == 'E' }

  predicate OnlyNumberChars(s: string) { forall i :: 0 <= i < |s| ==> IsNumberChar(s[i]) }

  function Unsigned(s: string): string { if s != "" && s[0] == '-' then s[1..] else s }

  predicate IsIntText(s: string) { IsCanonicalDecimal(Unsigned(s)) }

  function DigitsLength(s: string): (n: nat)
    ensures n <= |s|
  {
    if s == "" || !IsDigit(s[0]) then 0 else 1 + DigitsLength(s[1..])
  }

  predicate IsExponent(s: string) {
    && |s| >= 2 && (s[0] == 'e' || s[0] == 'E')
    && IsDecimal(if s[1] == '+' || s[1] == '-' then s[2..] else s[1..])
  }

  predicate IsFraction(s: string) {
    s != "" &&
    if s[0] == '.' then
      var n := DigitsLength(s[1..]);
      n > 0 && (n == |s| - 1 || IsExponent(s[1 + n..]))
    else IsExponent(s)
  }

  /** Digits, then a fraction or an exponent or both. */
  predicate IsFloatText(s: string) {
    var u := Unsigned(s);
    var n := DigitsLength(u);
    n > 0 && (n == 1 || u[0] != '0') && IsFraction(u[n..])
  }

  function IntText(i: int): string { if i < 0 then ['-'] + Decimal(-i) else Decimal(i) }

  function IntOf(s: string): int
    requires IsIntText(s)
  {
    if s[0] == '-' then 0 - ParseDecimal(s[1..]) else ParseDecimal(s)
  }

  lemma IntRoundTrip(i: int)
    ensures IsIntText(IntText(i)) && IntOf(IntText(i)) == i && OnlyNumberChars(IntText(i)) && IntText(i) != ""
  {
    hide Decimal, ParseDecimal;
    var n := if i < 0 then -i else i;
    DecimalIsCanonical(n);
    ParseOfDecimal(n);
    assert ['-'] + Decimal(n) != "" && (['-'] + Decimal(n))[1..] == Decimal(n);
  }

  function NumberLength(s: string): (n: nat)
    ensures n <= |s| && OnlyNumberChars(s[..n])
    ensures n < |s| ==> !IsNumberChar(s[n])
  {
    if s == "" || !IsNumberChar(s[0]) then 0
    else
      var n := NumberLength(s[1..]);
      assert s[..n + 1] == [s[0]] + s[1..][..n];
      n + 1
  }

  /** What may follow a value in compact text. */
  predicate Ends(rest: string) { rest == "" || rest[0] == ',' || rest[0] == ']' || rest[0] == '}' }

  lemma {:induction false} NumberLengthAt(s: string, k: nat)
    requires k <= |s| && (forall i :: 0 <= i < k ==> IsNumberChar(s[i])) && (k < |s| ==> !IsNumberChar(s[k]))
    ensures NumberLength(s) == k
  {
    hide IsNumberChar;
    if k > 0 { NumberLengthAt(s[1..], k - 1); }
  }

  lemma NumberLengthIs(token: string, rest: string)
    requires OnlyNumberChars(token) && Ends(rest)
    ensures NumberLength(token + rest) == |token|
    ensures (token + rest)[..|token|] == token && (token + rest)[|token|..] == rest
  {
    hide NumberLength;
    var s := token + rest;
    forall i | 0 <= i < |token| ensures IsNumberChar(s[i]) { assert s[i] == token[i]; }
    assert |token| < |s| ==> s[|token|] == rest[0];
    NumberLengthAt(s, |token|);
  }

  function ParseNumber(f: Floats, s: string): Result<(Value, string), ()> {
    var n := NumberLength(s);
    var token := s[..n];
    if IsIntText(token) then Ok((Int(IntOf(token)), s[n..]))
    else if IsFloatText(token) then Ok((Real(f.parse(token)), s[n..]))
    else Err(())
  }

  // ----- strings -----

  function HexChar(d: nat): (c: char)
    requires d < 16
    ensures HexValue(c) == Some(d)
  {
    if d < 10 then '0' + d as char else 'a' + (d - 10) as char
  }

  function HexValue(c: char): (d: Option<nat>)
    ensures d.Some? ==> d.value < 16
  {
    if '0' <= c <= '9' then Some(c as int - '0' as int)
    else if 'a' <= c <= 'f' then Some(c as int - 'a' as int + 10)
    else if 'A' <= c <= 'F' then Some(c as int - 'A' as int + 10)
    else None
  }

  function Hex4(n: nat): (s: string)
    requires n < 0x10000
    ensures |s| == 4
  {
    [HexChar(n / 0x1000), HexChar(n / 0x100 % 16), HexChar(n / 16 % 16), HexChar(n % 16)]
  }

  function ParseHex4(s: string): (n: Option<nat>)
    requires |s| == 4
    ensures n.Some? ==> n.value < 0x10000
  {
    match (HexValue(s[0]), HexValue(s[1]), HexValue(s[2]), HexValue(s[3]))
    case (Some(a), Some(b), Some(c), Some(d)) => Some(((a * 16 + b) * 16 + c) * 16 + d)
    case _ => None
  }

  lemma Hex4RoundTrip(n: nat)
    requires n < 0x10000
    ensures ParseHex4(Hex4(n)) == Some(n)
  {
    hide HexChar, HexValue;
    var a, b, c, d := n / 0x1000, n / 0x100 % 16, n / 16 % 16, n % 16;
    assert n == ((a * 16 + b) * 16 + c) * 16 + d;
  }

  function UnicodeEscape(n: nat): string
    requires n < 0x10000
  {
    "\\u" + Hex4(n)
  }

  /** The escape of one character; beyond the basic plane an ASCII escape is a surrogate pair. */
  function EscapeChar(ascii: bool, c: char): string {
    if c == '\"' then "\\\""
    else if c == '\\' then "\\\\"
    else if c == '\n' then "\\n"
    else if c == '\r' then "\\r"
    else if c == '\t' then "\\t"
    else if c as int == 12 then "\\f"
    else if c as int == 8 then "\\b"
    else if c < ' ' then UnicodeEscape(c as int)
    else if !ascii || c <= '~' then [c]
    else if c as int < 0x10000 then UnicodeEscape(c as int)
    else
      var n := c as int - 0x10000;
      UnicodeEscape(0xD800 + n / 0x400) + UnicodeEscape(0xDC00 + n % 0x400)
  }

  /** The string and its closing quote, in front of `rest`. */
  function PrintString(ascii: bool, s: string, rest: string): string {
    if s == "" then ['\"'] + rest else EscapeChar(ascii, s[0]) + PrintString(ascii, s[1..], rest)
  }

  predicate IsSurrogate(n: nat) { 0xD800 <= n < 0xE000 }

  /** The four hex digits after a backslash and a `u` at the start of `s`. */
  function UnicodeAt(s: string): (n: Option<nat>)
    ensures n.Some? ==> |s| >= 6 && n.value < 0x10000
  {
    if |s| >= 6 && s[0] == '\\' && s[1] == 'u' then ParseHex4(s[2..6]) else None
  }

  function ShortEscape(c: char): Option<char> {
    if c == '\"' || c == '\\' || c == '/' then Some(c)
    else if c == 'n' then Some('\n')
    else if c == 'r' then Some('\r')
    else if c == 't' then Some('\t')
    else if c == 'f' then Some(12 as char)
    else if c == 'b' then Some(8 as char)
    else None
  }

  /** The first character a string's text stands for, and how much text it takes. */
  function ParseChar(s: string): (r: Option<(char, nat)>)
    requires s != ""
    ensures r.Some? ==> 0 < r.value.1 <= |s|
  {
    if s[0] < ' ' || s[0] == '\"' then None
    else if s[0] != '\\' then Some((s[0], 1))
    else if |s| == 1 then None
    else if s[1] != 'u' then
      match ShortEscape(s[1]) case Some(c) => Some((c, 2)) case None => None
    else
      match UnicodeAt(s)
      case None => None
      case Some(n) =>
        if !IsSurrogate(n) then Some((n as char, 6))
        else if n < 0xDC00 then
          match UnicodeAt(s[6..])
          case Some(m) =>
            if 0xDC00 <= m < 0xE000 then Some(((0x10000 + (n - 0xD800) * 0x400 + (m - 0xDC00)) as char, 12)) else None
          case None => None
        else None
  }

  function ParseString(s: string): (r: Result<(string, string), ()>)
    ensures r.Ok? ==> |r.value.1| < |s|
    decreases |s|
  {
    if s == "" then Err(())
    else if s[0] == '\"' then Ok(("", s[1..]))
    else
      match ParseChar(s)
      case None => Err(())
      case Some((c, n)) =>
        match ParseString(s[n..])
        case Ok((tail, rest)) => Ok(([c] + tail, rest))
        case Err(e) => Err(e)
  }

  lemma UnicodeAtEscape(n: nat, rest: string)
    requires n < 0x10000
    ensures UnicodeAt(UnicodeEscape(n) + rest) == Some(n)
    ensures |UnicodeEscape(n)| == 6 && (UnicodeEscape(n) + rest)[6..] == rest
    ensures (UnicodeEscape(n) + rest)[0] == '\\' && (UnicodeEscape(n) + rest)[1] == 'u'
  {
    hide Hex4, ParseHex4;
    var s := UnicodeEscape(n) + rest;
    assert s[2..6] == Hex4(n);
    Hex4RoundTrip(n);
  }

  lemma CharRoundTrip(ascii: bool, c: char, rest: string)
    ensures var s := EscapeChar(ascii, c) + rest;
      s != "" && s[0] != '\"' && ParseChar(s) == Some((c, |EscapeChar(ascii, c)|)) &&
      s[|EscapeChar(ascii, c)|..] == rest
  {
    hide UnicodeAt, UnicodeEscape;
    var s := EscapeChar(ascii, c) + rest;
    if c < ' ' || (ascii && c > '~' && c as int < 0x10000) {
      UnicodeAtEscape(c as int, rest);
    } else if ascii && c as int >= 0x10000 {
      var n := c as int - 0x10000;
      var low := UnicodeEscape(0xDC00 + n % 0x400);
      UnicodeAtEscape(0xD800 + n / 0x400, low + rest);
      UnicodeAtEscape(0xDC00 + n % 0x400, rest);
      assert s == UnicodeEscape(0xD800 + n / 0x400) + (low + rest);
      assert s[12..] == s[6..][6..];
    }
  }

  lemma {:induction false} StringRoundTrip(ascii: bool, s: string, rest: string)
    ensures ParseString(PrintString(ascii, s, rest)) == Ok((s, rest))
  {
    hide EscapeChar, ParseChar;
    if s == "" {
      assert (['\"'] + rest)[1..] == rest;
    } else {
      CharRoundTrip(ascii, s[0], PrintString(ascii, s[1..], rest));
      StringRoundTrip(ascii, s[1..], rest);
      assert s == [s[0]] + s[1..];
    }
  }

  // ----- values -----

  predicate IsSpace(c: char) { c == ' ' || c == '\n' || c == '\r' || c == '\t' }

  function SkipSpace(s: string): (r: string)
    ensures |r| <= |s|
  {
    if s == "" || !IsSpace(s[0]) then s else SkipSpace(s[1..])
  }

  /** The value in front of `rest`, without spaces. */
  function Print(ascii: bool, f: Floats, v: Value, rest: string): string
    decreases v
  {
    match v
    case Null => "null" + rest
    case Bool(b) => if b then "true" + rest else "false" + rest
    case Int(i) => IntText(i) + rest
    case Real(bits) => f.repr(bits) + rest
    case Str(s) => ['\"'] + PrintString(ascii, s, rest)
    case Arr(items) => ['['] + if items == [] then [']'] + rest else PrintItems(ascii, f, items, rest)
    case Obj(ms) => ['{'] + if ms == [] then ['}'] + rest else PrintMembers(ascii, f, ms, rest)
  }

  function PrintItems(ascii: bool, f: Floats, items: seq<Value>, rest: string): string
    requires items != []
    decreases items
  {
    var tail := if |items| == 1 then [']'] + rest else [','] + PrintItems(ascii, f, items[1..], rest);
    Print(ascii, f, items[0], tail)
  }

  function PrintMembers(ascii: bool, f: Floats, ms: seq<Member>, rest: string): string
    requires ms != []
    decreases ms
  {
    var tail := if |ms| == 1 then ['}'] + rest else [','] + PrintMembers(ascii, f, ms[1..], rest);
    ['\"'] + PrintString(ascii, ms[0].key, [':'] + Print(ascii, f, ms[0].value, tail))
  }

  /** A dictionary built from pairs: a repeated key keeps its first place and its last value. */
  function Put(ms: seq<Member>, m: Member): seq<Member> {
    if ms == [] then [m] else if ms[0].key == m.key then [m] + ms[1..] else [ms[0]] + Put(ms[1..], m)
  }

  function ToDict(pairs: seq<Member>): seq<Member> {
    if pairs == [] then [] else Put(ToDict(pairs[..|pairs| - 1]), pairs[|pairs| - 1])
  }

  function ParseLiteral(s: string): Result<(Value, string), ()> {
    if |s| >= 4 && s[..4] == "null" then Ok((Null, s[4..]))
    else if |s| >= 4 && s[..4] == "true" then Ok((Bool(true), s[4..]))
    else if |s| >= 5 && s[..5] == "false" then Ok((Bool(false), s[5..]))
    else Err(())
  }

  function ParseValue(f: Floats, s: string): (r: Result<(Value, string), ()>)
    ensures r.Ok? ==> |r.value.1| < |s|
    decreases |s|, 0
  {
    if s == "" then Err(())
    else if s[0] == '\"' then
      match ParseString(s[1..]) case Ok((text, rest)) => Ok((Str(text), rest)) case Err(e) => Err(e)
    else if s[0] == '[' then
      var t := SkipSpace(s[1..]);
      if t != "" && t[0] == ']' then Ok((Arr([]), t[1..]))
      else match ParseItems(f, t) case Ok((items, rest)) => Ok((Arr(items), rest)) case Err(e) => Err(e)
    else if s[0] == '{' then
      var t := SkipSpace(s[1..]);
      if t != "" && t[0] == '}' then Ok((Obj([]), t[1..]))
      else match ParseMembers(f, t) case Ok((pairs, rest)) => Ok((Obj(ToDict(pairs)), rest)) case Err(e) => Err(e)
    else if IsDigit(s[0]) || s[0] == '-' then
      var n := NumberLength(s);
      assert n > 0;
      ParseNumber(f, s)
    else ParseLiteral(s)
  }

  /** The items of an array whose bracket is open. */
  function ParseItems(f: Floats, s: string): (r: Result<(seq<Value>, string), ()>)
    ensures r.Ok? ==> |r.value.1| < |s|
    decreases |s|, 1
  {
    match ParseValue(f, s)
    case Err(e) => Err(e)
    case Ok((item, after)) =>
      var t := SkipSpace(after);
      if t != "" && t[0] == ']' then Ok(([item], t[1..]))
      else if t != "" && t[0] == ',' then
        match ParseItems(f, SkipSpace(t[1..]))
        case Ok((items, rest)) => Ok(([item] + items, rest))
        case Err(e) => Err(e)
      else Err(())
  }

  /** One key, a colon and its value. */
  function ParseMember(f: Floats, s: string): (r: Result<(Member, string), ()>)
    ensures r.Ok? ==> |r.value.1| < |s|
    decreases |s|, 1
  {
    if s == "" || s[0] != '\"' then Err(())
    else
      match ParseString(s[1..])
      case Err(e) => Err(e)
      case Ok((key, afterKey)) =>
        var colon := SkipSpace(afterKey);
        if colon == "" || colon[0] != ':' then Err(())
        else
          match ParseValue(f, SkipSpace(colon[1..]))
          case Err(e) => Err(e)
          case Ok((value, after)) => Ok((Member(key, value), after))
  }

  /** The members of an object whose brace is open. */
  function ParseMembers(f: Floats, s: string): (r: Result<(seq<Member>, string), ()>)
    ensures r.Ok? ==> |r.value.1| < |s|
    decreases |s|, 2
  {
    match ParseMember(f, s)
    case Err(e) => Err(e)
    case Ok((m, after)) =>
      var t := SkipSpace(after);
      if t != "" && t[0] == '}' then Ok(([m], t[1..]))
      else if t != "" && t[0] == ',' then
        match ParseMembers(f, SkipSpace(t[1..]))
        case Ok((ms, rest)) => Ok(([m] + ms, rest))
        case Err(e) => Err(e)
      else Err(())
  }

  /** `json.loads`: one value and nothing but space around it. */
  function Loads(f: Floats, s: string): Result<Value, ()> {
    match ParseValue(f, SkipSpace(s))
    case Ok((v, rest)) => if SkipSpace(rest) == "" then Ok(v) else Err(())
    case Err(e) => Err(e)
  }

  /** `json.dumps` with sorted keys and compact separators. */
  function Dumps(ascii: bool, f: Floats, v: Value): string { Print(ascii, f, Canonical(v), "") }

  // ----- reading back what was written -----

  lemma {:induction false} PutNew(ms: seq<Member>, m: Member)
    requires forall i :: 0 <= i < |ms| ==> ms[i].key != m.key
    ensures Put(ms, m) == ms + [m]
  {
    if ms != [] {
      PutNew(ms[1..], m);
      assert ms == [ms[0]] + ms[1..];
    }
  }

  lemma {:induction false} ToDictDistinct(ms: seq<Member>)
    requires DistinctKeys(ms)
    ensures ToDict(ms) == ms
  {
    if ms != [] {
      var n := |ms| - 1;
      ToDictDistinct(ms[..n]);
      PutNew(ms[..n], ms[n]);
      SplitLast(ms);
    }
  }

  lemma LiteralRoundTrip(word: string, rest: string)
    requires word in ["null", "true", "false"]
    ensures ParseLiteral(word + rest) ==
      Ok((if word == "null" then Null else Bool(word == "true"), rest))
    ensures word != "" && (word + rest)[0] in ['n', 't', 'f']
  {
    var s := word + rest;
    assert s[..|word|] == word && s[|word|..] == rest;
    assert |word| == 5 ==> s[0] == 'f';
    assert s[..4][0] == s[0];
  }

  lemma NumberRoundTrip(f: Floats, v: Value, rest: string)
    requires Faithful(f) && (v.Int? || v.Real?) && Ends(rest)
    ensures ParseNumber(f, Print(false, f, v, rest)) == Ok((v, rest))
    ensures Print(true, f, v, rest) == Print(false, f, v, rest)
  {
    hide IsFloatText, IntOf, IntText, NumberLength, OnlyNumberChars, IsIntText, Ends;
    match v {
      case Int(i) =>
        IntRoundTrip(i);
        NumberLengthIs(IntText(i), rest);
      case Real(bits) =>
        assert f.parse(f.repr(bits)) == bits;
        NumberLengthIs(f.repr(bits), rest);
    }
  }

  /** How a value's text begins. */
  lemma NumberStart(f: Floats, v: Value, rest: string)
    requires Faithful(f) && (v.Int? || v.Real?)
    ensures var s := Print(false, f, v, rest); s != "" && (IsDigit(s[0]) || s[0] == '-')
  {
    match v {
      case Int(i) =>
        IntRoundTrip(i);
        var text := IntText(i);
        assert (text + rest)[0] == text[0];
      case Real(bits) =>
        var text := f.repr(bits);
        assert IsFloatText(text);
        assert text != "";
        assert (text + rest)[0] == text[0];
    }
  }

  predicate Starts(s: string) {
    s != "" && !IsSpace(s[0]) && s[0] != ']' && s[0] != '}' && s[0] != ','
  }

  lemma ValueStarts(ascii: bool, f: Floats, v: Value, rest: string)
    requires Faithful(f)
    ensures Starts(Print(ascii, f, v, rest))
  {
    match v {
      case Null => LiteralRoundTrip("null", rest);
      case Bool(b) => LiteralRoundTrip("true", rest); LiteralRoundTrip("false", rest);
      case Int(i) => NumberStart(f, v, rest);
      case Real(bits) => NumberStart(f, v, rest);
      case Str(s) =>
      case Arr(items) =>
      case Obj(ms) =>
    }
  }

  lemma ItemsStart(ascii: bool, f: Floats, items: seq<Value>, rest: string)
    requires Faithful(f) && items != []
    ensures Starts(PrintItems(ascii, f, items, rest))
  {
    hide Print, Starts;
    var tail := if |items| == 1 then [']'] + rest else [','] + PrintItems(ascii, f, items[1..], rest);
    ValueStarts(ascii, f, items[0], tail);
  }

  lemma HeadTail(c: char, rest: string)
    ensures [c] + rest != "" && ([c] + rest)[0] == c && ([c] + rest)[1..] == rest
    ensures !IsSpace(c) ==> SkipSpace([c] + rest) == [c] + rest
  {
  }

  lemma NoSpace(s: string)
    requires Starts(s)
    ensures SkipSpace(s) == s
  {
  }

  lemma {:induction false} ValueRoundTrip(ascii: bool, f: Floats, v: Value, rest: string)
    requires Faithful(f) && WellFormed(v) && Ends(rest)
    ensures ParseValue(f, Print(ascii, f, v, rest)) == Ok((v, rest))
    decreases v, 0
  {
    hide Faithful, ParseString, PrintString, ParseNumber, ParseLiteral, ParseItems, ParseMembers, PrintItems,
      PrintMembers,
      SkipSpace, NumberLength, IntText, Ends;
    match v {
      case Null => LiteralRoundTrip("null", rest);
      case Bool(b) => LiteralRoundTrip(if b then "true" else "false", rest);
      case Int(i) => NumberRoundTrip(f, v, rest); NumberStart(f, v, rest);
      case Real(bits) => NumberRoundTrip(f, v, rest); NumberStart(f, v, rest);
      case Str(s) =>
        HeadTail('\"', PrintString(ascii, s, rest));
        StringRoundTrip(ascii, s, rest);
      case Arr(items) => ArrayRoundTrip(ascii, f, items, rest);
      case Obj(ms) => ObjectRoundTrip(ascii, f, ms, rest);
    }
  }

  lemma {:induction false} ArrayRoundTrip(ascii: bool, f: Floats, items: seq<Value>, rest: string)
    requires Faithful(f) && WellFormed(Arr(items)) && Ends(rest)
    ensures ParseValue(f, Print(ascii, f, Arr(items), rest)) == Ok((Arr(items), rest))
    decreases items, 1
  {
    hide Faithful, PrintItems, ParseItems, SkipSpace, WellFormed;
    if items == [] {
      HeadTail('[', [']'] + rest);
      HeadTail(']', rest);
    } else {
      var text := PrintItems(ascii, f, items, rest);
      HeadTail('[', text);
      ItemsStart(ascii, f, items, rest);
      NoSpace(text);
      assert forall i :: 0 <= i < |items| ==> WellFormed(items[i]) by { ItemsWellFormed(items); }
      ItemsRoundTrip(ascii, f, items, rest);
    }
  }

  lemma ItemsWellFormed(items: seq<Value>)
    requires WellFormed(Arr(items))
    ensures forall i :: 0 <= i < |items| ==> WellFormed(items[i])
  {
  }

  lemma {:induction false} ItemsRoundTrip(ascii: bool, f: Floats, items: seq<Value>, rest: string)
    requires Faithful(f) && items != [] && forall i :: 0 <= i < |items| ==> WellFormed(items[i])
    ensures ParseItems(f, PrintItems(ascii, f, items, rest)) == Ok((items, rest))
    decreases items, 0
  {
    hide Faithful, Print, ParseValue, SkipSpace, WellFormed, Starts;
    if |items| == 1 {
      var tail := [']'] + rest;
      ValueRoundTrip(ascii, f, items[0], tail);
      HeadTail(']', rest);
      assert items == [items[0]];
    } else {
      var more := PrintItems(ascii, f, items[1..], rest);
      var tail := [','] + more;
      ValueRoundTrip(ascii, f, items[0], tail);
      HeadTail(',', more);
      ItemsStart(ascii, f, items[1..], rest);
      NoSpace(more);
      ItemsRoundTrip(ascii, f, items[1..], rest);
      assert items == [items[0]] + items[1..];
    }
  }

  lemma {:induction false} ObjectRoundTrip(ascii: bool, f: Floats, ms: seq<Member>, rest: string)
    requires Faithful(f) && WellFormed(Obj(ms)) && Ends(rest)
    ensures ParseValue(f, Print(ascii, f, Obj(ms), rest)) == Ok((Obj(ms), rest))
    decreases ms, 1
  {
    hide Faithful, PrintMembers, ParseMembers, SkipSpace, WellFormed, ToDict;
    MembersWellFormed(ms);
    if ms == [] {
      HeadTail('{', ['}'] + rest);
      HeadTail('}', rest);
    } else {
      var text := PrintMembers(ascii, f, ms, rest);
      HeadTail('{', text);
      MembersStart(ascii, f, ms, rest);
      MembersRoundTrip(ascii, f, ms, rest);
      ToDictDistinct(ms);
    }
  }

  lemma MembersStart(ascii: bool, f: Floats, ms: seq<Member>, rest: string)
    requires ms != []
    ensures var text := PrintMembers(ascii, f, ms, rest);
      text != "" && text[0] == '\"' && SkipSpace(text) == text
  {
  }

  lemma MembersWellFormed(ms: seq<Member>)
    requires WellFormed(Obj(ms))
    ensures DistinctKeys(ms) && forall i :: 0 <= i < |ms| ==> WellFormed(ms[i].value)
  {
  }

  lemma MemberRoundTrip(ascii: bool, f: Floats, m: Member, tail: string)
    requires Faithful(f) && ParseValue(f, Print(ascii, f, m.value, tail)) == Ok((m.value, tail))
    ensures ParseMember(f, ['\"'] + PrintString(ascii, m.key, [':'] + Print(ascii, f, m.value, tail))) == Ok((m, tail))
  {
    hide Faithful, Print, PrintString, ParseString, ParseValue, SkipSpace, Starts;
    var value := Print(ascii, f, m.value, tail);
    HeadTail('\"', PrintString(ascii, m.key, [':'] + value));
    StringRoundTrip(ascii, m.key, [':'] + value);
    HeadTail(':', value);
    ValueStarts(ascii, f, m.value, tail);
    NoSpace(value);
  }

  function MembersTail(ascii: bool, f: Floats, ms: seq<Member>, rest: string): string
    requires ms != []
  {
    if |ms| == 1 then ['}'] + rest else [','] + PrintMembers(ascii, f, ms[1..], rest)
  }

  lemma PrintMembersHead(ascii: bool, f: Floats, ms: seq<Member>, rest: string)
    requires ms != []
    ensures PrintMembers(ascii, f, ms, rest) == ['\"'] +
      PrintString(ascii, ms[0].key, [':'] + Print(ascii, f, ms[0].value, MembersTail(ascii, f, ms, rest)))
  {
    hide Print, PrintString;
  }

  lemma ParseLastMember(f: Floats, s: string, m: Member, rest: string)
    requires ParseMember(f, s) == Ok((m, ['}'] + rest))
    ensures ParseMembers(f, s) == Ok(([m], rest))
  {
    hide ParseMember, SkipSpace;
    HeadTail('}', rest);
  }

  lemma ParseNextMember(f: Floats, s: string, m: Member, more: string, ms: seq<Member>, rest: string)
    requires ParseMember(f, s) == Ok((m, [','] + more)) && SkipSpace(more) == more
    requires ParseMembers(f, more) == Ok((ms, rest))
    ensures ParseMembers(f, s) == Ok(([m] + ms, rest))
  {
    hide ParseMember, SkipSpace;
    HeadTail(',', more);
  }

  lemma {:induction false} MembersRoundTrip(ascii: bool, f: Floats, ms: seq<Member>, rest: string)
    requires Faithful(f) && ms != [] && forall i :: 0 <= i < |ms| ==> WellFormed(ms[i].value)
    ensures ParseMembers(f, PrintMembers(ascii, f, ms, rest)) == Ok((ms, rest))
    decreases ms, 0
  {
    hide Faithful, Print, PrintString, PrintMembers, ParseMember, ParseMembers, SkipSpace, WellFormed;
    var tail, text := MembersTail(ascii, f, ms, rest), PrintMembers(ascii, f, ms, rest);
    assert ms[0].value < ms[0];
    PrintMembersHead(ascii, f, ms, rest);
    EndsWithTail(ascii, f, ms, rest);
    ValueRoundTrip(ascii, f, ms[0].value, tail);
    MemberRoundTrip(ascii, f, ms[0], tail);
    if |ms| == 1 {
      ParseLastMember(f, text, ms[0], rest);
      assert ms == [ms[0]];
    } else {
      var more := PrintMembers(ascii, f, ms[1..], rest);
      MembersStart(ascii, f, ms[1..], rest);
      MembersRoundTrip(ascii, f, ms[1..], rest);
      ParseNextMember(f, text, ms[0], more, ms[1..], rest);
      assert ms == [ms[0]] + ms[1..];
    }
  }

  lemma EndsWithTail(ascii: bool, f: Floats, ms: seq<Member>, rest: string)
    requires ms != []
    ensures Ends(MembersTail(ascii, f, ms, rest))
  {
    hide PrintMembers;
  }

  /** Reading written text gives the value with its members in key order. */
  lemma LoadsOfDumps(ascii: bool, f: Floats, v: Value)
    requires Faithful(f) && WellFormed(v)
    ensures Loads(f, Dumps(ascii, f, v)) == Ok(Canonical(v))
  {
    hide Print, ParseValue, Starts, Canonical, WellFormed, Faithful;
    CanonicalWellFormed(v);
    ValueStarts(ascii, f, Canonical(v), "");
    NoSpace(Dumps(ascii, f, v));
    ValueRoundTrip(ascii, f, Canonical(v), "");
  }

  /** The text is the same exactly when the values differ only in member order. */
  lemma TextDecidesSameness(ascii: bool, f: Floats, a: Value, b: Value)
    requires Faithful(f) && WellFormed(a) && WellFormed(b)
    ensures Dumps(ascii, f, a) == Dumps(ascii, f, b) <==> Same(a, b)
  {
    LoadsOfDumps(ascii, f, a);
    LoadsOfDumps(ascii, f, b);
    CanonicalDecidesSameness(a, b);
  }

  // ----- a faithful way to write floats exists -----

  lemma {:induction false} DigitsLengthOf(digits: string, rest: string)
    requires (forall i :: 0 <= i < |digits| ==> IsDigit(digits[i])) && (rest == "" || !IsDigit(rest[0]))
    ensures DigitsLength(digits + rest) == |digits|
  {
    if digits == "" {
      assert digits + rest == rest;
    } else {
      assert (digits + rest)[1..] == digits[1..] + rest;
      DigitsLengthOf(digits[1..], rest);
    }
  }

  function PointText(n: nat): string { Decimal(n) + ".0" }

  function PointValue(s: string): nat {
    if |s| > 2 && IsDecimal(s[..|s| - 2]) then ParseDecimal(s[..|s| - 2]) else 0
  }

  /** Writing every float as its bits and ".0" would do. */
  lemma FaithfulFloatsExist()
    ensures Faithful(Floats(PointText, PointValue))
  {
    forall n: nat
      ensures PointValue(PointText(n)) == n && IsFloatText(PointText(n)) && !IsIntText(PointText(n)) &&
        OnlyNumberChars(PointText(n))
    {
      var digits, s := Decimal(n), PointText(n);
      ParseOfDecimal(n);
      DecimalIsCanonical(n);
      DigitsLengthOf(digits, ".0");
      assert s[..|s| - 2] == digits && s[|digits|..] == ".0" && s[0] == digits[0];
      assert ".0"[1..] == "0" && DigitsLength("0") == 1;
      assert s[|digits|] == '.';
    }
  }

  // ----- the compact text -----

  lemma {:induction false} StringRest(ascii: bool, s: string, rest: string)
    ensures PrintString(ascii, s, rest) == PrintString(ascii, s, "") + rest
  {
    hide EscapeChar;
    if s == "" {
      assert ['\"'] + rest == ['\"'] + "" + rest;
    } else {
      StringRest(ascii, s[1..], rest);
    }
  }

  lemma {:induction false} PrintRest(ascii: bool, f: Floats, v: Value, rest: string)
    ensures Print(ascii, f, v, rest) == Print(ascii, f, v, "") + rest
    decreases v, 1
  {
    hide PrintString, IntText;
    match v
    case Str(s) => StringRest(ascii, s, rest);
    case Arr(items) => if items != [] { ItemsRest(ascii, f, items, rest); } else { Closing(['[', ']'], rest); }
    case Obj(ms) => if ms != [] { MembersRest(ascii, f, ms, rest); } else { Closing(['{', '}'], rest); }
    case _ =>
  }

  lemma Closing(pair: string, rest: string)
    requires |pair| == 2
    ensures [pair[0]] + ([pair[1]] + rest) == [pair[0]] + ([pair[1]] + "") + rest
  {
  }

  /** `"key":value`. */
  function MemberText(ascii: bool, f: Floats, m: Member): string {
    ['\"'] + PrintString(ascii, m.key, "") + [':'] + Print(ascii, f, m.value, "")
  }

  function ItemText(ascii: bool, f: Floats, v: Value): string { Print(ascii, f, v, "") }

  lemma {:induction false} ItemsRest(ascii: bool, f: Floats, items: seq<Value>, rest: string)
    requires items != []
    ensures PrintItems(ascii, f, items, rest) == PrintItems(ascii, f, items, "") + rest
    ensures PrintItems(ascii, f, items, "") == Join(Mapped(v => ItemText(ascii, f, v), items), ',') + [']']
    decreases items, 0
  {
    hide Print;
    var text := v => ItemText(ascii, f, v);
    var closed := [']'] + rest;
    if |items| == 1 {
      PrintRest(ascii, f, items[0], closed);
      PrintRest(ascii, f, items[0], [']'] + "");
      assert Mapped(text, items) == [ItemText(ascii, f, items[0])];
    } else {
      var more, tail := PrintItems(ascii, f, items[1..], ""), [','] + PrintItems(ascii, f, items[1..], rest);
      ItemsRest(ascii, f, items[1..], rest);
      PrintRest(ascii, f, items[0], tail);
      PrintRest(ascii, f, items[0], [','] + more);
      assert Mapped(text, items) == [ItemText(ascii, f, items[0])] + Mapped(text, items[1..]);
      assert Mapped(text, items)[1..] == Mapped(text, items[1..]);
    }
  }

  lemma {:induction false} MembersRest(ascii: bool, f: Floats, ms: seq<Member>, rest: string)
    requires ms != []
    ensures PrintMembers(ascii, f, ms, rest) == PrintMembers(ascii, f, ms, "") + rest
    ensures PrintMembers(ascii, f, ms, "") == Join(Mapped(m => MemberText(ascii, f, m), ms), ',') + ['}']
    decreases ms, 0
  {
    hide Print, PrintString;
    var text := m => MemberText(ascii, f, m);
    if |ms| == 1 {
      OneMemberRest(ascii, f, ms[0], ['}'] + rest);
      OneMemberRest(ascii, f, ms[0], ['}'] + "");
      assert Mapped(text, ms) == [MemberText(ascii, f, ms[0])];
    } else {
      var more := PrintMembers(ascii, f, ms[1..], "");
      MembersRest(ascii, f, ms[1..], rest);
      OneMemberRest(ascii, f, ms[0], [','] + PrintMembers(ascii, f, ms[1..], rest));
      OneMemberRest(ascii, f, ms[0], [','] + more);
      assert Mapped(text, ms) == [MemberText(ascii, f, ms[0])] + Mapped(text, ms[1..]);
      assert Mapped(text, ms)[1..] == Mapped(text, ms[1..]);
    }
  }

  lemma OneMemberRest(ascii: bool, f: Floats, m: Member, tail: string)
    ensures ['\"'] + PrintString(ascii, m.key, [':'] + Print(ascii, f, m.value, tail)) == MemberText(ascii, f, m) + tail
    decreases m.value, 2
  {
    hide Print, PrintString;
    PrintRest(ascii, f, m.value, tail);
    StringRest(ascii, m.key, [':'] + Print(ascii, f, m.value, tail));
  }

  /** Lists and objects are written without spaces, their parts between commas. */
  lemma CompactText(ascii: bool, f: Floats, items: seq<Value>, ms: seq<Member>)
    ensures Print(ascii, f, Arr(items), "") == "[" + Join(Mapped(v => ItemText(ascii, f, v), items), ',') + "]"
    ensures Print(ascii, f, Obj(ms), "") == "{" + Join(Mapped(m => MemberText(ascii, f, m), ms), ',') + "}"
  {
    hide PrintItems, PrintMembers, Mapped;
    if items == [] { assert Mapped(v => ItemText(ascii, f, v), items) == []; } else { ItemsRest(ascii, f, items, ""); }
    if ms == [] { assert Mapped(m => MemberText(ascii, f, m), ms) == []; } else { MembersRest(ascii, f, ms, ""); }
  }

  /** Quotes, backslashes and controls are always escaped, everything beyond printable ASCII only if asked. */
  lemma EscapedExactly(ascii: bool, c: char)
    ensures EscapeChar(ascii, c) == [c] <==> ' ' <= c && c != '\"' && c != '\\' && (ascii ==> c <= '~')
    ensures ascii ==> forall x :: x in EscapeChar(ascii, c) ==> ' ' <= x <= '~'
  {
  }
}

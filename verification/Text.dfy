/** The pieces of Python's string library that identities, selectors and cursors are built from. */
module Text {

  datatype Result<+T, +E> = Ok(value: T) | Err(error: E)

  datatype Option<+T> = None | Some(value: T)

  predicate IsDigit(c: char) { '0' <= c <= '9' }

  /** `str.isdigit` on ASCII text: at least one character, all of them digits. */
  predicate IsDecimal(s: string) {
    s != "" && forall i :: 0 <= i < |s| ==> IsDigit(s[i])
  }

  /** Position of the first `c`, or the length when there is none. */
  function IndexOf(s: string, c: char): (i: nat)
    ensures i <= |s| && forall j :: 0 <= j < i ==> s[j] != c
    ensures i < |s| ==> s[i] == c
  {
    if s == "" || s[0] == c then 0 else 1 + IndexOf(s[1..], c)
  }

  /** Position of the last `c`, or -1 when there is none. */
  function LastIndexOf(s: string, c: char): (i: int)
    ensures -1 <= i < |s| && forall j :: i < j < |s| ==> s[j] != c
    ensures i >= 0 ==> s[i] == c
  {
    if s == "" || s[|s| - 1] == c then |s| - 1 else LastIndexOf(s[..|s| - 1], c)
  }

  lemma Around(a: string, c: char, b: string)
    ensures var s := a + [c] + b;
      |s| == |a| + 1 + |b| && s[|a|] == c && s[..|a|] == a && s[|a| + 1..] == b
  {
  }

  lemma FirstIndexIs(s: string, c: char, k: nat)
    requires k < |s| && s[k] == c && c !in s[..k]
    ensures IndexOf(s, c) == k
  {
    forall j | 0 <= j < k ensures s[j] != c { assert s[j] in s[..k]; }
  }

  lemma LastIndexIs(s: string, c: char, k: nat)
    requires k < |s| && s[k] == c && c !in s[k + 1..]
    ensures LastIndexOf(s, c) == k
  {
    forall j | k < j < |s| ensures s[j] != c { assert s[j] == s[k + 1..][j - k - 1]; }
  }

  /** The text before and after the first `c`. */
  lemma FirstSeparator(a: string, c: char, b: string)
    requires c !in a
    ensures IndexOf(a + [c] + b, c) == |a|
    ensures (a + [c] + b)[..|a|] == a && (a + [c] + b)[|a| + 1..] == b
  {
    Around(a, c, b);
    FirstIndexIs(a + [c] + b, c, |a|);
  }

  /** The text before and after the last `c`. */
  lemma LastSeparator(a: string, c: char, b: string)
    requires c !in b
    ensures LastIndexOf(a + [c] + b, c) == |a|
    ensures (a + [c] + b)[..|a|] == a && (a + [c] + b)[|a| + 1..] == b
  {
    Around(a, c, b);
    LastIndexIs(a + [c] + b, c, |a|);
  }

  /** `str.split` on one character. */
  function Split(s: string, c: char): (parts: seq<string>)
    ensures parts != []
    ensures forall k :: 0 <= k < |parts| ==> c !in parts[k]
    decreases |s|
  {
    var i := IndexOf(s, c);
    if i == |s| then assert s[..i] == s; [s] else [s[..i]] + Split(s[i + 1..], c)
  }

  /** `c.join(parts)`. */
  function Join(parts: seq<string>, c: char): string {
    if parts == [] then ""
    else if |parts| == 1 then parts[0]
    else parts[0] + [c] + Join(parts[1..], c)
  }

  lemma {:induction false} SplitOfJoin(parts: seq<string>, c: char)
    requires parts != [] && forall k :: 0 <= k < |parts| ==> c !in parts[k]
    ensures Split(Join(parts, c), c) == parts
  {
    if |parts| > 1 {
      SplitOfJoin(parts[1..], c);
      FirstSeparator(parts[0], c, Join(parts[1..], c));
    }
  }

  lemma {:induction false} JoinOfSplit(s: string, c: char)
    ensures Join(Split(s, c), c) == s
    decreases |s|
  {
    hide Join;
    var i := IndexOf(s, c);
    if i < |s| {
      JoinOfSplit(s[i + 1..], c);
      JoinCons(s[..i], Split(s[i + 1..], c), c);
      assert s == s[..i] + [c] + s[i + 1..];
    } else {
      JoinOne(s, c);
    }
  }

  lemma JoinOne(s: string, c: char)
    ensures Join([s], c) == s
  {
  }

  lemma JoinCons(first: string, rest: seq<string>, c: char)
    requires rest != []
    ensures Join([first] + rest, c) == first + [c] + Join(rest, c)
  {
    assert ([first] + rest)[1..] == rest;
  }

  function DigitValue(c: char): (d: nat)
    requires IsDigit(c)
    ensures d < 10
  {
    c as int - '0' as int
  }

  function DigitChar(d: nat): (c: char)
    requires d < 10
    ensures IsDigit(c) && DigitValue(c) == d
  {
    '0' + d as char
  }

  /** Python's `str` of a non-negative integer. */
  function Decimal(n: nat): (s: string)
    ensures IsDecimal(s)
  {
    if n < 10 then [DigitChar(n)] else Decimal(n / 10) + [DigitChar(n % 10)]
  }

  /** Python's `int` of ASCII digits. */
  function ParseDecimal(s: string): nat
    requires IsDecimal(s)
  {
    if |s| == 1 then DigitValue(s[0])
    else ParseDecimal(s[..|s| - 1]) * 10 + DigitValue(s[|s| - 1])
  }

  lemma {:induction false} ParseOfDecimal(n: nat)
    ensures ParseDecimal(Decimal(n)) == n
  {
    if n >= 10 {
      ParseOfDecimal(n / 10);
      var s := Decimal(n);
      assert s[..|s| - 1] == Decimal(n / 10);
    }
  }

  /** Digits without a leading zero. */
  predicate IsCanonicalDecimal(s: string) { IsDecimal(s) && (|s| == 1 || s[0] != '0') }

  lemma {:induction false} DecimalOfParse(s: string)
    requires IsCanonicalDecimal(s)
    ensures Decimal(ParseDecimal(s)) == s
    ensures |s| > 1 ==> ParseDecimal(s) >= 10
  {
    if |s| == 1 {
      assert s == [s[0]];
    } else {
      var init := s[..|s| - 1];
      DecimalOfParse(init);
      assert s == init + [s[|s| - 1]];
      if |init| == 1 { assert init[0] != '0'; }
    }
  }

  lemma {:induction false} DecimalIsCanonical(n: nat)
    ensures IsCanonicalDecimal(Decimal(n))
    ensures n > 0 ==> Decimal(n)[0] != '0'
  {
    if n >= 10 { DecimalIsCanonical(n / 10); }
  }
}

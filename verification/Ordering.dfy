/** Orders and the stable sort behind Python's `sorted`: every deterministic listing in the
    system is a list sorted by a key, so the facts here are what "deterministic" rests on. */
module Ordering {

  ghost predicate Preorder<T(!new)>(leq: (T, T) -> bool) {
    && (forall a, b :: leq(a, b) || leq(b, a))
    && (forall a, b, c :: leq(a, b) && leq(b, c) ==> leq(a, c))
  }

  ghost predicate TotalOrder<T(!new)>(leq: (T, T) -> bool) {
    Preorder(leq) && forall a, b :: leq(a, b) && leq(b, a) ==> a == b
  }

  ghost predicate Sorted<T>(leq: (T, T) -> bool, s: seq<T>) {
    forall i, j :: 0 <= i < j < |s| ==> leq(s[i], s[j])
  }

  ghost predicate NoDuplicates<T>(s: seq<T>) {
    forall i, j :: 0 <= i < j < |s| ==> s[i] != s[j]
  }

  lemma TakeOneMore<T>(s: seq<T>, i: nat)
    requires i < |s|
    ensures s[..i + 1] == s[..i] + [s[i]]
    ensures s[..i + 1][..|s[..i + 1]| - 1] == s[..i]
  {
  }

  lemma TailOfAppend<T>(s: seq<T>, x: T)
    requires s != []
    ensures (s + [x])[0] == s[0] && (s + [x])[1..] == s[1..] + [x]
  {
  }

  lemma SplitLast<T>(s: seq<T>)
    requires s != []
    ensures s == s[..|s| - 1] + [s[|s| - 1]]
  {
  }

  lemma TakeAll<T>(s: seq<T>)
    ensures s[..|s|] == s
  {
  }

  /** Lexicographic order over an order on the elements: Python's order on strings and tuples. */
  predicate LexLeq<T(==)>(leq: (T, T) -> bool, a: seq<T>, b: seq<T>) {
    a == [] ||
    (b != [] && if a[0] == b[0] then LexLeq(leq, a[1..], b[1..]) else leq(a[0], b[0]))
  }

  predicate CharLeq(a: char, b: char) { a <= b }

  /** Python's `<=` on strings, by code point. */
  predicate StringLeq(a: string, b: string) { LexLeq(CharLeq, a, b) }

  /** Python's `<=` on tuples of strings. */
  predicate KeyLeq(a: seq<string>, b: seq<string>) { LexLeq(StringLeq, a, b) }

  /** The two differ first at this place, the first of them less there. */
  ghost predicate FirstLess<T>(leq: (T, T) -> bool, a: seq<T>, b: seq<T>, i: nat) {
    i < |a| && i < |b| && a[..i] == b[..i] && a[i] != b[i] && leq(a[i], b[i])
  }

  /** A list comes first if the other continues it, or by the first place where they differ. */
  lemma {:induction false} LexMeans<T(!new)>(leq: (T, T) -> bool, a: seq<T>, b: seq<T>)
    ensures LexLeq(leq, a, b) <==> a <= b || exists i: nat :: FirstLess(leq, a, b, i)
  {
    if a != [] && b != [] {
      var s, t := a[1..], b[1..];
      assert a == [a[0]] + s && b == [b[0]] + t;
      if a[0] == b[0] {
        LexMeans(leq, s, t);
        if i: nat :| FirstLess(leq, s, t, i) {
          assert a[..i + 1] == [a[0]] + s[..i] && b[..i + 1] == [b[0]] + t[..i];
          assert FirstLess(leq, a, b, i + 1);
        }
        if i: nat :| FirstLess(leq, a, b, i) {
          assert i > 0;
          assert s[..i - 1] == a[..i][1..] && t[..i - 1] == b[..i][1..];
          assert FirstLess(leq, s, t, i - 1);
        }
      } else {
        if leq(a[0], b[0]) { assert FirstLess(leq, a, b, 0); }
        if i: nat :| FirstLess(leq, a, b, i) { assert i > 0 ==> a[..i][0] == b[..i][0]; }
      }
    }
  }

  lemma {:induction false} LexTotal<T(!new)>(leq: (T, T) -> bool, a: seq<T>, b: seq<T>)
    requires TotalOrder(leq)
    ensures LexLeq(leq, a, b) || LexLeq(leq, b, a)
    ensures LexLeq(leq, a, b) && LexLeq(leq, b, a) ==> a == b
  {
    if a != [] && b != [] && a[0] == b[0] {
      LexTotal(leq, a[1..], b[1..]);
      if LexLeq(leq, a, b) && LexLeq(leq, b, a) {
        assert a == [a[0]] + a[1..] && b == [b[0]] + b[1..];
      }
    }
  }

  lemma {:induction false} LexTransitive<T(!new)>(leq: (T, T) -> bool, a: seq<T>, b: seq<T>, c: seq<T>)
    requires TotalOrder(leq)
    requires LexLeq(leq, a, b) && LexLeq(leq, b, c)
    ensures LexLeq(leq, a, c)
  {
    if a != [] && a[0] == b[0] && b[0] == c[0] {
      LexTransitive(leq, a[1..], b[1..], c[1..]);
    }
  }

  lemma StringOrder()
    ensures TotalOrder(StringLeq)
  {
    assert TotalOrder(CharLeq);
    forall a, b ensures (StringLeq(a, b) || StringLeq(b, a)) && (StringLeq(a, b) && StringLeq(b, a) ==> a == b) {
      LexTotal(CharLeq, a, b);
    }
    forall a, b, c | StringLeq(a, b) && StringLeq(b, c) ensures StringLeq(a, c) {
      LexTransitive(CharLeq, a, b, c);
    }
  }

  lemma KeyOrder()
    ensures TotalOrder(KeyLeq)
  {
    StringOrder();
    forall a, b ensures (KeyLeq(a, b) || KeyLeq(b, a)) && (KeyLeq(a, b) && KeyLeq(b, a) ==> a == b) {
      LexTotal(StringLeq, a, b);
    }
    forall a, b, c | KeyLeq(a, b) && KeyLeq(b, c) ensures KeyLeq(a, c) {
      LexTransitive(StringLeq, a, b, c);
    }
  }

  function Insert<T>(leq: (T, T) -> bool, x: T, s: seq<T>): (r: seq<T>)
    ensures multiset(r) == multiset{x} + multiset(s)
  {
    if s == [] then [x]
    else if leq(x, s[0]) then [x] + s
    else
      assert s == [s[0]] + s[1..];
      [s[0]] + Insert(leq, x, s[1..])
  }

  /** The stable sort: of two elements with equal keys the earlier one stays first. */
  function SortBy<T(!new)>(leq: (T, T) -> bool, s: seq<T>): (r: seq<T>)
    ensures multiset(r) == multiset(s)
    ensures |r| == |s|
    ensures forall x :: x in r <==> x in s
  {
    if s == [] then []
    else
      assert s == [s[0]] + s[1..];
      var r := Insert(leq, s[0], SortBy(leq, s[1..]));
      assert |multiset(r)| == |multiset(s)|;
      assert forall x :: x in r <==> x in multiset(r);
      assert forall x :: x in s <==> x in multiset(s);
      r
  }

  lemma {:induction false} InsertSorted<T(!new)>(leq: (T, T) -> bool, x: T, s: seq<T>)
    requires Preorder(leq) && Sorted(leq, s)
    ensures Sorted(leq, Insert(leq, x, s))
  {
    if s != [] && !leq(x, s[0]) {
      var r := Insert(leq, x, s[1..]);
      InsertSorted(leq, x, s[1..]);
      forall y | y in r ensures leq(s[0], y) {
        assert y in multiset(r);
        if y != x { assert y in s[1..]; }
      }
    }
  }

  lemma {:induction false} SortBySorted<T(!new)>(leq: (T, T) -> bool, s: seq<T>)
    requires Preorder(leq)
    ensures Sorted(leq, SortBy(leq, s))
  {
    if s != [] {
      SortBySorted(leq, s[1..]);
      InsertSorted(leq, s[0], SortBy(leq, s[1..]));
    }
  }

  /** A list already in order is left alone. */
  lemma {:induction false} SortByFixpoint<T(!new)>(leq: (T, T) -> bool, s: seq<T>)
    requires Sorted(leq, s)
    ensures SortBy(leq, s) == s
  {
    if s != [] {
      SortByFixpoint(leq, s[1..]);
      assert s == [s[0]] + s[1..];
      if |s| > 1 { assert leq(s[0], s[1]); }
    }
  }

  /** Elements of the list with equal keys are equal. */
  ghost predicate Separates<T(!new)>(leq: (T, T) -> bool, s: seq<T>) {
    forall x, y :: x in s && y in s && leq(x, y) && leq(y, x) ==> x == y
  }

  lemma TailMultiset<T>(s: seq<T>)
    requires s != []
    ensures multiset(s[1..]) == multiset(s) - multiset{s[0]}
  {
    assert s == [s[0]] + s[1..];
  }

  lemma SortedHeads<T(!new)>(leq: (T, T) -> bool, a: seq<T>, b: seq<T>)
    requires Preorder(leq) && Sorted(leq, a) && Sorted(leq, b) && Separates(leq, a)
    requires a != [] && b != [] && multiset(a) == multiset(b)
    ensures a[0] == b[0]
  {
    assert a[0] in multiset(b) && b[0] in multiset(a);
    assert a[0] in b && b[0] in a;
    assert leq(a[0], b[0]) && leq(b[0], a[0]);
  }

  /** Two sorted lists with the same elements are the same list. */
  lemma {:induction false} SortedUnique<T(!new)>(leq: (T, T) -> bool, a: seq<T>, b: seq<T>)
    requires Preorder(leq) && Sorted(leq, a) && Sorted(leq, b) && Separates(leq, a)
    requires multiset(a) == multiset(b)
    ensures a == b
  {
    assert |multiset(a)| == |multiset(b)|;
    if a != [] {
      SortedHeads(leq, a, b);
      TailMultiset(a);
      TailMultiset(b);
      SortedUnique(leq, a[1..], b[1..]);
      assert a == [a[0]] + a[1..] && b == [b[0]] + b[1..];
    }
  }

  /** Sorting forgets the order the elements arrived in. */
  lemma SortByCanonical<T(!new)>(leq: (T, T) -> bool, a: seq<T>, b: seq<T>)
    requires Preorder(leq) && Separates(leq, a) && multiset(a) == multiset(b)
    ensures SortBy(leq, a) == SortBy(leq, b)
  {
    SortBySorted(leq, a);
    SortBySorted(leq, b);
    SortedUnique(leq, SortBy(leq, a), SortBy(leq, b));
  }

  /** Elements of a list without repeats, as a multiset, are exactly its set. */
  lemma NoDuplicatesMultiset<T(!new)>(s: seq<T>)
    requires NoDuplicates(s)
    ensures multiset(s) == multiset(set x | x in s)
  {
    forall x ensures multiset(s)[x] == multiset(set y | y in s)[x] {
      MultiplicityAtMostOne(s, x);
    }
  }

  lemma {:induction false} MultiplicityAtMostOne<T>(s: seq<T>, x: T)
    requires NoDuplicates(s)
    ensures multiset(s)[x] == if x in s then 1 else 0
  {
    if s != [] {
      assert s == [s[0]] + s[1..];
      MultiplicityAtMostOne(s[1..], x);
    }
  }

  /** Counting distinct members finds repeats. */
  lemma {:induction false} DistinctCount<T(!new)>(s: seq<T>)
    ensures |set x | x in s| <= |s|
    ensures |set x | x in s| == |s| <==> NoDuplicates(s)
  {
    if s != [] {
      var n := |s| - 1;
      var before, all := set x | x in s[..n], set x | x in s;
      DistinctCount(s[..n]);
      SplitLast(s);
      assert all == before + {s[n]};
      if NoDuplicates(s[..n]) && s[n] !in s[..n] {
        assert NoDuplicates(s);
      }
      if s[n] in s[..n] { assert all == before; }
    }
  }

  lemma NoDuplicatesFromMultiset<T(!new)>(s: seq<T>)
    requires forall x :: multiset(s)[x] <= 1
    ensures NoDuplicates(s)
  {
    forall i, j | 0 <= i < j < |s| ensures s[i] != s[j] {
      assert s == s[..i] + [s[i]] + s[i + 1..j] + [s[j]] + s[j + 1..];
      assert multiset(s)[s[i]] >= 1 + if s[i] == s[j] then 1 else 0;
    }
  }

  /** Sorting a list without repeats gives a list without repeats. */
  lemma SortByNoDuplicates<T(!new)>(leq: (T, T) -> bool, s: seq<T>)
    requires NoDuplicates(s)
    ensures NoDuplicates(SortBy(leq, s))
  {
    forall x ensures multiset(SortBy(leq, s))[x] <= 1 { MultiplicityAtMostOne(s, x); }
    NoDuplicatesFromMultiset(SortBy(leq, s));
  }

  /** Keeps the first occurrence of each element. */
  function Distinct<T(==,!new)>(s: seq<T>): (r: seq<T>)
    ensures forall x :: x in r <==> x in s
    ensures NoDuplicates(r)
  {
    if s == [] then []
    else
      var r := Distinct(s[..|s| - 1]);
      assert s == s[..|s| - 1] + [s[|s| - 1]];
      if s[|s| - 1] in r then r else r + [s[|s| - 1]]
  }

  /** Two lists with the same members give the same sorted list of distinct members. */
  lemma SortDistinctCanonical<T(!new)>(leq: (T, T) -> bool, a: seq<T>, b: seq<T>)
    requires Preorder(leq) && Separates(leq, a) && forall x :: x in a <==> x in b
    ensures SortBy(leq, Distinct(a)) == SortBy(leq, Distinct(b))
  {
    NoDuplicatesMultiset(Distinct(a));
    NoDuplicatesMultiset(Distinct(b));
    assert (set x | x in Distinct(a)) == (set x | x in Distinct(b));
    SortByCanonical(leq, Distinct(a), Distinct(b));
  }

  // ----- mapping over lists -----

  function Mapped<T, U>(f: T -> U, s: seq<T>): (r: seq<U>)
    ensures |r| == |s| && forall i :: 0 <= i < |s| ==> r[i] == f(s[i])
  {
    seq(|s|, i requires 0 <= i < |s| => f(s[i]))
  }

  function Without<T>(s: seq<T>, j: nat): (r: seq<T>)
    requires j < |s|
    ensures |r| == |s| - 1
    ensures multiset(s) == multiset(r) + multiset{s[j]}
    ensures multiset(r) == multiset(s) - multiset{s[j]}
  {
    assert s == s[..j] + [s[j]] + s[j + 1..];
    s[..j] + s[j + 1..]
  }

  lemma MappedWithout<T, U>(f: T -> U, s: seq<T>, j: nat)
    requires j < |s|
    ensures Mapped(f, Without(s, j)) == Without(Mapped(f, s), j)
  {
    hide Mapped;
  }

  /** Mapping keeps permutations. */
  lemma {:induction false} MappedMultiset<T, U>(f: T -> U, a: seq<T>, b: seq<T>)
    requires multiset(a) == multiset(b)
    ensures multiset(Mapped(f, a)) == multiset(Mapped(f, b))
    decreases |a|
  {
    hide Mapped, Without;
    assert |multiset(a)| == |multiset(b)|;
    if a != [] {
      assert a[0] in multiset(b);
      var j :| 0 <= j < |b| && b[j] == a[0];
      MappedMultiset(f, Without(a, 0), Without(b, j));
      MappedWithout(f, a, 0);
      MappedWithout(f, b, j);
    }
  }

  lemma TwoOccurrences<T(!new)>(s: seq<T>, x: T) returns (i: nat, j: nat)
    requires multiset(s)[x] >= 2
    ensures i < j < |s| && s[i] == x && s[j] == x
  {
    assert x in multiset(s);
    i :| i < |s| && s[i] == x;
    var rest := s[..i] + s[i + 1..];
    assert s == s[..i] + [s[i]] + s[i + 1..];
    assert multiset(rest)[x] >= 1;
    assert x in multiset(rest);
    var k: nat :| k < |rest| && rest[k] == x;
    if k < i { i, j := k, i; } else { j := k + 1; }
  }

  lemma TwiceInside<T>(s: seq<T>, i: nat, j: nat)
    requires i < j < |s| && s[i] == s[j]
    ensures multiset(s)[s[i]] >= 2
  {
    assert s == s[..i] + [s[i]] + s[i + 1..j] + [s[j]] + s[j + 1..];
  }

  /** Two places of a list have counterparts in every permutation of it. */
  lemma PermutedPair<T(!new)>(a: seq<T>, b: seq<T>, i: nat, j: nat) returns (k: nat, l: nat)
    requires multiset(a) == multiset(b) && i < j < |a|
    ensures k < |b| && l < |b| && k != l && b[k] == a[i] && b[l] == a[j]
  {
    if a[i] == a[j] {
      TwiceInside(a, i, j);
      k, l := TwoOccurrences(b, a[i]);
    } else {
      assert a[i] in multiset(a) && a[j] in multiset(a);
      assert a[i] in multiset(b) && a[j] in multiset(b);
      k :| k < |b| && b[k] == a[i];
      l :| l < |b| && b[l] == a[j];
    }
  }
}

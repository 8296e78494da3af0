/** JSON values and their canonical form (cli/src/modelable/facets.py). */
module Json {
  import opened Text
  import opened Ordering

  /** A finite float is known by its bits. */
  datatype Value =
    | Null | Bool(truth: bool) | Int(whole: int) | Real(bits: nat) | Str(text: string)
    | Arr(items: seq<Value>) | Obj(members: seq<Member>)

  /** Members keep the order they were written in. */
  datatype Member = Member(key: string, value: Value)

  ghost predicate DistinctKeys(ms: seq<Member>) {
    forall i, j :: 0 <= i < j < |ms| ==> ms[i].key != ms[j].key
  }

  /** An object is a dictionary: its keys are distinct, at every depth. */
  ghost predicate WellFormed(v: Value) {
    match v
    case Arr(items) => forall i :: 0 <= i < |items| ==> WellFormed(items[i])
    case Obj(ms) => DistinctKeys(ms) && forall i :: 0 <= i < |ms| ==> WellFormed(ms[i].value)
    case _ => true
  }

  /** Equal up to the order of object members, at every depth. */
  ghost predicate Same(a: Value, b: Value)
    decreases a
  {
    match (a, b)
    case (Arr(s), Arr(t)) => |s| == |t| && forall i :: 0 <= i < |s| ==> Same(s[i], t[i])
    case (Obj(s), Obj(t)) => |s| == |t| && forall i :: 0 <= i < |s| ==> HasSame(s[i], t)
    case _ => a == b
  }

  ghost predicate HasSame(m: Member, t: seq<Member>)
    decreases m
  {
    exists j :: 0 <= j < |t| && t[j].key == m.key && Same(m.value, t[j].value)
  }

  predicate MemberLeq(a: Member, b: Member) { StringLeq(a.key, b.key) }

  /** `_canonical_json_value`: every object with its members sorted by key. */
  function Canonical(v: Value): Value {
    match v
    case Arr(items) => Arr(seq(|items|, i requires 0 <= i < |items| => Canonical(items[i])))
    case Obj(ms) =>
      Obj(SortBy(MemberLeq, seq(|ms|, i requires 0 <= i < |ms| => Member(ms[i].key, Canonical(ms[i].value)))))
    case _ => v
  }

  function CanonicalMember(m: Member): Member { Member(m.key, Canonical(m.value)) }

  function CanonicalMembers(ms: seq<Member>): (r: seq<Member>)
    ensures |r| == |ms| && forall i :: 0 <= i < |r| ==> r[i] == CanonicalMember(ms[i])
  {
    Mapped(CanonicalMember, ms)
  }

  lemma CanonicalObject(ms: seq<Member>)
    ensures Canonical(Obj(ms)) == Obj(SortBy(MemberLeq, CanonicalMembers(ms)))
  {
    hide SortBy;
    var listed := seq(|ms|, i requires 0 <= i < |ms| => Member(ms[i].key, Canonical(ms[i].value)));
    assert listed == CanonicalMembers(ms);
    assert Canonical(Obj(ms)) == Obj(SortBy(MemberLeq, listed));
  }

  lemma MemberOrder()
    ensures Preorder(MemberLeq)
    ensures forall a, b :: MemberLeq(a, b) && MemberLeq(b, a) ==> a.key == b.key
  {
    hide StringLeq;
    StringOrder();
  }

  lemma KeysSeparate(ms: seq<Member>)
    requires DistinctKeys(ms)
    ensures NoDuplicates(ms) && Separates(MemberLeq, ms)
  {
    hide MemberLeq;
    MemberOrder();
    forall a, b | a in ms && b in ms && MemberLeq(a, b) && MemberLeq(b, a) ensures a == b {
      var i :| 0 <= i < |ms| && ms[i] == a;
      var j :| 0 <= j < |ms| && ms[j] == b;
      assert ms[i].key == ms[j].key;
    }
  }

  /** Distinct lists of one length, one inside the other, are permutations of each other. */
  lemma InsideMeansPermuted<T(!new)>(a: seq<T>, b: seq<T>)
    requires NoDuplicates(a) && NoDuplicates(b) && |a| == |b|
    requires forall x :: x in a ==> x in b
    ensures multiset(a) == multiset(b)
  {
    DistinctCount(a);
    DistinctCount(b);
    var s, t := set x | x in a, set x | x in b;
    NoDuplicatesMultiset(a);
    NoDuplicatesMultiset(b);
    assert s <= t;
    SubsetOfSameSize(s, t);
  }

  lemma {:induction false} SubsetOfSameSize<T>(a: set<T>, b: set<T>)
    requires a <= b && |a| == |b|
    ensures a == b
  {
    if a != {} {
      var x :| x in a;
      SubsetOfSameSize(a - {x}, b - {x});
    }
  }

  lemma KeysSurvive(ms: seq<Member>)
    requires DistinctKeys(ms)
    ensures DistinctKeys(CanonicalMembers(ms)) && DistinctKeys(SortBy(MemberLeq, CanonicalMembers(ms)))
  {
    hide MemberLeq, SortBy;
    var cs := CanonicalMembers(ms);
    var ss := SortBy(MemberLeq, cs);
    forall i, j | 0 <= i < j < |ss| ensures ss[i].key != ss[j].key {
      var k, l := PermutedPair(ss, cs, i, j);
      assert ms[k].key != ms[l].key;
    }
  }

  lemma {:induction false} CanonicalWellFormed(v: Value)
    requires WellFormed(v)
    ensures WellFormed(Canonical(v))
  {
    hide MemberLeq, SortBy, Same;
    match v {
      case Arr(items) =>
        forall i | 0 <= i < |items| ensures WellFormed(Canonical(items[i])) { CanonicalWellFormed(items[i]); }
      case Obj(ms) =>
        CanonicalObject(ms);
        KeysSurvive(ms);
        var cs := CanonicalMembers(ms);
        forall i | 0 <= i < |ms| ensures WellFormed(cs[i].value) { CanonicalWellFormed(ms[i].value); }
        var ss := SortBy(MemberLeq, cs);
        forall i | 0 <= i < |ss| ensures WellFormed(ss[i].value) { assert ss[i] in cs; }
      case _ =>
    }
  }

  /** Canonicalising twice changes nothing. */
  lemma {:induction false} CanonicalIdempotent(v: Value)
    ensures Canonical(Canonical(v)) == Canonical(v)
  {
    hide MemberLeq, SortBy;
    match v {
      case Arr(items) =>
        forall i | 0 <= i < |items| ensures Canonical(Canonical(items[i])) == Canonical(items[i]) {
          CanonicalIdempotent(items[i]);
        }
        var once := Canonical(v);
        assert Canonical(once).items == once.items;
      case Obj(ms) =>
        CanonicalObject(ms);
        var cs := CanonicalMembers(ms);
        var ss := SortBy(MemberLeq, cs);
        forall i | 0 <= i < |cs| ensures CanonicalMember(cs[i]) == cs[i] { CanonicalIdempotent(ms[i].value); }
        CanonicalObject(ss);
        forall i | 0 <= i < |ss| ensures CanonicalMember(ss[i]) == ss[i] { assert ss[i] in cs; }
        assert CanonicalMembers(ss) == ss;
        MemberOrder();
        SortBySorted(MemberLeq, cs);
        SortByFixpoint(MemberLeq, ss);
      case _ =>
    }
  }

  /** Equal canonical forms mean the same value. */
  lemma {:induction false} CanonicalMeansSame(a: Value, b: Value)
    requires Canonical(a) == Canonical(b)
    ensures Same(a, b)
  {
    hide MemberLeq, SortBy;
    match (a, b) {
      case (Arr(s), Arr(t)) =>
        assert |Canonical(a).items| == |s| && |Canonical(b).items| == |t|;
        forall i | 0 <= i < |s| ensures Same(s[i], t[i]) {
          assert Canonical(a).items[i] == Canonical(s[i]) && Canonical(b).items[i] == Canonical(t[i]);
          CanonicalMeansSame(s[i], t[i]);
        }
      case (Obj(s), Obj(t)) =>
        CanonicalObject(s);
        CanonicalObject(t);
        var c, d := CanonicalMembers(s), CanonicalMembers(t);
        assert multiset(c) == multiset(d);
        assert |multiset(c)| == |multiset(d)|;
        forall i | 0 <= i < |s| ensures HasSame(s[i], t) {
          assert c[i] in multiset(d);
          var j :| 0 <= j < |d| && d[j] == c[i];
          CanonicalMeansSame(s[i].value, t[j].value);
        }
      case _ =>
    }
  }

  /** The same value has one canonical form. */
  lemma {:induction false} SameMeansCanonical(a: Value, b: Value)
    requires WellFormed(a) && WellFormed(b) && Same(a, b)
    ensures Canonical(a) == Canonical(b)
  {
    hide MemberLeq, SortBy;
    match (a, b) {
      case (Arr(s), Arr(t)) =>
        forall i | 0 <= i < |s| ensures Canonical(s[i]) == Canonical(t[i]) { SameMeansCanonical(s[i], t[i]); }
        assert Canonical(a).items == Canonical(b).items;
      case (Obj(s), Obj(t)) =>
        CanonicalObject(s);
        CanonicalObject(t);
        var c, d := CanonicalMembers(s), CanonicalMembers(t);
        KeysSurvive(s);
        KeysSurvive(t);
        KeysSeparate(c);
        KeysSeparate(d);
        forall i | 0 <= i < |s| ensures c[i] in d {
          var j :| 0 <= j < |t| && t[j].key == s[i].key && Same(s[i].value, t[j].value);
          SameMeansCanonical(s[i].value, t[j].value);
          assert d[j] == c[i];
        }
        InsideMeansPermuted(c, d);
        MemberOrder();
        SortByCanonical(MemberLeq, c, d);
      case _ =>
    }
  }

  /** Two values share a canonical form exactly when they differ only in member order. */
  lemma CanonicalDecidesSameness(a: Value, b: Value)
    requires WellFormed(a) && WellFormed(b)
    ensures Canonical(a) == Canonical(b) <==> Same(a, b)
  {
    if Canonical(a) == Canonical(b) { CanonicalMeansSame(a, b); }
    if Same(a, b) { SameMeansCanonical(a, b); }
  }

  lemma SameSymmetric(a: Value, b: Value)
    requires WellFormed(a) && WellFormed(b) && Same(a, b)
    ensures Same(b, a)
  {
    SameMeansCanonical(a, b);
    CanonicalMeansSame(b, a);
  }

  // ----- member access -----

  function Find(ms: seq<Member>, key: string): (r: Option<Value>)
    ensures r.Some? ==> Member(key, r.value) in ms
    ensures r.None? ==> forall i :: 0 <= i < |ms| ==> ms[i].key != key
  {
    if ms == [] then None else if ms[0].key == key then Some(ms[0].value) else Find(ms[1..], key)
  }

  /** `value.get(key)`. */
  function Get(v: Value, key: string): (r: Option<Value>)
    ensures r.Some? ==> r.value < v
  {
    if v.Obj? then
      var r := Find(v.members, key);
      if r.Some? then Inside(v.members, Member(key, r.value)); r else r
    else None
  }

  lemma Inside(ms: seq<Member>, m: Member)
    requires m in ms
    ensures m.value < Obj(ms)
  {
    var i :| 0 <= i < |ms| && ms[i] == m;
    assert ms[i] < Obj(ms);
  }

  lemma FindIs(ms: seq<Member>, j: nat)
    requires DistinctKeys(ms) && j < |ms|
    ensures Find(ms, ms[j].key) == Some(ms[j].value)
  {
    var r := Find(ms, ms[j].key);
    assert ms[j].key == ms[j].key;
    var k :| 0 <= k < |ms| && ms[k] == Member(ms[j].key, r.value);
    assert k == j;
  }

  /** The same object has the same members. */
  lemma SameGet(a: Value, b: Value, key: string)
    requires WellFormed(a) && WellFormed(b) && Same(a, b)
    ensures Get(a, key).Some? <==> Get(b, key).Some?
    ensures Get(a, key).Some? ==> Same(Get(a, key).value, Get(b, key).value)
    ensures Get(a, key).Some? ==> WellFormed(Get(a, key).value) && WellFormed(Get(b, key).value)
  {
    hide Find;
    if Get(a, key).Some? { SameGetOneWay(a, b, key); }
    SameSymmetric(a, b);
    if Get(b, key).Some? { SameGetOneWay(b, a, key); }
  }

  lemma SameGetOneWay(a: Value, b: Value, key: string)
    requires WellFormed(a) && WellFormed(b) && Same(a, b) && Get(a, key).Some?
    ensures Get(b, key).Some? && Same(Get(a, key).value, Get(b, key).value)
    ensures WellFormed(Get(a, key).value) && WellFormed(Get(b, key).value)
  {
    hide Find;
    var i :| 0 <= i < |a.members| && a.members[i] == Member(key, Get(a, key).value);
    assert HasSame(a.members[i], b.members);
    var j :| 0 <= j < |b.members| && b.members[j].key == key && Same(a.members[i].value, b.members[j].value);
    FindIs(b.members, j);
  }
}

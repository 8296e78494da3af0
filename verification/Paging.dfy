/** Pages and self-checking cursors of the query service (cli/src/modelable/query_service.py). */
module Paging {
  import opened Text
  import opened Ordering
  import opened Json
  import opened JsonText
  import opened CursorText

  /** How floats are written, and the digest behind fingerprints. */
  datatype Host = Host(floats: Floats, digest: seq<Byte> -> string)

  /** Floats read back as written, and no two payloads share a digest. */
  ghost predicate Reliable(h: Host) {
    Faithful(h.floats) && forall a, b {:trigger h.digest(a), h.digest(b)} :: h.digest(a) == h.digest(b) ==> a == b
  }

  // ----- cursors -----

  function CursorPayload(query: string, ref: string, fingerprint: string, edge: nat): Value {
    Obj([Member("v", Int(1)), Member("query", Str(query)), Member("id", Str(ref)),
         Member("fingerprint", Str(fingerprint)), Member("edge", Int(edge))])
  }

  function EncodeCursor(h: Host, query: string, ref: string, fingerprint: string, edge: nat): string {
    EncodeUnpadded(Utf8Encode(Dumps(false, h.floats, CursorPayload(query, ref, fingerprint, edge))))
  }

  datatype CursorError = Malformed | Mismatch

  /** The binary64 bits of one. */
  const ONE_BITS: nat := 0x3FF0000000000000

  /** Python's `== 1`. */
  predicate EqualsOne(v: Value) { v == Int(1) || v == Bool(true) || v == Real(ONE_BITS) }

  function CheckCursor(payload: Value, query: string, ref: string, fingerprint: string): Result<nat, CursorError> {
    var v, edge := Get(payload, "v"), Get(payload, "edge");
    if !payload.Obj? || v.None? || !EqualsOne(v.value) || Get(payload, "query") != Some(Str(query)) ||
       Get(payload, "id") != Some(Str(ref)) || Get(payload, "fingerprint") != Some(Str(fingerprint)) ||
       edge.None? || !edge.value.Int? || edge.value.whole < 0
    then Err(Mismatch)
    else Ok(edge.value.whole)
  }

  function DecodeCursor(h: Host, cursor: Option<string>, query: string, ref: string, fingerprint: string):
    Result<nat, CursorError>
  {
    match cursor
    case None => Ok(0)
    case Some(text) =>
      match DecodeUnpadded(text)
      case None => Err(Malformed)
      case Some(bytes) =>
        match Utf8Decode(bytes)
        case None => Err(Malformed)
        case Some(json) =>
          match Loads(h.floats, json)
          case Err(_) => Err(Malformed)
          case Ok(payload) => CheckCursor(payload, query, ref, fingerprint)
  }

  lemma PayloadKeys()
    ensures NoDuplicates(["v", "query", "id", "fingerprint", "edge"])
  {
    assert "v"[0] == 'v' && "query"[0] == 'q' && "id"[0] == 'i' && "fingerprint"[0] == 'f' && "edge"[0] == 'e';
  }

  lemma PayloadMembers(query: string, ref: string, fingerprint: string, edge: nat)
    ensures var p := CursorPayload(query, ref, fingerprint, edge);
      WellFormed(p) && Get(p, "v") == Some(Int(1)) && Get(p, "query") == Some(Str(query)) &&
      Get(p, "id") == Some(Str(ref)) && Get(p, "fingerprint") == Some(Str(fingerprint)) &&
      Get(p, "edge") == Some(Int(edge))
  {
    hide Find;
    PayloadKeys();
    var p := CursorPayload(query, ref, fingerprint, edge);
    var names := ["v", "query", "id", "fingerprint", "edge"];
    assert forall i :: 0 <= i < 5 ==> p.members[i].key == names[i];
    FindIs(p.members, 0);
    FindIs(p.members, 1);
    FindIs(p.members, 2);
    FindIs(p.members, 3);
    FindIs(p.members, 4);
  }

  /** Members that are not objects or arrays survive canonicalisation as they are. */
  lemma CanonicalGet(v: Value, key: string)
    requires WellFormed(v) && Get(v, key).Some? && !Get(v, key).value.Arr? && !Get(v, key).value.Obj?
    ensures Get(Canonical(v), key) == Get(v, key)
  {
    hide Get, Canonical;
    CanonicalWellFormed(v);
    CanonicalIdempotent(v);
    CanonicalMeansSame(v, Canonical(v));
    SameGet(v, Canonical(v), key);
  }

  /** A cursor opens for the query, reference and fingerprint it was made for, gives back its
      offset, and is refused for every other. */
  lemma CursorRoundTrip(
    h: Host, query: string, ref: string, fingerprint: string, edge: nat,
    query': string, ref': string, fingerprint': string)
    requires Faithful(h.floats)
    ensures DecodeCursor(h, Some(EncodeCursor(h, query, ref, fingerprint, edge)), query', ref', fingerprint') ==
      if query == query' && ref == ref' && fingerprint == fingerprint' then Ok(edge) else Err(Mismatch)
  {
    hide Faithful, Dumps, Loads, EncodeUnpadded, DecodeUnpadded, Utf8Encode, Utf8Decode, Get, WellFormed, Canonical,
      CursorPayload;
    var p := CursorPayload(query, ref, fingerprint, edge);
    var json := Dumps(false, h.floats, p);
    UnpaddedRoundTrip(Utf8Encode(json));
    Utf8RoundTrip(json);
    PayloadMembers(query, ref, fingerprint, edge);
    LoadsOfDumps(false, h.floats, p);
    CanonicalGet(p, "v");
    CanonicalGet(p, "query");
    CanonicalGet(p, "id");
    CanonicalGet(p, "fingerprint");
    CanonicalGet(p, "edge");
    assert Canonical(p).Obj? by { GetMeansObject(Canonical(p), "v"); }
  }

  lemma GetMeansObject(v: Value, key: string)
    requires Get(v, key).Some?
    ensures v.Obj?
  {
  }

  // ----- pages -----

  datatype Graph = Graph(nodes: seq<Value>, edges: seq<Value>)

  function FingerprintPayload(query: string, ref: string, g: Graph): Value {
    Obj([Member("query", Str(query)), Member("id", Str(ref)), Member("nodes", Arr(g.nodes)),
         Member("edges", Arr(g.edges))])
  }

  function Fingerprint(h: Host, query: string, ref: string, g: Graph): string {
    h.digest(Utf8Encode(Dumps(false, h.floats, FingerprintPayload(query, ref, g))))
  }

  function TextAt(v: Value, key: string): Option<string> {
    match Get(v, key) case Some(Str(text)) => Some(text) case _ => None
  }

  /** The node is an end of the edge. */
  predicate Incident(node: Value, edge: Value) {
    var id := TextAt(node, "id");
    id.Some? && (TextAt(edge, "source") == id || TextAt(edge, "target") == id)
  }

  predicate IncidentToAny(node: Value, edges: seq<Value>) {
    exists i :: 0 <= i < |edges| && Incident(node, edges[i])
  }

  function NodesOf(nodes: seq<Value>, edges: seq<Value>): (r: seq<Value>)
    ensures forall n :: n in r <==> n in nodes && IncidentToAny(n, edges)
  {
    if nodes == [] then []
    else if IncidentToAny(nodes[0], edges) then [nodes[0]] + NodesOf(nodes[1..], edges)
    else NodesOf(nodes[1..], edges)
  }

  /** `items[offset : offset + limit]`, which forgives an offset past the end. */
  function Slice<T>(items: seq<T>, offset: nat, limit: nat): (r: seq<T>)
    ensures offset >= |items| ==> r == []
    ensures offset < |items| && limit > 0 ==>
      r != [] && offset + |r| <= |items| && r == items[offset..offset + |r|]
  {
    if offset >= |items| then []
    else if offset + limit >= |items| then items[offset..] else items[offset..offset + limit]
  }

  datatype Page = Page(nodes: seq<Value>, edges: seq<Value>, next: Option<string>)

  function Paginate(h: Host, query: string, ref: string, g: Graph, limit: nat, cursor: Option<string>):
    Result<Page, CursorError>
  {
    var fingerprint := Fingerprint(h, query, ref, g);
    match DecodeCursor(h, cursor, query, ref, fingerprint)
    case Err(e) => Err(e)
    case Ok(offset) =>
      if g.edges == [] then Ok(Page(g.nodes, [], None))
      else
        var edges := Slice(g.edges, offset, limit);
        var next := offset + |edges|;
        Ok(Page(NodesOf(g.nodes, edges), edges,
                if next < |g.edges| then Some(EncodeCursor(h, query, ref, fingerprint, next)) else None))
  }

  // ----- following the cursors -----

  /** Where the cursor stands. */
  function Offset(h: Host, query: string, ref: string, g: Graph, cursor: Option<string>): Result<nat, CursorError> {
    DecodeCursor(h, cursor, query, ref, Fingerprint(h, query, ref, g))
  }

  /** A page's cursor stands right after the page's edges. */
  lemma NextOffset(h: Host, query: string, ref: string, g: Graph, limit: nat, cursor: Option<string>)
    requires Faithful(h.floats) && limit > 0 && Offset(h, query, ref, g, cursor).Ok?
    ensures var page := Paginate(h, query, ref, g, limit, cursor);
      var offset := Offset(h, query, ref, g, cursor).value;
      page.Ok? && page.value.edges == Slice(g.edges, offset, limit) &&
      (page.value.next.None? <==> offset + |page.value.edges| >= |g.edges|) &&
      (page.value.next.Some? ==>
        Offset(h, query, ref, g, page.value.next) == Ok(offset + |page.value.edges|) && page.value.edges != [])
  {
    hide Faithful, EncodeCursor, DecodeCursor, Fingerprint;
    var fingerprint := Fingerprint(h, query, ref, g);
    var offset := Offset(h, query, ref, g, cursor).value;
    var edges := Slice(g.edges, offset, limit);
    CursorRoundTrip(h, query, ref, fingerprint, offset + |edges|, query, ref, fingerprint);
  }

  /** The pages a client sees that follows `next` on an unchanged graph, asking for `limits(i)`
      edges on its i-th request. */
  ghost function Follow(
    h: Host, query: string, ref: string, g: Graph, limits: nat -> nat, i: nat, cursor: Option<string>): seq<Page>
    requires Faithful(h.floats) && (forall k :: limits(k) > 0) && Offset(h, query, ref, g, cursor).Ok?
    decreases |g.edges| - Offset(h, query, ref, g, cursor).value
  {
    NextOffset(h, query, ref, g, limits(i), cursor);
    var page := Paginate(h, query, ref, g, limits(i), cursor).value;
    if page.next.None? then [page] else [page] + Follow(h, query, ref, g, limits, i + 1, page.next)
  }

  function AllEdges(pages: seq<Page>): seq<Value> {
    if pages == [] then [] else pages[0].edges + AllEdges(pages[1..])
  }

  ghost predicate Shown(pages: seq<Page>, node: Value) {
    exists i :: 0 <= i < |pages| && node in pages[i].nodes
  }

  lemma ShownLater(page: Page, pages: seq<Page>, node: Value)
    ensures Shown([page] + pages, node) <==> node in page.nodes || Shown(pages, node)
  {
    var all := [page] + pages;
    if node in page.nodes { assert node in all[0].nodes; }
    if i :| 0 <= i < |pages| && node in pages[i].nodes { assert node in all[i + 1].nodes; }
    if i :| 0 <= i < |all| && node in all[i].nodes { assert i > 0 ==> all[i] == pages[i - 1]; }
  }

  lemma IncidentSplit(node: Value, edges: seq<Value>, k: nat)
    requires k <= |edges|
    ensures IncidentToAny(node, edges) <==> IncidentToAny(node, edges[..k]) || IncidentToAny(node, edges[k..])
  {
    hide Incident;
    if i :| 0 <= i < |edges| && Incident(node, edges[i]) {
      if i < k { assert edges[..k][i] == edges[i]; } else { assert edges[k..][i - k] == edges[i]; }
    }
    if i :| 0 <= i < k && Incident(node, edges[..k][i]) { assert edges[..k][i] == edges[i]; }
    if i :| 0 <= i < |edges[k..]| && Incident(node, edges[k..][i]) { assert edges[k..][i] == edges[k + i]; }
  }

  lemma SplitAt(edges: seq<Value>, offset: nat, n: nat)
    requires offset + n <= |edges|
    ensures edges[offset..][..n] == edges[offset..offset + n] && edges[offset..][n..] == edges[offset + n..]
    ensures edges[offset..] == edges[offset..offset + n] + edges[offset + n..]
  {
  }

  /** From an offset inside the graph, the pages are the rest of the edges in order. */
  lemma {:induction false} FollowCovers(
    h: Host, query: string, ref: string, g: Graph, limits: nat -> nat, i: nat, cursor: Option<string>, node: Value)
    requires Faithful(h.floats) && (forall k :: limits(k) > 0) && Offset(h, query, ref, g, cursor).Ok?
    requires Offset(h, query, ref, g, cursor).value < |g.edges|
    ensures AllEdges(Follow(h, query, ref, g, limits, i, cursor)) == g.edges[Offset(h, query, ref, g, cursor).value..]
    ensures Shown(Follow(h, query, ref, g, limits, i, cursor), node) <==>
      node in g.nodes && IncidentToAny(node, g.edges[Offset(h, query, ref, g, cursor).value..])
    decreases |g.edges| - Offset(h, query, ref, g, cursor).value
  {
    hide Faithful, EncodeCursor, DecodeCursor, Fingerprint, Offset, IncidentToAny;
    NextOffset(h, query, ref, g, limits(i), cursor);
    var offset := Offset(h, query, ref, g, cursor).value;
    var page := Paginate(h, query, ref, g, limits(i), cursor).value;
    var n := |page.edges|;
    PageNodes(h, query, ref, g, limits(i), cursor, node);
    SplitAt(g.edges, offset, n);
    IncidentSplit(node, g.edges[offset..], n);
    if page.next.None? {
      assert g.edges[offset + n..] == [];
      ShownLater(page, [], node);
      assert [page] + [] == [page] && AllEdges([page]) == page.edges;
      NothingIncident(node);
    } else {
      var rest := Follow(h, query, ref, g, limits, i + 1, page.next);
      FollowCovers(h, query, ref, g, limits, i + 1, page.next, node);
      ShownLater(page, rest, node);
      assert ([page] + rest)[1..] == rest;
    }
  }

  lemma NothingIncident(node: Value)
    ensures !IncidentToAny(node, [])
  {
  }

  /** A page lists exactly the nodes its edges touch. */
  lemma PageNodes(
    h: Host, query: string, ref: string, g: Graph, limit: nat, cursor: Option<string>, node: Value)
    requires g.edges != [] && Offset(h, query, ref, g, cursor).Ok?
    ensures var page := Paginate(h, query, ref, g, limit, cursor);
      page.Ok? && (node in page.value.nodes <==> node in g.nodes && IncidentToAny(node, page.value.edges))
  {
    hide EncodeCursor, DecodeCursor, Fingerprint, IncidentToAny;
  }

  /** Following the cursors from the start ends, and the pages are the graph: their edges are the
      edges in order, and every node some edge touches is on a page. A graph without edges is one
      page with every node; with edges, an isolated node is on no page. */
  lemma PagesAreTheGraph(h: Host, query: string, ref: string, g: Graph, limits: nat -> nat, node: Value)
    requires Faithful(h.floats) && forall k :: limits(k) > 0
    ensures var pages := Follow(h, query, ref, g, limits, 0, None);
      AllEdges(pages) == g.edges &&
      (Shown(pages, node) <==> node in g.nodes && (g.edges == [] || IncidentToAny(node, g.edges)))
  {
    hide Faithful, EncodeCursor, Fingerprint, IncidentToAny;
    assert Offset(h, query, ref, g, None) == Ok(0);
    if g.edges == [] {
      NextOffset(h, query, ref, g, limits(0), None);
      var page := Paginate(h, query, ref, g, limits(0), None).value;
      assert Follow(h, query, ref, g, limits, 0, None) == [page];
      assert page.nodes == g.nodes;
      assert AllEdges([page]) == [];
      ShownLater(page, [], node);
      assert [page] + [] == [page];
    } else {
      FollowCovers(h, query, ref, g, limits, 0, None, node);
      assert g.edges[0..] == g.edges;
    }
  }

  function NodeCalled(id: string): Value { Obj([Member("id", Str(id))]) }

  function EdgeBetween(source: string, target: string): Value {
    Obj([Member("source", Str(source)), Member("target", Str(target))])
  }

  /** Of the nodes `a`, `b` and `c` with an edge from `a` to `b`, the last is on no page, whatever the
      page sizes. */
  lemma IsolatedNodeIsOnNoPage(h: Host, query: string, ref: string, limits: nat -> nat)
    requires Faithful(h.floats) && forall k :: limits(k) > 0
    ensures
      var g := Graph([NodeCalled("a"), NodeCalled("b"), NodeCalled("c")], [EdgeBetween("a", "b")]);
      var pages := Follow(h, query, ref, g, limits, 0, None);
      Shown(pages, NodeCalled("a")) && Shown(pages, NodeCalled("b")) &&
      NodeCalled("c") in g.nodes && !Shown(pages, NodeCalled("c"))
  {
    hide Faithful, Follow, Shown, AllEdges;
    var g := Graph([NodeCalled("a"), NodeCalled("b"), NodeCalled("c")], [EdgeBetween("a", "b")]);
    assert "source"[0] == 's' && "target"[0] == 't';
    assert "a"[0] == 'a' && "b"[0] == 'b' && "c"[0] == 'c';
    assert g.nodes[0] == NodeCalled("a") && g.nodes[1] == NodeCalled("b") && g.nodes[2] == NodeCalled("c");
    forall id ensures TextAt(NodeCalled(id), "id") == Some(id) { }
    assert TextAt(g.edges[0], "source") == Some("a") && TextAt(g.edges[0], "target") == Some("b");
    PagesAreTheGraph(h, query, ref, g, limits, NodeCalled("a"));
    PagesAreTheGraph(h, query, ref, g, limits, NodeCalled("b"));
    PagesAreTheGraph(h, query, ref, g, limits, NodeCalled("c"));
  }

  // ----- changed graphs -----

  lemma FingerprintKeys()
    ensures NoDuplicates(["query", "id", "nodes", "edges"])
  {
    assert "query"[0] == 'q' && "id"[0] == 'i' && "nodes"[0] == 'n' && "edges"[0] == 'e';
  }

  lemma FingerprintMembers(query: string, ref: string, g: Graph)
    requires WellFormed(Arr(g.nodes)) && WellFormed(Arr(g.edges))
    ensures var p := FingerprintPayload(query, ref, g);
      WellFormed(p) && Get(p, "query") == Some(Str(query)) && Get(p, "id") == Some(Str(ref)) &&
      Get(p, "nodes") == Some(Arr(g.nodes)) && Get(p, "edges") == Some(Arr(g.edges))
  {
    hide Find;
    FingerprintKeys();
    var p := FingerprintPayload(query, ref, g);
    var names := ["query", "id", "nodes", "edges"];
    assert forall i :: 0 <= i < 4 ==> p.members[i].key == names[i];
    FindIs(p.members, 0);
    FindIs(p.members, 1);
    FindIs(p.members, 2);
    FindIs(p.members, 3);
  }

  /** Two answers have one fingerprint exactly when they answer the same question with the same
      nodes and edges, up to the order of members within them. */
  lemma FingerprintDecides(h: Host, query: string, ref: string, g: Graph, query': string, ref': string, g': Graph)
    requires Reliable(h)
    requires WellFormed(Arr(g.nodes)) && WellFormed(Arr(g.edges)) && WellFormed(Arr(g'.nodes)) &&
      WellFormed(Arr(g'.edges))
    ensures Fingerprint(h, query, ref, g) == Fingerprint(h, query', ref', g') <==>
      (query == query' && ref == ref' && Same(Arr(g.nodes), Arr(g'.nodes)) && Same(Arr(g.edges), Arr(g'.edges)))
  {
    hide Faithful, Dumps, Utf8Encode, WellFormed, Same, Get, FingerprintPayload;
    var p, q := FingerprintPayload(query, ref, g), FingerprintPayload(query', ref', g');
    FingerprintMembers(query, ref, g);
    FingerprintMembers(query', ref', g');
    var s, t := Dumps(false, h.floats, p), Dumps(false, h.floats, q);
    Utf8RoundTrip(s);
    Utf8RoundTrip(t);
    TextDecidesSameness(false, h.floats, p, q);
    assert Fingerprint(h, query, ref, g) == Fingerprint(h, query', ref', g') <==> Same(p, q);
    SamePayloads(query, ref, g, query', ref', g');
  }

  lemma SamePayloads(query: string, ref: string, g: Graph, query': string, ref': string, g': Graph)
    requires WellFormed(Arr(g.nodes)) && WellFormed(Arr(g.edges)) && WellFormed(Arr(g'.nodes)) &&
      WellFormed(Arr(g'.edges))
    ensures Same(FingerprintPayload(query, ref, g), FingerprintPayload(query', ref', g')) <==>
      (query == query' && ref == ref' && Same(Arr(g.nodes), Arr(g'.nodes)) && Same(Arr(g.edges), Arr(g'.edges)))
  {
    hide WellFormed, Same, Get, FingerprintPayload;
    var p, q := FingerprintPayload(query, ref, g), FingerprintPayload(query', ref', g');
    FingerprintMembers(query, ref, g);
    FingerprintMembers(query', ref', g');
    if Same(p, q) {
      SamePayloadMembers(p, q);
      assert Get(p, "query").Some? && Get(p, "id").Some? && Get(p, "nodes").Some? && Get(p, "edges").Some?;
      SameText(query, query');
      SameText(ref, ref');
    }
    if query == query' && ref == ref' && Same(Arr(g.nodes), Arr(g'.nodes)) && Same(Arr(g.edges), Arr(g'.edges)) {
      SamePayload(query, ref, g, g');
    }
  }

  lemma SameText(a: string, b: string)
    ensures Same(Str(a), Str(b)) <==> a == b
  {
  }

  lemma SamePayload(query: string, ref: string, g: Graph, g': Graph)
    requires Same(Arr(g.nodes), Arr(g'.nodes)) && Same(Arr(g.edges), Arr(g'.edges))
    ensures Same(FingerprintPayload(query, ref, g), FingerprintPayload(query, ref, g'))
  {
    SameText(query, query);
    SameText(ref, ref);
    hide Same;
    SameMemberList(FingerprintPayload(query, ref, g), FingerprintPayload(query, ref, g'));
  }

  lemma SamePayloadMembers(p: Value, q: Value)
    requires WellFormed(p) && WellFormed(q) && Same(p, q)
    ensures forall key {:trigger Get(p, key)} :: Get(p, key).Some? ==>
      Get(q, key).Some? && Same(Get(p, key).value, Get(q, key).value)
  {
    hide WellFormed, Same, Get;
    forall key {:trigger Get(p, key)} | Get(p, key).Some?
      ensures Get(q, key).Some? && Same(Get(p, key).value, Get(q, key).value)
    {
      SameGet(p, q, key);
    }
  }

  /** Objects with the same keys in the same places and the same values. */
  lemma SameMemberList(p: Value, q: Value)
    requires p.Obj? && q.Obj? && |p.members| == |q.members|
    requires forall i :: 0 <= i < |p.members| ==>
      p.members[i].key == q.members[i].key && Same(p.members[i].value, q.members[i].value)
    ensures Same(p, q)
  {
    forall i | 0 <= i < |p.members| ensures HasSame(p.members[i], q.members) {
      assert q.members[i].key == p.members[i].key;
    }
  }

  /** A cursor handed out for one answer is refused, as a mismatch, as soon as the question or the
      graph has changed, and opens otherwise. */
  lemma StaleCursorRefused(
    h: Host, query: string, ref: string, g: Graph, edge: nat, query': string, ref': string, g': Graph)
    requires Reliable(h)
    requires WellFormed(Arr(g.nodes)) && WellFormed(Arr(g.edges)) && WellFormed(Arr(g'.nodes)) &&
      WellFormed(Arr(g'.edges))
    ensures Offset(h, query', ref', g', Some(EncodeCursor(h, query, ref, Fingerprint(h, query, ref, g), edge))) ==
      if query == query' && ref == ref' && Same(Arr(g.nodes), Arr(g'.nodes)) && Same(Arr(g.edges), Arr(g'.edges))
      then Ok(edge) else Err(Mismatch)
  {
    hide Faithful, EncodeCursor, DecodeCursor, Fingerprint, WellFormed, Same;
    FingerprintDecides(h, query, ref, g, query', ref', g');
    CursorRoundTrip(h, query, ref, Fingerprint(h, query, ref, g), edge, query', ref', Fingerprint(h, query', ref', g'));
  }

  // ----- one page -----

  /** A page holds as many edges as were asked for, from where the cursor stands, or what is left of them. */
  lemma PageHoldsTheLimit(h: Host, query: string, ref: string, g: Graph, limit: nat, cursor: Option<string>)
    requires Offset(h, query, ref, g, cursor).Ok?
    ensures var page, offset := Paginate(h, query, ref, g, limit, cursor), Offset(h, query, ref, g, cursor).value;
      var left := if offset < |g.edges| then |g.edges| - offset else 0;
      page.Ok? && |page.value.edges| == (if left < limit then left else limit) &&
      (forall i :: 0 <= i < |page.value.edges| ==> page.value.edges[i] == g.edges[offset + i]) &&
      (page.value.next.Some? <==> offset + limit < |g.edges|)
  {
    hide DecodeCursor, EncodeCursor, Fingerprint, NodesOf;
  }

  /** A page shows the graph's nodes in their order, those its edges touch. */
  lemma {:induction false} NodesKeepOrder(before: seq<Value>, after: seq<Value>, edges: seq<Value>, node: Value)
    ensures NodesOf(before + after, edges) == NodesOf(before, edges) + NodesOf(after, edges)
    ensures NodesOf([node], edges) == if IncidentToAny(node, edges) then [node] else []
    decreases |before|
  {
    hide IncidentToAny;
    assert [node][1..] == [];
    if before == [] {
      assert before + after == after;
      assert [] + NodesOf(after, edges) == NodesOf(after, edges);
    } else {
      NodesKeepOrder(before[1..], after, edges, node);
      assert (before + after)[0] == before[0] && (before + after)[1..] == before[1..] + after;
      var rest := NodesOf(before[1..], edges) + NodesOf(after, edges);
      assert [before[0]] + NodesOf(before[1..], edges) + NodesOf(after, edges) == [before[0]] + rest;
    }
  }

  /** A node is an end of an edge exactly if its identifier is the edge's source or target. */
  lemma IncidentMeans(id: string, source: string, target: string)
    ensures Incident(NodeCalled(id), EdgeBetween(source, target)) <==> id == source || id == target
  {
    assert "source"[0] == 's' && "target"[0] == 't';
    assert TextAt(NodeCalled(id), "id") == Some(id);
    var ms := EdgeBetween(source, target).members;
    assert ms[1..] == [Member("target", Str(target))];
    assert Find(ms, "target") == Find(ms[1..], "target") == Some(Str(target));
    assert TextAt(EdgeBetween(source, target), "source") == Some(source);
    assert TextAt(EdgeBetween(source, target), "target") == Some(target);
  }

  /** The JSON value a cursor carries, if it is base64url of UTF-8 of JSON. */
  ghost function Carried(h: Host, text: string): Option<Value> {
    match DecodeUnpadded(text)
    case None => None
    case Some(bytes) =>
      match Utf8Decode(bytes)
      case None => None
      case Some(json) => match Loads(h.floats, json) case Err(_) => None case Ok(payload) => Some(payload)
  }

  /** Any cursor is malformed exactly if it carries no JSON, and stands at an offset exactly if it carries an
      object with that offset, this question and fingerprint, and the version one, which Python also sees in
      `true` and `1.0`. */
  lemma CursorsAccepted(h: Host, text: string, query: string, ref: string, fingerprint: string, n: nat)
    ensures var decoded := DecodeCursor(h, Some(text), query, ref, fingerprint);
      && (decoded == Err(Malformed) <==> Carried(h, text) == None)
      && (decoded == Ok(n) <==>
            exists p :: Carried(h, text) == Some(p) && Get(p, "edge") == Some(Int(n)) &&
              Get(p, "query") == Some(Str(query)) && Get(p, "id") == Some(Str(ref)) &&
              Get(p, "fingerprint") == Some(Str(fingerprint)) &&
              Get(p, "v") in {Some(Int(1)), Some(Bool(true)), Some(Real(0x3FF0000000000000))})
  {
    hide Get, Loads, Utf8Decode, DecodeUnpadded;
    if Carried(h, text).Some? { ObjectsHaveMembers(Carried(h, text).value); }
  }

  lemma ObjectsHaveMembers(p: Value)
    ensures Get(p, "edge").Some? ==> p.Obj?
  {
  }
}

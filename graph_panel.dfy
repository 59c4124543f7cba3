/** `buildElements` of frontend/src/components/GraphPanel.jsx (lines 8-38):
    the graph fetched from /api/graph is simplified before it is drawn. Edges
    lighter than `minWeight` go; the nodes kept are the endpoints of the
    remaining edges (and every node with `showAll`); when that is more than
    `nodeLimit` nodes, only the `nodeLimit` endpoints of highest degree stay,
    with the edges between them. */
module GraphPanel {
  import opened Options
  import opened Collections

  // ---------------------------------------------------------------------------
  // The data

  /** A node of the fetched graph; `label` (here `caption`) may be missing. */
  datatype RawNode = RawNode(id: string, caption: Option<string>)

  /** An edge of the fetched graph; `weight` may be missing. */
  datatype RawEdge = RawEdge(source: string, target: string, weight: Option<int>)

  /** The fetched JSON; either list may be missing. */
  datatype RawGraph = RawGraph(nodes: Option<seq<RawNode>>, edges: Option<seq<RawEdge>>)

  /** A Cytoscape element: `{ data: { id, label } }` or `{ data: { source, target, weight } }`. */
  datatype Element =
    | NodeElement(id: string, caption: string)
    | EdgeElement(source: string, target: string, weight: int)

  /** Degrees are attached to ids as `[id, degree]` entries. */
  type Entry = (string, nat)

  /** `x ?? d`, and `x || d` where `x` is a list (never falsy). */
  function OrElse<T>(o: Option<T>, d: T): T {
    match o
    case None => d
    case Some(v) => v
  }

  /** `raw?.nodes || []`. */
  function RawNodes(raw: Option<RawGraph>): seq<RawNode> {
    match raw
    case None => []
    case Some(g) => OrElse(g.nodes, [])
  }

  /** `raw?.edges || []`. */
  function RawEdges(raw: Option<RawGraph>): seq<RawEdge> {
    match raw
    case None => []
    case Some(g) => OrElse(g.edges, [])
  }

  /** `e.weight ?? 1`. */
  function Weight(e: RawEdge): int {
    OrElse(e.weight, 1)
  }

  // ---------------------------------------------------------------------------
  // The pure steps

  /** `edges.filter((e) => (e.weight ?? 1) >= minWeight)`. */
  function Heavy(edges: seq<RawEdge>, minWeight: int): seq<RawEdge> {
    Filter(edges, (e: RawEdge) => Weight(e) >= minWeight)
  }

  /** `filteredEdges.flatMap((e) => [e.source, e.target])`. */
  function Endpoints(es: seq<RawEdge>): (r: seq<string>)
    ensures |r| == 2 * |es|
  {
    if es == [] then [] else Endpoints(es[..|es| - 1]) + [es[|es| - 1].source, es[|es| - 1].target]
  }

  /** The Set built from the endpoints. */
  function EndpointSet(es: seq<RawEdge>): set<string> {
    set x | x in Endpoints(es)
  }

  /** The ids `nodes.forEach((n) => nodeSet.add(n.id))` adds. */
  function IdSet(nodes: seq<RawNode>): set<string> {
    set n | n in nodes :: n.id
  }

  /** The node set before any reduction. */
  function Candidates(nodes: seq<RawNode>, fe: seq<RawEdge>, showAll: bool): set<string> {
    EndpointSet(fe) + (if showAll then IdSet(nodes) else {})
  }

  /** How often `x` is an endpoint of the edges: once per edge it starts or
      ends, so twice for a self-loop. */
  function Degree(fe: seq<RawEdge>, x: string): nat {
    multiset(Endpoints(fe))[x]
  }

  /** `[...degree.entries()]`: the pairs of the Map in its insertion order. */
  function Entries(order: seq<string>, degree: map<string, nat>): (es: seq<Entry>)
    requires forall k :: 0 <= k < |order| ==> order[k] in degree
  {
    seq(|order|, k requires 0 <= k < |order| => (order[k], degree[order[k]]))
  }

  /** The degree Map's entries: every endpoint once, in order of first
      appearance, with its degree. */
  function DegreeEntries(fe: seq<RawEdge>): seq<Entry> {
    var ends := Endpoints(fe);
    DedupInTally(ends);
    Entries(Dedup(ends), Tally(ends))
  }

  lemma DedupInTally<K>(s: seq<K>)
    ensures forall k :: 0 <= k < |Dedup(s)| ==> Dedup(s)[k] in Tally(s)
  {
    DedupFacts(s);
    TallyCounts(s);
    forall k | 0 <= k < |Dedup(s)| ensures Dedup(s)[k] in Tally(s) {
      var i :| 0 <= i < |s| && s[i] == Dedup(s)[k];
    }
  }

  /** Inserts `x` in front of the first entry whose degree is not larger. */
  function Insert(x: Entry, t: seq<Entry>): seq<Entry> {
    if t == [] || t[0].1 <= x.1 then [x] + t else [t[0]] + Insert(x, t[1..])
  }

  /** `.sort((a, b) => b[1] - a[1])`: Array.prototype.sort is stable, so this
      orders by descending degree and keeps ties in their order. */
  function SortByDegree(s: seq<Entry>): seq<Entry> {
    if s == [] then [] else Insert(s[0], SortByDegree(s[1..]))
  }

  /** `.slice(0, n)`. */
  function Take<T>(s: seq<T>, n: nat): (r: seq<T>)
    ensures |r| == if n < |s| then n else |s|
    ensures forall i :: 0 <= i < |r| ==> r[i] == s[i]
  {
    if n < |s| then s[..n] else s
  }

  /** `ranked`: the `nodeLimit` entries of highest degree. */
  function Ranked(fe: seq<RawEdge>, nodeLimit: nat): seq<Entry> {
    Take(SortByDegree(DegreeEntries(fe)), nodeLimit)
  }

  /** `new Set(ranked.map(([id]) => id))`. */
  function IdsOf(ranked: seq<Entry>): set<string> {
    set p | p in ranked :: p.0
  }

  /** `filteredEdges.filter((e) => nodeSet.has(e.source) && nodeSet.has(e.target))`. */
  function Within(fe: seq<RawEdge>, ids: set<string>): seq<RawEdge> {
    Filter(fe, (e: RawEdge) => e.source in ids && e.target in ids)
  }

  /** The final node set. */
  function KeptIds(nodes: seq<RawNode>, fe: seq<RawEdge>, nodeLimit: nat, showAll: bool): set<string> {
    var cand := Candidates(nodes, fe, showAll);
    if |cand| > nodeLimit then IdsOf(Ranked(fe, nodeLimit)) else cand
  }

  /** The final edges. */
  function KeptEdges(nodes: seq<RawNode>, fe: seq<RawEdge>, nodeLimit: nat, showAll: bool): seq<RawEdge> {
    var cand := Candidates(nodes, fe, showAll);
    if |cand| > nodeLimit then Within(fe, IdsOf(Ranked(fe, nodeLimit))) else fe
  }

  /** `nodes.filter((n) => nodeSet.has(n.id))`. */
  function InSet(nodes: seq<RawNode>, ids: set<string>): seq<RawNode> {
    Filter(nodes, (n: RawNode) => n.id in ids)
  }

  /** `{ data: { id: n.id, label: n.label ?? n.id } }`. */
  function NodeElementOf(n: RawNode): Element {
    NodeElement(n.id, OrElse(n.caption, n.id))
  }

  /** `{ data: { source: e.source, target: e.target, weight: e.weight ?? 1 } }`. */
  function EdgeElementOf(e: RawEdge): Element {
    EdgeElement(e.source, e.target, Weight(e))
  }

  function NodeElements(ns: seq<RawNode>): (els: seq<Element>)
    ensures |els| == |ns|
  {
    seq(|ns|, k requires 0 <= k < |ns| => NodeElementOf(ns[k]))
  }

  function EdgeElements(es: seq<RawEdge>): (els: seq<Element>)
    ensures |els| == |es|
  {
    seq(|es|, k requires 0 <= k < |es| => EdgeElementOf(es[k]))
  }

  /** The node set buildElements ends with. */
  function Kept(raw: Option<RawGraph>, nodeLimit: nat, minWeight: int, showAll: bool): set<string> {
    KeptIds(RawNodes(raw), Heavy(RawEdges(raw), minWeight), nodeLimit, showAll)
  }

  /** What buildElements returns. */
  function Elements(raw: Option<RawGraph>, nodeLimit: nat, minWeight: int, showAll: bool): seq<Element> {
    var nodes := RawNodes(raw);
    var fe := Heavy(RawEdges(raw), minWeight);
    NodeElements(InSet(nodes, Kept(raw, nodeLimit, minWeight, showAll)))
      + EdgeElements(KeptEdges(nodes, fe, nodeLimit, showAll))
  }

  // ---------------------------------------------------------------------------
  // The imperative steps

  /** `nodes.forEach((n) => nodeSet.add(n.id))`. */
  method AddAllIds(nodeSet0: set<string>, nodes: seq<RawNode>) returns (nodeSet: set<string>)
    ensures nodeSet == nodeSet0 + IdSet(nodes)
  {
    nodeSet := nodeSet0;
    for i := 0 to |nodes|
      invariant nodeSet == nodeSet0 + IdSet(nodes[..i])
    {
      assert IdSet(nodes[..i + 1]) == IdSet(nodes[..i]) + {nodes[i].id} by {
        assert nodes[..i + 1] == nodes[..i] + [nodes[i]];
      }
      nodeSet := nodeSet + {nodes[i].id};
    }
    assert nodes[..|nodes|] == nodes;
  }

  /** The `degree` Map: for each edge, one more for its source, then one more
      for its target. It ends up holding every endpoint with its number of
      occurrences, keys in order of first appearance. */
  method CountDegrees(fe: seq<RawEdge>) returns (degree: map<string, nat>, order: seq<string>)
    ensures degree == Tally(Endpoints(fe)) && order == Dedup(Endpoints(fe))
  {
    degree, order := map[], [];
    for i := 0 to |fe|
      invariant degree == Tally(Endpoints(fe[..i])) && order == Dedup(Endpoints(fe[..i]))
    {
      ghost var seen := Endpoints(fe[..i]);
      assert Endpoints(fe[..i + 1]) == seen + [fe[i].source] + [fe[i].target] by {
        assert fe[..i + 1][..i] == fe[..i];
      }
      degree, order := CountOne(degree, order, fe[i].source, seen);
      degree, order := CountOne(degree, order, fe[i].target, seen + [fe[i].source]);
    }
    assert fe[..|fe|] == fe;
  }

  /** buildElements. */
  method BuildElements(raw: Option<RawGraph>, nodeLimit: nat, minWeight: int, showAll: bool)
    returns (els: seq<Element>)
    ensures els == Elements(raw, nodeLimit, minWeight, showAll)
  {
    var nodes := RawNodes(raw);
    var edges := RawEdges(raw);
    var filteredEdges := Heavy(edges, minWeight);
    var nodeSet := EndpointSet(filteredEdges);
    if showAll {
      nodeSet := AddAllIds(nodeSet, nodes);
    }
    if |nodeSet| > nodeLimit {
      var degree, order := CountDegrees(filteredEdges);
      DedupInTally(Endpoints(filteredEdges));
      var ranked := Take(SortByDegree(Entries(order, degree)), nodeLimit);
      nodeSet := IdsOf(ranked);
      filteredEdges := Within(filteredEdges, nodeSet);
    }
    var usedNodes := InSet(nodes, nodeSet);
    els := NodeElements(usedNodes) + EdgeElements(filteredEdges);
  }

  // ---------------------------------------------------------------------------
  // The sort

  /** Degrees never increase along `s`. */
  predicate Descending(s: seq<Entry>) {
    forall i, j :: 0 <= i < j < |s| ==> s[i].1 >= s[j].1
  }

  /** The entries of degree `d`, in their order. */
  function OfDegree(s: seq<Entry>, d: nat): seq<Entry> {
    Filter(s, (p: Entry) => p.1 == d)
  }

  lemma {:induction false} InsertPermutes(x: Entry, t: seq<Entry>)
    ensures multiset(Insert(x, t)) == multiset([x] + t)
    decreases |t|
  {
    if t != [] && t[0].1 > x.1 {
      InsertPermutes(x, t[1..]);
      assert t == [t[0]] + t[1..];
    }
  }

  /** The sort rearranges the entries: it neither adds nor drops any. */
  lemma {:induction false} SortPermutes(s: seq<Entry>)
    ensures multiset(SortByDegree(s)) == multiset(s)
  {
    if s != [] {
      SortPermutes(s[1..]);
      InsertPermutes(s[0], SortByDegree(s[1..]));
      assert s == [s[0]] + s[1..];
    }
  }

  lemma {:induction false} InsertDescending(x: Entry, t: seq<Entry>)
    requires Descending(t)
    ensures Descending(Insert(x, t))
    decreases |t|
  {
    if t != [] && t[0].1 > x.1 {
      var rest := t[1..];
      InsertDescending(x, rest);
      InsertPermutes(x, rest);
      var r := Insert(x, rest);
      forall j | 0 <= j < |r| ensures t[0].1 >= r[j].1 {
        assert r[j] in multiset([x] + rest);
        if r[j] != x {
          assert r[j] in rest;
        }
      }
    }
  }

  /** The sort orders by descending degree. */
  lemma {:induction false} SortDescending(s: seq<Entry>)
    ensures Descending(SortByDegree(s))
  {
    if s != [] {
      SortDescending(s[1..]);
      InsertDescending(s[0], SortByDegree(s[1..]));
    }
  }

  lemma OfDegreeAppend(a: seq<Entry>, b: seq<Entry>, d: nat)
    ensures OfDegree(a + b, d) == OfDegree(a, d) + OfDegree(b, d)
  {
    FilterAppend(a, b, (p: Entry) => p.1 == d);
  }

  lemma OfDegreeSingle(x: Entry, d: nat)
    ensures OfDegree([x], d) == if x.1 == d then [x] else []
  {
    FilterSingle(x, (p: Entry) => p.1 == d);
  }

  /** Entries of two different degrees can trade places without changing
      either degree's list. */
  lemma OfDegreeSwap(y: Entry, x: Entry, u: seq<Entry>, v: seq<Entry>, d: nat)
    requires y.1 != x.1
    requires OfDegree(u, d) == OfDegree([x] + v, d)
    ensures OfDegree([y] + u, d) == OfDegree([x] + ([y] + v), d)
  {
    var a, b, w := OfDegree([y], d), OfDegree([x], d), OfDegree(v, d);
    OfDegreeSingle(y, d);
    OfDegreeSingle(x, d);
    OfDegreeAppend([x], v, d);
    OfDegreeAppend([y], u, d);
    assert OfDegree([y] + u, d) == a + (b + w);
    OfDegreeAppend([y], v, d);
    OfDegreeAppend([x], [y] + v, d);
    assert OfDegree([x] + ([y] + v), d) == b + (a + w);
    SwapEmpty(a, b, w);
  }

  /** When one of two sequences is empty, they commute in front of a third. */
  lemma SwapEmpty<T>(a: seq<T>, b: seq<T>, w: seq<T>)
    requires a == [] || b == []
    ensures a + (b + w) == b + (a + w)
  {
  }

  lemma {:induction false} InsertStable(x: Entry, t: seq<Entry>, d: nat)
    ensures OfDegree(Insert(x, t), d) == OfDegree([x] + t, d)
    decreases |t|
  {
    if t != [] && t[0].1 > x.1 {
      var rest := t[1..];
      assert Insert(x, t) == [t[0]] + Insert(x, rest);
      assert t == [t[0]] + rest;
      InsertStable(x, rest, d);
      OfDegreeSwap(t[0], x, Insert(x, rest), rest, d);
    }
  }

  /** The sort is stable: the entries of any one degree keep their order. */
  lemma {:induction false} SortStable(s: seq<Entry>, d: nat)
    ensures OfDegree(SortByDegree(s), d) == OfDegree(s, d)
  {
    if s != [] {
      var rest := s[1..];
      SortStable(rest, d);
      InsertStable(s[0], SortByDegree(rest), d);
      OfDegreeAppend([s[0]], SortByDegree(rest), d);
      OfDegreeAppend([s[0]], rest, d);
      assert s == [s[0]] + rest;
    }
  }

  lemma {:induction false} InsertDistinct(x: Entry, t: seq<Entry>)
    requires Distinct(t) && x !in t
    ensures Distinct(Insert(x, t))
    decreases |t|
  {
    if t != [] && t[0].1 > x.1 {
      var rest := t[1..];
      DistinctTail(t);
      InsertDistinct(x, rest);
      InsertPermutes(x, rest);
      var r := Insert(x, rest);
      assert t[0] !in multiset(r);
      assert Insert(x, t) == [t[0]] + r;
    }
  }

  /** An entry list without repeats stays without repeats. */
  lemma {:induction false} SortDistinct(s: seq<Entry>)
    requires Distinct(s)
    ensures Distinct(SortByDegree(s))
  {
    if s != [] {
      var rest := s[1..];
      DistinctTail(s);
      SortDistinct(rest);
      SortPermutes(rest);
      assert s[0] !in multiset(SortByDegree(rest));
      InsertDistinct(s[0], SortByDegree(rest));
    }
  }

  // ---------------------------------------------------------------------------
  // Degrees

  /** Each edge adds one to the degree of its source and one to that of its
      target, so a self-loop adds two. */
  lemma DegreeSnoc(fe: seq<RawEdge>, e: RawEdge, x: string)
    ensures Degree(fe + [e], x) == Degree(fe, x) + (if e.source == x then 1 else 0) + (if e.target == x then 1 else 0)
  {
    assert (fe + [e])[..|fe|] == fe;
    assert Endpoints(fe + [e]) == Endpoints(fe) + [e.source] + [e.target];
  }

  /** The endpoints are the sources and targets of the edges, and nothing else. */
  lemma {:induction false} EndpointsMembers(fe: seq<RawEdge>)
    ensures forall e :: e in fe ==> e.source in Endpoints(fe) && e.target in Endpoints(fe)
    ensures forall x :: x in Endpoints(fe) ==> exists e :: e in fe && (e.source == x || e.target == x)
  {
    if fe != [] {
      var init := fe[..|fe| - 1];
      var last := fe[|fe| - 1];
      assert fe == init + [last];
      EndpointsMembers(init);
      assert Endpoints(fe) == Endpoints(init) + [last.source, last.target];
    }
  }

  /** A node is a candidate exactly when it is an endpoint of an edge that
      passed the weight filter, or, with showAll, the id of any node. */
  lemma CandidatesAre(nodes: seq<RawNode>, fe: seq<RawEdge>, showAll: bool, x: string)
    ensures x in Candidates(nodes, fe, showAll) <==>
      (exists e :: e in fe && (e.source == x || e.target == x)) || (showAll && exists n :: n in nodes && n.id == x)
  {
    EndpointsMembers(fe);
  }

  /** The degree entries are the distinct endpoints in order of first
      appearance, each with its degree. */
  lemma DegreeEntriesAt(fe: seq<RawEdge>)
    ensures |DegreeEntries(fe)| == |Dedup(Endpoints(fe))|
    ensures forall k :: 0 <= k < |DegreeEntries(fe)| ==>
      DegreeEntries(fe)[k] == (Dedup(Endpoints(fe))[k], Degree(fe, Dedup(Endpoints(fe))[k]))
  {
    var ends := Endpoints(fe);
    var es := DegreeEntries(fe);
    DedupInTally(ends);
    TallyCounts(ends);
    forall k | 0 <= k < |es| ensures es[k] == (Dedup(ends)[k], Degree(fe, Dedup(ends)[k])) {
      assert Tally(ends)[Dedup(ends)[k]] == multiset(ends)[Dedup(ends)[k]];
    }
  }

  /** Every endpoint has one entry, with its degree. */
  lemma DegreeEntriesFacts(fe: seq<RawEdge>)
    ensures |DegreeEntries(fe)| == |Dedup(Endpoints(fe))|
    ensures forall k :: 0 <= k < |DegreeEntries(fe)| ==>
      DegreeEntries(fe)[k] == (Dedup(Endpoints(fe))[k], Degree(fe, Dedup(Endpoints(fe))[k]))
    ensures Distinct(DegreeEntries(fe))
    ensures forall x :: x in Endpoints(fe) ==> (x, Degree(fe, x)) in DegreeEntries(fe)
  {
    var ends := Endpoints(fe);
    var es := DegreeEntries(fe);
    DegreeEntriesAt(fe);
    assert Distinct(es) by {
      DedupFacts(ends);
      forall i, j | 0 <= i < j < |es| ensures es[i] != es[j] {
        assert es[i].0 == Dedup(ends)[i] && es[j].0 == Dedup(ends)[j];
      }
    }
    forall x | x in ends ensures (x, Degree(fe, x)) in es {
      DedupMembers(ends, x);
      var k :| 0 <= k < |Dedup(ends)| && Dedup(ends)[k] == x;
      assert es[k] == (x, Degree(fe, x));
    }
  }

  // ---------------------------------------------------------------------------
  // The reduction

  lemma {:induction false} IdsOfCard(r: seq<Entry>)
    ensures |IdsOf(r)| <= |r|
  {
    if r != [] {
      var init := r[..|r| - 1];
      assert r == init + [r[|r| - 1]];
      IdsOfCard(init);
      assert IdsOf(r) == IdsOf(init) + {r[|r| - 1].0};
    }
  }

  /** An entry that is ranked is one of the degree entries. */
  lemma RankedEntry(fe: seq<RawEdge>, nodeLimit: nat, p: Entry)
    requires p in Ranked(fe, nodeLimit)
    ensures p in DegreeEntries(fe) && p.0 in Endpoints(fe) && p.1 == Degree(fe, p.0)
  {
    var es := DegreeEntries(fe);
    var r := SortByDegree(es);
    SortPermutes(es);
    DegreeEntriesFacts(fe);
    DedupFacts(Endpoints(fe));
    var i :| 0 <= i < |Ranked(fe, nodeLimit)| && Ranked(fe, nodeLimit)[i] == p;
    assert r[i] == p;
    assert p in multiset(es);
    var k :| 0 <= k < |es| && es[k] == p;
  }

  /** Without a reduction every candidate stays, and so does every edge that
      passed the weight filter. In either case the edges drawn are exactly
      the edges that passed the weight filter and run between nodes of the
      final set, in their original order. */
  lemma KeptEdgesClosed(nodes: seq<RawNode>, fe: seq<RawEdge>, nodeLimit: nat, showAll: bool)
    ensures |Candidates(nodes, fe, showAll)| <= nodeLimit ==>
      KeptIds(nodes, fe, nodeLimit, showAll) == Candidates(nodes, fe, showAll)
      && KeptEdges(nodes, fe, nodeLimit, showAll) == fe
    ensures KeptEdges(nodes, fe, nodeLimit, showAll) == Within(fe, KeptIds(nodes, fe, nodeLimit, showAll))
    ensures forall e :: e in KeptEdges(nodes, fe, nodeLimit, showAll) <==>
      e in fe && e.source in KeptIds(nodes, fe, nodeLimit, showAll) && e.target in KeptIds(nodes, fe, nodeLimit, showAll)
  {
    EndpointsMembers(fe);
    var kept := KeptIds(nodes, fe, nodeLimit, showAll);
    FilterMembers(fe, (e: RawEdge) => e.source in kept && e.target in kept);
    if |Candidates(nodes, fe, showAll)| <= nodeLimit {
      forall i | 0 <= i < |fe| ensures fe[i].source in kept && fe[i].target in kept {
        assert fe[i] in fe;
      }
      FilterAll(fe, (e: RawEdge) => e.source in kept && e.target in kept);
    }
  }

  /** With more candidates than nodeLimit, at most nodeLimit nodes stay and
      all of them are endpoints: isolated nodes go even with showAll. */
  lemma ReductionBound(nodes: seq<RawNode>, fe: seq<RawEdge>, nodeLimit: nat, showAll: bool)
    requires |Candidates(nodes, fe, showAll)| > nodeLimit
    ensures |KeptIds(nodes, fe, nodeLimit, showAll)| <= nodeLimit
    ensures KeptIds(nodes, fe, nodeLimit, showAll) <= EndpointSet(fe)
  {
    IdsOfCard(Ranked(fe, nodeLimit));
    forall x | x in KeptIds(nodes, fe, nodeLimit, showAll) ensures x in EndpointSet(fe) {
      var p :| p in Ranked(fe, nodeLimit) && p.0 == x;
      RankedEntry(fe, nodeLimit, p);
    }
  }

  /** The reduction keeps the nodes of highest degree: no endpoint left out
      has a larger degree than one kept, and among equal degrees the one that
      appears first as an endpoint wins. */
  lemma ReductionKeepsTopDegrees(nodes: seq<RawNode>, fe: seq<RawEdge>, nodeLimit: nat, showAll: bool,
                                 x: string, y: string)
    requires |Candidates(nodes, fe, showAll)| > nodeLimit
    requires x in KeptIds(nodes, fe, nodeLimit, showAll)
    requires y in EndpointSet(fe) && y !in KeptIds(nodes, fe, nodeLimit, showAll)
    ensures Degree(fe, x) >= Degree(fe, y)
    ensures Degree(fe, x) == Degree(fe, y) ==> IndexOf(Endpoints(fe), x) < IndexOf(Endpoints(fe), y)
  {
    var ends := Endpoints(fe);
    var es := DegreeEntries(fe);
    var r := SortByDegree(es);
    var ranked := Ranked(fe, nodeLimit);
    DegreeEntriesFacts(fe);
    SortPermutes(es);
    SortDescending(es);
    var p :| p in ranked && p.0 == x;
    RankedEntry(fe, nodeLimit, p);
    var i :| 0 <= i < |ranked| && ranked[i] == p;
    assert r[i] == p;
    var q := (y, Degree(fe, y));
    assert q in es;
    assert q in multiset(r);
    assert q in r;
    var j := IndexOf(r, q);
    NotRankedBehind(fe, nodeLimit, q);
    assert r[i].1 >= r[j].1;
    if p.1 == q.1 {
      TieBreak(fe, i, j);
    }
  }

  /** An entry whose id is not kept sits behind the ranked prefix. */
  lemma NotRankedBehind(fe: seq<RawEdge>, nodeLimit: nat, q: Entry)
    requires q in SortByDegree(DegreeEntries(fe)) && q.0 !in IdsOf(Ranked(fe, nodeLimit))
    ensures IndexOf(SortByDegree(DegreeEntries(fe)), q) >= |Ranked(fe, nodeLimit)|
  {
  }

  /** Two sorted entries of the same degree come in the order of first
      appearance of their ids. */
  lemma TieBreak(fe: seq<RawEdge>, i: nat, j: nat)
    requires i < j < |SortByDegree(DegreeEntries(fe))|
    requires SortByDegree(DegreeEntries(fe))[i].1 == SortByDegree(DegreeEntries(fe))[j].1
    ensures var r := SortByDegree(DegreeEntries(fe));
      IndexOf(Endpoints(fe), r[i].0) < IndexOf(Endpoints(fe), r[j].0)
  {
    var ends := Endpoints(fe);
    var es := DegreeEntries(fe);
    var r := SortByDegree(es);
    var p, q := r[i], r[j];
    var d := p.1;
    DegreeEntriesFacts(fe);
    SortPermutes(es);
    SortDistinct(es);
    SortStable(es, d);
    assert p in multiset(es) && q in multiset(es);
    IndexOfDistinct(r, i);
    IndexOfDistinct(r, j);
    FilterKeepsOrder(r, (e: Entry) => e.1 == d, p, q);
    FilterKeepsOrder(es, (e: Entry) => e.1 == d, p, q);
    var kp, kq := IndexOf(es, p), IndexOf(es, q);
    assert kp < kq;
    assert Dedup(ends)[kp] == p.0 && Dedup(ends)[kq] == q.0;
    DedupFirstAppearance(ends, kp, kq);
  }

  // ---------------------------------------------------------------------------
  // The elements

  /** With no graph, or a graph without lists, there is nothing to draw. */
  lemma NoGraphNoElements(nodeLimit: nat, minWeight: int, showAll: bool)
    ensures Elements(None, nodeLimit, minWeight, showAll) == []
    ensures Elements(Some(RawGraph(None, None)), nodeLimit, minWeight, showAll) == []
  {
  }

  /** Element i is node i, or, past the nodes, an edge. */
  lemma PartsAt(used: seq<RawNode>, ke: seq<RawEdge>, i: nat)
    requires i < |used| + |ke|
    ensures if i < |used| then (NodeElements(used) + EdgeElements(ke))[i] == NodeElementOf(used[i])
      else (NodeElements(used) + EdgeElements(ke))[i] == EdgeElementOf(ke[i - |used|])
  {
  }

  /** The edge part of the elements is the edge list, so each edge is drawn. */
  lemma EdgesDrawn(used: seq<RawNode>, ke: seq<RawEdge>)
    ensures (NodeElements(used) + EdgeElements(ke))[|used|..] == EdgeElements(ke)
    ensures forall e :: e in ke ==> EdgeElementOf(e) in NodeElements(used) + EdgeElements(ke)
  {
    forall e | e in ke ensures EdgeElementOf(e) in NodeElements(used) + EdgeElements(ke) {
      var k :| 0 <= k < |ke| && ke[k] == e;
      PartsAt(used, ke, |used| + k);
    }
  }

  /** Every edge drawn is an edge of the graph that passed the weight filter
      (a missing weight counting as 1, in the filter and in the element), and
      runs between nodes of the final node set; conversely every such edge
      is drawn, and the edges follow the node elements in their original
      order. */
  lemma ElementsEdges(raw: Option<RawGraph>, nodeLimit: nat, minWeight: int, showAll: bool)
    ensures forall i :: (0 <= i < |Elements(raw, nodeLimit, minWeight, showAll)|
      && Elements(raw, nodeLimit, minWeight, showAll)[i].EdgeElement?) ==>
        var el := Elements(raw, nodeLimit, minWeight, showAll)[i];
        && el.weight >= minWeight
        && el.source in Kept(raw, nodeLimit, minWeight, showAll)
        && el.target in Kept(raw, nodeLimit, minWeight, showAll)
        && exists e :: e in RawEdges(raw) && el == EdgeElementOf(e)
    ensures forall e :: (e in Heavy(RawEdges(raw), minWeight)
      && e.source in Kept(raw, nodeLimit, minWeight, showAll)
      && e.target in Kept(raw, nodeLimit, minWeight, showAll)) ==>
        EdgeElementOf(e) in Elements(raw, nodeLimit, minWeight, showAll)
    ensures Elements(raw, nodeLimit, minWeight, showAll)[|InSet(RawNodes(raw), Kept(raw, nodeLimit, minWeight, showAll))|..]
      == EdgeElements(Within(Heavy(RawEdges(raw), minWeight), Kept(raw, nodeLimit, minWeight, showAll)))
  {
    var nodes := RawNodes(raw);
    var fe := Heavy(RawEdges(raw), minWeight);
    var kept := Kept(raw, nodeLimit, minWeight, showAll);
    var used := InSet(nodes, kept);
    var ke := KeptEdges(nodes, fe, nodeLimit, showAll);
    var els := Elements(raw, nodeLimit, minWeight, showAll);
    assert els == NodeElements(used) + EdgeElements(ke);
    KeptEdgesClosed(nodes, fe, nodeLimit, showAll);
    FilterMembers(RawEdges(raw), (e: RawEdge) => Weight(e) >= minWeight);
    forall i | 0 <= i < |els| && els[i].EdgeElement?
      ensures els[i].weight >= minWeight && els[i].source in kept && els[i].target in kept
      ensures exists e :: e in RawEdges(raw) && els[i] == EdgeElementOf(e)
    {
      PartsAt(used, ke, i);
      var e := ke[i - |used|];
      assert e in ke;
      assert e in fe && e.source in kept && e.target in kept;
      assert e in RawEdges(raw) && Weight(e) >= minWeight;
    }
    EdgesDrawn(used, ke);
  }

  /** The nodes drawn are exactly the nodes of the graph whose id is in the
      final node set, each labelled with its label or else its id. */
  lemma ElementsNodes(raw: Option<RawGraph>, nodeLimit: nat, minWeight: int, showAll: bool)
    ensures forall n :: n in RawNodes(raw) && n.id in Kept(raw, nodeLimit, minWeight, showAll) ==>
      NodeElementOf(n) in Elements(raw, nodeLimit, minWeight, showAll)
    ensures forall i :: (0 <= i < |Elements(raw, nodeLimit, minWeight, showAll)|
      && Elements(raw, nodeLimit, minWeight, showAll)[i].NodeElement?) ==>
        exists n :: n in RawNodes(raw) && n.id in Kept(raw, nodeLimit, minWeight, showAll)
          && Elements(raw, nodeLimit, minWeight, showAll)[i] == NodeElementOf(n)
  {
    var nodes := RawNodes(raw);
    var fe := Heavy(RawEdges(raw), minWeight);
    var kept := Kept(raw, nodeLimit, minWeight, showAll);
    var used := InSet(nodes, kept);
    var ke := KeptEdges(nodes, fe, nodeLimit, showAll);
    var els := Elements(raw, nodeLimit, minWeight, showAll);
    assert els == NodeElements(used) + EdgeElements(ke);
    FilterMembers(nodes, (n: RawNode) => n.id in kept);
    forall n | n in nodes && n.id in kept ensures NodeElementOf(n) in els {
      var k :| 0 <= k < |used| && used[k] == n;
      PartsAt(used, ke, k);
    }
    forall i | 0 <= i < |els| && els[i].NodeElement?
      ensures exists n :: n in nodes && n.id in kept && els[i] == NodeElementOf(n)
    {
      PartsAt(used, ke, i);
      var n := used[i];
      assert n in used;
      assert n in nodes && n.id in kept;
    }
  }

  /** All node elements come before all edge elements. */
  lemma ElementsLayout(raw: Option<RawGraph>, nodeLimit: nat, minWeight: int, showAll: bool)
    ensures forall i, j :: (0 <= i < j < |Elements(raw, nodeLimit, minWeight, showAll)|
      && Elements(raw, nodeLimit, minWeight, showAll)[j].NodeElement?) ==>
        Elements(raw, nodeLimit, minWeight, showAll)[i].NodeElement?
  {
    var nodes := RawNodes(raw);
    var fe := Heavy(RawEdges(raw), minWeight);
    var n := |InSet(nodes, Kept(raw, nodeLimit, minWeight, showAll))|;
    var els := Elements(raw, nodeLimit, minWeight, showAll);
    forall k | 0 <= k < |els| ensures els[k].NodeElement? <==> k < n {
    }
  }
}

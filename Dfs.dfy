/** Depth-first search over the whole graph (DFS.cpp): DFS_Recursive colours
    its start Gray, walks its neighbour list and recurses into every White
    neighbour, then colours it Black; the DFS wrapper starts it from every
    vertex still White, in ascending order. Every visitor hook call becomes
    an event of the returned trace. */
module Dfs {
  import opened Seqs
  import opened Graph

  /** The shared colour vector and the events so far. */
  datatype DfsState = DfsState(color: seq<Color>, trace: seq<Event>)

  /** The colour vector has one entry per vertex of a closed neighbour-list view. */
  predicate Sized(adj: Adjacency, s: DfsState) {
    Closed(adj) && |s.color| == |adj|
  }

  /** DFS_Recursive(graph, u, visitor, color) on a White u: colour it Gray and
      discover it, scan its neighbours, colour it Black and finish it. The
      call uses up at least one White vertex: u itself. */
  function Visit(adj: Adjacency, u: nat, s: DfsState): (r: DfsState)
    requires Sized(adj, s) && u < |adj| && s.color[u] == White
    ensures Sized(adj, r)
    ensures CountWhite(r.color) < CountWhite(s.color)
    decreases CountWhite(s.color), 0, 0
  {
    CountWhiteUpdate(s.color, u, Gray);
    var s1 := DfsState(s.color[u := Gray], s.trace + [DiscoverVertex(u)]);
    var s2 := Scan(adj, u, 0, s1);
    CountWhiteUpdate(s2.color, u, Black);
    DfsState(s2.color[u := Black], s2.trace + [FinishVertex(u)])
  }

  /** The for-loop of DFS_Recursive over neighbors(u) from position k on:
      examine each edge, then either report a tree edge and recurse into the
      White target, or report a non-tree edge. */
  function Scan(adj: Adjacency, u: nat, k: nat, s: DfsState): (r: DfsState)
    requires Sized(adj, s) && u < |adj| && k <= |adj[u]|
    ensures Sized(adj, r)
    ensures CountWhite(r.color) <= CountWhite(s.color)
    decreases CountWhite(s.color), 1, |adj[u]| - k
  {
    if k == |adj[u]| then s
    else
      var v := adj[u][k];
      var t := s.trace + [ExamineEdge(u, v)];
      if s.color[v] == White then
        Scan(adj, u, k + 1, Visit(adj, v, DfsState(s.color, t + [TreeEdge(u, v)])))
      else
        Scan(adj, u, k + 1, DfsState(s.color, t + [NonTreeEdge(u, v)]))
  }

  /** The for-loop of the DFS wrapper from vertex u on. */
  function Roots(adj: Adjacency, u: nat, s: DfsState): (r: DfsState)
    requires Sized(adj, s) && u <= |adj|
    ensures Sized(adj, r)
    decreases |adj| - u
  {
    if u == |adj| then s
    else if s.color[u] == White then Roots(adj, u + 1, Visit(adj, u, s))
    else Roots(adj, u + 1, s)
  }

  /** The vertices the wrapper starts DFS_Recursive from, from vertex u on. */
  function RootList(adj: Adjacency, u: nat, s: DfsState): seq<nat>
    requires Sized(adj, s) && u <= |adj|
    decreases |adj| - u
  {
    if u == |adj| then []
    else if s.color[u] == White then [u] + RootList(adj, u + 1, Visit(adj, u, s))
    else RootList(adj, u + 1, s)
  }

  /** Every vertex White and nothing recorded yet. */
  function DfsStart(n: nat): DfsState {
    DfsState(seq(n, _ => White), [])
  }

  /** The state DFS(graph, visitor) ends in. */
  function DfsFinal(adj: Adjacency): DfsState
    requires Closed(adj)
  {
    Roots(adj, 0, DfsStart(|adj|))
  }

  /** The events DFS(graph, visitor) fires. */
  function DfsTrace(adj: Adjacency): seq<Event>
    requires Closed(adj)
  {
    DfsFinal(adj).trace
  }

  /** The roots of the DFS forest, in the order the wrapper takes them. */
  function DfsRoots(adj: Adjacency): seq<nat>
    requires Closed(adj)
  {
    RootList(adj, 0, DfsStart(|adj|))
  }

  /** DFS_Recursive as the source writes it; the visitor, passed by
      reference, is the trace threaded through the calls. */
  method DfsRecursive(adj: Adjacency, start: nat, color: array<Color>, trace0: seq<Event>) returns (trace: seq<Event>)
    requires Closed(adj) && color.Length == |adj| && start < |adj| && color[start] == White
    modifies color
    ensures DfsState(color[..], trace) == Visit(adj, start, DfsState(old(color[..]), trace0))
    decreases CountWhite(color[..])
  {
    ghost var s := DfsState(color[..], trace0);
    CountWhiteUpdate(color[..], start, Gray);
    color[start] := Gray;
    trace := trace0 + [DiscoverVertex(start)];
    ghost var s1 := DfsState(color[..], trace);
    assert s1 == DfsState(s.color[start := Gray], s.trace + [DiscoverVertex(start)]);
    for k := 0 to |adj[start]|
      invariant CountWhite(color[..]) < CountWhite(s.color)
      invariant Scan(adj, start, k, DfsState(color[..], trace)) == Scan(adj, start, 0, s1)
    {
      var v := adj[start][k];
      trace := trace + [ExamineEdge(start, v)];
      if color[v] == White {
        trace := trace + [TreeEdge(start, v)];
        trace := DfsRecursive(adj, v, color, trace);
      } else {
        trace := trace + [NonTreeEdge(start, v)];
      }
    }
    color[start] := Black;
    trace := trace + [FinishVertex(start)];
  }

  /** DFS as the source writes it, with the visitor replaced by the returned trace. */
  method DFS(adj: Adjacency) returns (trace: seq<Event>)
    requires Closed(adj)
    ensures trace == DfsTrace(adj)
  {
    var color := new Color[|adj|](_ => White);
    trace := [];
    assert DfsState(color[..], trace) == DfsStart(|adj|);
    for u := 0 to |adj|
      invariant Roots(adj, u, DfsState(color[..], trace)) == DfsFinal(adj)
    {
      if color[u] == White {
        trace := DfsRecursive(adj, u, color, trace);
      }
    }
  }

  // Correctness of the specification.

  /** What holds between any two events of a run: discovery and finish
      orders are duplicate-free vertex ids; a vertex is non-White exactly
      when discovered and Black exactly when finished; every examined edge
      is classified; examineVertex never fires. */
  ghost predicate Inv(adj: Adjacency, s: DfsState) {
    var d := Discovered(s.trace);
    var f := Finished(s.trace);
    && Sized(adj, s)
    && Distinct(d) && Distinct(f)
    && (forall x | x in d :: x < |adj|)
    && (forall x | x in f :: x < |adj|)
    && ColorsAgree(adj, s)
    && Paired(s.trace)
    && ExaminedVertices(s.trace) == []
  }

  /** A vertex is non-White exactly when discovered and Black exactly when finished. */
  ghost predicate ColorsAgree(adj: Adjacency, s: DfsState)
    requires |s.color| == |adj|
  {
    && (forall v | 0 <= v < |adj| :: s.color[v] != White <==> v in Discovered(s.trace))
    && (forall v | 0 <= v < |adj| :: s.color[v] == Black <==> v in Finished(s.trace))
  }

  /** From colours c to colours c': a vertex that was not White keeps its
      colour, and a White one never ends up Gray. */
  ghost predicate Advanced(c: seq<Color>, c': seq<Color>)
    requires |c| == |c'|
  {
    forall v | 0 <= v < |c| :: (c[v] != White ==> c'[v] == c[v]) && (c[v] == White ==> c'[v] != Gray)
  }

  lemma AdvancedTrans(c1: seq<Color>, c2: seq<Color>, c3: seq<Color>)
    requires |c1| == |c2| == |c3| && Advanced(c1, c2) && Advanced(c2, c3)
    ensures Advanced(c1, c3)
  {
  }

  /** Colouring White u Gray, advancing, then colouring u Black advances
      the original colours. */
  lemma AdvancedAround(c: seq<Color>, u: nat, c2: seq<Color>)
    requires |c| == |c2| && u < |c| && c[u] == White && Advanced(c[u := Gray], c2)
    ensures Advanced(c, c2[u := Black])
  {
    forall v | 0 <= v < |c| && v != u
      ensures c[u := Gray][v] == c[v]
    {
    }
  }

  /** Turning White u Gray as it is discovered keeps the colours in step. */
  lemma ColorsAfterGray(adj: Adjacency, s: DfsState, s1: DfsState, u: nat)
    requires |s.color| == |adj| && |s1.color| == |adj| && ColorsAgree(adj, s) && u < |adj| && s.color[u] == White
    requires s1.color == s.color[u := Gray]
    requires Discovered(s1.trace) == Discovered(s.trace) + [u] && Finished(s1.trace) == Finished(s.trace)
    ensures ColorsAgree(adj, s1)
  {
  }

  /** Turning Gray u Black as it finishes keeps the colours in step. */
  lemma ColorsAfterBlack(adj: Adjacency, s: DfsState, s3: DfsState, u: nat)
    requires |s.color| == |adj| && |s3.color| == |adj| && ColorsAgree(adj, s) && u < |adj| && s.color[u] == Gray
    requires s3.color == s.color[u := Black]
    requires Discovered(s3.trace) == Discovered(s.trace) && Finished(s3.trace) == Finished(s.trace) + [u]
    ensures ColorsAgree(adj, s3)
  {
  }

  /** Colouring White u Gray and discovering it. */
  lemma DiscoverStep(adj: Adjacency, u: nat, s: DfsState)
    requires Inv(adj, s) && u < |adj| && s.color[u] == White
    ensures var s1 := DfsState(s.color[u := Gray], s.trace + [DiscoverVertex(u)]);
      && Inv(adj, s1)
      && Discovered(s1.trace) == Discovered(s.trace) + [u]
      && TreeEdges(s1.trace) == TreeEdges(s.trace)
  {
    var s1 := DfsState(s.color[u := Gray], s.trace + [DiscoverVertex(u)]);
    Snoc(s.trace, DiscoverVertex(u));
    PairedSnocVertex(s.trace, DiscoverVertex(u));
    var d := Discovered(s.trace);
    assert u !in d;
    DistinctSnoc(d, u);
    ColorsAfterGray(adj, s, s1, u);
  }

  /** Colouring Gray u Black and finishing it. */
  lemma FinishStep(adj: Adjacency, u: nat, s: DfsState)
    requires Inv(adj, s) && u < |adj| && s.color[u] == Gray
    ensures var s3 := DfsState(s.color[u := Black], s.trace + [FinishVertex(u)]);
      && Inv(adj, s3)
      && Discovered(s3.trace) == Discovered(s.trace)
      && TreeEdges(s3.trace) == TreeEdges(s.trace)
  {
    var s3 := DfsState(s.color[u := Black], s.trace + [FinishVertex(u)]);
    Snoc(s.trace, FinishVertex(u));
    PairedSnocVertex(s.trace, FinishVertex(u));
    var f := Finished(s.trace);
    assert u !in f;
    DistinctSnoc(f, u);
    ColorsAfterBlack(adj, s, s3, u);
  }

  /** Examining an edge and classifying it changes no colour and no discovery. */
  lemma EdgeStep(adj: Adjacency, s: DfsState, u: nat, v: nat, tree: bool)
    requires Inv(adj, s)
    ensures var c := if tree then TreeEdge(u, v) else NonTreeEdge(u, v);
      var s' := DfsState(s.color, s.trace + [ExamineEdge(u, v)] + [c]);
      && Inv(adj, s')
      && Discovered(s'.trace) == Discovered(s.trace)
      && |TreeEdges(s'.trace)| == |TreeEdges(s.trace)| + (if tree then 1 else 0)
  {
    var c := if tree then TreeEdge(u, v) else NonTreeEdge(u, v);
    var t1 := s.trace + [ExamineEdge(u, v)];
    Snoc(s.trace, ExamineEdge(u, v));
    Snoc(t1, c);
    PairedSnocEdge(s.trace, u, v, tree);
  }

  /** A call of DFS_Recursive on White u keeps the invariant, ends with u
      Black, never leaves a vertex Gray that was White, and adds one tree
      edge for every vertex it discovers other than u. */
  lemma {:induction false} VisitFacts(adj: Adjacency, u: nat, s: DfsState)
    requires Inv(adj, s) && u < |adj| && s.color[u] == White
    ensures var r := Visit(adj, u, s);
      && Inv(adj, r)
      && r.color[u] == Black
      && Advanced(s.color, r.color)
      && |Discovered(r.trace)| + |TreeEdges(s.trace)| == |Discovered(s.trace)| + |TreeEdges(r.trace)| + 1
    decreases CountWhite(s.color), 0, 0
  {
    CountWhiteUpdate(s.color, u, Gray);
    var s1 := DfsState(s.color[u := Gray], s.trace + [DiscoverVertex(u)]);
    DiscoverStep(adj, u, s);
    ScanFacts(adj, u, 0, s1);
    var s2 := Scan(adj, u, 0, s1);
    FinishStep(adj, u, s2);
    AdvancedAround(s.color, u, s2.color);
  }

  /** Scanning the neighbours of Gray u from position k on keeps the
      invariant and u Gray, never leaves a vertex Gray that was White, and
      adds one tree edge for every vertex it discovers. */
  lemma {:induction false} ScanFacts(adj: Adjacency, u: nat, k: nat, s: DfsState)
    requires Inv(adj, s) && u < |adj| && k <= |adj[u]| && s.color[u] == Gray
    ensures var r := Scan(adj, u, k, s);
      && Inv(adj, r)
      && r.color[u] == Gray
      && Advanced(s.color, r.color)
      && |Discovered(r.trace)| + |TreeEdges(s.trace)| == |Discovered(s.trace)| + |TreeEdges(r.trace)|
    decreases CountWhite(s.color), 1, |adj[u]| - k
  {
    if k < |adj[u]| {
      var v := adj[u][k];
      var t := s.trace + [ExamineEdge(u, v)];
      if s.color[v] == White {
        var s' := DfsState(s.color, t + [TreeEdge(u, v)]);
        EdgeStep(adj, s, u, v, true);
        VisitFacts(adj, v, s');
        var s'' := Visit(adj, v, s');
        assert Scan(adj, u, k, s) == Scan(adj, u, k + 1, s'');
        ScanFacts(adj, u, k + 1, s'');
        AdvancedTrans(s.color, s''.color, Scan(adj, u, k + 1, s'').color);
      } else {
        var s' := DfsState(s.color, t + [NonTreeEdge(u, v)]);
        EdgeStep(adj, s, u, v, false);
        assert Scan(adj, u, k, s) == Scan(adj, u, k + 1, s');
        ScanFacts(adj, u, k + 1, s');
      }
    }
  }

  /** A call of DFS_Recursive on u only appends to the trace: first the
      discovery of u, last its finish. */
  lemma {:induction false} VisitExtends(adj: Adjacency, u: nat, s: DfsState)
    requires Sized(adj, s) && u < |adj| && s.color[u] == White
    ensures var r := Visit(adj, u, s);
      && |s.trace| < |r.trace| && r.trace[..|s.trace|] == s.trace
      && r.trace[|s.trace|] == DiscoverVertex(u) && r.trace[|r.trace| - 1] == FinishVertex(u)
    decreases CountWhite(s.color), 0, 0
  {
    CountWhiteUpdate(s.color, u, Gray);
    var s1 := DfsState(s.color[u := Gray], s.trace + [DiscoverVertex(u)]);
    ScanExtends(adj, u, 0, s1);
    var s2 := Scan(adj, u, 0, s1);
    var r := Visit(adj, u, s);
    assert r.trace == s2.trace + [FinishVertex(u)];
    assert r.trace[..|s1.trace|] == s2.trace[..|s1.trace|] == s1.trace;
    assert r.trace[..|s.trace|] == s1.trace[..|s.trace|];
  }

  /** Scanning the neighbours of u only appends to the trace. */
  lemma {:induction false} ScanExtends(adj: Adjacency, u: nat, k: nat, s: DfsState)
    requires Sized(adj, s) && u < |adj| && k <= |adj[u]|
    ensures var r := Scan(adj, u, k, s);
      |s.trace| <= |r.trace| && r.trace[..|s.trace|] == s.trace
    decreases CountWhite(s.color), 1, |adj[u]| - k
  {
    if k < |adj[u]| {
      var v := adj[u][k];
      var t := s.trace + [ExamineEdge(u, v)];
      var s';
      if s.color[v] == White {
        var s0 := DfsState(s.color, t + [TreeEdge(u, v)]);
        VisitExtends(adj, v, s0);
        s' := Visit(adj, v, s0);
        assert s'.trace[..|s.trace|] == s'.trace[..|s0.trace|][..|s.trace|];
      } else {
        s' := DfsState(s.color, t + [NonTreeEdge(u, v)]);
      }
      assert Scan(adj, u, k, s) == Scan(adj, u, k + 1, s');
      ScanExtends(adj, u, k + 1, s');
      var r := Scan(adj, u, k + 1, s');
      assert r.trace[..|s.trace|] == r.trace[..|s'.trace|][..|s.trace|];
    }
  }

  /** The recorded orders of a call's own events: its first event
      discovers u, so u is the first vertex it discovers. */
  lemma FirstDiscovered(sub: seq<Event>, u: nat)
    requires |sub| > 0 && sub[0] == DiscoverVertex(u)
    ensures |Discovered(sub)| > 0 && Discovered(sub)[0] == u
  {
    assert sub == [DiscoverVertex(u)] + sub[1..];
    Append([DiscoverVertex(u)], sub[1..]);
    Snoc([], DiscoverVertex(u));
    assert [] + [DiscoverVertex(u)] == [DiscoverVertex(u)];
  }

  /** The vertices a call discovers are the vertices it finishes: each was
      White before, and the call leaves no vertex Gray that was White. */
  lemma SameVertices(adj: Adjacency, s: DfsState, r: DfsState, sub: seq<Event>)
    requires Inv(adj, s) && Inv(adj, r) && Advanced(s.color, r.color)
    requires r.trace == s.trace + sub
    ensures forall v :: v in Discovered(sub) <==> v in Finished(sub)
  {
    Append(s.trace, sub);
    DistinctAppend(Discovered(s.trace), Discovered(sub));
    DistinctAppend(Finished(s.trace), Finished(sub));
    forall v
      ensures v in Discovered(sub) <==> v in Finished(sub)
    {
      if v in Discovered(sub) {
        assert v in Discovered(r.trace);
        assert s.color[v] == White;
      }
      if v in Finished(sub) {
        assert v in Finished(r.trace) && v !in Finished(s.trace);
      }
    }
  }

  /** sub is the events of one call on u: it opens with the discovery of
      u, closes with its finish, and finishes exactly what it discovers. */
  ghost predicate Nest(sub: seq<Event>, u: nat) {
    && |sub| > 0 && sub[0] == DiscoverVertex(u) && sub[|sub| - 1] == FinishVertex(u)
    && |Discovered(sub)| > 0 && Discovered(sub)[0] == u
    && (forall v :: v in Discovered(sub) <==> v in Finished(sub))
  }

  /** Discover and finish events nest: a call of DFS_Recursive on u appends
      events that open with the discovery of u, close with its finish, and
      finish every vertex they discover. */
  lemma NestedVisit(adj: Adjacency, u: nat, s: DfsState, r: DfsState)
    requires Inv(adj, s) && u < |adj| && s.color[u] == White
    requires r == Visit(adj, u, s)
    ensures |s.trace| < |r.trace|
    ensures r.trace == s.trace + r.trace[|s.trace|..]
    ensures Nest(r.trace[|s.trace|..], u)
  {
    VisitFacts(adj, u, s);
    VisitExtends(adj, u, s);
    var sub := r.trace[|s.trace|..];
    PrefixRest(s.trace, r.trace);
    FirstDiscovered(sub, u);
    SameVertices(adj, s, r, sub);
  }

  /** No vertex is Gray between two calls of DFS_Recursive from the wrapper. */
  ghost predicate NoGray(c: seq<Color>) {
    forall v | 0 <= v < |c| :: c[v] != Gray
  }

  /** A call from the wrapper on the White vertex u leaves u and every
      vertex below it non-White and no vertex Gray. */
  lemma RootStep(adj: Adjacency, u: nat, s: DfsState)
    requires Inv(adj, s) && u < |adj| && s.color[u] == White && NoGray(s.color)
    requires forall v | 0 <= v < u :: s.color[v] != White
    ensures var s' := Visit(adj, u, s);
      && Inv(adj, s') && NoGray(s'.color)
      && (forall v | 0 <= v < u + 1 :: s'.color[v] != White)
      && |Discovered(s'.trace)| + |TreeEdges(s.trace)| == |Discovered(s.trace)| + |TreeEdges(s'.trace)| + 1
  {
    VisitFacts(adj, u, s);
  }

  /** The wrapper loop from u on keeps the invariant, leaves every vertex
      Black, and adds one tree edge per vertex discovered other than a root. */
  lemma {:induction false} RootsFacts(adj: Adjacency, u: nat, s: DfsState)
    requires Inv(adj, s) && u <= |adj| && NoGray(s.color)
    requires forall v | 0 <= v < u :: s.color[v] != White
    ensures var r := Roots(adj, u, s);
      && Inv(adj, r)
      && (forall v | 0 <= v < |adj| :: r.color[v] == Black)
      && |Discovered(r.trace)| + |TreeEdges(s.trace)| == |Discovered(s.trace)| + |TreeEdges(r.trace)| + |RootList(adj, u, s)|
    decreases |adj| - u, 1
  {
    if u < |adj| {
      if s.color[u] == White {
        RootsFactsWhite(adj, u, s);
      } else {
        assert Roots(adj, u, s) == Roots(adj, u + 1, s);
        assert RootList(adj, u, s) == RootList(adj, u + 1, s);
        RootsFacts(adj, u + 1, s);
      }
    }
  }

  /** RootsFacts when the wrapper starts a DFS tree at u. */
  lemma {:induction false} RootsFactsWhite(adj: Adjacency, u: nat, s: DfsState)
    requires Inv(adj, s) && u < |adj| && NoGray(s.color) && s.color[u] == White
    requires forall v | 0 <= v < u :: s.color[v] != White
    ensures var r := Roots(adj, u, s);
      && Inv(adj, r)
      && (forall v | 0 <= v < |adj| :: r.color[v] == Black)
      && |Discovered(r.trace)| + |TreeEdges(s.trace)| == |Discovered(s.trace)| + |TreeEdges(r.trace)| + |RootList(adj, u, s)|
    decreases |adj| - u, 0
  {
    RootStep(adj, u, s);
    RootsWhite(adj, u, s);
    RootsFacts(adj, u + 1, Visit(adj, u, s));
  }

  /** Every vertex with a smaller id than a root is discovered before that root. */
  ghost predicate RootsFirst(d: seq<nat>, roots: seq<nat>) {
    forall p, q | 0 <= p < |d| && 0 <= q < |d| && d[p] in roots && d[q] < d[p] :: q < p
  }

  /** The wrapper takes its roots in ascending order, each at least u, and
      takes u itself first when u is White. */
  lemma {:induction false} RootsBounds(adj: Adjacency, u: nat, s: DfsState)
    requires Sized(adj, s) && u <= |adj|
    ensures StrictlyIncreasing(RootList(adj, u, s))
    ensures forall x | x in RootList(adj, u, s) :: u <= x < |adj|
    ensures u < |adj| && s.color[u] == White ==> |RootList(adj, u, s)| > 0 && RootList(adj, u, s)[0] == u
    decreases |adj| - u
  {
    if u < |adj| {
      if s.color[u] == White {
        var rest := RootList(adj, u + 1, Visit(adj, u, s));
        assert RootList(adj, u, s) == [u] + rest;
        RootsBounds(adj, u + 1, Visit(adj, u, s));
        IncreasingCons(u, rest);
      } else {
        assert RootList(adj, u, s) == RootList(adj, u + 1, s);
        RootsBounds(adj, u + 1, s);
      }
    }
  }

  /** One wrapper step on a White u, unfolded. */
  lemma RootsWhite(adj: Adjacency, u: nat, s: DfsState)
    requires Sized(adj, s) && u < |adj| && s.color[u] == White
    ensures Roots(adj, u, s) == Roots(adj, u + 1, Visit(adj, u, s))
    ensures RootList(adj, u, s) == [u] + RootList(adj, u + 1, Visit(adj, u, s))
  {
  }

  /** Each root is the smallest vertex not yet discovered when the wrapper
      takes it: every vertex with a smaller id is discovered earlier. */
  lemma {:induction false} RootsOrder(adj: Adjacency, u: nat, s: DfsState)
    requires Inv(adj, s) && u <= |adj| && NoGray(s.color)
    requires forall v | 0 <= v < u :: s.color[v] != White
    ensures RootsFirst(Discovered(Roots(adj, u, s).trace), RootList(adj, u, s))
    decreases |adj| - u, 1
  {
    if u < |adj| {
      if s.color[u] == White {
        RootsOrderWhite(adj, u, s);
      } else {
        assert Roots(adj, u, s) == Roots(adj, u + 1, s);
        assert RootList(adj, u, s) == RootList(adj, u + 1, s);
        RootsOrder(adj, u + 1, s);
      }
    }
  }

  lemma {:induction false} RootsOrderWhite(adj: Adjacency, u: nat, s: DfsState)
    requires Inv(adj, s) && u < |adj| && NoGray(s.color) && s.color[u] == White
    requires forall v | 0 <= v < u :: s.color[v] != White
    ensures RootsFirst(Discovered(Roots(adj, u, s).trace), RootList(adj, u, s))
    decreases |adj| - u, 0
  {
    var s' := Visit(adj, u, s);
    var d := Discovered(s.trace);
    var dr := Discovered(Roots(adj, u + 1, s').trace);
    var rest := RootList(adj, u + 1, s');
    var e := VisitDiscovers(adj, u, s);
    assert RootsFirst(dr, rest) && Distinct(dr) && Prefix(d + e, dr) by {
      RootStep(adj, u, s);
      RootsOrder(adj, u + 1, s');
      RootsDistinct(adj, u + 1, s');
      RootsExtends(adj, u + 1, s');
    }
    assert forall v | 0 <= v < u :: v in d by {
      BelowDiscovered(adj, u, s);
    }
    RootOrderStep(d, e, dr, u, rest);
    RootsWhite(adj, u, s);
  }

  /** The wrapper loop only appends to the trace, so it only appends to the discovery order. */
  lemma {:induction false} RootsExtends(adj: Adjacency, u: nat, s: DfsState)
    requires Sized(adj, s) && u <= |adj|
    ensures Prefix(Discovered(s.trace), Discovered(Roots(adj, u, s).trace))
    decreases |adj| - u
  {
    if u < |adj| {
      var s' := if s.color[u] == White then Visit(adj, u, s) else s;
      var r := Roots(adj, u + 1, s');
      assert Roots(adj, u, s) == r;
      RootsExtends(adj, u + 1, s');
      if s.color[u] == White {
        VisitExtends(adj, u, s);
        var sub := s'.trace[|s.trace|..];
        assert s'.trace == s.trace + sub;
        Append(s.trace, sub);
        assert Prefix(Discovered(s.trace), Discovered(s'.trace));
        PrefixTrans(Discovered(s.trace), Discovered(s'.trace), Discovered(r.trace));
      }
    } else {
      assert Discovered(s.trace)[..|Discovered(s.trace)|] == Discovered(s.trace);
    }
  }

  lemma RootsDistinct(adj: Adjacency, u: nat, s: DfsState)
    requires Inv(adj, s) && u <= |adj| && NoGray(s.color)
    requires forall v | 0 <= v < u :: s.color[v] != White
    ensures Distinct(Discovered(Roots(adj, u, s).trace))
  {
    RootsFacts(adj, u, s);
  }

  /** A call on White u appends to the discovery order a run that starts with u. */
  lemma VisitDiscovers(adj: Adjacency, u: nat, s: DfsState) returns (e: seq<nat>)
    requires Inv(adj, s) && u < |adj| && s.color[u] == White
    ensures Discovered(Visit(adj, u, s).trace) == Discovered(s.trace) + e
    ensures |e| > 0 && e[0] == u
  {
    var s' := Visit(adj, u, s);
    NestedVisit(adj, u, s, s');
    var sub := s'.trace[|s.trace|..];
    Append(s.trace, sub);
    e := Discovered(sub);
  }

  lemma BelowDiscovered(adj: Adjacency, u: nat, s: DfsState)
    requires Inv(adj, s) && u <= |adj|
    requires forall v | 0 <= v < u :: s.color[v] != White
    ensures forall v | 0 <= v < u :: v in Discovered(s.trace)
  {
  }

  /** One White root u, in terms of discovery orders: d before the call,
      e discovered by the call (u first), dr at the end of the wrapper. */
  lemma RootOrderStep(d: seq<nat>, e: seq<nat>, dr: seq<nat>, u: nat, rest: seq<nat>)
    requires |e| > 0 && e[0] == u
    requires Prefix(d + e, dr) && Distinct(dr)
    requires forall v | 0 <= v < u :: v in d
    requires RootsFirst(dr, rest)
    ensures RootsFirst(dr, [u] + rest)
  {
    var roots := [u] + rest;
    assert dr[..|d|] == d by {
      assert dr[..|d|] == dr[..|d + e|][..|d|];
    }
    assert dr[|d|] == u by {
      assert dr[|d|] == dr[..|d + e|][|d|] == (d + e)[|d|];
    }
    forall p, q | 0 <= p < |dr| && 0 <= q < |dr| && dr[p] in roots && dr[q] < dr[p]
      ensures q < p
    {
      if dr[p] == u {
        assert p == |d|;
        assert dr[q] in d;
        var q' :| 0 <= q' < |d| && d[q'] == dr[q];
        assert dr[q'] == dr[q];
      }
    }
  }

  // What DFS promises about a whole run.

  lemma InitialInv(adj: Adjacency)
    requires Closed(adj)
    ensures Inv(adj, DfsStart(|adj|)) && NoGray(DfsStart(|adj|).color)
  {
  }

  /** DFS discovers and finishes every vertex exactly once, leaves every
      vertex Black, classifies every examined edge, never fires
      examineVertex, and adds one tree edge per vertex that is not a root
      of the forest. */
  lemma DfsCorrect(adj: Adjacency)
    requires Closed(adj)
    ensures var r := DfsFinal(adj);
      var t := r.trace;
      && Distinct(Discovered(t)) && |Discovered(t)| == |adj|
      && (forall v: nat :: v in Discovered(t) <==> v < |adj|)
      && Distinct(Finished(t)) && |Finished(t)| == |adj|
      && (forall v: nat :: v in Finished(t) <==> v < |adj|)
      && (forall v | 0 <= v < |adj| :: r.color[v] == Black)
      && EdgesClassified(t)
      && ExaminedVertices(t) == []
      && |TreeEdges(t)| + |DfsRoots(adj)| == |adj|
  {
    InitialInv(adj);
    RootsFacts(adj, 0, DfsStart(|adj|));
    var r := DfsFinal(adj);
    var t := r.trace;
    forall v: nat | v < |adj|
      ensures v in Discovered(t) && v in Finished(t)
    {
      assert r.color[v] == Black;
    }
    PairedClassified(t);
    PermutationLength(Discovered(t), |adj|);
    PermutationLength(Finished(t), |adj|);
  }

  /** The forest's roots come in ascending order starting at vertex 0, and
      each root is discovered after every vertex with a smaller id. */
  lemma DfsRootsOrder(adj: Adjacency)
    requires Closed(adj)
    ensures var roots := DfsRoots(adj);
      && StrictlyIncreasing(roots)
      && (forall x | x in roots :: x < |adj|)
      && (|adj| > 0 ==> |roots| > 0 && roots[0] == 0)
      && RootsFirst(Discovered(DfsTrace(adj)), roots)
  {
    InitialInv(adj);
    RootsBounds(adj, 0, DfsStart(|adj|));
    RootsOrder(adj, 0, DfsStart(|adj|));
  }

  // Runs on the graphs of the DFS tests, as a matrix graph lists their neighbours.

  /** Once every vertex is Black the wrapper takes no further root. */
  lemma {:induction false} RootsAllBlack(adj: Adjacency, u: nat, s: DfsState)
    requires Sized(adj, s) && u <= |adj|
    requires forall v | 0 <= v < |adj| :: s.color[v] == Black
    ensures Roots(adj, u, s) == s && RootList(adj, u, s) == []
    decreases |adj| - u
  {
    if u < |adj| {
      RootsAllBlack(adj, u + 1, s);
    }
  }

  /** The undirected path 0-1-2-3. */
  const PathGraph: Adjacency := [[1], [0, 2], [1, 3], [2]]

  /** One call of DFS_Recursive, unfolded: what its opening and closing
      events add to the recorded orders. */
  lemma VisitUnfold(adj: Adjacency, u: nat, s: DfsState)
    requires Sized(adj, s) && u < |adj| && s.color[u] == White
    ensures var s1 := DfsState(s.color[u := Gray], s.trace + [DiscoverVertex(u)]);
      var s2 := Scan(adj, u, 0, s1);
      var r := Visit(adj, u, s);
      && r == DfsState(s2.color[u := Black], s2.trace + [FinishVertex(u)])
      && Discovered(s1.trace) == Discovered(s.trace) + [u]
      && TreeEdges(s1.trace) == TreeEdges(s.trace) && NonTreeEdges(s1.trace) == NonTreeEdges(s.trace)
      && Discovered(r.trace) == Discovered(s2.trace)
      && TreeEdges(r.trace) == TreeEdges(s2.trace) && NonTreeEdges(r.trace) == NonTreeEdges(s2.trace)
  {
    Snoc(s.trace, DiscoverVertex(u));
    var s2 := Scan(adj, u, 0, DfsState(s.color[u := Gray], s.trace + [DiscoverVertex(u)]));
    Snoc(s2.trace, FinishVertex(u));
  }

  /** One iteration of the neighbour loop on a White neighbour, unfolded:
      the edge is recorded as a tree edge and the neighbour is visited. */
  lemma ScanTree(adj: Adjacency, u: nat, k: nat, s: DfsState)
    requires Sized(adj, s) && u < |adj| && k < |adj[u]| && s.color[adj[u][k]] == White
    ensures var v := adj[u][k];
      var s' := DfsState(s.color, s.trace + [ExamineEdge(u, v)] + [TreeEdge(u, v)]);
      && Discovered(s'.trace) == Discovered(s.trace)
      && TreeEdges(s'.trace) == TreeEdges(s.trace) + [(u, v)]
      && NonTreeEdges(s'.trace) == NonTreeEdges(s.trace)
      && Scan(adj, u, k, s) == Scan(adj, u, k + 1, Visit(adj, v, s'))
  {
    var v := adj[u][k];
    Snoc(s.trace, ExamineEdge(u, v));
    Snoc(s.trace + [ExamineEdge(u, v)], TreeEdge(u, v));
  }

  /** One iteration of the neighbour loop on a non-White neighbour,
      unfolded: the edge is recorded as a non-tree edge. */
  lemma ScanNonTree(adj: Adjacency, u: nat, k: nat, s: DfsState)
    requires Sized(adj, s) && u < |adj| && k < |adj[u]| && s.color[adj[u][k]] != White
    ensures var v := adj[u][k];
      var s' := DfsState(s.color, s.trace + [ExamineEdge(u, v)] + [NonTreeEdge(u, v)]);
      && Discovered(s'.trace) == Discovered(s.trace)
      && TreeEdges(s'.trace) == TreeEdges(s.trace)
      && NonTreeEdges(s'.trace) == NonTreeEdges(s.trace) + [(u, v)]
      && Scan(adj, u, k, s) == Scan(adj, u, k + 1, s')
  {
    var v := adj[u][k];
    Snoc(s.trace, ExamineEdge(u, v));
    Snoc(s.trace + [ExamineEdge(u, v)], NonTreeEdge(u, v));
  }

  /** The neighbour lists of the path 0-1-2-3, without fixing the literal. */
  predicate PathShape(adj: Adjacency) {
    Closed(adj) && |adj| == 4 && adj[0] == [1] && adj[1] == [0, 2] && adj[2] == [1, 3] && adj[3] == [2]
  }

  lemma PathVisit3(adj: Adjacency, c: seq<Color>, t: seq<Event>)
    requires PathShape(adj)
    requires |c| == 4 && c[3] == White && c[2] != White
    ensures var r := Visit(adj, 3, DfsState(c, t));
      && r.color[0] == c[0] && r.color[1] == c[1] && r.color[2] == c[2] && r.color[3] == Black
      && Discovered(r.trace) == Discovered(t) + [3]
  {
    var s1 := DfsState(c[3 := Gray], t + [DiscoverVertex(3)]);
    VisitUnfold(adj, 3, DfsState(c, t));
    ScanNonTree(adj, 3, 0, s1);
    var s2 := DfsState(s1.color, s1.trace + [ExamineEdge(3, 2)] + [NonTreeEdge(3, 2)]);
    assert Scan(adj, 3, 1, s2) == s2;
  }

  lemma PathVisit2(adj: Adjacency, c: seq<Color>, t: seq<Event>)
    requires PathShape(adj)
    requires |c| == 4 && c[2] == White && c[3] == White && c[1] != White
    ensures var r := Visit(adj, 2, DfsState(c, t));
      && r.color[0] == c[0] && r.color[1] == c[1] && r.color[2] == Black && r.color[3] == Black
      && Discovered(r.trace) == Discovered(t) + [2] + [3]
  {
    var s1 := DfsState(c[2 := Gray], t + [DiscoverVertex(2)]);
    VisitUnfold(adj, 2, DfsState(c, t));
    ScanNonTree(adj, 2, 0, s1);
    var s2 := DfsState(s1.color, s1.trace + [ExamineEdge(2, 1)] + [NonTreeEdge(2, 1)]);
    ScanTree(adj, 2, 1, s2);
    var s3 := DfsState(s2.color, s2.trace + [ExamineEdge(2, 3)] + [TreeEdge(2, 3)]);
    PathVisit3(adj, s3.color, s3.trace);
    var r3 := Visit(adj, 3, s3);
    assert Scan(adj, 2, 2, r3) == r3;
  }

  lemma PathVisit1(adj: Adjacency, c: seq<Color>, t: seq<Event>)
    requires PathShape(adj)
    requires |c| == 4 && c[1] == White && c[2] == White && c[3] == White && c[0] != White
    ensures var r := Visit(adj, 1, DfsState(c, t));
      && r.color[0] == c[0] && r.color[1] == Black && r.color[2] == Black && r.color[3] == Black
      && Discovered(r.trace) == Discovered(t) + [1] + [2] + [3]
  {
    var s1 := DfsState(c[1 := Gray], t + [DiscoverVertex(1)]);
    VisitUnfold(adj, 1, DfsState(c, t));
    ScanNonTree(adj, 1, 0, s1);
    var s2 := DfsState(s1.color, s1.trace + [ExamineEdge(1, 0)] + [NonTreeEdge(1, 0)]);
    ScanTree(adj, 1, 1, s2);
    var s3 := DfsState(s2.color, s2.trace + [ExamineEdge(1, 2)] + [TreeEdge(1, 2)]);
    PathVisit2(adj, s3.color, s3.trace);
    var r2 := Visit(adj, 2, s3);
    assert Scan(adj, 1, 2, r2) == r2;
  }

  lemma PathVisit0(adj: Adjacency, t: seq<Event>)
    requires PathShape(adj)
    ensures var r := Visit(adj, 0, DfsState(seq(4, _ => White), t));
      && r.color[0] == Black && r.color[1] == Black && r.color[2] == Black && r.color[3] == Black
      && Discovered(r.trace) == Discovered(t) + [0] + [1] + [2] + [3]
  {
    var c := seq(4, _ => White);
    var s1 := DfsState(c[0 := Gray], t + [DiscoverVertex(0)]);
    VisitUnfold(adj, 0, DfsState(c, t));
    ScanTree(adj, 0, 0, s1);
    var s2 := DfsState(s1.color, s1.trace + [ExamineEdge(0, 1)] + [TreeEdge(0, 1)]);
    PathVisit1(adj, s2.color, s2.trace);
    var r1 := Visit(adj, 1, s2);
    assert Scan(adj, 0, 1, r1) == r1;
  }

  /** DFS over the path 0-1-2-3 discovers 0, 1, 2, 3 in that order. */
  lemma PathDiscoverOrder()
    ensures Closed(PathGraph)
    ensures Discovered(DfsTrace(PathGraph)) == [0, 1, 2, 3]
  {
    var s0 := DfsStart(4);
    PathVisit0(PathGraph, []);
    var r := Visit(PathGraph, 0, s0);
    assert Roots(PathGraph, 0, s0) == Roots(PathGraph, 1, r);
    RootsAllBlack(PathGraph, 1, r);
  }

  /** A call on a White vertex without neighbours discovers and finishes it alone. */
  lemma LeafVisit(adj: Adjacency, u: nat, s: DfsState)
    requires Sized(adj, s) && u < |adj| && s.color[u] == White && adj[u] == []
    ensures var r := Visit(adj, u, s);
      && r.color == s.color[u := Black]
      && Discovered(r.trace) == Discovered(s.trace) + [u]
      && TreeEdges(r.trace) == TreeEdges(s.trace)
      && NonTreeEdges(r.trace) == NonTreeEdges(s.trace)
  {
    VisitUnfold(adj, u, s);
    assert s.color[u := Gray][u := Black] == s.color[u := Black];
  }

  /** The directed chain 0 -> 1 -> 2 on four vertices. */
  const ChainGraph: Adjacency := [[1], [2], [], []]

  predicate ChainShape(adj: Adjacency) {
    Closed(adj) && |adj| == 4 && adj[0] == [1] && adj[1] == [2] && adj[2] == [] && adj[3] == []
  }

  lemma ChainVisit1(adj: Adjacency, c: seq<Color>, t: seq<Event>)
    requires ChainShape(adj)
    requires |c| == 4 && c[1] == White && c[2] == White
    ensures var r := Visit(adj, 1, DfsState(c, t));
      && r.color == c[1 := Black][2 := Black]
      && TreeEdges(r.trace) == TreeEdges(t) + [(1, 2)]
  {
    var s1 := DfsState(c[1 := Gray], t + [DiscoverVertex(1)]);
    VisitUnfold(adj, 1, DfsState(c, t));
    ScanTree(adj, 1, 0, s1);
    var s2 := DfsState(s1.color, s1.trace + [ExamineEdge(1, 2)] + [TreeEdge(1, 2)]);
    LeafVisit(adj, 2, s2);
    var r2 := Visit(adj, 2, s2);
    assert Scan(adj, 1, 1, r2) == r2;
    assert c[1 := Gray][2 := Black][1 := Black] == c[1 := Black][2 := Black];
  }

  lemma ChainVisit0(adj: Adjacency, t: seq<Event>)
    requires ChainShape(adj)
    ensures var r := Visit(adj, 0, DfsState(seq(4, _ => White), t));
      && r.color == [Black, Black, Black, White]
      && TreeEdges(r.trace) == TreeEdges(t) + [(0, 1), (1, 2)]
  {
    var c := seq(4, _ => White);
    var s1 := DfsState(c[0 := Gray], t + [DiscoverVertex(0)]);
    VisitUnfold(adj, 0, DfsState(c, t));
    ScanTree(adj, 0, 0, s1);
    var s2 := DfsState(s1.color, s1.trace + [ExamineEdge(0, 1)] + [TreeEdge(0, 1)]);
    ChainVisit1(adj, s2.color, s2.trace);
    var r1 := Visit(adj, 1, s2);
    assert Scan(adj, 0, 1, r1) == r1;
  }

  /** DFS over the directed chain 0 -> 1 -> 2 (vertex 3 isolated) reports
      the tree edges (0, 1) and (1, 2), in that order, and takes 0 and 3 as roots. */
  lemma ChainTreeEdges()
    ensures Closed(ChainGraph)
    ensures TreeEdges(DfsTrace(ChainGraph)) == [(0, 1), (1, 2)]
    ensures DfsRoots(ChainGraph) == [0, 3]
  {
    var s0 := DfsStart(4);
    ChainVisit0(ChainGraph, []);
    var r0 := Visit(ChainGraph, 0, s0);
    assert Roots(ChainGraph, 0, s0) == Roots(ChainGraph, 3, r0);
    assert RootList(ChainGraph, 0, s0) == [0] + RootList(ChainGraph, 3, r0);
    LeafVisit(ChainGraph, 3, r0);
    var r3 := Visit(ChainGraph, 3, r0);
    assert Roots(ChainGraph, 3, r0) == Roots(ChainGraph, 4, r3) == r3;
    assert RootList(ChainGraph, 3, r0) == [3];
  }

  /** The undirected triangle 0-1-2 on four vertices (vertex 3 isolated). */
  const TriangleGraph: Adjacency := [[1, 2], [0, 2], [0, 1], []]

  predicate TriangleShape(adj: Adjacency) {
    Closed(adj) && |adj| == 4 && adj[0] == [1, 2] && adj[1] == [0, 2] && adj[2] == [0, 1] && adj[3] == []
  }

  lemma TriangleVisit2(adj: Adjacency, c: seq<Color>, t: seq<Event>)
    requires TriangleShape(adj)
    requires |c| == 4 && c[2] == White && c[0] != White && c[1] != White
    ensures var r := Visit(adj, 2, DfsState(c, t));
      && r.color[0] == c[0] && r.color[1] == c[1] && r.color[2] == Black && r.color[3] == c[3]
      && NonTreeEdges(r.trace) == NonTreeEdges(t) + [(2, 0)] + [(2, 1)]
  {
    var s1 := DfsState(c[2 := Gray], t + [DiscoverVertex(2)]);
    VisitUnfold(adj, 2, DfsState(c, t));
    ScanNonTree(adj, 2, 0, s1);
    var s2 := DfsState(s1.color, s1.trace + [ExamineEdge(2, 0)] + [NonTreeEdge(2, 0)]);
    ScanNonTree(adj, 2, 1, s2);
    var s3 := DfsState(s2.color, s2.trace + [ExamineEdge(2, 1)] + [NonTreeEdge(2, 1)]);
    assert Scan(adj, 2, 2, s3) == s3;
  }

  lemma TriangleVisit1(adj: Adjacency, c: seq<Color>, t: seq<Event>)
    requires TriangleShape(adj)
    requires |c| == 4 && c[1] == White && c[2] == White && c[0] != White
    ensures var r := Visit(adj, 1, DfsState(c, t));
      && r.color[0] == c[0] && r.color[1] == Black && r.color[2] == Black && r.color[3] == c[3]
      && NonTreeEdges(r.trace) == NonTreeEdges(t) + [(1, 0)] + [(2, 0)] + [(2, 1)]
  {
    var s1 := DfsState(c[1 := Gray], t + [DiscoverVertex(1)]);
    VisitUnfold(adj, 1, DfsState(c, t));
    ScanNonTree(adj, 1, 0, s1);
    var s2 := DfsState(s1.color, s1.trace + [ExamineEdge(1, 0)] + [NonTreeEdge(1, 0)]);
    ScanTree(adj, 1, 1, s2);
    var s3 := DfsState(s2.color, s2.trace + [ExamineEdge(1, 2)] + [TreeEdge(1, 2)]);
    TriangleVisit2(adj, s3.color, s3.trace);
    var r2 := Visit(adj, 2, s3);
    assert Scan(adj, 1, 2, r2) == r2;
  }

  lemma TriangleVisit0(adj: Adjacency, c: seq<Color>, t: seq<Event>)
    requires TriangleShape(adj)
    requires |c| == 4 && c[0] == White && c[1] == White && c[2] == White
    ensures var r := Visit(adj, 0, DfsState(c, t));
      && r.color[0] == Black && r.color[1] == Black && r.color[2] == Black && r.color[3] == c[3]
      && NonTreeEdges(r.trace) == NonTreeEdges(t) + [(1, 0)] + [(2, 0)] + [(2, 1)] + [(0, 2)]
  {
    var s1 := DfsState(c[0 := Gray], t + [DiscoverVertex(0)]);
    VisitUnfold(adj, 0, DfsState(c, t));
    ScanTree(adj, 0, 0, s1);
    var s2 := DfsState(s1.color, s1.trace + [ExamineEdge(0, 1)] + [TreeEdge(0, 1)]);
    TriangleVisit1(adj, s2.color, s2.trace);
    var r1 := Visit(adj, 1, s2);
    ScanNonTree(adj, 0, 1, r1);
    var r2 := DfsState(r1.color, r1.trace + [ExamineEdge(0, 2)] + [NonTreeEdge(0, 2)]);
    assert Scan(adj, 0, 2, r2) == r2;
    assert Scan(adj, 0, 0, s1) == r2;
  }

  /** DFS over the undirected triangle reports four non-tree edges: the
      mirror of each of its two tree edges, and both directions of the
      third edge. */
  lemma TriangleNonTreeEdges()
    ensures Closed(TriangleGraph)
    ensures NonTreeEdges(DfsTrace(TriangleGraph)) == [(1, 0), (2, 0), (2, 1), (0, 2)]
    ensures |NonTreeEdges(DfsTrace(TriangleGraph))| == 4
  {
    var s0 := DfsStart(4);
    TriangleVisit0(TriangleGraph, s0.color, []);
    var r0 := Visit(TriangleGraph, 0, s0);
    assert [(1, 0)] + [(2, 0)] + [(2, 1)] + [(0, 2)] == [(1, 0), (2, 0), (2, 1), (0, 2)];
    assert Roots(TriangleGraph, 0, s0) == Roots(TriangleGraph, 3, r0);
    LeafVisit(TriangleGraph, 3, r0);
    var r3 := Visit(TriangleGraph, 3, r0);
    assert Roots(TriangleGraph, 3, r0) == Roots(TriangleGraph, 4, r3) == r3;
  }
}

/** Breadth-first search from one start vertex (BFS.cpp): a colour vector and
    a FIFO queue drive the loop, and every visitor hook call becomes an
    event of the returned trace. The graph is seen through its neighbour
    lists: adj[u] is what neighbors(u) yields and |adj| is Size(). */
module Bfs {
  import opened Seqs
  import opened Graph

  /** Colours, queue and the events so far. */
  datatype BfsState = BfsState(color: seq<Color>, queue: seq<nat>, trace: seq<Event>)

  /** The colour vector has one entry per vertex and the queue holds vertex ids. */
  predicate Fits(adj: Adjacency, s: BfsState) {
    |s.color| == |adj| && forall i | 0 <= i < |s.queue| :: s.queue[i] < |adj|
  }

  /** The inner for-loop over neighbors(u) from position k on: examine each
      edge, then colour a White target Gray, announce and enqueue it, or
      report the edge as non-tree. */
  function ScanEdges(adj: Adjacency, u: nat, k: nat, s: BfsState): (r: BfsState)
    requires Closed(adj) && u < |adj| && k <= |adj[u]| && Fits(adj, s)
    ensures Fits(adj, r)
    ensures |s.queue| <= |r.queue|
    ensures CountWhite(r.color) + |r.queue| == CountWhite(s.color) + |s.queue|
    decreases |adj[u]| - k
  {
    if k == |adj[u]| then s
    else
      var v := adj[u][k];
      var t := s.trace + [ExamineEdge(u, v)];
      if s.color[v] == White then
        CountWhiteUpdate(s.color, v, Gray);
        ScanEdges(adj, u, k + 1, BfsState(s.color[v := Gray], s.queue + [v], t + [TreeEdge(u, v)] + [DiscoverVertex(v)]))
      else
        ScanEdges(adj, u, k + 1, BfsState(s.color, s.queue, t + [NonTreeEdge(u, v)]))
  }

  /** One round of the outer while-loop: dequeue u, examine it, scan its
      edges, colour it Black and finish it. Every vertex the scan enqueues
      was White, so White vertices plus queued entries drop by at least one. */
  function Round(adj: Adjacency, s: BfsState): (r: BfsState)
    requires Closed(adj) && Fits(adj, s) && s.queue != []
    ensures Fits(adj, r)
    ensures CountWhite(r.color) + |r.queue| < CountWhite(s.color) + |s.queue|
  {
    var u := s.queue[0];
    var s1 := BfsState(s.color, s.queue[1..], s.trace + [ExamineVertex(u)]);
    var s2 := ScanEdges(adj, u, 0, s1);
    CountWhiteUpdate(s2.color, u, Black);
    BfsState(s2.color[u := Black], s2.queue, s2.trace + [FinishVertex(u)])
  }

  /** The outer while-loop: rounds until the queue is empty. */
  function BfsLoop(adj: Adjacency, s: BfsState): (r: BfsState)
    requires Closed(adj) && Fits(adj, s)
    ensures Fits(adj, r) && r.queue == []
    decreases CountWhite(s.color) + |s.queue|
  {
    if s.queue == [] then s else BfsLoop(adj, Round(adj, s))
  }

  /** The state before the loop: start is Gray, discovered and enqueued. */
  function BfsStart(n: nat, start: nat): BfsState
    requires start < n
  {
    BfsState(seq(n, _ => White)[start := Gray], [start], [DiscoverVertex(start)])
  }

  /** The state BFS ends in; a graph without vertices ends at once. */
  function BfsFinal(adj: Adjacency, start: nat): (r: BfsState)
    requires Closed(adj) && (|adj| == 0 || start < |adj|)
    ensures |adj| == 0 ==> r.trace == []
  {
    if |adj| == 0 then BfsState([], [], [])
    else BfsLoop(adj, BfsStart(|adj|, start))
  }

  /** The events BFS(graph, start, visitor) fires. */
  function BfsTrace(adj: Adjacency, start: nat): seq<Event>
    requires Closed(adj) && (|adj| == 0 || start < |adj|)
  {
    BfsFinal(adj, start).trace
  }

  /** BFS as the source writes it, with the visitor replaced by the returned trace. */
  method BFS(adj: Adjacency, start: nat) returns (trace: seq<Event>)
    requires Closed(adj)
    requires |adj| == 0 || start < |adj|
    ensures trace == BfsTrace(adj, start)
  {
    if |adj| == 0 {
      return [];
    }
    var color := new Color[|adj|](_ => White);
    color[start] := Gray;
    trace := [DiscoverVertex(start)];
    var queue := [start];
    assert BfsState(color[..], queue, trace) == BfsStart(|adj|, start);
    while queue != []
      invariant color.Length == |adj|
      invariant Fits(adj, BfsState(color[..], queue, trace))
      invariant BfsLoop(adj, BfsState(color[..], queue, trace)) == BfsFinal(adj, start)
      decreases CountWhite(color[..]) + |queue|
    {
      ghost var s0 := BfsState(color[..], queue, trace);
      var u := queue[0];
      queue := queue[1..];
      trace := trace + [ExamineVertex(u)];
      queue, trace := ScanNeighbours(adj, u, color, queue, trace);
      color[u] := Black;
      trace := trace + [FinishVertex(u)];
      assert Round(adj, s0) == BfsState(color[..], queue, trace);
    }
  }

  /** The for-loop over the neighbours of u inside the while-loop of BFS:
      the state it leaves is the scan of the specification. */
  method ScanNeighbours(adj: Adjacency, u: nat, color: array<Color>, queue0: seq<nat>, trace0: seq<Event>)
    returns (queue: seq<nat>, trace: seq<Event>)
    requires Closed(adj) && u < |adj| && color.Length == |adj|
    requires Fits(adj, BfsState(color[..], queue0, trace0))
    modifies color
    ensures BfsState(color[..], queue, trace) == ScanEdges(adj, u, 0, BfsState(old(color[..]), queue0, trace0))
  {
    queue, trace := queue0, trace0;
    for k := 0 to |adj[u]|
      invariant Fits(adj, BfsState(color[..], queue, trace))
      invariant ScanEdges(adj, u, k, BfsState(color[..], queue, trace)) == ScanEdges(adj, u, 0, BfsState(old(color[..]), queue0, trace0))
    {
      var v := adj[u][k];
      trace := trace + [ExamineEdge(u, v)];
      if color[v] == White {
        trace := trace + [TreeEdge(u, v)];
        color[v] := Gray;
        trace := trace + [DiscoverVertex(v)];
        queue := queue + [v];
      } else {
        trace := trace + [NonTreeEdge(u, v)];
      }
    }
  }

  // Correctness of the specification.

  /** Colours record the stage of every vertex: non-White once discovered,
      Black once finished. */
  ghost predicate ColorsAgree(adj: Adjacency, s: BfsState)
    requires Fits(adj, s)
  {
    && (forall v | 0 <= v < |adj| :: s.color[v] != White <==> v in Discovered(s.trace))
    && (forall v | 0 <= v < |adj| :: s.color[v] == Black <==> v in Finished(s.trace))
  }

  /** No Black vertex has a White neighbour. */
  ghost predicate BlackClosed(adj: Adjacency, c: seq<Color>)
    requires Closed(adj) && |c| == |adj|
  {
    forall x, j | 0 <= x < |adj| && c[x] == Black && 0 <= j < |adj[x]| :: c[adj[x][j]] != White
  }

  /** Invariant of the loop. `inflight` is [u] while the edges of the dequeued
      u are scanned and [] between rounds. Discovery order, starting with
      start, is finish order followed by queue order; each dequeued vertex is
      examined once; every discovered vertex is reachable; every examined
      edge is classified; one tree edge per discovery after the first. */
  ghost predicate Inv(adj: Adjacency, start: nat, s: BfsState, inflight: seq<nat>) {
    var d := Discovered(s.trace);
    var f := Finished(s.trace);
    && Closed(adj) && Fits(adj, s)
    && (forall i | 0 <= i < |inflight| :: inflight[i] < |adj|)
    && Distinct(d) && |d| > 0 && d[0] == start
    && d == f + inflight + s.queue
    && ExaminedVertices(s.trace) == f + inflight
    && ColorsAgree(adj, s)
    && EdgesClassified(s.trace) && Settled(s.trace)
    && |TreeEdges(s.trace)| + 1 == |d|
    && (forall v | v in d :: Reachable(adj, start, v))
    && BlackClosed(adj, s.color)
  }

  /** A walk to u extends along an edge of u. */
  lemma ReachableStep(adj: Adjacency, start: nat, u: nat, v: nat)
    requires Reachable(adj, start, u) && u < |adj| && v in adj[u] && Closed(adj)
    ensures Reachable(adj, start, v)
  {
    var p :| IsPath(adj, p) && p[0] == start && p[|p| - 1] == u;
    var k :| 0 <= k < |adj[u]| && adj[u][k] == v;
    var q := p + [v];
    assert IsPath(adj, q);
  }

  /** The recorded orders after the events of a tree edge to v. */
  lemma TreeEvents(t: seq<Event>, u: nat, v: nat)
    ensures var t' := t + [ExamineEdge(u, v)] + [TreeEdge(u, v)] + [DiscoverVertex(v)];
      && Discovered(t') == Discovered(t) + [v]
      && Finished(t') == Finished(t)
      && ExaminedVertices(t') == ExaminedVertices(t)
      && TreeEdges(t') == TreeEdges(t) + [(u, v)]
  {
    var t1 := t + [ExamineEdge(u, v)];
    Snoc(t, ExamineEdge(u, v));
    Snoc(t1, TreeEdge(u, v));
    Snoc(t1 + [TreeEdge(u, v)], DiscoverVertex(v));
  }

  /** The recorded orders after the events of a non-tree edge. */
  lemma NonTreeEvents(t: seq<Event>, u: nat, v: nat)
    ensures var t' := t + [ExamineEdge(u, v)] + [NonTreeEdge(u, v)];
      && Discovered(t') == Discovered(t)
      && Finished(t') == Finished(t)
      && ExaminedVertices(t') == ExaminedVertices(t)
      && TreeEdges(t') == TreeEdges(t)
  {
    Snoc(t, ExamineEdge(u, v));
    Snoc(t + [ExamineEdge(u, v)], NonTreeEdge(u, v));
  }

  /** The events of a tree edge keep every examined edge classified. */
  lemma TraceAfterTree(t: seq<Event>, u: nat, v: nat)
    requires EdgesClassified(t) && Settled(t)
    ensures var t' := t + [ExamineEdge(u, v)] + [TreeEdge(u, v)] + [DiscoverVertex(v)];
      EdgesClassified(t') && Settled(t')
  {
    var t2 := t + [ExamineEdge(u, v)] + [TreeEdge(u, v)];
    ClassifiedSnocEdge(t, u, v, true);
    assert t2 == t + [ExamineEdge(u, v), TreeEdge(u, v)];
    ClassifiedSnocVertex(t2, DiscoverVertex(v));
  }

  /** The events of a non-tree edge keep every examined edge classified. */
  lemma TraceAfterNonTree(t: seq<Event>, u: nat, v: nat)
    requires EdgesClassified(t) && Settled(t)
    ensures var t' := t + [ExamineEdge(u, v)] + [NonTreeEdge(u, v)];
      EdgesClassified(t') && Settled(t')
  {
    ClassifiedSnocEdge(t, u, v, false);
    assert t + [ExamineEdge(u, v)] + [NonTreeEdge(u, v)] == t + [ExamineEdge(u, v), NonTreeEdge(u, v)];
  }

  /** Turning a White vertex Gray as it is discovered keeps the colours in step. */
  lemma ColorsAfterGray(adj: Adjacency, s: BfsState, s': BfsState, v: nat)
    requires Fits(adj, s) && Fits(adj, s') && ColorsAgree(adj, s) && v < |adj| && s.color[v] == White
    requires s'.color == s.color[v := Gray]
    requires Discovered(s'.trace) == Discovered(s.trace) + [v]
    requires Finished(s'.trace) == Finished(s.trace)
    ensures ColorsAgree(adj, s')
  {
  }

  /** Turning a White vertex Gray keeps Black vertices free of White neighbours. */
  lemma BlackClosedAfterGray(adj: Adjacency, c: seq<Color>, v: nat)
    requires Closed(adj) && |c| == |adj| && v < |adj| && c[v] == White && BlackClosed(adj, c)
    ensures BlackClosed(adj, c[v := Gray])
  {
    var c' := c[v := Gray];
    forall x, j | 0 <= x < |adj| && c'[x] == Black && 0 <= j < |adj[x]|
      ensures c'[adj[x][j]] != White
    {
      assert c[x] == Black;
    }
  }

  /** Examining an edge to a White vertex: tree edge, discovery, enqueue. */
  lemma WhiteStep(adj: Adjacency, start: nat, u: nat, v: nat, s: BfsState)
    requires Inv(adj, start, s, [u]) && u < |adj| && v in adj[u] && v < |adj|
    requires s.color[v] == White && Reachable(adj, start, u)
    ensures Inv(adj, start, BfsState(s.color[v := Gray], s.queue + [v],
      s.trace + [ExamineEdge(u, v)] + [TreeEdge(u, v)] + [DiscoverVertex(v)]), [u])
  {
    var s' := BfsState(s.color[v := Gray], s.queue + [v],
      s.trace + [ExamineEdge(u, v)] + [TreeEdge(u, v)] + [DiscoverVertex(v)]);
    TreeEvents(s.trace, u, v);
    TraceAfterTree(s.trace, u, v);
    var d := Discovered(s.trace);
    assert v !in d;
    DistinctSnoc(d, v);
    ReachableStep(adj, start, u, v);
    assert Fits(adj, s');
    ColorsAfterGray(adj, s, s', v);
    BlackClosedAfterGray(adj, s.color, v);
    assert Discovered(s'.trace) == Finished(s'.trace) + [u] + s'.queue;
  }

  /** Examining an edge to a vertex already seen: a non-tree edge, nothing else. */
  lemma SeenStep(adj: Adjacency, start: nat, u: nat, v: nat, s: BfsState)
    requires Inv(adj, start, s, [u]) && v < |adj| && s.color[v] != White
    ensures Inv(adj, start, BfsState(s.color, s.queue, s.trace + [ExamineEdge(u, v)] + [NonTreeEdge(u, v)]), [u])
  {
    NonTreeEvents(s.trace, u, v);
    TraceAfterNonTree(s.trace, u, v);
  }

  /** Scanning the edges of u keeps the invariant. */
  lemma {:induction false} ScanPreserves(adj: Adjacency, start: nat, u: nat, k: nat, s: BfsState)
    requires Closed(adj) && u < |adj| && k <= |adj[u]| && Fits(adj, s)
    requires Inv(adj, start, s, [u]) && Reachable(adj, start, u)
    ensures Inv(adj, start, ScanEdges(adj, u, k, s), [u])
    decreases |adj[u]| - k
  {
    if k < |adj[u]| {
      var v := adj[u][k];
      var t := s.trace + [ExamineEdge(u, v)];
      var s';
      if s.color[v] == White {
        s' := BfsState(s.color[v := Gray], s.queue + [v], t + [TreeEdge(u, v)] + [DiscoverVertex(v)]);
        WhiteStep(adj, start, u, v, s);
      } else {
        s' := BfsState(s.color, s.queue, t + [NonTreeEdge(u, v)]);
        SeenStep(adj, start, u, v, s);
      }
      assert ScanEdges(adj, u, k, s) == ScanEdges(adj, u, k + 1, s');
      ScanPreserves(adj, start, u, k + 1, s');
    }
  }

  /** Scanning the edges of u from position k leaves none of them White,
      and only ever turns White vertices Gray. */
  lemma {:induction false} ScanColors(adj: Adjacency, u: nat, k: nat, s: BfsState)
    requires Closed(adj) && u < |adj| && k <= |adj[u]| && Fits(adj, s)
    ensures var r := ScanEdges(adj, u, k, s);
      && (forall j | k <= j < |adj[u]| :: r.color[adj[u][j]] != White)
      && (forall v | 0 <= v < |adj| && s.color[v] != White :: r.color[v] == s.color[v])
      && (forall v | 0 <= v < |adj| :: Rank(s.color[v]) <= Rank(r.color[v]))
    decreases |adj[u]| - k
  {
    if k < |adj[u]| {
      var v := adj[u][k];
      var t := s.trace + [ExamineEdge(u, v)];
      var s' := if s.color[v] == White
        then BfsState(s.color[v := Gray], s.queue + [v], t + [TreeEdge(u, v)] + [DiscoverVertex(v)])
        else BfsState(s.color, s.queue, t + [NonTreeEdge(u, v)]);
      assert ScanEdges(adj, u, k, s) == ScanEdges(adj, u, k + 1, s');
      ScanColors(adj, u, k + 1, s');
      assert s'.color[v] != White;
    }
  }

  /** The recorded orders after examining the dequeued u. */
  lemma ExamineEvents(t: seq<Event>, queue: seq<nat>)
    requires queue != [] && Discovered(t) == Finished(t) + queue
    requires ExaminedVertices(t) == Finished(t) && EdgesClassified(t) && Settled(t)
    ensures var t' := t + [ExamineVertex(queue[0])];
      && Discovered(t') == Discovered(t) == Finished(t') + [queue[0]] + queue[1..]
      && ExaminedVertices(t') == Finished(t') + [queue[0]]
      && TreeEdges(t') == TreeEdges(t)
      && EdgesClassified(t') && Settled(t')
  {
    Snoc(t, ExamineVertex(queue[0]));
    ClassifiedSnocVertex(t, ExamineVertex(queue[0]));
    SplitFirst(Finished(t), queue);
  }

  /** Dequeuing u and examining it: u is now in flight. */
  lemma DequeueStep(adj: Adjacency, start: nat, s: BfsState)
    requires Inv(adj, start, s, []) && s.queue != []
    ensures Inv(adj, start, BfsState(s.color, s.queue[1..], s.trace + [ExamineVertex(s.queue[0])]), [s.queue[0]])
    ensures Reachable(adj, start, s.queue[0])
  {
    ExamineEvents(s.trace, s.queue);
    assert s.queue[0] in Discovered(s.trace);
  }

  /** Colouring a Gray vertex Black as it finishes keeps the colours in step. */
  lemma ColorsAfterBlack(adj: Adjacency, s: BfsState, s': BfsState, u: nat)
    requires Fits(adj, s) && Fits(adj, s') && ColorsAgree(adj, s) && u < |adj|
    requires u in Discovered(s.trace)
    requires s'.color == s.color[u := Black]
    requires Discovered(s'.trace) == Discovered(s.trace)
    requires Finished(s'.trace) == Finished(s.trace) + [u]
    ensures ColorsAgree(adj, s')
  {
  }

  /** Colouring u Black once none of its neighbours is White keeps Black vertices
      free of White neighbours. */
  lemma BlackClosedAfterBlack(adj: Adjacency, c: seq<Color>, u: nat)
    requires Closed(adj) && |c| == |adj| && u < |adj| && BlackClosed(adj, c)
    requires c[u] != White
    requires forall j | 0 <= j < |adj[u]| :: c[adj[u][j]] != White
    ensures BlackClosed(adj, c[u := Black])
  {
    var c' := c[u := Black];
    forall x, j | 0 <= x < |adj| && c'[x] == Black && 0 <= j < |adj[x]|
      ensures c'[adj[x][j]] != White
    {
      if x != u {
        assert c[x] == Black;
      }
    }
  }

  /** Colouring the scanned u Black and finishing it. */
  lemma FinishStep(adj: Adjacency, start: nat, u: nat, s: BfsState)
    requires Inv(adj, start, s, [u]) && u < |adj|
    requires forall j | 0 <= j < |adj[u]| :: s.color[adj[u][j]] != White
    ensures Inv(adj, start, BfsState(s.color[u := Black], s.queue, s.trace + [FinishVertex(u)]), [])
    ensures s.color[u] == Gray
  {
    var s3 := BfsState(s.color[u := Black], s.queue, s.trace + [FinishVertex(u)]);
    Snoc(s.trace, FinishVertex(u));
    ClassifiedSnocVertex(s.trace, FinishVertex(u));
    var f := Finished(s.trace);
    DistinctMiddle(f, u, s.queue);
    assert u in Discovered(s.trace);
    assert Fits(adj, s3);
    ColorsAfterBlack(adj, s, s3, u);
    BlackClosedAfterBlack(adj, s.color, u);
    assert Discovered(s3.trace) == Finished(s3.trace) + s3.queue;
  }

  /** One round keeps the invariant, and colours never move back. */
  lemma RoundPreserves(adj: Adjacency, start: nat, s: BfsState)
    requires Closed(adj) && Fits(adj, s) && Inv(adj, start, s, []) && s.queue != []
    ensures Inv(adj, start, Round(adj, s), [])
    ensures forall v | 0 <= v < |adj| :: Rank(s.color[v]) <= Rank(Round(adj, s).color[v])
  {
    var u := s.queue[0];
    var s1 := BfsState(s.color, s.queue[1..], s.trace + [ExamineVertex(u)]);
    DequeueStep(adj, start, s);
    ScanPreserves(adj, start, u, 0, s1);
    ScanColors(adj, u, 0, s1);
    var s2 := ScanEdges(adj, u, 0, s1);
    FinishStep(adj, start, u, s2);
  }

  /** Every round of the loop keeps the invariant, and colours never move back. */
  lemma {:induction false} LoopPreserves(adj: Adjacency, start: nat, s: BfsState)
    requires Closed(adj) && Fits(adj, s) && Inv(adj, start, s, [])
    ensures Inv(adj, start, BfsLoop(adj, s), [])
    ensures forall v | 0 <= v < |adj| :: Rank(s.color[v]) <= Rank(BfsLoop(adj, s).color[v])
    decreases CountWhite(s.color) + |s.queue|
  {
    if s.queue != [] {
      RoundPreserves(adj, start, s);
      LoopPreserves(adj, start, Round(adj, s));
    }
  }

  /** If start is Black and no Black vertex has a White neighbour, while
      every vertex is Black or White, every vertex reachable from start is Black. */
  lemma {:induction false} BlackClosure(adj: Adjacency, c: seq<Color>, start: nat, p: seq<nat>)
    requires Closed(adj) && |c| == |adj| && IsPath(adj, p) && p[0] == start
    requires c[start] == Black && BlackClosed(adj, c)
    requires forall v | 0 <= v < |adj| :: c[v] == Black || c[v] == White
    ensures c[p[|p| - 1]] == Black
  {
    if |p| > 1 {
      var q := p[..|p| - 1];
      assert IsPath(adj, q);
      BlackClosure(adj, c, start, q);
      var x := q[|q| - 1];
      assert p[|p| - 1] in adj[x];
    }
  }

  /** What BFS promises. On a graph with vertices, from a valid start: every
      vertex is discovered at most once, start first; the discovered vertices
      are exactly those reachable from start; vertices finish in the order
      they were discovered, each examined once in between; every examined
      edge is classified once as tree or non-tree; there is one tree edge
      per discovered vertex other than start; at the end the reachable
      vertices are Black and all others still White. */
  lemma BfsCorrect(adj: Adjacency, start: nat)
    requires Closed(adj) && start < |adj|
    ensures var r := BfsFinal(adj, start);
      var t := r.trace;
      && Distinct(Discovered(t)) && |Discovered(t)| > 0 && Discovered(t)[0] == start
      && (forall v | 0 <= v < |adj| :: v in Discovered(t) <==> Reachable(adj, start, v))
      && Finished(t) == Discovered(t)
      && ExaminedVertices(t) == Discovered(t)
      && EdgesClassified(t)
      && |TreeEdges(t)| + 1 == |Discovered(t)|
      && (forall v | 0 <= v < |adj| :: r.color[v] == (if Reachable(adj, start, v) then Black else White))
  {
    var s0 := BfsStart(|adj|, start);
    InitialInv(adj, start);
    LoopPreserves(adj, start, s0);
    var r := BfsFinal(adj, start);
    var d := Discovered(r.trace);
    assert d == Finished(r.trace);
    forall v | 0 <= v < |adj|
      ensures r.color[v] == Black || r.color[v] == White
    {
    }
    assert r.color[start] == Black by {
      assert start in d;
    }
    forall v | 0 <= v < |adj| && Reachable(adj, start, v)
      ensures v in d
    {
      var p :| IsPath(adj, p) && p[0] == start && p[|p| - 1] == v;
      BlackClosure(adj, r.color, start, p);
    }
  }

  /** The state before the loop records start alone, as discovered. */
  lemma StartTrace(start: nat)
    ensures var t := [DiscoverVertex(start)];
      && Discovered(t) == [start] && Finished(t) == [] && ExaminedVertices(t) == [] && TreeEdges(t) == []
      && EdgesClassified(t) && Settled(t)
  {
    Snoc([], DiscoverVertex(start));
    assert [] + [DiscoverVertex(start)] == [DiscoverVertex(start)];
  }

  /** Before the loop only start is coloured, and it is Gray. */
  lemma StartColors(adj: Adjacency, start: nat)
    requires Closed(adj) && start < |adj|
    ensures ColorsAgree(adj, BfsStart(|adj|, start)) && BlackClosed(adj, BfsStart(|adj|, start).color)
  {
    StartTrace(start);
  }

  lemma InitialInv(adj: Adjacency, start: nat)
    requires Closed(adj) && start < |adj|
    ensures Inv(adj, start, BfsStart(|adj|, start), [])
  {
    StartTrace(start);
    StartColors(adj, start);
    assert IsPath(adj, [start]);
  }

  // How one round shows in the recorded orders.

  /** Scanning the edge at position k: the queue grows by what the step
      discovers, and nothing finishes. */
  lemma ScanOne(adj: Adjacency, u: nat, k: nat, s: BfsState) returns (s': BfsState)
    requires Closed(adj) && u < |adj| && k < |adj[u]| && Fits(adj, s)
    ensures Fits(adj, s') && ScanEdges(adj, u, k, s) == ScanEdges(adj, u, k + 1, s')
    ensures Prefix(s.queue, s'.queue)
    ensures Discovered(s'.trace) == Discovered(s.trace) + s'.queue[|s.queue|..]
    ensures Finished(s'.trace) == Finished(s.trace)
  {
    var v := adj[u][k];
    var t := s.trace + [ExamineEdge(u, v)];
    if s.color[v] == White {
      s' := BfsState(s.color[v := Gray], s.queue + [v], t + [TreeEdge(u, v)] + [DiscoverVertex(v)]);
      TreeEvents(s.trace, u, v);
      assert s'.queue[|s.queue|..] == [v];
    } else {
      s' := BfsState(s.color, s.queue, t + [NonTreeEdge(u, v)]);
      NonTreeEvents(s.trace, u, v);
      assert s'.queue[|s.queue|..] == [];
    }
  }

  /** A scan discovers exactly the vertices it enqueues, in the same order,
      keeps the queue it started with, and finishes nothing. */
  lemma {:induction false} ScanTrace(adj: Adjacency, u: nat, k: nat, s: BfsState)
    requires Closed(adj) && u < |adj| && k <= |adj[u]| && Fits(adj, s)
    ensures var r := ScanEdges(adj, u, k, s);
      && Prefix(s.queue, r.queue)
      && Discovered(r.trace) == Discovered(s.trace) + r.queue[|s.queue|..]
      && Finished(r.trace) == Finished(s.trace)
    decreases |adj[u]| - k
  {
    if k < |adj[u]| {
      var s' := ScanOne(adj, u, k, s);
      ScanTrace(adj, u, k + 1, s');
      PrefixSplit(s.queue, s'.queue, ScanEdges(adj, u, k, s).queue);
    } else {
      assert s.queue[|s.queue|..] == [];
    }
  }

  /** A round finishes the vertex it dequeues and discovers exactly the
      vertices it appends to the queue. */
  lemma RoundTrace(adj: Adjacency, s: BfsState)
    requires Closed(adj) && Fits(adj, s) && s.queue != []
    ensures var r := Round(adj, s);
      && Finished(r.trace) == Finished(s.trace) + [s.queue[0]]
      && Discovered(r.trace) == Discovered(s.trace) + r.queue[|s.queue| - 1..]
  {
    var u := s.queue[0];
    var s1 := BfsState(s.color, s.queue[1..], s.trace + [ExamineVertex(u)]);
    Snoc(s.trace, ExamineVertex(u));
    ScanTrace(adj, u, 0, s1);
    var s2 := ScanEdges(adj, u, 0, s1);
    Snoc(s2.trace, FinishVertex(u));
  }

  /** Three rounds finish the three vertices they dequeue, in order, and
      discover what they enqueue. */
  lemma ThreeRounds(adj: Adjacency, s0: BfsState)
    requires Closed(adj) && Fits(adj, s0) && s0.queue != []
    requires Round(adj, s0).queue != [] && Round(adj, Round(adj, s0)).queue != []
    ensures var s1 := Round(adj, s0);
      var s2 := Round(adj, s1);
      var s3 := Round(adj, s2);
      && Finished(s3.trace) == Finished(s0.trace) + [s0.queue[0], s1.queue[0], s2.queue[0]]
      && Discovered(s3.trace) == Discovered(s0.trace) + s1.queue[|s0.queue| - 1..]
           + s2.queue[|s1.queue| - 1..] + s3.queue[|s2.queue| - 1..]
  {
    var s1 := Round(adj, s0);
    var s2 := Round(adj, s1);
    RoundTrace(adj, s0);
    RoundTrace(adj, s1);
    RoundTrace(adj, s2);
  }

  // The cases BFSTest.cpp checks.

  /** The undirected path 0-1-2 as a matrix graph lists it. */
  const PathGraph: Adjacency := [[1], [0, 2], [1]]

  /** The undirected triangle 0-1-2 as a matrix graph lists it. */
  const TriangleGraph: Adjacency := [[1, 2], [0, 2], [0, 1]]

  lemma PathRounds()
    ensures var s1 := Round(PathGraph, BfsStart(3, 0));
      && s1.color == [Black, Gray, White] && s1.queue == [1]
      && var s2 := Round(PathGraph, s1);
      && s2.color == [Black, Black, Gray] && s2.queue == [2]
      && var s3 := Round(PathGraph, s2);
      s3.color == [Black, Black, Black] && s3.queue == []
  {
    var s0 := BfsStart(3, 0);
    assert s0.color == [Gray, White, White];
    var s1 := Round(PathGraph, s0);
    assert s1.color == [Black, Gray, White] && s1.queue == [1];
    var s2 := Round(PathGraph, s1);
    assert s2.color == [Black, Black, Gray] && s2.queue == [2];
  }

  /** BFS over the path runs exactly three rounds. */
  lemma PathLoop()
    ensures Closed(PathGraph)
    ensures var s0 := BfsStart(3, 0);
      BfsFinal(PathGraph, 0) == Round(PathGraph, Round(PathGraph, Round(PathGraph, s0)))
  {
    var s0 := BfsStart(3, 0);
    PathRounds();
    var s1 := Round(PathGraph, s0);
    var s2 := Round(PathGraph, s1);
    var s3 := Round(PathGraph, s2);
    assert BfsLoop(PathGraph, s2) == s3;
    assert BfsLoop(PathGraph, s1) == s3;
  }

  /** BFS from 0 over the path 0-1-2 finishes 0, 1, 2 in that order. */
  lemma PathFinishOrder()
    ensures Finished(BfsTrace(PathGraph, 0)) == [0, 1, 2]
  {
    var s0 := BfsStart(3, 0);
    PathLoop();
    PathRounds();
    StartTrace(0);
    ThreeRounds(PathGraph, s0);
  }

  lemma TriangleRounds()
    ensures var s1 := Round(TriangleGraph, BfsStart(3, 0));
      && s1.color == [Black, Gray, Gray] && s1.queue == [1, 2]
      && var s2 := Round(TriangleGraph, s1);
      && s2.color == [Black, Black, Gray] && s2.queue == [2]
      && var s3 := Round(TriangleGraph, s2);
      s3.color == [Black, Black, Black] && s3.queue == []
  {
    var s0 := BfsStart(3, 0);
    assert s0.color == [Gray, White, White];
    var s1 := Round(TriangleGraph, s0);
    assert s1.color == [Black, Gray, Gray] && s1.queue == [1, 2];
    var s2 := Round(TriangleGraph, s1);
    assert s2.color == [Black, Black, Gray] && s2.queue == [2];
  }

  /** BFS over the triangle runs exactly three rounds. */
  lemma TriangleLoop()
    ensures Closed(TriangleGraph)
    ensures var s0 := BfsStart(3, 0);
      BfsFinal(TriangleGraph, 0) == Round(TriangleGraph, Round(TriangleGraph, Round(TriangleGraph, s0)))
  {
    var s0 := BfsStart(3, 0);
    TriangleRounds();
    var s1 := Round(TriangleGraph, s0);
    var s2 := Round(TriangleGraph, s1);
    var s3 := Round(TriangleGraph, s2);
    assert BfsLoop(TriangleGraph, s2) == s3;
    assert BfsLoop(TriangleGraph, s1) == s3;
  }

  /** BFS from 0 over the triangle discovers 0, 1, 2 in that order. */
  lemma TriangleDiscoverOrder()
    ensures Discovered(BfsTrace(TriangleGraph, 0)) == [0, 1, 2]
  {
    var s0 := BfsStart(3, 0);
    TriangleLoop();
    TriangleRounds();
    StartTrace(0);
    ThreeRounds(TriangleGraph, s0);
    var s1 := Round(TriangleGraph, s0);
    var s2 := Round(TriangleGraph, s1);
    assert s1.queue[0..] == [1, 2] && s2.queue[1..] == [];
  }
}

/** Breadth-first search visits vertices level by level: the order in which
    BFS (BFS.cpp) discovers and finishes vertices never decreases in the
    distance from the start vertex, and every tree edge leads one level down. */
module BfsLevels {
  import opened Seqs
  import opened Graph
  import opened Bfs

  /** Every vertex of d is reached from start, and d is sorted by distance. */
  ghost predicate LevelOrder(adj: Adjacency, start: nat, d: seq<nat>) {
    && (forall i | 0 <= i < |d| :: Reached(adj, start, d[i]))
    && (forall i, j | 0 <= i < j < |d| :: Dist(adj, start, d[i]) <= Dist(adj, start, d[j]))
  }

  /** Every edge of te leads from a reached vertex one level down. */
  ghost predicate TreeLevels(adj: Adjacency, start: nat, te: seq<(nat, nat)>) {
    forall i | 0 <= i < |te| ::
      && Reached(adj, start, te[i].0) && Reached(adj, start, te[i].1)
      && Dist(adj, start, te[i].1) == Dist(adj, start, te[i].0) + 1
  }

  /** Nothing at h's level or above is White in c. */
  ghost predicate Frontier(adj: Adjacency, start: nat, c: seq<Color>, h: nat)
    requires |c| == |adj| && Reached(adj, start, h)
  {
    forall x | 0 <= x < |adj| && Reached(adj, start, x) && Dist(adj, start, x) <= Dist(adj, start, h) :: c[x] != White
  }

  /** Appending a vertex no closer than the last keeps a list sorted by distance. */
  lemma LevelOrderSnoc(adj: Adjacency, start: nat, d: seq<nat>, v: nat)
    requires LevelOrder(adj, start, d) && Reached(adj, start, v)
    requires d != [] ==> Dist(adj, start, d[|d| - 1]) <= Dist(adj, start, v)
    ensures LevelOrder(adj, start, d + [v])
  {
    var d' := d + [v];
    forall i, j | 0 <= i < j < |d'|
      ensures Dist(adj, start, d'[i]) <= Dist(adj, start, d'[j])
    {
      if j == |d| && i < |d| - 1 {
        assert Dist(adj, start, d[i]) <= Dist(adj, start, d[|d| - 1]);
      }
    }
  }

  /** The queue invariant on top of Inv. The head h of the unfinished
      vertices (inflight + queue) bounds the frontier: the last discovery
      lies at most one level beyond h, and nothing at h's level or above is
      still White. */
  ghost predicate Levels(adj: Adjacency, start: nat, s: BfsState, inflight: seq<nat>)
    requires Fits(adj, s)
  {
    var d := Discovered(s.trace);
    var w := inflight + s.queue;
    && LevelOrder(adj, start, d)
    && TreeLevels(adj, start, TreeEdges(s.trace))
    && (w != [] ==>
      && Reached(adj, start, w[0])
      && (d != [] ==> Dist(adj, start, d[|d| - 1]) <= Dist(adj, start, w[0]) + 1)
      && Frontier(adj, start, s.color, w[0]))
  }

  lemma LevelsStart(adj: Adjacency, start: nat)
    requires Closed(adj) && start < |adj|
    ensures Levels(adj, start, BfsStart(|adj|, start), [])
  {
    var s0 := BfsStart(|adj|, start);
    InitialInv(adj, start);
    assert start in Within(adj, start, 0);
    assert Dist(adj, start, start) == 0;
    forall x | 0 <= x < |adj| && Reached(adj, start, x) && Dist(adj, start, x) <= 0
      ensures s0.color[x] != White
    {
      assert x in Within(adj, start, 0);
    }
  }

  /** Examining u changes neither discoveries, tree edges nor colours. */
  lemma LevelsDequeue(adj: Adjacency, start: nat, s: BfsState, s1: BfsState)
    requires Fits(adj, s) && Levels(adj, start, s, []) && s.queue != []
    requires s1.color == s.color && s1.queue == s.queue[1..]
    requires Discovered(s1.trace) == Discovered(s.trace) && TreeEdges(s1.trace) == TreeEdges(s.trace)
    ensures Fits(adj, s1) && Levels(adj, start, s1, [s.queue[0]])
  {
    assert [s.queue[0]] + s.queue[1..] == [] + s.queue;
  }

  /** A White neighbour v of the head u lies one level beyond u. */
  lemma WhiteLevel(adj: Adjacency, start: nat, u: nat, v: nat, c: seq<Color>)
    requires Closed(adj) && |c| == |adj| && u < |adj| && v in adj[u] && c[v] == White
    requires Reached(adj, start, u) && Frontier(adj, start, c, u)
    ensures Reached(adj, start, v) && Dist(adj, start, v) == Dist(adj, start, u) + 1
    ensures Frontier(adj, start, c[v := Gray], u)
  {
    StepDist(adj, start, u, v);
  }

  /** Discovering a White neighbour v of u appends v, one level beyond u,
      so discovery stays sorted by distance. */
  lemma LevelsWhite(adj: Adjacency, start: nat, u: nat, v: nat, s: BfsState, s': BfsState)
    requires Closed(adj) && Fits(adj, s) && Levels(adj, start, s, [u])
    requires u < |adj| && v in adj[u] && s.color[v] == White
    requires s'.color == s.color[v := Gray] && s'.queue == s.queue + [v]
    requires Discovered(s'.trace) == Discovered(s.trace) + [v]
    requires TreeEdges(s'.trace) == TreeEdges(s.trace) + [(u, v)]
    ensures Fits(adj, s') && Levels(adj, start, s', [u])
    ensures Reached(adj, start, v) && Dist(adj, start, v) == Dist(adj, start, u) + 1
  {
    var d := Discovered(s.trace);
    assert ([u] + s.queue)[0] == u && ([u] + s'.queue)[0] == u;
    WhiteLevel(adj, start, u, v, s.color);
    LevelOrderSnoc(adj, start, d, v);
    assert (d + [v])[|d + [v]| - 1] == v;
    assert TreeLevels(adj, start, TreeEdges(s'.trace)) by {
      assert TreeLevels(adj, start, TreeEdges(s.trace));
    }
  }

  /** A neighbour already seen changes neither discoveries nor colours. */
  lemma LevelsSeen(adj: Adjacency, start: nat, u: nat, v: nat, s: BfsState)
    requires Fits(adj, s) && Levels(adj, start, s, [u])
    ensures var s' := BfsState(s.color, s.queue, s.trace + [ExamineEdge(u, v)] + [NonTreeEdge(u, v)]);
      Levels(adj, start, s', [u])
  {
    NonTreeEvents(s.trace, u, v);
  }

  /** Scanning the edges of u keeps the queue invariant. */
  lemma {:induction false} LevelsScan(adj: Adjacency, start: nat, u: nat, k: nat, s: BfsState)
    requires Closed(adj) && u < |adj| && k <= |adj[u]| && Fits(adj, s)
    requires Inv(adj, start, s, [u]) && Reachable(adj, start, u) && Levels(adj, start, s, [u])
    ensures Levels(adj, start, ScanEdges(adj, u, k, s), [u])
    decreases |adj[u]| - k
  {
    if k < |adj[u]| {
      var v := adj[u][k];
      var t := s.trace + [ExamineEdge(u, v)];
      var s';
      if s.color[v] == White {
        s' := BfsState(s.color[v := Gray], s.queue + [v], t + [TreeEdge(u, v)] + [DiscoverVertex(v)]);
        WhiteStep(adj, start, u, v, s);
        TreeEvents(s.trace, u, v);
        LevelsWhite(adj, start, u, v, s, s');
      } else {
        s' := BfsState(s.color, s.queue, t + [NonTreeEdge(u, v)]);
        SeenStep(adj, start, u, v, s);
        LevelsSeen(adj, start, u, v, s);
      }
      assert ScanEdges(adj, u, k, s) == ScanEdges(adj, u, k + 1, s');
      LevelsScan(adj, start, u, k + 1, s');
    }
  }

  /** In a list sorted by distance, nothing from position k on is closer
      than the entry at k. */
  lemma NotAtLevel(adj: Adjacency, start: nat, d: seq<nat>, k: nat, y: nat)
    requires LevelOrder(adj, start, d) && k < |d|
    requires Reached(adj, start, y) && Dist(adj, start, y) < Dist(adj, start, d[k])
    ensures y !in d[k..]
  {
    forall i | k <= i < |d|
      ensures d[i] != y
    {
      if i > k {
        assert Dist(adj, start, d[k]) <= Dist(adj, start, d[i]);
      }
    }
  }

  /** Handing the head from d[k] to d[k + 1]. If d[k + 1] is one level
      beyond d[k], every vertex x at that level has a predecessor y at d[k]'s
      level; y was not White, so y is discovered, and being closer than
      d[k + 1] it sits at or before position k, so it is Black by now and
      its neighbour x is not White. */
  lemma FrontierHandOff(adj: Adjacency, start: nat, c: seq<Color>, c3: seq<Color>, d: seq<nat>, k: nat)
    requires Closed(adj) && |c| == |adj| && |c3| == |adj|
    requires LevelOrder(adj, start, d) && k + 1 < |d|
    requires Frontier(adj, start, c, d[k])
    requires Dist(adj, start, d[k + 1]) <= Dist(adj, start, d[k]) + 1
    requires forall x | 0 <= x < |adj| && c[x] != White :: c3[x] != White && x in d
    requires forall y | y in d[..k + 1] && y < |adj| :: c3[y] == Black
    requires BlackClosed(adj, c3)
    ensures Frontier(adj, start, c3, d[k + 1])
  {
    var du := Dist(adj, start, d[k]);
    assert du <= Dist(adj, start, d[k + 1]);
    forall x | 0 <= x < |adj| && Reached(adj, start, x) && Dist(adj, start, x) <= Dist(adj, start, d[k + 1])
      ensures c3[x] != White
    {
      if Dist(adj, start, x) > du {
        var y := Predecessor(adj, start, x);
        assert c[y] != White;
        NotAtLevel(adj, start, d, k + 1, y);
        assert d == d[..k + 1] + d[k + 1..];
        var j :| 0 <= j < |adj[y]| && adj[y][j] == x;
        assert c3[y] == Black;
      }
    }
  }

  /** Finishing u hands the head to the next queued vertex, if any. */
  lemma LevelsFinish(adj: Adjacency, start: nat, u: nat, s: BfsState, s3: BfsState)
    requires Inv(adj, start, s, [u]) && Levels(adj, start, s, [u]) && Inv(adj, start, s3, [])
    requires s3.color == s.color[u := Black] && s3.queue == s.queue
    requires Discovered(s3.trace) == Discovered(s.trace) && TreeEdges(s3.trace) == TreeEdges(s.trace)
    requires Finished(s3.trace) == Finished(s.trace) + [u]
    ensures Levels(adj, start, s3, [])
  {
    var d := Discovered(s.trace);
    var f := Finished(s.trace);
    var q := s.queue;
    assert ([u] + q)[0] == u;
    if q != [] {
      assert ([] + q)[0] == q[0];
      var k := |f|;
      assert d[k] == u && d[k + 1] == q[0];
      if k + 1 < |d| - 1 {
        assert Dist(adj, start, d[k + 1]) <= Dist(adj, start, d[|d| - 1]);
      }
      assert d[..k + 1] == Finished(s3.trace);
      FrontierHandOff(adj, start, s.color, s3.color, d, k);
    }
  }

  /** One round keeps the queue invariant. */
  lemma LevelsRound(adj: Adjacency, start: nat, s: BfsState)
    requires Closed(adj) && Fits(adj, s) && Inv(adj, start, s, []) && Levels(adj, start, s, []) && s.queue != []
    ensures Levels(adj, start, Round(adj, s), [])
  {
    var u := s.queue[0];
    var s1 := BfsState(s.color, s.queue[1..], s.trace + [ExamineVertex(u)]);
    DequeueStep(adj, start, s);
    Snoc(s.trace, ExamineVertex(u));
    LevelsDequeue(adj, start, s, s1);
    ScanPreserves(adj, start, u, 0, s1);
    LevelsScan(adj, start, u, 0, s1);
    ScanColors(adj, u, 0, s1);
    var s2 := ScanEdges(adj, u, 0, s1);
    FinishStep(adj, start, u, s2);
    Snoc(s2.trace, FinishVertex(u));
    LevelsFinish(adj, start, u, s2, Round(adj, s));
  }

  /** The whole loop keeps the queue invariant. */
  lemma {:induction false} LevelsLoop(adj: Adjacency, start: nat, s: BfsState)
    requires Closed(adj) && Fits(adj, s) && Inv(adj, start, s, []) && Levels(adj, start, s, [])
    ensures Levels(adj, start, BfsLoop(adj, s), [])
    decreases CountWhite(s.color) + |s.queue|
  {
    if s.queue != [] {
      RoundPreserves(adj, start, s);
      LevelsRound(adj, start, s);
      LevelsLoop(adj, start, Round(adj, s));
    }
  }

  /** BFS discovers, and so finishes, the vertices in non-decreasing order
      of their distance from start (the length of a shortest walk, see
      Graph.DistIsShortest), and every tree edge leads to a vertex exactly
      one level further from start than its source. */
  lemma BfsLevelOrder(adj: Adjacency, start: nat)
    requires Closed(adj) && start < |adj|
    ensures var t := BfsTrace(adj, start);
      && Finished(t) == Discovered(t)
      && (forall i | 0 <= i < |Finished(t)| :: Reached(adj, start, Finished(t)[i]))
      && (forall i, j | 0 <= i < j < |Finished(t)| ::
            Dist(adj, start, Finished(t)[i]) <= Dist(adj, start, Finished(t)[j]))
      && (forall i | 0 <= i < |TreeEdges(t)| ::
            && Reached(adj, start, TreeEdges(t)[i].0) && Reached(adj, start, TreeEdges(t)[i].1)
            && Dist(adj, start, TreeEdges(t)[i].1) == Dist(adj, start, TreeEdges(t)[i].0) + 1)
  {
    InitialInv(adj, start);
    LevelsStart(adj, start);
    LoopPreserves(adj, start, BfsStart(|adj|, start));
    LevelsLoop(adj, start, BfsStart(|adj|, start));
  }
}

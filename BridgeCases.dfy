/** The bridge finder on the small graphs its tests use, each given by the
    ascending neighbour lists an adjacency matrix or set reports. */
module BridgeCases {
  import opened Graph
  import opened BridgeFinder
  import opened BridgeProofs

  /** Entering a vertex v whose only neighbour is the Gray u it is reached
      from: v is entered and finished at once, and the tree edge (u, v) is
      checked. */
  lemma LeafChild(adj: Adjacency, u: nat, v: nat, s: Finder)
    requires Sized(adj, s) && u < |adj| && v < |adj| && u != v
    requires s.color[u] == Gray && s.color[v] == White && adj[v] == [u]
    ensures Step(adj, u, v, s) == s.(
      time := s.time + 1, tin := s.tin[v := s.time], low := s.low[v := s.time][u := Min(s.low[u], s.time)],
      color := s.color[v := Black], parent := s.parent[v := u], order := s.order + [v],
      bridges := if s.time > s.tin[u] then s.bridges + [(u, v)] else s.bridges,
      aps := if s.time >= s.tin[u] && s.parent[u] != -1 then s.aps + {u} else s.aps,
      rootChildren := if s.parent[u] == -1 then s.rootChildren + 1 else s.rootChildren)
  {
    var c := Child(u, v, s);
    var e := Enter(v, c);
    assert Step(adj, v, u, e) == e;
    assert Scan(adj, v, 1, e) == e;
    ScanStep(adj, v, 0, e);
  }

  /** BridgeDFS(u) is its neighbour loop followed by colouring u Black. */
  lemma VisitIs(adj: Adjacency, u: nat, s: Finder, r: Finder)
    requires Sized(adj, s) && u < |adj| && s.color[u] == White
    requires Sized(adj, Enter(u, s)) && Scan(adj, u, 0, Enter(u, s)) == r
    ensures Visit(adj, u, s) == r.(color := r.color[u := Black])
  {
  }

  /** A round of findBridgesAndAPs is BridgeDFS followed by the root test. */
  lemma NewTreeIs(adj: Adjacency, u: nat, s: Finder, r: Finder)
    requires Sized(adj, s) && u < |adj| && s.color[u] == White
    requires Sized(adj, Enter(u, s.(rootChildren := 0))) && Scan(adj, u, 0, Enter(u, s.(rootChildren := 0))) == r
    ensures NewTree(adj, u, s) == r.(color := r.color[u := Black], aps := if r.rootChildren > 1 then r.aps + {u} else r.aps)
  {
    VisitIs(adj, u, s.(rootChildren := 0), r);
  }

  const Star: Adjacency := [[1, 2, 3], [0], [0], [0]]

  predicate StarShape(adj: Adjacency) {
    Closed(adj) && |adj| == 4 && adj[0] == [1, 2, 3] && adj[1] == [0] && adj[2] == [0] && adj[3] == [0]
  }

  // The states of the finder on Star while vertex 0 is scanned.
  const StarE := Finder(1, [0, -1, -1, -1], [0, -1, -1, -1], [Gray, White, White, White], [-1, -1, -1, -1], [], {}, 0, [0])
  const Star1 := Finder(2, [0, 1, -1, -1], [0, 1, -1, -1], [Gray, Black, White, White], [-1, 0, -1, -1], [(0, 1)], {}, 1, [0, 1])
  const Star2 := Finder(3, [0, 1, 2, -1], [0, 1, 2, -1], [Gray, Black, Black, White], [-1, 0, 0, -1], [(0, 1), (0, 2)], {}, 2, [0, 1, 2])
  const Star3 := Finder(4, [0, 1, 2, 3], [0, 1, 2, 3], [Gray, Black, Black, Black], [-1, 0, 0, 0], [(0, 1), (0, 2), (0, 3)], {}, 3, [0, 1, 2, 3])

  lemma StarStep1(adj: Adjacency)
    requires StarShape(adj)
    ensures Step(adj, 0, 1, StarE) == Star1
  {
    LeafChild(adj, 0, 1, StarE);
  }

  lemma StarStep2(adj: Adjacency)
    requires StarShape(adj)
    ensures Step(adj, 0, 2, Star1) == Star2
  {
    LeafChild(adj, 0, 2, Star1);
  }

  lemma StarStep3(adj: Adjacency)
    requires StarShape(adj)
    ensures Step(adj, 0, 3, Star2) == Star3
  {
    LeafChild(adj, 0, 3, Star2);
  }

  lemma StarScan(adj: Adjacency)
    requires StarShape(adj)
    ensures Scan(adj, 0, 0, StarE) == Star3
  {
    StarStep1(adj);
    StarStep2(adj);
    StarStep3(adj);
    ScanStep(adj, 0, 0, StarE);
    ScanStep(adj, 0, 1, Star1);
    ScanStep(adj, 0, 2, Star2);
  }

  /** Star centred at 0: three bridges, and 0 is the only articulation point. */
  lemma StarFound(adj: Adjacency)
    requires StarShape(adj)
    ensures Found(adj).bridges == [(0, 1), (0, 2), (0, 3)] && Found(adj).aps == {0}
  {
    var s0 := Init(4);
    assert Enter(0, s0.(rootChildren := 0)) == StarE;
    StarScan(adj);
    NewTreeIs(adj, 0, s0, Star3);
    var r := NewTree(adj, 0, s0);
    assert r == Star3.(color := [Black, Black, Black, Black], aps := {0});
    RootsNoWhite(adj, 1, r);
  }

  lemma StarCase()
    ensures Closed(Star) && Found(Star).bridges == [(0, 1), (0, 2), (0, 3)] && Found(Star).aps == {0}
  {
    StarFound(Star);
  }


  const Path: Adjacency := [[1], [0, 2], [1]]

  predicate PathShape(adj: Adjacency) {
    Closed(adj) && |adj| == 3 && adj[0] == [1] && adj[1] == [0, 2] && adj[2] == [1]
  }

  // The states of the finder on Path.
  const PathE := Finder(1, [0, -1, -1], [0, -1, -1], [Gray, White, White], [-1, -1, -1], [], {}, 0, [0])
  const PathC := Finder(1, [0, -1, -1], [0, -1, -1], [Gray, White, White], [-1, 0, -1], [], {}, 1, [0])
  const PathE1 := Finder(2, [0, 1, -1], [0, 1, -1], [Gray, Gray, White], [-1, 0, -1], [], {}, 1, [0, 1])
  const Path2 := Finder(3, [0, 1, 2], [0, 1, 2], [Gray, Gray, Black], [-1, 0, 1], [(1, 2)], {1}, 1, [0, 1, 2])
  const Path3 := Finder(3, [0, 1, 2], [0, 1, 2], [Gray, Black, Black], [-1, 0, 1], [(1, 2), (0, 1)], {1}, 1, [0, 1, 2])

  lemma PathVisit1(adj: Adjacency)
    requires PathShape(adj)
    ensures Visit(adj, 1, PathC) == Path2.(color := [Gray, Black, Black])
  {
    assert Enter(1, PathC) == PathE1;
    assert Step(adj, 1, 0, PathE1) == PathE1;
    LeafChild(adj, 1, 2, PathE1);
    assert Step(adj, 1, 2, PathE1) == Path2;
    ScanStep(adj, 1, 0, PathE1);
    ScanStep(adj, 1, 1, PathE1);
    assert Scan(adj, 1, 2, Path2) == Path2;
  }

  lemma PathTree(adj: Adjacency)
    requires PathShape(adj)
    ensures NewTree(adj, 0, Init(3)) == Path3.(color := [Black, Black, Black])
  {
    assert Enter(0, Init(3).(rootChildren := 0)) == PathE;
    assert Child(0, 1, PathE) == PathC;
    PathVisit1(adj);
    assert Step(adj, 0, 1, PathE) == Path3;
    ScanStep(adj, 0, 0, PathE);
    assert Scan(adj, 0, 1, Path3) == Path3;
  }

  /** Path 0-1-2: both edges are bridges, and 1 is the only articulation point. */
  lemma PathFound(adj: Adjacency)
    requires PathShape(adj)
    ensures Found(adj).bridges == [(1, 2), (0, 1)] && Found(adj).aps == {1}
  {
    PathTree(adj);
    RootsNoWhite(adj, 1, NewTree(adj, 0, Init(3)));
  }

  lemma PathCase()
    ensures Closed(Path) && Found(Path).bridges == [(1, 2), (0, 1)] && Found(Path).aps == {1}
  {
    PathFound(Path);
  }


  const Triangle: Adjacency := [[1, 2], [0, 2], [0, 1]]

  predicate TriangleShape(adj: Adjacency) {
    Closed(adj) && |adj| == 3 && adj[0] == [1, 2] && adj[1] == [0, 2] && adj[2] == [0, 1]
  }

  // The states of the finder on Triangle.
  const TriE := Finder(1, [0, -1, -1], [0, -1, -1], [Gray, White, White], [-1, -1, -1], [], {}, 0, [0])
  const TriC1 := Finder(1, [0, -1, -1], [0, -1, -1], [Gray, White, White], [-1, 0, -1], [], {}, 1, [0])
  const TriE1 := Finder(2, [0, 1, -1], [0, 1, -1], [Gray, Gray, White], [-1, 0, -1], [], {}, 1, [0, 1])
  const TriC2 := Finder(2, [0, 1, -1], [0, 1, -1], [Gray, Gray, White], [-1, 0, 1], [], {}, 1, [0, 1])
  const TriE2 := Finder(3, [0, 1, 2], [0, 1, 2], [Gray, Gray, Gray], [-1, 0, 1], [], {}, 1, [0, 1, 2])
  const TriS2 := Finder(3, [0, 1, 2], [0, 1, 0], [Gray, Gray, Gray], [-1, 0, 1], [], {}, 1, [0, 1, 2])
  const TriS1 := Finder(3, [0, 1, 2], [0, 0, 0], [Gray, Gray, Black], [-1, 0, 1], [], {}, 1, [0, 1, 2])
  const TriS0 := Finder(3, [0, 1, 2], [0, 0, 0], [Gray, Black, Black], [-1, 0, 1], [], {}, 1, [0, 1, 2])

  lemma TriangleVisit2(adj: Adjacency)
    requires TriangleShape(adj)
    ensures Visit(adj, 2, TriC2) == TriS2.(color := [Gray, Gray, Black])
  {
    assert Enter(2, TriC2) == TriE2;
    assert Step(adj, 2, 0, TriE2) == TriS2;
    assert Step(adj, 2, 1, TriS2) == TriS2;
    ScanStep(adj, 2, 0, TriE2);
    ScanStep(adj, 2, 1, TriS2);
    assert Scan(adj, 2, 2, TriS2) == TriS2;
  }

  lemma TriangleVisit1(adj: Adjacency)
    requires TriangleShape(adj)
    ensures Visit(adj, 1, TriC1) == TriS1.(color := [Gray, Black, Black])
  {
    assert Enter(1, TriC1) == TriE1;
    assert Step(adj, 1, 0, TriE1) == TriE1;
    assert Child(1, 2, TriE1) == TriC2;
    TriangleVisit2(adj);
    assert Step(adj, 1, 2, TriE1) == TriS1;
    ScanStep(adj, 1, 0, TriE1);
    ScanStep(adj, 1, 1, TriE1);
    assert Scan(adj, 1, 2, TriS1) == TriS1;
  }

  lemma TriangleTree(adj: Adjacency)
    requires TriangleShape(adj)
    ensures NewTree(adj, 0, Init(3)) == TriS0.(color := [Black, Black, Black])
  {
    assert Enter(0, Init(3).(rootChildren := 0)) == TriE;
    assert Child(0, 1, TriE) == TriC1;
    TriangleVisit1(adj);
    assert Step(adj, 0, 1, TriE) == TriS0;
    assert Step(adj, 0, 2, TriS0) == TriS0;
    ScanStep(adj, 0, 0, TriE);
    ScanStep(adj, 0, 1, TriS0);
    assert Scan(adj, 0, 2, TriS0) == TriS0;
  }

  /** Triangle: no bridges and no articulation points. */
  lemma TriangleFound(adj: Adjacency)
    requires TriangleShape(adj)
    ensures Found(adj).bridges == [] && Found(adj).aps == {}
  {
    TriangleTree(adj);
    RootsNoWhite(adj, 1, NewTree(adj, 0, Init(3)));
  }

  lemma TriangleCase()
    ensures Closed(Triangle) && Found(Triangle).bridges == [] && Found(Triangle).aps == {}
  {
    TriangleFound(Triangle);
  }


  const TwoEdges: Adjacency := [[1], [0], [3], [2]]

  predicate TwoEdgesShape(adj: Adjacency) {
    Closed(adj) && |adj| == 4 && adj[0] == [1] && adj[1] == [0] && adj[2] == [3] && adj[3] == [2]
  }

  // The states of the finder on TwoEdges.
  const TwoE0 := Finder(1, [0, -1, -1, -1], [0, -1, -1, -1], [Gray, White, White, White], [-1, -1, -1, -1], [], {}, 0, [0])
  const Two1 := Finder(2, [0, 1, -1, -1], [0, 1, -1, -1], [Gray, Black, White, White], [-1, 0, -1, -1], [(0, 1)], {}, 1, [0, 1])
  const TwoE2 := Finder(3, [0, 1, 2, -1], [0, 1, 2, -1], [Black, Black, Gray, White], [-1, 0, -1, -1], [(0, 1)], {}, 0, [0, 1, 2])
  const Two3 := Finder(4, [0, 1, 2, 3], [0, 1, 2, 3], [Black, Black, Gray, Black], [-1, 0, -1, 2], [(0, 1), (2, 3)], {}, 1, [0, 1, 2, 3])

  lemma TwoEdgesFirstScan(adj: Adjacency)
    requires TwoEdgesShape(adj)
    ensures Scan(adj, 0, 0, TwoE0) == Two1
  {
    LeafChild(adj, 0, 1, TwoE0);
    assert Step(adj, 0, 1, TwoE0) == Two1;
    ScanStep(adj, 0, 0, TwoE0);
    assert Scan(adj, 0, 1, Two1) == Two1;
  }

  lemma TwoEdgesFirstTree(adj: Adjacency)
    requires TwoEdgesShape(adj)
    ensures NewTree(adj, 0, Init(4)) == Two1.(color := [Black, Black, White, White])
  {
    assert Enter(0, Init(4).(rootChildren := 0)) == TwoE0;
    TwoEdgesFirstScan(adj);
    NewTreeIs(adj, 0, Init(4), Two1);
  }

  lemma TwoEdgesSecondScan(adj: Adjacency)
    requires TwoEdgesShape(adj)
    ensures Scan(adj, 2, 0, TwoE2) == Two3
  {
    LeafChild(adj, 2, 3, TwoE2);
    assert Step(adj, 2, 3, TwoE2) == Two3;
    ScanStep(adj, 2, 0, TwoE2);
    assert Scan(adj, 2, 1, Two3) == Two3;
  }

  lemma TwoEdgesSecondTree(adj: Adjacency)
    requires TwoEdgesShape(adj)
    ensures Sized(adj, Two1.(color := [Black, Black, White, White]))
    ensures NewTree(adj, 2, Two1.(color := [Black, Black, White, White])) == Two3.(color := [Black, Black, Black, Black])
  {
    var r0 := Two1.(color := [Black, Black, White, White]);
    assert Enter(2, r0.(rootChildren := 0)) == TwoE2;
    TwoEdgesSecondScan(adj);
    NewTreeIs(adj, 2, r0, Two3);
  }

  /** Two disjoint edges: both are bridges, and there is no articulation point. */
  lemma TwoEdgesFound(adj: Adjacency)
    requires TwoEdgesShape(adj)
    ensures Found(adj).bridges == [(0, 1), (2, 3)] && Found(adj).aps == {}
  {
    TwoEdgesFirstTree(adj);
    TwoEdgesSecondTree(adj);
    var r0 := NewTree(adj, 0, Init(4));
    assert Roots(adj, 1, r0) == Roots(adj, 2, r0);
    var r2 := NewTree(adj, 2, r0);
    assert Roots(adj, 2, r0) == Roots(adj, 3, r2);
    RootsNoWhite(adj, 3, r2);
  }

  lemma TwoEdgesCase()
    ensures Closed(TwoEdges) && Found(TwoEdges).bridges == [(0, 1), (2, 3)] && Found(TwoEdges).aps == {}
  {
    TwoEdgesFound(TwoEdges);
  }


  /** Edges 0-1, 1-2, 1-3, 3-4 and 2-4. */
  const Cycle4: Adjacency := [[1], [0, 2, 3], [1, 4], [1, 4], [2, 3]]

  predicate Cycle4Shape(adj: Adjacency) {
    Closed(adj) && |adj| == 5 && adj[0] == [1] && adj[1] == [0, 2, 3] && adj[2] == [1, 4] && adj[3] == [1, 4] && adj[4] == [2, 3]
  }

  // The states of the finder on Cycle4: vertices are entered in the order
  // 0, 1, 2, 4, 3.
  const CE0 := Finder(1, [0, -1, -1, -1, -1], [0, -1, -1, -1, -1], [Gray, White, White, White, White], [-1, -1, -1, -1, -1], [], {}, 0, [0])
  const CC1 := CE0.(parent := [-1, 0, -1, -1, -1], rootChildren := 1)
  const CE1 := Finder(2, [0, 1, -1, -1, -1], [0, 1, -1, -1, -1], [Gray, Gray, White, White, White], [-1, 0, -1, -1, -1], [], {}, 1, [0, 1])
  const CC2 := CE1.(parent := [-1, 0, 1, -1, -1])
  const CE2 := Finder(3, [0, 1, 2, -1, -1], [0, 1, 2, -1, -1], [Gray, Gray, Gray, White, White], [-1, 0, 1, -1, -1], [], {}, 1, [0, 1, 2])
  const CC4 := CE2.(parent := [-1, 0, 1, -1, 2])
  const CE4 := Finder(4, [0, 1, 2, -1, 3], [0, 1, 2, -1, 3], [Gray, Gray, Gray, White, Gray], [-1, 0, 1, -1, 2], [], {}, 1, [0, 1, 2, 4])
  const CC3 := CE4.(parent := [-1, 0, 1, 4, 2])
  const CE3 := Finder(5, [0, 1, 2, 4, 3], [0, 1, 2, 4, 3], [Gray, Gray, Gray, Gray, Gray], [-1, 0, 1, 4, 2], [], {}, 1, [0, 1, 2, 4, 3])
  const CS3 := CE3.(low := [0, 1, 2, 1, 3])
  const CS4 := Finder(5, [0, 1, 2, 4, 3], [0, 1, 2, 1, 1], [Gray, Gray, Gray, Black, Gray], [-1, 0, 1, 4, 2], [], {}, 1, [0, 1, 2, 4, 3])
  const CS2 := Finder(5, [0, 1, 2, 4, 3], [0, 1, 1, 1, 1], [Gray, Gray, Gray, Black, Black], [-1, 0, 1, 4, 2], [], {}, 1, [0, 1, 2, 4, 3])
  const CS1 := Finder(5, [0, 1, 2, 4, 3], [0, 1, 1, 1, 1], [Gray, Gray, Black, Black, Black], [-1, 0, 1, 4, 2], [], {1}, 1, [0, 1, 2, 4, 3])
  const CS0 := Finder(5, [0, 1, 2, 4, 3], [0, 1, 1, 1, 1], [Gray, Black, Black, Black, Black], [-1, 0, 1, 4, 2], [(0, 1)], {1}, 1, [0, 1, 2, 4, 3])

  lemma Cycle4Visit3(adj: Adjacency)
    requires Cycle4Shape(adj)
    ensures Visit(adj, 3, CC3) == CS3.(color := [Gray, Gray, Gray, Black, Gray])
  {
    assert Enter(3, CC3) == CE3;
    assert Step(adj, 3, 1, CE3) == CS3;
    assert Step(adj, 3, 4, CS3) == CS3;
    ScanStep(adj, 3, 0, CE3);
    ScanStep(adj, 3, 1, CS3);
    assert Scan(adj, 3, 2, CS3) == CS3;
  }

  lemma Cycle4Visit4(adj: Adjacency)
    requires Cycle4Shape(adj)
    ensures Visit(adj, 4, CC4) == CS4.(color := [Gray, Gray, Gray, Black, Black])
  {
    assert Enter(4, CC4) == CE4;
    assert Step(adj, 4, 2, CE4) == CE4;
    assert Child(4, 3, CE4) == CC3;
    Cycle4Visit3(adj);
    assert Step(adj, 4, 3, CE4) == CS4;
    ScanStep(adj, 4, 0, CE4);
    ScanStep(adj, 4, 1, CE4);
    assert Scan(adj, 4, 2, CS4) == CS4;
  }

  lemma Cycle4Visit2(adj: Adjacency)
    requires Cycle4Shape(adj)
    ensures Visit(adj, 2, CC2) == CS2.(color := [Gray, Gray, Black, Black, Black])
  {
    assert Enter(2, CC2) == CE2;
    assert Step(adj, 2, 1, CE2) == CE2;
    assert Child(2, 4, CE2) == CC4;
    Cycle4Visit4(adj);
    assert Step(adj, 2, 4, CE2) == CS2;
    ScanStep(adj, 2, 0, CE2);
    ScanStep(adj, 2, 1, CE2);
    assert Scan(adj, 2, 2, CS2) == CS2;
  }

  lemma Cycle4Visit1(adj: Adjacency)
    requires Cycle4Shape(adj)
    ensures Visit(adj, 1, CC1) == CS1.(color := [Gray, Black, Black, Black, Black])
  {
    assert Enter(1, CC1) == CE1;
    assert Step(adj, 1, 0, CE1) == CE1;
    assert Child(1, 2, CE1) == CC2;
    Cycle4Visit2(adj);
    assert Step(adj, 1, 2, CE1) == CS1;
    assert Step(adj, 1, 3, CS1) == CS1;
    ScanStep(adj, 1, 0, CE1);
    ScanStep(adj, 1, 1, CE1);
    ScanStep(adj, 1, 2, CS1);
    assert Scan(adj, 1, 3, CS1) == CS1;
  }

  lemma Cycle4Scan0(adj: Adjacency)
    requires Cycle4Shape(adj)
    ensures Scan(adj, 0, 0, CE0) == CS0
  {
    assert Child(0, 1, CE0) == CC1;
    Cycle4Visit1(adj);
    assert Step(adj, 0, 1, CE0) == CS0;
    ScanStep(adj, 0, 0, CE0);
    assert Scan(adj, 0, 1, CS0) == CS0;
  }

  lemma Cycle4Tree(adj: Adjacency)
    requires Cycle4Shape(adj)
    ensures NewTree(adj, 0, Init(5)) == CS0.(color := [Black, Black, Black, Black, Black])
  {
    assert Enter(0, Init(5).(rootChildren := 0)) == CE0;
    Cycle4Scan0(adj);
    NewTreeIs(adj, 0, Init(5), CS0);
  }

  /** Edges 0-1, 1-2, 1-3, 3-4, 2-4: the one bridge is 0-1, and 1 is the
      one articulation point. */
  lemma Cycle4Found(adj: Adjacency)
    requires Cycle4Shape(adj)
    ensures Found(adj).bridges == [(0, 1)] && Found(adj).aps == {1}
  {
    Cycle4Tree(adj);
    RootsNoWhite(adj, 1, NewTree(adj, 0, Init(5)));
  }

  lemma Cycle4Case()
    ensures Closed(Cycle4) && Found(Cycle4).bridges == [(0, 1)] && Found(Cycle4).aps == {1}
  {
    Cycle4Found(Cycle4);
  }

}

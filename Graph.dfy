/** The shared vocabulary of the graph toolkit (graph.hpp): edge records,
    neighbour entries and their ordering, vertex colours, the visitor hooks
    as events, and the neighbour-list view every traversal works on. */
module Graph {

  /** std::optional: "no edge" is a value distinct from every weight. */
  datatype Option<T> = None | Some(value: T)

  /** An edge record; nothing links the three fields. */
  datatype Edge<W> = Edge(from: nat, to: nat, weight: W)

  /** An entry of a per-vertex adjacency set. */
  datatype NeighborInfo<W> = NeighborInfo(neighbor: nat, weight: W)

  /** NeighborInfo::operator<, which looks at the neighbour id only. */
  predicate Less<W>(a: NeighborInfo<W>, b: NeighborInfo<W>) {
    a.neighbor < b.neighbor
  }

  /** The equivalence std::set derives from operator<: neither is less. */
  predicate Equivalent<W>(a: NeighborInfo<W>, b: NeighborInfo<W>) {
    !Less(a, b) && !Less(b, a)
  }

  /** Two entries for the same neighbour are equivalent whatever their weights. */
  lemma EquivalentIffSameNeighbor<W>(a: NeighborInfo<W>, b: NeighborInfo<W>)
    ensures Equivalent(a, b) <==> a.neighbor == b.neighbor
  {
  }

  /** operator< is irreflexive and transitive: a strict order on neighbour ids. */
  lemma LessIsStrictOrder<W>(a: NeighborInfo<W>, b: NeighborInfo<W>, c: NeighborInfo<W>)
    ensures !Less(a, a)
    ensures Less(a, b) && Less(b, c) ==> Less(a, c)
    ensures Less(a, b) ==> !Less(b, a)
  {
  }

  /** Traversal status of a vertex. */
  datatype Color = White | Gray | Black

  /** One call of a visitor hook, with the vertex or edge it was given. */
  datatype Event =
    | DiscoverVertex(v: nat)
    | ExamineVertex(v: nat)
    | ExamineEdge(u: nat, v: nat)
    | TreeEdge(u: nat, v: nat)
    | NonTreeEdge(u: nat, v: nat)
    | FinishVertex(v: nat)

  /** The six hooks a visitor may override. */
  datatype Hook = OnDiscover | OnExamineVertex | OnExamineEdge | OnTreeEdge | OnNonTreeEdge | OnFinish

  function HookOf(e: Event): Hook {
    match e
    case DiscoverVertex(_) => OnDiscover
    case ExamineVertex(_) => OnExamineVertex
    case ExamineEdge(_, _) => OnExamineEdge
    case TreeEdge(_, _) => OnTreeEdge
    case NonTreeEdge(_, _) => OnNonTreeEdge
    case FinishVertex(_) => OnFinish
  }

  /** The base Visitor overrides no hook: all six bodies are empty. */
  const DefaultVisitor: set<Hook> := {}

  /** What a visitor overriding `hooks` gets to see of a run's events, in order. */
  function Observed(hooks: set<Hook>, t: seq<Event>): (r: seq<Event>)
    ensures |r| <= |t|
    ensures forall e | e in r :: e in t && HookOf(e) in hooks
  {
    if t == [] then []
    else Observed(hooks, t[..|t| - 1]) + (if HookOf(t[|t| - 1]) in hooks then [t[|t| - 1]] else [])
  }

  /** A visitor sees exactly the events of the run whose hook it overrides. */
  lemma {:induction false} ObservedExactly(hooks: set<Hook>, t: seq<Event>)
    ensures forall e :: e in Observed(hooks, t) <==> e in t && HookOf(e) in hooks
  {
    if t != [] {
      var init, last := t[..|t| - 1], t[|t| - 1];
      ObservedExactly(hooks, init);
      assert t == init + [last];
    }
  }

  /** Observation distributes over consecutive stretches of a run, so the
      order of the run is the order the visitor sees. */
  lemma {:induction false} ObservedAppend(hooks: set<Hook>, a: seq<Event>, b: seq<Event>)
    ensures Observed(hooks, a + b) == Observed(hooks, a) + Observed(hooks, b)
    decreases |b|
  {
    if b == [] {
      assert a + b == a;
    } else {
      var b' := b[..|b| - 1];
      var e := b[|b| - 1];
      assert (a + b)[..|a + b| - 1] == a + b' && (a + b)[|a + b| - 1] == e;
      ObservedAppend(hooks, a, b');
      var x := if HookOf(e) in hooks then [e] else [];
      assert Observed(hooks, a) + Observed(hooks, b') + x == Observed(hooks, a) + (Observed(hooks, b') + x);
    }
  }

  /** A default visitor observes nothing of any run. */
  lemma {:induction false} DefaultVisitorObservesNothing(t: seq<Event>)
    ensures Observed(DefaultVisitor, t) == []
  {
    if t != [] {
      DefaultVisitorObservesNothing(t[..|t| - 1]);
    }
  }

  /** A visitor overriding the hook of every event of a run sees the whole run. */
  lemma {:induction false} ObservedEverything(hooks: set<Hook>, t: seq<Event>)
    requires forall e | e in t :: HookOf(e) in hooks
    ensures Observed(hooks, t) == t
  {
    if t != [] {
      var init, last := t[..|t| - 1], t[|t| - 1];
      assert t == init + [last];
      ObservedEverything(hooks, init);
    }
  }

  /** A visitor overriding every hook sees every event. */
  lemma FullVisitorObservesAll(t: seq<Event>)
    ensures Observed({OnDiscover, OnExamineVertex, OnExamineEdge, OnTreeEdge, OnNonTreeEdge, OnFinish}, t) == t
  {
    ObservedEverything({OnDiscover, OnExamineVertex, OnExamineEdge, OnTreeEdge, OnNonTreeEdge, OnFinish}, t);
  }

  // Projections of a trace onto what the test visitors record.

  function Discovered(t: seq<Event>): seq<nat> {
    if t == [] then []
    else Discovered(t[..|t| - 1]) + (if t[|t| - 1].DiscoverVertex? then [t[|t| - 1].v] else [])
  }

  function Finished(t: seq<Event>): seq<nat> {
    if t == [] then []
    else Finished(t[..|t| - 1]) + (if t[|t| - 1].FinishVertex? then [t[|t| - 1].v] else [])
  }

  function TreeEdges(t: seq<Event>): seq<(nat, nat)> {
    if t == [] then []
    else TreeEdges(t[..|t| - 1]) + (if t[|t| - 1].TreeEdge? then [(t[|t| - 1].u, t[|t| - 1].v)] else [])
  }

  function NonTreeEdges(t: seq<Event>): seq<(nat, nat)> {
    if t == [] then []
    else NonTreeEdges(t[..|t| - 1]) + (if t[|t| - 1].NonTreeEdge? then [(t[|t| - 1].u, t[|t| - 1].v)] else [])
  }

  function ExaminedVertices(t: seq<Event>): seq<nat> {
    if t == [] then []
    else ExaminedVertices(t[..|t| - 1]) + (if t[|t| - 1].ExamineVertex? then [t[|t| - 1].v] else [])
  }

  /** How every projection grows when one event is appended. */
  lemma Snoc(t: seq<Event>, e: Event)
    ensures Discovered(t + [e]) == Discovered(t) + (if e.DiscoverVertex? then [e.v] else [])
    ensures Finished(t + [e]) == Finished(t) + (if e.FinishVertex? then [e.v] else [])
    ensures TreeEdges(t + [e]) == TreeEdges(t) + (if e.TreeEdge? then [(e.u, e.v)] else [])
    ensures NonTreeEdges(t + [e]) == NonTreeEdges(t) + (if e.NonTreeEdge? then [(e.u, e.v)] else [])
    ensures ExaminedVertices(t + [e]) == ExaminedVertices(t) + (if e.ExamineVertex? then [e.v] else [])
  {
    assert (t + [e])[..|t|] == t;
  }

  /** The vertex projections of a concatenation concatenate. */
  lemma {:induction false} AppendVertices(t: seq<Event>, t': seq<Event>)
    ensures Discovered(t + t') == Discovered(t) + Discovered(t')
    ensures Finished(t + t') == Finished(t) + Finished(t')
    ensures ExaminedVertices(t + t') == ExaminedVertices(t) + ExaminedVertices(t')
    decreases |t'|
  {
    if t' == [] {
      assert t + t' == t;
    } else {
      var init := t'[..|t'| - 1];
      var e := t'[|t'| - 1];
      AppendVertices(t, init);
      assert t + t' == (t + init) + [e];
      assert t' == init + [e];
      Snoc(t + init, e);
      Snoc(init, e);
    }
  }

  /** The edge projections of a concatenation concatenate. */
  lemma {:induction false} AppendEdges(t: seq<Event>, t': seq<Event>)
    ensures TreeEdges(t + t') == TreeEdges(t) + TreeEdges(t')
    ensures NonTreeEdges(t + t') == NonTreeEdges(t) + NonTreeEdges(t')
    decreases |t'|
  {
    if t' == [] {
      assert t + t' == t;
    } else {
      var init := t'[..|t'| - 1];
      var e := t'[|t'| - 1];
      AppendEdges(t, init);
      assert t + t' == (t + init) + [e];
      assert t' == init + [e];
      Snoc(t + init, e);
      Snoc(init, e);
    }
  }

  /** Every projection of a concatenation is the concatenation of the projections. */
  lemma Append(t: seq<Event>, t': seq<Event>)
    ensures Discovered(t + t') == Discovered(t) + Discovered(t')
    ensures Finished(t + t') == Finished(t) + Finished(t')
    ensures TreeEdges(t + t') == TreeEdges(t) + TreeEdges(t')
    ensures NonTreeEdges(t + t') == NonTreeEdges(t) + NonTreeEdges(t')
    ensures ExaminedVertices(t + t') == ExaminedVertices(t) + ExaminedVertices(t')
  {
    AppendVertices(t, t');
    AppendEdges(t, t');
  }

  /** Every examineEdge is immediately followed by treeEdge or nonTreeEdge
      for the same pair, and every treeEdge or nonTreeEdge immediately follows
      the examineEdge of its pair: each examined edge is classified once. */
  ghost predicate EdgesClassified(t: seq<Event>) {
    && (forall i | 0 <= i < |t| && t[i].ExamineEdge? ::
          i + 1 < |t| && (t[i + 1] == TreeEdge(t[i].u, t[i].v) || t[i + 1] == NonTreeEdge(t[i].u, t[i].v)))
    && (forall i | 0 <= i < |t| && (t[i].TreeEdge? || t[i].NonTreeEdge?) ::
          0 < i && t[i - 1] == ExamineEdge(t[i].u, t[i].v))
  }

  /** The trace does not end in the middle of classifying an edge. */
  predicate Settled(t: seq<Event>) {
    t == [] || !t[|t| - 1].ExamineEdge?
  }

  /** Appending a vertex event to a settled trace keeps every edge classified. */
  lemma ClassifiedSnocVertex(t: seq<Event>, e: Event)
    requires EdgesClassified(t) && Settled(t)
    requires e.DiscoverVertex? || e.ExamineVertex? || e.FinishVertex?
    ensures EdgesClassified(t + [e]) && Settled(t + [e])
  {
  }

  /** Appending an examined edge and its classification keeps every edge classified. */
  lemma ClassifiedSnocEdge(t: seq<Event>, u: nat, v: nat, tree: bool)
    requires EdgesClassified(t) && Settled(t)
    ensures var c := if tree then TreeEdge(u, v) else NonTreeEdge(u, v);
      EdgesClassified(t + [ExamineEdge(u, v), c]) && Settled(t + [ExamineEdge(u, v), c])
  {
  }

  /** The same pairing of examined edges and classifications, stated by
      recursion from the end of the trace: a classification is preceded by
      the examination of its pair, and the trace does not end in an
      examination. */
  predicate Paired(t: seq<Event>)
    decreases |t|
  {
    if t == [] then true
    else
      var e := t[|t| - 1];
      if e.ExamineEdge? then false
      else if e.TreeEdge? || e.NonTreeEdge? then
        |t| >= 2 && t[|t| - 2] == ExamineEdge(e.u, e.v) && Paired(t[..|t| - 2])
      else Paired(t[..|t| - 1])
  }

  lemma PairedSnocVertex(t: seq<Event>, e: Event)
    requires Paired(t)
    requires e.DiscoverVertex? || e.ExamineVertex? || e.FinishVertex?
    ensures Paired(t + [e])
  {
    assert (t + [e])[..|t|] == t;
  }

  lemma PairedSnocEdge(t: seq<Event>, u: nat, v: nat, tree: bool)
    requires Paired(t)
    ensures var c := if tree then TreeEdge(u, v) else NonTreeEdge(u, v);
      Paired(t + [ExamineEdge(u, v)] + [c])
  {
    var c := if tree then TreeEdge(u, v) else NonTreeEdge(u, v);
    assert (t + [ExamineEdge(u, v)] + [c])[..|t|] == t;
  }

  /** The recursive statement implies the one by indices. */
  lemma {:induction false} PairedClassified(t: seq<Event>)
    requires Paired(t)
    ensures EdgesClassified(t) && Settled(t)
    decreases |t|
  {
    if t != [] {
      var e := t[|t| - 1];
      if e.TreeEdge? || e.NonTreeEdge? {
        var init := t[..|t| - 2];
        PairedClassified(init);
        ClassifiedSnocEdge(init, e.u, e.v, e.TreeEdge?);
        assert t == init + [ExamineEdge(e.u, e.v), e];
      } else {
        var init := t[..|t| - 1];
        PairedClassified(init);
        ClassifiedSnocVertex(init, e);
        assert t == init + [e];
      }
    }
  }

  /** The neighbour-list view of a representation: adj[u] is what
      neighbors(u) yields, in order, and |adj| is Size(). */
  type Adjacency = seq<seq<nat>>

  /** Every neighbour id is a vertex id, so a colour vector of Size() entries can be indexed by it. */
  predicate Closed(adj: Adjacency) {
    forall u, k | 0 <= u < |adj| && 0 <= k < |adj[u]| :: adj[u][k] < |adj|
  }

  /** p is a walk along neighbour lists. */
  ghost predicate IsPath(adj: Adjacency, p: seq<nat>) {
    && |p| > 0
    && (forall i | 0 <= i < |p| :: p[i] < |adj|)
    && (forall i | 0 <= i < |p| - 1 :: p[i + 1] in adj[p[i]])
  }

  ghost predicate Reachable(adj: Adjacency, s: nat, t: nat) {
    exists p :: IsPath(adj, p) && p[0] == s && p[|p| - 1] == t
  }

  // Distances from a start vertex, as breadth-first search explores them.

  /** w together with every vertex one step from a vertex of w. */
  ghost function Expand(adj: Adjacency, w: set<nat>): set<nat> {
    w + set u, j | u in w && u < |adj| && 0 <= j < |adj[u]| :: adj[u][j]
  }

  /** The vertices reachable from start in at most k steps. */
  ghost function Within(adj: Adjacency, start: nat, k: nat): set<nat> {
    if k == 0 then {start} else Expand(adj, Within(adj, start, k - 1))
  }

  /** v is reachable from start in some number of steps. */
  ghost predicate Reached(adj: Adjacency, start: nat, v: nat) {
    exists k: nat :: v in Within(adj, start, k)
  }

  /** The least r from i on with v within r steps, searching up to k. */
  ghost function Lowest(adj: Adjacency, start: nat, v: nat, i: nat, k: nat): nat
    requires i <= k && v in Within(adj, start, k)
    decreases k - i
  {
    if v in Within(adj, start, i) then i else Lowest(adj, start, v, i + 1, k)
  }

  /** The distance from start to v: the fewest steps that reach v. */
  ghost function Dist(adj: Adjacency, start: nat, v: nat): (r: nat)
    requires Reached(adj, start, v)
    ensures v in Within(adj, start, r)
    ensures forall j: nat | j < r :: v !in Within(adj, start, j)
  {
    var k: nat :| v in Within(adj, start, k);
    LowestIsLeast(adj, start, v, 0, k);
    Lowest(adj, start, v, 0, k)
  }

  /** The search from i finds the least number of steps, given that none
      below i reaches v. */
  lemma {:induction false} LowestIsLeast(adj: Adjacency, start: nat, v: nat, i: nat, k: nat)
    requires i <= k && v in Within(adj, start, k)
    requires forall j: nat | j < i :: v !in Within(adj, start, j)
    ensures var r := Lowest(adj, start, v, i, k);
      v in Within(adj, start, r) && forall j: nat | j < r :: v !in Within(adj, start, j)
    decreases k - i
  {
    var w := Within(adj, start, i);
    if v !in w {
      forall j: nat | j < i + 1
        ensures v !in Within(adj, start, j)
      {
        if j == i {
          assert Within(adj, start, j) == w;
        }
      }
      LowestIsLeast(adj, start, v, i + 1, k);
    }
  }

  /** A vertex within i steps is within any larger number of steps. */
  lemma {:induction false} WithinGrows(adj: Adjacency, start: nat, i: nat, j: nat)
    requires i <= j
    ensures Within(adj, start, i) <= Within(adj, start, j)
  {
    if i < j {
      WithinGrows(adj, start, i, j - 1);
    }
  }

  /** One step along an edge adds at most one to the distance. */
  lemma StepDist(adj: Adjacency, start: nat, u: nat, v: nat)
    requires Reached(adj, start, u) && u < |adj| && v in adj[u]
    ensures Reached(adj, start, v) && Dist(adj, start, v) <= Dist(adj, start, u) + 1
  {
    var k := Dist(adj, start, u);
    var j :| 0 <= j < |adj[u]| && adj[u][j] == v;
    assert v in Within(adj, start, k + 1);
  }

  /** Every vertex at a positive distance d has a neighbour-list predecessor
      at distance d - 1. */
  lemma Predecessor(adj: Adjacency, start: nat, x: nat) returns (y: nat)
    requires Reached(adj, start, x) && Dist(adj, start, x) > 0
    ensures y < |adj| && x in adj[y]
    ensures Reached(adj, start, y) && Dist(adj, start, y) + 1 == Dist(adj, start, x)
  {
    var d := Dist(adj, start, x);
    assert x !in Within(adj, start, d - 1);
    var j;
    y, j :| y in Within(adj, start, d - 1) && y < |adj| && 0 <= j < |adj[y]| && adj[y][j] == x;
    assert Reached(adj, start, y);
    StepDist(adj, start, y, x);
  }

  /** The last vertex of a walk of k + 1 vertices from start is within k steps. */
  lemma {:induction false} PathWithin(adj: Adjacency, start: nat, p: seq<nat>)
    requires IsPath(adj, p) && p[0] == start
    ensures p[|p| - 1] in Within(adj, start, |p| - 1)
  {
    if |p| > 1 {
      var q := p[..|p| - 1];
      assert IsPath(adj, q);
      PathWithin(adj, start, q);
      var u := q[|q| - 1];
      var j :| 0 <= j < |adj[u]| && adj[u][j] == p[|p| - 1];
    }
  }

  /** Every vertex within k steps ends a walk of at most k + 1 vertices from start. */
  lemma {:induction false} WithinPath(adj: Adjacency, start: nat, k: nat, v: nat) returns (p: seq<nat>)
    requires Closed(adj) && start < |adj| && v in Within(adj, start, k)
    ensures IsPath(adj, p) && p[0] == start && p[|p| - 1] == v && |p| <= k + 1
  {
    if k == 0 {
      p := [start];
    } else if v in Within(adj, start, k - 1) {
      p := WithinPath(adj, start, k - 1, v);
    } else {
      var u, j :| u in Within(adj, start, k - 1) && u < |adj| && 0 <= j < |adj[u]| && adj[u][j] == v;
      var q := WithinPath(adj, start, k - 1, u);
      p := q + [v];
      assert IsPath(adj, p);
    }
  }

  /** The distance is the length of a shortest walk: some walk from start to
      v has Dist + 1 vertices and none has fewer; a vertex is reached iff
      it is reachable. */
  lemma DistIsShortest(adj: Adjacency, start: nat, v: nat)
    requires Closed(adj) && start < |adj|
    ensures Reached(adj, start, v) <==> Reachable(adj, start, v)
    ensures Reached(adj, start, v) ==>
      && (exists p :: IsPath(adj, p) && p[0] == start && p[|p| - 1] == v && |p| == Dist(adj, start, v) + 1)
      && (forall p | IsPath(adj, p) && p[0] == start && p[|p| - 1] == v :: Dist(adj, start, v) + 1 <= |p|)
  {
    if Reachable(adj, start, v) {
      var p :| IsPath(adj, p) && p[0] == start && p[|p| - 1] == v;
      PathWithin(adj, start, p);
    }
    if Reached(adj, start, v) {
        var p := WithinPath(adj, start, Dist(adj, start, v), v);
      PathWithin(adj, start, p);
      forall p | IsPath(adj, p) && p[0] == start && p[|p| - 1] == v
        ensures Dist(adj, start, v) + 1 <= |p|
      {
        PathWithin(adj, start, p);
      }
    }
  }

  /** Number of White entries among the first n of a colour vector. */
  function WhiteUpTo(c: seq<Color>, n: nat): (r: nat)
    requires n <= |c|
    ensures r <= n
  {
    if n == 0 then 0 else WhiteUpTo(c, n - 1) + (if c[n - 1] == White then 1 else 0)
  }

  /** Number of White entries of a colour vector. */
  function CountWhite(c: seq<Color>): (r: nat)
    ensures r <= |c|
  {
    WhiteUpTo(c, |c|)
  }

  lemma {:induction false} WhiteUpToUpdate(c: seq<Color>, i: nat, x: Color, n: nat)
    requires i < |c| && n <= |c|
    ensures WhiteUpTo(c[i := x], n) + (if i < n && c[i] == White then 1 else 0)
         == WhiteUpTo(c, n) + (if i < n && x == White then 1 else 0)
  {
    if n > 0 {
      WhiteUpToUpdate(c, i, x, n - 1);
    }
  }

  /** Recolouring one vertex changes the White count by what that vertex gained or lost. */
  lemma CountWhiteUpdate(c: seq<Color>, i: nat, x: Color)
    requires i < |c|
    ensures CountWhite(c[i := x]) + (if c[i] == White then 1 else 0) == CountWhite(c) + (if x == White then 1 else 0)
  {
    WhiteUpToUpdate(c, i, x, |c|);
  }

  /** Colours only advance White -> Gray -> Black. */
  function Rank(c: Color): nat {
    match c
    case White => 0
    case Gray => 1
    case Black => 2
  }
}

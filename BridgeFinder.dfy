/** BridgesAndArticulationPoints (BridgeFinder.cpp): Tarjan's low-link
    depth-first search. Every vertex gets an entry time and a low value (the
    smallest entry time reachable through its DFS subtree and one non-tree
    edge); a tree edge (u, v) is a bridge when low[v] > time_in[u], a
    non-root u is an articulation point when some tree child v has
    low[v] >= time_in[u], and a root is one when it has more than one tree
    child. The graph is the neighbour-list view of the representation the
    finder was built on. */
module BridgeFinder {
  import opened Seqs
  import opened Graph

  /** All the finder's fields, plus the order in which vertices were entered. */
  datatype Finder = Finder(
    time: nat,
    tin: seq<int>,
    low: seq<int>,
    color: seq<Color>,
    parent: seq<int>,
    bridges: seq<(nat, nat)>,
    aps: set<nat>,
    rootChildren: nat,
    order: seq<nat>)

  function Min(a: int, b: int): int {
    if a <= b then a else b
  }

  /** One entry per vertex in every per-vertex vector. */
  predicate Sized(adj: Adjacency, s: Finder) {
    Closed(adj) && |s.tin| == |adj| && |s.low| == |adj| && |s.color| == |adj| && |s.parent| == |adj|
  }

  /** The state right after construction: no vertex entered, every
      per-vertex value -1 and every colour White. rootChildren is left
      uninitialised by the constructor; it is assigned before it is read. */
  function Init(n: nat): (r: Finder)
    ensures |r.tin| == |r.low| == |r.color| == |r.parent| == n
    ensures forall v | 0 <= v < n :: r.color[v] == White && r.tin[v] == -1 && r.low[v] == -1 && r.parent[v] == -1
    ensures r.time == 0 && r.order == [] && r.bridges == [] && r.aps == {}
  {
    Finder(0, seq(n, _ => -1), seq(n, _ => -1), seq(n, _ => White), seq(n, _ => -1), [], {}, 0, [])
  }

  /** BridgeDFS(u) on a White u: enter u at the current time, scan its
      neighbours, colour it Black. */
  function Visit(adj: Adjacency, u: nat, s: Finder): (r: Finder)
    requires Sized(adj, s) && u < |adj| && s.color[u] == White
    ensures Sized(adj, r)
    ensures CountWhite(r.color) < CountWhite(s.color)
    decreases CountWhite(s.color), 0, 0
  {
    CountWhiteUpdate(s.color, u, Gray);
    var s2 := Scan(adj, u, 0, Enter(u, s));
    CountWhiteUpdate(s2.color, u, Black);
    s2.(color := s2.color[u := Black])
  }

  /** The opening of BridgeDFS(u): u turns Gray and gets the current time
      as entry time and as low value; the clock advances. */
  function Enter(u: nat, s: Finder): (r: Finder)
    requires u < |s.color| && u < |s.tin| && u < |s.low|
    ensures |r.color| == |s.color| && |r.tin| == |s.tin| && |r.low| == |s.low|
    ensures r.color[u] == Gray && r.tin[u] == r.low[u] == s.time && r.time == s.time + 1
    ensures r.order == s.order + [u]
    ensures forall v | 0 <= v < |s.color| && v != u :: r.color[v] == s.color[v]
    ensures forall v | 0 <= v < |s.tin| && v != u :: r.tin[v] == s.tin[v]
    ensures forall v | 0 <= v < |s.low| && v != u :: r.low[v] == s.low[v]
    ensures r.parent == s.parent && r.bridges == s.bridges && r.aps == s.aps
  {
    s.(color := s.color[u := Gray], tin := s.tin[u := s.time], low := s.low[u := s.time],
       time := s.time + 1, order := s.order + [u])
  }

  /** The tree-edge branch after the recursive call on the child v of u:
      the bridge test, the articulation test for a non-root u, and the
      low-link update of u. */
  function AfterChild(u: nat, v: nat, s: Finder): (r: Finder)
    requires u < |s.tin| == |s.low| == |s.parent| && v < |s.low|
    ensures r.bridges == s.bridges || r.bridges == s.bridges + [(u, v)]
    ensures r.bridges != s.bridges <==> s.low[v] > s.tin[u]
    ensures u in r.aps <==> u in s.aps || (s.low[v] >= s.tin[u] && s.parent[u] != -1)
    ensures r.aps - {u} == s.aps - {u}
    ensures |r.low| == |s.low| && r.low[u] <= s.low[u] && r.low[u] <= s.low[v]
    ensures r.low[u] == s.low[u] || r.low[u] == s.low[v]
    ensures forall x | 0 <= x < |s.low| && x != u :: r.low[x] == s.low[x]
    ensures r.tin == s.tin && r.parent == s.parent && r.color == s.color && r.time == s.time
  {
    s.(bridges := if s.low[v] > s.tin[u] then s.bridges + [(u, v)] else s.bridges,
       aps := if s.low[v] >= s.tin[u] && s.parent[u] != -1 then s.aps + {u} else s.aps,
       low := s.low[u := Min(s.low[u], s.low[v])])
  }

  /** The tree-edge branch before the recursive call: v gets parent u, and
      the root's child count grows when u is a root. */
  function Child(u: nat, v: nat, s: Finder): (r: Finder)
    requires u < |s.parent| && v < |s.parent|
    ensures |r.parent| == |s.parent| && r.parent[v] == u
    ensures forall x | 0 <= x < |s.parent| && x != v :: r.parent[x] == s.parent[x]
    ensures r.rootChildren == s.rootChildren + (if r.parent[u] == -1 then 1 else 0)
    ensures r.color == s.color && r.tin == s.tin && r.low == s.low && r.time == s.time
  {
    s.(parent := s.parent[v := u], rootChildren := if s.parent[v := u][u] == -1 then s.rootChildren + 1 else s.rootChildren)
  }

  /** One pass of the neighbour loop of BridgeDFS(u), for the neighbour v. */
  function Step(adj: Adjacency, u: nat, v: nat, s: Finder): (r: Finder)
    requires Sized(adj, s) && u < |adj| && v < |adj|
    ensures Sized(adj, r)
    ensures CountWhite(r.color) <= CountWhite(s.color)
    decreases CountWhite(s.color), 0, 1
  {
    if s.color[v] == White then
      AfterChild(u, v, Visit(adj, v, Child(u, v, s)))
    else if v != s.parent[u] then
      s.(low := s.low[u := Min(s.low[u], s.tin[v])])
    else
      s
  }

  /** The neighbour loop of BridgeDFS(u) from position k on. */
  function Scan(adj: Adjacency, u: nat, k: nat, s: Finder): (r: Finder)
    requires Sized(adj, s) && u < |adj| && k <= |adj[u]|
    ensures Sized(adj, r)
    ensures CountWhite(r.color) <= CountWhite(s.color)
    decreases CountWhite(s.color), 1, |adj[u]| - k
  {
    if k == |adj[u]| then s
    else Scan(adj, u, k + 1, Step(adj, u, adj[u][k], s))
  }

  /** Scan one neighbour further. */
  lemma ScanStep(adj: Adjacency, u: nat, k: nat, s: Finder)
    requires Sized(adj, s) && u < |adj| && k < |adj[u]|
    ensures Scan(adj, u, k, s) == Scan(adj, u, k + 1, Step(adj, u, adj[u][k], s))
  {
  }

  /** The loop of findBridgesAndAPs from vertex u on: each White u becomes
      the root of a DFS tree and is an articulation point when it got more
      than one tree child. */
  function Roots(adj: Adjacency, u: nat, s: Finder): (r: Finder)
    requires Sized(adj, s) && u <= |adj|
    ensures Sized(adj, r)
    decreases |adj| - u
  {
    if u == |adj| then s
    else if s.color[u] == White then Roots(adj, u + 1, NewTree(adj, u, s))
    else Roots(adj, u + 1, s)
  }

  /** One round of findBridgesAndAPs on a White u: reset rootChildren, run
      BridgeDFS(u), and mark u when it got more than one tree child. */
  function NewTree(adj: Adjacency, u: nat, s: Finder): (r: Finder)
    requires Sized(adj, s) && u < |adj| && s.color[u] == White
    ensures Sized(adj, r)
  {
    var s2 := Visit(adj, u, s.(rootChildren := 0));
    s2.(aps := if s2.rootChildren > 1 then s2.aps + {u} else s2.aps)
  }

  /** The state after constructing the finder and calling findBridgesAndAPs once. */
  function Found(adj: Adjacency): Finder
    requires Closed(adj)
  {
    Roots(adj, 0, Init(|adj|))
  }

  class BridgesAndArticulationPoints {
    /** The neighbour lists of the graph the finder holds a reference to. */
    const adj: Adjacency
    var time: nat
    var timeIn: seq<int>
    var low: seq<int>
    var visited: seq<Color>
    var parent: seq<int>
    var bridges: seq<(nat, nat)>
    var articulationPoints: set<nat>
    var rootChildren: nat
    /** The vertices in the order BridgeDFS entered them. */
    ghost var order: seq<nat>

    ghost function State(): Finder
      reads this
    {
      Finder(time, timeIn, low, visited, parent, bridges, articulationPoints, rootChildren, order)
    }

    constructor (g: Adjacency)
      requires Closed(g)
      ensures adj == g && State() == Init(|g|)
    {
      adj := g;
      time := 0;
      timeIn := seq(|g|, _ => -1);
      low := seq(|g|, _ => -1);
      visited := seq(|g|, _ => White);
      parent := seq(|g|, _ => -1);
      bridges := [];
      articulationPoints := {};
      rootChildren := 0;
      order := [];
    }

    method FindBridgesAndAPs()
      requires Sized(adj, State())
      modifies this
      ensures State() == Roots(adj, 0, old(State()))
    {
      for u := 0 to |adj|
        invariant Sized(adj, State())
        invariant Roots(adj, u, State()) == Roots(adj, 0, old(State()))
      {
        if visited[u] == White {
          rootChildren := 0;
          BridgeDFS(u);
          if rootChildren > 1 {
            articulationPoints := articulationPoints + {u};
          }
        }
      }
    }

    method GetBridges() returns (r: seq<(nat, nat)>)
      ensures r == bridges
    {
      r := bridges;
    }

    method GetArticulationPoints() returns (r: set<nat>)
      ensures r == articulationPoints
    {
      r := articulationPoints;
    }

    method BridgeDFS(u: nat)
      requires Sized(adj, State()) && u < |adj| && visited[u] == White
      modifies this
      ensures State() == Visit(adj, u, old(State()))
      decreases CountWhite(visited), 0
    {
      ghost var s := State();
      CountWhiteUpdate(visited, u, Gray);
      visited := visited[u := Gray];
      timeIn := timeIn[u := time];
      low := low[u := time];
      time := time + 1;
      order := order + [u];
      assert State() == Enter(u, s);
      ScanNeighbours(u);
      visited := visited[u := Black];
    }

    /** The neighbour loop of BridgeDFS(u), once u has been entered. */
    method ScanNeighbours(u: nat)
      requires Sized(adj, State()) && u < |adj|
      modifies this
      ensures State() == Scan(adj, u, 0, old(State()))
      decreases CountWhite(visited), 3
    {
      for k := 0 to |adj[u]|
        invariant Sized(adj, State())
        invariant CountWhite(visited) <= CountWhite(old(visited))
        invariant Scan(adj, u, k, State()) == Scan(adj, u, 0, old(State()))
      {
        ScanStep(adj, u, k, State());
        Neighbour(u, adj[u][k]);
      }
    }

    /** The body of the neighbour loop of BridgeDFS(u) for the neighbour v:
        recurse into a White v, fold the entry time of any other neighbour
        except the parent into low[u]. */
    method Neighbour(u: nat, v: nat)
      requires Sized(adj, State()) && u < |adj| && v < |adj|
      modifies this
      ensures State() == Step(adj, u, v, old(State()))
      decreases CountWhite(visited), 2
    {
      if visited[v] == White {
        TreeEdge(u, v);
      } else if v != parent[u] {
        low := low[u := Min(low[u], timeIn[v])];
      }
    }

    method TreeEdge(u: nat, v: nat)
      requires Sized(adj, State()) && u < |adj| && v < |adj| && visited[v] == White
      modifies this
      ensures State() == AfterChild(u, v, Visit(adj, v, Child(u, v, old(State()))))
      decreases CountWhite(visited), 1
    {
      ghost var s := State();
      parent := parent[v := u];
      if parent[u] == -1 {
        rootChildren := rootChildren + 1;
      }
      assert State() == Child(u, v, s);
      BridgeDFS(v);
      ghost var s2 := State();
      assert s2 == Visit(adj, v, Child(u, v, s));
      if low[v] > timeIn[u] {
        bridges := bridges + [(u, v)];
      }
      if low[v] >= timeIn[u] && parent[u] != -1 {
        articulationPoints := articulationPoints + {u};
      }
      low := low[u := Min(low[u], low[v])];
    }

  }
}

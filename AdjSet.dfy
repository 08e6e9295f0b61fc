/** AdjacencySetGraph: a growable vector of per-vertex ordered sets of
    NeighborInfo, ordered (and keyed) by neighbour id only. */
module AdjSet {
  import opened Seqs
  import opened Graph
  import opened EdgeMap

  /** A std::set under NeighborInfo::operator<: entries strictly ascending by neighbour. */
  predicate Sorted<W>(s: seq<NeighborInfo<W>>) {
    forall i, j | 0 <= i < j < |s| :: Less(s[i], s[j])
  }

  /** Every entry's neighbour lies above k. */
  predicate Above<W>(s: seq<NeighborInfo<W>>, k: nat) {
    forall i | 0 <= i < |s| :: k < s[i].neighbor
  }

  /** The neighbour ids of the entries, in set order. */
  function Ids<W>(s: seq<NeighborInfo<W>>): (r: seq<nat>)
    ensures |r| == |s|
    ensures forall i | 0 <= i < |s| :: r[i] == s[i].neighbor
  {
    if s == [] then [] else [s[0].neighbor] + Ids(s[1..])
  }

  /** The ids of a set are strictly ascending: at most one entry per neighbour. */
  lemma SortedIdsIncreasing<W>(s: seq<NeighborInfo<W>>)
    requires Sorted(s)
    ensures StrictlyIncreasing(Ids(s))
  {
  }

  /** set::find with a key of the given neighbour (the weight of the key plays no part). */
  function Find<W>(s: seq<NeighborInfo<W>>, key: nat): (r: Option<W>)
    ensures r.Some? <==> key in Ids(s)
    ensures r.Some? ==> NeighborInfo(key, r.value) in s
  {
    if s == [] then None
    else
      assert Ids(s) == [s[0].neighbor] + Ids(s[1..]);
      if s[0].neighbor == key then Some(s[0].weight) else Find(s[1..], key)
  }

  /** No key at or below the smallest id is found. */
  lemma {:induction false} FindBelow<W>(s: seq<NeighborInfo<W>>, k: nat)
    requires Above(s, k)
    ensures Find(s, k) == None
  {
    if s != [] {
      FindBelow(s[1..], k);
    }
  }

  /** set::insert: x is added unless an equivalent entry (same neighbour) is
      present, in which case the set, and so the stored weight, is unchanged. */
  function Insert<W>(s: seq<NeighborInfo<W>>, x: NeighborInfo<W>): (r: seq<NeighborInfo<W>>)
    requires Sorted(s)
    ensures Sorted(r)
    ensures forall k: nat :: Find(r, k) == if k == x.neighbor && Find(s, k).None? then Some(x.weight) else Find(s, k)
    ensures forall k: nat | Above(s, k) && k < x.neighbor :: Above(r, k)
  {
    if s == [] then [x]
    else if x.neighbor < s[0].neighbor then
      assert forall k: nat | k != x.neighbor :: Find([x] + s, k) == Find(s, k) by {
        assert ([x] + s)[1..] == s;
      }
      FindBelow(s, x.neighbor);
      [x] + s
    else if x.neighbor == s[0].neighbor then s
    else
      var t := Insert(s[1..], x);
      assert Above(s[1..], s[0].neighbor);
      var r := [s[0]] + t;
      assert r[1..] == t;
      r
  }

  /** set::erase by key: the entry for `key`, if any, is removed. */
  function EraseKey<W>(s: seq<NeighborInfo<W>>, key: nat): (r: seq<NeighborInfo<W>>)
    requires Sorted(s)
    ensures Sorted(r)
    ensures forall k: nat :: Find(r, k) == if k == key then None else Find(s, k)
    ensures forall k: nat | Above(s, k) :: Above(r, k)
  {
    if s == [] then []
    else if s[0].neighbor == key then
      assert Above(s[1..], key);
      FindBelow(s[1..], key);
      s[1..]
    else
      var t := EraseKey(s[1..], key);
      assert Above(s[1..], s[0].neighbor);
      var r := [s[0]] + t;
      assert r[1..] == t;
      r
  }

  /** The ids of the entries whose neighbour and weight satisfy p, in set order. */
  function FilteredIds<W>(s: seq<NeighborInfo<W>>, p: (nat, W) -> bool): (r: seq<nat>)
    requires Sorted(s)
    ensures StrictlyIncreasing(r)
    ensures forall j: nat :: j in r <==> Find(s, j).Some? && p(j, Find(s, j).value)
    ensures forall k: nat | Above(s, k) :: forall j | j in r :: k < j
  {
    if s == [] then []
    else
      var t := FilteredIds(s[1..], p);
      assert Above(s[1..], s[0].neighbor);
      FindBelow(s[1..], s[0].neighbor);
      if p(s[0].neighbor, s[0].weight) then
        IncreasingCons(s[0].neighbor, t);
        [s[0].neighbor] + t
      else t
  }

  /** Every set is ordered and every id has a slot. */
  ghost predicate WellFormed<W>(adj: seq<seq<NeighborInfo<W>>>) {
    && (forall u | 0 <= u < |adj| :: Sorted(adj[u]))
    && (forall u, i | 0 <= u < |adj| && 0 <= i < |adj[u]| :: adj[u][i].neighbor < |adj|)
  }

  /** The sets store exactly the weights of m. */
  ghost predicate Linked<W>(adj: seq<seq<NeighborInfo<W>>>, m: Edges<W>) {
    forall u: nat, x: nat :: Lookup(m, u, x) == if u < |adj| then Find(adj[u], x) else None
  }

  /** Appending empty sets keeps the sets well formed and their meaning. */
  lemma Grow<W>(adj: seq<seq<NeighborInfo<W>>>, m: Edges<W>, k: nat)
    requires WellFormed(adj) && Linked(adj, m)
    ensures WellFormed(adj + seq(k, _ => [])) && Linked(adj + seq(k, _ => []), m)
  {
    var adj': seq<seq<NeighborInfo<W>>> := adj + seq(k, _ => []);
    forall u: nat, x: nat
      ensures Lookup(m, u, x) == if u < |adj'| then Find(adj'[u], x) else None
    {
      if |adj| <= u < |adj'| {
        assert adj'[u] == [];
      }
    }
  }

  /** Inserting (b -> e) into the set of b is a keep-existing insertion of (b, e). */
  lemma InsertStep<W>(adj: seq<seq<NeighborInfo<W>>>, m: Edges<W>, b: nat, e: nat, w: W)
    requires WellFormed(adj) && Linked(adj, m) && b < |adj| && e < |adj|
    ensures WellFormed(adj[b := Insert(adj[b], NeighborInfo(e, w))])
    ensures Linked(adj[b := Insert(adj[b], NeighborInfo(e, w))], Put(m, b, e, w))
  {
    var adj': seq<seq<NeighborInfo<W>>> := adj[b := Insert(adj[b], NeighborInfo(e, w))];
    forall i | 0 <= i < |adj'[b]|
      ensures adj'[b][i].neighbor < |adj'|
    {
      var k := adj'[b][i].neighbor;
      assert Ids(adj'[b])[i] == k;
      assert Find(adj'[b], k).Some?;
    }
    forall u: nat, x: nat
      ensures Lookup(Put(m, b, e, w), u, x) == if u < |adj'| then Find(adj'[u], x) else None
    {
      assert Lookup(m, u, x) == if u < |adj| then Find(adj[u], x) else None;
    }
  }

  /** Erasing key e from the set of b is erasing (b, e). */
  lemma EraseStep<W>(adj: seq<seq<NeighborInfo<W>>>, m: Edges<W>, b: nat, e: nat)
    requires WellFormed(adj) && Linked(adj, m) && b < |adj|
    ensures WellFormed(adj[b := EraseKey(adj[b], e)])
    ensures Linked(adj[b := EraseKey(adj[b], e)], m - {(b, e)})
  {
    var adj': seq<seq<NeighborInfo<W>>> := adj[b := EraseKey(adj[b], e)];
    forall i | 0 <= i < |adj'[b]|
      ensures adj'[b][i].neighbor < |adj'|
    {
      var k := adj'[b][i].neighbor;
      assert Ids(adj'[b])[i] == k;
      assert Find(adj'[b], k).Some?;
      assert Find(adj[b], k).Some?;
      var j :| 0 <= j < |adj[b]| && adj[b][j] == NeighborInfo(k, Find(adj[b], k).value);
    }
    forall u: nat, x: nat
      ensures Lookup(m - {(b, e)}, u, x) == if u < |adj'| then Find(adj'[u], x) else None
    {
      assert Lookup(m, u, x) == if u < |adj| then Find(adj[u], x) else None;
    }
  }

  /** The filtered walk over the set of v yields the ascending filtered neighbours of v. */
  lemma FilteredIdsAscending<W>(s: seq<NeighborInfo<W>>, m: Edges<W>, v: nat, n: nat, p: (nat, W) -> bool)
    requires Sorted(s)
    requires forall x: nat :: Lookup(m, v, x) == Find(s, x)
    requires forall i | 0 <= i < |s| :: s[i].neighbor < n
    ensures FilteredIds(s, p) == AscendingFiltered(m, v, n, p)
  {
    var r := FilteredIds(s, p);
    var spec := AscendingFiltered(m, v, n, p);
    forall j: nat
      ensures j in r <==> j in spec
    {
      assert Lookup(m, v, j) == Find(s, j);
      if Find(s, j).Some? {
        var i :| 0 <= i < |s| && s[i] == NeighborInfo(j, Find(s, j).value);
      }
    }
    IncreasingUnique(r, spec);
  }

  /** neighbors(v) either throws out_of_range or yields a sequence of ids. */
  datatype NeighborsResult = Ok(ids: seq<nat>) | OutOfRange

  function Max(a: nat, b: nat): nat {
    if a < b then b else a
  }

  class AdjacencySetGraph<W> {
    /** adjacency[u] is the ordered set of neighbours of u. */
    var adjacency: seq<seq<NeighborInfo<W>>>
    const directed: bool
    /** The edges the sets stand for. */
    ghost var edges: Edges<W>

    ghost predicate Valid()
      reads this
    {
      && WellFormed(adjacency)
      && Linked(adjacency, edges)
      && (!directed ==> Symmetric(edges))
    }

    /** The number of vertex slots: one more than the largest id ever added,
        so every edge of a valid set graph has both endpoints below it. */
    function Size(): (r: nat)
      reads this
      ensures Valid() ==> Bounded(edges, r)
    {
      assert Valid() ==> Bounded(edges, |adjacency|) by {
        if Valid() {
          ValidBounded();
        }
      }
      |adjacency|
    }

    /** Every edge of a valid set graph has both endpoints below the number of slots. */
    lemma ValidBounded()
      requires Valid()
      ensures Bounded(edges, |adjacency|)
    {
      forall k | k in edges
        ensures k.0 < |adjacency| && k.1 < |adjacency|
      {
        assert Lookup(edges, k.0, k.1).Some?;
        var s := adjacency[k.0];
        var i :| 0 <= i < |s| && s[i] == NeighborInfo(k.1, Find(s, k.1).value);
      }
    }

    /** An empty graph with no vertices. */
    constructor (isDirected: bool)
      ensures Valid()
      ensures Size() == 0 && directed == isDirected && edges == map[]
    {
      adjacency := [];
      directed := isDirected;
      edges := map[];
    }

    /** Grow to max(b, e) + 1 slots if needed, then insert (b, e) and, when
        undirected, (e, b); a pair already present keeps its weight. */
    method AddEdge(b: nat, e: nat, w: W)
      requires Valid()
      modifies this
      ensures Valid()
      ensures Size() == if old(Size()) <= Max(b, e) then Max(b, e) + 1 else old(Size())
      ensures edges == KeepFirst(old(edges), b, e, w, directed)
    {
      var m := Max(b, e);
      if |adjacency| <= m {
        Grow(adjacency, edges, m + 1 - |adjacency|);
        adjacency := adjacency + seq(m + 1 - |adjacency|, _ => []);
      }
      InsertStep(adjacency, edges, b, e, w);
      adjacency := adjacency[b := Insert(adjacency[b], NeighborInfo(e, w))];
      var old_edges := edges;
      edges := Put(edges, b, e, w);
      if !directed {
        InsertStep(adjacency, edges, e, b, w);
        adjacency := adjacency[e := Insert(adjacency[e], NeighborInfo(b, w))];
        edges := Put(edges, e, b, w);
        UpdatesPreserveSymmetry(old_edges, b, e, w);
      }
    }

    /** Nothing happens when an endpoint has no slot; otherwise the entry keyed
        by e is erased from the set of b and, when undirected, the entry keyed
        by b from the set of e. The weight argument plays no part. */
    method RemoveEdge(b: nat, e: nat, w: W)
      requires Valid()
      modifies this
      ensures Valid() && Size() == old(Size())
      ensures edges == Erase(old(edges), b, e, directed)
    {
      if Max(b, e) >= |adjacency| {
        ValidBounded();
        EraseOutOfRange(edges, |adjacency|, b, e, directed);
        return;
      }
      EraseStep(adjacency, edges, b, e);
      adjacency := adjacency[b := EraseKey(adjacency[b], e)];
      var old_edges := edges;
      edges := edges - {(b, e)};
      if !directed {
        EraseStep(adjacency, edges, e, b);
        adjacency := adjacency[e := EraseKey(adjacency[e], b)];
        edges := edges - {(e, b)};
        UpdatesPreserveSymmetry(old_edges, b, e, w);
      }
    }

    /** None when an endpoint has no slot or the set of b has no entry for e;
        otherwise the stored weight. */
    function GetEdgeWeight(b: nat, e: nat): (r: Option<W>)
      reads this
      requires Valid()
      ensures r == Lookup(edges, b, e)
      ensures Max(b, e) >= Size() ==> r == None
    {
      if Max(b, e) >= |adjacency| then
        ValidBounded();
        None
      else Find(adjacency[b], e)
    }

    /** The neighbour ids of v in set order, or OutOfRange when v has no slot. */
    function Neighbors(v: nat): (r: NeighborsResult)
      reads this
      requires Valid()
      ensures r.OutOfRange? <==> v >= Size()
      ensures r.Ok? ==> r.ids == Ascending(edges, v, Size())
    {
      if v >= |adjacency| then OutOfRange
      else
        var ids := Ids(adjacency[v]);
        SortedIdsIncreasing(adjacency[v]);
        assert forall j: nat :: j in ids <==> Lookup(edges, v, j).Some?;
        IncreasingUnique(ids, Ascending(edges, v, |adjacency|));
        Ok(ids)
    }

    /** The neighbours j of v whose entry weight w satisfies p(j, w), in set
        order; the set is walked entry by entry, skipping rejected ones. */
    method NeighborsFiltered(v: nat, p: (nat, W) -> bool) returns (r: seq<nat>)
      requires Valid() && v < Size()
      ensures r == AscendingFiltered(edges, v, Size(), p)
    {
      var s := adjacency[v];
      r := [];
      var current := 0;
      while current < |s|
        invariant 0 <= current <= |s|
        invariant r + FilteredIds(s[current..], p) == FilteredIds(s, p)
      {
        assert s[current..][1..] == s[current + 1..];
        if p(s[current].neighbor, s[current].weight) {
          r := r + [s[current].neighbor];
        }
        current := current + 1;
      }
      assert s[current..] == [];
      FilteredIdsAscending(s, edges, v, |adjacency|, p);
    }

    /** What the traversals see of this graph. */
    ghost function View(): Adjacency
      reads this
    {
      EdgeMap.View(edges, Size())
    }
  }

  /** The traversals can run on any set graph: its view is closed. */
  lemma SetViewClosed<W>(g: AdjacencySetGraph<W>)
    requires g.Valid()
    ensures Closed(g.View())
    ensures forall v | 0 <= v < g.Size() :: g.Neighbors(v) == Ok(g.View()[v])
  {
    ViewClosed(g.edges, g.Size());
  }

  /** Re-adding a pair with another weight keeps the first weight; growth
      follows the largest id; a vertex without a slot makes neighbors throw. */
  method KeepWeightScenario() returns (kept: Option<int>, reverse: Option<int>, size: nat, grown: nat, missing: NeighborsResult, afterNoop: Option<int>, removed: Option<int>)
    ensures kept == Some(5) && reverse == None
    ensures size == 2 && grown == 5
    ensures missing == OutOfRange
    ensures afterNoop == Some(5) && removed == None
  {
    var g := new AdjacencySetGraph<int>(true);
    g.AddEdge(0, 1, 5);
    g.AddEdge(0, 1, 7);
    kept, reverse, size := g.GetEdgeWeight(0, 1), g.GetEdgeWeight(1, 0), g.Size();
    g.AddEdge(4, 2, 1);
    grown, missing := g.Size(), g.Neighbors(5);
    g.RemoveEdge(0, 9, 0);
    assert g.Size() == 5;
    afterNoop := g.GetEdgeWeight(0, 1);
    g.RemoveEdge(0, 1, 3);
    removed := g.GetEdgeWeight(0, 1);
  }
}

/** EdgeListGraph: a vector of (from, to, weight) records that AddEdge
    appends to and RemoveEdge erases from. It may hold duplicates, and every
    query scans it front to back. */
module EdgesList {
  import opened Seqs
  import opened Graph
  import opened EdgeMap

  /** The records AddEdge(b, e, w) appends: (b, e, w), then (e, b, w) when undirected. */
  function Added<W>(b: nat, e: nat, w: W, directed: bool): seq<Edge<W>> {
    if directed then [Edge(b, e, w)] else [Edge(b, e, w), Edge(e, b, w)]
  }

  predicate Joins<W>(r: Edge<W>, b: nat, e: nat) {
    r.from == b && r.to == e
  }

  /** The position of the first record (b, e), or |s| when there is none. */
  function FirstIndex<W>(s: seq<Edge<W>>, b: nat, e: nat): (i: nat)
    ensures i <= |s|
    ensures i < |s| ==> Joins(s[i], b, e)
    ensures forall j | 0 <= j < i :: !Joins(s[j], b, e)
  {
    if s == [] then 0
    else if Joins(s[0], b, e) then 0
    else 1 + FirstIndex(s[1..], b, e)
  }

  /** The weight GetEdgeWeight reports: that of the first record (b, e). */
  function FirstWeight<W>(s: seq<Edge<W>>, b: nat, e: nat): Option<W> {
    var i := FirstIndex(s, b, e);
    if i < |s| then Some(s[i].weight) else None
  }

  /** The `to` of every record leaving v, in storage order, duplicates included. */
  function Targets<W>(s: seq<Edge<W>>, v: nat): (r: seq<nat>)
    ensures |r| <= |s|
  {
    if s == [] then []
    else Targets(s[..|s| - 1], v) + (if s[|s| - 1].from == v then [s[|s| - 1].to] else [])
  }

  /** The records whose (to, weight) satisfy p, in storage order. */
  function Keep<W>(s: seq<Edge<W>>, p: (nat, W) -> bool): (r: seq<Edge<W>>)
    ensures |r| <= |s|
  {
    if s == [] then []
    else Keep(s[..|s| - 1], p) + (if p(s[|s| - 1].to, s[|s| - 1].weight) then [s[|s| - 1]] else [])
  }

  /** The `to` of every record leaving v whose (to, weight) satisfy p, in storage order. */
  function FilteredTargets<W>(s: seq<Edge<W>>, v: nat, p: (nat, W) -> bool): seq<nat> {
    if s == [] then []
    else
      var x := s[|s| - 1];
      FilteredTargets(s[..|s| - 1], v, p) + (if x.from == v && p(x.to, x.weight) then [x.to] else [])
  }

  /** Every vertex id that occurs in some record. */
  function Endpoints<W>(s: seq<Edge<W>>): set<nat> {
    if s == [] then {} else Endpoints(s[..|s| - 1]) + {s[|s| - 1].from, s[|s| - 1].to}
  }

  /** The weights of the (x, y) records, in storage order. */
  function Matching<W>(s: seq<Edge<W>>, x: nat, y: nat): seq<W> {
    if s == [] then []
    else Matching(s[..|s| - 1], x, y) + (if Joins(s[|s| - 1], x, y) then [s[|s| - 1].weight] else [])
  }

  /** The abstract edge map of a record list: each pair carries the weight of its first record. */
  function AsMap<W>(s: seq<Edge<W>>): Edges<W> {
    if s == [] then map[]
    else
      var x := s[|s| - 1];
      Put(AsMap(s[..|s| - 1]), x.from, x.to, x.weight)
  }

  /** The record list after RemoveEdge(b, e) as the code does it: the first
      record (b, e) is erased and, when undirected, so is whichever record
      moved into its position. */
  function RemoveAsWritten<W>(s: seq<Edge<W>>, b: nat, e: nat, directed: bool): (r: seq<Edge<W>>)
    requires directed || FirstIndex(s, b, e) + 1 != |s|
    ensures FirstIndex(s, b, e) == |s| ==> r == s
    ensures FirstIndex(s, b, e) < |s| ==> |r| == |s| - (if directed then 1 else 2)
    ensures FirstIndex(s, b, e) <= |r| && r[..FirstIndex(s, b, e)] == s[..FirstIndex(s, b, e)]
    ensures directed ==> r == RemoveFirst(s, b, e)
  {
    var i := FirstIndex(s, b, e);
    if i == |s| then s
    else if directed then s[..i] + s[i + 1..]
    else s[..i] + s[i + 2..]
  }

  // How the projections distribute over appending records.

  lemma {:induction false} TargetsAppend<W>(s: seq<Edge<W>>, t: seq<Edge<W>>, v: nat)
    ensures Targets(s + t, v) == Targets(s, v) + Targets(t, v)
  {
    if t != [] {
      var n := |t| - 1;
      assert (s + t)[..|s + t| - 1] == s + t[..n];
      TargetsAppend(s, t[..n], v);
    } else {
      assert s + t == s;
    }
  }

  lemma {:induction false} FilteredTargetsAppend<W>(s: seq<Edge<W>>, t: seq<Edge<W>>, v: nat, p: (nat, W) -> bool)
    ensures FilteredTargets(s + t, v, p) == FilteredTargets(s, v, p) + FilteredTargets(t, v, p)
  {
    if t != [] {
      var n := |t| - 1;
      assert (s + t)[..|s + t| - 1] == s + t[..n];
      FilteredTargetsAppend(s, t[..n], v, p);
    } else {
      assert s + t == s;
    }
  }

  lemma {:induction false} EndpointsAppend<W>(s: seq<Edge<W>>, t: seq<Edge<W>>)
    ensures Endpoints(s + t) == Endpoints(s) + Endpoints(t)
  {
    if t != [] {
      var n := |t| - 1;
      assert (s + t)[..|s + t| - 1] == s + t[..n];
      EndpointsAppend(s, t[..n]);
    } else {
      assert s + t == s;
    }
  }

  lemma {:induction false} MatchingAppend<W>(s: seq<Edge<W>>, t: seq<Edge<W>>, x: nat, y: nat)
    ensures Matching(s + t, x, y) == Matching(s, x, y) + Matching(t, x, y)
  {
    if t != [] {
      var n := |t| - 1;
      assert (s + t)[..|s + t| - 1] == s + t[..n];
      MatchingAppend(s, t[..n], x, y);
    } else {
      assert s + t == s;
    }
  }

  /** neighborsFiltered(v, p) is neighbors(v) of the records p accepts: the
      order-preserving sub-sequence of neighbors(v) that p admits. */
  lemma {:induction false} FilteredIsTargetsOfKept<W>(s: seq<Edge<W>>, v: nat, p: (nat, W) -> bool)
    ensures FilteredTargets(s, v, p) == Targets(Keep(s, p), v)
  {
    if s != [] {
      var n := |s| - 1;
      FilteredIsTargetsOfKept(s[..n], v, p);
      var x := s[n];
      TargetsAppend(Keep(s[..n], p), if p(x.to, x.weight) then [x] else [], v);
      assert Targets([x], v) == (if x.from == v then [x.to] else []) by {
        assert [x][..0] == [];
      }
    }
  }

  /** v has neighbours exactly when some record leaves v. */
  lemma {:induction false} TargetsEmpty<W>(s: seq<Edge<W>>, v: nat)
    ensures Targets(s, v) == [] <==> forall i | 0 <= i < |s| :: s[i].from != v
  {
    if s != [] {
      var n := |s| - 1;
      TargetsEmpty(s[..n], v);
      assert forall i | 0 <= i < n :: s[..n][i] == s[i];
    }
  }

  /** Every neighbour is the `to` of a record leaving v, and every such `to` is a neighbour. */
  lemma {:induction false} TargetsMembership<W>(s: seq<Edge<W>>, v: nat, x: nat)
    ensures x in Targets(s, v) <==> exists i | 0 <= i < |s| :: s[i].from == v && s[i].to == x
  {
    if s != [] {
      var n := |s| - 1;
      TargetsMembership(s[..n], v, x);
      if x in Targets(s, v) {
        if x in Targets(s[..n], v) {
          var i :| 0 <= i < n && s[..n][i].from == v && s[..n][i].to == x;
          assert s[..n][i] == s[i];
        } else {
          assert s[n].from == v && s[n].to == x;
        }
      } else {
        forall i | 0 <= i < |s|
          ensures !(s[i].from == v && s[i].to == x)
        {
          if i < n {
            assert s[..n][i] == s[i];
          }
        }
      }
    }
  }

  /** The list has no endpoint exactly when it has no record. */
  lemma EndpointsEmpty<W>(s: seq<Edge<W>>)
    ensures Endpoints(s) == {} <==> s == []
  {
    if s != [] {
      assert s[|s| - 1].from in Endpoints(s);
    }
  }

  /** The first record of every pair decides its weight: the abstract map of a
      list reports FirstWeight for every pair. */
  lemma {:induction false} AsMapFirstWeight<W>(s: seq<Edge<W>>, b: nat, e: nat)
    ensures Lookup(AsMap(s), b, e) == FirstWeight(s, b, e)
  {
    if s != [] {
      var n := |s| - 1;
      AsMapFirstWeight(s[..n], b, e);
      FirstIndexSnoc(s[..n], s[n], b, e);
      assert s[..n] + [s[n]] == s;
    }
  }

  lemma {:induction false} FirstIndexSnoc<W>(s: seq<Edge<W>>, x: Edge<W>, b: nat, e: nat)
    ensures FirstIndex(s + [x], b, e) == if FirstIndex(s, b, e) < |s| || Joins(x, b, e) then FirstIndex(s, b, e) else |s| + 1
  {
    if s != [] {
      assert (s + [x])[1..] == s[1..] + [x];
      FirstIndexSnoc(s[1..], x, b, e);
    }
  }

  /** AddEdge acts on the abstract map as the keep-existing insertion of AdjSet. */
  lemma AddedIsKeepFirst<W>(s: seq<Edge<W>>, b: nat, e: nat, w: W, directed: bool)
    ensures AsMap(s + Added(b, e, w, directed)) == KeepFirst(AsMap(s), b, e, w, directed)
  {
    var s1 := s + [Edge(b, e, w)];
    assert s1[..|s1| - 1] == s;
    if !directed {
      var s2 := s1 + [Edge(e, b, w)];
      assert s2[..|s2| - 1] == s1;
      assert s + Added(b, e, w, directed) == s2;
    }
  }

  /** Re-adding a pair with a new weight does not change the reported weight. */
  lemma ReAddKeepsWeight<W>(s: seq<Edge<W>>, b: nat, e: nat, w: W, directed: bool)
    requires FirstIndex(s, b, e) < |s|
    ensures FirstWeight(s + Added(b, e, w, directed), b, e) == FirstWeight(s, b, e)
  {
    AsMapFirstWeight(s, b, e);
    AsMapFirstWeight(s + Added(b, e, w, directed), b, e);
    AddedIsKeepFirst(s, b, e, w, directed);
  }

  /** Removing a pair without a record leaves the list unchanged. */
  lemma RemoveAbsent<W>(s: seq<Edge<W>>, b: nat, e: nat, directed: bool)
    requires FirstIndex(s, b, e) == |s|
    ensures RemoveAsWritten(s, b, e, directed) == s
  {
  }

  /** AddEdge(b, e) then RemoveEdge(b, e) on a list without a (b, e) record
      gives back the list, so (b, e) has no weight again. */
  lemma AddThenRemoveRestores<W>(s: seq<Edge<W>>, b: nat, e: nat, w: W, directed: bool)
    requires FirstIndex(s, b, e) == |s|
    ensures directed || FirstIndex(s + Added(b, e, w, directed), b, e) + 1 != |s + Added(b, e, w, directed)|
    ensures RemoveAsWritten(s + Added(b, e, w, directed), b, e, directed) == s
    ensures FirstWeight(RemoveAsWritten(s + Added(b, e, w, directed), b, e, directed), b, e) == None
  {
    var t := s + Added(b, e, w, directed);
    FirstIndexSnoc(s, Edge(b, e, w), b, e);
    if !directed {
      assert t == (s + [Edge(b, e, w)]) + [Edge(e, b, w)];
      FirstIndexSnoc(s + [Edge(b, e, w)], Edge(e, b, w), b, e);
    }
    assert FirstIndex(t, b, e) == |s|;
    assert t[..|s|] == s;
  }

  /** Both ids of every record are endpoints. */
  lemma {:induction false} EndpointsIndex<W>(s: seq<Edge<W>>, i: nat)
    requires i < |s|
    ensures s[i].from in Endpoints(s) && s[i].to in Endpoints(s)
  {
    var n := |s| - 1;
    if i < n {
      EndpointsIndex(s[..n], i);
      assert s[..n][i] == s[i];
    }
  }

  /** Every neighbour is an endpoint. */
  lemma TargetsInEndpoints<W>(s: seq<Edge<W>>, v: nat)
    ensures forall x | x in Targets(s, v) :: x in Endpoints(s)
  {
    forall x | x in Targets(s, v)
      ensures x in Endpoints(s)
    {
      TargetsMembership(s, v, x);
      var i :| 0 <= i < |s| && s[i].from == v && s[i].to == x;
      EndpointsIndex(s, i);
    }
  }

  lemma EndpointsSingleton<W>(x: Edge<W>)
    ensures Endpoints([x]) == {x.from, x.to}
  {
    assert [x][..0] == [];
  }

  lemma MatchingSingleton<W>(r: Edge<W>, x: nat, y: nat)
    ensures Matching([r], x, y) == if Joins(r, x, y) then [r.weight] else []
  {
    assert [r][..0] == [];
  }

  /** The records of one AddEdge mention exactly its two ids. */
  lemma EndpointsAdded<W>(b: nat, e: nat, w: W, directed: bool)
    ensures Endpoints(Added(b, e, w, directed)) == {b, e}
  {
    EndpointsSingleton(Edge(b, e, w));
    if !directed {
      EndpointsSingleton(Edge(e, b, w));
      EndpointsAppend([Edge(b, e, w)], [Edge(e, b, w)]);
      assert Added(b, e, w, directed) == [Edge(b, e, w)] + [Edge(e, b, w)];
    }
  }

  /** Cutting a stretch out of a list introduces no endpoint. */
  lemma EndpointsCut<W>(s: seq<Edge<W>>, i: nat, j: nat)
    requires i <= j <= |s|
    ensures Endpoints(s[..i] + s[j..]) <= Endpoints(s)
  {
    var pre, mid, post := s[..i], s[i..j], s[j..];
    assert s[..j] == pre + mid;
    assert s == s[..j] + post;
    EndpointsAppend(s[..j], post);
    EndpointsAppend(pre, mid);
    EndpointsAppend(pre, post);
  }

  class EdgeListGraph<W> {
    /** The records, in insertion order. */
    var edges: seq<Edge<W>>
    /** Every id AddEdge was ever given; never shrunk and not consulted by Size. */
    var vertexes: set<nat>
    const directed: bool

    ghost predicate Valid()
      reads this
    {
      Endpoints(edges) <= vertexes
    }

    /** An empty list. */
    constructor (isDirected: bool)
      ensures Valid()
      ensures edges == [] && vertexes == {} && directed == isDirected
    {
      edges := [];
      vertexes := {};
      directed := isDirected;
    }

    /** Append (b, e, w) and, when undirected, (e, b, w); remember b and e. */
    method AddEdge(b: nat, e: nat, w: W)
      requires Valid()
      modifies this
      ensures Valid()
      ensures edges == old(edges) + Added(b, e, w, directed)
      ensures vertexes == old(vertexes) + {b, e}
    {
      edges := edges + [Edge(b, e, w)];
      vertexes := vertexes + {b};
      vertexes := vertexes + {e};
      if !directed {
        edges := edges + [Edge(e, b, w)];
      }
      EndpointsAppend(old(edges), Added(b, e, w, directed));
      EndpointsAdded(b, e, w, directed);
    }

    /** Find the first record (b, e); if there is one, erase it and, when
        undirected, erase again at the same position. The weight argument is
        not used. */
    method RemoveEdge(b: nat, e: nat, w: W)
      requires Valid()
      requires directed || FirstIndex(edges, b, e) + 1 != |edges|
      modifies this
      ensures Valid()
      ensures edges == RemoveAsWritten(old(edges), b, e, directed)
      ensures vertexes == old(vertexes)
    {
      var i := 0;
      while i < |edges|
        invariant 0 <= i <= |edges|
        invariant forall j | 0 <= j < i :: !Joins(edges[j], b, e)
      {
        if edges[i].from == b && edges[i].to == e {
          break;
        }
        i := i + 1;
      }
      if i == |edges| {
        return;
      }
      ghost var s := edges;
      assert FirstIndex(s, b, e) == i;
      edges := edges[..i] + edges[i + 1..];
      if !directed {
        edges := edges[..i] + edges[i + 1..];
        assert edges == s[..i] + s[i + 2..];
        EndpointsCut(s, i, i + 2);
      } else {
        EndpointsCut(s, i, i + 1);
      }
    }

    /** The number of distinct ids among the records' endpoints. */
    method Size() returns (r: nat)
      ensures r == |Endpoints(edges)|
    {
      var seen: set<nat> := {};
      for i := 0 to |edges|
        invariant seen == Endpoints(edges[..i])
      {
        assert edges[..i + 1][..i] == edges[..i];
        seen := seen + {edges[i].from};
        seen := seen + {edges[i].to};
      }
      assert edges[..|edges|] == edges;
      r := |seen|;
    }

    /** The weight of the first record (b, e), or None. */
    method GetEdgeWeight(b: nat, e: nat) returns (r: Option<W>)
      ensures r == FirstWeight(edges, b, e)
      ensures r == Lookup(AsMap(edges), b, e)
    {
      AsMapFirstWeight(edges, b, e);
      var i := 0;
      while i < |edges|
        invariant 0 <= i <= |edges|
        invariant forall j | 0 <= j < i :: !Joins(edges[j], b, e)
      {
        if edges[i].from == b && edges[i].to == e {
          return Some(edges[i].weight);
        }
        i := i + 1;
      }
      return None;
    }

    /** The `to` of every record leaving v, scanning the records in order. */
    method Neighbors(v: nat) returns (r: seq<nat>)
      ensures r == Targets(edges, v)
    {
      r := [];
      for current := 0 to |edges|
        invariant r == Targets(edges[..current], v)
      {
        assert edges[..current + 1][..current] == edges[..current];
        if edges[current].from == v {
          r := r + [edges[current].to];
        }
      }
      assert edges[..|edges|] == edges;
    }

    /** The `to` of every record leaving v whose (to, weight) satisfy p, in order. */
    method NeighborsFiltered(v: nat, p: (nat, W) -> bool) returns (r: seq<nat>)
      ensures r == FilteredTargets(edges, v, p)
    {
      r := [];
      for current := 0 to |edges|
        invariant r == FilteredTargets(edges[..current], v, p)
      {
        assert edges[..current + 1][..current] == edges[..current];
        var x := edges[current];
        if x.from == v && p(x.to, x.weight) {
          r := r + [x.to];
        }
      }
      assert edges[..|edges|] == edges;
    }

    /** What the traversals see of this graph when its ids are 0 .. Size()-1. */
    ghost function View(): Adjacency
      reads this
    {
      var n := |Endpoints(edges)|;
      var es := edges;
      seq(n, v requires 0 <= v < n => Targets(es, v))
    }
  }

  /** When the endpoints are exactly 0 .. Size()-1, the view is closed. */
  lemma ListViewClosed<W>(g: EdgeListGraph<W>)
    requires Endpoints(g.edges) == Range(|Endpoints(g.edges)|)
    ensures Closed(g.View())
  {
    var adj := g.View();
    forall u, k | 0 <= u < |adj| && 0 <= k < |adj[u]|
      ensures adj[u][k] < |adj|
    {
      TargetsInEndpoints(g.edges, u);
      assert adj[u][k] in Targets(g.edges, u);
    }
  }

  /** RemoveEdge as the code does it, on AddEdge(0, 1), AddEdge(2, 0), RemoveEdge(1, 0):
      the first (1, 0) record is erased, then the (2, 0) record that moved into
      its place; (0, 1) keeps its weight and (2, 0) loses its only record. */
  lemma RemoveAsWrittenErasesUnrelatedRecord(w1: int, w2: int)
    ensures var s := Added(0, 1, w1, false) + Added(2, 0, w2, false);
      var r := RemoveAsWritten(s, 1, 0, false);
      && r == [Edge(0, 1, w1), Edge(0, 2, w2)]
      && FirstWeight(r, 0, 1) == Some(w1)
      && FirstWeight(s, 2, 0) == Some(w2) && FirstWeight(r, 2, 0) == None
  {
    var s := Added(0, 1, w1, false) + Added(2, 0, w2, false);
    assert s == [Edge(0, 1, w1), Edge(1, 0, w1), Edge(2, 0, w2), Edge(0, 2, w2)];
    assert FirstIndex(s, 1, 0) == 1;
    var r := RemoveAsWritten(s, 1, 0, false);
    assert r == [Edge(0, 1, w1), Edge(0, 2, w2)];
    assert FirstIndex(r, 2, 0) == 2;
    assert Joins(s[2], 2, 0);
    assert FirstIndex(s, 2, 0) == 2;
  }

  /** RemoveEdge as the code does it, on a fresh undirected list after
      AddEdge(1, 0): the records are (1, 0) and (0, 1), so RemoveEdge(0, 1)
      matches the last record and the second erase would be given the end
      position. RemoveAsWritten's precondition rules exactly that out. */
  lemma RemoveAsWrittenErasesPastEnd(w: int)
    ensures var s := Added(1, 0, w, false);
      s == [Edge(1, 0, w), Edge(0, 1, w)] && FirstIndex(s, 0, 1) + 1 == |s|
  {
    var s := Added(1, 0, w, false);
    assert !Joins(s[0], 0, 1) && Joins(s[1], 0, 1);
    assert FirstIndex(s[1..], 0, 1) == 0;
  }

  /** The list without its first (b, e) record. */
  function RemoveFirst<W>(s: seq<Edge<W>>, b: nat, e: nat): (r: seq<Edge<W>>)
    ensures FirstIndex(s, b, e) == |s| ==> r == s
  {
    var i := FirstIndex(s, b, e);
    if i == |s| then s else s[..i] + s[i + 1..]
  }

  /** RemoveEdge as evidently intended: erase the first (b, e) record and,
      when undirected, the first (e, b) record, wherever it is. */
  function RemoveMirrored<W>(s: seq<Edge<W>>, b: nat, e: nat, directed: bool): (r: seq<Edge<W>>)
    ensures |s| - (if directed then 1 else 2) <= |r| <= |s|
    ensures FirstIndex(s, b, e) < |s| ==> |r| < |s|
  {
    var s1 := RemoveFirst(s, b, e);
    if directed then s1 else RemoveFirst(s1, e, b)
  }

  function Tail<T>(ws: seq<T>): seq<T> {
    if ws == [] then [] else ws[1..]
  }

  /** Removing the first (b, e) record drops the first weight of (b, e) and
      leaves the records of every other pair as they were. */
  lemma RemoveFirstMatching<W>(s: seq<Edge<W>>, b: nat, e: nat, x: nat, y: nat)
    ensures Matching(RemoveFirst(s, b, e), x, y) == if (x, y) == (b, e) then Tail(Matching(s, x, y)) else Matching(s, x, y)
  {
    var i := FirstIndex(s, b, e);
    if i < |s| {
      CutMatching(s, i, x, y);
      assert RemoveFirst(s, b, e) == s[..i] + s[i + 1..];
      if (x, y) == (b, e) {
        NoMatchBefore(s[..i], b, e);
        var m := Matching(s[i + 1..], x, y);
        assert Matching(s, x, y) == [s[i].weight] + m;
        assert Tail([s[i].weight] + m) == m;
      } else {
        assert !Joins(s[i], x, y);
      }
    } else {
      NoMatchBefore(s, b, e);
    }
  }

  /** Cutting out record i removes its weight from the records of its pair only. */
  lemma CutMatching<W>(s: seq<Edge<W>>, i: nat, x: nat, y: nat)
    requires i < |s|
    ensures Matching(s, x, y) == Matching(s[..i], x, y) + (if Joins(s[i], x, y) then [s[i].weight] else []) + Matching(s[i + 1..], x, y)
    ensures Matching(s[..i] + s[i + 1..], x, y) == Matching(s[..i], x, y) + Matching(s[i + 1..], x, y)
  {
    var pre, mid, post := s[..i], [s[i]], s[i + 1..];
    assert s == pre + (mid + post);
    MatchingAppend(pre, mid + post, x, y);
    MatchingAppend(mid, post, x, y);
    MatchingAppend(pre, post, x, y);
    MatchingSingleton(s[i], x, y);
  }

  lemma {:induction false} NoMatchBefore<W>(s: seq<Edge<W>>, b: nat, e: nat)
    requires forall j | 0 <= j < |s| :: !Joins(s[j], b, e)
    ensures Matching(s, b, e) == []
  {
    if s != [] {
      NoMatchBefore(s[..|s| - 1], b, e);
    }
  }

  /** The intended removal takes one record off (b, e) and, when undirected,
      one off (e, b), and leaves the records of every other pair untouched. */
  lemma RemoveMirroredTouchesOnlyThePair<W>(s: seq<Edge<W>>, b: nat, e: nat, directed: bool, x: nat, y: nat)
    requires directed || b != e
    ensures var r := RemoveMirrored(s, b, e, directed);
      Matching(r, x, y) ==
        if (x, y) == (b, e) || (!directed && (x, y) == (e, b)) then Tail(Matching(s, x, y)) else Matching(s, x, y)
  {
    RemoveFirstMatching(s, b, e, x, y);
    if !directed {
      RemoveFirstMatching(RemoveFirst(s, b, e), e, b, x, y);
    }
  }

  /** On the list of the counterexample the intended removal erases both
      records of the pair and keeps those of (2, 0). */
  lemma RemoveMirroredOnCounterexample(w1: int, w2: int)
    ensures RemoveMirrored(Added(0, 1, w1, false) + Added(2, 0, w2, false), 1, 0, false)
      == [Edge(2, 0, w2), Edge(0, 2, w2)]
  {
    var s := Added(0, 1, w1, false) + Added(2, 0, w2, false);
    assert s == [Edge(0, 1, w1), Edge(1, 0, w1), Edge(2, 0, w2), Edge(0, 2, w2)];
    assert FirstIndex(s, 1, 0) == 1;
    var s1 := RemoveFirst(s, 1, 0);
    assert s1 == [Edge(0, 1, w1), Edge(2, 0, w2), Edge(0, 2, w2)];
    assert FirstIndex(s1, 0, 1) == 0;
  }

  /** On the list of the past-the-end case the intended removal is defined
      and erases both records of the pair. */
  lemma RemoveMirroredOnLastRecord(w: int)
    ensures RemoveMirrored(Added(1, 0, w, false), 0, 1, false) == []
  {
    var s := Added(1, 0, w, false);
    assert !Joins(s[0], 0, 1) && Joins(s[1], 0, 1);
    assert FirstIndex(s[1..], 0, 1) == 0;
    assert FirstIndex(s, 0, 1) == 1;
    var s1 := RemoveFirst(s, 0, 1);
    assert s1 == [Edge(1, 0, w)];
    assert FirstIndex(s1, 1, 0) == 0;
  }
}

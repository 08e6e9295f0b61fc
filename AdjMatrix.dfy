/** AdjacencyMatrixGraph: an n x n table of optional weights, overwritten in place. */
module AdjMatrix {
  import opened Graph
  import opened EdgeMap

  class AdjacencyMatrixGraph<W> {
    /** matrix[i, j] is the weight of edge (i, j), or None. */
    const matrix: array2<Option<W>>
    const directed: bool
    /** The edges the table stands for. */
    ghost var edges: Edges<W>

    ghost predicate Valid()
      reads this, matrix
    {
      && matrix.Length0 == matrix.Length1
      && Bounded(edges, matrix.Length0)
      && (forall i, j | 0 <= i < matrix.Length0 && 0 <= j < matrix.Length1 :: matrix[i, j] == Lookup(edges, i, j))
      && (!directed ==> Symmetric(edges))
    }

    /** The number of vertices, fixed at construction: every edge of a
        valid table has both endpoints below it. */
    function Size(): (r: nat)
      reads this, matrix
      ensures Valid() ==> Bounded(edges, r)
    {
      matrix.Length0
    }

    /** A graph on `vertices` vertices without edges. */
    constructor (vertices: nat, isDirected: bool)
      ensures Valid()
      ensures Size() == vertices && directed == isDirected
      ensures edges == map[] && fresh(matrix)
    {
      matrix := new Option<W>[vertices, vertices]((_, _) => None);
      directed := isDirected;
      edges := map[];
    }

    /** Store w for (b, e) and, when undirected, for (e, b), replacing any old weight. */
    method AddEdge(b: nat, e: nat, w: W)
      requires Valid() && b < Size() && e < Size()
      modifies this, matrix
      ensures Valid() && Size() == old(Size())
      ensures edges == Overwrite(old(edges), b, e, w, directed)
    {
      matrix[b, e] := Some(w);
      if !directed {
        matrix[e, b] := Some(w);
      }
      UpdatesPreserveBound(edges, Size(), b, e, w, directed);
      if !directed {
        UpdatesPreserveSymmetry(edges, b, e, w);
      }
      edges := Overwrite(edges, b, e, w, directed);
    }

    /** Clear (b, e) and, when undirected, (e, b); the weight argument is not used. */
    method RemoveEdge(b: nat, e: nat, w: W)
      requires Valid() && b < Size() && e < Size()
      modifies this, matrix
      ensures Valid() && Size() == old(Size())
      ensures edges == Erase(old(edges), b, e, directed)
    {
      UpdatesPreserveBound(edges, Size(), b, e, w, directed);
      if !directed {
        UpdatesPreserveSymmetry(edges, b, e, w);
      }
      edges := Erase(edges, b, e, directed);
      matrix[b, e] := None;
      if !directed {
        matrix[e, b] := None;
      }
      forall i, j | 0 <= i < matrix.Length0 && 0 <= j < matrix.Length1
        ensures matrix[i, j] == Lookup(edges, i, j)
      {
        if (i, j) != (b, e) && (directed || (i, j) != (e, b)) {
          assert matrix[i, j] == old(matrix[i, j]);
        }
      }
    }

    /** The weight of (b, e), or None when there is no edge. */
    function GetEdgeWeight(b: nat, e: nat): (r: Option<W>)
      reads this, matrix
      requires Valid() && b < Size() && e < Size()
      ensures r == Lookup(edges, b, e)
    {
      matrix[b, e]
    }

    /** The columns of row v that hold a weight, scanned left to right. */
    method Neighbors(v: nat) returns (r: seq<nat>)
      requires Valid() && v < Size()
      ensures r == Ascending(edges, v, Size())
    {
      r := [];
      var current := 0;
      while current < matrix.Length1
        invariant 0 <= current <= matrix.Length1
        invariant r == Ascending(edges, v, current)
      {
        if matrix[v, current].Some? {
          r := r + [current];
        }
        current := current + 1;
      }
    }

    /** The columns j of row v holding a weight w with p(j, w), scanned left to right. */
    method NeighborsFiltered(v: nat, p: (nat, W) -> bool) returns (r: seq<nat>)
      requires Valid() && v < Size()
      ensures r == AscendingFiltered(edges, v, Size(), p)
    {
      r := [];
      var current := 0;
      while current < matrix.Length1
        invariant 0 <= current <= matrix.Length1
        invariant r == AscendingFiltered(edges, v, current, p)
      {
        var cell := matrix[v, current];
        if cell.Some? && p(current, cell.value) {
          r := r + [current];
        }
        current := current + 1;
      }
    }

    /** What the traversals see of this graph. */
    ghost function View(): Adjacency
      reads this, matrix
    {
      EdgeMap.View(edges, Size())
    }
  }

  /** The traversals can run on any matrix graph: its view is closed, and
      in an undirected graph every neighbour relation is mutual. */
  lemma MatrixViewClosed<W>(g: AdjacencyMatrixGraph<W>)
    requires g.Valid()
    ensures Closed(g.View())
    ensures !g.directed ==> forall u, v | 0 <= u < g.Size() && 0 <= v < g.Size() && v in g.View()[u] :: u in g.View()[v]
  {
    ViewClosed(g.edges, g.Size());
    if !g.directed {
      forall u, v | 0 <= u < g.Size() && 0 <= v < g.Size() && v in g.View()[u]
        ensures u in g.View()[v]
      {
        ViewSymmetric(g.edges, g.Size(), u, v);
      }
    }
  }

  /** A fresh matrix graph: AddEdge then GetEdgeWeight reports the weight in
      both directions of an undirected graph, RemoveEdge clears both, and a
      second RemoveEdge changes nothing. */
  method UndirectedScenario(w: int) returns (forward: Option<int>, backward: Option<int>, removedForward: Option<int>, removedBackward: Option<int>, size: nat)
    ensures forward == Some(w) && backward == Some(w)
    ensures removedForward == None && removedBackward == None
    ensures size == 3
  {
    var g := new AdjacencyMatrixGraph<int>(3, false);
    g.AddEdge(0, 1, w);
    forward, backward := g.GetEdgeWeight(0, 1), g.GetEdgeWeight(1, 0);
    assert g.GetEdgeWeight(0, 2) == None;
    var ns := g.Neighbors(0);
    assert 1 in ns && 0 !in ns && 2 !in ns;
    g.RemoveEdge(0, 1, 0);
    removedForward, removedBackward := g.GetEdgeWeight(0, 1), g.GetEdgeWeight(1, 0);
    var before := g.edges;
    g.RemoveEdge(0, 1, 0);
    EraseIdempotent(before, 0, 1, false);
    assert g.edges == before;
    size := g.Size();
  }
}

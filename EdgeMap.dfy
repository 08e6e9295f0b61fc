/** The abstract meaning of a graph representation: a finite map from an
    ordered vertex pair (from, to) to the weight stored for it, together
    with the three ways the representations update it and the two ways
    they enumerate the neighbours of a vertex. */
module EdgeMap {
  import opened Seqs
  import opened Graph

  type Edges<W> = map<(nat, nat), W>

  /** The weight stored for (b, e), or None when there is no edge. */
  function Lookup<W>(m: Edges<W>, b: nat, e: nat): Option<W> {
    if (b, e) in m then Some(m[(b, e)]) else None
  }

  /** Every endpoint of every edge is below n. */
  ghost predicate Bounded<W>(m: Edges<W>, n: nat) {
    forall k | k in m :: k.0 < n && k.1 < n
  }

  /** An undirected graph stores every edge in both directions with one weight. */
  ghost predicate Symmetric<W>(m: Edges<W>) {
    forall b: nat, e: nat | (b, e) in m :: (e, b) in m && m[(e, b)] == m[(b, e)]
  }

  /** Insertion that overwrites: (b, e) and, when undirected, (e, b) get weight w. */
  function Overwrite<W>(m: Edges<W>, b: nat, e: nat, w: W, directed: bool): (r: Edges<W>)
    ensures Lookup(r, b, e) == Some(w)
    ensures !directed ==> Lookup(r, e, b) == Some(w)
    ensures forall x: nat, y: nat | (x, y) != (b, e) && (directed || (x, y) != (e, b)) ::
      Lookup(r, x, y) == Lookup(m, x, y)
  {
    var m1 := m[(b, e) := w];
    if directed then m1 else m1[(e, b) := w]
  }

  /** Insertion that keeps an existing weight: each of (b, e) and, when
      undirected, (e, b) receives w only if it has no weight yet. */
  function KeepFirst<W>(m: Edges<W>, b: nat, e: nat, w: W, directed: bool): (r: Edges<W>)
    ensures (b, e) in m ==> Lookup(r, b, e) == Lookup(m, b, e)
    ensures (b, e) !in m ==> Lookup(r, b, e) == Some(w)
    ensures !directed && (e, b) in m ==> Lookup(r, e, b) == Lookup(m, e, b)
    ensures !directed && (e, b) !in m ==> Lookup(r, e, b) == Some(w)
    ensures forall x: nat, y: nat | (x, y) != (b, e) && (directed || (x, y) != (e, b)) ::
      Lookup(r, x, y) == Lookup(m, x, y)
  {
    var m1 := Put(m, b, e, w);
    if directed then m1 else Put(m1, e, b, w)
  }

  /** One keep-existing insertion. */
  function Put<W>(m: Edges<W>, b: nat, e: nat, w: W): Edges<W> {
    if (b, e) in m then m else m[(b, e) := w]
  }

  /** Deletion of (b, e) and, when undirected, of (e, b); weights play no part. */
  function Erase<W>(m: Edges<W>, b: nat, e: nat, directed: bool): (r: Edges<W>)
    ensures Lookup(r, b, e) == None
    ensures !directed ==> Lookup(r, e, b) == None
    ensures forall x: nat, y: nat | (x, y) != (b, e) && (directed || (x, y) != (e, b)) ::
      Lookup(r, x, y) == Lookup(m, x, y)
  {
    var m1 := m - {(b, e)};
    if directed then m1 else m1 - {(e, b)}
  }

  /** Erasing twice is erasing once. */
  lemma EraseIdempotent<W>(m: Edges<W>, b: nat, e: nat, directed: bool)
    ensures Erase(Erase(m, b, e, directed), b, e, directed) == Erase(m, b, e, directed)
  {
  }

  /** Erasing an absent pair changes nothing. */
  lemma EraseAbsent<W>(m: Edges<W>, b: nat, e: nat, directed: bool)
    requires (b, e) !in m && (directed || (e, b) !in m)
    ensures Erase(m, b, e, directed) == m
  {
  }

  /** Erasing a pair with an endpoint at or beyond the bound changes nothing. */
  lemma EraseOutOfRange<W>(m: Edges<W>, n: nat, b: nat, e: nat, directed: bool)
    requires Bounded(m, n)
    requires b >= n || e >= n
    ensures Erase(m, b, e, directed) == m
  {
    EraseAbsent(m, b, e, directed);
  }

  /** On a pair with no weight yet, the two insertion policies agree. */
  lemma OverwriteAgreesOnFreshPair<W>(m: Edges<W>, b: nat, e: nat, w: W, directed: bool)
    requires (b, e) !in m && (directed || (e, b) !in m)
    ensures Overwrite(m, b, e, w, directed) == KeepFirst(m, b, e, w, directed)
  {
  }

  /** Adding a fresh pair and re-adding it with another weight: the
      overwriting policy reports the new weight and the keeping policy the old one. */
  lemma ReAddDiffers<W>(m: Edges<W>, b: nat, e: nat, w1: W, w2: W, directed: bool)
    requires (b, e) !in m
    ensures var m1 := KeepFirst(m, b, e, w1, directed);
      Lookup(KeepFirst(m1, b, e, w2, directed), b, e) == Some(w1)
    ensures var m1 := Overwrite(m, b, e, w1, directed);
      Lookup(Overwrite(m1, b, e, w2, directed), b, e) == Some(w2)
  {
  }

  /** Adding then removing the same pair leaves it without a weight, under both policies. */
  lemma AddThenRemove<W>(m: Edges<W>, b: nat, e: nat, w: W, directed: bool)
    ensures Lookup(Erase(Overwrite(m, b, e, w, directed), b, e, directed), b, e) == None
    ensures Lookup(Erase(KeepFirst(m, b, e, w, directed), b, e, directed), b, e) == None
  {
  }

  /** The three updates keep an undirected map symmetric. */
  lemma UpdatesPreserveSymmetry<W>(m: Edges<W>, b: nat, e: nat, w: W)
    requires Symmetric(m)
    ensures Symmetric(Overwrite(m, b, e, w, false))
    ensures Symmetric(KeepFirst(m, b, e, w, false))
    ensures Symmetric(Erase(m, b, e, false))
  {
    var o := Overwrite(m, b, e, w, false);
    forall x: nat, y: nat | (x, y) in o
      ensures (y, x) in o && o[(y, x)] == o[(x, y)]
    {
      assert Lookup(o, x, y).Some?;
    }
    var k := KeepFirst(m, b, e, w, false);
    forall x: nat, y: nat | (x, y) in k
      ensures (y, x) in k && k[(y, x)] == k[(x, y)]
    {
      assert Lookup(k, x, y).Some?;
      if (x, y) == (b, e) || (x, y) == (e, b) {
        assert (b, e) in m <==> (e, b) in m;
      }
    }
    var r := Erase(m, b, e, false);
    forall x: nat, y: nat | (x, y) in r
      ensures (y, x) in r && r[(y, x)] == r[(x, y)]
    {
      assert Lookup(r, x, y).Some?;
    }
  }

  /** The updates keep every endpoint below a bound that covers b and e. */
  lemma UpdatesPreserveBound<W>(m: Edges<W>, n: nat, b: nat, e: nat, w: W, directed: bool)
    requires Bounded(m, n) && b < n && e < n
    ensures Bounded(Overwrite(m, b, e, w, directed), n)
    ensures Bounded(KeepFirst(m, b, e, w, directed), n)
    ensures Bounded(Erase(m, b, e, directed), n)
  {
  }

  /** The neighbours j < hi of v, in ascending order: what a scan of the
      row or of the ordered set of v yields. */
  function Ascending<W>(m: Edges<W>, v: nat, hi: nat): (r: seq<nat>)
    ensures StrictlyIncreasing(r)
    ensures forall j: nat :: j in r <==> j < hi && (v, j) in m
  {
    if hi == 0 then []
    else
      var r0 := Ascending(m, v, hi - 1);
      IncreasingSnoc(r0, hi - 1);
      r0 + (if (v, hi - 1) in m then [hi - 1] else [])
  }

  /** The neighbours j < hi of v whose edge satisfies p(j, weight), in ascending order. */
  function AscendingFiltered<W>(m: Edges<W>, v: nat, hi: nat, p: (nat, W) -> bool): (r: seq<nat>)
    ensures StrictlyIncreasing(r)
    ensures forall j: nat :: j in r <==> j < hi && (v, j) in m && p(j, m[(v, j)])
  {
    if hi == 0 then []
    else
      var r0 := AscendingFiltered(m, v, hi - 1, p);
      IncreasingSnoc(r0, hi - 1);
      r0 + (if (v, hi - 1) in m && p(hi - 1, m[(v, hi - 1)]) then [hi - 1] else [])
  }

  /** With a predicate that accepts everything, the filtered enumeration is the plain one. */
  lemma FilteredByTrue<W>(m: Edges<W>, v: nat, hi: nat)
    ensures AscendingFiltered(m, v, hi, (_, _) => true) == Ascending(m, v, hi)
  {
    IncreasingUnique(AscendingFiltered(m, v, hi, (_, _) => true), Ascending(m, v, hi));
  }

  /** The neighbour-list view of a map over vertices 0 .. n-1. */
  function View<W>(m: Edges<W>, n: nat): (adj: Adjacency)
    ensures |adj| == n
  {
    seq(n, v requires 0 <= v < n => Ascending(m, v, n))
  }

  /** Every id in the view is a vertex id. */
  lemma ViewClosed<W>(m: Edges<W>, n: nat)
    ensures Closed(View(m, n))
  {
    var adj := View(m, n);
    forall u, k | 0 <= u < n && 0 <= k < |adj[u]|
      ensures adj[u][k] < n
    {
      assert adj[u][k] in Ascending(m, u, n);
    }
  }

  /** In the view of a symmetric map, v lists u whenever u lists v. */
  lemma ViewSymmetric<W>(m: Edges<W>, n: nat, u: nat, v: nat)
    requires Symmetric(m) && u < n && v < n
    requires v in View(m, n)[u]
    ensures u in View(m, n)[v]
  {
  }
}

module BridgeProofs {
  import opened Seqs
  import opened Graph
  import opened BridgeFinder

  /** The tree children of u: the vertices whose parent is u. */
  function Children(parent: seq<int>, u: nat): set<nat> {
    set y: nat | y < |parent| && parent[y] == u
  }

  lemma ChildrenNone(parent: seq<int>, u: nat)
    requires forall y | 0 <= y < |parent| :: parent[y] != u
    ensures Children(parent, u) == {}
  {
  }

  lemma ChildrenAdd(parent: seq<int>, u: nat, v: nat)
    requires v < |parent| && parent[v] == -1
    ensures v !in Children(parent, u)
    ensures Children(parent[v := u], u) == Children(parent, u) + {v}
  {
  }

  lemma ChildrenOther(parent: seq<int>, u: nat, v: nat, x: nat)
    requires v < |parent| && parent[v] == -1 && x != u
    ensures Children(parent[v := u], x) == Children(parent, x)
  {
  }

  /** Entry times: the entered vertices, in order, got the times 0, 1, 2, ...;
      a vertex is entered exactly when it is not White. */
  ghost predicate Timing(adj: Adjacency, s: Finder)
    requires Sized(adj, s)
  {
    && Distinct(s.order) && |s.order| == s.time
    && (forall i | 0 <= i < |s.order| :: s.order[i] < |adj| && s.tin[s.order[i]] == i)
    && (forall v | 0 <= v < |adj| :: s.color[v] != White <==> v in s.order)
  }

  lemma EnteredTime(adj: Adjacency, s: Finder, v: nat)
    requires Sized(adj, s) && Timing(adj, s) && v < |adj| && s.color[v] != White
    ensures 0 <= s.tin[v] < s.time
  {
    var i :| 0 <= i < |s.order| && s.order[i] == v;
  }

  /** Parent links of v: a White vertex other than `next` (the child about to be entered) has none; a
      parent was entered before its child, has it as a neighbour, and is
      finished only after it; only the root r of the current tree is Gray
      without a parent, and it has been entered unless it is `next`. A
      finished vertex has no White neighbour. */
  ghost predicate Linked(adj: Adjacency, s: Finder, r: int, next: int, v: nat)
    requires Sized(adj, s) && v < |adj|
  {
    var p := s.parent[v];
    && (s.color[v] == White && v != next ==> p == -1)
    && (p != -1 ==> 0 <= p < |adj| && s.color[p] != White && v in adj[p]
                    && (s.color[v] != White ==> s.tin[p] < s.tin[v])
                    && (s.color[p] == Black ==> s.color[v] == Black))
    && (s.color[v] == Gray && p == -1 ==> v == r)
    && (v == r ==> p == -1)
    && (v == r && v != next ==> s.color[v] != White)
    && (s.color[v] == Black ==> forall j | 0 <= j < |adj[v]| :: s.color[adj[v][j]] != White)
  }

  ghost predicate Tree(adj: Adjacency, s: Finder, r: int, next: int)
    requires Sized(adj, s)
  {
    forall v | 0 <= v < |adj| :: Linked(adj, s, r, next, v)
  }

  /** What the neighbour loop of u has folded into low[u] after its first k
      neighbours: low[u] is at most the entry time of each of them other
      than the parent, and at most the low value of each finished child;
      and it is one of these values or u's own entry time. */
  ghost predicate LowAfter(adj: Adjacency, s: Finder, u: nat, k: nat)
    requires Sized(adj, s) && u < |adj| && k <= |adj[u]|
  {
    && (forall j | 0 <= j < k :: adj[u][j] != s.parent[u] ==> s.low[u] <= s.tin[adj[u][j]])
    && (forall c | 0 <= c < |adj| && s.parent[c] == u && s.color[c] == Black :: s.low[u] <= s.low[c])
    && (|| s.low[u] == s.tin[u]
        || (exists j | 0 <= j < k :: adj[u][j] != s.parent[u] && s.low[u] == s.tin[adj[u][j]])
        || (exists c | 0 <= c < |adj| :: s.parent[c] == u && s.color[c] == Black && s.low[u] == s.low[c]))
  }

  /** An entered vertex has 0 <= low <= its entry time; a finished one has
      folded in all its neighbours and children. */
  ghost predicate LowOk(adj: Adjacency, s: Finder, v: nat)
    requires Sized(adj, s) && v < |adj|
  {
    && (s.color[v] != White ==> 0 <= s.low[v] <= s.tin[v])
    && (s.color[v] == Black ==> LowAfter(adj, s, v, |adj[v]|))
  }

  ghost predicate Lows(adj: Adjacency, s: Finder)
    requires Sized(adj, s)
  {
    forall v | 0 <= v < |adj| :: LowOk(adj, s, v)
  }

  /** A recorded bridge (x, y): y is a finished child of x, other than the
      one whose check is pending, with low[y] > time_in[x]. */
  ghost predicate BridgeEntry(adj: Adjacency, s: Finder, pending: int, e: (nat, nat))
    requires Sized(adj, s)
  {
    && e.0 < |adj| && e.1 < |adj|
    && s.color[e.1] == Black && e.1 != pending
    && s.parent[e.1] == e.0 && s.low[e.1] > s.tin[e.0]
  }

  /** When u is an articulation point: a non-root u when some finished
      child c (whose check is not pending) has low[c] >= time_in[u]; a
      root of a completed tree when it has more than one child. */
  ghost predicate ApRule(adj: Adjacency, s: Finder, r: int, pending: int, u: nat)
    requires Sized(adj, s) && u < |adj|
  {
    if s.parent[u] != -1 then
      exists c | 0 <= c < |adj| :: s.parent[c] == u && s.color[c] == Black && c != pending && s.low[c] >= s.tin[u]
    else
      s.color[u] == Black && u != r && |Children(s.parent, u)| > 1
  }

  /** The reported bridges and articulation points are exactly those the
      criteria select among the checked vertices; rootChildren counts the
      children of the current root r. */
  ghost predicate Checked(adj: Adjacency, s: Finder, r: int, pending: int)
    requires Sized(adj, s)
  {
    && Distinct(s.bridges)
    && (forall i | 0 <= i < |s.bridges| :: BridgeEntry(adj, s, pending, s.bridges[i]))
    && (forall y | 0 <= y < |adj| && s.color[y] == Black && y != pending && 0 <= s.parent[y] < |adj|
          && s.low[y] > s.tin[s.parent[y]] :: (s.parent[y] as nat, y) in s.bridges)
    && (forall u | u in s.aps :: u < |adj|)
    && (forall u | 0 <= u < |adj| :: u in s.aps <==> ApRule(adj, s, r, pending, u))
    && (0 <= r < |adj| ==> s.rootChildren == |Children(s.parent, r)|)
  }

  ghost predicate Inv(adj: Adjacency, s: Finder, r: int, next: int, pending: int) {
    Sized(adj, s) && Timing(adj, s) && Tree(adj, s, r, next) && Lows(adj, s) && Checked(adj, s, r, pending)
  }

  /** The neighbour loop of Gray u stands at position k: every child is
      finished, every neighbour seen so far has been entered, and low[u]
      has folded in what was seen. */
  ghost predicate Scanning(adj: Adjacency, s: Finder, u: nat, k: nat)
    requires Sized(adj, s) && u < |adj| && k <= |adj[u]|
  {
    && s.color[u] == Gray
    && (forall c | 0 <= c < |adj| && s.parent[c] == u :: s.color[c] == Black)
    && (forall j | 0 <= j < k :: s.color[adj[u][j]] != White)
    && LowAfter(adj, s, u, k)
  }

  /** From s to s' while w is being scanned: an entered vertex keeps its
      colour, entry time and parent, and its low value, except that low[w]
      may drop; a White vertex does not end Gray; a parent is only given to
      a White vertex, and is w or a vertex White in s. */
  ghost predicate Kept(adj: Adjacency, s: Finder, s': Finder, w: int, x: nat)
    requires Sized(adj, s) && Sized(adj, s') && x < |adj|
  {
    && (s.color[x] != White ==> s'.color[x] == s.color[x] && s'.tin[x] == s.tin[x] && s'.parent[x] == s.parent[x]
                                && (if x == w then s'.low[x] <= s.low[x] else s'.low[x] == s.low[x]))
    && (s.color[x] == White ==> s'.color[x] != Gray)
    && (s'.parent[x] != s.parent[x] ==>
          s.color[x] == White && 0 <= s'.parent[x] < |adj| && (s'.parent[x] == w || s.color[s'.parent[x]] == White))
  }

  ghost predicate Frame(adj: Adjacency, s: Finder, s': Finder, w: int)
    requires Sized(adj, s) && Sized(adj, s')
  {
    forall x | 0 <= x < |adj| :: Kept(adj, s, s', w, x)
  }

  lemma FrameTrans(adj: Adjacency, s1: Finder, s2: Finder, s3: Finder, w: int)
    requires Sized(adj, s1) && Sized(adj, s2) && Sized(adj, s3)
    requires Frame(adj, s1, s2, w) && Frame(adj, s2, s3, w)
    ensures Frame(adj, s1, s3, w)
  {
    forall x | 0 <= x < |adj|
      ensures Kept(adj, s1, s3, w, x)
    {
      assert Kept(adj, s1, s2, w, x) && Kept(adj, s2, s3, w, x);
      var p := s3.parent[x];
      if 0 <= p < |adj| {
        assert Kept(adj, s1, s2, w, p);
      }
    }
  }

  // Entering a vertex.

  lemma EnterTiming(adj: Adjacency, u: nat, s: Finder)
    requires Sized(adj, s) && Timing(adj, s) && u < |adj| && s.color[u] == White
    ensures Sized(adj, Enter(u, s)) && Timing(adj, Enter(u, s))
  {
    var s1 := Enter(u, s);
    DistinctSnoc(s.order, u);
    forall i | 0 <= i < |s1.order|
      ensures s1.order[i] < |adj| && s1.tin[s1.order[i]] == i
    {
      if i < |s.order| {
        assert s.order[i] in s.order;
      }
    }
  }

  lemma EnterTree(adj: Adjacency, u: nat, s: Finder, r: int)
    requires Sized(adj, s) && Timing(adj, s) && Tree(adj, s, r, u) && u < |adj| && s.color[u] == White
    requires s.parent[u] == -1 ==> u == r
    ensures Sized(adj, Enter(u, s)) && Tree(adj, Enter(u, s), r, -1)
  {
    var s1 := Enter(u, s);
    forall v | 0 <= v < |adj|
      ensures Linked(adj, s1, r, -1, v)
    {
      assert Linked(adj, s, r, u, v);
      var p := s.parent[v];
      if p != -1 {
        assert Linked(adj, s, r, u, p);
        EnteredTime(adj, s, p);
      }
    }
  }

  lemma EnterLows(adj: Adjacency, u: nat, s: Finder, r: int)
    requires Sized(adj, s) && Tree(adj, s, r, u) && Lows(adj, s) && u < |adj| && s.color[u] == White
    ensures Sized(adj, Enter(u, s)) && Lows(adj, Enter(u, s))
  {
    var s1 := Enter(u, s);
    forall v | 0 <= v < |adj| && v != u && s.color[v] == Black
      ensures LowAfter(adj, s1, v, |adj[v]|)
    {
      assert LowOk(adj, s, v) && Linked(adj, s, r, u, v);
      assert LowAfter(adj, s, v, |adj[v]|);
    }
    forall v | 0 <= v < |adj|
      ensures LowOk(adj, s1, v)
    {
      assert LowOk(adj, s, v);
    }
  }

  lemma EnterChecked(adj: Adjacency, u: nat, s: Finder, r: int)
    requires Sized(adj, s) && Tree(adj, s, r, u) && Checked(adj, s, r, -1) && u < |adj| && s.color[u] == White
    ensures Sized(adj, Enter(u, s)) && Checked(adj, Enter(u, s), r, -1)
  {
    var s1 := Enter(u, s);
    forall i | 0 <= i < |s1.bridges|
      ensures BridgeEntry(adj, s1, -1, s1.bridges[i])
    {
      assert BridgeEntry(adj, s, -1, s.bridges[i]);
      assert Linked(adj, s, r, u, s.bridges[i].1);
    }
    forall w | 0 <= w < |adj|
      ensures ApRule(adj, s1, r, -1, w) == ApRule(adj, s, r, -1, w)
    {
      if w == u && s.parent[u] != -1 {
        forall c | 0 <= c < |adj|
          ensures s.parent[c] != u
        {
          assert Linked(adj, s, r, u, c);
        }
      }
    }
    forall y | 0 <= y < |adj| && s1.color[y] == Black && 0 <= s1.parent[y] < |adj|
      ensures s1.tin[s1.parent[y]] == s.tin[s.parent[y]] && s.color[y] == Black
    {
      assert Linked(adj, s, r, u, y);
    }
  }

  lemma EnterScanning(adj: Adjacency, u: nat, s: Finder, r: int)
    requires Sized(adj, s) && Tree(adj, s, r, u) && u < |adj| && s.color[u] == White
    ensures Sized(adj, Enter(u, s)) && Scanning(adj, Enter(u, s), u, 0)
  {
    forall c | 0 <= c < |adj|
      ensures s.parent[c] != u
    {
      assert Linked(adj, s, r, u, c);
    }
  }

  /** Entering a White u, the root r or a child of the scanned vertex,
      keeps the invariant and starts the neighbour loop of u. */
  lemma EnterStep(adj: Adjacency, u: nat, s: Finder, r: int)
    requires Inv(adj, s, r, u, -1) && u < |adj| && s.color[u] == White
    requires s.parent[u] == -1 ==> u == r
    ensures Sized(adj, Enter(u, s)) && Inv(adj, Enter(u, s), r, -1, -1) && Scanning(adj, Enter(u, s), u, 0)
  {
    EnterTiming(adj, u, s);
    EnterTree(adj, u, s, r);
    EnterLows(adj, u, s, r);
    EnterChecked(adj, u, s, r);
    EnterScanning(adj, u, s, r);
  }

  // Taking a White neighbour as a tree child.

  lemma ChildTree(adj: Adjacency, u: nat, k: nat, s: Finder, r: int)
    requires Sized(adj, s) && Tree(adj, s, r, -1) && u < |adj| && k < |adj[u]|
    requires s.color[u] == Gray && s.color[adj[u][k]] == White
    ensures var v := adj[u][k]; Sized(adj, Child(u, v, s)) && Tree(adj, Child(u, v, s), r, v)
  {
    var v := adj[u][k];
    var s1 := Child(u, v, s);
    assert Linked(adj, s, r, -1, v);
    forall x | 0 <= x < |adj|
      ensures Linked(adj, s1, r, v, x)
    {
      assert Linked(adj, s, r, -1, x);
    }
  }

  lemma ChildLows(adj: Adjacency, u: nat, k: nat, s: Finder)
    requires Sized(adj, s) && Lows(adj, s) && u < |adj| && k < |adj[u]|
    requires s.color[u] == Gray && s.color[adj[u][k]] == White
    ensures var v := adj[u][k]; Sized(adj, Child(u, v, s)) && Lows(adj, Child(u, v, s))
  {
    var v := adj[u][k];
    var s1 := Child(u, v, s);
    forall x | 0 <= x < |adj|
      ensures LowOk(adj, s1, x)
    {
      assert LowOk(adj, s, x);
      if s.color[x] == Black {
        assert LowAfter(adj, s, x, |adj[x]|);
      }
    }
  }

  lemma ChildChecked(adj: Adjacency, u: nat, k: nat, s: Finder, r: int)
    requires Sized(adj, s) && Tree(adj, s, r, -1) && Checked(adj, s, r, -1) && u < |adj| && k < |adj[u]|
    requires s.color[u] == Gray && s.color[adj[u][k]] == White
    ensures var v := adj[u][k]; Sized(adj, Child(u, v, s)) && Checked(adj, Child(u, v, s), r, -1)
  {
    var v := adj[u][k];
    var s1 := Child(u, v, s);
    assert Linked(adj, s, r, -1, v) && Linked(adj, s, r, -1, u);
    forall i | 0 <= i < |s1.bridges|
      ensures BridgeEntry(adj, s1, -1, s1.bridges[i])
    {
      assert BridgeEntry(adj, s, -1, s.bridges[i]);
    }
    forall c | 0 <= c < |adj|
      ensures s.parent[c] != v
    {
      assert Linked(adj, s, r, -1, c);
    }
    forall w | 0 <= w < |adj|
      ensures ApRule(adj, s1, r, -1, w) == ApRule(adj, s, r, -1, w)
    {
      if w != v && s.parent[w] == -1 && s.color[w] == Black {
        ChildrenOther(s.parent, u, v, w);
      }
    }
    if 0 <= r < |adj| {
      if s.parent[u] == -1 {
        ChildrenAdd(s.parent, u, v);
      } else {
        ChildrenOther(s.parent, u, v, r);
      }
    }
  }

  lemma ChildFrame(adj: Adjacency, u: nat, k: nat, s: Finder)
    requires Sized(adj, s) && u < |adj| && k < |adj[u]| && s.color[adj[u][k]] == White
    ensures var v := adj[u][k]; Sized(adj, Child(u, v, s)) && Frame(adj, s, Child(u, v, s), u)
  {
    var v := adj[u][k];
    var s1 := Child(u, v, s);
    forall x | 0 <= x < |adj|
      ensures Kept(adj, s, s1, u, x)
    {
    }
  }

  lemma FrameWeaken(adj: Adjacency, s: Finder, s': Finder, w: int)
    requires Sized(adj, s) && Sized(adj, s') && Frame(adj, s, s', -1)
    ensures Frame(adj, s, s', w)
  {
    forall x | 0 <= x < |adj|
      ensures Kept(adj, s, s', w, x)
    {
      assert Kept(adj, s, s', -1, x);
    }
  }

  // Back from the recursive call on a tree child.

  /** What the recursive visit of the child v = adj[u][k] leaves in place
      for the loop of u. */
  lemma AfterChildKept(adj: Adjacency, u: nat, k: nat, s: Finder, s2: Finder)
    requires Sized(adj, s) && u < |adj| && k < |adj[u]| && Scanning(adj, s, u, k)
    requires var v := adj[u][k];
      && s.color[v] == White && Sized(adj, Child(u, v, s)) && Sized(adj, s2)
      && Frame(adj, Child(u, v, s), s2, -1) && s2.parent[v] == u
    ensures var v := adj[u][k]; var s3 := AfterChild(u, v, s2);
      && Sized(adj, s3) && s3.color[u] == Gray && s3.tin[u] == s.tin[u] && s3.parent[u] == s.parent[u]
      && s2.low[u] == s.low[u]
      && (forall c | 0 <= c < |adj| && s3.parent[c] == u ::
            c == v || (s.parent[c] == u && s.color[c] == Black && s3.color[c] == Black && s3.low[c] == s.low[c]))
      && (forall j | 0 <= j < k :: s3.color[adj[u][j]] != White && s3.tin[adj[u][j]] == s.tin[adj[u][j]])
  {
    var v := adj[u][k];
    var s1 := Child(u, v, s);
    var s3 := AfterChild(u, v, s2);
    assert Kept(adj, s1, s2, -1, u);
    forall c | 0 <= c < |adj| && s3.parent[c] == u
      ensures c == v || (s.parent[c] == u && s.color[c] == Black && s3.color[c] == Black && s3.low[c] == s.low[c])
    {
      assert Kept(adj, s1, s2, -1, c);
    }
    forall j | 0 <= j < k
      ensures s3.color[adj[u][j]] != White && s3.tin[adj[u][j]] == s.tin[adj[u][j]]
    {
      assert Kept(adj, s1, s2, -1, adj[u][j]);
    }
  }

  lemma AfterChildScanning(adj: Adjacency, u: nat, k: nat, s: Finder, s2: Finder)
    requires Sized(adj, s) && u < |adj| && k < |adj[u]| && Scanning(adj, s, u, k)
    requires var v := adj[u][k];
      && s.color[v] == White && Sized(adj, Child(u, v, s)) && Sized(adj, s2)
      && Frame(adj, Child(u, v, s), s2, -1) && Lows(adj, s2) && s2.color[v] == Black && s2.parent[v] == u
    ensures var s3 := AfterChild(u, adj[u][k], s2); Sized(adj, s3) && Scanning(adj, s3, u, k + 1)
  {
    var v := adj[u][k];
    var s1 := Child(u, v, s);
    var s3 := AfterChild(u, v, s2);
    AfterChildKept(adj, u, k, s, s2);
    assert LowOk(adj, s2, v);
    assert LowAfter(adj, s, u, k);
    if s3.low[u] != s2.low[v] && s.low[u] != s.tin[u] {
      if exists j | 0 <= j < k :: adj[u][j] != s.parent[u] && s.low[u] == s.tin[adj[u][j]] {
        var j :| 0 <= j < k && adj[u][j] != s.parent[u] && s.low[u] == s.tin[adj[u][j]];
        assert s3.low[u] == s3.tin[adj[u][j]];
      } else {
        var c :| 0 <= c < |adj| && s.parent[c] == u && s.color[c] == Black && s.low[u] == s.low[c];
        assert Kept(adj, s1, s2, -1, c);
        assert s3.parent[c] == u && s3.color[c] == Black && s3.low[u] == s3.low[c];
      }
    }
  }

  lemma AfterChildLows(adj: Adjacency, u: nat, v: nat, s2: Finder)
    requires Sized(adj, s2) && Lows(adj, s2) && u < |adj| && v < |adj|
    requires s2.color[u] == Gray && s2.color[v] == Black
    ensures Sized(adj, AfterChild(u, v, s2)) && Lows(adj, AfterChild(u, v, s2))
  {
    var s3 := AfterChild(u, v, s2);
    assert LowOk(adj, s2, u) && LowOk(adj, s2, v);
    forall x | 0 <= x < |adj|
      ensures LowOk(adj, s3, x)
    {
      assert LowOk(adj, s2, x);
      if s2.color[x] == Black {
        assert LowAfter(adj, s2, x, |adj[x]|);
      }
    }
  }

  lemma AfterChildChecked(adj: Adjacency, u: nat, v: nat, s2: Finder, r: int)
    requires Sized(adj, s2) && Tree(adj, s2, r, -1) && Checked(adj, s2, r, v) && u < |adj| && v < |adj|
    requires s2.color[u] == Gray && s2.color[v] == Black && s2.parent[v] == u
    ensures Sized(adj, AfterChild(u, v, s2)) && Checked(adj, AfterChild(u, v, s2), r, -1)
  {
    var s3 := AfterChild(u, v, s2);
    forall i | 0 <= i < |s2.bridges|
      ensures BridgeEntry(adj, s3, -1, s2.bridges[i]) && s2.bridges[i] != (u, v)
    {
      assert BridgeEntry(adj, s2, v, s2.bridges[i]);
    }
    if s2.low[v] > s2.tin[u] {
      DistinctSnoc(s2.bridges, (u, v));
      forall i | 0 <= i < |s3.bridges|
        ensures BridgeEntry(adj, s3, -1, s3.bridges[i])
      {
        if i < |s2.bridges| {
          assert s3.bridges[i] == s2.bridges[i];
        }
      }
    }
    forall w | 0 <= w < |adj|
      ensures w in s3.aps <==> ApRule(adj, s3, r, -1, w)
    {
      assert w in s2.aps <==> ApRule(adj, s2, r, v, w);
    }
  }

  lemma AfterChildFrame(adj: Adjacency, u: nat, v: nat, s2: Finder)
    requires Sized(adj, s2) && u < |adj| && v < |adj|
    ensures Sized(adj, AfterChild(u, v, s2)) && Frame(adj, s2, AfterChild(u, v, s2), u)
  {
    var s3 := AfterChild(u, v, s2);
    forall x | 0 <= x < |adj|
      ensures Kept(adj, s2, s3, u, x)
    {
    }
  }

  // A neighbour that is already entered.

  /** Lowering low[u] of the Gray u to a value that is still not negative
      keeps the invariant. */
  lemma LowerGray(adj: Adjacency, u: nat, x: int, s: Finder, r: int, pending: int)
    requires Inv(adj, s, r, -1, pending) && u < |adj| && s.color[u] == Gray && 0 <= x <= s.low[u]
    ensures var s' := s.(low := s.low[u := x]);
      Sized(adj, s') && Inv(adj, s', r, -1, pending) && Frame(adj, s, s', u)
  {
    var s' := s.(low := s.low[u := x]);
    assert LowOk(adj, s, u);
    forall y | 0 <= y < |adj|
      ensures LowOk(adj, s', y) && Kept(adj, s, s', u, y) && Linked(adj, s', r, -1, y)
    {
      assert LowOk(adj, s, y) && Linked(adj, s, r, -1, y);
      if s.color[y] == Black {
        assert LowAfter(adj, s, y, |adj[y]|);
      }
    }
    LowerGrayChecked(adj, u, x, s, r, pending);
  }

  lemma LowerGrayChecked(adj: Adjacency, u: nat, x: int, s: Finder, r: int, pending: int)
    requires Sized(adj, s) && Checked(adj, s, r, pending) && u < |adj| && s.color[u] == Gray
    ensures Sized(adj, s.(low := s.low[u := x])) && Checked(adj, s.(low := s.low[u := x]), r, pending)
  {
    var s' := s.(low := s.low[u := x]);
    forall i | 0 <= i < |s.bridges|
      ensures BridgeEntry(adj, s', pending, s.bridges[i])
    {
      assert BridgeEntry(adj, s, pending, s.bridges[i]);
    }
    forall w | 0 <= w < |adj|
      ensures ApRule(adj, s', r, pending, w) == ApRule(adj, s, r, pending, w)
    {
    }
  }

  /** A neighbour other than the parent folds its entry time into low[u]. */
  lemma BackEdgeStep(adj: Adjacency, u: nat, k: nat, s: Finder, r: int)
    requires Inv(adj, s, r, -1, -1) && u < |adj| && k < |adj[u]| && Scanning(adj, s, u, k)
    requires s.color[adj[u][k]] != White && adj[u][k] != s.parent[u]
    ensures var s' := s.(low := s.low[u := Min(s.low[u], s.tin[adj[u][k]])]);
      Sized(adj, s') && Inv(adj, s', r, -1, -1) && Scanning(adj, s', u, k + 1) && Frame(adj, s, s', u)
  {
    var v := adj[u][k];
    EnteredTime(adj, s, v);
    assert LowOk(adj, s, u);
    LowerGray(adj, u, Min(s.low[u], s.tin[v]), s, r, -1);
    BackEdgeScanning(adj, u, k, s);
  }

  lemma BackEdgeScanning(adj: Adjacency, u: nat, k: nat, s: Finder)
    requires Sized(adj, s) && u < |adj| && k < |adj[u]| && Scanning(adj, s, u, k)
    requires s.color[adj[u][k]] != White && adj[u][k] != s.parent[u]
    ensures var s' := s.(low := s.low[u := Min(s.low[u], s.tin[adj[u][k]])]);
      Sized(adj, s') && Scanning(adj, s', u, k + 1)
  {
    var v := adj[u][k];
    var s' := s.(low := s.low[u := Min(s.low[u], s.tin[v])]);
    assert LowAfter(adj, s, u, k);
    if s'.low[u] != s.tin[v] && s.low[u] != s.tin[u] {
      if exists j | 0 <= j < k :: adj[u][j] != s.parent[u] && s.low[u] == s.tin[adj[u][j]] {
        var j :| 0 <= j < k && adj[u][j] != s.parent[u] && s.low[u] == s.tin[adj[u][j]];
        assert s'.low[u] == s'.tin[adj[u][j]];
      } else {
        var c :| 0 <= c < |adj| && s.parent[c] == u && s.color[c] == Black && s.low[u] == s.low[c];
        assert s'.low[u] == s'.low[c];
      }
    }
  }

  /** The edge back to the parent changes nothing. */
  lemma ParentEdgeStep(adj: Adjacency, u: nat, k: nat, s: Finder)
    requires Sized(adj, s) && u < |adj| && k < |adj[u]| && Scanning(adj, s, u, k)
    requires s.color[adj[u][k]] != White && adj[u][k] == s.parent[u]
    ensures Scanning(adj, s, u, k + 1) && Frame(adj, s, s, u)
  {
    assert LowAfter(adj, s, u, k);
    if s.low[u] != s.tin[u] {
      if exists j | 0 <= j < k :: adj[u][j] != s.parent[u] && s.low[u] == s.tin[adj[u][j]] {
        var j :| 0 <= j < k && adj[u][j] != s.parent[u] && s.low[u] == s.tin[adj[u][j]];
        assert 0 <= j < k + 1;
      }
    }
    forall x | 0 <= x < |adj|
      ensures Kept(adj, s, s, u, x)
    {
    }
  }

  // Finishing a vertex.

  /** Colouring u Black after its loop: the check of u by its parent is
      now pending. */
  lemma FinishStep(adj: Adjacency, u: nat, s: Finder, r: int)
    requires Inv(adj, s, r, -1, -1) && u < |adj| && Scanning(adj, s, u, |adj[u]|)
    ensures var s' := s.(color := s.color[u := Black]);
      Sized(adj, s') && Inv(adj, s', r, -1, u)
  {
    FinishTree(adj, u, s, r);
    FinishChecked(adj, u, s, r);
  }

  lemma FinishTree(adj: Adjacency, u: nat, s: Finder, r: int)
    requires Inv(adj, s, r, -1, -1) && u < |adj| && Scanning(adj, s, u, |adj[u]|)
    ensures var s' := s.(color := s.color[u := Black]);
      Sized(adj, s') && Timing(adj, s') && Tree(adj, s', r, -1) && Lows(adj, s')
  {
    var s' := s.(color := s.color[u := Black]);
    assert Linked(adj, s, r, -1, u);
    forall x | 0 <= x < |adj|
      ensures Linked(adj, s', r, -1, x)
    {
      assert Linked(adj, s, r, -1, x);
    }
    FinishLows(adj, u, s);
  }

  lemma FinishLows(adj: Adjacency, u: nat, s: Finder)
    requires Sized(adj, s) && Lows(adj, s) && u < |adj| && Scanning(adj, s, u, |adj[u]|)
    requires 0 <= s.parent[u] < |adj| ==> s.color[s.parent[u]] != Black
    ensures var s' := s.(color := s.color[u := Black]);
      Sized(adj, s') && Lows(adj, s')
  {
    var s' := s.(color := s.color[u := Black]);
    forall x | 0 <= x < |adj|
      ensures LowOk(adj, s', x)
    {
      assert LowOk(adj, s, x);
      if s.color[x] == Black || x == u {
        assert LowAfter(adj, s, x, |adj[x]|);
      }
    }
  }

  lemma FinishChecked(adj: Adjacency, u: nat, s: Finder, r: int)
    requires Inv(adj, s, r, -1, -1) && u < |adj| && s.color[u] == Gray
    ensures var s' := s.(color := s.color[u := Black]);
      Sized(adj, s') && Checked(adj, s', r, u)
  {
    var s' := s.(color := s.color[u := Black]);
    assert Linked(adj, s, r, -1, u);
    forall i | 0 <= i < |s.bridges|
      ensures BridgeEntry(adj, s', u, s.bridges[i])
    {
      assert BridgeEntry(adj, s, -1, s.bridges[i]);
    }
    forall w | 0 <= w < |adj|
      ensures ApRule(adj, s', r, u, w) == ApRule(adj, s, r, -1, w)
    {
    }
  }

  /** BridgeDFS(u) turns u from White to Black: vertices entered before
      keep their colour, times, parents and low values. */
  lemma VisitFrame(adj: Adjacency, u: nat, s: Finder, s2: Finder)
    requires Sized(adj, s) && u < |adj| && s.color[u] == White
    requires Sized(adj, Enter(u, s)) && Sized(adj, s2) && Frame(adj, Enter(u, s), s2, u) && s2.color[u] == Gray
    ensures Sized(adj, s2.(color := s2.color[u := Black])) && Frame(adj, s, s2.(color := s2.color[u := Black]), -1)
  {
    var s1 := Enter(u, s);
    var s3 := s2.(color := s2.color[u := Black]);
    forall x | 0 <= x < |adj|
      ensures Kept(adj, s, s3, -1, x)
    {
      assert Kept(adj, s1, s2, u, x);
    }
  }

  lemma FrameRefl(adj: Adjacency, s: Finder, w: int)
    requires Sized(adj, s)
    ensures Frame(adj, s, s, w)
  {
    forall x | 0 <= x < |adj|
      ensures Kept(adj, s, s, w, x)
    {
    }
  }

  lemma AfterChildTree(adj: Adjacency, u: nat, v: nat, s2: Finder, r: int)
    requires Sized(adj, s2) && Timing(adj, s2) && Tree(adj, s2, r, -1) && u < |adj| && v < |adj|
    ensures Sized(adj, AfterChild(u, v, s2)) && Timing(adj, AfterChild(u, v, s2)) && Tree(adj, AfterChild(u, v, s2), r, -1)
  {
    var s3 := AfterChild(u, v, s2);
    forall x | 0 <= x < |adj|
      ensures Linked(adj, s3, r, -1, x)
    {
      assert Linked(adj, s2, r, -1, x);
    }
  }

  // The whole search.

  /** One pass of the neighbour loop of u keeps the invariant and moves the
      loop one position on. */
  lemma {:induction false} StepFacts(adj: Adjacency, u: nat, k: nat, s: Finder, r: int)
    requires Inv(adj, s, r, -1, -1) && u < |adj| && k < |adj[u]| && Scanning(adj, s, u, k)
    ensures var s' := Step(adj, u, adj[u][k], s);
      Inv(adj, s', r, -1, -1) && Scanning(adj, s', u, k + 1) && Frame(adj, s, s', u)
    decreases CountWhite(s.color), 0, 1
  {
    var v := adj[u][k];
    if s.color[v] == White {
      var s1 := Child(u, v, s);
      ChildTree(adj, u, k, s, r);
      ChildLows(adj, u, k, s);
      ChildChecked(adj, u, k, s, r);
      ChildFrame(adj, u, k, s);
      assert Timing(adj, s1);
      VisitFacts(adj, v, s1, r);
      var s2 := Visit(adj, v, s1);
      assert Kept(adj, s1, s2, -1, u);
      AfterChildScanning(adj, u, k, s, s2);
      AfterChildTree(adj, u, v, s2, r);
      AfterChildLows(adj, u, v, s2);
      AfterChildChecked(adj, u, v, s2, r);
      AfterChildFrame(adj, u, v, s2);
      FrameWeaken(adj, s1, s2, u);
      FrameTrans(adj, s, s1, s2, u);
      FrameTrans(adj, s, s2, AfterChild(u, v, s2), u);
    } else if v != s.parent[u] {
      BackEdgeStep(adj, u, k, s, r);
    } else {
      ParentEdgeStep(adj, u, k, s);
    }
  }

  /** The neighbour loop of u from position k on keeps the invariant and
      ends with every neighbour of u entered and folded into low[u]. */
  lemma {:induction false} ScanFacts(adj: Adjacency, u: nat, k: nat, s: Finder, r: int)
    requires Inv(adj, s, r, -1, -1) && u < |adj| && k <= |adj[u]| && Scanning(adj, s, u, k)
    ensures var res := Scan(adj, u, k, s);
      Inv(adj, res, r, -1, -1) && Scanning(adj, res, u, |adj[u]|) && Frame(adj, s, res, u)
    decreases CountWhite(s.color), 1, |adj[u]| - k
  {
    if k == |adj[u]| {
      FrameRefl(adj, s, u);
    } else {
      var s' := Step(adj, u, adj[u][k], s);
      StepFacts(adj, u, k, s, r);
      ScanFacts(adj, u, k + 1, s', r);
      FrameTrans(adj, s, s', Scan(adj, u, k + 1, s'), u);
    }
  }

  /** BridgeDFS on a White u (the root r, or the child about to be entered)
      keeps the invariant and finishes u, whose check by its parent is then
      pending; vertices entered before keep their colour, times, parents
      and low values. */
  lemma {:induction false} VisitFacts(adj: Adjacency, u: nat, s: Finder, r: int)
    requires Inv(adj, s, r, u, -1) && u < |adj| && s.color[u] == White
    requires s.parent[u] == -1 ==> u == r
    ensures var res := Visit(adj, u, s);
      && Inv(adj, res, r, -1, u) && res.color[u] == Black && res.parent[u] == s.parent[u]
      && Frame(adj, s, res, -1)
    decreases CountWhite(s.color), 0, 0
  {
    CountWhiteUpdate(s.color, u, Gray);
    var s1 := Enter(u, s);
    EnterStep(adj, u, s, r);
    ScanFacts(adj, u, 0, s1, r);
    var s2 := Scan(adj, u, 0, s1);
    FinishStep(adj, u, s2, r);
    VisitFrame(adj, u, s, s2);
    assert Kept(adj, s1, s2, u, u);
  }

  // The loop over the roots.

  /** Between two trees: the invariant with no current root, no Gray
      vertex, and every vertex below u entered. */
  ghost predicate Between(adj: Adjacency, s: Finder, u: nat) {
    && Inv(adj, s, -1, -1, -1)
    && (forall x | 0 <= x < |adj| :: s.color[x] != Gray)
    && (forall x | 0 <= x < u && x < |adj| :: s.color[x] != White)
  }

  lemma InitBetween(adj: Adjacency)
    requires Closed(adj)
    ensures Sized(adj, Init(|adj|)) && Between(adj, Init(|adj|), 0)
  {
    var s := Init(|adj|);
    forall x | 0 <= x < |adj|
      ensures Linked(adj, s, -1, -1, x) && LowOk(adj, s, x) && !ApRule(adj, s, -1, -1, x)
    {
    }
  }

  /** Resetting rootChildren and taking the White u as the next root. */
  lemma RootEnter(adj: Adjacency, u: nat, s: Finder)
    requires Between(adj, s, u) && u < |adj| && s.color[u] == White
    ensures var s0 := s.(rootChildren := 0);
      Inv(adj, s0, u, u, -1) && s0.parent[u] == -1
  {
    var s0 := s.(rootChildren := 0);
    assert Linked(adj, s, -1, -1, u);
    forall x | 0 <= x < |adj|
      ensures Linked(adj, s0, u, u, x) && s.parent[x] != u && LowOk(adj, s0, x)
    {
      assert Linked(adj, s, -1, -1, x) && LowOk(adj, s, x);
      if s.color[x] == Black {
        assert LowAfter(adj, s, x, |adj[x]|);
      }
    }
    ChildrenNone(s.parent, u);
    forall w | 0 <= w < |adj|
      ensures ApRule(adj, s0, u, -1, w) == ApRule(adj, s, -1, -1, w)
    {
    }
  }

  /** The root test after the tree of u is complete. */
  lemma RootLeave(adj: Adjacency, u: nat, s2: Finder)
    requires Inv(adj, s2, u, -1, u) && u < |adj| && s2.color[u] == Black && s2.parent[u] == -1
    requires forall x | 0 <= x < |adj| :: s2.color[x] != Gray
    ensures var s3 := s2.(aps := if s2.rootChildren > 1 then s2.aps + {u} else s2.aps);
      Sized(adj, s3) && Inv(adj, s3, -1, -1, -1)
  {
    RootLeaveTree(adj, u, s2);
    RootLeaveChecked(adj, u, s2);
  }

  lemma RootLeaveTree(adj: Adjacency, u: nat, s2: Finder)
    requires Inv(adj, s2, u, -1, u) && u < |adj|
    requires forall x | 0 <= x < |adj| :: s2.color[x] != Gray
    ensures var s3 := s2.(aps := if s2.rootChildren > 1 then s2.aps + {u} else s2.aps);
      Sized(adj, s3) && Timing(adj, s3) && Tree(adj, s3, -1, -1) && Lows(adj, s3)
  {
    var s3 := s2.(aps := if s2.rootChildren > 1 then s2.aps + {u} else s2.aps);
    forall x | 0 <= x < |adj|
      ensures Linked(adj, s3, -1, -1, x) && LowOk(adj, s3, x)
    {
      assert Linked(adj, s2, u, -1, x) && LowOk(adj, s2, x);
      if s2.color[x] == Black {
        assert LowAfter(adj, s2, x, |adj[x]|);
      }
    }
  }

  lemma RootLeaveChecked(adj: Adjacency, u: nat, s2: Finder)
    requires Sized(adj, s2) && Checked(adj, s2, u, u) && u < |adj| && s2.color[u] == Black && s2.parent[u] == -1
    ensures var s3 := s2.(aps := if s2.rootChildren > 1 then s2.aps + {u} else s2.aps);
      Sized(adj, s3) && Checked(adj, s3, -1, -1)
  {
    var s3 := s2.(aps := if s2.rootChildren > 1 then s2.aps + {u} else s2.aps);
    forall i | 0 <= i < |s3.bridges|
      ensures BridgeEntry(adj, s3, -1, s3.bridges[i])
    {
      assert BridgeEntry(adj, s2, u, s2.bridges[i]);
    }
    forall w | 0 <= w < |adj|
      ensures w in s3.aps <==> ApRule(adj, s3, -1, -1, w)
    {
      assert w in s2.aps <==> ApRule(adj, s2, u, u, w);
      if w != u && s2.parent[w] != -1 {
        forall c | 0 <= c < |adj| && s2.parent[c] == w
          ensures c != u
        {
        }
      }
    }
  }

  /** One round of findBridgesAndAPs on a White u. */
  lemma RootStep(adj: Adjacency, u: nat, s: Finder)
    requires Between(adj, s, u) && u < |adj| && s.color[u] == White
    ensures Between(adj, NewTree(adj, u, s), u + 1)
  {
    var s0 := s.(rootChildren := 0);
    RootEnter(adj, u, s);
    VisitFacts(adj, u, s0, u);
    var s2 := Visit(adj, u, s0);
    forall x | 0 <= x < |adj|
      ensures s2.color[x] != Gray && (x < u ==> s2.color[x] != White)
    {
      assert Kept(adj, s0, s2, -1, x);
    }
    RootLeave(adj, u, s2);
  }

  lemma RootSkip(adj: Adjacency, u: nat, s: Finder)
    requires Between(adj, s, u) && u < |adj| && s.color[u] != White
    ensures Between(adj, s, u + 1)
  {
  }

  /** Every round of findBridgesAndAPs keeps the state between trees; at the
      end every vertex has been entered and none is Gray. */
  lemma {:induction false} RootsFacts(adj: Adjacency, u: nat, s: Finder)
    requires Between(adj, s, u) && u <= |adj|
    ensures Between(adj, Roots(adj, u, s), |adj|)
    decreases |adj| - u, 1
  {
    if u < |adj| {
      if s.color[u] == White {
        RootsFactsNewTree(adj, u, s);
      } else {
        RootSkip(adj, u, s);
        RootsFacts(adj, u + 1, s);
      }
    }
  }

  /** The round of RootsFacts that starts a tree at u. */
  lemma {:induction false} RootsFactsNewTree(adj: Adjacency, u: nat, s: Finder)
    requires Between(adj, s, u) && u < |adj| && s.color[u] == White
    ensures Between(adj, Roots(adj, u, s), |adj|)
    decreases |adj| - u, 0
  {
    RootStep(adj, u, s);
    RootsFacts(adj, u + 1, NewTree(adj, u, s));
  }

  // What findBridgesAndAPs computes.

  lemma FoundBetween(adj: Adjacency)
    requires Closed(adj)
    ensures Sized(adj, Found(adj)) && Between(adj, Found(adj), |adj|)
  {
    InitBetween(adj);
    RootsFacts(adj, 0, Init(|adj|));
  }

  /** Every vertex has been visited and finished. */
  lemma AllVisited(adj: Adjacency)
    requires Closed(adj)
    ensures Sized(adj, Found(adj))
    ensures forall v | 0 <= v < |adj| :: Found(adj).color[v] == Black
  {
    FoundBetween(adj);
  }

  /** Entry times are handed out 0, 1, 2, ... in the order vertices are
      entered; every vertex is entered exactly once, so the entry times are
      a permutation of 0 .. n-1. */
  lemma EntryTimes(adj: Adjacency)
    requires Closed(adj)
    ensures var s := Found(adj);
      && Sized(adj, s) && s.time == |adj| && |s.order| == |adj| && Distinct(s.order)
      && (forall i | 0 <= i < |s.order| :: s.order[i] < |adj| && s.tin[s.order[i]] == i)
      && (forall v | 0 <= v < |adj| :: 0 <= s.tin[v] < |adj|)
      && (forall v, w | 0 <= v < w < |adj| :: s.tin[v] != s.tin[w])
  {
    FoundBetween(adj);
    var s := Found(adj);
    forall v | 0 <= v < |adj|
      ensures v in s.order
    {
    }
    PermutationLength(s.order, |adj|);
    forall v, w | 0 <= v < w < |adj|
      ensures s.tin[v] != s.tin[w]
    {
      assert s.color[v] != White && s.color[w] != White;
      assert v in s.order && w in s.order;
      var i :| 0 <= i < |s.order| && s.order[i] == v;
      var j :| 0 <= j < |s.order| && s.order[j] == w;
    }
    forall v | 0 <= v < |adj|
      ensures 0 <= s.tin[v] < |adj|
    {
      EnteredTime(adj, s, v);
    }
  }

  /** low[v] is the smallest of time_in[v], the entry times of v's
      neighbours other than its parent, and the low values of its tree
      children; in particular 0 <= low[v] <= time_in[v]. */
  lemma LowValues(adj: Adjacency)
    requires Closed(adj)
    ensures var s := Found(adj);
      Sized(adj, s) && forall v | 0 <= v < |adj| :: 0 <= s.low[v] <= s.tin[v] && LowAfter(adj, s, v, |adj[v]|)
  {
    FoundBetween(adj);
    var s := Found(adj);
    forall v | 0 <= v < |adj|
      ensures 0 <= s.low[v] <= s.tin[v] && LowAfter(adj, s, v, |adj[v]|)
    {
      assert LowOk(adj, s, v);
    }
  }

  /** The parent links form a DFS forest: each parent is a neighbour that
      was entered earlier. */
  lemma ForestShape(adj: Adjacency)
    requires Closed(adj)
    ensures var s := Found(adj);
      Sized(adj, s) && forall v | 0 <= v < |adj| ::
        (s.parent[v] == -1 || (0 <= s.parent[v] < |adj| && v in adj[s.parent[v]] && s.tin[s.parent[v]] < s.tin[v]))
  {
    FoundBetween(adj);
    var s := Found(adj);
    forall v | 0 <= v < |adj|
      ensures s.parent[v] == -1 || (0 <= s.parent[v] < |adj| && v in adj[s.parent[v]] && s.tin[s.parent[v]] < s.tin[v])
    {
      assert Linked(adj, s, -1, -1, v);
    }
  }

  /** The bridge list holds each tree edge (u, v) with low[v] > time_in[u],
      once, and nothing else. */
  lemma BridgeCriterion(adj: Adjacency)
    requires Closed(adj)
    ensures var s := Found(adj);
      && Sized(adj, s) && Distinct(s.bridges)
      && (forall e | e in s.bridges :: e.0 < |adj| && e.1 < |adj|)
      && (forall u, v | 0 <= u < |adj| && 0 <= v < |adj| ::
            (u, v) in s.bridges <==> s.parent[v] == u && s.low[v] > s.tin[u])
  {
    FoundBetween(adj);
    var s := Found(adj);
    forall e | e in s.bridges
      ensures e.0 < |adj| && e.1 < |adj| && s.parent[e.1] == e.0 && s.low[e.1] > s.tin[e.0]
    {
      var i :| 0 <= i < |s.bridges| && s.bridges[i] == e;
      assert BridgeEntry(adj, s, -1, s.bridges[i]);
    }
  }

  /** A vertex with a parent is an articulation point exactly when one of
      its tree children c has low[c] >= time_in[u]; a root exactly when it
      has more than one tree child. */
  lemma ArticulationCriterion(adj: Adjacency)
    requires Closed(adj)
    ensures var s := Found(adj);
      && Sized(adj, s) && (forall u | u in s.aps :: u < |adj|)
      && (forall u | 0 <= u < |adj| :: u in s.aps <==>
            if s.parent[u] != -1 then
              exists c | 0 <= c < |adj| :: s.parent[c] == u && s.low[c] >= s.tin[u]
            else
              |Children(s.parent, u)| > 1)
  {
    FoundBetween(adj);
    var s := Found(adj);
    forall u | 0 <= u < |adj|
      ensures u in s.aps <==>
            if s.parent[u] != -1 then
              exists c | 0 <= c < |adj| :: s.parent[c] == u && s.low[c] >= s.tin[u]
            else
              |Children(s.parent, u)| > 1
    {
      assert u in s.aps <==> ApRule(adj, s, -1, -1, u);
    }
  }

  lemma {:induction false} RootsNoWhite(adj: Adjacency, u: nat, s: Finder)
    requires Sized(adj, s) && u <= |adj|
    requires forall v | 0 <= v < |adj| :: s.color[v] != White
    ensures Roots(adj, u, s) == s
    decreases |adj| - u
  {
    if u < |adj| {
      RootsNoWhite(adj, u + 1, s);
    }
  }

  /** Calling findBridgesAndAPs again changes nothing: no vertex is White. */
  lemma SecondCallNoop(adj: Adjacency)
    requires Closed(adj)
    ensures Sized(adj, Found(adj)) && Roots(adj, 0, Found(adj)) == Found(adj)
  {
    AllVisited(adj);
    RootsNoWhite(adj, 0, Found(adj));
  }
}

/** Small facts about sequences of vertex ids used throughout the model. */
module Seqs {

  /** No element occurs twice. */
  predicate Distinct<T(==)>(s: seq<T>) {
    forall i, j | 0 <= i < j < |s| :: s[i] != s[j]
  }

  /** Every element is smaller than every later one. */
  predicate StrictlyIncreasing(s: seq<nat>) {
    forall i, j | 0 <= i < j < |s| :: s[i] < s[j]
  }

  /** Appending an element larger than every element keeps a sequence increasing. */
  lemma IncreasingSnoc(s: seq<nat>, x: nat)
    requires StrictlyIncreasing(s)
    requires forall y | y in s :: y < x
    ensures StrictlyIncreasing(s + [x])
  {
    forall i, j | 0 <= i < j < |s| + 1
      ensures (s + [x])[i] < (s + [x])[j]
    {
      if j == |s| {
        assert s[i] in s;
      }
    }
  }

  /** Prepending an element smaller than every element keeps a sequence increasing. */
  lemma IncreasingCons(x: nat, s: seq<nat>)
    requires StrictlyIncreasing(s)
    requires forall y | y in s :: x < y
    ensures StrictlyIncreasing([x] + s)
  {
    forall i, j | 0 <= i < j < |s| + 1
      ensures ([x] + s)[i] < ([x] + s)[j]
    {
      assert s[j - 1] in s;
    }
  }

  /** Appending an element not yet present keeps a sequence duplicate-free. */
  lemma DistinctSnoc<T>(s: seq<T>, x: T)
    requires Distinct(s) && x !in s
    ensures Distinct(s + [x])
  {
    forall i, j | 0 <= i < j < |s| + 1
      ensures (s + [x])[i] != (s + [x])[j]
    {
      if j == |s| {
        assert s[i] in s;
      }
    }
  }

  /** In a duplicate-free a + [x] + b, x occurs in neither a nor b. */
  lemma DistinctMiddle<T>(a: seq<T>, x: T, b: seq<T>)
    requires Distinct(a + [x] + b)
    ensures x !in a && x !in b
  {
    var s := a + [x] + b;
    assert s[|a|] == x;
    forall i | 0 <= i < |a|
      ensures a[i] != x
    {
      assert s[i] == a[i];
    }
    forall i | 0 <= i < |b|
      ensures b[i] != x
    {
      assert s[|a| + 1 + i] == b[i];
    }
  }

  /** The two halves of a duplicate-free concatenation share no element. */
  lemma DistinctAppend<T>(a: seq<T>, b: seq<T>)
    requires Distinct(a + b)
    ensures forall x | x in b :: x !in a
  {
    forall i, j | 0 <= i < |a| && 0 <= j < |b|
      ensures a[i] != b[j]
    {
      assert (a + b)[i] == a[i] && (a + b)[|a| + j] == b[j];
    }
  }

  /** a is a prefix of b. */
  predicate Prefix<T(==)>(a: seq<T>, b: seq<T>) {
    |a| <= |b| && b[..|a|] == a
  }

  lemma PrefixTrans<T>(a: seq<T>, b: seq<T>, c: seq<T>)
    requires Prefix(a, b) && Prefix(b, c)
    ensures Prefix(a, c)
  {
    assert c[..|a|] == c[..|b|][..|a|];
  }

  /** Splitting the first element off the tail of a concatenation. */
  lemma SplitFirst<T>(a: seq<T>, b: seq<T>)
    requires |b| > 0
    ensures a + b == a + [b[0]] + b[1..]
  {
    assert b == [b[0]] + b[1..];
  }

  /** A sequence is its prefix followed by the rest. */
  lemma PrefixRest<T>(a: seq<T>, b: seq<T>)
    requires Prefix(a, b)
    ensures b == a + b[|a|..]
  {
    assert b == b[..|a|] + b[|a|..];
  }

  /** Prefixes chain, and what the longest adds past the shortest is what
      the middle one adds followed by what the longest adds past it. */
  lemma PrefixSplit<T>(a: seq<T>, b: seq<T>, c: seq<T>)
    requires Prefix(a, b) && Prefix(b, c)
    ensures Prefix(a, c) && c[|a|..] == b[|a|..] + c[|b|..]
  {
    PrefixTrans(a, b, c);
    assert c == c[..|b|] + c[|b|..];
  }

  /** The vertex ids 0 .. n-1. */
  function Range(n: nat): (r: set<nat>)
    ensures forall v: nat :: v in r <==> v < n
  {
    if n == 0 then {} else Range(n - 1) + {n - 1}
  }

  function Elements<T>(s: seq<T>): set<T> {
    set x | x in s
  }

  /** Adding a new element grows a set by one. */
  lemma CardAddFresh<T>(a: set<T>, x: T)
    requires x !in a
    ensures |a + {x}| == |a| + 1
  {
  }

  lemma {:induction false} RangeCard(n: nat)
    ensures |Range(n)| == n
  {
    if n > 0 {
      RangeCard(n - 1);
      CardAddFresh(Range(n - 1), n - 1);
    }
  }

  lemma {:induction false} DistinctCard<T>(s: seq<T>)
    requires Distinct(s)
    ensures |Elements(s)| == |s|
  {
    if s != [] {
      var init := s[..|s| - 1];
      DistinctCard(init);
      assert Elements(s) == Elements(init) + {s[|s| - 1]};
      assert s[|s| - 1] !in Elements(init);
    }
  }

  /** A duplicate-free sequence that holds exactly the ids 0 .. n-1 has length n. */
  lemma PermutationLength(s: seq<nat>, n: nat)
    requires Distinct(s)
    requires forall x | x in s :: x < n
    requires forall v: nat | v < n :: v in s
    ensures |s| == n
  {
    DistinctCard(s);
    RangeCard(n);
    assert Elements(s) == Range(n);
  }

  /** Two strictly increasing sequences with the same elements are equal. */
  lemma {:induction false} IncreasingUnique(a: seq<nat>, b: seq<nat>)
    requires StrictlyIncreasing(a) && StrictlyIncreasing(b)
    requires forall x :: x in a <==> x in b
    ensures a == b
  {
    assert |a| > 0 ==> a[0] in a;
    assert |b| > 0 ==> b[0] in b;
    if a != [] && b != [] {
      assert a[0] in b && b[0] in a;
      assert a[0] == b[0];
      forall x
        ensures x in a[1..] <==> x in b[1..]
      {
        if x in a[1..] {
          assert x in b;
          assert x != b[0];
        }
        if x in b[1..] {
          assert x in a;
          assert x != a[0];
        }
      }
      IncreasingUnique(a[1..], b[1..]);
      assert a == [a[0]] + a[1..];
      assert b == [b[0]] + b[1..];
    }
  }
}

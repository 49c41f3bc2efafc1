/**
  Adjacency lists as the graph stores them: a map from a vertex id to the
  ordered list of its neighbours. A vertex that is not a key behaves as if
  it had the empty list, which is what `operator[]` on the C++ map yields.
 */
module Adjacency {

  type Adj = map<int, seq<int>>

  /** No entry occurs twice: each one is absent from the entries before it. */
  ghost predicate Distinct(p: seq<int>)
    decreases |p|
  {
    p == [] || (Distinct(p[..|p| - 1]) && p[|p| - 1] !in p[..|p| - 1])
  }

  /** In a sequence without repetitions, different positions hold different entries. */
  lemma {:induction false} DistinctAt(p: seq<int>, i: int, j: int)
    requires Distinct(p) && 0 <= i < j < |p|
    ensures p[i] != p[j]
    decreases |p|
  {
    var init := p[..|p| - 1];
    assert init[i] == p[i];
    if j < |p| - 1 {
      DistinctAt(init, i, j);
    }
  }

  /** Appending an entry not yet present keeps a sequence without repetitions. */
  lemma {:induction false} DistinctSnoc(p: seq<int>, v: int)
    requires Distinct(p) && v !in p
    ensures Distinct(p + [v])
  {
    assert (p + [v])[..|p|] == p;
  }

  /** A sequence without repetitions has as many distinct entries as positions. */
  lemma {:induction false} DistinctCardinality(p: seq<int>)
    requires Distinct(p)
    ensures |Elems(p)| == |p|
    decreases |p|
  {
    if p != [] {
      var init := p[..|p| - 1];
      DistinctCardinality(init);
      assert p == init + [p[|p| - 1]];
      assert Elems(p) == Elems(init) + {p[|p| - 1]};
    }
  }

  /** How often `w` occurs in `s`. */
  function Count(s: seq<int>, w: int): nat
    decreases |s|
  {
    if s == [] then 0 else Count(s[..|s| - 1], w) + (if s[|s| - 1] == w then 1 else 0)
  }

  lemma {:induction false} CountSnoc(s: seq<int>, x: int, w: int)
    ensures Count(s + [x], w) == Count(s, w) + (if x == w then 1 else 0)
  {
    assert (s + [x])[..|s|] == s;
  }

  /** An entry occurs a positive number of times exactly when it is present. */
  lemma {:induction false} CountPositive(s: seq<int>, w: int)
    ensures Count(s, w) > 0 <==> w in s
    decreases |s|
  {
    if s != [] {
      var init := s[..|s| - 1];
      CountPositive(init, w);
      assert s == init + [s[|s| - 1]];
    }
  }

  /** The set of entries of a sequence. */
  ghost function Elems(p: seq<int>): set<int>
  {
    set x | x in p
  }

  /** The neighbour list of `u`, empty when `u` is not a key. */
  function Lookup(adj: Adj, u: int): seq<int>
  {
    if u in adj then adj[u] else []
  }

  /** Stored degree: the length of the neighbour list (0 for a missing key). */
  function Deg(adj: Adj, u: int): nat
  {
    |Lookup(adj, u)|
  }

  /** One `push_back(w)` onto `u`'s list, creating the list when absent. */
  function Append(adj: Adj, u: int, w: int): (r: Adj)
    ensures forall x {:trigger x in r} :: x in r <==> x in adj || x == u
    ensures Lookup(r, u) == Lookup(adj, u) + [w]
    ensures forall x {:trigger Lookup(r, x)} :: x != u ==> Lookup(r, x) == Lookup(adj, x)
  {
    adj[u := Lookup(adj, u) + [w]]
  }

  /** Two lists agree key for key and in membership: the maps are equal. */
  lemma {:induction false} ExtensionalEquality(a: Adj, b: Adj)
    requires forall x :: x in a <==> x in b
    requires forall x :: Lookup(a, x) == Lookup(b, x)
    ensures a == b
  {
    assert forall x :: x in a.Keys <==> x in b.Keys;
    forall x | x in a
      ensures a[x] == b[x]
    {
      assert Lookup(a, x) == Lookup(b, x);
    }
  }

  /**
    The shape of a graph built from the empty map by `addEdge` calls only:
    every key has a non-empty list, and `w` occurs in `u`'s list exactly as
    often as `u` occurs in `w`'s list.
   */
  ghost predicate Undirected(adj: Adj)
  {
    && (forall u :: u in adj ==> adj[u] != [])
    && (forall u, w :: Count(Lookup(adj, u), w) == Count(Lookup(adj, w), u))
  }

  lemma EmptyIsUndirected()
    ensures Undirected(map[])
  {
  }

  /** How `addEdge(u, v)` changes how often `y` occurs in `x`'s list. */
  lemma {:induction false} AddEdgeCount(adj: Adj, u: int, v: int, x: int, y: int)
    ensures Count(Lookup(Append(Append(adj, u, v), v, u), x), y)
         == Count(Lookup(adj, x), y)
            + (if x == u && y == v then 1 else 0)
            + (if x == v && y == u then 1 else 0)
  {
    var a1 := Append(adj, u, v);
    var a2 := Append(a1, v, u);
    if x == u {
      CountSnoc(Lookup(adj, x), v, y);
    }
    if x == v {
      CountSnoc(Lookup(a1, x), u, y);
    }
  }

  /** `addEdge(u, v)` keeps a graph undirected. */
  lemma {:induction false} AddEdgeKeepsUndirected(adj: Adj, u: int, v: int)
    requires Undirected(adj)
    ensures Undirected(Append(Append(adj, u, v), v, u))
  {
    var a2 := Append(Append(adj, u, v), v, u);
    forall x, y
      ensures Count(Lookup(a2, x), y) == Count(Lookup(a2, y), x)
    {
      AddEdgeCount(adj, u, v, x, y);
      AddEdgeCount(adj, u, v, y, x);
    }
    AddEdgeKeepsListsNonEmpty(adj, u, v);
  }

  lemma {:induction false} AddEdgeKeepsListsNonEmpty(adj: Adj, u: int, v: int)
    requires forall x :: x in adj ==> adj[x] != []
    ensures var a2 := Append(Append(adj, u, v), v, u); forall x :: x in a2 ==> a2[x] != []
  {
    var a2 := Append(Append(adj, u, v), v, u);
    forall x | x in a2
      ensures a2[x] != []
    {
      assert Lookup(a2, x) == a2[x];
      if x != u && x != v {
        assert x in adj;
      }
    }
  }

  /** In an undirected graph every stored neighbour is itself a key with `u` in its list. */
  lemma {:induction false} NeighbourIsKey(adj: Adj, u: int, w: int)
    requires Undirected(adj)
    requires w in Lookup(adj, u)
    ensures w in adj && u in adj[w]
  {
    CountPositive(Lookup(adj, u), w);
    CountPositive(Lookup(adj, w), u);
  }
}

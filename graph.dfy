/**
  The `Graph` class: an adjacency map from vertex id to an ordered
  neighbour list, plus a separately declared vertex count that only the
  Hamiltonian path search reads.

  The hash map's iteration order is not fixed by the program; every
  operation that walks the keys takes that order as a parameter `order`,
  any sequence listing each key once, and its contract holds for all of them.
 */
module Graphs {
  import opened Adjacency
  import opened Hamiltonian
  import opened Spanning

  /** The transform's outcome: a graph, or the `invalid_argument` it throws. */
  datatype Result<T> = Ok(value: T) | InvalidArgument(message: string)

  /** `order` lists every key of `adj` exactly once. */
  ghost predicate IsIterationOrder(adj: Adj, order: seq<int>)
  {
    Distinct(order) && Elems(order) == adj.Keys
  }

  /** `degreeMap[x]` on the strip's degree map: 0 for an id it does not hold. */
  function DegreeAt(degree: map<int, int>, x: int): int
  {
    if x in degree then degree[x] else 0
  }

  /** The search's shared `path` vector and `visited` set. */
  class SearchState {
    var path: seq<int>
    var visited: set<int>

    constructor ()
      ensures path == [] && visited == {}
      ensures Valid()
    {
      path, visited := [], {};
    }

    /** `visited` is the set of vertices on `path`, and none is on it twice. */
    ghost predicate Valid()
      reads this
      ensures Valid() ==> |visited| == |path|
    {
      Distinct(path) && (DistinctCardinality(path); visited == Elems(path))
    }
  }

  class Graph {
    var adj: Adj
    var vertexCount: int

    constructor (n: int)
      ensures adj == map[] && vertexCount == n
    {
      adj, vertexCount := map[], n;
    }

    /** The copy `Graph transformedGraph = *this`. */
    constructor Copy(other: Graph)
      ensures adj == other.adj && vertexCount == other.vertexCount
    {
      adj, vertexCount := other.adj, other.vertexCount;
    }

    /** Undirected edge: `v` onto `u`'s list, then `u` onto `v`'s list. */
    method AddEdge(u: int, v: int)
      modifies this
      ensures adj == Append(Append(old(adj), u, v), v, u)
      ensures vertexCount == old(vertexCount)
    {
      adj := Append(adj, u, v);
      adj := Append(adj, v, u);
    }

    /** Directed half-edge: `v` onto `u`'s list only. */
    method AddEdgeOnce(u: int, v: int)
      modifies this
      ensures adj == Append(old(adj), u, v)
      ensures vertexCount == old(vertexCount)
    {
      adj := Append(adj, u, v);
    }

    method SetVertexCount(count: int)
      modifies this
      ensures vertexCount == count && adj == old(adj)
    {
      vertexCount := count;
    }

    /**
      Tries every key, in `order`, as the start of a backtracking search.
      A non-empty result is a Hamiltonian path from a key; the result is
      empty exactly when no key starts one.
     */
    method FindHamiltonianPath(order: seq<int>) returns (path: seq<int>)
      requires IsIterationOrder(adj, order)
      ensures path != [] ==> HamiltonianPath(adj, vertexCount, path) && path[0] in adj
      ensures path == [] <==> forall start :: start in adj ==> !CanComplete(adj, vertexCount, [start])
      ensures vertexCount <= 0 ==> path == []
    {
      var s := new SearchState();
      var idx := 0;
      while idx < |order|
        invariant 0 <= idx <= |order|
        invariant forall t :: 0 <= t < idx ==> !CanComplete(adj, vertexCount, [order[t]])
      {
        var start := order[idx];
        assert start in Elems(order);
        s.path, s.visited := [], {};
        var found := HamiltonianPathUtil(start, s);
        if found {
          path := s.path;
          assert [start] <= path;
          PathCompletesPrefix(adj, vertexCount, [path[0]], path);
          return;
        }
        idx := idx + 1;
      }
      forall start | start in adj
        ensures !CanComplete(adj, vertexCount, [start])
      {
        assert start in Elems(order);
        var t :| 0 <= t < |order| && order[t] == start;
      }
      path := [];
    }

    /**
      One level of the backtracking: push `v`, succeed when the path has
      `vertexCount` vertices, otherwise try each unvisited entry of `v`'s
      list in order, and pop `v` again when none succeeds.
     */
    method HamiltonianPathUtil(v: int, s: SearchState) returns (found: bool)
      requires s.Valid() && Linked(adj, s.path)
      requires s.path != [] ==> v in Lookup(adj, s.path[|s.path| - 1])
      requires v !in s.visited && v in Vertices(adj)
      modifies s
      decreases |Vertices(adj) - s.visited|
      ensures s.Valid()
      ensures found <==> CanComplete(adj, vertexCount, old(s.path) + [v])
      ensures found ==> old(s.path) + [v] <= s.path && HamiltonianPath(adj, vertexCount, s.path)
      ensures !found ==> s.path == old(s.path) && s.visited == old(s.visited)
    {
      ghost var entry, entryVisited := s.path, s.visited;
      ExtendPath(adj, entry, v);
      FewerUnvisited(Vertices(adj), entryVisited, v);
      s.path := s.path + [v];
      s.visited := s.visited + {v};
      ghost var here := s.path;
      if |s.path| == vertexCount {
        PathCompletesPrefix(adj, vertexCount, here, here);
        return true;
      }
      var nbrs := Lookup(adj, v);
      var j := 0;
      while j < |nbrs|
        invariant 0 <= j <= |nbrs|
        invariant s.path == here && s.visited == entryVisited + {v}
        invariant NoneCompletes(adj, vertexCount, here, nbrs, j)
      {
        var w := nbrs[j];
        if w !in s.visited {
          NeighbourIsVertex(adj, v, w);
          found := HamiltonianPathUtil(w, s);
          if found {
            LongerPrefixCompletes(adj, vertexCount, here, here + [w]);
            SnocPrefix(here, w, s.path);
            return;
          }
        } else {
          RevisitCannotComplete(adj, vertexCount, here, w);
        }
        j := j + 1;
      }
      DeadEnd(adj, vertexCount, here, nbrs);
      PopRestores(entry, entryVisited, v);
      s.path := s.path[..|s.path| - 1];
      s.visited := s.visited - {v};
      found := false;
    }

    /**
      2 -> k: rejects k < 2; otherwise a fresh copy in which every v in
      1..vertexCount has its k-2 fresh ids attached by `AddEdge`.
     */
    method TransformToKSpanningTree(k: int) returns (r: Result<Graph>)
      ensures unchanged(this)
      ensures r.InvalidArgument? <==> k < 2
      ensures r.Ok? ==> k >= 2 && fresh(r.value) && r.value.vertexCount == vertexCount
      ensures r.Ok? ==> IsTransformOf(r.value.adj, adj, vertexCount, k)
    {
      if k < 2 {
        return InvalidArgument("k must be at least 2");
      }
      var t := new Graph.Copy(this);
      var n := vertexCount;
      ghost var base := adj;
      var v := 1;
      while v <= n
        invariant v >= 1 && (v == 1 || v <= n + 1)
        invariant t.vertexCount == n
        invariant t.adj == Built(base, n, k, v, 0)
      {
        var i := 0;
        while i < k - 2
          invariant 0 <= i <= k - 2
          invariant t.vertexCount == n
          invariant t.adj == Built(base, n, k, v, i)
        {
          var newVertex := n + v * (k - 2) + i;
          FreshIdValue(n, k, v, i);
          BuiltStep(base, n, k, v, i, i + 1, newVertex);
          t.AddEdge(v, newVertex);
          i := i + 1;
        }
        BuiltNextVertex(base, n, k, v, i);
        v := v + 1;
      }
      BuiltIsTransform(base, n, k, v);
      r := Ok(t);
    }

    /**
      The strip's first loop: `degreeMap[u]` is set to the stored degree of
      every key `u`, walking the keys in `order`.
     */
    method Degrees(order: seq<int>) returns (degree: map<int, int>)
      requires IsIterationOrder(adj, order)
      ensures forall x :: DegreeAt(degree, x) == Deg(adj, x)
    {
      degree := map[];
      var i := 0;
      while i < |order|
        invariant 0 <= i <= |order|
        invariant forall t :: 0 <= t < i ==> order[t] in degree
        invariant forall x :: x in degree ==> x in adj && degree[x] == Deg(adj, x)
      {
        var u := order[i];
        assert u in Elems(order);
        degree := degree[u := |adj[u]|];
        i := i + 1;
      }
      forall x | x in adj
        ensures x in degree
      {
        assert x in Elems(order);
        var t :| 0 <= t < |order| && order[t] == x;
      }
    }

    /**
      k -> 2: records every key's stored degree, then copies each entry
      `u -> w` as one half-edge when both degrees exceed 1, into a graph
      whose declared vertex count is 0.
     */
    method ConvertToTwoSpanningTree(order: seq<int>) returns (g: Graph)
      requires IsIterationOrder(adj, order)
      ensures unchanged(this)
      ensures fresh(g) && g.vertexCount == 0
      ensures g.adj == Stripped(adj)
    {
      g := new Graph(0);
      ghost var base := adj;
      var degree := Degrees(order);
      var i := 0;
      while i < |order|
        invariant 0 <= i <= |order|
        invariant fresh(g) && g.vertexCount == 0
        invariant g.adj == StrippedAlong(base, order[..i])
      {
        var u := order[i];
        assert u in Elems(order);
        ghost var done := StrippedAlong(base, order[..i]);
        StrippedAlongFresh(base, order, i);
        var nbrs := adj[u];
        var j := 0;
        ghost var kept: seq<int> := [];
        while j < |nbrs|
          invariant 0 <= j <= |nbrs|
          invariant fresh(g) && g.vertexCount == 0
          invariant kept == Kept(base, u, nbrs[..j])
          invariant g.adj == WithList(done, u, kept)
        {
          var w := nbrs[j];
          var keep := DegreeAt(degree, u) > 1 && DegreeAt(degree, w) > 1;
          assert DegreeAt(degree, u) == Deg(base, u) && DegreeAt(degree, w) == Deg(base, w);
          KeptStep(base, u, nbrs, j, kept, keep);
          if keep {
            WithListAppend(done, u, kept, w);
            g.AddEdgeOnce(u, w);
            kept := kept + [w];
          }
          j := j + 1;
        }
        KeptWhole(base, u, nbrs);
        StrippedAlongStep(base, order, i);
        i := i + 1;
      }
      StrippedAlongIsStripped(base, order);
    }
  }
}

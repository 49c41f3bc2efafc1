/**
  What the backtracking search looks for: simple paths along stored
  neighbour lists whose length equals the declared vertex count.
 */
module Hamiltonian {
  import opened Adjacency

  /** Each vertex after the first occurs in its predecessor's stored list. */
  ghost predicate Linked(adj: Adj, p: seq<int>)
    decreases |p|
  {
    |p| <= 1 || (Linked(adj, p[..|p| - 1]) && p[|p| - 1] in Lookup(adj, p[|p| - 2]))
  }

  /** A simple path of exactly `n` vertices: the search's success condition. */
  ghost predicate HamiltonianPath(adj: Adj, n: int, p: seq<int>)
  {
    |p| == n && Distinct(p) && Linked(adj, p)
  }

  /** Some Hamiltonian path starts with `prefix`. */
  ghost predicate CanComplete(adj: Adj, n: int, prefix: seq<int>)
  {
    exists p :: prefix <= p && HamiltonianPath(adj, n, p)
  }

  /** Every id the graph mentions, as a key or inside a list. */
  ghost function Vertices(adj: Adj): set<int>
  {
    adj.Keys + set u, w | u in adj && w in adj[u] :: w
  }

  /** Along a linked path, each step follows a stored list entry. */
  lemma {:induction false} LinkedAt(adj: Adj, p: seq<int>, i: int)
    requires Linked(adj, p) && 0 < i < |p|
    ensures p[i] in Lookup(adj, p[i - 1])
    decreases |p|
  {
    var init := p[..|p| - 1];
    if i < |p| - 1 {
      LinkedAt(adj, init, i);
      assert init[i] == p[i] && init[i - 1] == p[i - 1];
    }
  }

  /** Pushing an unvisited neighbour of the last vertex keeps a path simple. */
  lemma {:induction false} ExtendPath(adj: Adj, path: seq<int>, v: int)
    requires Distinct(path) && Linked(adj, path) && v !in path
    requires path != [] ==> v in Lookup(adj, path[|path| - 1])
    ensures Distinct(path + [v]) && Linked(adj, path + [v])
    ensures Elems(path + [v]) == Elems(path) + {v}
    ensures (path + [v])[|path|] == v
  {
    DistinctSnoc(path, v);
    LinkedSnoc(adj, path, v);
    ElemsSnoc(path, v);
  }

  lemma {:induction false} LinkedSnoc(adj: Adj, path: seq<int>, v: int)
    requires Linked(adj, path)
    requires path != [] ==> v in Lookup(adj, path[|path| - 1])
    ensures Linked(adj, path + [v])
  {
    assert (path + [v])[..|path|] == path;
  }

  lemma ElemsSnoc(path: seq<int>, v: int)
    ensures Elems(path + [v]) == Elems(path) + {v}
  {
  }

  /** A path extended by one vertex still starts with the original path. */
  lemma {:induction false} SnocPrefix(prefix: seq<int>, w: int, p: seq<int>)
    requires prefix + [w] <= p
    ensures prefix <= p
  {
    assert prefix == (prefix + [w])[..|prefix|];
  }

  /** Popping the vertex just pushed restores the path and the visited set. */
  lemma {:induction false} PopRestores(path: seq<int>, visited: set<int>, v: int)
    requires v !in visited
    ensures (path + [v])[..|path|] == path
    ensures visited + {v} - {v} == visited
  {
    assert (path + [v])[..|path|] == path;
  }

  /** Marking an unvisited vertex shrinks the set of unvisited vertices. */
  lemma {:induction false} FewerUnvisited(all: set<int>, visited: set<int>, v: int)
    requires v in all && v !in visited
    ensures |all - (visited + {v})| < |all - visited|
  {
    assert all - visited == (all - (visited + {v})) + {v};
  }

  /** A list entry is a vertex of the graph. */
  lemma NeighbourIsVertex(adj: Adj, u: int, w: int)
    requires w in Lookup(adj, u)
    ensures w in Vertices(adj)
  {
  }

  /** No entry among the first `j` of `nbrs` extends `path` to a completable prefix. */
  ghost predicate NoneCompletes(adj: Adj, n: int, path: seq<int>, nbrs: seq<int>, j: int)
    requires 0 <= j <= |nbrs|
    decreases j
  {
    j == 0 || (NoneCompletes(adj, n, path, nbrs, j - 1) && !CanComplete(adj, n, path + [nbrs[j - 1]]))
  }

  lemma {:induction false} NoneCompletesAt(adj: Adj, n: int, path: seq<int>, nbrs: seq<int>, j: int, i: int)
    requires 0 <= i < j <= |nbrs| && NoneCompletes(adj, n, path, nbrs, j)
    ensures !CanComplete(adj, n, path + [nbrs[i]])
    decreases j
  {
    if i < j - 1 {
      NoneCompletesAt(adj, n, path, nbrs, j - 1, i);
    }
  }

  /**
    A path that cannot be continued into a Hamiltonian path through any
    entry of its last vertex's list, and is not one itself, cannot be
    completed at all: the backtracking step is complete.
   */
  lemma {:induction false} DeadEnd(adj: Adj, n: int, path: seq<int>, nbrs: seq<int>)
    requires path != [] && |path| != n
    requires nbrs == Lookup(adj, path[|path| - 1])
    requires NoneCompletes(adj, n, path, nbrs, |nbrs|)
    ensures !CanComplete(adj, n, path)
  {
    if CanComplete(adj, n, path) {
      var p :| path <= p && HamiltonianPath(adj, n, p);
      NextOnPath(adj, n, path, nbrs, p);
      var j :| 0 <= j < |nbrs| && CanComplete(adj, n, path + [nbrs[j]]);
      NoneCompletesAt(adj, n, path, nbrs, |nbrs|, j);
      assert false;
    }
  }

  /** A Hamiltonian path through a shorter prefix continues it along the last vertex's list. */
  lemma {:induction false} NextOnPath(adj: Adj, n: int, path: seq<int>, nbrs: seq<int>, p: seq<int>)
    requires path != [] && |path| != n
    requires nbrs == Lookup(adj, path[|path| - 1])
    requires path <= p && HamiltonianPath(adj, n, p)
    ensures exists j :: 0 <= j < |nbrs| && CanComplete(adj, n, path + [nbrs[j]])
  {
    LinkedAt(adj, p, |path|);
    var w := p[|path|];
    assert p[|path| - 1] == path[|path| - 1];
    var j :| 0 <= j < |nbrs| && nbrs[j] == w;
    assert path + [w] <= p;
    PathCompletesPrefix(adj, n, path + [w], p);
  }

  /** Revisiting a vertex already on the path never completes. */
  lemma {:induction false} RevisitCannotComplete(adj: Adj, n: int, path: seq<int>, w: int)
    requires w in path
    ensures !CanComplete(adj, n, path + [w])
  {
    if CanComplete(adj, n, path + [w]) {
      var p :| path + [w] <= p && HamiltonianPath(adj, n, p);
      var i :| 0 <= i < |path| && path[i] == w;
      DistinctAt(p, i, |path|);
      assert false;
    }
  }

  /** A Hamiltonian path completes each of its prefixes. */
  lemma {:induction false} PathCompletesPrefix(adj: Adj, n: int, prefix: seq<int>, p: seq<int>)
    requires prefix <= p && HamiltonianPath(adj, n, p)
    ensures CanComplete(adj, n, prefix)
  {
  }

  /** A longer prefix that completes makes a shorter one complete too. */
  lemma {:induction false} LongerPrefixCompletes(adj: Adj, n: int, shorter: seq<int>, longer: seq<int>)
    requires shorter <= longer && CanComplete(adj, n, longer)
    ensures CanComplete(adj, n, shorter)
  {
    var p :| longer <= p && HamiltonianPath(adj, n, p);
    assert shorter <= p;
  }

  /** Nothing completes when the declared count is not positive. */
  lemma {:induction false} NoCompletionWithoutVertices(adj: Adj, n: int, prefix: seq<int>)
    requires n <= 0 && prefix != []
    ensures !CanComplete(adj, n, prefix)
  {
  }
}

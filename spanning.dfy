/**
  What the two graph rewrites produce.

  The 2 -> k transform gives every vertex v in 1..n (n the declared vertex
  count, read once) the k-2 fresh ids n + v*(k-2) + i, i = 0 .. k-3, each joined to v
  by one undirected edge. The k -> 2 strip keeps, for every key u, the
  entries w of u's list with deg(u) > 1 and deg(w) > 1, where deg is the
  stored list length.
 */
module Spanning {
  import opened Adjacency

  // ---------------------------------------------------------------------
  // Fresh-id arithmetic
  // ---------------------------------------------------------------------

  /**
    The fresh id at slot `i` of vertex `v`, n + v*(k-2) + i, counted up one
    block of k-2 ids per vertex (see `FreshIdValue`).
   */
  function FreshId(n: int, k: int, v: int, i: int): int
    requires v >= 0
    decreases v
  {
    if v == 0 then n + i else FreshId(n, k, v - 1, i) + (k - 2)
  }

  /** `FreshId` is the id the transform's inner loop computes. */
  lemma {:induction false} FreshIdValue(n: int, k: int, v: int, i: int)
    requires v >= 0
    ensures FreshId(n, k, v, i) == n + v * (k - 2) + i
    decreases v
  {
    if v > 0 {
      FreshIdValue(n, k, v - 1, i);
      assert (v - 1) * (k - 2) + (k - 2) == v * (k - 2);
    }
  }

  /** The fresh ids at slots 0 .. j-1 of vertex `v`, in the order the inner loop attaches them. */
  function FreshIds(n: int, k: int, v: int, j: int): seq<int>
    requires v >= 0 && j >= 0
    decreases j
  {
    if j == 0 then [] else FreshIds(n, k, v, j - 1) + [FreshId(n, k, v, j - 1)]
  }

  /** All k-2 fresh ids of vertex `v`. */
  function Pendants(n: int, k: int, v: int): seq<int>
    requires k >= 2 && v >= 0
  {
    FreshIds(n, k, v, k - 2)
  }

  lemma {:induction false} FreshIdsLength(n: int, k: int, v: int, j: int)
    requires v >= 0 && j >= 0
    ensures |FreshIds(n, k, v, j)| == j
    decreases j
  {
    if j > 0 {
      FreshIdsLength(n, k, v, j - 1);
    }
  }

  /** Slot `i` of the list holds the fresh id at slot `i`. */
  lemma {:induction false} FreshIdsAt(n: int, k: int, v: int, j: int, i: int)
    requires v >= 0 && 0 <= i < j
    ensures |FreshIds(n, k, v, j)| == j && FreshIds(n, k, v, j)[i] == FreshId(n, k, v, i)
    decreases j
  {
    FreshIdsLength(n, k, v, j - 1);
    if i < j - 1 {
      FreshIdsAt(n, k, v, j - 1, i);
    }
  }

  /**
    The vertex a fresh id was made for: how many whole blocks of k-2 ids lie
    between n and `x` (0 below the first block).
   */
  function Owner(n: int, k: int, x: int): int
    requires k > 2
    decreases x - n
  {
    if x < n + (k - 2) then 0 else 1 + Owner(n, k, x - (k - 2))
  }

  /** The position of a fresh id within its owner's block of k-2 ids. */
  function Slot(n: int, k: int, x: int): int
    requires k > 2
    decreases x - n
  {
    if x < n + (k - 2) then x - n else Slot(n, k, x - (k - 2))
  }

  /** `x` is one of the fresh ids of some vertex in 1..n. */
  predicate IsPendant(n: int, k: int, x: int)
  {
    k > 2 && 1 <= Owner(n, k, x) <= n
  }

  /** A fresh id names its owner and its slot, and lies above n when its owner is positive. */
  lemma {:induction false} FreshIdDecodes(n: int, k: int, v: int, i: int)
    requires k > 2 && 0 <= i < k - 2 && v >= 0
    ensures Owner(n, k, FreshId(n, k, v, i)) == v
    ensures Slot(n, k, FreshId(n, k, v, i)) == i
    ensures FreshId(n, k, v, i) >= n + v
    decreases v
  {
    if v > 0 {
      FreshIdDecodes(n, k, v - 1, i);
    }
  }

  /** Every id at or above n is some owner's fresh id at some slot. */
  lemma {:induction false} BlockEncodes(n: int, k: int, x: int)
    requires k > 2 && x >= n
    ensures Owner(n, k, x) >= 0 && 0 <= Slot(n, k, x) < k - 2
    ensures x == FreshId(n, k, Owner(n, k, x), Slot(n, k, x))
    decreases x - n
  {
    if x >= n + (k - 2) {
      BlockEncodes(n, k, x - (k - 2));
    }
  }

  /** Every pendant id is the fresh id of its owner at its slot, and lies above n. */
  lemma {:induction false} PendantEncodes(n: int, k: int, x: int)
    requires IsPendant(n, k, x)
    ensures x == FreshId(n, k, Owner(n, k, x), Slot(n, k, x))
    ensures 0 <= Slot(n, k, x) < k - 2
    ensures x > n
  {
    assert x >= n + (k - 2);
    BlockEncodes(n, k, x);
  }

  /**
    The fresh ids are pairwise distinct: different (vertex, slot) pairs give
    different ids, and every fresh id of a vertex >= 1 is above n, so none
    is an original id in 1..n.
   */
  lemma {:induction false} FreshIdsDistinct(n: int, k: int, v: int, i: int, w: int, j: int)
    requires k > 2 && 0 <= i < k - 2 && 0 <= j < k - 2
    requires v >= 1 && w >= 1
    ensures FreshId(n, k, v, i) > n
    ensures (v, i) != (w, j) ==> FreshId(n, k, v, i) != FreshId(n, k, w, j)
  {
    FreshIdDecodes(n, k, v, i);
    FreshIdDecodes(n, k, w, j);
  }

  // ---------------------------------------------------------------------
  // The 2 -> k transform
  // ---------------------------------------------------------------------

  /** The entries the transform appends to `x`'s list once both loops are done. */
  function Attached(n: int, k: int, x: int): seq<int>
    requires k >= 2
  {
    if 1 <= x <= n then Pendants(n, k, x)
    else if IsPendant(n, k, x) then [Owner(n, k, x)]
    else []
  }

  /**
    `t` is the transform of `adj`: each list has the attached entries after
    its own, and a key is new only where something was attached.
   */
  ghost predicate IsTransformOf(t: Adj, adj: Adj, n: int, k: int)
  {
    && k >= 2
    && (forall x {:trigger x in t} :: x in t <==> x in adj || Attached(n, k, x) != [])
    && (forall x {:trigger Lookup(t, x)} :: Lookup(t, x) == Lookup(adj, x) + Attached(n, k, x))
  }

  /** How many of `w`'s fresh ids the loops have attached on reaching (v, i). */
  function Done(k: int, v: int, i: int, w: int): int
  {
    if w < v then k - 2 else if w == v then i else 0
  }

  /** The entries appended to `x`'s list before iteration (v, i) runs. */
  function AttachedSoFar(n: int, k: int, v: int, i: int, x: int): seq<int>
    requires k >= 2 && 0 <= i <= k - 2
  {
    if 1 <= x <= n then FreshIds(n, k, x, Done(k, v, i, x))
    else if IsPendant(n, k, x) && Slot(n, k, x) < Done(k, v, i, Owner(n, k, x)) then [Owner(n, k, x)]
    else []
  }

  /** Before the first iteration nothing has been attached. */
  lemma {:induction false} NothingAtStart(n: int, k: int, x: int)
    requires k >= 2
    ensures AttachedSoFar(n, k, 1, 0, x) == []
  {
    if !(1 <= x <= n) && IsPendant(n, k, x) {
      PendantEncodes(n, k, x);
    }
  }

  /** Iteration (v, i) attaches the fresh id at slot i to `v`. */
  lemma {:induction false} StepAttachesToOwner(n: int, k: int, v: int, i: int)
    requires 1 <= v <= n && 0 <= i < k - 2
    ensures AttachedSoFar(n, k, v, i + 1, v) == AttachedSoFar(n, k, v, i, v) + [FreshId(n, k, v, i)]
  {
  }

  /** Iteration (v, i) attaches `v` to the fresh id at slot i. */
  lemma {:induction false} StepAttachesToFresh(n: int, k: int, v: int, i: int)
    requires 1 <= v <= n && 0 <= i < k - 2
    ensures var p := FreshId(n, k, v, i);
            p != v && AttachedSoFar(n, k, v, i + 1, p) == AttachedSoFar(n, k, v, i, p) + [v]
  {
    FreshIdDecodes(n, k, v, i);
  }

  /** Iteration (v, i) attaches nothing to any other vertex. */
  lemma {:induction false} StepLeavesOthers(n: int, k: int, v: int, i: int, x: int)
    requires 1 <= v <= n && 0 <= i < k - 2
    requires x != v && x != FreshId(n, k, v, i)
    ensures AttachedSoFar(n, k, v, i + 1, x) == AttachedSoFar(n, k, v, i, x)
  {
    if !(1 <= x <= n) && IsPendant(n, k, x) && Owner(n, k, x) == v {
      PendantEncodes(n, k, x);
    }
  }

  lemma AppendAssociates(a: seq<int>, b: seq<int>, c: seq<int>)
    ensures a + b + c == a + (b + c)
  {
  }

  /**
    The copied graph before iteration (v, i): `adj` with one `addEdge(w, id)`
    for every earlier iteration (w, j), in loop order.
   */
  function Built(adj: Adj, n: int, k: int, v: int, i: int): Adj
    requires k >= 2 && v >= 1 && 0 <= i <= k - 2
    decreases v, i
  {
    if i == 0 then
      (if v == 1 then adj else Built(adj, n, k, v - 1, k - 2))
    else
      var id := FreshId(n, k, v, i - 1);
      Append(Append(Built(adj, n, k, v, i - 1), v, id), id, v)
  }

  /** Iteration (v, i) is one `addEdge(v, id)` with the slot's fresh id. */
  lemma {:induction false} BuiltStep(adj: Adj, n: int, k: int, v: int, i: int, next: int, id: int)
    requires k >= 2 && v >= 1 && 0 <= i < k - 2 && next == i + 1
    requires id == FreshId(n, k, v, i)
    ensures Built(adj, n, k, v, next) == Append(Append(Built(adj, n, k, v, i), v, id), id, v)
  {
  }

  /** The outer loop's next vertex starts from the state its inner loop ended in. */
  lemma {:induction false} BuiltNextVertex(adj: Adj, n: int, k: int, v: int, last: int)
    requires k >= 2 && v >= 1 && last == k - 2
    ensures Built(adj, n, k, v + 1, 0) == Built(adj, n, k, v, last)
  {
  }

  /**
    Every intermediate state of the loops, one id at a time: before iteration
    (v, i), `x`'s list is its original list followed by what the loops have
    attached to it so far, and `x` is a key exactly when it was one or
    something has been attached to it.
   */
  lemma {:induction false} BuiltAt(adj: Adj, n: int, k: int, v: int, i: int, x: int)
    requires k >= 2 && v >= 1 && 0 <= i <= k - 2
    requires i == 0 ==> v == 1 || v <= n + 1
    requires i > 0 ==> v <= n
    ensures Lookup(Built(adj, n, k, v, i), x) == Lookup(adj, x) + AttachedSoFar(n, k, v, i, x)
    ensures x in Built(adj, n, k, v, i) <==> x in adj || AttachedSoFar(n, k, v, i, x) != []
    decreases v, i
  {
    if i == 0 {
      if v == 1 {
        NothingAtStart(n, k, x);
      } else {
        BuiltAt(adj, n, k, v - 1, k - 2, x);
        NextVertexAt(n, k, v - 1, k - 2, v, x);
      }
    } else {
      var prev, p := Built(adj, n, k, v, i - 1), FreshId(n, k, v, i - 1);
      BuiltAt(adj, n, k, v, i - 1, x);
      StepAt(prev, adj, n, k, v, i - 1, i, x);
    }
  }

  /**
    One `addEdge(v, n + v*(k-2) + i)` on a state `t` that holds, for `x`, what
    the loops attached before iteration (v, i) yields what they attached
    before iteration (v, next).
   */
  lemma {:induction false} StepAt(t: Adj, adj: Adj, n: int, k: int, v: int, i: int, next: int, x: int)
    requires 1 <= v <= n && 0 <= i < k - 2 && next == i + 1
    requires Lookup(t, x) == Lookup(adj, x) + AttachedSoFar(n, k, v, i, x)
    requires x in t <==> x in adj || AttachedSoFar(n, k, v, i, x) != []
    ensures var p := FreshId(n, k, v, i);
            var t' := Append(Append(t, v, p), p, v);
            && Lookup(t', x) == Lookup(adj, x) + AttachedSoFar(n, k, v, next, x)
            && (x in t' <==> x in adj || AttachedSoFar(n, k, v, next, x) != [])
  {
    var p := FreshId(n, k, v, i);
    var before := AttachedSoFar(n, k, v, i, x);
    StepAttachesToFresh(n, k, v, i);
    if x == v {
      StepAttachesToOwner(n, k, v, i);
      AppendAssociates(Lookup(adj, x), before, [p]);
    } else if x == p {
      AppendAssociates(Lookup(adj, x), before, [v]);
    } else {
      StepLeavesOthers(n, k, v, i, x);
    }
  }

  /** Finishing the inner loop for `v` is starting it for `next`, the following vertex. */
  lemma {:induction false} NextVertexAt(n: int, k: int, v: int, last: int, next: int, x: int)
    requires k >= 2 && last == k - 2 && next == v + 1
    ensures AttachedSoFar(n, k, next, 0, x) == AttachedSoFar(n, k, v, last, x)
  {
  }

  /** Once the outer loop has passed n, everything is attached. */
  lemma {:induction false} AllAttached(n: int, k: int, v: int, x: int)
    requires k >= 2 && v > n
    ensures AttachedSoFar(n, k, v, 0, x) == Attached(n, k, x)
  {
    if !(1 <= x <= n) && IsPendant(n, k, x) {
      PendantEncodes(n, k, x);
    }
  }

  /** The loops' final state is the transform. */
  lemma {:induction false} BuiltIsTransform(adj: Adj, n: int, k: int, v: int)
    requires k >= 2 && v >= 1 && v > n && (v == 1 || v <= n + 1)
    ensures IsTransformOf(Built(adj, n, k, v, 0), adj, n, k)
  {
    var t := Built(adj, n, k, v, 0);
    forall x
      ensures Lookup(t, x) == Lookup(adj, x) + Attached(n, k, x)
      ensures x in t <==> x in adj || Attached(n, k, x) != []
    {
      BuiltAt(adj, n, k, v, 0, x);
      AllAttached(n, k, v, x);
    }
  }

  /** With k = 2 nothing is attached: the transform is the identity. */
  lemma {:induction false} TransformAtTwo(t: Adj, adj: Adj, n: int)
    requires IsTransformOf(t, adj, n, 2)
    ensures t == adj
  {
    assert forall x :: Attached(n, 2, x) == [];
    ExtensionalEquality(t, adj);
  }

  /**
    The shape of the transform for k >= 2: vertex v in 1..n keeps its list and
    then has its fresh ids in slot order; the fresh id at slot i lies above n,
    is a key, and has v appended to its own list, which is its only entry
    when the original ids are all at most n.
   */
  lemma {:induction false} TransformShape(t: Adj, adj: Adj, n: int, k: int, v: int, i: int)
    requires IsTransformOf(t, adj, n, k)
    requires 1 <= v <= n && 0 <= i < k - 2
    ensures Lookup(t, v) == Lookup(adj, v) + Pendants(n, k, v)
    ensures |Pendants(n, k, v)| == k - 2 && Pendants(n, k, v)[i] == FreshId(n, k, v, i)
    ensures var p := FreshId(n, k, v, i);
            && p > n
            && p in t
            && Lookup(t, p) == Lookup(adj, p) + [v]
            && ((forall u :: u in adj ==> u <= n) ==> Lookup(t, p) == [v])
  {
    var p := FreshId(n, k, v, i);
    FreshIdsAt(n, k, v, k - 2, i);
    FreshIdDecodes(n, k, v, i);
    assert Attached(n, k, p) == [v];
    if forall u :: u in adj ==> u <= n {
      assert p !in adj;
    }
  }

  // ---------------------------------------------------------------------
  // The k -> 2 strip
  // ---------------------------------------------------------------------

  /** The entries of `s` whose stored degree in `adj` exceeds 1, in their order. */
  function HighDegree(adj: Adj, s: seq<int>): seq<int>
  {
    if s == [] then []
    else HighDegree(adj, s[..|s| - 1]) + (if Deg(adj, s[|s| - 1]) > 1 then [s[|s| - 1]] else [])
  }

  /** What the strip copies from the list `s` of vertex `u`. */
  function Kept(adj: Adj, u: int, s: seq<int>): seq<int>
  {
    if Deg(adj, u) > 1 then HighDegree(adj, s) else []
  }

  /** The strip restricted to the keys in `keys`: keys with nothing kept are absent. */
  ghost function StrippedOn(adj: Adj, keys: set<int>): Adj
  {
    map u | u in keys && u in adj && Kept(adj, u, adj[u]) != [] :: Kept(adj, u, adj[u])
  }

  /** `m` with `u`'s list set to `s`, and `u` absent while `s` is empty. */
  function WithList(m: Adj, u: int, s: seq<int>): Adj
  {
    if s == [] then m else m[u := s]
  }

  /** The strip copies list entries one at a time: each kept entry is one `push_back`. */
  lemma {:induction false} KeptGrows(adj: Adj, u: int, s: seq<int>, j: int)
    requires 0 <= j < |s|
    ensures Kept(adj, u, s[..j + 1])
         == Kept(adj, u, s[..j]) + (if Deg(adj, u) > 1 && Deg(adj, s[j]) > 1 then [s[j]] else [])
  {
    assert s[..j + 1][..j] == s[..j];
  }

  /** One step of the copy loop over `u`'s list: `keep` decides whether `s[j]` is copied. */
  lemma {:induction false} KeptStep(adj: Adj, u: int, s: seq<int>, j: int, kept: seq<int>, keep: bool)
    requires 0 <= j < |s| && kept == Kept(adj, u, s[..j])
    requires keep == (Deg(adj, u) > 1 && Deg(adj, s[j]) > 1)
    ensures Kept(adj, u, s[..j + 1]) == if keep then kept + [s[j]] else kept
  {
    KeptGrows(adj, u, s, j);
  }

  /** Having copied the whole list, the strip has kept what `Kept` keeps of it. */
  lemma {:induction false} KeptWhole(adj: Adj, u: int, s: seq<int>)
    ensures Kept(adj, u, s[..|s|]) == Kept(adj, u, s)
  {
    assert s[..|s|] == s;
  }

  lemma {:induction false} WithListAppend(m: Adj, u: int, s: seq<int>, w: int)
    requires u !in m
    ensures Append(WithList(m, u, s), u, w) == WithList(m, u, s + [w])
  {
  }

  /** Finishing key `u`'s list extends the strip by `u`. */
  lemma {:induction false} StrippedOnAddsKey(adj: Adj, keys: set<int>, u: int)
    requires u in adj && u !in keys
    ensures u !in StrippedOn(adj, keys)
    ensures WithList(StrippedOn(adj, keys), u, Kept(adj, u, adj[u])) == StrippedOn(adj, keys + {u})
  {
    var m, m' := StrippedOn(adj, keys), StrippedOn(adj, keys + {u});
    var r := WithList(m, u, Kept(adj, u, adj[u]));
    assert forall x :: x in r <==> x in m';
    ExtensionalEquality(r, m');
  }

  /**
    The strip's output after its outer loop has copied the lists of the keys
    in `keys`, in that order.
   */
  ghost function StrippedAlong(adj: Adj, keys: seq<int>): Adj
    decreases |keys|
  {
    if keys == [] then map[]
    else
      var u := keys[|keys| - 1];
      WithList(StrippedAlong(adj, keys[..|keys| - 1]), u, Kept(adj, u, Lookup(adj, u)))
  }

  /** Only processed keys are keys of the partial strip. */
  lemma {:induction false} StrippedAlongKeys(adj: Adj, keys: seq<int>, x: int)
    requires x in StrippedAlong(adj, keys)
    ensures x in keys
    decreases |keys|
  {
    var init := keys[..|keys| - 1];
    if x != keys[|keys| - 1] {
      StrippedAlongKeys(adj, init, x);
      assert x in init;
    }
  }

  /**
    Processing distinct keys one after another gives the strip restricted to
    those keys, whatever their order.
   */
  lemma {:induction false} StrippedAlongIsStrippedOn(adj: Adj, keys: seq<int>)
    requires Distinct(keys)
    requires forall i :: 0 <= i < |keys| ==> keys[i] in adj
    ensures StrippedAlong(adj, keys) == StrippedOn(adj, Elems(keys))
    decreases |keys|
  {
    if keys != [] {
      var init, u := keys[..|keys| - 1], keys[|keys| - 1];
      assert keys == init + [u];
      StrippedAlongIsStrippedOn(adj, init);
      assert Elems(keys) == Elems(init) + {u};
      StrippedOnAddsKey(adj, Elems(init), u);
    }
  }

  /** Copying key `keys[i]`'s kept entries extends the strip of `keys[..i]` to `keys[..i + 1]`. */
  lemma {:induction false} StrippedAlongStep(adj: Adj, keys: seq<int>, i: int)
    requires 0 <= i < |keys|
    ensures WithList(StrippedAlong(adj, keys[..i]), keys[i], Kept(adj, keys[i], Lookup(adj, keys[i])))
         == StrippedAlong(adj, keys[..i + 1])
  {
    assert keys[..i + 1][..i] == keys[..i];
  }

  /** With distinct keys, the key about to be copied is not yet in the strip. */
  lemma {:induction false} StrippedAlongFresh(adj: Adj, keys: seq<int>, i: int)
    requires Distinct(keys) && 0 <= i < |keys|
    ensures keys[i] !in StrippedAlong(adj, keys[..i])
  {
    if keys[i] in StrippedAlong(adj, keys[..i]) {
      StrippedAlongKeys(adj, keys[..i], keys[i]);
      var t :| 0 <= t < i && keys[..i][t] == keys[i];
      DistinctAt(keys, t, i);
      assert false;
    }
  }

  /** The result of the strip. */
  ghost function Stripped(adj: Adj): Adj
  {
    StrippedOn(adj, adj.Keys)
  }

  /** Copying every key once, in any order, gives the strip. */
  lemma {:induction false} StrippedAlongIsStripped(adj: Adj, keys: seq<int>)
    requires Distinct(keys) && Elems(keys) == adj.Keys
    ensures StrippedAlong(adj, keys[..|keys|]) == Stripped(adj)
  {
    assert keys[..|keys|] == keys;
    forall i | 0 <= i < |keys|
      ensures keys[i] in adj
    {
      assert keys[i] in Elems(keys);
    }
    StrippedAlongIsStrippedOn(adj, keys);
  }

  /** Multiplicities: an entry of degree > 1 is kept as often as it occurs, any other never. */
  lemma {:induction false} HighDegreeCount(adj: Adj, s: seq<int>, w: int)
    ensures Count(HighDegree(adj, s), w) == if Deg(adj, w) > 1 then Count(s, w) else 0
    decreases |s|
  {
    if s != [] {
      var init, last := s[..|s| - 1], s[|s| - 1];
      HighDegreeCount(adj, init, w);
      if Deg(adj, last) > 1 {
        CountSnoc(HighDegree(adj, init), last, w);
      } else {
        assert HighDegree(adj, s) == HighDegree(adj, init);
      }
    }
  }

  lemma {:induction false} HighDegreeAppend(adj: Adj, a: seq<int>, b: seq<int>)
    ensures HighDegree(adj, a + b) == HighDegree(adj, a) + HighDegree(adj, b)
  {
    if b != [] {
      var init, last := b[..|b| - 1], b[|b| - 1];
      var ab := a + b;
      assert ab[..|ab| - 1] == a + init;
      assert ab[|ab| - 1] == last;
      HighDegreeAppend(adj, a, init);
      assert HighDegree(adj, ab) == HighDegree(adj, a + init) + (if Deg(adj, last) > 1 then [last] else []);
    } else {
      assert a + b == a;
    }
  }

  lemma {:induction false} HighDegreeKeepsAll(adj: Adj, s: seq<int>)
    requires forall i :: 0 <= i < |s| ==> Deg(adj, s[i]) > 1
    ensures HighDegree(adj, s) == s
  {
    if s != [] {
      HighDegreeKeepsAll(adj, s[..|s| - 1]);
    }
  }

  lemma {:induction false} HighDegreeDropsAll(adj: Adj, s: seq<int>)
    requires forall i :: 0 <= i < |s| ==> Deg(adj, s[i]) <= 1
    ensures HighDegree(adj, s) == []
  {
    if s != [] {
      HighDegreeDropsAll(adj, s[..|s| - 1]);
    }
  }

  /**
    The strip's result: key `u` carries exactly the entries of `u`'s list that
    are kept, with their multiplicities; vertices of stored degree at most 1
    appear neither as keys nor in any list.
   */
  lemma {:induction false} StrippedContents(adj: Adj, u: int, w: int)
    ensures u in Stripped(adj) ==> u in adj && Deg(adj, u) > 1
    ensures Count(Lookup(Stripped(adj), u), w)
         == if Deg(adj, u) > 1 && Deg(adj, w) > 1 then Count(Lookup(adj, u), w) else 0
    ensures Deg(adj, w) <= 1 ==> w !in Stripped(adj) && w !in Lookup(Stripped(adj), u)
  {
    StrippedLookup(adj, u);
    StrippedLookup(adj, w);
    HighDegreeCount(adj, Lookup(adj, u), w);
    CountPositive(Lookup(Stripped(adj), u), w);
  }

  /** The strip's list for `u` is what `Kept` keeps of `u`'s list. */
  lemma {:induction false} StrippedLookup(adj: Adj, u: int)
    ensures Lookup(Stripped(adj), u) == Kept(adj, u, Lookup(adj, u))
    ensures u in Stripped(adj) <==> Kept(adj, u, Lookup(adj, u)) != []
  {
    if u !in adj {
      assert Lookup(adj, u) == [];
      assert HighDegree(adj, []) == [];
    }
  }

  /** Every fresh id of the transform has stored degree 1 when the original ids are at most n. */
  lemma {:induction false} FreshIdsAreLeaves(t: Adj, adj: Adj, n: int, k: int, v: int)
    requires forall u :: u in adj ==> u <= n
    requires IsTransformOf(t, adj, n, k) && 1 <= v <= n
    ensures forall i :: 0 <= i < |Pendants(n, k, v)| ==> Deg(t, Pendants(n, k, v)[i]) == 1
  {
    FreshIdsLength(n, k, v, k - 2);
    forall i | 0 <= i < |Pendants(n, k, v)|
      ensures Deg(t, Pendants(n, k, v)[i]) == 1
    {
      TransformShape(t, adj, n, k, v, i);
    }
  }

  /** After the transform, every original neighbour of an original key still has degree > 1. */
  lemma {:induction false} NeighboursStayHighDegree(t: Adj, adj: Adj, n: int, k: int, u: int)
    requires Undirected(adj)
    requires k >= 3 && IsTransformOf(t, adj, n, k)
    requires forall x :: x in adj ==> 1 <= x <= n
    requires u in adj
    ensures forall i :: 0 <= i < |adj[u]| ==> Deg(t, adj[u][i]) > 1
  {
    var s := adj[u];
    forall i | 0 <= i < |s|
      ensures Deg(t, s[i]) > 1
    {
      NeighbourIsKey(adj, u, s[i]);
      assert Lookup(t, s[i]) == adj[s[i]] + Pendants(n, k, s[i]);
    }
  }

  /** What the strip keeps of an original key's transformed list is its original list. */
  lemma {:induction false} KeptOfTransformed(t: Adj, adj: Adj, n: int, k: int, u: int)
    requires Undirected(adj)
    requires k >= 3 && IsTransformOf(t, adj, n, k)
    requires forall x :: x in adj ==> 1 <= x <= n
    requires u in adj
    ensures u in t && Kept(t, u, t[u]) == adj[u]
  {
    var s, ps := adj[u], Pendants(n, k, u);
    TransformedList(t, adj, n, k, u);
    OriginalsStayHighDegree(t, adj, n, k, u);
    PendantsAreDropped(t, adj, n, k, u);
    HighDegreeAppend(t, s, ps);
    assert s != [];
  }

  /** An original key's transformed list is its own list followed by its fresh ids. */
  lemma {:induction false} TransformedList(t: Adj, adj: Adj, n: int, k: int, u: int)
    requires k >= 3 && IsTransformOf(t, adj, n, k)
    requires forall x :: x in adj ==> 1 <= x <= n
    requires u in adj
    ensures u in t && t[u] == adj[u] + Pendants(n, k, u) && Deg(t, u) == |adj[u]| + (k - 2)
  {
    assert Lookup(t, u) == adj[u] + Pendants(n, k, u);
    FreshIdsLength(n, k, u, k - 2);
  }

  /** The strip keeps every entry of an original key's own list. */
  lemma {:induction false} OriginalsStayHighDegree(t: Adj, adj: Adj, n: int, k: int, u: int)
    requires Undirected(adj)
    requires k >= 3 && IsTransformOf(t, adj, n, k)
    requires forall x :: x in adj ==> 1 <= x <= n
    requires u in adj
    ensures HighDegree(t, adj[u]) == adj[u]
  {
    NeighboursStayHighDegree(t, adj, n, k, u);
    HighDegreeKeepsAll(t, adj[u]);
  }

  /** The strip drops every fresh id attached to an original key. */
  lemma {:induction false} PendantsAreDropped(t: Adj, adj: Adj, n: int, k: int, u: int)
    requires k >= 3 && IsTransformOf(t, adj, n, k)
    requires forall x :: x in adj ==> x <= n
    requires 1 <= u <= n
    ensures HighDegree(t, Pendants(n, k, u)) == []
  {
    FreshIdsAreLeaves(t, adj, n, k, u);
    HighDegreeDropsAll(t, Pendants(n, k, u));
  }

  /** Round trip, one original key: its stripped list is its original list. */
  lemma {:induction false} RoundTripKeepsKey(t: Adj, adj: Adj, n: int, k: int, u: int)
    requires Undirected(adj)
    requires forall x :: x in adj ==> 1 <= x <= n
    requires k >= 3 && IsTransformOf(t, adj, n, k)
    requires u in adj
    ensures u in Stripped(t) && Stripped(t)[u] == adj[u]
  {
    KeptOfTransformed(t, adj, n, k, u);
    assert adj[u] != [];
  }

  /** Round trip, one added key: nothing of it survives the strip. */
  lemma {:induction false} RoundTripDropsAdded(t: Adj, adj: Adj, n: int, k: int, u: int)
    requires forall x :: x in adj ==> 1 <= x <= n
    requires k >= 3 && IsTransformOf(t, adj, n, k)
    requires u in t && u !in adj
    ensures u !in Stripped(t)
  {
    AddedKeepsNothing(t, adj, n, k, u);
    StrippedLookup(t, u);
  }

  /** A key the transform added holds only attached entries, none of which the strip keeps. */
  lemma {:induction false} AddedKeepsNothing(t: Adj, adj: Adj, n: int, k: int, u: int)
    requires forall x :: x in adj ==> 1 <= x <= n
    requires k >= 3 && IsTransformOf(t, adj, n, k)
    requires u in t && u !in adj
    ensures Kept(t, u, Lookup(t, u)) == []
  {
    AddedList(t, adj, n, k, u);
    if 1 <= u <= n {
      PendantsAreDropped(t, adj, n, k, u);
    } else {
      assert Deg(t, u) == 1;
    }
  }

  /** A key the transform added has exactly its attached entries as its list. */
  lemma {:induction false} AddedList(t: Adj, adj: Adj, n: int, k: int, u: int)
    requires k >= 3 && IsTransformOf(t, adj, n, k)
    requires u in t && u !in adj
    ensures Lookup(t, u) == Attached(n, k, u) && Attached(n, k, u) != []
  {
    assert Lookup(t, u) == Lookup(adj, u) + Attached(n, k, u);
    assert Lookup(adj, u) == [];
  }

  /**
    Round trip: for a graph built by `addEdge` calls only, on ids in 1..n,
    and k >= 3, stripping the transform gives back every key with its own
    list in its own order, and nothing else.
   */
  lemma {:induction false} RoundTrip(t: Adj, adj: Adj, n: int, k: int)
    requires Undirected(adj)
    requires forall u :: u in adj ==> 1 <= u <= n
    requires k >= 3 && IsTransformOf(t, adj, n, k)
    ensures Stripped(t) == adj
  {
    var st := Stripped(t);
    forall u
      ensures (u in st <==> u in adj) && Lookup(st, u) == Lookup(adj, u)
    {
      if u in adj {
        RoundTripKeepsKey(t, adj, n, k, u);
      } else if u in t {
        RoundTripDropsAdded(t, adj, n, k, u);
      } else {
        StrippedContents(t, u, u);
      }
    }
    ExtensionalEquality(st, adj);
  }
}

/** The seam-vertex adjacency structure (`EdgeMap`) and `count_seam_edge_num`. */
module EdgeMaps {
  import opened Mesh

  /** Position-vertex id to the ids it was joined with, one entry per insertion. */
  type EdgeMap = map<int, seq<int>>

  /** The adjacency list of `v`; an absent key reads as an empty list, as
      indexing an unordered_map with `[]` does. */
  function Neighbours(m: EdgeMap, v: int): (ns: seq<int>)
  {
    if v in m then m[v] else []
  }

  /** One `insert_edge(m, v1, v2)` call. Its body is not part of this model;
      this is the assumed behaviour: `v2` is appended to the list of `v1` and
      then `v1` to the list of `v2` (both directions, no deduplication). */
  function InsertEdge(m: EdgeMap, v1: int, v2: int): (r: EdgeMap)
  {
    var m1 := m[v1 := Neighbours(m, v1) + [v2]];
    m1[v2 := Neighbours(m1, v2) + [v1]]
  }

  /** What one insertion does to each adjacency list. */
  lemma InsertEdgeEffect(m: EdgeMap, v1: int, v2: int)
    ensures InsertEdge(m, v1, v2).Keys == m.Keys + {v1, v2}
    ensures forall v :: v != v1 && v != v2 ==> Neighbours(InsertEdge(m, v1, v2), v) == Neighbours(m, v)
    ensures v1 != v2 ==> Neighbours(InsertEdge(m, v1, v2), v1) == Neighbours(m, v1) + [v2]
    ensures v1 != v2 ==> Neighbours(InsertEdge(m, v1, v2), v2) == Neighbours(m, v2) + [v1]
    ensures v1 == v2 ==> Neighbours(InsertEdge(m, v1, v2), v1) == Neighbours(m, v1) + [v2, v1]
  {
  }

  /** The map after one `insert_edge` per edge of `es`, in order. */
  function InsertAll(m: EdgeMap, es: seq<Edge>): (r: EdgeMap)
  {
    if es == [] then m else
      var last := es[|es| - 1];
      InsertEdge(InsertAll(m, es[..|es| - 1]), last.v1, last.v2)
  }

  lemma SomeKey(m: EdgeMap)
    requires |m| != 0
    ensures exists k :: k in m
  {
    if forall k :: k !in m {
      assert false;
    }
  }

  /** Removing a present key shrinks the map by one. */
  lemma RemoveKeySize(m: EdgeMap, k: int)
    requires k in m
    ensures |m - {k}| == |m| - 1
  {
    assert (m - {k}).Keys == m.Keys - {k};
  }

  /** The key the total below is unfolded at; any key would do. */
  ghost function PickKey(m: EdgeMap): (k: int)
    requires |m| != 0
    ensures k in m
  {
    SomeKey(m);
    var k :| k in m;
    k
  }

  /** The sum of the sizes of all adjacency lists. */
  ghost function AdjacencyTotal(m: EdgeMap): (total: nat)
    decreases |m|
  {
    if |m| == 0 then 0 else
      var k := PickKey(m);
      RemoveKeySize(m, k);
      |m[k]| + AdjacencyTotal(m - {k})
  }

  /** The total may be summed starting from any key. */
  lemma AdjacencyTotalRemove(m: EdgeMap, k: int)
    requires k in m
    ensures AdjacencyTotal(m) == |m[k]| + AdjacencyTotal(m - {k})
    decreases |m|
  {
    var j := PickKey(m);
    if j != k {
      RemoveKeySize(m, j);
      RemoveKeySize(m, k);
      var mj, mk := m - {j}, m - {k};
      AdjacencyTotalRemove(mj, k);
      AdjacencyTotalRemove(mk, j);
      assert mj - {k} == mk - {j};
    }
  }

  /** Replacing one adjacency list changes the total by the difference in size. */
  lemma AdjacencyTotalUpdate(m: EdgeMap, k: int, s: seq<int>)
    ensures AdjacencyTotal(m[k := s]) == AdjacencyTotal(m) - |Neighbours(m, k)| + |s|
  {
    var u := m[k := s];
    AdjacencyTotalRemove(u, k);
    assert u - {k} == m - {k};
    if k in m {
      AdjacencyTotalRemove(m, k);
    } else {
      assert m - {k} == m;
    }
  }

  /** Each `insert_edge` adds exactly two list entries. */
  lemma InsertEdgeTotal(m: EdgeMap, v1: int, v2: int)
    ensures AdjacencyTotal(InsertEdge(m, v1, v2)) == AdjacencyTotal(m) + 2
  {
    var m1 := m[v1 := Neighbours(m, v1) + [v2]];
    AdjacencyTotalUpdate(m, v1, Neighbours(m, v1) + [v2]);
    AdjacencyTotalUpdate(m1, v2, Neighbours(m1, v2) + [v1]);
  }

  /** `n` insertions add exactly `2 n` list entries. */
  lemma {:induction false} InsertAllTotal(m: EdgeMap, es: seq<Edge>)
    ensures AdjacencyTotal(InsertAll(m, es)) == AdjacencyTotal(m) + 2 * |es|
  {
    if es != [] {
      var last := es[|es| - 1];
      InsertAllTotal(m, es[..|es| - 1]);
      InsertEdgeTotal(InsertAll(m, es[..|es| - 1]), last.v1, last.v2);
    }
  }

  /** Inserting one run of edges and then another is inserting their concatenation. */
  lemma {:induction false} InsertAllConcat(m: EdgeMap, xs: seq<Edge>, ys: seq<Edge>)
    ensures InsertAll(m, xs + ys) == InsertAll(InsertAll(m, xs), ys)
  {
    if ys == [] {
      assert xs + ys == xs;
    } else {
      var init, last := ys[..|ys| - 1], ys[|ys| - 1];
      assert (xs + ys)[..|xs + ys| - 1] == xs + init;
      assert (xs + ys)[|xs + ys| - 1] == last;
      InsertAllConcat(m, xs, init);
    }
  }

  /** The keys of the map are the previous keys plus every inserted endpoint. */
  lemma {:induction false} InsertAllKeys(m: EdgeMap, es: seq<Edge>)
    ensures InsertAll(m, es).Keys == m.Keys + Endpoints(es)
  {
    if es != [] {
      var last := es[|es| - 1];
      InsertAllKeys(m, es[..|es| - 1]);
      InsertEdgeEffect(InsertAll(m, es[..|es| - 1]), last.v1, last.v2);
    }
  }

  /** Inserting (a, b) and inserting (b, a) leave the same map. */
  lemma InsertEdgeSymmetric(m: EdgeMap, a: int, b: int)
    ensures InsertEdge(m, a, b) == InsertEdge(m, b, a)
  {
    var r, s := InsertEdge(m, a, b), InsertEdge(m, b, a);
    InsertEdgeEffect(m, a, b);
    InsertEdgeEffect(m, b, a);
    forall v | v in r ensures r[v] == s[v] {
      assert Neighbours(r, v) == Neighbours(s, v);
    }
  }

  /** Every entry is matched by its reverse: `v` occurs in the list of `u` as
      often as `u` occurs in the list of `v`. */
  ghost predicate Symmetric(m: EdgeMap)
  {
    forall u, v :: multiset(Neighbours(m, u))[v] == multiset(Neighbours(m, v))[u]
  }

  lemma InsertEdgeKeepsSymmetric(m: EdgeMap, a: int, b: int)
    requires Symmetric(m)
    ensures Symmetric(InsertEdge(m, a, b))
  {
    var r := InsertEdge(m, a, b);
    forall u, v ensures multiset(Neighbours(r, u))[v] == multiset(Neighbours(r, v))[u] {
      assert multiset(Neighbours(m, u))[v] == multiset(Neighbours(m, v))[u];
      SymmetricEntry(m, a, b, u, v);
      SymmetricEntry(m, a, b, v, u);
    }
  }

  /** How many times `v` occurs in the list of `u` after inserting (a, b). */
  lemma SymmetricEntry(m: EdgeMap, a: int, b: int, u: int, v: int)
    ensures multiset(Neighbours(InsertEdge(m, a, b), u))[v] ==
            multiset(Neighbours(m, u))[v]
            + (if u == a && v == b then 1 else 0)
            + (if u == b && v == a then 1 else 0)
  {
    var r := InsertEdge(m, a, b);
    InsertEdgeEffect(m, a, b);
    if a == b {
      if u == a {
        assert Neighbours(r, u) == Neighbours(m, u) + [b, a];
        assert multiset(Neighbours(r, u)) == multiset(Neighbours(m, u)) + multiset{b, a};
      }
    } else if u == a {
      assert multiset(Neighbours(r, u)) == multiset(Neighbours(m, u)) + multiset{b};
    } else if u == b {
      assert multiset(Neighbours(r, u)) == multiset(Neighbours(m, u)) + multiset{a};
    } else {
      assert Neighbours(r, u) == Neighbours(m, u);
    }
  }

  /** A map built by insertions alone from an empty one is symmetric. */
  lemma {:induction false} InsertAllSymmetric(es: seq<Edge>)
    ensures Symmetric(InsertAll(map[], es))
  {
    if es == [] {
      assert forall u :: Neighbours(map[], u) == [];
    } else {
      var last := es[|es| - 1];
      InsertAllSymmetric(es[..|es| - 1]);
      InsertEdgeKeepsSymmetric(InsertAll(map[], es[..|es| - 1]), last.v1, last.v2);
    }
  }

  /** count_seam_edge_num: the adjacency-list sizes summed over the map, halved. */
  method CountSeamEdgeNum(edges: EdgeMap) returns (edgeCount: int)
    ensures edgeCount == AdjacencyTotal(edges) / 2
    ensures edgeCount >= 0
    ensures edges == map[] ==> edgeCount == 0
  {
    var count := 0;
    var rest := edges;
    while rest != map[]
      invariant count >= 0
      invariant count + AdjacencyTotal(rest) == AdjacencyTotal(edges)
      decreases |rest|
    {
      var v :| v in rest;
      count := count + |rest[v]|;
      AdjacencyTotalRemove(rest, v);
      RemoveKeySize(rest, v);
      rest := rest - {v};
    }
    edgeCount := count / 2;
  }

  /** With one `insert_edge` per edge, the count reported is the number of insertions. */
  lemma CountAfterInsertions(es: seq<Edge>)
    ensures AdjacencyTotal(InsertAll(map[], es)) / 2 == |es|
  {
    InsertAllTotal(map[], es);
  }
}

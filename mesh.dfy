/** Mesh matrices, the seam classifier's output rows and the position edges they name. */
module Mesh {

  /** A dense Eigen matrix: its column count and its rows. */
  datatype Matrix<T> = Matrix(cols: nat, rows: seq<seq<T>>)
  {
    /** Every row has `cols` entries, as in any Eigen matrix. */
    predicate WellFormed()
    {
      forall i :: 0 <= i < |rows| ==> |rows[i]| == cols
    }
  }

  /** The rows of F: per triangle, the position-vertex ids of its corners. */
  type Faces = seq<seq<int>>

  predicate IsTriangleList(f: Faces)
  {
    forall i :: 0 <= i < |f| ==> |f[i]| == 3
  }

  /** A row of the seam or foldover output: a (face, corner) on one side of the
      edge and the (face, corner) of the opposite side. */
  datatype SeamRow = SeamRow(face: int, corner: int, otherFace: int, otherCorner: int)

  /** A row of the boundary output: the (face, corner) of the only side. */
  datatype BoundaryRow = BoundaryRow(face: int, corner: int)

  /** Everything the seam classifier reports, in the order it is consumed. */
  datatype Classification = Classification(seams: seq<SeamRow>, boundaries: seq<BoundaryRow>, foldovers: seq<SeamRow>)
  {
    function RowCount(): nat
    {
      |seams| + |boundaries| + |foldovers|
    }
  }

  /** A directed position edge from vertex `v1` to vertex `v2`. */
  datatype Edge = Edge(v1: int, v2: int)

  predicate IsCorner(faceCount: nat, face: int, corner: int)
  {
    0 <= face < faceCount && 0 <= corner < 3
  }

  predicate SeamRowsIndex(faceCount: nat, rows: seq<SeamRow>)
  {
    forall i :: 0 <= i < |rows| ==>
      IsCorner(faceCount, rows[i].face, rows[i].corner) && IsCorner(faceCount, rows[i].otherFace, rows[i].otherCorner)
  }

  /** Every (face, corner) the classifier reports names a corner of an existing face. */
  predicate IndexesFaces(faceCount: nat, cl: Classification)
  {
    && SeamRowsIndex(faceCount, cl.seams)
    && (forall i :: 0 <= i < |cl.boundaries| ==> IsCorner(faceCount, cl.boundaries[i].face, cl.boundaries[i].corner))
    && SeamRowsIndex(faceCount, cl.foldovers)
  }

  /** The corner after `c` in a triangle's winding, wrapping from 2 back to 0.
      For these non-negative operands C++'s `%` and Dafny's agree. */
  function NextCorner(c: int): (n: int)
    requires 0 <= c < 3
    ensures 0 <= n < 3 && n != c
    ensures c == 2 ==> n == 0
    ensures c < 2 ==> n == c + 1
  {
    (c + 1) % 3
  }

  /** The three directed edges of a triangle, following its winding. */
  function TriangleEdges(t: seq<int>): (es: seq<Edge>)
    requires |t| == 3
  {
    [Edge(t[0], t[1]), Edge(t[1], t[2]), Edge(t[2], t[0])]
  }

  /** The position edge a (face, corner) pair stands for: from `F(face, corner)`
      to `F(face, (corner + 1) % 3)`. */
  function CornerEdge(f: Faces, face: int, corner: int): (e: Edge)
    requires IsTriangleList(f) && IsCorner(|f|, face, corner)
    ensures e == TriangleEdges(f[face])[corner]
  {
    Edge(f[face][corner], f[face][NextCorner(corner)])
  }

  /** The edge of a (face, corner) pair is the directed edge of that triangle
      that starts at the corner; its end is where the next corner's edge
      starts, so the three corners walk once around the triangle. */
  lemma CornerEdgeIsTriangleEdge(f: Faces, face: int, corner: int)
    requires IsTriangleList(f) && IsCorner(|f|, face, corner)
    ensures CornerEdge(f, face, corner) == TriangleEdges(f[face])[corner]
    ensures CornerEdge(f, face, corner).v1 in f[face] && CornerEdge(f, face, corner).v2 in f[face]
    ensures CornerEdge(f, face, corner).v2 == CornerEdge(f, face, NextCorner(corner)).v1
  {
  }

  /** The edges named by the first side of each seam or foldover row, in row order. */
  function SeamEdges(f: Faces, rows: seq<SeamRow>): (es: seq<Edge>)
    requires IsTriangleList(f) && SeamRowsIndex(|f|, rows)
    ensures |es| == |rows|
    ensures forall i :: 0 <= i < |rows| ==> es[i] == CornerEdge(f, rows[i].face, rows[i].corner)
  {
    seq(|rows|, i requires 0 <= i < |rows| => CornerEdge(f, rows[i].face, rows[i].corner))
  }

  /** The edges named by the boundary rows, in row order. */
  function BoundaryEdges(f: Faces, rows: seq<BoundaryRow>): (es: seq<Edge>)
    requires IsTriangleList(f)
    requires forall i :: 0 <= i < |rows| ==> IsCorner(|f|, rows[i].face, rows[i].corner)
    ensures |es| == |rows|
    ensures forall i :: 0 <= i < |rows| ==> es[i] == CornerEdge(f, rows[i].face, rows[i].corner)
  {
    seq(|rows|, i requires 0 <= i < |rows| => CornerEdge(f, rows[i].face, rows[i].corner))
  }

  /** Every edge the collection block inserts, in insertion order: all seam
      rows, then all boundary rows, then all foldover rows. */
  function AllEdges(f: Faces, cl: Classification): (es: seq<Edge>)
    requires IsTriangleList(f) && IndexesFaces(|f|, cl)
    ensures |es| == cl.RowCount()
  {
    SeamEdges(f, cl.seams) + BoundaryEdges(f, cl.boundaries) + SeamEdges(f, cl.foldovers)
  }

  predicate IsEndpoint(v: int, e: Edge)
  {
    v == e.v1 || v == e.v2
  }

  /** The ids a sequence of edges touches, gathered edge by edge. */
  function Endpoints(es: seq<Edge>): (s: set<int>)
  {
    if es == [] then {} else Endpoints(es[..|es| - 1]) + {es[|es| - 1].v1, es[|es| - 1].v2}
  }

  /** Gathering one more edge adds exactly its two endpoints. */
  lemma EndpointsStep(es: seq<Edge>, n: nat)
    requires n < |es|
    ensures Endpoints(es[..n + 1]) == Endpoints(es[..n]) + {es[n].v1, es[n].v2}
  {
    assert es[..n + 1][..n] == es[..n];
  }

  /** An id is gathered exactly when some edge has it as an endpoint. */
  lemma {:induction false} EndpointsMembership(es: seq<Edge>, v: int)
    ensures v in Endpoints(es) <==> exists i :: 0 <= i < |es| && IsEndpoint(v, es[i])
  {
    if es != [] {
      var init := es[..|es| - 1];
      EndpointsMembership(init, v);
      if v in Endpoints(init) {
        var i :| 0 <= i < |init| && IsEndpoint(v, init[i]);
        assert es[i] == init[i];
      }
      if exists i :: 0 <= i < |es| && IsEndpoint(v, es[i]) {
        var i :| 0 <= i < |es| && IsEndpoint(v, es[i]);
        if i < |init| {
          assert IsEndpoint(v, init[i]);
        }
      }
    }
  }

  /** The gathered set does not depend on the order (or repetition) of the edges. */
  lemma EndpointsOrderIndependent(es: seq<Edge>, ds: seq<Edge>)
    requires forall e :: e in es <==> e in ds
    ensures Endpoints(es) == Endpoints(ds)
  {
    forall v | v in Endpoints(es) ensures v in Endpoints(ds) {
      EndpointsMembership(es, v);
      var i :| 0 <= i < |es| && IsEndpoint(v, es[i]);
      assert es[i] in ds;
      var j :| 0 <= j < |ds| && ds[j] == es[i];
      EndpointsMembership(ds, v);
    }
    forall v | v in Endpoints(ds) ensures v in Endpoints(es) {
      EndpointsMembership(ds, v);
      var j :| 0 <= j < |ds| && IsEndpoint(v, ds[j]);
      assert ds[j] in es;
      var i :| 0 <= i < |es| && es[i] == ds[j];
      EndpointsMembership(es, v);
    }
  }

  /** Gathering two runs of edges one after the other is the union of gathering each. */
  lemma {:induction false} EndpointsConcat(xs: seq<Edge>, bs: seq<Edge>)
    ensures Endpoints(xs + bs) == Endpoints(xs) + Endpoints(bs)
  {
    if bs == [] {
      assert xs + bs == xs;
    } else {
      var init := bs[..|bs| - 1];
      EndpointsConcat(xs, init);
      assert (xs + bs)[..|xs + bs| - 1] == xs + init;
    }
  }
}

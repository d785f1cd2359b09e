# Seam bookkeeping of the seam-aware decimater

This project models the part of `decimate_down_to` (in `decimater.h`) that
runs before the collapse engine starts. It also models the helper
`count_seam_edge_num`.

- **Strictness levels.** The seam strictness enum `SeamAwareDegree` has the
  levels `NoUVShapePreserving = 0`, `UVShapePreserving = 1` and
  `Seamless = 2`.
- **Input asserts.** The routine asserts:
  - `0 < target_num_vertices < #rows(V)`;
  - V has 3 columns, F has 3, TC has 2 and FT has 3;
  - FT has as many columns as F.
- **Collection block.** The seam classifier returns three groups of rows:
  seams, boundaries and foldovers. Each row names a face and a corner of F.
  The position edge for that row runs from `F(face, corner)` to
  `F(face, (corner + 1) % 3)`. For every row, in the order seams, then
  boundaries, then foldovers, the routine:
  1. adds both endpoints to the set `seam_vertex_indices`;
  2. makes one `insert_edge` call on the map `seam_vertex_edges`;
  3. for seam and foldover rows only, asserts that both endpoints of the
     row's opposite side are already in the set.
- **Diagnostic counts.** The routine reports the size of the set and
  `count_seam_edge_num`, which is half the sum of the adjacency-list sizes.

Layout:

- `wrappers.dfy`: `Option` and `Result`.
- `mesh.dfy`: the matrices, the classifier's rows, the corner-to-edge
  extraction and the endpoint set.
- `edge_map.dfy`: the edge map, the assumed `insert_edge`, and
  `count_seam_edge_num` as a loop over the map.
- `seam_collection.dfy`: the three collection loops and the cross-side check.
- `decimater.dfy`: the enum, the asserts, and the whole set-up as one method.

## Choices

- The C++ asserts stop the routine in a debug build. Here each one is an
  error result. `FailedAssert` names the first assert that fails. The
  collection methods return the first cross-side check that fails: its
  group, its row and the missing vertex id.
- The body of `insert_edge` is not part of this model. It is modelled by
  assumption: `v2` is appended to the list of `v1`, then `v1` to the list of
  `v2`, with no deduplication, and indexing a missing key creates an empty
  list. The halving in `count_seam_edge_num` points to this two-way storage.
  Every property below about the map rests on this assumption.
- `igl::seam_edges` is external (`decimater.h:93`). Its three row matrices
  are inputs to the model. Its promise that every (face, corner) it reports
  names an existing corner of F is a precondition.
- Three points where the code does less than its own wording suggests. The
  model follows the code:
  - **Cross-side check.** The comments at `decimater.h:114` and
    `decimater.h:131` say "The vertices on both sides should match". The
    asserts at `decimater.h:115-116` and `decimater.h:132-133` only test
    that each opposite-side id is somewhere in the set gathered so far.
    `SeamCollection.MembershipNotEquality` shows a whole collection that
    passes although one row's two sides are different edges.
  - **Edge count.** The message at `decimater.h:137` reports "# seam edges".
    Under the assumed `insert_edge`, the count is one per call, repeats
    included, so it is the number of rows
    (`SeamCollection.SeamEdgeCountIsRowCount`).
  - **Failed checks.** All the checks are `assert`s, which are compiled away
    under `NDEBUG`. They are modelled as enabled.

## Model

| member | source | states |
|---|---|---|
| Decimater.SeamAwareDegree.Value | decimater.h:33-38 | each strictness level's value lies in 0..2: NoUVShapePreserving is exactly the level with value 0, UVShapePreserving the one with value 1, and Seamless the one with value 2 |
| Decimater.DegreeOf | decimater.h:33-38 | an integer names a level exactly when it is 0, 1 or 2, and the level named has that integer as its value |
| Decimater.DegreeRoundTrip | decimater.h:33-38 | every level is recovered from its value, so the three values are distinct |
| Decimater.FailedAssert | decimater.h:78-89 | no assert fails exactly when 0 < target < #rows(V) and V, F, TC, FT have 3, 3, 2, 3 columns. Each error is reported exactly when its assert is the first one that fails. The final assert FT.cols == F.cols then always holds. |
| Decimater.SeamSetup | decimater.h:76-138 | a failed input assert is reported as that error. Otherwise the set-up succeeds exactly when every cross-side check passes, and a failure names the first failing check. On success it returns the seam vertices (the endpoints of all rows), the map after one insertion per row, the number of distinct seam vertices, and an edge count equal to #seams + #boundaries + #foldovers. |
| Mesh.NextCorner | decimater.h:110 | the corner after c in a triangle is c + 1, wrapping from corner 2 back to 0, and is never c itself |
| Mesh.CornerEdge | decimater.h:109-110 | the edge of row (face, corner) is the triangle's directed edge in winding position `corner`: the edge from `F(face, corner)` to `F(face, (corner + 1) % 3)`, as also at decimater.h:119-120 and 126-127 |
| Mesh.CornerEdgeIsTriangleEdge | decimater.h:109-110 | the edge of (face, corner) is the triangle's directed edge that starts at that corner; both endpoints are vertices of the face; the edge ends where the next corner's edge starts |
| Mesh.AllEdges | decimater.h:106-130 | one edge per row: as many edges as there are seam, boundary and foldover rows together |
| Mesh.EndpointsStep | decimater.h:111-112 | gathering one more edge adds exactly its two endpoints to the set |
| Mesh.EndpointsMembership | decimater.h:111-112 | an id is in the gathered set exactly when it is an endpoint of some gathered edge |
| Mesh.EndpointsOrderIndependent | decimater.h:104-112 | the gathered set does not depend on the order or repetition of the edges |
| Mesh.EndpointsConcat | decimater.h:108-130 | gathering two runs of edges one after the other gives the union of the two sets |
| EdgeMaps.InsertEdgeEffect | decimater.h:113 | specifies EdgeMaps.InsertEdge, the assumed insert_edge of decimater.h:113, 123 and 130: the keys gain v1 and v2; v2 is appended to the list of v1 and v1 to the list of v2; every other list is unchanged |
| EdgeMaps.InsertEdgeSymmetric | decimater.h:113 | inserting (a, b) and inserting (b, a) give the same map |
| EdgeMaps.InsertEdgeKeepsSymmetric | decimater.h:113 | an insertion keeps every entry matched by its reverse |
| EdgeMaps.InsertEdgeTotal | decimater.h:113 | each insertion adds exactly two list entries to the map |
| EdgeMaps.AdjacencyTotalRemove | decimater.h:25-27 | the sum of list sizes can be started from any key, so the order in which the map is iterated does not matter |
| EdgeMaps.InsertAllTotal | decimater.h:106-130 | n insertions add exactly 2n list entries |
| EdgeMaps.InsertAllConcat | decimater.h:108-130 | inserting one run of edges and then another is the same as inserting their concatenation |
| EdgeMaps.InsertAllKeys | decimater.h:106-130 | the keys after the insertions are the previous keys plus every inserted endpoint |
| EdgeMaps.InsertAllSymmetric | decimater.h:28 | a map built from empty by insertions alone is symmetric: v occurs in u's list exactly as often as u occurs in v's |
| EdgeMaps.CountSeamEdgeNum | decimater.h:22-29 | the loop returns half the sum of all adjacency-list sizes. The result is never negative and is 0 for an empty map. |
| EdgeMaps.CountAfterInsertions | decimater.h:28 | for a map built by n insertions, the reported count is n |
| SeamCollection.OppositeEdge | decimater.h:115-116 | the opposite side of a seam or foldover row is the directed edge at winding position `otherCorner` of triangle `otherFace`, from `F(otherFace, otherCorner)` to `F(otherFace, (otherCorner + 1) % 3)`, as also at decimater.h:132-133 |
| SeamCollection.FirstUnseen | decimater.h:115-116 | returns nothing exactly when both opposite-side endpoints are in the set. Otherwise it returns a missing endpoint. When the first endpoint (decimater.h:115) is missing, that one is returned, even if the second is missing too; the second (decimater.h:116) is returned only when the first is present. |
| SeamCollection.BeforeFoldovers | decimater.h:108-124 | the edges gathered before the foldover loop, followed by the foldover edges, are all the edges in processing order |
| SeamCollection.CheckFails | decimater.h:115-116 | a failed check of row i, after rows 0..i-1 passed, is the first failure and reports the endpoint it found missing |
| SeamCollection.CheckPasses | decimater.h:115-116 | both checks of row i passing extends the passing prefix by one row |
| SeamCollection.GatherChecked | decimater.h:108-117 | the seam loop, and the foldover loop at decimater.h:125-134. It succeeds exactly when every row's opposite-side endpoints are in the set when that row is checked. On success the set and map are those of all previous edges plus this group's edges. On failure it names the group, the first failing row and the missing id. |
| SeamCollection.GatherBoundaries | decimater.h:118-124 | the boundary loop adds the endpoints and one insertion per row, with no check |
| SeamCollection.CollectSeamVertices | decimater.h:103-134 | it succeeds exactly when all seam and foldover checks pass. The set then holds the endpoints of all rows, and the map is the result of one insertion per row, seams then boundaries then foldovers. A failure is the first failing check in processing order. |
| SeamCollection.SeamVerticesExact | decimater.h:104-129 | an id is a seam vertex exactly when it is an endpoint of the edge of some seam, boundary or foldover row; the set starts empty and holds no other ids |
| SeamCollection.SeamVerticesOrderIndependent | decimater.h:104-134 | permuting the rows within each group leaves the seam vertex set unchanged |
| SeamCollection.SameVertex | decimater.h:104-134 | one id is a seam vertex for a classification exactly when it is one for any row-permuted classification |
| SeamCollection.SeamVerticesByGroup | decimater.h:108-134 | the seam vertex set is the union of each group's endpoints, in any group order |
| SeamCollection.EdgeMapKeysAreSeamVertices | decimater.h:104-130 | the ids that have an adjacency list are exactly the seam vertices |
| SeamCollection.SeamEdgeCountIsRowCount | decimater.h:137 | the seam edge count reported for the built map is #seams + #boundaries + #foldovers, and the map is symmetric |
| SeamCollection.TwinSidePasses | decimater.h:114-116 | a row whose opposite side joins the same two ids as its own edge, in either direction, always passes |
| SeamCollection.MembershipNotEquality | decimater.h:114-116 | in the triangles 0-1-2 and 1-0-3, a seam classification whose first row joins edge 0-1 to its twin 1-0, and whose second row has own side 1-2 but opposite side 1-0, passes every cross-side check of the whole collection: the check is membership in the set gathered so far, not equality of the two sides |

## Left out

- `insert_edge` and the `EdgeMap` type are defined in `decimate.h`, which is
  not part of this model. Their behaviour is the stated assumption above, so
  the symmetry and count lemmas hold only under it.
- `igl::seam_edges` (`decimater.h:93`) is an external classifier. Its output
  rows are inputs here.
- `half_edge_qslim_5d`, `decimate_halfedge_5d` and the returned success flag
  are left out. They are the quadric computation and the collapse engine
  (`decimater.h:139-161`). They are defined in headers that are not part of
  this model, and they work in floating point.
- The console output is left out (`decimater.h:95-100`, `136-137`, `147`,
  `158-160`). The two diagnostic counts are returned in place of printing.
- The globals `interior_foldovers` and `exterior_foldovers` are left out.
  They are not defined in the modelled files.
- The vertex positions and texture coordinates (floating point) are never
  read by the modelled part, apart from their shapes.
- `seam_aware_degree` is passed as a plain `int` to the collapse engine and
  is not checked in the modelled part. `DegreeOf` relates it to the enum.
- `decimater.cpp` handles command-line arguments and OBJ file I/O.
  `export_lib.cpp` marshals buffers across a foreign-function boundary.
  Neither is modelled.
- EdgeMaps.CountSeamEdgeNum: `count` is a 32-bit C++ `int`, and its overflow
  on more than 2^31 - 1 list entries is not modelled. Integers here are
  unbounded.
- Decimater.FailedAssert: the asserts are modelled as enabled, as in a debug
  build. With `NDEBUG` they do nothing, and that behaviour is not modelled.

/** The seam bookkeeping of `decimate_down_to`: the seam vertex set, the seam
    edge map and the check that both sides of a seam or foldover match. */
module SeamCollection {
  import opened Wrappers
  import opened Mesh
  import opened EdgeMaps

  /** The two structures the collection block builds. */
  datatype SeamData = SeamData(vertices: set<int>, edges: EdgeMap)

  /** The row groups whose opposite side is checked. */
  datatype CheckedGroup = Seams | Foldovers

  /** A failed cross-side check: the group and row it was checked for, and the
      opposite-side vertex id that was not yet in the seam vertex set. */
  datatype Mismatch = Mismatch(group: CheckedGroup, row: nat, missing: int)

  /** The edge on the opposite side of a seam or foldover row. */
  function OppositeEdge(f: Faces, row: SeamRow): (e: Edge)
    requires IsTriangleList(f) && IsCorner(|f|, row.otherFace, row.otherCorner)
    ensures e == TriangleEdges(f[row.otherFace])[row.otherCorner]
  {
    CornerEdge(f, row.otherFace, row.otherCorner)
  }

  /** Both opposite-side endpoints of `row` are in `seen`. */
  predicate OppositeSeen(f: Faces, row: SeamRow, seen: set<int>)
    requires IsTriangleList(f) && IsCorner(|f|, row.otherFace, row.otherCorner)
  {
    OppositeEdge(f, row).v1 in seen && OppositeEdge(f, row).v2 in seen
  }

  /** The first opposite-side endpoint, in the order the two checks are made,
      that is not in `seen`; None when both are. */
  function FirstUnseen(f: Faces, row: SeamRow, seen: set<int>): (r: Option<int>)
    requires IsTriangleList(f) && IsCorner(|f|, row.otherFace, row.otherCorner)
    ensures r.None? <==> OppositeSeen(f, row, seen)
    ensures r.Some? ==> r.value !in seen && IsEndpoint(r.value, OppositeEdge(f, row))
    ensures OppositeEdge(f, row).v1 !in seen ==> r == Some(OppositeEdge(f, row).v1)
    ensures r.Some? && OppositeEdge(f, row).v1 in seen ==> r.value == OppositeEdge(f, row).v2
  {
    var o := OppositeEdge(f, row);
    if o.v1 !in seen then Some(o.v1)
    else if o.v2 !in seen then Some(o.v2)
    else None
  }

  /** Rows `0 .. upto - 1` of a checked group pass: when row `j` is checked,
      the set holds the endpoints of every edge gathered before the group and
      of the group's rows `0 .. j`. */
  predicate RowsPass(f: Faces, rows: seq<SeamRow>, before: seq<Edge>, upto: nat)
    requires IsTriangleList(f) && SeamRowsIndex(|f|, rows) && upto <= |rows|
  {
    forall j :: 0 <= j < upto ==>
      OppositeSeen(f, rows[j], Endpoints(before + SeamEdges(f, rows)[..j + 1]))
  }

  /** The edges gathered before the foldover rows. */
  function BeforeFoldovers(f: Faces, cl: Classification): (es: seq<Edge>)
    requires IsTriangleList(f) && IndexesFaces(|f|, cl)
    ensures es + SeamEdges(f, cl.foldovers) == AllEdges(f, cl)
  {
    SeamEdges(f, cl.seams) + BoundaryEdges(f, cl.boundaries)
  }

  /** Both sides match for every seam and foldover row: each opposite-side
      endpoint is already in the set when its row is checked. Boundary rows
      have no opposite side and are not checked. */
  predicate CrossSidesMatch(f: Faces, cl: Classification)
    requires IsTriangleList(f) && IndexesFaces(|f|, cl)
  {
    RowsPass(f, cl.seams, [], |cl.seams|) && RowsPass(f, cl.foldovers, BeforeFoldovers(f, cl), |cl.foldovers|)
  }

  /** `err` names row `err.row` of `rows` as the first failing check, and
      `err.missing` as the endpoint it found missing. */
  predicate FirstFailure(f: Faces, rows: seq<SeamRow>, before: seq<Edge>, err: Mismatch)
    requires IsTriangleList(f) && SeamRowsIndex(|f|, rows)
  {
    && err.row < |rows|
    && RowsPass(f, rows, before, err.row)
    && FirstUnseen(f, rows[err.row], Endpoints(before + SeamEdges(f, rows)[..err.row + 1])) == Some(err.missing)
  }

  /** `err` reports the first check that fails, in processing order. */
  predicate IsFirstMismatch(f: Faces, cl: Classification, err: Mismatch)
    requires IsTriangleList(f) && IndexesFaces(|f|, cl)
  {
    match err.group
    case Seams => FirstFailure(f, cl.seams, [], err)
    case Foldovers =>
      RowsPass(f, cl.seams, [], |cl.seams|) && FirstFailure(f, cl.foldovers, BeforeFoldovers(f, cl), err)
  }

  lemma PrefixGrows(before: seq<Edge>, es: seq<Edge>, i: nat)
    requires i < |es|
    ensures before + es[..i + 1] == (before + es[..i]) + [es[i]]
  {
    assert es[..i + 1] == es[..i] + [es[i]];
  }

  /** Stated apart so that the composing method need not prove this sequence
      equality among its own many facts. */
  lemma EmptyPrefix(es: seq<Edge>)
    ensures [] + es == es
  {
  }

  /** Gathering one more edge. */
  lemma GatherStep(xs: seq<Edge>, e: Edge)
    ensures Endpoints(xs + [e]) == Endpoints(xs) + {e.v1, e.v2}
    ensures InsertAll(map[], xs + [e]) == InsertEdge(InsertAll(map[], xs), e.v1, e.v2)
  {
    assert (xs + [e])[..|xs|] == xs;
  }

  /** A failed check of row `i`, after the rows before it passed, is the first failure. */
  lemma CheckFails(f: Faces, rows: seq<SeamRow>, before: seq<Edge>, i: nat, seen: set<int>, group: CheckedGroup)
    requires IsTriangleList(f) && SeamRowsIndex(|f|, rows) && i < |rows|
    requires seen == Endpoints(before + SeamEdges(f, rows)[..i + 1])
    requires RowsPass(f, rows, before, i)
    ensures var o := OppositeEdge(f, rows[i]);
      && (o.v1 !in seen ==> FirstFailure(f, rows, before, Mismatch(group, i, o.v1)))
      && (o.v1 in seen && o.v2 !in seen ==> FirstFailure(f, rows, before, Mismatch(group, i, o.v2)))
  {
    var o := OppositeEdge(f, rows[i]);
    var u := FirstUnseen(f, rows[i], seen);
    assert o.v1 !in seen ==> u == Some(o.v1);
    assert o.v1 in seen && o.v2 !in seen ==> u == Some(o.v2);
  }

  /** Both checks of row `i` passing extends the passing prefix by one row. */
  lemma CheckPasses(f: Faces, rows: seq<SeamRow>, before: seq<Edge>, i: nat, seen: set<int>)
    requires IsTriangleList(f) && SeamRowsIndex(|f|, rows) && i < |rows|
    requires seen == Endpoints(before + SeamEdges(f, rows)[..i + 1])
    requires RowsPass(f, rows, before, i)
    requires OppositeSeen(f, rows[i], seen)
    ensures RowsPass(f, rows, before, i + 1)
  {
    var es := SeamEdges(f, rows);
    forall j | 0 <= j < i + 1
      ensures OppositeSeen(f, rows[j], Endpoints(before + es[..j + 1]))
    {
      if j < i {
        assert OppositeSeen(f, rows[j], Endpoints(before + es[..j + 1]));
      }
    }
  }

  /** The loop shared by the seam rows and the foldover rows: each row adds its
      two endpoints to the set and makes one `insert_edge`, then checks that
      both opposite-side endpoints are in the set; the first failed check
      aborts. `before` are the edges gathered by the earlier loops. */
  method GatherChecked(f: Faces, rows: seq<SeamRow>, group: CheckedGroup, ghost before: seq<Edge>, d: SeamData)
    returns (r: Result<SeamData, Mismatch>)
    requires IsTriangleList(f) && SeamRowsIndex(|f|, rows)
    requires d == SeamData(Endpoints(before), InsertAll(map[], before))
    ensures r.Ok? <==> RowsPass(f, rows, before, |rows|)
    ensures r.Ok? ==> r.value == SeamData(Endpoints(before + SeamEdges(f, rows)), InsertAll(map[], before + SeamEdges(f, rows)))
    ensures r.Err? ==> r.error.group == group && FirstFailure(f, rows, before, r.error)
  {
    ghost var es := SeamEdges(f, rows);
    var vertices, edges := d.vertices, d.edges;
    ghost var gathered := before;
    assert before + es[..0] == before;
    for i := 0 to |rows|
      invariant gathered == before + es[..i]
      invariant vertices == Endpoints(gathered)
      invariant edges == InsertAll(map[], gathered)
      invariant RowsPass(f, rows, before, i)
    {
      var row := rows[i];
      var e := CornerEdge(f, row.face, row.corner);
      vertices := vertices + {e.v1, e.v2};
      edges := InsertEdge(edges, e.v1, e.v2);
      GatherStep(gathered, e);
      PrefixGrows(before, es, i);
      gathered := gathered + [e];
      var o := OppositeEdge(f, row);
      var o1, o2 := o.v1, o.v2;
      if o1 !in vertices || o2 !in vertices {
        CheckFails(f, rows, before, i, vertices, group);
      }
      if o1 !in vertices {
        return Err(Mismatch(group, i, o1));
      }
      if o2 !in vertices {
        return Err(Mismatch(group, i, o2));
      }
      CheckPasses(f, rows, before, i, vertices);
    }
    assert es[..|rows|] == es;
    return Ok(SeamData(vertices, edges));
  }

  /** The loop over the boundary rows: endpoints and one `insert_edge` per
      row, no opposite side to check. */
  method GatherBoundaries(f: Faces, rows: seq<BoundaryRow>, ghost before: seq<Edge>, d: SeamData)
    returns (r: SeamData)
    requires IsTriangleList(f)
    requires forall i :: 0 <= i < |rows| ==> IsCorner(|f|, rows[i].face, rows[i].corner)
    requires d == SeamData(Endpoints(before), InsertAll(map[], before))
    ensures r == SeamData(Endpoints(before + BoundaryEdges(f, rows)), InsertAll(map[], before + BoundaryEdges(f, rows)))
  {
    ghost var es := BoundaryEdges(f, rows);
    var vertices, edges := d.vertices, d.edges;
    ghost var gathered := before;
    assert before + es[..0] == before;
    for i := 0 to |rows|
      invariant gathered == before + es[..i]
      invariant vertices == Endpoints(gathered)
      invariant edges == InsertAll(map[], gathered)
    {
      var row := rows[i];
      var e := CornerEdge(f, row.face, row.corner);
      vertices := vertices + {e.v1, e.v2};
      edges := InsertEdge(edges, e.v1, e.v2);
      GatherStep(gathered, e);
      PrefixGrows(before, es, i);
      gathered := gathered + [e];
    }
    assert es[..|rows|] == es;
    return SeamData(vertices, edges);
  }

  /** The collection block: the seam rows, then the boundary rows, then the
      foldover rows; a failed cross-side check aborts the routine. */
  method CollectSeamVertices(f: Faces, cl: Classification) returns (r: Result<SeamData, Mismatch>)
    requires IsTriangleList(f) && IndexesFaces(|f|, cl)
    ensures r.Ok? <==> CrossSidesMatch(f, cl)
    ensures r.Ok? ==> r.value == SeamData(Endpoints(AllEdges(f, cl)), InsertAll(map[], AllEdges(f, cl)))
    ensures r.Err? ==> IsFirstMismatch(f, cl, r.error)
  {
    var afterSeams := GatherChecked(f, cl.seams, Seams, [], SeamData({}, map[]));
    if afterSeams.Err? {
      return afterSeams;
    }
    ghost var seamEdges := SeamEdges(f, cl.seams);
    EmptyPrefix(seamEdges);
    var afterBoundaries := GatherBoundaries(f, cl.boundaries, seamEdges, afterSeams.value);
    ghost var before := BeforeFoldovers(f, cl);
    assert before == seamEdges + BoundaryEdges(f, cl.boundaries);
    r := GatherChecked(f, cl.foldovers, Foldovers, before, afterBoundaries);
    assert before + SeamEdges(f, cl.foldovers) == AllEdges(f, cl);
  }

  /** The seam vertex set holds exactly the endpoints of the edges of the seam,
      boundary and foldover rows, and no other id. */
  lemma SeamVerticesExact(f: Faces, cl: Classification, v: int)
    requires IsTriangleList(f) && IndexesFaces(|f|, cl)
    ensures v in Endpoints(AllEdges(f, cl)) <==>
      || (exists i :: 0 <= i < |cl.seams| && IsEndpoint(v, CornerEdge(f, cl.seams[i].face, cl.seams[i].corner)))
      || (exists i :: 0 <= i < |cl.boundaries| && IsEndpoint(v, CornerEdge(f, cl.boundaries[i].face, cl.boundaries[i].corner)))
      || (exists i :: 0 <= i < |cl.foldovers| && IsEndpoint(v, CornerEdge(f, cl.foldovers[i].face, cl.foldovers[i].corner)))
  {
    var ss, bs, fs := SeamEdges(f, cl.seams), BoundaryEdges(f, cl.boundaries), SeamEdges(f, cl.foldovers);
    EndpointsConcat(ss + bs, fs);
    EndpointsConcat(ss, bs);
    EndpointsMembership(ss, v);
    EndpointsMembership(bs, v);
    EndpointsMembership(fs, v);
  }

  /** Permuting the rows within each group leaves the seam vertex set unchanged. */
  lemma SeamVerticesOrderIndependent(f: Faces, cl: Classification, other: Classification)
    requires IsTriangleList(f) && IndexesFaces(|f|, cl) && IndexesFaces(|f|, other)
    requires multiset(cl.seams) == multiset(other.seams)
    requires multiset(cl.boundaries) == multiset(other.boundaries)
    requires multiset(cl.foldovers) == multiset(other.foldovers)
    ensures Endpoints(AllEdges(f, cl)) == Endpoints(AllEdges(f, other))
  {
    forall v ensures v in Endpoints(AllEdges(f, cl)) <==> v in Endpoints(AllEdges(f, other)) {
      SameVertex(f, cl, other, v);
    }
  }

  lemma SameVertex(f: Faces, cl: Classification, other: Classification, v: int)
    requires IsTriangleList(f) && IndexesFaces(|f|, cl) && IndexesFaces(|f|, other)
    requires multiset(cl.seams) == multiset(other.seams)
    requires multiset(cl.boundaries) == multiset(other.boundaries)
    requires multiset(cl.foldovers) == multiset(other.foldovers)
    ensures v in Endpoints(AllEdges(f, cl)) <==> v in Endpoints(AllEdges(f, other))
  {
    SeamVerticesExact(f, cl, v);
    SeamVerticesExact(f, other, v);
    SameRowsSameEndpoint(f, cl.seams, other.seams, v);
    SameRowsSameEndpoint(f, other.seams, cl.seams, v);
    SameRowsSameEndpoint(f, cl.foldovers, other.foldovers, v);
    SameRowsSameEndpoint(f, other.foldovers, cl.foldovers, v);
    SameBoundaryRowsSameEndpoint(f, cl.boundaries, other.boundaries, v);
    SameBoundaryRowsSameEndpoint(f, other.boundaries, cl.boundaries, v);
  }

  /** The set is the union of what each group contributes, so the groups could
      be processed in any order. */
  lemma SeamVerticesByGroup(f: Faces, cl: Classification)
    requires IsTriangleList(f) && IndexesFaces(|f|, cl)
    ensures Endpoints(AllEdges(f, cl)) ==
      Endpoints(SeamEdges(f, cl.foldovers)) + Endpoints(BoundaryEdges(f, cl.boundaries)) + Endpoints(SeamEdges(f, cl.seams))
  {
    var ss, bs, fs := SeamEdges(f, cl.seams), BoundaryEdges(f, cl.boundaries), SeamEdges(f, cl.foldovers);
    EndpointsConcat(ss + bs, fs);
    EndpointsConcat(ss, bs);
  }

  lemma SameRowsSameEndpoint(f: Faces, rows: seq<SeamRow>, others: seq<SeamRow>, v: int)
    requires IsTriangleList(f) && SeamRowsIndex(|f|, rows) && SeamRowsIndex(|f|, others)
    requires multiset(rows) == multiset(others)
    ensures (exists i :: 0 <= i < |rows| && IsEndpoint(v, CornerEdge(f, rows[i].face, rows[i].corner))) ==>
            (exists j :: 0 <= j < |others| && IsEndpoint(v, CornerEdge(f, others[j].face, others[j].corner)))
  {
    if exists i :: 0 <= i < |rows| && IsEndpoint(v, CornerEdge(f, rows[i].face, rows[i].corner)) {
      var i :| 0 <= i < |rows| && IsEndpoint(v, CornerEdge(f, rows[i].face, rows[i].corner));
      assert rows[i] in multiset(others);
      var j :| 0 <= j < |others| && others[j] == rows[i];
    }
  }

  lemma SameBoundaryRowsSameEndpoint(f: Faces, rows: seq<BoundaryRow>, others: seq<BoundaryRow>, v: int)
    requires IsTriangleList(f)
    requires forall i :: 0 <= i < |rows| ==> IsCorner(|f|, rows[i].face, rows[i].corner)
    requires forall i :: 0 <= i < |others| ==> IsCorner(|f|, others[i].face, others[i].corner)
    requires multiset(rows) == multiset(others)
    ensures (exists i :: 0 <= i < |rows| && IsEndpoint(v, CornerEdge(f, rows[i].face, rows[i].corner))) ==>
            (exists j :: 0 <= j < |others| && IsEndpoint(v, CornerEdge(f, others[j].face, others[j].corner)))
  {
    if exists i :: 0 <= i < |rows| && IsEndpoint(v, CornerEdge(f, rows[i].face, rows[i].corner)) {
      var i :| 0 <= i < |rows| && IsEndpoint(v, CornerEdge(f, rows[i].face, rows[i].corner));
      assert rows[i] in multiset(others);
      var j :| 0 <= j < |others| && others[j] == rows[i];
    }
  }

  /** The ids with an adjacency list are exactly the seam vertices. */
  lemma EdgeMapKeysAreSeamVertices(f: Faces, cl: Classification)
    requires IsTriangleList(f) && IndexesFaces(|f|, cl)
    ensures InsertAll(map[], AllEdges(f, cl)).Keys == Endpoints(AllEdges(f, cl))
  {
    InsertAllKeys(map[], AllEdges(f, cl));
  }

  /** The seam edge count reported for the built map is the number of rows,
      one `insert_edge` per seam, boundary and foldover row. */
  lemma SeamEdgeCountIsRowCount(f: Faces, cl: Classification)
    requires IsTriangleList(f) && IndexesFaces(|f|, cl)
    ensures AdjacencyTotal(InsertAll(map[], AllEdges(f, cl))) / 2 == |cl.seams| + |cl.boundaries| + |cl.foldovers|
    ensures Symmetric(InsertAll(map[], AllEdges(f, cl)))
  {
    CountAfterInsertions(AllEdges(f, cl));
    InsertAllSymmetric(AllEdges(f, cl));
  }

  /** A seam row whose opposite side runs between the same two vertices, in
      either direction, always passes its check. */
  lemma TwinSidePasses(f: Faces, rows: seq<SeamRow>, before: seq<Edge>, j: nat)
    requires IsTriangleList(f) && SeamRowsIndex(|f|, rows) && j < |rows|
    requires var e, o := CornerEdge(f, rows[j].face, rows[j].corner), OppositeEdge(f, rows[j]);
      IsEndpoint(o.v1, e) && IsEndpoint(o.v2, e)
    ensures OppositeSeen(f, rows[j], Endpoints(before + SeamEdges(f, rows)[..j + 1]))
  {
    var es := SeamEdges(f, rows);
    PrefixGrows(before, es, j);
    GatherStep(before + es[..j], es[j]);
  }

  /** The check is membership in the whole set, not equality with the row's
      own edge. In the triangles 0-1-2 and 1-0-3, the first seam row joins
      edge 0-1 to its twin 1-0, which puts 0 and 1 in the set. The second row's
      own side is edge 1-2 of the first triangle, yet its opposite side is
      edge 1-0 of the second triangle; it passes on membership alone, and so
      does the whole collection. */
  lemma MembershipNotEquality()
    ensures var f := [[0, 1, 2], [1, 0, 3]];
      var cl := Classification([SeamRow(0, 0, 1, 0), SeamRow(0, 1, 1, 0)], [], []);
      && IsTriangleList(f) && IndexesFaces(|f|, cl)
      && CornerEdge(f, 0, 1) == Edge(1, 2)
      && OppositeEdge(f, cl.seams[1]) == Edge(1, 0)
      && CrossSidesMatch(f, cl)
  {
    var f := [[0, 1, 2], [1, 0, 3]];
    var cl := Classification([SeamRow(0, 0, 1, 0), SeamRow(0, 1, 1, 0)], [], []);
    var es := SeamEdges(f, cl.seams);
    assert es == [Edge(0, 1), Edge(1, 2)];
    assert [] + es[..1] == [Edge(0, 1)];
    assert [] + es[..2] == [Edge(0, 1)] + [Edge(1, 2)];
    GatherStep([], Edge(0, 1));
    GatherStep([Edge(0, 1)], Edge(1, 2));
  }
}

/** `decimate_down_to` up to the point where the collapse engine takes over:
    the seam strictness levels, the input asserts and the seam bookkeeping. */
module Decimater {
  import opened Wrappers
  import opened Mesh
  import opened EdgeMaps
  import opened SeamCollection

  /** How strictly the UV seams are preserved during decimation. */
  datatype SeamAwareDegree = NoUVShapePreserving | UVShapePreserving | Seamless
  {
    /** The enumerator's integer value, as passed on in `seam_aware_degree`. */
    function Value(): (n: int)
      ensures 0 <= n <= 2
      ensures this == NoUVShapePreserving <==> n == 0
      ensures this == UVShapePreserving <==> n == 1
      ensures this == Seamless <==> n == 2
    {
      match this
      case NoUVShapePreserving => 0
      case UVShapePreserving => 1
      case Seamless => 2
    }
  }

  /** The level an integer `seam_aware_degree` stands for; None when it names
      no enumerator. */
  function DegreeOf(n: int): (d: Option<SeamAwareDegree>)
    ensures d.Some? <==> 0 <= n <= 2
    ensures d.Some? ==> d.value.Value() == n
  {
    if n == 0 then Some(NoUVShapePreserving)
    else if n == 1 then Some(UVShapePreserving)
    else if n == 2 then Some(Seamless)
    else None
  }

  /** Each level is recovered from its value, so the three values are distinct. */
  lemma DegreeRoundTrip(d: SeamAwareDegree)
    ensures DegreeOf(d.Value()) == Some(d)
  {
  }

  /** The input asserts of `decimate_down_to`, in the order they are made. */
  datatype InputError =
    | TargetNotPositive
    | TargetNotBelowVertexCount
    | PositionsNot3D
    | FacesNotTriangles
    | UVsNot2D
    | UVFacesNotTriangles

  /** The first input assert that fails, or None when all hold. */
  function FailedAssert(v: Matrix<real>, f: Matrix<int>, tc: Matrix<real>, ft: Matrix<int>, target: int)
    : (r: Option<InputError>)
    ensures r.None? <==> 0 < target < |v.rows| && v.cols == 3 && f.cols == 3 && tc.cols == 2 && ft.cols == 3
    ensures r.None? ==> ft.cols == f.cols
    ensures r == Some(TargetNotPositive) <==> target <= 0
    ensures r == Some(TargetNotBelowVertexCount) <==> 0 < target && |v.rows| <= target
    ensures r == Some(PositionsNot3D) <==> 0 < target < |v.rows| && v.cols != 3
    ensures r == Some(FacesNotTriangles) <==> 0 < target < |v.rows| && v.cols == 3 && f.cols != 3
    ensures r == Some(UVsNot2D) <==> 0 < target < |v.rows| && v.cols == 3 && f.cols == 3 && tc.cols != 2
    ensures r == Some(UVFacesNotTriangles) <==>
      0 < target < |v.rows| && v.cols == 3 && f.cols == 3 && tc.cols == 2 && ft.cols != 3
  {
    if target <= 0 then Some(TargetNotPositive)
    else if target >= |v.rows| then Some(TargetNotBelowVertexCount)
    else if v.cols != 3 then Some(PositionsNot3D)
    else if f.cols != 3 then Some(FacesNotTriangles)
    else if tc.cols != 2 then Some(UVsNot2D)
    else if ft.cols != 3 then Some(UVFacesNotTriangles)
    else None
  }

  /** Why the routine stops before decimating. */
  datatype SetupError = BadInput(input: InputError) | SidesDisagree(mismatch: Mismatch)

  /** The seam data handed to the collapse engine, with the two diagnostic
      counts the routine reports for it. */
  datatype SeamReport = SeamReport(data: SeamData, seamVertexCount: nat, seamEdgeCount: int)

  /** `decimate_down_to` from its first assert to the seam diagnostics: check
      the input, collect the seam vertices and edges from the classifier's
      rows `cl`, and count them. */
  method SeamSetup(v: Matrix<real>, f: Matrix<int>, tc: Matrix<real>, ft: Matrix<int>, target: int, cl: Classification)
    returns (r: Result<SeamReport, SetupError>)
    requires f.WellFormed()
    requires IndexesFaces(|f.rows|, cl)
    ensures FailedAssert(v, f, tc, ft, target).Some? ==> r == Err(BadInput(FailedAssert(v, f, tc, ft, target).value))
    ensures FailedAssert(v, f, tc, ft, target).None? ==> IsTriangleList(f.rows) && (r.Ok? <==> CrossSidesMatch(f.rows, cl))
    ensures FailedAssert(v, f, tc, ft, target).None? && r.Err? ==>
      r.error.SidesDisagree? && IsFirstMismatch(f.rows, cl, r.error.mismatch)
    ensures r.Ok? ==>
      && IsTriangleList(f.rows)
      && r.value.data == SeamData(Endpoints(AllEdges(f.rows, cl)), InsertAll(map[], AllEdges(f.rows, cl)))
      && r.value.seamVertexCount == |r.value.data.vertices|
      && r.value.seamEdgeCount == |cl.seams| + |cl.boundaries| + |cl.foldovers|
  {
    var failed := FailedAssert(v, f, tc, ft, target);
    if failed.Some? {
      return Err(BadInput(failed.value));
    }
    assert IsTriangleList(f.rows);
    var collected := CollectSeamVertices(f.rows, cl);
    if collected.Err? {
      return Err(SidesDisagree(collected.error));
    }
    var data := collected.value;
    var edgeCount := CountSeamEdgeNum(data.edges);
    SeamEdgeCountIsRowCount(f.rows, cl);
    return Ok(SeamReport(data, |data.vertices|, edgeCount));
  }
}

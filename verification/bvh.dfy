/** The front half of buildBVH: grouping the global index array into
    triangle primitives and computing the build record (bounding box and
    primitive id) of each one. The tree build and its stackless
    linearisation are done by external builders and are not modelled. */
module Bvh {
  import opened Base
  import opened Scene

  datatype Aabb = Aabb(lower: Float3, upper: Float3)

  /** RTCBuildPrimitive: a box, geomID and primID. */
  datatype BuildPrimitive = BuildPrimitive(bounds: Aabb, geomID: nat, primID: nat)

  /** What buildBVH hands to the tree builder, with the scene it leaves behind. */
  datatype BvhInput = BvhInput(scene: SceneState, buildPrimitives: seq<BuildPrimitive>)

  /** glm::min and glm::max on one coordinate. */
  function Min(a: real, b: real): real {
    if b < a then b else a
  }

  function Max(a: real, b: real): real {
    if a < b then b else a
  }

  function MinCorner(a: Float3, b: Float3): Float3 {
    Float3(Min(a.x, b.x), Min(a.y, b.y), Min(a.z, b.z))
  }

  function MaxCorner(a: Float3, b: Float3): Float3 {
    Float3(Max(a.x, b.x), Max(a.y, b.y), Max(a.z, b.z))
  }

  predicate Contains(box: Aabb, p: Float3) {
    && box.lower.x <= p.x <= box.upper.x
    && box.lower.y <= p.y <= box.upper.y
    && box.lower.z <= p.z <= box.upper.z
  }

  /** Box b encloses box c. */
  predicate Encloses(b: Aabb, c: Aabb) {
    && b.lower.x <= c.lower.x && b.lower.y <= c.lower.y && b.lower.z <= c.lower.z
    && c.upper.x <= b.upper.x && c.upper.y <= b.upper.y && c.upper.z <= b.upper.z
  }

  predicate FinitePoint(p: Float3) {
    Finite(p.x) && Finite(p.y) && Finite(p.z)
  }

  /** The box of one triangle: min and max folded over its three vertices,
      starting from FLT_MAX and -FLT_MAX. */
  function TriangleBounds(p0: Float3, p1: Float3, p2: Float3): (box: Aabb)
    ensures Contains(box, p0) && Contains(box, p1) && Contains(box, p2)
  {
    var lower := MinCorner(MinCorner(MinCorner(Float3(FltMax, FltMax, FltMax), p0), p1), p2);
    var upper := MaxCorner(MaxCorner(MaxCorner(Float3(-FltMax, -FltMax, -FltMax), p0), p1), p2);
    Aabb(lower, upper)
  }

  /** For finite vertices the box is the smallest one containing them. */
  lemma TriangleBoundsSmallest(p0: Float3, p1: Float3, p2: Float3, b: Aabb)
    requires FinitePoint(p0) && FinitePoint(p1) && FinitePoint(p2)
    requires Contains(b, p0) && Contains(b, p1) && Contains(b, p2)
    ensures Encloses(b, TriangleBounds(p0, p1, p2))
  {
  }

  /** The first loop of buildBVH: indices taken three at a time. */
  method GroupTriangles(indices: seq<U32>) returns (prims: seq<TrianglePrimitive>)
    requires |indices| % 3 == 0
    ensures 3 * |prims| == |indices|
    ensures forall k :: 0 <= k < |prims| ==>
              prims[k] == TrianglePrimitive(indices[3 * k], indices[3 * k + 1], indices[3 * k + 2])
  {
    prims := [];
    var i := 0;
    while i < |indices|
      invariant 0 <= i <= |indices|
      invariant 3 * |prims| == i
      invariant forall k :: 0 <= k < |prims| ==>
                  prims[k] == TrianglePrimitive(indices[3 * k], indices[3 * k + 1], indices[3 * k + 2])
    {
      prims := prims + [TrianglePrimitive(indices[i], indices[i + 1], indices[i + 2])];
      i := i + 3;
    }
  }

  /** The second loop of buildBVH: one build record per primitive, whose box
      contains the primitive's three points and whose primID is its position. */
  method PrimitiveBounds(points: seq<Float3>, prims: seq<TrianglePrimitive>) returns (build: seq<BuildPrimitive>)
    requires forall k :: 0 <= k < |prims| ==>
               prims[k].i0 < |points| && prims[k].i1 < |points| && prims[k].i2 < |points|
    ensures |build| == |prims|
    ensures forall k :: 0 <= k < |prims| ==>
              && build[k].primID == k && build[k].geomID == 0
              && build[k].bounds == TriangleBounds(points[prims[k].i0], points[prims[k].i1], points[prims[k].i2])
    ensures forall k :: 0 <= k < |prims| ==>
              && Contains(build[k].bounds, points[prims[k].i0])
              && Contains(build[k].bounds, points[prims[k].i1])
              && Contains(build[k].bounds, points[prims[k].i2])
  {
    build := [];
    var i := 0;
    while i < |prims|
      invariant 0 <= i <= |prims|
      invariant |build| == i
      invariant forall k :: 0 <= k < i ==>
                  && build[k].primID == k && build[k].geomID == 0
                  && build[k].bounds == TriangleBounds(points[prims[k].i0], points[prims[k].i1], points[prims[k].i2])
    {
      var p := prims[i];
      var box := TriangleBounds(points[p.i0], points[p.i1], points[p.i2]);
      build := build + [BuildPrimitive(box, 0, i)];
      i := i + 1;
    }
  }

  /** buildBVH up to the hand-off to the tree builder. An index count that
      is not a multiple of 3 is an assertion failure. The new primitives are
      appended to those the scene already holds, and build records are made
      for all of them. */
  method BuildBVH(s: SceneState) returns (r: Result<BvhInput>)
    requires GeometryInRange(s)
    ensures r.Failure? <==> |s.indices| % 3 != 0
    ensures r.Failure? ==> r.error == NotTriangles
    ensures r.Success? ==>
              var t := r.value.scene;
              && t.(primitives := s.primitives) == s
              && 3 * (|t.primitives| - |s.primitives|) == |s.indices|
              && t.primitives[..|s.primitives|] == s.primitives
              && (forall k :: 0 <= k < |s.indices| / 3 ==>
                    t.primitives[|s.primitives| + k]
                      == TrianglePrimitive(s.indices[3 * k], s.indices[3 * k + 1], s.indices[3 * k + 2]))
              && GeometryInRange(t)
    ensures r.Success? ==>
              var t := r.value.scene;
              var build := r.value.buildPrimitives;
              && |build| == |t.primitives|
              && forall k :: 0 <= k < |build| ==>
                   && build[k].primID == k
                   && Contains(build[k].bounds, t.points[t.primitives[k].i0])
                   && Contains(build[k].bounds, t.points[t.primitives[k].i1])
                   && Contains(build[k].bounds, t.points[t.primitives[k].i2])
  {
    if |s.indices| % 3 != 0 {
      return Failure(NotTriangles);
    }
    var added := GroupTriangles(s.indices);
    var all := s.primitives + added;
    forall k | 0 <= k < |all|
      ensures PrimitiveBelow(all[k], |s.points|)
    {
      if k >= |s.primitives| {
        var j := k - |s.primitives|;
        assert all[k] == added[j];
        assert s.indices[3 * j] < |s.points| && s.indices[3 * j + 1] < |s.points| && s.indices[3 * j + 2] < |s.points|;
      }
    }
    var build := PrimitiveBounds(s.points, all);
    var t := s.(primitives := all);
    assert t.primitives[..|s.primitives|] == s.primitives;
    return Success(BvhInput(t, build));
  }
}

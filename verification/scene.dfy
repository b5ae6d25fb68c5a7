/** SceneManager's state and the two operations that feed it: addPolymesh,
    which merges one triangle mesh into the global point and index arrays
    and resolves its materials, and addPoint, which picks up an env-map
    directive. */
module Scene {
  import opened Base
  import opened Attributes
  import opened Materials
  import opened MaterialBinding
  import opened Envmap

  /** TrianglePrimitive: the three point indices of one triangle. */
  datatype TrianglePrimitive = TrianglePrimitive(i0: U32, i1: U32, i2: U32)

  /** A PolygonMeshObject as the importer delivers it: the combined
      local-to-world transform, local points P, per-face vertex counts, the
      flat index array and the per-primitive attribute table. */
  datatype PolygonMesh = PolygonMesh(
    toWorld: Float3 -> Float3,
    points: seq<Float3>,
    faceCounts: seq<int>,
    indices: seq<U32>,
    primitives: AttributeTable)

  datatype SceneState = SceneState(
    points: seq<Float3>,
    indices: seq<U32>,
    primitives: seq<TrianglePrimitive>,
    storage: MaterialStorage,
    envmap: Option<Envmap>)

  const EmptyScene := SceneState([], [], [], EmptyStorage, None)

  /** The state the SceneManager constructor starts from is consistent. */
  lemma EmptySceneConsistent()
    ensures Consistent(EmptyScene)
  {
  }

  predicate AllBelow(xs: seq<U32>, bound: int) {
    forall k :: 0 <= k < |xs| ==> xs[k] < bound
  }

  predicate PrimitiveBelow(p: TrianglePrimitive, bound: int) {
    p.i0 < bound && p.i1 < bound && p.i2 < bound
  }

  /** Every index and every primitive addresses an existing point. */
  predicate GeometryInRange(s: SceneState) {
    && AllBelow(s.indices, |s.points|)
    && (forall k :: 0 <= k < |s.primitives| ==> PrimitiveBelow(s.primitives[k], |s.points|))
  }

  /** What the scene manager relies on between operations: the geometry is
      in range, the material records are valid, there is one record per
      triangle, and a built envmap has six axis tables. */
  predicate Consistent(s: SceneState) {
    && GeometryInRange(s)
    && Valid(s.storage)
    && |s.indices| == 3 * |s.storage.materials|
    && (s.envmap.Some? ==> |s.envmap.value.sixAxis| == 6)
  }

  predicate IsTriangleMesh(m: PolygonMesh) {
    forall k :: 0 <= k < |m.faceCounts| ==> m.faceCounts[k] == 3
  }

  function FaceCountSum(counts: seq<int>): int {
    if counts == [] then 0 else counts[0] + FaceCountSum(counts[1..])
  }

  /** A mesh as the importer guarantees it: the index array lists each
      face's vertices, the primitive table has one row per face, and every
      index addresses a local point. */
  predicate WellFormedMesh(m: PolygonMesh) {
    && WellFormed(m.primitives)
    && m.primitives.rowCount == |m.faceCounts|
    && |m.indices| == FaceCountSum(m.faceCounts)
    && AllBelow(m.indices, |m.points|)
  }

  /** base_index + index for every source index, in uint32_t arithmetic. */
  function OffsetIndices(src: seq<U32>, base: U32): (r: seq<U32>)
    ensures |r| == |src|
    ensures forall k :: 0 <= k < |src| ==> r[k] == (base + src[k]) % UInt32Modulus
    ensures forall k :: 0 <= k < |src| && base + src[k] < UInt32Modulus ==> r[k] == base + src[k]
  {
    seq(|src|, k requires 0 <= k < |src| => WrapU32(base + src[k]))
  }

  /** The points carried into world space by the mesh's transform. */
  function Transform(f: Float3 -> Float3, ps: seq<Float3>): (r: seq<Float3>)
    ensures |r| == |ps|
    ensures forall k :: 0 <= k < |ps| ==> r[k] == f(ps[k])
  {
    seq(|ps|, k requires 0 <= k < |ps| => f(ps[k]))
  }

  /** addPolymesh: a mesh with any non-triangular face is skipped and the
      scene is unchanged; otherwise the offset indices and the transformed
      points are appended, every global index is checked against the point
      count, and the mesh's materials are appended. */
  function AddPolymesh(s: SceneState, m: PolygonMesh, reg: Registry): (r: Result<SceneState>)
    requires WellFormed(m.primitives)
    ensures !IsTriangleMesh(m) ==> r == Success(s)
    ensures IsTriangleMesh(m) && r.Success? ==>
              && r.value.indices == s.indices + OffsetIndices(m.indices, WrapU32(|s.points|))
              && r.value.points == s.points + Transform(m.toWorld, m.points)
              && AllBelow(r.value.indices, |r.value.points|)
              && r.value.primitives == s.primitives
              && r.value.envmap == s.envmap
    ensures IsTriangleMesh(m) ==>
              (r.Success? <==>
                 && AllBelow(s.indices + OffsetIndices(m.indices, WrapU32(|s.points|)),
                             |s.points| + |m.points|)
                 && AddMaterials(s.storage, reg, m.primitives, |m.indices|).Success?)
    ensures IsTriangleMesh(m) && r.Success? ==>
              r.value.storage == AddMaterials(s.storage, reg, m.primitives, |m.indices|).value
    ensures IsTriangleMesh(m) && r.Failure? && !AllBelow(s.indices + OffsetIndices(m.indices, WrapU32(|s.points|)),
                                                          |s.points| + |m.points|) ==>
              r.error == IndexOutOfRange
  {
    if !IsTriangleMesh(m) then Success(s)
    else
      var indices := s.indices + OffsetIndices(m.indices, WrapU32(|s.points|));
      var points := s.points + Transform(m.toWorld, m.points);
      if !AllBelow(indices, |points|) then Failure(IndexOutOfRange)
      else
        var storage :- AddMaterials(s.storage, reg, m.primitives, |m.indices|);
        Success(s.(points := points, indices := indices, storage := storage))
  }

  lemma {:induction false} TriangleFaceCountSum(counts: seq<int>)
    requires forall k :: 0 <= k < |counts| ==> counts[k] == 3
    ensures FaceCountSum(counts) == 3 * |counts|
  {
    if counts != [] {
      TriangleFaceCountSum(counts[1..]);
    }
  }

  /** Merging a well-formed triangle mesh whose points still fit the
      uint32_t index range: the index check cannot fire, so the merge fails
      only if its materials do; on success every new index is the source
      index plus the old point count, earlier points and indices are kept,
      and the scene stays consistent (one record per triangle included). */
  lemma AddPolymeshMerges(s: SceneState, m: PolygonMesh, reg: Registry)
    requires Consistent(s) && WellFormedMesh(m) && IsTriangleMesh(m)
    requires |s.points| + |m.points| <= UInt32Modulus
    ensures AddPolymesh(s, m, reg).Success? <==> AddMaterials(s.storage, reg, m.primitives, |m.indices|).Success?
    ensures RegistryWellFormed(reg) ==> AddPolymesh(s, m, reg).Success?
    ensures AddPolymesh(s, m, reg).Success? ==>
              var r := AddPolymesh(s, m, reg).value;
              && Consistent(r)
              && |r.points| == |s.points| + |m.points|
              && r.points[..|s.points|] == s.points
              && |r.indices| == |s.indices| + |m.indices|
              && r.indices[..|s.indices|] == s.indices
              && (forall k :: 0 <= k < |m.indices| ==> r.indices[|s.indices| + k] == m.indices[k] + |s.points|)
  {
    var base := WrapU32(|s.points|);
    var added := OffsetIndices(m.indices, base);
    var indices := s.indices + added;
    var points := s.points + Transform(m.toWorld, m.points);
    forall k | 0 <= k < |m.indices|
      ensures added[k] == m.indices[k] + |s.points| && added[k] < |points|
    {
      assert m.indices[k] < |m.points|;
    }
    assert AllBelow(indices, |points|) by {
      forall k | 0 <= k < |indices|
        ensures indices[k] < |points|
      {
        if k >= |s.indices| {
          assert indices[k] == added[k - |s.indices|];
        }
      }
    }
    TriangleFaceCountSum(m.faceCounts);
    if RegistryWellFormed(reg) {
      AddMaterialsSucceeds(s.storage, reg, m.primitives, |m.indices|);
    }
    var mat := AddMaterials(s.storage, reg, m.primitives, |m.indices|);
    if mat.Success? {
      if ColumnAsString(m.primitives, "material").Some? {
        MaterialColumnResolvesRows(s.storage, reg, m.primitives, |m.indices|);
      } else {
        FallbackWithoutMaterialColumn(s.storage, reg, m.primitives, |m.indices|);
      }
      var r := AddPolymesh(s, m, reg).value;
      assert r.points[..|s.points|] == s.points;
      assert r.indices[..|s.indices|] == s.indices;
      assert forall k :: 0 <= k < |s.primitives| ==> PrimitiveBelow(s.primitives[k], |r.points|);
    }
  }

  /** With 2^32 points already merged, base_index wraps to 0: a one-triangle
      mesh with indices [0, 1, 2] passes the index check and merges, but its
      new indices name the first three old points instead of its own. */
  lemma WrappedOffsetPassesCheck(s: SceneState, f: Float3 -> Float3, p: Float3, reg: Registry)
    requires |s.points| == UInt32Modulus && AllBelow(s.indices, |s.points|)
    ensures var m := PolygonMesh(f, [p, p, p], [3], [0, 1, 2], AttributeTable(1, map[]));
            && AddPolymesh(s, m, reg).Success?
            && AddPolymesh(s, m, reg).value.indices == s.indices + [0, 1, 2]
            && |AddPolymesh(s, m, reg).value.points| == UInt32Modulus + 3
  {
    var m := PolygonMesh(f, [p, p, p], [3], [0, 1, 2], AttributeTable(1, map[]));
    var added := OffsetIndices(m.indices, WrapU32(|s.points|));
    assert WrapU32(|s.points|) == 0;
    assert added == [0, 1, 2];
    var indices := s.indices + added;
    assert AllBelow(indices, |s.points| + 3) by {
      forall k | 0 <= k < |indices|
        ensures indices[k] < |s.points| + 3
      {
        if k >= |s.indices| {
          assert indices[k] == added[k - |s.indices|];
        }
      }
    }
    assert ColumnAsString(m.primitives, "material").None?;
  }

  /** The row loop of addPoint from point i on: every directive point
      rebuilds the envmap, so a later one replaces an earlier one. */
  function AddPointRows(s: SceneState, pts: AttributeTable, types: seq<string>, b: EnvmapBuilder, i: nat): (r: SceneState)
    requires WellFormed(pts) && |types| == pts.rowCount && i <= pts.rowCount
    ensures r.(envmap := s.envmap) == s
    ensures r.envmap == s.envmap || (r.envmap.Some? && |r.envmap.value.sixAxis| == 6)
    decreases pts.rowCount - i
  {
    if i == pts.rowCount then s
    else match RowDirective(pts, types, i)
      case Some(d) => AddPointRows(s.(envmap := Some(Build(b, d))), pts, types, b, i + 1)
      case None => AddPointRows(s, pts, types, b, i + 1)
  }

  /** addPoint: without a string column "point_type" nothing happens. */
  function AddPoint(s: SceneState, pts: AttributeTable, b: EnvmapBuilder): (r: SceneState)
    requires WellFormed(pts)
    ensures r.(envmap := s.envmap) == s
    ensures r.envmap == s.envmap || (r.envmap.Some? && |r.envmap.value.sixAxis| == 6)
  {
    match ColumnAsString(pts, "point_type")
    case None => s
    case Some(types) => AddPointRows(s, pts, types, b, 0)
  }

  /** The directive of the last directive point at or after `from`, if any. */
  predicate IsLastDirective(pts: AttributeTable, types: seq<string>, from: nat, j: nat)
    requires WellFormed(pts) && |types| == pts.rowCount
  {
    && from <= j < pts.rowCount
    && RowDirective(pts, types, j).Some?
    && forall j' :: j < j' < pts.rowCount ==> RowDirective(pts, types, j').None?
  }

  predicate NoDirective(pts: AttributeTable, types: seq<string>, from: nat)
    requires WellFormed(pts) && |types| == pts.rowCount
  {
    forall j :: from <= j < pts.rowCount ==> RowDirective(pts, types, j).None?
  }

  /** From point i on, the row loop leaves the scene alone when no directive
      point remains, and otherwise keeps only the envmap of the last one. */
  lemma {:induction false} AddPointRowsMeaning(s: SceneState, pts: AttributeTable, types: seq<string>, b: EnvmapBuilder, i: nat)
    requires WellFormed(pts) && |types| == pts.rowCount && i <= pts.rowCount
    ensures NoDirective(pts, types, i) ==> AddPointRows(s, pts, types, b, i) == s
    ensures forall j :: IsLastDirective(pts, types, i, j) ==>
              AddPointRows(s, pts, types, b, i) == s.(envmap := Some(Build(b, RowDirective(pts, types, j).value)))
    decreases pts.rowCount - i
  {
    if i < pts.rowCount {
      var d := RowDirective(pts, types, i);
      var s1 := if d.Some? then s.(envmap := Some(Build(b, d.value))) else s;
      AddPointRowsMeaning(s1, pts, types, b, i + 1);
      forall j | IsLastDirective(pts, types, i, j)
        ensures AddPointRows(s, pts, types, b, i) == s.(envmap := Some(Build(b, RowDirective(pts, types, j).value)))
      {
        if j == i {
          assert NoDirective(pts, types, i + 1);
        } else {
          assert IsLastDirective(pts, types, i + 1, j);
        }
      }
    }
  }

  /** addPoint keeps the envmap built from the last "ImageEnvmap" point
      with a non-empty file name; without one, the scene is unchanged.
      Nothing but the envmap changes, and consistency is kept. */
  lemma AddPointSelectsLastDirective(s: SceneState, pts: AttributeTable, b: EnvmapBuilder)
    requires WellFormed(pts)
    ensures ColumnAsString(pts, "point_type").None? ==> AddPoint(s, pts, b) == s
    ensures ColumnAsString(pts, "point_type").Some? ==>
              var types := ColumnAsString(pts, "point_type").value;
              && (NoDirective(pts, types, 0) ==> AddPoint(s, pts, b) == s)
              && (forall j :: IsLastDirective(pts, types, 0, j) ==>
                    AddPoint(s, pts, b) == s.(envmap := Some(Build(b, RowDirective(pts, types, j).value))))
    ensures Consistent(s) ==> Consistent(AddPoint(s, pts, b))
  {
    if ColumnAsString(pts, "point_type").Some? {
      var types := ColumnAsString(pts, "point_type").value;
      AddPointRowsMeaning(s, pts, types, b, 0);
      if !NoDirective(pts, types, 0) {
        var j := LastDirective(pts, types, 0);
      }
    }
  }

  /** A row is the last directive point, found by searching from the end. */
  lemma LastDirective(pts: AttributeTable, types: seq<string>, from: nat) returns (j: nat)
    requires WellFormed(pts) && |types| == pts.rowCount && !NoDirective(pts, types, from)
    ensures IsLastDirective(pts, types, from, j)
  {
    var w :| from <= w < pts.rowCount && RowDirective(pts, types, w).Some?;
    j := pts.rowCount - 1;
    while RowDirective(pts, types, j).None?
      invariant w <= j < pts.rowCount
      invariant forall j' :: j < j' < pts.rowCount ==> RowDirective(pts, types, j').None?
      decreases j
    {
      j := j - 1;
    }
  }
}

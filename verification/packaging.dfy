/** The device-buffer packaging of the scene manager: every buffer is
    modelled as the sequence of elements it would hold; creating the OpenCL
    objects is not part of this model. */
module Packaging {
  import opened Base
  import opened Materials
  import opened Envmap
  import opened Scene

  /** createBufferSafe: the first `size` elements of data, or one placeholder
      (a default-constructed element) when size is 0, because zero-length
      device buffers are not allowed. */
  function CreateBufferSafe<T>(data: seq<T>, size: U32, placeholder: T): (buffer: seq<T>)
    requires size <= |data|
    ensures |buffer| == if size == 0 then 1 else size
    ensures forall k :: 0 <= k < size ==> buffer[k] == data[k]
    ensures size == 0 ==> buffer[0] == placeholder
  {
    if size == 0 then [placeholder] else data[..size]
  }

  /** The default-constructed element of each buffer type (`T one;`). */
  datatype Placeholders = Placeholders(
    material: Material,
    lambertian: Payload,
    specular: Payload,
    dielectric: Payload,
    ward: Payload)

  /** MaterialBuffer: the five material arrays as the device sees them. */
  datatype MaterialBuffer = MaterialBuffer(
    materials: seq<Material>,
    lambertians: seq<Payload>,
    speculars: seq<Payload>,
    dielectrics: seq<Payload>,
    wards: seq<Payload>)

  function BufferTyped(b: MaterialBuffer, t: MaterialType): seq<Payload> {
    match t
    case Lambertian => b.lambertians
    case Specular => b.speculars
    case Dielectric => b.dielectrics
    case Ward => b.wards
  }

  /** The element count a size_t holds after conversion to uint32_t. */
  function SizeU32(n: nat): (r: U32)
    ensures r == n % UInt32Modulus
    ensures r <= n
    ensures n < UInt32Modulus ==> r == n
  {
    WrapU32(n)
  }

  /** createMaterialBuffer: each storage array packed with createBufferSafe. */
  function CreateMaterialBuffer(s: MaterialStorage, ph: Placeholders): (b: MaterialBuffer)
    ensures |b.materials| == if SizeU32(|s.materials|) == 0 then 1 else SizeU32(|s.materials|)
    ensures forall t :: |BufferTyped(b, t)| == if SizeU32(|Typed(s, t)|) == 0 then 1 else SizeU32(|Typed(s, t)|)
    ensures forall k :: 0 <= k < SizeU32(|s.materials|) ==> b.materials[k] == s.materials[k]
    ensures forall t, k :: 0 <= k < SizeU32(|Typed(s, t)|) ==> BufferTyped(b, t)[k] == Typed(s, t)[k]
  {
    MaterialBuffer(
      CreateBufferSafe(s.materials, SizeU32(|s.materials|), ph.material),
      CreateBufferSafe(s.lambertians, SizeU32(|s.lambertians|), ph.lambertian),
      CreateBufferSafe(s.speculars, SizeU32(|s.speculars|), ph.specular),
      CreateBufferSafe(s.dielectrics, SizeU32(|s.dielectrics|), ph.dielectric),
      CreateBufferSafe(s.wards, SizeU32(|s.wards|), ph.ward))
  }

  /** Arrays that fit a uint32_t element count. */
  predicate SizesFit(s: MaterialStorage) {
    && |s.materials| < UInt32Modulus
    && |s.lambertians| < UInt32Modulus && |s.speculars| < UInt32Modulus
    && |s.dielectrics| < UInt32Modulus && |s.wards| < UInt32Modulus
  }

  /** The packed material buffers dispatch as the storage does: every
      buffer is non-empty, the record buffer starts with the storage's
      records, every record indexes a real (non-placeholder) element of its
      variant's buffer and finds there the payload the storage holds, and
      an empty typed array becomes exactly one placeholder. */
  lemma MaterialBufferDispatches(s: MaterialStorage, ph: Placeholders)
    requires Valid(s) && SizesFit(s)
    ensures var b := CreateMaterialBuffer(s, ph);
            && |b.materials| == (if |s.materials| == 0 then 1 else |s.materials|)
            && (forall t :: |BufferTyped(b, t)| == (if |Typed(s, t)| == 0 then 1 else |Typed(s, t)|))
            && (forall t :: |Typed(s, t)| == 0 ==> BufferTyped(b, t) == [PlaceholderOf(ph, t)])
            && (forall t :: |Typed(s, t)| > 0 ==> BufferTyped(b, t) == Typed(s, t))
            && forall k :: 0 <= k < |s.materials| ==>
                 && b.materials[k] == s.materials[k]
                 && s.materials[k].index < |BufferTyped(b, s.materials[k].tag)|
                 && Descriptor(s.materials[k].tag, BufferTyped(b, s.materials[k].tag)[s.materials[k].index])
                    == Resolved(s)[k]
  {
    var b := CreateMaterialBuffer(s, ph);
    forall t
      ensures BufferTyped(b, t) == CreateBufferSafe(Typed(s, t), SizeU32(|Typed(s, t)|), PlaceholderOf(ph, t))
    {
    }
    forall t | |Typed(s, t)| > 0
      ensures BufferTyped(b, t) == Typed(s, t)
    {
      assert Typed(s, t)[..|Typed(s, t)|] == Typed(s, t);
    }
  }

  function PlaceholderOf(ph: Placeholders, t: MaterialType): Payload {
    match t
    case Lambertian => ph.lambertian
    case Specular => ph.specular
    case Dielectric => ph.dielectric
    case Ward => ph.ward
  }

  /** EnvmapBuffer without the image object: the image, the uniform tables
      and the six axis tables concatenated, each as the sequence it holds. */
  datatype EnvmapBundle = EnvmapBundle(
    image: Image,
    pdfs: seq<real>,
    fragments: seq<Fragment>,
    aliasBuckets: seq<AliasBucket>,
    sixAxisPdfN: seq<real>,
    sixAxisAliasBucketN: seq<AliasBucket>)

  /** The table sizes createEnvmapBuffer reads: six axis tables, and every
      fragment and bucket array at least as long as the uniform pdf. */
  predicate Packable(e: Envmap) {
    var n := |e.uniform.pdf|;
    && |e.sixAxis| == 6
    && n <= |e.uniform.fragments| && n <= |e.uniform.buckets|
    && forall a :: 0 <= a < 6 ==> n <= |e.sixAxis[a].pdf| && n <= |e.sixAxis[a].buckets|
  }

  /** The position of element i of axis a in a six-axis array: nPixels * axis + i. */
  function Slot(n: nat, a: nat, i: nat): (j: nat)
    requires a < 6 && i < n
    ensures j < 6 * n
  {
    MultiplyMonotone(n, a, 5);
    n * a + i
  }

  lemma {:induction false} MultiplyMonotone(n: nat, x: nat, y: nat)
    requires x <= y
    ensures n * x <= n * y
    decreases y - x
  {
    if x < y {
      MultiplyMonotone(n, x, y - 1);
      assert n * y == n * (y - 1) + n;
    }
  }

  /** The six-axis layout as a reference: the first n entries of each axis
      table, one axis after the other in cube-section order. */
  function SixAxisConcat<T>(tables: seq<seq<T>>, n: nat): (c: seq<T>)
    requires |tables| == 6
    requires forall a :: 0 <= a < 6 ==> n <= |tables[a]|
  {
    tables[0][..n] + tables[1][..n] + tables[2][..n] + tables[3][..n] + tables[4][..n] + tables[5][..n]
  }

  /** An array of 6 * n elements with element i of axis a at n * a + i is
      exactly the six-axis concatenation: no default element is left over. */
  lemma SlotsFillConcat<T>(tables: seq<seq<T>>, n: nat, packed: seq<T>)
    requires |tables| == 6
    requires forall a :: 0 <= a < 6 ==> n <= |tables[a]|
    requires |packed| == 6 * n
    requires forall a, i :: 0 <= a < 6 && 0 <= i < n ==> packed[Slot(n, a, i)] == tables[a][i]
    ensures packed == SixAxisConcat(tables, n)
  {
    var c := SixAxisConcat(tables, n);
    forall j | 0 <= j < 6 * n
      ensures packed[j] == c[j]
    {
      if j < n {
        assert Slot(n, 0, j) == j;
      } else if j < 2 * n {
        assert Slot(n, 1, j - n) == j;
      } else if j < 3 * n {
        assert Slot(n, 2, j - 2 * n) == j;
      } else if j < 4 * n {
        assert Slot(n, 3, j - 3 * n) == j;
      } else if j < 5 * n {
        assert Slot(n, 4, j - 4 * n) == j;
      } else {
        assert Slot(n, 5, j - 5 * n) == j;
      }
    }
  }

  /** Elements of an earlier axis sit before the start of a later one. */
  lemma SlotBefore(n: nat, a: nat, i: nat, b: nat)
    requires a < b < 6 && i < n
    ensures Slot(n, a, i) < n * b
  {
    MultiplyMonotone(n, a + 1, b);
  }

  /** The six-axis loop of createEnvmapBuffer for one kind of table: an array
      of 6 * n default elements in which element i of axis a is written at
      n * a + i. */
  method PackSixAxis<T>(n: nat, tables: seq<seq<T>>, zero: T) returns (packed: seq<T>)
    requires |tables| == 6
    requires forall a :: 0 <= a < 6 ==> n <= |tables[a]|
    ensures |packed| == 6 * n
    ensures forall a, i :: 0 <= a < 6 && 0 <= i < n ==> packed[Slot(n, a, i)] == tables[a][i]
    ensures packed == SixAxisConcat(tables, n)
  {
    packed := seq(6 * n, _ => zero);
    var axis := 0;
    while axis < 6
      invariant 0 <= axis <= 6
      invariant |packed| == 6 * n
      invariant forall a, i :: 0 <= a < axis && 0 <= i < n ==> packed[Slot(n, a, i)] == tables[a][i]
    {
      var base := n * axis;
      var i := 0;
      while i < n
        invariant 0 <= i <= n
        invariant |packed| == 6 * n
        invariant forall a, k :: 0 <= a < axis && 0 <= k < n ==> packed[Slot(n, a, k)] == tables[a][k]
        invariant forall k :: 0 <= k < i ==> packed[Slot(n, axis, k)] == tables[axis][k]
      {
        assert Slot(n, axis, i) == base + i;
        forall a, k | 0 <= a < axis && 0 <= k < n
          ensures Slot(n, a, k) < base + i
        {
          SlotBefore(n, a, k, axis);
        }
        packed := packed[base + i := tables[axis][i]];
        i := i + 1;
      }
      axis := axis + 1;
    }
    SlotsFillConcat(tables, n, packed);
  }

  /** createEnvmapBuffer: fails when no envmap was built; otherwise copies
      the first nPixels entries of each uniform table, nPixels being the
      uniform pdf's length, and packs the six axis tables. */
  method CreateEnvmapBuffer(s: SceneState) returns (r: Result<EnvmapBundle>)
    requires s.envmap.Some? ==> Packable(s.envmap.value)
    ensures r.Failure? <==> s.envmap.None?
    ensures r.Failure? ==> r.error == NoEnvmap
    ensures r.Success? ==>
              var e := s.envmap.value;
              var n := |e.uniform.pdf|;
              && r.value.image == e.image
              && r.value.pdfs == e.uniform.pdf
              && r.value.fragments == e.uniform.fragments[..n]
              && r.value.aliasBuckets == e.uniform.buckets[..n]
              && |r.value.sixAxisPdfN| == 6 * n
              && |r.value.sixAxisAliasBucketN| == 6 * n
              && (forall a, i :: 0 <= a < 6 && 0 <= i < n ==>
                    && r.value.sixAxisPdfN[Slot(n, a, i)] == e.sixAxis[a].pdf[i]
                    && r.value.sixAxisAliasBucketN[Slot(n, a, i)] == e.sixAxis[a].buckets[i])
              && r.value.sixAxisPdfN == SixAxisConcat(seq(6, a requires 0 <= a < 6 => e.sixAxis[a].pdf), n)
              && r.value.sixAxisAliasBucketN == SixAxisConcat(seq(6, a requires 0 <= a < 6 => e.sixAxis[a].buckets), n)
  {
    if s.envmap.None? {
      return Failure(NoEnvmap);
    }
    var e := s.envmap.value;
    var n := |e.uniform.pdf|;
    var pdfN := PackSixAxis(n, seq(6, a requires 0 <= a < 6 => e.sixAxis[a].pdf), 0.0);
    var bucketN := PackSixAxis(n, seq(6, a requires 0 <= a < 6 => e.sixAxis[a].buckets), DefaultBucket);
    return Success(EnvmapBundle(e.image, e.uniform.pdf, e.uniform.fragments[..n], e.uniform.buckets[..n], pdfN, bucketN));
  }
}

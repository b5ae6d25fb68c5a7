/** MaterialStorage: one typed array per material variant plus the parallel
    array of Material indirection records, one per triangle. A record names
    its variant and an index into that variant's array, so a shader reaches
    the payload without inspecting types. */
module Materials {
  import opened Base

  /** kMaterialType_Lambertian, _Specular, _Dierectric, _Ward */
  datatype MaterialType = Lambertian | Specular | Dielectric | Ward

  /** The value of one reflected material property: the three kinds the
      binder can set from a column, and bool standing for any other kind. */
  datatype Value =
    | Float3Value(v: Float3)
    | IntValue(i: int)
    | FloatValue(f: real)
    | BoolValue(b: bool)

  /** A material struct's contents, its property values in declaration order. */
  type Payload = seq<Value>

  /** A material of a known variant: what one of the four `add` overloads receives. */
  datatype Descriptor = Descriptor(variant: MaterialType, payload: Payload)

  /** The indirection record stored per triangle. */
  datatype Material = Material(tag: MaterialType, index: nat)

  /** The type of a created rttr instance: one of the material structs or anything else. */
  datatype TypeKind = OfMaterial(variant: MaterialType) | OfOtherType

  /** An rttr::variant holding a freshly created instance. */
  datatype Instance = Instance(kind: TypeKind, fields: seq<Value>)

  datatype MaterialStorage = MaterialStorage(
    materials: seq<Material>,
    lambertians: seq<Payload>,
    speculars: seq<Payload>,
    dielectrics: seq<Payload>,
    wards: seq<Payload>)

  const EmptyStorage := MaterialStorage([], [], [], [], [])

  /** The typed array that holds payloads of variant t. */
  function Typed(s: MaterialStorage, t: MaterialType): seq<Payload> {
    match t
    case Lambertian => s.lambertians
    case Specular => s.speculars
    case Dielectric => s.dielectrics
    case Ward => s.wards
  }

  /** Every record points into the typed array of its own variant. */
  predicate Valid(s: MaterialStorage) {
    forall k :: 0 <= k < |s.materials| ==> s.materials[k].index < |Typed(s, s.materials[k].tag)|
  }

  /** The material a record dispatches to. */
  function Lookup(s: MaterialStorage, m: Material): Descriptor
    requires m.index < |Typed(s, m.tag)|
  {
    Descriptor(m.tag, Typed(s, m.tag)[m.index])
  }

  /** The materials of all triangles, in triangle order, as seen through the records. */
  function Resolved(s: MaterialStorage): seq<Descriptor>
    requires Valid(s)
  {
    seq(|s.materials|, k requires 0 <= k < |s.materials| => Lookup(s, s.materials[k]))
  }

  /** add(const Lambertian&) and its three siblings. */
  function Add(s: MaterialStorage, d: Descriptor): (r: MaterialStorage)
    ensures r.materials == s.materials + [Material(d.variant, |Typed(s, d.variant)|)]
    ensures Typed(r, d.variant) == Typed(s, d.variant) + [d.payload]
    ensures forall t :: t != d.variant ==> Typed(r, t) == Typed(s, t)
    ensures Valid(s) ==> Valid(r) && Resolved(r) == Resolved(s) + [d]
  {
    var index := |Typed(s, d.variant)|;
    var r := match d.variant
      case Lambertian => s.(lambertians := s.lambertians + [d.payload])
      case Specular => s.(speculars := s.speculars + [d.payload])
      case Dielectric => s.(dielectrics := s.dielectrics + [d.payload])
      case Ward => s.(wards := s.wards + [d.payload]);
    var r := r.(materials := s.materials + [Material(d.variant, index)]);
    assert Valid(s) ==> Valid(r) && Resolved(r) == Resolved(s) + [d] by {
      if Valid(s) {
        forall k | 0 <= k < |s.materials|
          ensures Typed(r, s.materials[k].tag)[s.materials[k].index] == Typed(s, s.materials[k].tag)[s.materials[k].index]
        {
        }
      }
    }
    r
  }

  /** add_variant: dispatch on the instance's dynamic type; any other type is an assertion failure. */
  function AddVariant(s: MaterialStorage, inst: Instance): (r: Result<MaterialStorage>)
    ensures r.Failure? <==> inst.kind.OfOtherType?
    ensures r.Failure? ==> r.error == NotAMaterial
    ensures r.Success? ==> r.value == Add(s, Descriptor(inst.kind.variant, inst.fields))
  {
    match inst.kind
    case OfMaterial(t) => Success(Add(s, Descriptor(t, inst.fields)))
    case OfOtherType => Failure(NotAMaterial)
  }

  /** n successive `add` calls of the same material, as the fallback loop of add_materials does. */
  function AddCopies(s: MaterialStorage, d: Descriptor, n: nat): (r: MaterialStorage)
    ensures |r.materials| == |s.materials| + n
    ensures |Typed(r, d.variant)| == |Typed(s, d.variant)| + n
    ensures Valid(s) ==> Valid(r)
    decreases n
  {
    if n == 0 then s else AddCopies(Add(s, d), d, n - 1)
  }

  /** The n copies get n fresh, consecutive indices into d's typed array,
      and the other three typed arrays are untouched. */
  lemma AddCopiesAppends(s: MaterialStorage, d: Descriptor, n: nat)
    ensures AddCopies(s, d, n).materials
         == s.materials + seq(n, (k: nat) => Material(d.variant, |Typed(s, d.variant)| + k))
    ensures Typed(AddCopies(s, d, n), d.variant) == Typed(s, d.variant) + seq(n, k => d.payload)
    ensures forall t :: t != d.variant ==> Typed(AddCopies(s, d, n), t) == Typed(s, t)
  {
    AddCopiesRecords(s, d, n);
    AddCopiesTyped(s, d, n);
  }

  /** The records appended by n copies, one per call, with consecutive indices. */
  lemma {:induction false} AddCopiesRecords(s: MaterialStorage, d: Descriptor, n: nat)
    ensures AddCopies(s, d, n).materials
         == s.materials + seq(n, (k: nat) => Material(d.variant, |Typed(s, d.variant)| + k))
    decreases n
  {
    if n > 0 {
      var s1 := Add(s, d);
      AddCopiesRecords(s1, d, n - 1);
      assert |Typed(s1, d.variant)| == |Typed(s, d.variant)| + 1;
      assert seq(n, (k: nat) => Material(d.variant, |Typed(s, d.variant)| + k))
          == [Material(d.variant, |Typed(s, d.variant)|)]
           + seq(n - 1, (k: nat) => Material(d.variant, |Typed(s1, d.variant)| + k));
    } else {
      assert seq(n, (k: nat) => Material(d.variant, |Typed(s, d.variant)| + k)) == [];
    }
  }

  /** The typed arrays after n copies: d's grows by n payloads, the others stay. */
  lemma {:induction false} AddCopiesTyped(s: MaterialStorage, d: Descriptor, n: nat)
    ensures Typed(AddCopies(s, d, n), d.variant) == Typed(s, d.variant) + seq(n, k => d.payload)
    ensures forall t :: t != d.variant ==> Typed(AddCopies(s, d, n), t) == Typed(s, t)
    decreases n
  {
    if n > 0 {
      var s1 := Add(s, d);
      AddCopiesTyped(s1, d, n - 1);
      assert seq(n, k => d.payload) == [d.payload] + seq(n - 1, k => d.payload);
    } else {
      assert seq(n, k => d.payload) == [];
    }
  }

  /** Seen through the records, n adds of d append n copies of d. */
  lemma {:induction false} AddCopiesResolves(s: MaterialStorage, d: Descriptor, n: nat)
    requires Valid(s)
    ensures Resolved(AddCopies(s, d, n)) == Resolved(s) + seq(n, k => d)
    decreases n
  {
    if n > 0 {
      var s1 := Add(s, d);
      AddCopiesResolves(s1, d, n - 1);
      assert seq(n, k => d) == [d] + seq(n - 1, k => d);
    } else {
      assert seq(n, k => d) == [];
    }
  }
}

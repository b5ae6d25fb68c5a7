/** add_materials: one material per primitive of a mesh, resolved by name
    through a static schema table that stands in for rttr's reflection. */
module MaterialBinding {
  import opened Base
  import opened Attributes
  import opened Materials

  /** rt::GeoScope: where a property's source column lives. */
  datatype GeoScope = Vertices | Primitives

  /** A reflected property: its name (also the column it binds from), the
      value a default-constructed instance holds, and its GeoScope metadata,
      which may be missing. */
  datatype Property = Property(name: string, default: Value, scope: Option<GeoScope>)

  /** One registered type: what it is and its properties in declaration order. */
  datatype TypeInfo = TypeInfo(kind: TypeKind, properties: seq<Property>)

  /** The types `type::get_by_name` can find, by name. */
  type Registry = map<string, TypeInfo>

  /** A registry of material types only, every property of which carries a scope. */
  predicate RegistryWellFormed(reg: Registry) {
    forall name :: name in reg ==>
      reg[name].kind.OfMaterial? && !LacksScope(reg[name].properties)
  }

  predicate LacksScope(props: seq<Property>) {
    exists j :: 0 <= j < |props| && props[j].scope.None?
  }

  /** The placeholder given to triangles without a usable material:
      Lambertian(vec3(), vec3(0.9, 0.1, 0.9), false). */
  const FallbackMaterial: Descriptor :=
    Descriptor(Lambertian, [Float3Value(Float3(0.0, 0.0, 0.0)), Float3Value(Float3(0.9, 0.1, 0.9)), BoolValue(false)])

  function ValueKind(v: Value): Kind {
    match v
    case Float3Value(_) => Float3Kind
    case IntValue(_) => IntKind
    case FloatValue(_) => FloatKind
    case BoolValue(_) => BoolKind
  }

  /** The value row i of a non-string column holds, as a property value. */
  function Cell(c: Column, i: nat): (v: Value)
    requires ColumnKind(c) != StringKind && i < Length(c)
    ensures ValueKind(v) == ColumnKind(c)
  {
    match c
    case IntColumn(s) => IntValue(s[i])
    case FloatColumn(s) => FloatValue(s[i])
    case Vector3Column(s) => Float3Value(s[i])
  }

  /** A property takes its value from a column exactly when it is
      primitive-scoped and a column of its name holds values of its kind. */
  predicate Binds(p: Property, t: AttributeTable, current: Value) {
    && p.scope == Some(Primitives)
    && p.name in t.columns
    && ColumnKind(t.columns[p.name]) == ValueKind(current)
  }

  /** The value a property ends with after binding at row i. */
  function BoundValue(p: Property, t: AttributeTable, i: nat): Value
    requires WellFormed(t) && i < t.rowCount
  {
    if Binds(p, t, p.default) then Cell(t.columns[p.name], i) else p.default
  }

  /** The switch on GeoScope for one property at row i: a float3, int or
      float property is overwritten from the same-named column of its type;
      everything else keeps its current value. */
  function BindProperty(p: Property, t: AttributeTable, i: nat, current: Value): (r: Value)
    requires WellFormed(t) && i < t.rowCount
    ensures ValueKind(r) == ValueKind(current)
    ensures Binds(p, t, current) ==> r == Cell(t.columns[p.name], i)
    ensures !Binds(p, t, current) ==> r == current
  {
    match p.scope
    case Some(Primitives) =>
      (match current
       case Float3Value(_) =>
         (match ColumnAsVector3(t, p.name)
          case Some(v) => Float3Value(v[i])
          case None => current)
       case IntValue(_) =>
         (match ColumnAsInt(t, p.name)
          case Some(v) => IntValue(v[i])
          case None => current)
       case FloatValue(_) =>
         (match ColumnAsFloat(t, p.name)
          case Some(v) => FloatValue(v[i])
          case None => current)
       case BoolValue(_) => current)
    case _ => current
  }

  /** The property loop of add_materials over props, starting from a
      default instance: a property without scope metadata is an assertion
      failure, the others are bound in turn. */
  function BindProperties(props: seq<Property>, t: AttributeTable, i: nat): (r: Result<seq<Value>>)
    requires WellFormed(t) && i < t.rowCount
    ensures r.Failure? <==> LacksScope(props)
    ensures r.Failure? ==> r.error == MissingScope
    ensures r.Success? ==>
              |r.value| == |props| && forall j :: 0 <= j < |props| ==> r.value[j] == BoundValue(props[j], t, i)
    decreases |props|
  {
    if props == [] then Success([])
    else if props[0].scope.None? then Failure(MissingScope)
    else
      var rest := BindProperties(props[1..], t, i);
      assert LacksScope(props) <==> LacksScope(props[1..]) by {
        if LacksScope(props) {
          var j :| 0 <= j < |props| && props[j].scope.None?;
          assert props[1..][j - 1] == props[j];
        }
        if LacksScope(props[1..]) {
          var j :| 0 <= j < |props[1..]| && props[1..][j].scope.None?;
          assert props[j + 1] == props[1..][j];
        }
      }
      if rest.Failure? then rest
      else Success([BindProperty(props[0], t, i, props[0].default)] + rest.value)
  }

  /** t.create() followed by the property loop, for row i. */
  function CreateInstance(info: TypeInfo, t: AttributeTable, i: nat): (r: Result<Instance>)
    requires WellFormed(t) && i < t.rowCount
    ensures r.Failure? <==> LacksScope(info.properties)
    ensures r.Success? ==> r.value.kind == info.kind
    ensures r.Success? ==> |r.value.fields| == |info.properties|
    ensures r.Success? ==>
              forall j :: 0 <= j < |info.properties| ==> r.value.fields[j] == BoundValue(info.properties[j], t, i)
  {
    var fields :- BindProperties(info.properties, t, i);
    Success(Instance(info.kind, fields))
  }

  /** Whether the material named in a row stops the build: the name is
      registered, but a property lacks scope metadata or the type is no material. */
  predicate RowFails(reg: Registry, name: string) {
    name in reg && (LacksScope(reg[name].properties) || reg[name].kind.OfOtherType?)
  }

  /** The material a row that does not fail resolves to: the fallback for
      an unregistered name, otherwise a new instance of the named variant with
      every field bound as BoundValue says. */
  function RowDescriptor(reg: Registry, t: AttributeTable, name: string, i: nat): Descriptor
    requires WellFormed(t) && i < t.rowCount && !RowFails(reg, name)
  {
    if name !in reg then FallbackMaterial
    else
      var props := reg[name].properties;
      Descriptor(reg[name].kind.variant, seq(|props|, j requires 0 <= j < |props| => BoundValue(props[j], t, i)))
  }

  /** The row loop of add_materials, from row i on. */
  function AddRows(s: MaterialStorage, reg: Registry, t: AttributeTable, names: seq<string>, i: nat): (r: Result<MaterialStorage>)
    requires WellFormed(t) && |names| == t.rowCount && i <= t.rowCount
    ensures r.Success? ==> |r.value.materials| == |s.materials| + (t.rowCount - i)
    ensures r.Success? && Valid(s) ==> Valid(r.value)
    decreases t.rowCount - i
  {
    if i == t.rowCount then Success(s)
    else if names[i] !in reg then AddRows(Add(s, FallbackMaterial), reg, t, names, i + 1)
    else
      var instance :- CreateInstance(reg[names[i]], t, i);
      var s' :- AddVariant(s, instance);
      AddRows(s', reg, t, names, i + 1)
  }

  /** add_materials for a mesh whose primitive table is prims and whose
      index array has indexCount entries. */
  function AddMaterials(s: MaterialStorage, reg: Registry, prims: AttributeTable, indexCount: nat): (r: Result<MaterialStorage>)
    requires WellFormed(prims)
    ensures ColumnAsString(prims, "material").None? ==> r.Success?
    ensures r.Success? ==>
              |r.value.materials| == |s.materials| +
                (if ColumnAsString(prims, "material").Some? then prims.rowCount else indexCount / 3)
    ensures r.Success? && Valid(s) ==> Valid(r.value)
  {
    match ColumnAsString(prims, "material")
    case None => Success(AddCopies(s, FallbackMaterial, indexCount / 3))
    case Some(names) => AddRows(s, reg, prims, names, 0)
  }

  /** No row from `from` on stops the build. */
  predicate RowsResolve(reg: Registry, names: seq<string>, from: nat) {
    forall j :: from <= j < |names| ==> !RowFails(reg, names[j])
  }

  /** The materials of rows i.. in row order, each as RowDescriptor gives it. */
  function RowDescriptors(reg: Registry, t: AttributeTable, names: seq<string>, i: nat): (ds: seq<Descriptor>)
    requires WellFormed(t) && |names| == t.rowCount && i <= t.rowCount && RowsResolve(reg, names, i)
    ensures |ds| == t.rowCount - i
    ensures forall k :: 0 <= k < |ds| ==> ds[k] == RowDescriptor(reg, t, names[i + k], i + k)
    decreases t.rowCount - i
  {
    if i == t.rowCount then [] else [RowDescriptor(reg, t, names[i], i)] + RowDescriptors(reg, t, names, i + 1)
  }

  /** One row step: a row that does not fail adds exactly its RowDescriptor. */
  lemma AddRowStep(s: MaterialStorage, reg: Registry, t: AttributeTable, names: seq<string>, i: nat)
    requires WellFormed(t) && |names| == t.rowCount && i < t.rowCount
    requires Valid(s)
    ensures RowFails(reg, names[i]) ==> AddRows(s, reg, t, names, i).Failure?
    ensures !RowFails(reg, names[i]) ==>
              var s1 := Add(s, RowDescriptor(reg, t, names[i], i));
              AddRows(s, reg, t, names, i) == AddRows(s1, reg, t, names, i + 1)
  {
    var name := names[i];
    if name in reg {
      var c := CreateInstance(reg[name], t, i);
      if c.Success? && reg[name].kind.OfMaterial? {
        assert c.value.fields == RowDescriptor(reg, t, name, i).payload;
      }
    }
  }

  /** The row loop fails exactly when some remaining row fails; otherwise it
      appends, in row order, one record per row resolving to RowDescriptor. */
  lemma {:induction false} AddRowsMeaning(s: MaterialStorage, reg: Registry, t: AttributeTable, names: seq<string>, i: nat)
    requires WellFormed(t) && |names| == t.rowCount && i <= t.rowCount
    requires Valid(s)
    ensures AddRows(s, reg, t, names, i).Failure? <==> !RowsResolve(reg, names, i)
    ensures RowsResolve(reg, names, i) ==>
              var r := AddRows(s, reg, t, names, i).value;
              Valid(r) && Resolved(r) == Resolved(s) + RowDescriptors(reg, t, names, i)
    decreases t.rowCount - i
  {
    if i < t.rowCount {
      AddRowStep(s, reg, t, names, i);
      if !RowFails(reg, names[i]) {
        var d := RowDescriptor(reg, t, names[i], i);
        var s1 := Add(s, d);
        AddRowsMeaning(s1, reg, t, names, i + 1);
        assert RowsResolve(reg, names, i) <==> RowsResolve(reg, names, i + 1);
        if RowsResolve(reg, names, i) {
          assert RowDescriptors(reg, t, names, i) == [d] + RowDescriptors(reg, t, names, i + 1);
        }
      }
    }
  }

  /** Without a string column named "material", every triangle of the mesh
      gets the fallback Lambertian at a fresh Lambertian index: exactly
      indexCount / 3 records, and the other typed arrays do not change. */
  lemma FallbackWithoutMaterialColumn(s: MaterialStorage, reg: Registry, prims: AttributeTable, indexCount: nat)
    requires WellFormed(prims) && ColumnAsString(prims, "material").None?
    ensures AddMaterials(s, reg, prims, indexCount).Success?
    ensures var r := AddMaterials(s, reg, prims, indexCount).value;
            && r.materials == s.materials + seq(indexCount / 3, (k: nat) => Material(Lambertian, |s.lambertians| + k))
            && r.lambertians == s.lambertians + seq(indexCount / 3, k => FallbackMaterial.payload)
            && r.speculars == s.speculars && r.dielectrics == s.dielectrics && r.wards == s.wards
            && (Valid(s) ==> Valid(r) && Resolved(r) == Resolved(s) + seq(indexCount / 3, k => FallbackMaterial))
  {
    AddCopiesAppends(s, FallbackMaterial, indexCount / 3);
    if Valid(s) {
      AddCopiesResolves(s, FallbackMaterial, indexCount / 3);
    }
    var r := AddMaterials(s, reg, prims, indexCount).value;
    assert Typed(r, Specular) == Typed(s, Specular);
    assert Typed(r, Dielectric) == Typed(s, Dielectric);
    assert Typed(r, Ward) == Typed(s, Ward);
  }

  /** With a "material" column, add_materials fails exactly when a row names
      a registered type it cannot bind; otherwise it appends rowCount records
      in row order, row i resolving to RowDescriptor (the fallback when the
      name is not registered). */
  lemma MaterialColumnResolvesRows(s: MaterialStorage, reg: Registry, prims: AttributeTable, indexCount: nat)
    requires WellFormed(prims) && ColumnAsString(prims, "material").Some? && Valid(s)
    ensures var names := ColumnAsString(prims, "material").value;
            AddMaterials(s, reg, prims, indexCount).Failure? <==> !RowsResolve(reg, names, 0)
    ensures var names := ColumnAsString(prims, "material").value;
            RowsResolve(reg, names, 0) ==>
              var r := AddMaterials(s, reg, prims, indexCount).value;
              && Valid(r)
              && |r.materials| == |s.materials| + prims.rowCount
              && |Resolved(r)| == |Resolved(s)| + prims.rowCount
              && Resolved(r)[..|s.materials|] == Resolved(s)
              && forall k :: 0 <= k < prims.rowCount ==>
                   Resolved(r)[|s.materials| + k] == RowDescriptor(reg, prims, names[k], k)
  {
    var names := ColumnAsString(prims, "material").value;
    AddRowsMeaning(s, reg, prims, names, 0);
    if RowsResolve(reg, names, 0) {
      var r := AddMaterials(s, reg, prims, indexCount).value;
      var ds := RowDescriptors(reg, prims, names, 0);
      assert Resolved(r) == Resolved(s) + ds;
      assert |Resolved(s)| == |s.materials|;
      forall k | 0 <= k < prims.rowCount
        ensures Resolved(r)[|s.materials| + k] == RowDescriptor(reg, prims, names[k], k)
      {
        assert Resolved(r)[|s.materials| + k] == ds[k];
      }
    }
  }

  /** A well-formed registry never stops the build, and add_materials keeps
      the storage valid while appending one record per triangle. */
  lemma AddMaterialsSucceeds(s: MaterialStorage, reg: Registry, prims: AttributeTable, indexCount: nat)
    requires WellFormed(prims) && RegistryWellFormed(reg) && Valid(s)
    ensures AddMaterials(s, reg, prims, indexCount).Success?
    ensures var r := AddMaterials(s, reg, prims, indexCount).value;
            && Valid(r)
            && |r.materials| == |s.materials| +
                 (if ColumnAsString(prims, "material").Some? then prims.rowCount else indexCount / 3)
  {
    if ColumnAsString(prims, "material").Some? {
      MaterialColumnResolvesRows(s, reg, prims, indexCount);
    } else {
      FallbackWithoutMaterialColumn(s, reg, prims, indexCount);
    }
  }

  /** A row whose name is not registered does not stop add_materials: when
      no other row fails either, the record added for it resolves to exactly
      the fallback material. */
  lemma UnknownNameGetsFallback(s: MaterialStorage, reg: Registry, prims: AttributeTable, indexCount: nat, k: nat)
    requires WellFormed(prims) && ColumnAsString(prims, "material").Some? && Valid(s)
    requires k < prims.rowCount && ColumnAsString(prims, "material").value[k] !in reg
    requires RowsResolve(reg, ColumnAsString(prims, "material").value, 0)
    ensures AddMaterials(s, reg, prims, indexCount).Success?
    ensures var r := AddMaterials(s, reg, prims, indexCount).value;
            Valid(r) && |s.materials| + k < |Resolved(r)| && Resolved(r)[|s.materials| + k] == FallbackMaterial
  {
    MaterialColumnResolvesRows(s, reg, prims, indexCount);
  }

  /** Two triangles without a "material" column, added to an empty storage:
      two records, each with its own copy of the fallback Lambertian
      rather than a shared entry. */
  lemma TwoFallbackTriangles(reg: Registry)
    ensures var prims := AttributeTable(2, map[]);
            && AddMaterials(EmptyStorage, reg, prims, 6).Success?
            && AddMaterials(EmptyStorage, reg, prims, 6).value
               == MaterialStorage([Material(Lambertian, 0), Material(Lambertian, 1)],
                                  [FallbackMaterial.payload, FallbackMaterial.payload], [], [], [])
  {
    var prims := AttributeTable(2, map[]);
    FallbackWithoutMaterialColumn(EmptyStorage, reg, prims, 6);
    assert seq(6 / 3, (k: nat) => Material(Lambertian, |EmptyStorage.lambertians| + k))
        == [Material(Lambertian, 0), Material(Lambertian, 1)];
    assert seq(6 / 3, k => FallbackMaterial.payload) == [FallbackMaterial.payload, FallbackMaterial.payload];
  }
}

/** The attribute tables the scene importer exposes for a mesh's primitives
    or a point object's points: named columns, each of one element type, all
    holding one value per row. Only the column lookups the scene manager
    uses are modelled. */
module Attributes {
  import opened Base

  datatype Column =
    | StringColumn(strings: seq<string>)
    | IntColumn(ints: seq<int>)
    | FloatColumn(floats: seq<real>)
    | Vector3Column(vectors: seq<Float3>)

  /** The element type of a column (and of a reflected property value). */
  datatype Kind = StringKind | IntKind | FloatKind | Float3Kind | BoolKind

  function ColumnKind(c: Column): Kind {
    match c
    case StringColumn(_) => StringKind
    case IntColumn(_) => IntKind
    case FloatColumn(_) => FloatKind
    case Vector3Column(_) => Float3Kind
  }

  function Length(c: Column): nat {
    match c
    case StringColumn(s) => |s|
    case IntColumn(s) => |s|
    case FloatColumn(s) => |s|
    case Vector3Column(s) => |s|
  }

  datatype AttributeTable = AttributeTable(rowCount: nat, columns: map<string, Column>)

  /** Every column holds exactly one value per row. */
  predicate WellFormed(t: AttributeTable) {
    forall name :: name in t.columns ==> Length(t.columns[name]) == t.rowCount
  }

  /** column_as_string: the column of that name, if it exists and holds strings. */
  function ColumnAsString(t: AttributeTable, name: string): (r: Option<seq<string>>)
    requires WellFormed(t)
    ensures r.Some? <==> name in t.columns && ColumnKind(t.columns[name]) == StringKind
    ensures r.Some? ==> |r.value| == t.rowCount
  {
    if name in t.columns && t.columns[name].StringColumn? then Some(t.columns[name].strings) else None
  }

  /** column_as_int */
  function ColumnAsInt(t: AttributeTable, name: string): (r: Option<seq<int>>)
    requires WellFormed(t)
    ensures r.Some? <==> name in t.columns && ColumnKind(t.columns[name]) == IntKind
    ensures r.Some? ==> |r.value| == t.rowCount
  {
    if name in t.columns && t.columns[name].IntColumn? then Some(t.columns[name].ints) else None
  }

  /** column_as_float */
  function ColumnAsFloat(t: AttributeTable, name: string): (r: Option<seq<real>>)
    requires WellFormed(t)
    ensures r.Some? <==> name in t.columns && ColumnKind(t.columns[name]) == FloatKind
    ensures r.Some? ==> |r.value| == t.rowCount
  {
    if name in t.columns && t.columns[name].FloatColumn? then Some(t.columns[name].floats) else None
  }

  /** column_as_vector3 */
  function ColumnAsVector3(t: AttributeTable, name: string): (r: Option<seq<Float3>>)
    requires WellFormed(t)
    ensures r.Some? <==> name in t.columns && ColumnKind(t.columns[name]) == Float3Kind
    ensures r.Some? ==> |r.value| == t.rowCount
  {
    if name in t.columns && t.columns[name].Vector3Column? then Some(t.columns[name].vectors) else None
  }
}

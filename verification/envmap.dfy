/** Environment-map data as the scene manager holds it, and the choice of
    env-map directive that addPoint makes from a point object's columns.
    Building the sampling tables (ImageEnvmap, SixAxisDirectionWeight) and
    loading and clamping the image are done by collaborators that appear
    here only as functions. */
module Envmap {
  import opened Base
  import opened Attributes

  /** CubeSection_XPlus … CubeSection_ZMinus, in the order addPoint uses them. */
  datatype CubeSection = XPlus | XMinus | YPlus | YMinus | ZPlus | ZMinus

  const Sections: seq<CubeSection> := [XPlus, XMinus, YPlus, YMinus, ZPlus, ZMinus]

  /** UniformDirectionWeight or SixAxisDirectionWeight(section). */
  datatype DirectionWeight = Uniform | SixAxis(section: CubeSection)

  /** EnvmapFragment: the angular wedge of one pixel. */
  datatype Fragment = Fragment(begY: real, endY: real, begPhi: real, endPhi: real)

  /** AliasBucket; a default-constructed one has height 0 and alias 0. */
  datatype AliasBucket = AliasBucket(height: real, alias: int)

  const DefaultBucket := AliasBucket(0.0, 0)

  /** The tables of one ImageEnvmap: per-pixel pdf, fragments and alias buckets. */
  datatype Tables = Tables(pdf: seq<real>, fragments: seq<Fragment>, buckets: seq<AliasBucket>)

  datatype Image = Image(width: nat, height: nat, texels: seq<real>)

  /** The collaborators addPoint calls: load_image, Image2D::clamp_rgb with
      lower bound 0, and the ImageEnvmap constructor. */
  datatype EnvmapBuilder = EnvmapBuilder(
    load: string -> Image,
    clampRgb: (Image, real) -> Image,
    tables: (Image, DirectionWeight) -> Tables)

  /** _envmapImage, _imageEnvmap and _sixAxisImageEnvmap[0..5]. */
  datatype Envmap = Envmap(image: Image, uniform: Tables, sixAxis: seq<Tables>)

  /** An "ImageEnvmap" point: the image file and the radiance clamp. */
  datatype Directive = Directive(file: string, clampMax: real)

  /** The envmap one directive builds: the clamped image, its uniform tables
      and one table set per cube section, in Sections order. */
  function Build(b: EnvmapBuilder, d: Directive): (e: Envmap)
    ensures e.image == b.clampRgb(b.load(d.file), d.clampMax)
    ensures |e.sixAxis| == 6
    ensures e.uniform == b.tables(e.image, Uniform)
    ensures forall a :: 0 <= a < 6 ==> e.sixAxis[a] == b.tables(e.image, SixAxis(Sections[a]))
  {
    var image := b.clampRgb(b.load(d.file), d.clampMax);
    Envmap(image, b.tables(image, Uniform), seq(6, a requires 0 <= a < 6 => b.tables(image, SixAxis(Sections[a]))))
  }

  /** The directive point i carries, if any: its point_type is "ImageEnvmap"
      and it names a non-empty file. A missing "file" column means an empty
      name; a missing "clamp" column means FLT_MAX. */
  function RowDirective(pts: AttributeTable, types: seq<string>, i: nat): (r: Option<Directive>)
    requires WellFormed(pts) && |types| == pts.rowCount && i < pts.rowCount
    ensures r.Some? <==> types[i] == "ImageEnvmap" && ColumnAsString(pts, "file").Some? && ColumnAsString(pts, "file").value[i] != ""
    ensures r.Some? ==> r.value.file == ColumnAsString(pts, "file").value[i]
    ensures r.Some? ==> r.value.clampMax == (if ColumnAsFloat(pts, "clamp").Some? then ColumnAsFloat(pts, "clamp").value[i] else FltMax)
  {
    if types[i] != "ImageEnvmap" then None
    else
      var file := match ColumnAsString(pts, "file") case Some(c) => c[i] case None => "";
      var clampMax := match ColumnAsFloat(pts, "clamp") case Some(c) => c[i] case None => FltMax;
      if file != "" then Some(Directive(file, clampMax)) else None
  }
}

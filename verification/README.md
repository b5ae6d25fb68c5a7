# Scene packaging of the GPU path tracer, in Dafny

This project models the scene manager (`common/scene_manager.hpp`) of a GPU path tracer. The scene manager turns imported Alembic meshes and point objects into flat arrays that can be copied to an OpenCL device:

- **Mesh merge** (`addPolymesh`): a mesh with any non-triangular face is skipped. Otherwise its transformed points are appended to the global point array, and its indices are appended after being offset by the old point count in `uint32_t` arithmetic. Every global index is then checked against the point count.
- **Material resolution** (`add_materials`, `MaterialStorage`): each triangle gets one `Material` record, a variant tag plus an index into that variant's typed array. A mesh without a `material` string column gets the fallback Lambertian `(vec3(), (0.9, 0.1, 0.9), false)` for each of its `|indices| / 3` triangles. Otherwise each row's name is looked up among the registered types. An unknown name gets the fallback. A known name gets a default instance whose primitive-scoped float3, int and float properties are overwritten from same-named columns of the same type. rttr reflection is replaced by a static schema table, `MaterialBinding.Registry`.
- **Env-map directive** (`addPoint`): the last point whose `point_type` is `"ImageEnvmap"` and whose `file` is non-empty decides the envmap. It is built from the clamped image, with a uniform table set and one table set per cube section.
- **BVH input** (the front half of `buildBVH`): indices are grouped into triangle primitives, and each primitive gets a bounding box and its position as `primID`.
- **Packaging** (`createBufferSafe`, `createMaterialBuffer`, `createEnvmapBuffer`): a buffer is modelled as the sequence it holds. An empty array is packed as one placeholder element. The six axis tables are concatenated into arrays of `6 * nPixels` elements.

The scene manager's `RT_ASSERT`s, and the envmap buffer requested before any envmap exists, are modelled as `Result.Failure` with a `Base.Error` value. The importer's attribute tables are modelled in `Attributes`. The point transform, image loading, clamping and the sampling-table constructor are function parameters. Coordinates are reals. `FLT_MAX` seeds the box computation, as in the code.

The modules are `Base`, `Attributes`, `Materials`, `MaterialBinding`, `Envmap`, `Scene`, `Bvh` and `Packaging`, one file each.

Three behaviours of the code are kept as written:

- Fallback triangles do not share one placeholder Lambertian. Each one appends its own copy, at its own index. `MaterialBinding.TwoFallbackTriangles` shows this for two triangles.

- `buildBVH` appends to the primitives the scene already holds. A second call would hand the builder every triangle twice. `Bvh.BuildBVH` states this: new primitives follow the old ones.
- The index offset wraps modulo 2^32. `Scene.AddPolymesh` uses the wrapped sum. `Scene.AddPolymeshMerges` shows the sum is exact while the total point count fits in a `uint32_t`. `Scene.WrappedOffsetPassesCheck` shows what happens past that point. Take a scene that already holds 2^32 points, and merge a one-triangle mesh with indices `[0, 1, 2]`. The merge succeeds, and the new indices are `[0, 1, 2]`: they point at the scene's first three points, not at the mesh's own. The range check cannot see this, because the point count has grown too.

## Model

| member | source | states |
|---|---|---|
| `Materials.Add` | common/scene_manager.hpp:41-60 | appends exactly one record, tagged with the payload's variant and indexed by the old length of that typed array; that array grows by the payload; the other three are unchanged; validity (every record indexes its own array) is kept; the records now resolve to the old materials followed by the new one |
| `Materials.AddVariant` | common/scene_manager.hpp:24-40 | an instance of a material type is added as `add` does; any other type is an assertion failure (`NotAMaterial`) |
| `Materials.AddCopies` | common/scene_manager.hpp:76-78 | n adds of one material append n records and n payloads to that material's array, and keep the storage valid |
| `Materials.AddCopiesAppends` | common/scene_manager.hpp:76-78 | n successive adds of one material produce n records with consecutive fresh indices into its array and n copies of the payload; the other arrays are unchanged |
| `Materials.AddCopiesRecords` | common/scene_manager.hpp:76-78 | the records appended by n adds are `(variant, old length + k)` for k below n |
| `Materials.AddCopiesTyped` | common/scene_manager.hpp:76-78 | n adds append n copies of the payload to the material's own array and leave the other three unchanged |
| `Materials.AddCopiesResolves` | common/scene_manager.hpp:76-78 | in a valid storage, the records after n adds resolve to the old materials followed by n copies of the added one |
| `MaterialBinding.BindProperty` | common/scene_manager.hpp:100-135 | a property value is replaced by row i of a column exactly when the property is primitive-scoped and a column of its name holds values of its kind (float3, int or float); otherwise it is kept; the value kind never changes |
| `MaterialBinding.BindProperties` | common/scene_manager.hpp:96-99 | the property loop fails (`MissingScope`) exactly when some property lacks scope metadata; otherwise it yields one bound value per property, in order |
| `MaterialBinding.CreateInstance` | common/scene_manager.hpp:95-136 | a created instance has the registered type's kind and one field per property, each the default or the bound column value |
| `MaterialBinding.AddRows` | common/scene_manager.hpp:82-138 | a row loop that completes from row i appends one record per remaining row and keeps the storage valid |
| `MaterialBinding.AddMaterials` | common/scene_manager.hpp:64-139 | without a `material` column it never fails; a success appends `rowCount` records (material column) or `indexCount / 3` records (no column); validity is kept |
| `MaterialBinding.AddRowsMeaning` | common/scene_manager.hpp:82-138 | the row loop fails exactly when some row names a registered type with an unscoped property or of no material type; otherwise it appends one record per row, in row order, resolving to that row's descriptor |
| `MaterialBinding.AddRowStep` | common/scene_manager.hpp:83-93 | one row either stops the build or adds exactly its descriptor: the fallback for an unknown name, the bound instance otherwise |
| `MaterialBinding.FallbackWithoutMaterialColumn` | common/scene_manager.hpp:69-80 | without a string `material` column, exactly `indexCount / 3` fallback Lambertians are appended at fresh Lambertian indices; specular, dielectric and ward arrays are unchanged |
| `MaterialBinding.MaterialColumnResolvesRows` | common/scene_manager.hpp:82-138 | with a `material` column, add_materials fails exactly when some row cannot be bound; otherwise it appends `rowCount` records, and record k resolves to row k's descriptor |
| `MaterialBinding.AddMaterialsSucceeds` | common/scene_manager.hpp:64-139 | with a registry of material types whose properties all carry a scope, add_materials never fails, keeps the storage valid, and appends `rowCount` or `indexCount / 3` records |
| `MaterialBinding.UnknownNameGetsFallback` | common/scene_manager.hpp:82-93 | when no row stops the build and row k names no registered type, add_materials succeeds, the storage stays valid, and the record added for row k resolves to the fallback Lambertian |
| `MaterialBinding.TwoFallbackTriangles` | common/scene_manager.hpp:73-80 | two triangles without a `material` column give records `(Lambertian, 0)` and `(Lambertian, 1)` over two copies of the fallback payload |
| `Scene.OffsetIndices` | common/scene_manager.hpp:213-216 | one index per source index: the source index plus the base, modulo 2^32, which is the plain sum when that fits a uint32_t |
| `Scene.Transform` | common/scene_manager.hpp:218-222 | one transformed point per source point, in order |
| `Scene.AddPolymesh` | common/scene_manager.hpp:196-227 | a mesh with any face count other than 3 leaves the scene unchanged; a triangle mesh merges exactly when every global index, old and wrapped-new, is below the new point count and add_materials succeeds; a failed index check is `IndexOutOfRange`; a merge appends the offset indices and transformed points, makes the storage add_materials' result, and keeps primitives and envmap |
| `Scene.WrappedOffsetPassesCheck` | common/scene_manager.hpp:212-226 | with 2^32 points already merged, a one-triangle mesh `[0, 1, 2]` passes the index check and its new indices are `[0, 1, 2]`, which name old points |
| `Scene.EmptySceneConsistent` | common/scene_manager.hpp:407-416 | the empty scene satisfies the scene invariant |
| `Scene.AddPolymeshMerges` | common/scene_manager.hpp:212-226 | for a well-formed triangle mesh whose points still fit uint32_t indices, the index check cannot fire; earlier points and indices are kept; new index k is source index k plus the old point count; the scene invariant holds afterwards, including 3 × records = indices |
| `Scene.AddPointRows` | common/scene_manager.hpp:233-270 | the point loop changes nothing but the envmap, which it either keeps or replaces by a built envmap with six axis table sets |
| `Scene.AddPoint` | common/scene_manager.hpp:228-271 | addPoint changes nothing but the envmap, which it either keeps or replaces by a built envmap with six axis table sets |
| `Scene.AddPointRowsMeaning` | common/scene_manager.hpp:233-270 | the point loop leaves the scene alone when no directive point remains, and otherwise ends with the envmap of the last directive point |
| `Scene.AddPointSelectsLastDirective` | common/scene_manager.hpp:228-271 | without a `point_type` column, or without a directive point, nothing changes; otherwise only the envmap changes, to the one built from the last directive point; consistency is kept |
| `Envmap.RowDirective` | common/scene_manager.hpp:234-243 | a point is a directive exactly when its type is `"ImageEnvmap"` and its `file` is non-empty; the clamp comes from the `clamp` column or defaults to FLT_MAX |
| `Envmap.Build` | common/scene_manager.hpp:253-267 | the built envmap's image is the loaded file clamped at the directive's clamp; it holds the uniform tables and six axis tables of that image, in cube-section order X+, X-, Y+, Y-, Z+, Z- |
| `Bvh.TriangleBounds` | common/scene_manager.hpp:304-312 | the box folded from FLT_MAX / -FLT_MAX contains all three vertices |
| `Bvh.TriangleBoundsSmallest` | common/scene_manager.hpp:305-311 | for finite vertices, every box containing the three vertices encloses the computed box |
| `Bvh.GroupTriangles` | common/scene_manager.hpp:293-299 | primitive k is `(indices[3k], indices[3k+1], indices[3k+2])`, and there are `|indices| / 3` of them |
| `Bvh.PrimitiveBounds` | common/scene_manager.hpp:304-323 | one build record per primitive, with `primID == k`, `geomID == 0` and a box containing the primitive's three points |
| `Bvh.BuildBVH` | common/scene_manager.hpp:291-323 | fails (`NotTriangles`) exactly when the index count is not a multiple of 3; otherwise it appends the grouped triangles to the scene's primitives, keeps them in range, and builds a record per primitive whose box contains its vertices |
| `Packaging.CreateBufferSafe` | common/scene_manager.hpp:338-345 | the buffer has `max(1, size)` elements, holds the input's first `size` elements, and is one placeholder when `size == 0` |
| `Packaging.SizeU32` | common/scene_manager.hpp:349-353 | the uint32_t size passed to createBufferSafe is the array length modulo 2^32, never more than the length, and the length itself when it fits |
| `Packaging.CreateMaterialBuffer` | common/scene_manager.hpp:347-355 | each of the five buffers has as many elements as its array's uint32_t size, or one placeholder when that size is 0, and holds the array's first size elements |
| `Packaging.MaterialBufferDispatches` | common/scene_manager.hpp:347-355 | every packed material buffer is non-empty; an empty typed array becomes exactly one placeholder and a non-empty one is copied whole; every record indexes a real element of its variant's buffer, which holds the material the storage resolves it to |
| `Packaging.Slot` | common/scene_manager.hpp:390-392 | `nPixels * axis + i` lies inside the `6 * nPixels` array |
| `Packaging.SlotsFillConcat` | common/scene_manager.hpp:385-398 | an array of `6 * n` elements with element i of axis a at `n * a + i` equals the six axis prefixes concatenated, so no default element is left |
| `Packaging.PackSixAxis` | common/scene_manager.hpp:385-398 | the packed array has `6 * n` elements, element i of axis a sits at `n * a + i`, and the array is the concatenation of the axis prefixes |
| `Packaging.CreateEnvmapBuffer` | common/scene_manager.hpp:357-403 | fails (`NoEnvmap`) exactly when no envmap was built; otherwise copies the uniform pdf, and the first nPixels fragments and buckets; the six-axis pdf and bucket arrays have `6 * nPixels` elements, with `pdfN[nPixels*axis + i] == pdf_axis[i]` and likewise for buckets |

## Left out

- OpenCL buffer and image objects (`OpenCLBuffer`, `OpenCLImage`, `cl_context`): device calls; a buffer is modelled only as the sequence it holds.
- `createBuffer` (the scene bundle): it copies the point, index, stackless-node and primitive-id arrays unchanged, and the last two come from external builders.
- `create_embreeBVH`, `create_stackless_bvh`, `StacklessBVH` and `top_aabb`: external builders, not part of this model.
- `load_image`, path resolution against the Alembic directory, and `clamp_rgb`: file I/O and per-pixel float work; they are fields of `Envmap.EnvmapBuilder`.
- The `ImageEnvmap` tables (pdf, fragments, alias method) and `SixAxisDirectionWeight`: defined in `envmap.hpp`, which is not part of this model; the table constructor is a parameter, and `Packaging.Packable` states the sizes `createEnvmapBuffer` reads.
- The glm transform, `inverseTranspose` and the double-to-float conversion: the point transform is an uninterpreted function applied to each point; the inverse-transposed matrix is unused by `add_materials`.
- The `USE_WHITE_FURNANCE_ENV` debug image: a compile-time switch that is off.
- rttr reflection: replaced by `MaterialBinding.Registry`, a map from type name to kind and properties. Each property has a name, a default value and an optional scope. The fields of the four material structs come from `material_type.hpp`, which is not part of this model. A payload is therefore the list of property values in declaration order. The fallback Lambertian is the list of its three constructor arguments.
- Any property type other than float3, int and float is represented by `bool`: the binder never sets such a property.
- Floating point: coordinates and table entries are reals; `0.9f` and `0.1f` are the reals 0.9 and 0.1; NaN and infinities are not modelled.
- Profiling macros and `printf` logging: no effect on state.
- `common/orthonormal_basis.hpp` and the openFrameworks applications (`Phong/src/ofApp.h`, `Sandbox/src/ofApp.h`, `Sandbox/src/main.cpp`): numeric basis construction and UI glue, outside the packaging core.
- Materials.Add: the record index is a `nat`; the `(int)` cast of the typed array's size, which would wrap past 2^31 - 1 elements, is not modelled.
- MaterialBinding.AddMaterials: the `uint32_t` loop counters and bounds (`n = indices.size() / 3`, `rowCount()`) are unbounded naturals; a mesh with 2^32 or more triangles or rows, whose truncated bound would add fewer records, is not modelled.
- Bvh.PrimitiveBounds: the `int` loop counters of buildBVH, and the narrowing of a `uint32_t` vertex index to `int index`, are not modelled; the model reads every index as the natural number it holds, so indices of 2^31 and above behave as if no narrowing occurred.
- Packaging.CreateEnvmapBuffer: `nPixels` and `nPixels * 6` are unbounded; the `int` overflow past 357,913,941 pixels is not modelled.

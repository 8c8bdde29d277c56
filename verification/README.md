# richrender core, modelled in Dafny

richrender is a Rust renderer built on Vulkan (through `ash`) and Bevy's ECS. It also has an egui editor bridge and a small C++ shim over the Effekseer particle SDK. Most of it drives the GPU and cannot be modelled. Inside it sits sequential logic whose behaviour can be stated, and this project models that logic as pure Dafny functions and proves properties about it:

- **Map-config protobuf codec** (`ProtoWire`, `ProtoMap`, `ProtoMapLaws`). This covers the generated encoders, size functions and decoders for `Vector3`, `Map`, `MapPath`, `MapPathPoint`, `MapWave` and `MapWaveUnit`, over the Protocol Buffers binary wire format. Floats are carried as their 32-bit patterns. The laws proved are:
  - round trips;
  - `get_size` equals the encoded length;
  - the last value wins;
  - unknown fields are skipped;
  - errors propagate.
- **glTF ingestion** (`ShaderConst`, `VertexLayout`, `GltfMesh`, `LegacyVertex`, `LegacyMesh`, `Model`, `Material`). This covers:
  - the vertex-format and size table;
  - the shader-define map;
  - strided accessor extraction;
  - 4-byte padding and offset bookkeeping;
  - the older fixed vertex layout and its loader;
  - pixel expansion to RGBA and the mip-count formula;
  - material defaults.
- **Scene structure** (`Aabb`, `SceneNodes`, `Destroy`, `ModelRenderer`). This covers:
  - AABB union as componentwise min and max;
  - the pre-order (parent, child) traversal and global transforms;
  - recursive destroy marking;
  - the primitive-render walk used by `draw` and `draw_shadow`.
- **Resource bookkeeping** (`RenderContext`, `DeviceMgr`, `GpuBuffer`, `Texture`, `Util`, `Swapchain`, `CommandBuffers`, `Grass`, `AnimationSystem`, `ModelRuntime`). This covers:
  - memory-type selection and UBO alignment;
  - queue-family search and device suitability;
  - the staging list and the typed resource map;
  - buffer map and unmap state;
  - the image-layout transition table and the mip chain;
  - the swapchain semaphore and fence ring;
  - command-buffer indexing;
  - grass dispatch sizing and the generate-once flag;
  - skin-buffer layout;
  - the animation command queue.
- **Small state machines** (`RenderPlugin`, `ShaderCollection`, `TableData`, `FlyCamera`, `EguiIntegrate`, `EguiRender`, `Effekseer`). This covers:
  - asset-event folding into change and destroy sets, and draw ordering;
  - the shader compile cache;
  - the name-hash table;
  - fly-camera button tracking;
  - egui input translation, paint-buffer accounting and font upload;
  - the Effekseer prefab registry and frame clock.

Every call into Vulkan, Bevy, egui, winit, the glTF loader or the Effekseer SDK is modelled in one of two ways. Either it is an opaque handle or value passed in as a parameter, or it is a recorded command in an output list whose order is then the subject of the contract. Hashing, shader compilation and matrix products are function-typed parameters. Wrap-around and panics are written out explicitly. A panic becomes one of two things:
- a precondition, when the caller is expected to rule it out;
- a `None` or `Err` result, when an input can cause it.

Files: one module per source area. `wrappers.dfy` holds `Option` and `Result`, and `util.dfy` holds shared arithmetic facts.

## Model

| member | source | states |
|---|---|---|
| ProtoWire.Tag | crates/rich_engine/src/game/proto/proto.rs:29-31 | the tag of field f with wire type w keeps both: tag mod 8 is w and tag div 8 is f, so 13, 21 and 29 are fields 1-3 with fixed32 |
| ProtoWire.SizeofVarintIsEncodedLength | crates/rich_engine/src/game/proto/proto.rs:215-216 | the size the writer reserves for a varint equals the number of bytes it emits, never more than 10 for a u64 |
| ProtoWire.ReadVarint32 | crates/rich_engine/src/game/proto/proto.rs:28 | reading a tag consumes at least one byte whenever it succeeds, so every decode loop terminates |
| ProtoWire.ReadEncodedVarint | crates/rich_engine/src/game/proto/proto.rs:32 | a written u64 varint reads back as the same value and leaves the rest of the buffer untouched |
| ProtoWire.ReadEncodedVarint32 | crates/rich_engine/src/game/proto/proto.rs:201-202 | a written u32 varint reads back as the same u32 and leaves the rest untouched |
| ProtoWire.ReadFixed32 | crates/rich_engine/src/game/proto/proto.rs:29-31 | a float read succeeds exactly when four bytes remain and consumes exactly those four |
| ProtoWire.ReadEncodedFixed32 | crates/rich_engine/src/game/proto/proto.rs:49-51 | the four little-endian bytes written for a float read back as the same bit pattern |
| ProtoWire.ReadLen | crates/rich_engine/src/game/proto/proto.rs:66 | a length-delimited read that succeeds consumes its length prefix, payload and nothing beyond |
| ProtoWire.ReadLenStep | crates/rich_engine/src/game/proto/proto.rs:66 | when the length prefix fits in the remaining input, the payload is exactly the next len bytes |
| ProtoWire.ReadLenTruncated | crates/rich_engine/src/game/proto/proto.rs:66 | when the length prefix exceeds the remaining input, the read fails with an end-of-buffer error |
| ProtoWire.ReadEncodedLen | crates/rich_engine/src/game/proto/proto.rs:82 | a length-prefixed payload as the writer emits it reads back as the same payload and rest |
| ProtoWire.ReadString | crates/rich_engine/src/game/proto/proto.rs:200 | a string field is accepted exactly when its payload is valid UTF-8 |
| ProtoWire.SkipUnknown | crates/rich_engine/src/game/proto/proto.rs:32 | skipping an unknown field consumes input, and group or wire-type 6/7 tags are errors |
| ProtoWire.FixedField | crates/rich_engine/src/game/proto/proto.rs:49 | a float field under a one-byte tag is five bytes long and starts with the tag |
| ProtoMap.SchemaTags | crates/rich_engine/src/game/proto/proto.rs:24-225 | every tag literal in the generated readers and writers is (field << 3) or wire type for the schema's field numbers |
| ProtoMap.EncodeVector3 | crates/rich_engine/src/game/proto/proto.rs:48-53 | a Vector3 encodes to nothing exactly when all three coordinates are zero (either sign) |
| ProtoMap.EncodePoint | crates/rich_engine/src/game/proto/proto.rs:146-150 | a path point encodes to nothing exactly when it has no position and a zero reach range |
| ProtoMap.EncodePoints | crates/rich_engine/src/game/proto/proto.rs:112-115 | a path encodes to nothing exactly when it has no points |
| ProtoMap.EncodePaths | crates/rich_engine/src/game/proto/proto.rs:81-84 | a map encodes to nothing exactly when it has no paths |
| ProtoMap.EncodeUnit | crates/rich_engine/src/game/proto/proto.rs:219-224 | a wave unit encodes to nothing exactly when it equals the default unit |
| ProtoMap.EncodeUnits | crates/rich_engine/src/game/proto/proto.rs:183 | a unit list encodes to nothing exactly when it is empty |
| ProtoMap.EncodeWave | crates/rich_engine/src/game/proto/proto.rs:181-185 | a wave encodes to nothing exactly when its start time is zero and it has no units |
| ProtoMap.FloatFieldSize | crates/rich_engine/src/game/proto/proto.rs:43 | the 1 + 4 bytes counted for a float field are the bytes written for it |
| ProtoMap.UintFieldSize | crates/rich_engine/src/game/proto/proto.rs:215-216 | 1 + sizeof_varint is the length of a written u32 field |
| ProtoMap.LenFieldSize | crates/rich_engine/src/game/proto/proto.rs:78 | 1 + sizeof_len(n) is the length of a written length-delimited field |
| ProtoMap.Vector3SizeMatchesEncoding | crates/rich_engine/src/game/proto/proto.rs:41-46 | get_size equals the written length, a multiple of 5 of at most 15, zero only for the zero vector |
| ProtoMap.PointSizeMatchesEncoding | crates/rich_engine/src/game/proto/proto.rs:140-144 | get_size of a path point equals the number of bytes written |
| ProtoMap.PointsSizeMatchesEncoding | crates/rich_engine/src/game/proto/proto.rs:107-110 | get_size of a path equals the number of bytes written |
| ProtoMap.PathsSizeMatchesEncoding | crates/rich_engine/src/game/proto/proto.rs:78 | the summed sizes of the paths equal the bytes written for them |
| ProtoMap.MapSizeMatchesEncoding | crates/rich_engine/src/game/proto/proto.rs:76-79 | get_size of a map equals the number of bytes written |
| ProtoMap.UnitSizeMatchesEncoding | crates/rich_engine/src/game/proto/proto.rs:212-217 | get_size of a wave unit equals the number of bytes written |
| ProtoMap.UnitsSizeMatchesEncoding | crates/rich_engine/src/game/proto/proto.rs:178 | the summed sizes of the units equal the bytes written for them |
| ProtoMap.WaveSizeMatchesEncoding | crates/rich_engine/src/game/proto/proto.rs:175-179 | get_size of a wave equals the number of bytes written |
| ProtoMapLaws.ReadFixedField | crates/rich_engine/src/game/proto/proto.rs:29-31 | a float field reads back as its tag followed by the same float |
| ProtoMapLaws.ReadVarintField | crates/rich_engine/src/game/proto/proto.rs:201-202 | a varint field reads back as its tag followed by the same value |
| ProtoMapLaws.Vector3FloatStep | crates/rich_engine/src/game/proto/proto.rs:29-31 | tags 13, 21 and 29 overwrite x, y and z and decoding continues after the float |
| ProtoMapLaws.Vector3UnknownStep | crates/rich_engine/src/game/proto/proto.rs:32 | any other tag is skipped and leaves the vector unchanged |
| ProtoMapLaws.PointPosStep | crates/rich_engine/src/game/proto/proto.rs:129 | tag 10 decodes a nested Vector3 and sets the position |
| ProtoMapLaws.PointReachStep | crates/rich_engine/src/game/proto/proto.rs:130 | tag 21 sets the reach range |
| ProtoMapLaws.PathPointStep | crates/rich_engine/src/game/proto/proto.rs:97 | tag 10 appends the decoded point to the path |
| ProtoMapLaws.MapPathStep | crates/rich_engine/src/game/proto/proto.rs:66 | tag 10 appends the decoded path, or fails with the nested error |
| ProtoMapLaws.MapUnknownStep | crates/rich_engine/src/game/proto/proto.rs:67 | any other tag is skipped and leaves the map unchanged |
| ProtoMapLaws.UnitNameStep | crates/rich_engine/src/game/proto/proto.rs:200 | tag 10 sets the name when valid UTF-8 and fails otherwise |
| ProtoMapLaws.UnitUintStep | crates/rich_engine/src/game/proto/proto.rs:201-202 | tags 16 and 24 set the count and the path index |
| ProtoMapLaws.WaveStartStep | crates/rich_engine/src/game/proto/proto.rs:164 | tag 13 sets the start time |
| ProtoMapLaws.WaveUnitStep | crates/rich_engine/src/game/proto/proto.rs:165 | tag 18 appends the decoded unit |
| ProtoMapLaws.Vector3RoundTrip | crates/rich_engine/src/game/proto/proto.rs:24-53 | decoding a written Vector3 gives it back, with a negative zero read as zero since it is not written |
| ProtoMapLaws.Vector3LastValueWins | crates/rich_engine/src/game/proto/proto.rs:29-31 | when two vectors are concatenated, each coordinate the second one writes overrides the first |
| ProtoMapLaws.Vector3SkipsUnknownField | crates/rich_engine/src/game/proto/proto.rs:32 | an unknown length-delimited field inside a Vector3 leaves the decoded value unchanged |
| ProtoMapLaws.Vector3TruncatedFloat | crates/rich_engine/src/game/proto/proto.rs:29-31 | a coordinate tag followed by fewer than four bytes is an end-of-buffer error |
| ProtoMapLaws.PointRoundTrip | crates/rich_engine/src/game/proto/proto.rs:124-150 | decoding a written path point gives it back up to zero signs |
| ProtoMapLaws.PointLastPosWins | crates/rich_engine/src/game/proto/proto.rs:129 | when two points are concatenated, the later position replaces the earlier one |
| ProtoMapLaws.PathFields | crates/rich_engine/src/game/proto/proto.rs:97 | repeated points decode in the order they were written, appended to what was already read |
| ProtoMapLaws.PathRoundTrip | crates/rich_engine/src/game/proto/proto.rs:92-115 | decoding a written path gives it back, point for point |
| ProtoMapLaws.MapFields | crates/rich_engine/src/game/proto/proto.rs:66 | repeated paths decode in the order they were written |
| ProtoMapLaws.MapRoundTrip | crates/rich_engine/src/game/proto/proto.rs:61-84 | decoding a written map gives it back, path for path |
| ProtoMapLaws.EncodePathsConcat | crates/rich_engine/src/game/proto/proto.rs:82 | writing a path list is the concatenation of writing its parts, and so is its size |
| ProtoMapLaws.MapConcatAppendsPaths | crates/rich_engine/src/game/proto/proto.rs:66 | two concatenated maps decode as one map whose path list is the first's followed by the second's |
| ProtoMapLaws.MapSkipsUnknownField | crates/rich_engine/src/game/proto/proto.rs:67 | an unknown varint field in a map leaves the decoded paths unchanged |
| ProtoMapLaws.MapPathErrorPropagates | crates/rich_engine/src/game/proto/proto.rs:66 | a nested path that fails to decode makes the whole map fail with that error |
| ProtoMapLaws.UnitUintField | crates/rich_engine/src/game/proto/proto.rs:201-202 | count and path-index fields set exactly their own member |
| ProtoMapLaws.UnitFields | crates/rich_engine/src/game/proto/proto.rs:219-222 | the fields of a written unit decode back into that unit |
| ProtoMapLaws.UnitRoundTrip | crates/rich_engine/src/game/proto/proto.rs:195-224 | decoding a written unit with a valid UTF-8 name gives it back |
| ProtoMapLaws.UnitRejectsInvalidName | crates/rich_engine/src/game/proto/proto.rs:200 | a name field that is not valid UTF-8 fails the unit with an invalid-UTF-8 error |
| ProtoMapLaws.WaveUnitsFields | crates/rich_engine/src/game/proto/proto.rs:165 | repeated units decode in the order they were written |
| ProtoMapLaws.WaveRoundTrip | crates/rich_engine/src/game/proto/proto.rs:159-185 | decoding a written wave gives it back up to zero signs |
| ShaderConst.LocationsDistinct | crates/rich_engine/src/render/shader_const.rs:3-7 | the five vertex input locations are pairwise distinct |
| ShaderConst.DefineName | crates/rich_engine/src/render/shader_const.rs:9-18 | a location has a shader define exactly when it is the texture-coordinate or the normal location, and each maps to its own name |
| VertexLayout.IndexTypeOf | crates/rich_engine/src/render/vertex_layout.rs:21-27 | 16-bit index data selects UINT16 and 32-bit selects UINT32 (other types panic, so they are excluded) |
| VertexLayout.FormatOf | crates/rich_engine/src/render/vertex_layout.rs:29-53 | every supported (data type, count) pair maps to a format that has a byte size |
| VertexLayout.FormatSize | crates/rich_engine/src/render/vertex_layout.rs:55-68 | every supported format has a positive byte size |
| VertexLayout.CalculateStride | crates/rich_engine/src/render/vertex_layout.rs:70-73 | the stride is the component width times the component count |
| VertexLayout.FormatOfInjective | crates/rich_engine/src/render/vertex_layout.rs:29-53 | two supported pairs give the same format exactly when they are the same pair |
| VertexLayout.Create | crates/rich_engine/src/render/vertex_layout.rs:75-83 | a new layout has no metas and no offsets, and its indices start empty with type UINT32 |
| VertexLayout.SetIndices | crates/rich_engine/src/render/vertex_layout.rs:85-88 | set_indices changes only the index range and type, as given |
| VertexLayout.PushMeta | crates/rich_engine/src/render/vertex_layout.rs:90-99 | push_meta appends one meta and one offset, keeping all earlier entries; the new meta has the format of the pushed component type and count, and the stride of that format |
| VertexLayout.RefreshBufferOffsets | crates/rich_engine/src/render/vertex_layout.rs:101-103 | after the refresh the bound offsets are the pushed offsets, entry by entry |
| VertexLayout.BindingsMatchAttributes | crates/rich_engine/src/render/vertex_layout.rs:105-124 | bindings and attributes pair up one to one, and each binding's stride is its attribute format's size |
| VertexLayout.Defines | crates/rich_engine/src/render/vertex_layout.rs:126-130 | the defines are a filtered list of the metas: no longer, and only IN_TEX_COORD or IN_NORMAL |
| VertexLayout.DefinesAppend | crates/rich_engine/src/render/vertex_layout.rs:126-130 | the defines of concatenated meta lists are the concatenation of their defines |
| VertexLayout.DefinesMembership | crates/rich_engine/src/render/vertex_layout.rs:126-130 | the define of the texture-coordinate or normal location is listed exactly when some meta has that location |
| Aabb.Min | src/render/aabb.rs:6-11 | the result is one of the two arguments and no larger than either; on a tie it is the second |
| Aabb.Max | src/render/aabb.rs:13-19 | the result is one of the two arguments and no smaller than either; on a tie it is the second |
| Aabb.PartialMin | src/render/aabb.rs:21-28 | None exactly for an empty sequence; otherwise an element that is at most every element |
| Aabb.PartialMax | src/render/aabb.rs:30-37 | None exactly for an empty sequence; otherwise an element that is at least every element |
| Aabb.PartialMinOrderIndependent | src/render/aabb.rs:21-28 | the minimum depends only on the multiset of values, not their order |
| Aabb.PartialMaxOrderIndependent | src/render/aabb.rs:30-37 | the maximum depends only on the multiset of values, not their order |
| Aabb.MinCoords | src/render/aabb.rs:61-63 | the per-axis projection of the boxes' min corners, in box order |
| Aabb.MaxCoords | src/render/aabb.rs:66-68 | the per-axis projection of the boxes' max corners, in box order |
| Aabb.LowFace | src/render/aabb.rs:61-63 | the low face on an axis is attained by some box and lies at or below every box's min |
| Aabb.HighFace | src/render/aabb.rs:66-68 | the high face on an axis is attained by some box and lies at or above every box's max |
| Aabb.HullFaces | src/render/aabb.rs:61-71 | the hull's corners are the low and high faces on each axis |
| Aabb.HullEncloses | src/render/aabb.rs:61-71 | the hull of a non-empty list contains every box of the list |
| Aabb.Union | src/render/aabb.rs:56-74 | None exactly for no boxes, the box itself for one, and otherwise a box that contains every input |
| Aabb.UnionTouches | src/render/aabb.rs:61-71 | with two or more boxes, every face of the union is the face of some input box |
| Aabb.UnionOrderIndependent | src/render/aabb.rs:56-74 | reordering the boxes does not change the union |
| Aabb.LargerSideSize | src/render/aabb.rs:77-90 | the result is the largest of the three absolute side lengths |
| Aabb.Transform | src/render/aabb.rs:109-129 | the transformed box is well formed, with each face the min or max of the two transformed corners on that axis |
| GltfMesh.BufferViewSlice | crates/rich_engine/src/render/mesh.rs:110-118 | the slice has the view's length and byte i is byte offset+i of the view's buffer |
| GltfMesh.ViewStride | crates/rich_engine/src/render/mesh.rs:123-129 | the view's own stride when it declares one, else the format's computed stride |
| GltfMesh.SpanTotalProducts | crates/rich_engine/src/render/mesh.rs:142-151 | n windows of width stride cover n times stride bytes, and the last one starts (n-1) strides in |
| GltfMesh.Window | crates/rich_engine/src/render/mesh.rs:143-150 | one element's window is stride bytes, cut short only at the end of the view |
| GltfMesh.WindowsContiguous | crates/rich_engine/src/render/mesh.rs:135-138 | when every window fits, gathering them window by window gives the same bytes as one contiguous copy |
| GltfMesh.ReadableWindows | crates/rich_engine/src/render/mesh.rs:120-154 | under the non-panicking conditions every window start lies inside the view, and with equal strides the whole range fits |
| GltfMesh.GatherWindow | crates/rich_engine/src/render/mesh.rs:142-150 | one turn of the gathering loop: only the last window may be cut at the end of the view, and appending it leaves the remaining windows to gather |
| GltfMesh.Gather | crates/rich_engine/src/render/mesh.rs:140-151 | the gathered bytes are the view-stride windows from the accessor offset, laid end to end |
| GltfMesh.ReadNoSparseBuffer | crates/rich_engine/src/render/mesh.rs:120-154 | returns the accessor's count, the stride used and its element bytes; with equal strides exactly the contiguous range from the accessor offset |
| GltfMesh.PadTo4 | crates/rich_engine/src/render/mesh.rs:167-174 | the padding is below 4 and brings the length to a multiple of 4 |
| GltfMesh.AppendAsWritten | crates/rich_engine/src/render/mesh.rs:165-174 | as written: data, then zero padding, and the offset advanced by the padding |
| GltfMesh.AsWrittenOffsetMisses | crates/rich_engine/src/render/mesh.rs:165-174 | after 6 bytes of u16 indices a 12-byte position block sits at byte 6 but is recorded at offset 8 |
| GltfMesh.AppendAligned | crates/rich_engine/src/render/mesh.rs:165-174 | corrected: earlier output kept, zeros before and after, the data 4-aligned at the recorded offset, total length a multiple of 4 |
| GltfMesh.Append | crates/rich_engine/src/render/mesh.rs:165-174 | under either rule earlier output is kept and the recorded offset places the data; as written the bytes sit at the old end and the offset is the old end plus the padding, while under the corrected rule the bytes sit 4-aligned at the offset |
| GltfMesh.ReadVertexData | crates/rich_engine/src/render/mesh.rs:156-178 | an absent attribute changes nothing; a present one adds one meta with its location and accessor format and one offset, keeping earlier output, metas, offsets and indices and keeping the layout consistent; as written its bytes sit at the old end of the output and the offset is the old end plus the padding |
| GltfMesh.ReadAttributes | crates/rich_engine/src/render/mesh.rs:201-205 | the attributes are read in the fixed order position, normal, texture coordinates, weights, joints; each present one adds, in that order, one meta with its location and format whose offset places its bytes under the append rule; the output only grows and the indices are untouched |
| GltfMesh.LoadPrimitive | crates/rich_engine/src/render/mesh.rs:190-220 | a primitive that is not a triangle list or has no indices is the panic (`None`); otherwise the indices sit at the old end of the output with the accessor's count and index type, the attributes follow as read, the layout is consistent with bound offsets equal to meta offsets, the material is the conversion of the primitive's glTF material, and the number and bounds are kept |
| GltfMesh.MeshBox | crates/rich_engine/src/render/mesh.rs:21-25 | a mesh's box contains every primitive's box and is the zero box for a mesh with no primitives |
| GltfMesh.LoadPrimitives | crates/rich_engine/src/render/mesh.rs:188-221 | panics exactly when some primitive is not an indexed triangle list; otherwise one primitive per glTF primitive, numbered on from the running count, each with its indices and attributes placed as the per-primitive load promises in the final output |
| GltfMesh.LoadMesh | crates/rich_engine/src/render/mesh.rs:187-222 | panics exactly when some primitive is not an indexed triangle list; otherwise the primitives as loaded and a box containing every primitive's bounds |
| GltfMesh.LoadMeshes | crates/rich_engine/src/render/mesh.rs:181-224 | panics exactly when some primitive of some mesh is not an indexed triangle list; otherwise one mesh per document mesh, in order, primitive k of mesh m numbered with the count of primitives before m plus k, each with its indices and attributes placed in the shared output; run with the as-written append in the program and with the corrected one as its fixed variant |
| LegacyVertex.OffsetsFollowFields | src/render/vertex.rs:6-20 | each field offset is the sum of the sizes of the fields before it (0, 12, 24, 32, 48) and the 64-byte vertex ends right after the joints |
| LegacyVertex.BindingDescs | src/render/vertex.rs:35-40 | a single binding 0 whose stride is the whole vertex |
| LegacyVertex.AttributeDescs | src/render/vertex.rs:42-78 | five attributes on binding 0 at locations 0-4 and the field offsets, each format as wide as its field |
| LegacyVertex.AttributesTileVertex | src/render/vertex.rs:42-78 | the attributes tile the vertex: each ends where the next begins and the last ends at the stride |
| LegacyMesh.BuildVertices | src/render/mesh.rs:187-201 | one vertex per position, with each optional attribute taken at the same index or zero when that list is shorter |
| LegacyMesh.LoadPrimitive | src/render/mesh.rs:176-223 | a primitive without positions is skipped and changes nothing; a position count that differs from the accessor count is the count mismatch; otherwise the shared vertex list grows by exactly the primitive's built vertices and the index list by exactly its indices, and its record takes the next number, its box and material, starts its vertex part at 64 bytes per earlier vertex and its index part at 4 bytes per earlier index, and these parts name its own data |
| LegacyMesh.LoadStep | src/render/mesh.rs:174-224 | a loaded primitive followed by a well-loaded rest is a well-loaded whole: the appended contents, numbering, offsets and the data each part names carry over |
| LegacyMesh.LoadPrimitives | src/render/mesh.rs:173-226 | on success the shared vertex and index lists grow by exactly the built vertices and the indices of the positioned primitives, in order; one output per positioned primitive, in order, with its box, material, vertex count and index count, numbered on, vertex offsets at 64 bytes and index offsets at 4 bytes per earlier element, and each output's parts naming exactly its own primitive's vertices and indices in the final lists; any failure is the count mismatch |
| LegacyMesh.LoadPrimitivesFails | src/render/mesh.rs:176-181 | loading a mesh fails exactly when some positioned primitive's accessor count differs from its position count |
| LegacyMesh.LoadedWellAppend | src/render/mesh.rs:164-229 | loading one run of primitives and then another is loading their concatenation: appended contents, numbering, offsets, the source correspondence and the data each part names carry across |
| LegacyMesh.LoadAll | src/render/mesh.rs:164-229 | one group per document mesh holding its positioned primitives; the groups end to end are the document's primitives end to end loaded from the starting state, so the shared lists grow by exactly the built vertices and the indices of every positioned primitive in document order, and numbering, offsets and the data each part names run across the whole document; any failure is the count mismatch |
| LegacyMesh.LoadAllFails | src/render/mesh.rs:171-181 | loading the document fails exactly when some primitive of some mesh mismatches |
| LegacyMesh.IndexCountZero | src/render/mesh.rs:203-207 | the shared index list stays empty exactly when no positioned primitive carries an index |
| LegacyMesh.BuildMeshes | src/render/mesh.rs:14-20 | each mesh keeps its primitives and its box contains every primitive's box |
| LegacyMesh.LoadMeshes | src/render/mesh.rs:164-264 | a count mismatch fails first, then an empty document; on success one mesh per document mesh, each with at least one primitive and a box enclosing them; the vertex and index lists uploaded (lines 237-241) are exactly the built vertices and the indices of the positioned primitives in document order; all primitives end to end are numbered 0, 1, 2, … with their source's box, material and counts, 64-byte vertex and 4-byte index offsets, and parts naming their own data in the uploaded lists |
| LegacyMesh.LoadMeshesFails | src/render/mesh.rs:228-256 | with no mismatch and a non-empty document, loading fails with no indices exactly when no positioned primitive carries an index, and otherwise with an empty mesh exactly when some mesh has no positioned primitive |
| Model.Channels | crates/rich_engine/src/render/model.rs:185-217 | every 8-bit format has one to four bytes per pixel |
| Model.NextRgba | crates/rich_engine/src/render/model.rs:185-217 | every pixel expands to four bytes; formats without alpha get alpha 255, missing channels are 0, and RGBA pixels are copied unchanged |
| Model.BgrIsSwappedRgb | crates/rich_engine/src/render/model.rs:190-213 | a BGR pixel expands to the RGB expansion of the same bytes with red and blue swapped, and likewise BGRA against RGBA |
| Model.SwapRedBlueInvolution | crates/rich_engine/src/render/model.rs:196-213 | swapping red and blue twice restores the pixel |
| Model.BuildRgbaBuffer | crates/rich_engine/src/render/model.rs:220-228 | the buffer holds 4 bytes per pixel of the width-by-height image, pixel i at bytes 4i to 4i+4 being its RGBA expansion |
| Model.BitLength | crates/rich_engine/src/render/model.rs:231 | floor(log2 m) + 1 as the unique r with 2^(r-1) <= m < 2^r, and 0 for m = 0 |
| Model.MipLevels | crates/rich_engine/src/render/model.rs:231 | the mip count is the bit length of the smaller side, so 2^(levels-1) <= min(w, h) < 2^levels |
| Model.MipChainEndsAtOne | crates/rich_engine/src/render/model.rs:231 | halving the smaller side once per extra level ends at exactly 1 |
| Model.PrimitiveCountAppend | crates/rich_engine/src/render/model.rs:78-80 | the primitive count of concatenated mesh lists is the sum of their counts |
| Model.LoadedPrimitiveCount | crates/rich_engine/src/render/model.rs:78-80 | a mesh list shaped like the document, as the mesh loader returns it, holds exactly as many primitives as the document declares |
| Material.AlphaModeIndex | crates/rich_engine/src/render/material.rs:278-284 | every alpha mode maps to an index of at most 2, and to 2 exactly for Blend |
| Material.AlphaModeOfIndex | crates/rich_engine/src/render/material.rs:7-9 | the indices 0-2 are exactly the ones that name an alpha mode |
| Material.AlphaModeIndexRoundTrip | crates/rich_engine/src/render/material.rs:7-9 | the alpha-mode index and its inverse reading undo each other in both directions |
| Material.TillingOf | crates/rich_engine/src/render/material.rs:237-245 | no transform gives the default tilling (1, 1, 0, 0); a transform gives its scale then its offset |
| Material.TextureIndex | crates/rich_engine/src/render/material.rs:135-149 | a texture index is present exactly when the texture is, and is that texture's index |
| Material.GetTexture | crates/rich_engine/src/render/material.rs:248-254 | a texture info is present exactly when glTF gives one, with the same texture index and coordinate channel |
| Material.GetNormalsTexture | crates/rich_engine/src/render/material.rs:256-262 | a normal texture keeps its index and channel but always gets the default tilling (1, 1, 0, 0) |
| Material.GetOcclusion | crates/rich_engine/src/render/material.rs:264-276 | without an occlusion texture the strength is 0 and there is no texture; with one, its strength is kept |
| Material.FromGltf | crates/rich_engine/src/render/material.rs:178-235 | the specular-glossiness workflow and its diffuse colour are chosen exactly when present, else the base colour; cutoff defaults to 0.5; the material is transparent exactly when glTF says Blend |
| Material.TextureIndicesFollowGltf | crates/rich_engine/src/render/material.rs:135-149 | the emissive, normal and occlusion texture indices read back as the glTF texture indices, absent exactly when glTF has none |
| SceneNodes.Visit | crates/rich_engine/src/render/node.rs:142-152 | the recursive walk lists the node itself first, with the parent it was reached from, and every later entry has a parent |
| SceneNodes.VisitShape | crates/rich_engine/src/render/node.rs:142-152 | every entry of a node's walk is a real parent-child link, each parent is listed before its children, and every child of a listed node is listed |
| SceneNodes.TraversalShape | crates/rich_engine/src/render/node.rs:134-140 | the whole traversal is in pre-order, uses only real links, is closed under children, and lists every root with no parent |
| SceneNodes.RootsInOrder | src/render/node.rs:115-121 | the parentless entries of the traversal are exactly the scene roots, in the scene's order |
| SceneNodes.Step | crates/rich_engine/src/render/node.rs:106-117 | one traversal entry changes at most its own node's global matrix and never a node's local data |
| SceneNodes.Transform | crates/rich_engine/src/render/node.rs:105-119 | a transform pass keeps every node's local data and leaves nodes absent from the traversal untouched |
| SceneNodes.TransformSplit | crates/rich_engine/src/render/node.rs:106 | the pass over a traversal is the pass over its first k entries followed by the pass over the rest |
| SceneNodes.TransformFollowsParents | crates/rich_engine/src/render/node.rs:105-119 | in a pre-order traversal that lists each node once, every child's global matrix is its parent's final global matrix times its local transform; a root gets the given global matrix times its local transform, or is left as it was when none is given |
| SceneNodes.Comparable | crates/rich_engine/src/render/node.rs:142-152 | in a forest, two nodes that share a descendant are nested one in the other |
| SceneNodes.SiblingsDisjoint | crates/rich_engine/src/render/node.rs:149-151 | in a forest, the subtrees of two different children of a node share no node |
| SceneNodes.VisitDistinct | crates/rich_engine/src/render/node.rs:142-152 | in a forest, a node's walk lists each node at most once |
| SceneNodes.TraversalDistinct | crates/rich_engine/src/render/node.rs:134-140 | in a forest whose roots are distinct and are nobody's child, the traversal lists no node twice |
| SceneNodes.RootReaching | crates/rich_engine/src/render/node.rs:134-140 | every node in the traversal is below some scene root |
| SceneNodes.SkinsTransform | crates/rich_engine/src/render/node.rs:121-127 | each (skin, matrix) pair comes from some node with that skin and that global matrix, at most one per node |
| SceneNodes.SkinsTransformAppend | crates/rich_engine/src/render/node.rs:121-127 | the pairs of concatenated node lists are the pairs of each list, in node order |
| SceneNodes.SkinnedNodesListed | crates/rich_engine/src/render/node.rs:121-127 | every skinned node contributes its (skin, global matrix) pair |
| SceneNodes.New | crates/rich_engine/src/render/node.rs:89-101 | building the hierarchy keeps the roots and the local node data, and produces a pre-order traversal closed under children whose parentless entries are the roots |
| SceneNodes.NewPropagates | crates/rich_engine/src/render/node.rs:89-90 | after construction every non-root listed node's global matrix is its parent's times its local transform, roots keep their own matrix, and no node is listed twice |
| SceneNodes.SettersIndependent | crates/rich_engine/src/render/node.rs:210-232 | each setter is read back by its getter, a later set of the same field wins, setters of different fields commute, setting a field to its current value changes nothing, and the global matrix is untouched |
| Destroy.Descend | crates/rich_engine/src/core/destroy.rs:14-22 | the recursive walk over a child list labels at least every listed child |
| Destroy.DescendClosed | crates/rich_engine/src/core/destroy.rs:14-22 | what the recursive walk labels is closed under taking children |
| Destroy.DescendLeast | crates/rich_engine/src/core/destroy.rs:14-22 | any child-closed set holding the listed children holds everything the walk labels |
| Destroy.Label | crates/rich_engine/src/core/destroy.rs:24-33 | the labelling pass never removes a Destroy label and changes neither the entities nor the hierarchy |
| Destroy.InsertsClosed | crates/rich_engine/src/core/destroy.rs:24-33 | the labels inserted for the marked parents form a child-closed set containing their children |
| Destroy.InsertsLeast | crates/rich_engine/src/core/destroy.rs:24-33 | any child-closed set containing the queried parents contains every inserted label |
| Destroy.LabelIsLeastClosure | crates/rich_engine/src/core/destroy.rs:24-33 | after the pass the marked set is the least child-closed set containing the originally marked entities |
| Destroy.LabelOrderIndependent | crates/rich_engine/src/core/destroy.rs:24-33 | the query's iteration order does not change the result |
| Destroy.LabelIdempotent | crates/rich_engine/src/core/destroy.rs:24-33 | running the labelling pass again changes nothing |
| Destroy.DestroyMarked | crates/rich_engine/src/core/destroy.rs:35-43 | exactly the marked entities are despawned and every other entity survives |
| Util.StencilFormats | src/render/util.rs:15-17 | exactly the two depth formats with an 8-bit stencil part count as having a stencil component |
| Util.FlattenLayout | src/render/util.rs:7-12 | n elements of a fixed size laid end to end take n times that size, element i byte j at i*size+j |
| Util.MemCopy | src/render/util.rs:7-12 | the copy writes the flattened elements at the start of the mapping and leaves the rest of the mapping as it was |
| GpuBuffer.Create | src/render/buffer.rs:39-69 | a fresh buffer has the requested size, usage and memory properties and is not mapped |
| GpuBuffer.CreateConsistent | src/render/buffer.rs:39-69 | a fresh buffer over untouched memory agrees with the driver: it is unmapped and the memory is not mapped |
| GpuBuffer.Map | src/render/buffer.rs:107-118 | mapping marks the buffer mapped; the driver is asked only when it was not mapped already |
| GpuBuffer.Unmap | src/render/buffer.rs:120-126 | unmapping marks the buffer unmapped; the driver is asked only when it was mapped |
| GpuBuffer.Destroy | src/render/buffer.rs:31-37 | destroying unmaps first exactly when mapped, then destroys the buffer and frees its memory, keeping the earlier log |
| GpuBuffer.MapIdempotent | src/render/buffer.rs:107-118 | mapping twice is the same as mapping once |
| GpuBuffer.MapUnmapConsistent | src/render/buffer.rs:107-126 | map and unmap keep the cached pointer in step with the driver's mapping state, so no memory is mapped twice or unmapped while unmapped |
| GpuBuffer.DestroyUnmapsBeforeFree | src/render/buffer.rs:31-37 | after destroy the driver sees the memory unmapped and freed without a double map, double unmap or free of mapped memory |
| GpuBuffer.Upload | src/render/buffer.rs:90-95 | the buffer ends mapped, its first n*size bytes are the data and the rest are unchanged; mapping is the only driver call |
| GpuBuffer.CreateHostVisible | src/render/buffer.rs:78-88 | the host-visible buffer is sized to the data, holds exactly the data, is host visible and coherent, and stays mapped |
| GpuBuffer.ExecuteCopy | src/render/buffer.rs:128-140 | the copied region of the destination equals the source region and every other destination byte is unchanged |
| GpuBuffer.CreateDeviceLocal | src/render/buffer.rs:97-104 | the device buffer is device local, sized to the data and usable as a transfer destination; the staging buffer holding the data is pushed on the staging list |
| GpuBuffer.DeviceLocalReceivesData | src/render/buffer.rs:97-104 | the recorded copy goes from the staging buffer to the device buffer and, once executed, leaves exactly the data there; the staging buffer is not destroyed or freed by the upload |
| Texture.TransitionFollowsTable | src/render/texture.rs:403-460 | the access masks of a transition are those of the matching table row, or the fallback masks when none matches; every listed transition waits on some destination access |
| Texture.AspectMask | src/render/texture.rs:462-470 | the depth-stencil target layout gets the depth aspect, plus stencil exactly for the stencil formats; every other layout gets the colour aspect alone |
| Texture.Transition | src/render/texture.rs:396-501 | the barrier goes from the old to the new layout with the table's masks and the layout's aspect, and covers every mip level and array layer of the image |
| Texture.BarrierOnLevel | src/render/texture.rs:290-307 | a barrier on one mip level moves that level to the new layout and leaves every other level as it was |
| Texture.BarrierAll | src/render/texture.rs:478-484 | a barrier over the whole mip range moves every level from the old layout (or from undefined) to the new one |
| Texture.MipSizeClosedForm | src/render/texture.rs:276-288 | the side at level k is the side divided by 2^k, floored, but never below 1, and it never grows from one level to the next |
| Texture.GenerateMipmaps | src/render/texture.rs:248-393 | with linear blitting, each level from 1 up gets a to-source barrier on the level below, a blit from it and a to-shader barrier; a final barrier closes the last level; every level starts in transfer-destination and ends shader-readable |
| Texture.StepRuns | src/render/texture.rs:290-369 | one loop iteration moves level-1 from transfer-destination through transfer-source to shader-readable and leaves the later levels as transfer destinations |
| Texture.FlattenSingletons | src/render/texture.rs:75-76 | copying bytes as one-byte elements writes the bytes themselves |
| Texture.CreateFromData | src/render/texture.rs:64-93 | the staging buffer holds the data, is mapped and is pushed on the staging list; the commands are a transition to transfer-destination, the copy of all array layers, then the mip chain, leaving every level shader-readable |
| Texture.RunFront | src/render/texture.rs:83-88 | the transition from undefined and the buffer copy leave every level a transfer destination, so the mip chain after them ends with every level shader-readable |
| Texture.RunAppend | src/render/texture.rs:83-88 | running two command lists in turn is running their concatenation |
| TableData.Load | crates/rich_engine/src/game/table_data.rs:21-38 | the table has a key exactly for the hash of some loaded item's name |
| TableData.LoadLastWins | crates/rich_engine/src/game/table_data.rs:29-35 | every item's name hash is a key, and it finds that item unless a later item's name hashes the same |
| TableData.Find | crates/rich_engine/src/game/table_data.rs:40-42 | find gives nothing exactly when the key is absent, and the stored item otherwise |
| TableData.Index | crates/rich_engine/src/game/table_data.rs:44-53 | index demands a present key and returns what find returns |
| TableData.IndexByStr | crates/rich_engine/src/game/table_data.rs:56-61 | indexing by a string is indexing by its hash |
| TableData.IndexByNameFindsItem | crates/rich_engine/src/game/table_data.rs:21-61 | an item whose name no later item's name collides with is found by its own name |
| ModelRenderer.Slots | crates/rich_engine/src/render/model_renderer.rs:65-73 | every listed (node, primitive) pair names an existing primitive of a mesh-bearing node at or after the starting node |
| ModelRenderer.FragTilling | crates/rich_engine/src/render/model_renderer.rs:327-333 | a material without a colour texture gets the default tilling |
| ModelRenderer.FragTillingFollowsGltf | crates/rich_engine/src/render/model_renderer.rs:327-333 | the fragment tilling of a glTF material is its colour texture's transform (diffuse under specular-glossiness, base colour otherwise), or the default |
| ModelRenderer.CreatePrimitiveRender | crates/rich_engine/src/render/model_renderer.rs:318-382 | the render keeps the layout's defines and adds SKIN exactly for animated models; the frame-uniform and material sets come first, and the skin set is bound in both pipelines exactly for animated models |
| ModelRenderer.CreateFollowsSlots | crates/rich_engine/src/render/model_renderer.rs:64-73 | one render per (node, primitive) pair, in node order then primitive order |
| ModelRenderer.Create | crates/rich_engine/src/render/model_renderer.rs:60-79 | render k is the render created for the k-th (node, primitive) pair |
| ModelRenderer.WalkMatchesSlots | crates/rich_engine/src/render/model_renderer.rs:134-194 | corrected: every draw uses the render created for its own (node, primitive) |
| ModelRenderer.WalkDrawsFoundNodes | crates/rich_engine/src/render/model_renderer.rs:139-144 | only nodes without a mesh or with a found transform are drawn, and never more draws than renders |
| ModelRenderer.WalkAgreesWhenAllFound | crates/rich_engine/src/render/model_renderer.rs:139-144 | when every transform lookup succeeds, the walk as written and the corrected walk issue the same draws |
| ModelRenderer.AsWrittenSkipUsesWrongRender | crates/rich_engine/src/render/model_renderer.rs:141-157 | as written: node A (mesh 0) without a transform is skipped, and node B's primitive is then drawn with render 0, created for A's primitive; the corrected walk uses render 1 |
| ModelRenderer.BoundSetsFitLayouts | crates/rich_engine/src/render/model_renderer.rs:116-187 | the bound sets match the pipeline layouts exactly when skins are supplied for animated models and only for them |
| ModelRenderer.PushesWithinRanges | crates/rich_engine/src/render/model_renderer.rs:162-167 | the model-matrix push and the fragment-constant push each fall inside their stage's declared range, and the ranges do not overlap |
| RenderContext.FindMemoryType | crates/rich_engine/src/render/render_context.rs:489-502 | the chosen index is below the type count, allowed by the requirement bits and carries every requested property, and no earlier index qualifies; none exactly when no index qualifies |
| RenderContext.FindMemoryTypeMonotone | crates/rich_engine/src/render/render_context.rs:489-502 | asking for a subset of the properties still finds a type, and never a later one |
| RenderContext.UboAlignment | crates/rich_engine/src/render/render_context.rs:545-554 | with a non-zero minimum the result is a multiple of the minimum that holds the type and is at least the minimum, and it exceeds the size by less than one minimum unless it is the minimum itself |
| RenderContext.UboAlignmentLeast | crates/rich_engine/src/render/render_context.rs:545-554 | no multiple of the minimum that holds the type is smaller than the result |
| RenderContext.WithQueues | crates/rich_engine/src/render/render_context.rs:272 | only families with at least one queue are searched |
| RenderContext.WithQueuesAll | crates/rich_engine/src/render/render_context.rs:272 | when every family has a queue, the filter keeps them all |
| RenderContext.ScanFindsFirsts | crates/rich_engine/src/render/render_context.rs:261-299 | corrected: the search that runs until all three are known reports the first graphics, first present and first compute family, each missing exactly when no family of that kind exists |
| RenderContext.AsWrittenAgreesOnGraphicsAndPresent | crates/rich_engine/src/render/render_context.rs:268-296 | the search as written and the corrected search agree on graphics and present |
| RenderContext.ScanKeepsKnown | crates/rich_engine/src/render/render_context.rs:274-286 | once known, the graphics and present families are never replaced |
| RenderContext.AsWrittenMissesCompute | crates/rich_engine/src/render/render_context.rs:290-294 | as written: a graphics-and-present family followed by a compute-only family stops the search before compute is found, while the corrected search finds family 1 |
| RenderContext.CheckExtensionSupport | crates/rich_engine/src/render/render_context.rs:238-259 | the device is accepted exactly when every required extension name is among its extensions |
| RenderContext.PickDevice | crates/rich_engine/src/render/render_context.rs:366-369 | the chosen device is the first suitable one; none exactly when no device is suitable |
| RenderContext.SuitableWithoutCompute | crates/rich_engine/src/render/render_context.rs:214-232 | a device passes the suitability test although the search as written finds no compute family for it, so context creation then panics at crates/rich_engine/src/render/render_context.rs:375 |
| RenderContext.QueueCreateIndices | crates/rich_engine/src/render/render_context.rs:387-399 | the queue-create list holds the graphics and the present family, once each |
| RenderContext.PushStaging | crates/rich_engine/src/render/render_context.rs:504-506 | the new staging buffer is appended after the existing ones, so the handles a later flush destroys are the old ones followed by the new one |
| RenderContext.FlushStaging | crates/rich_engine/src/render/render_context.rs:508-513 | flushing empties the staging list and destroys every staged buffer, in order |
| RenderContext.FlushDestroysEach | crates/rich_engine/src/render/render_context.rs:508-513 | destroying the buffers one after another appends their handles, in order, to the destroyed list |
| RenderContext.InsertResource | crates/rich_engine/src/render/render_context.rs:515-517 | the map stays keyed by resource type; the new resource replaces the entry of its type and other entries are unchanged |
| RenderContext.GetResource | crates/rich_engine/src/render/render_context.rs:519-526 | a present type yields a resource of that type, so the downcast cannot fail |
| RenderContext.ResourceInsertGet | crates/rich_engine/src/render/render_context.rs:515-526 | getting a type after inserting one of it yields the inserted resource; other types read as before |
| RenderContext.GetModel | crates/rich_engine/src/render/render_context.rs:541-543 | an absent handle gives nothing, a present one its model |
| RenderContext.ModelInsertGet | crates/rich_engine/src/render/render_context.rs:537-543 | after inserting a model its handle yields it and other handles read as before |
| DeviceMgr.FamilyOf | src/render/device_mgr.rs:120-141 | the family is the lowest one with both graphics and surface support; none exactly when the device has no such family |
| DeviceMgr.Select | src/render/device_mgr.rs:115-169 | the chosen device is the first with such a family, paired with that family; one queue is created on it and queue 0 of it presents; none (the panic) exactly when no device has one |
| DeviceMgr.ContextFamiliesNoLater | src/render/device_mgr.rs:120-141 | on a device whose families all have queues, the render context's graphics and present families are found and are no later than the family the device manager picks |
| Swapchain.DesiredImageCount | src/render/swapchain_mgr.rs:28-33 | one image more than the surface minimum, capped by a non-zero maximum, and never more than the minimum plus one |
| Swapchain.CreateSync | src/render/swapchain_mgr.rs:104-121 | one fence and two semaphores per present image, each in its own slot, with only the first fence created signaled |
| Swapchain.WaitForSwapChain | src/render/swapchain_mgr.rs:152-169 | acquisition signals the current image-available semaphore, the index moves one step around the ring and the previous index's fence is waited on |
| Swapchain.FrameSemaphoresChain | src/render/swapchain_mgr.rs:152-184 | within a frame, submission waits on the semaphore acquisition signalled and present waits on the one submission signals |
| Swapchain.FenceWaitedIsLastSubmitted | src/render/swapchain_mgr.rs:152-184 | each acquisition waits on the fence handed out for the previous frame's submission |
| Swapchain.FirstWaitIsOnSignaledFence | src/render/swapchain_mgr.rs:104-169 | the first acquisition waits on fence 0, the only fence created signaled, so it cannot block forever |
| Swapchain.FramesAdvance | src/render/swapchain_mgr.rs:152-169 | after n frames the semaphore index has moved n steps around the ring and the image index to present is unchanged |
| Swapchain.ChooseExtent | src/render/swapchain_mgr.rs:56-62 | the window's size exactly when the surface reports the "any size" width u32::MAX, and otherwise the surface's current extent unchanged |
| Swapchain.Init | src/render/swapchain_mgr.rs:133-135 | the ring starts with the semaphore index, the previous index and the image to present all 0, and is valid whenever there is an image |
| Swapchain.GetSemaphores | src/render/swapchain_mgr.rs:180-184 | submission waits on the previous index's image-available semaphore and signals and fences the current index |
| Swapchain.Present | src/render/swapchain_mgr.rs:171-178 | present waits on the current index's render-finish semaphore and names the stored image index |
| Swapchain.Frames | src/render/swapchain_mgr.rs:152-169 | any number of frames keeps the ring valid and its size unchanged |
| Swapchain.PresentAlwaysImageZero | src/render/swapchain_mgr.rs:171-178 | every present, however many frames in, names image 0, the index set at creation |
| CommandBuffers.Request | crates/rich_engine/src/render/command_buffer_list.rs:26-32 | creation asks the pool for one more buffer than the frame count |
| CommandBuffers.Create | crates/rich_engine/src/render/command_buffer_list.rs:18-39 | the list holds the frame count plus one buffers from the pool |
| CommandBuffers.Upload | crates/rich_engine/src/render/command_buffer_list.rs:45-47 | the upload buffer is the last one, at index equal to the frame count |
| CommandBuffers.FrameBuffersDistinct | crates/rich_engine/src/render/command_buffer_list.rs:41-47 | every per-frame buffer differs from the upload buffer and from every other per-frame buffer |
| CommandBuffers.Destroy | crates/rich_engine/src/render/command_buffer_list.rs:11-16 | destruction frees every allocated buffer, the upload one included, in one call on the list's pool, then destroys the pool |
| Grass.Size | crates/rich_engine/src/render/grass.rs:454-474 | sizing succeeds exactly when the blade buffer size fits in 32 bits; then the blade count is the product of the slot counts, each blade buffer holds every blade, and the dispatch is the least number of 32-wide groups covering every blade |
| Grass.DefaultGridSize | crates/rich_engine/src/render/grass.rs:446-461 | the 100 by 100 grid in 0.15 slots gives 666 slots a side, 443556 blades, 13862 groups and 28387584-byte blade buffers |
| Grass.BladeLayoutTiles | crates/rich_engine/src/render/grass.rs:368-401 | the blade binding's four attributes sit at locations 0 to 3, one after another, and the last ends exactly at the blade stride |
| Grass.ComputeGrassData | crates/rich_engine/src/render/grass.rs:558-566 | the first call generates and then updates with a wait on generation, later calls only update, and the flag is set afterwards |
| Grass.GeneratedStaysUpdateOnly | crates/rich_engine/src/render/grass.rs:558-566 | once generated, each frame is one update and generation never runs again |
| Grass.GenerateExactlyOnce | crates/rich_engine/src/render/grass.rs:487 | from a fresh manager, any positive number of frames generates exactly once, in the first frame |
| AnimationSystem.Push | crates/rich_engine/src/render/animation_system.rs:156-159 | a pushed command goes to the end of the queue and the earlier commands stay as they were |
| AnimationSystem.PushChain | crates/rich_engine/src/render/animation_system.rs:147-159 | chained pushes on a fresh queue give the queue of those commands in push order |
| AnimationSystem.ApplyCommandsSnoc | crates/rich_engine/src/render/animation_system.rs:86-97 | the commands of a queue are applied in queue order, the last one last |
| AnimationSystem.ClipIsLastPlayed | crates/rich_engine/src/render/animation_system.rs:86-97 | after a queue the player is on the clip of the queue's last Play, or on the clip it had when there is none |
| AnimationSystem.LastCommandDecides | crates/rich_engine/src/render/animation_system.rs:86-97 | after applying a queue, a final Play leaves that clip playing and a final Stop leaves the player stopped on the clip of the last earlier Play, or on the one it had |
| AnimationSystem.UpdateAnimationNodes | crates/rich_engine/src/render/animation_system.rs:85-115 | without animation data nothing changes and the queue is kept; with data the queue is applied in order and cleared; a change is reported, and transforms recomputed, exactly when there is data and the player reports a change |
| AnimationSystem.SkinBufferSize | crates/rich_engine/src/render/animation_system.rs:28-33 | creation panics exactly when there are no skins; otherwise the skin buffer holds one aligned 512-matrix block per skin |
| AnimationSystem.SkinSlots | crates/rich_engine/src/render/animation_system.rs:117-127 | a skin's block is 512 matrices, its joints' matrices first in joint order and identity after; more than 512 joints panics |
| ModelRuntime.CreateModelSkins | crates/rich_engine/src/render/model_runtime.rs:161-207 | the skins start valid, each gets one block of the aligned 512-matrix size, and the buffer holds one block per skin |
| ModelRuntime.DestroySkins | crates/rich_engine/src/render/model_runtime.rs:40-47 | destroying invalid skins panics; otherwise the skins become invalid and nothing else changes |
| ModelRuntime.DestroyTwicePanics | crates/rich_engine/src/render/model_runtime.rs:40-47 | a second destroy of the same skins panics |
| ModelRuntime.NamedNodes | crates/rich_engine/src/render/model_runtime.rs:106-112 | every named node's name is in the table, and every table entry points at a node carrying that name |
| ModelRuntime.NamedNodesLastWins | crates/rich_engine/src/render/model_runtime.rs:106-112 | a name maps to the last node carrying it |
| ModelRuntime.Init | crates/rich_engine/src/render/model_runtime.rs:92-142 | more than one skin panics; otherwise one runtime node per source node, the named-node table, skins exactly when the model has one skin, and the model's animations when it has them |
| ModelRuntime.JointWriteOverrunsAsWritten | crates/rich_engine/src/render/model_runtime.rs:262-267 | as written: the single skin's joint `element_size / 64`, at least joint 512, is written at or past the end of the skin buffer (joint 512 exactly for a 256-byte alignment) |
| ModelRuntime.CheckedJointOffset | crates/rich_engine/src/render/model_runtime.rs:262-267 | corrected: a joint index of 512 or more is not written; any other is written at the source's offset |
| ModelRuntime.JointWriteInBounds | crates/rich_engine/src/render/model_runtime.rs:262-267 | corrected: for a skin index below the skin count every joint matrix written lies wholly inside that skin's block, and the block inside the skin buffer |
| ModelRuntime.RuntimeAnimationStep | crates/rich_engine/src/render/model_runtime.rs:216-228 | the queue is cleared; the last command decides whether a clip plays; an empty queue leaves the player alone |
| ModelRuntime.RuntimeAgreesWithAnimationSystem | crates/rich_engine/src/render/model_runtime.rs:216-228 | the runtime system and the animation system leave the same player and the same (empty) queue after a batch of commands |
| RenderPlugin.CollectDestroy | crates/rich_engine/src/render/render_plugin.rs:244-258 | a handle is to be destroyed exactly when some event modified or removed it |
| RenderPlugin.CollectChanged | crates/rich_engine/src/render/render_plugin.rs:244-258 | a handle is to be (re)built exactly when the last event naming it is a creation or a modification |
| RenderPlugin.LiveLastNames | crates/rich_engine/src/render/render_plugin.rs:244-258 | when the last event names the handle, the handle is live exactly when that event is not a removal |
| RenderPlugin.LiveLastOther | crates/rich_engine/src/render/render_plugin.rs:244-258 | an event naming another handle does not affect whether a handle is live |
| RenderPlugin.EventOrderMatters | crates/rich_engine/src/render/render_plugin.rs:246-256 | a removal followed by a creation leaves the handle to rebuild, a creation followed by a removal does not; both destroy it |
| RenderPlugin.RemoveAll | crates/rich_engine/src/render/render_plugin.rs:260-263 | removing the listed handles keeps exactly the other models, unchanged |
| RenderPlugin.CreateAll | crates/rich_engine/src/render/render_plugin.rs:270-287 | building panics exactly when a listed handle has no loaded asset; otherwise every listed handle maps to the model built from its asset and other models are kept |
| RenderPlugin.LoadGltf | crates/rich_engine/src/render/render_plugin.rs:240-288 | panics exactly when a handle to build has no asset; otherwise the map holds the models not destroyed plus the rebuilt ones, rebuilt models come from their assets, untouched models are unchanged, and every removal is issued before any creation |
| RenderPlugin.UniqueListLength | crates/rich_engine/src/render/render_plugin.rs:260-287 | a duplicate-free listing of a hash set visits each member once |
| RenderPlugin.ModifiedIsRebuilt | crates/rich_engine/src/render/render_plugin.rs:249-287 | a single modification removes the model and rebuilds it from its asset |
| RenderPlugin.WithRenderer | crates/rich_engine/src/render/render_plugin.rs:109-117 | the shadow pass draws exactly the queried models that have a renderer |
| RenderPlugin.WithRendererAppend | crates/rich_engine/src/render/render_plugin.rs:109-117 | the shadow list keeps query order |
| RenderPlugin.MainPass | crates/rich_engine/src/render/render_plugin.rs:123-126 | the main pass panics exactly when a listed model has no renderer, and otherwise draws the list as given |
| RenderPlugin.DrawModels | crates/rich_engine/src/render/render_plugin.rs:88-138 | a failed begin draws nothing and sets the present index to -1; a begun frame keeps its index, computes grass exactly when grass drawing is enabled, and draws in the main pass exactly the models of the shadow pass |
| RenderPlugin.EndDraw | crates/rich_engine/src/render/render_runner.rs:133-139 | a frame is ended exactly when the present index is not negative, on that index's command buffer |
| RenderPlugin.EndFollowsBegin | crates/rich_engine/src/render/render_plugin.rs:140-146 | a frame whose begin failed is never ended, and a begun one is ended on the buffer of its own present index |
| ShaderCollection.Decimal | src/render/shader_collection.rs:61 | the cache key is written as a non-empty string of decimal digits |
| ShaderCollection.DecimalRoundTrip | src/render/shader_collection.rs:61 | reading the written key back as a decimal gives the key, so distinct keys name distinct output files |
| ShaderCollection.CompileArgs | src/render/shader_collection.rs:60-67 | the compiler is run as glslc on the shader's source path with the output path named by the key, followed by one -D flag per define in order |
| ShaderCollection.CreateShader | src/render/shader_collection.rs:46-94 | a cached key returns its module and compiles nothing; otherwise the compiler runs once with those arguments, an unloadable output panics, and the new module is cached under the key |
| ShaderCollection.SecondCallHits | src/render/shader_collection.rs:56-58 | after a successful call, the same request is a hit returning the same module without compiling |
| ShaderCollection.StderrIgnored | src/render/shader_collection.rs:76-85 | what the compiler writes to its error stream never changes the outcome |
| ShaderCollection.DefineOrderMatters | src/render/shader_collection.rs:49-54 | the key hashes the defines in order, so the same defines in another order are another cache entry when the hash has no collisions |
| ShaderCollection.Destroy | src/render/shader_collection.rs:37-44 | destruction empties the cache and destroys every cached module exactly once |
| FlyCamera.MovementAxis | crates/rich_engine/src/render/fly_camera.rs:4-17 | the axis is +1 when only the plus key is held, -1 when only the minus key is, and 0 when both or neither are |
| FlyCamera.BothKeysCancel | crates/rich_engine/src/render/fly_camera.rs:4-17 | holding both keys of an axis cancels out |
| FlyCamera.MovementAxes | crates/rich_engine/src/render/fly_camera.rs:105-120 | a disabled camera gets no movement; an enabled one reads right/left, backward/forward and up/down as its three axes |
| FlyCamera.DefaultForwardIsNegative | crates/rich_engine/src/render/fly_camera.rs:61-81 | with the default bindings, holding W alone gives vertical axis -1 and no strafe |
| FlyCamera.TrackAllHeld | crates/rich_engine/src/render/fly_camera.rs:206-216 | after the button events a camera holds b exactly when the last press was of b and b was not released since, or nothing was pressed and b was held before and not released |
| FlyCamera.HeldAfterPress | crates/rich_engine/src/render/fly_camera.rs:207-208 | after a final press, the pressed button is the one held |
| FlyCamera.HeldAfterReleaseOf | crates/rich_engine/src/render/fly_camera.rs:209-213 | releasing the held button lets it go |
| FlyCamera.HeldAfterReleaseOther | crates/rich_engine/src/render/fly_camera.rs:209-213 | releasing another button changes nothing |
| FlyCamera.LastPressWins | crates/rich_engine/src/render/fly_camera.rs:206-216 | the last press decides the held button, and releasing a button not held keeps the held one |
| FlyCamera.MotionFor | crates/rich_engine/src/render/fly_camera.rs:218-238 | a held left button rotates, a held middle button pans, anything else does nothing |
| FlyCamera.MouseMotion | crates/rich_engine/src/render/fly_camera.rs:185-241 | one result per camera; a NaN motion delta changes nothing; a disabled camera is skipped; only the held button can change, and each enabled camera moves by the motion its held button selects |
| FlyCamera.NoEventsKeepHeld | crates/rich_engine/src/render/fly_camera.rs:201-216 | without button events no camera's held button changes |
| FlyCamera.OnlyFirstEnabledTracks | crates/rich_engine/src/render/fly_camera.rs:201-216 | the first enabled camera consumes the button events, so every later camera keeps its held button |
| FlyCamera.Wheel | crates/rich_engine/src/render/fly_camera.rs:159-183 | a zero wheel sum moves nothing, a disabled camera never moves, and all enabled cameras move by the same step |
| FlyCamera.WheelDirection | crates/rich_engine/src/render/fly_camera.rs:165-181 | scrolling up moves an enabled camera back along its forward axis and scrolling down moves it forward |
| EguiIntegrate.BevyToEguiKey | crates/rich_editor/src/egui_integrate.rs:584-640 | numpad and top-row digits map to the same digit key, letters to their letter, named keys to their egui names, and exactly the modifier keys and unlisted keys have no egui key |
| EguiIntegrate.EguiToBevyKey | crates/rich_editor/src/egui_integrate.rs:584-640 | every egui key has a window-system key that names it |
| EguiIntegrate.KeyRoundTrip | crates/rich_editor/src/egui_integrate.rs:584-640 | translating an egui key's window-system key gives it back, and only that key or the numpad digit translate to it |
| EguiIntegrate.KeyTranslationCollisions | crates/rich_editor/src/egui_integrate.rs:584-640 | two different keys translate to the same egui key only when they are the numpad and top-row forms of one digit |
| EguiIntegrate.EguiToWindowCursor | crates/rich_editor/src/egui_integrate.rs:554-582 | only the "no cursor" icon has no window cursor |
| EguiIntegrate.WindowToEguiCursor | crates/rich_editor/src/egui_integrate.rs:554-582 | every window cursor comes from an egui icon other than "no cursor" |
| EguiIntegrate.CursorBijection | crates/rich_editor/src/egui_integrate.rs:554-582 | the icon translation is one-to-one between the egui icons other than "no cursor" and the window cursors |
| EguiIntegrate.ProcessMouseButton | crates/rich_editor/src/egui_integrate.rs:642-669 | a button egui does not know panics; a button just pressed or released appends one pointer event with its egui name, its state and the modifiers; otherwise nothing is appended |
| EguiIntegrate.PointerButtons | crates/rich_editor/src/egui_integrate.rs:402-431 | the left, right and middle buttons append at most three events after the existing ones, which stay as they were |
| EguiIntegrate.ModifiersFrom | crates/rich_editor/src/egui_integrate.rs:350-372 | shift, ctrl and alt are either key of their pair; off macOS command is ctrl and mac_cmd is false; on macOS both are the Windows/Command key |
| EguiIntegrate.ReceivedText | crates/rich_editor/src/egui_integrate.rs:433-445 | nothing is forwarded while Control or the Windows key is held; otherwise every non-control character becomes a one-character text event, and every event is one non-control character of the input |
| EguiIntegrate.TextEvents | crates/rich_editor/src/egui_integrate.rs:434-444 | every non-control character becomes a one-character text event, every event is one non-control character of the input, and there are no more events than characters |
| EguiIntegrate.TextEventsOne | crates/rich_editor/src/egui_integrate.rs:434-444 | one character gives exactly its own text event, or nothing when it is a control character; with the append law this fixes the events of any input, in order |
| EguiIntegrate.TextEventsAppend | crates/rich_editor/src/egui_integrate.rs:434-444 | text events keep the characters' order |
| EguiIntegrate.KeyInput | crates/rich_editor/src/egui_integrate.rs:452-485 | a key without an egui name gives nothing; otherwise a key event with its state and the modifiers, followed, while command is held, by Copy for C, Cut for X or the clipboard's text for V when it has some |
| EguiIntegrate.NoCommandOnlyKeys | crates/rich_editor/src/egui_integrate.rs:452-485 | without command, keyboard input yields only key events, at most one per input |
| EguiIntegrate.PasteFollowsKey | crates/rich_editor/src/egui_integrate.rs:359-485 | off macOS, Ctrl+V gives the V key event followed by the clipboard's text |
| EguiIntegrate.BeginFrame | crates/rich_editor/src/egui_integrate.rs:494-506 | a context without collected input panics; otherwise every context takes its window's input, which is reset, and other windows' input is left alone |
| EguiIntegrate.InputHandedOverOnce | crates/rich_editor/src/egui_integrate.rs:494-506 | a second frame without new input hands every context an empty input |
| EguiRender.VertexLayoutTiles | crates/rich_editor/src/egui_render.rs:113-154 | the 20-byte vertex holds position, uv and colour back to back at locations 0 to 2, filling the stride exactly, and the push constants are the two floats of the screen size |
| EguiRender.PaintFromMatchesKept | crates/rich_editor/src/egui_render.rs:460-572 | from any bases inside the buffers, the mesh loop panics exactly when a user texture index is out of range or the drawn meshes overflow a buffer, and otherwise draws the drawn meshes packed back to back |
| EguiRender.OffsetsArePrefixSums | crates/rich_editor/src/egui_render.rs:500-519 | each packed draw starts at the index count, and offsets by the vertex count, of the drawn meshes before it |
| EguiRender.PaintCorrect | crates/rich_editor/src/egui_render.rs:460-572 | corrected: painting succeeds exactly when every user texture index names a slot and the drawn meshes (registered texture, vertices and indices) fit both buffers, and then each drawn mesh gets one draw at its prefix sums, in order |
| EguiRender.AsWrittenRejectsExactFit | crates/rich_editor/src/egui_render.rs:506-513 | as written: one font mesh with 524288 indices fills the 2 MiB index buffer exactly and panics, while the corrected check draws it |
| EguiRender.AsWrittenAgreesWhenItSucceeds | crates/rich_editor/src/egui_render.rs:506-513 | wherever the as-written painter succeeds the corrected one draws the same, and they differ only when a buffer is filled exactly |
| EguiRender.PaintAsWritten | crates/rich_editor/src/egui_render.rs:460-572 | as written: painting succeeds exactly when every user texture index names a slot and the drawn meshes' data ends strictly before the end of both buffers |
| EguiRender.Paint | crates/rich_editor/src/egui_render.rs:460-572 | corrected: painting succeeds exactly when every user texture index names a slot and the drawn meshes' data ends at or before the end of both buffers |
| EguiRender.UserTextureWithoutSlotsPanics | crates/rich_editor/src/egui_render.rs:464-466 | no user texture slot is ever registered, so any mesh with a user texture panics on the slot lookup |
| EguiRender.Clamp | crates/rich_editor/src/egui_render.rs:530-540 | clamping lands within the bounds and leaves a value already within them unchanged |
| EguiRender.ScissorFor | crates/rich_editor/src/egui_render.rs:524-541 | the scissor lies within the framebuffer with its corners ordered, and a scaled corner already inside is kept |
| EguiRender.Expand | crates/rich_editor/src/egui_render.rs:595-599 | the font data repeats each coverage byte four times, in pixel order |
| EguiRender.ExpandRoundTrip | crates/rich_editor/src/egui_render.rs:595-599 | the red channel of the expanded data is the original coverage |
| EguiRender.UploadFont | crates/rich_editor/src/egui_render.rs:580-647 | an unchanged version uploads nothing; a new version destroys the old font first if there is one, creates the new one from the expanded pixels and records the version |
| EguiRender.UploadFontIdempotent | crates/rich_editor/src/egui_render.rs:580-586 | a second upload of the same texture does nothing, and a version-0 texture is never uploaded from the initial state |
| EguiRender.FontDataSize | crates/rich_editor/src/egui_render.rs:580-599 | a width-by-height texture uploads four bytes per pixel |
| Effekseer.ValuesRoundTrip | thirdparty/effekseer/export.cpp:365-375 | reading a matrix's sixteen values back in memory order rebuilds the matrix |
| Effekseer.CopyMatrix | thirdparty/effekseer/export.cpp:365-375 | copying the sixteen values into a zeroed SDK matrix delivers every entry unchanged and in its place |
| Effekseer.Startup | thirdparty/effekseer/export.cpp:58-66 | a new context is well formed, at frame 0, with an empty registry, the id counter at 0 and no stored render pass |
| Effekseer.StartupWithExternalVulkan | thirdparty/effekseer/export.cpp:224-322 | the same fresh, well-formed context, with the render pass built on the shared textures stored |
| Effekseer.PlayEffect | thirdparty/effekseer/export.cpp:344-351 | an id that is not registered answers -1 and makes no SDK call; a registered one plays exactly its registered effect and answers the manager's handle |
| Effekseer.LoadEffectPrefab | thirdparty/effekseer/export.cpp:324-333 | the id counter is incremented and the new value is the effect's id, returned with the effect's term; in a well-formed context the id is fresh, the effect is registered under it and the context stays well-formed |
| Effekseer.ReleaseEffectPrefab | thirdparty/effekseer/export.cpp:335-342 | the id is no longer registered, everything else is unchanged, and well-formedness is kept |
| Effekseer.UpdateFrame | thirdparty/effekseer/export.cpp:120-176 | a frame advances the frame counter by one and changes nothing else in the context |
| Effekseer.UpdateFrameCalls | thirdparty/effekseer/export.cpp:120-141 | a caller-supplied render pass wins over the stored one and is the one the frame begins; an external command buffer is installed, first, exactly when its handle is non-zero |
| Effekseer.SyncProjectionMatrix | thirdparty/effekseer/export.cpp:365-369 | the renderer's projection becomes the engine's matrix, entry for entry |
| Effekseer.SyncViewMatrix | thirdparty/effekseer/export.cpp:371-375 | the renderer's camera becomes the engine's view matrix, entry for entry |
| Effekseer.RunCounters | thirdparty/effekseer/export.cpp:58-66 | over a session the frame counter advances once per frame, the id counter once per load, and the stored render pass never changes |
| Effekseer.StepKeepsWellFormed | thirdparty/effekseer/export.cpp:324-375 | every shim call keeps every registered id between 1 and the last id handed out |
| Effekseer.RunKeepsWellFormed | thirdparty/effekseer/export.cpp:58-375 | a session from a well-formed context stays well-formed |
| Effekseer.RunReplies | thirdparty/effekseer/export.cpp:324-375 | each reply of a session is the reply of that call in the context the earlier calls left |
| Effekseer.LoadIdsCount | thirdparty/effekseer/export.cpp:324-333 | from start-up, the n-th load gets id n |
| Effekseer.IdsIncrease | thirdparty/effekseer/export.cpp:324-333 | from start-up, a later load always gets a larger id, so ids are never reused |
| Effekseer.StepKeepsOthers | thirdparty/effekseer/export.cpp:324-375 | a call that neither releases an id nor loads under it leaves that id's registration alone |
| Effekseer.RegistryIsLiveLoads | thirdparty/effekseer/export.cpp:324-342 | after any session from start-up, an id is registered exactly when some load received it and no later call released it, and it holds that load's effect |
| Effekseer.PlayOfReleasedFails | thirdparty/effekseer/export.cpp:344-351 | playing an id that is not live answers -1 and makes no SDK call |
| Effekseer.PlayOfLivePlaysItsEffect | thirdparty/effekseer/export.cpp:344-351 | playing a live id plays the effect its load registered and returns the manager's handle |
| Effekseer.FramePhases | thirdparty/effekseer/export.cpp:139-172 | one frame opens the pass, updates the effects, sets the clock, begins rendering, draws, ends rendering and closes the pass, in that order, setting the clock once |
| Effekseer.UpdateFramePicked | thirdparty/effekseer/export.cpp:151-157 | a frame follows that order and sets the renderer's clock to the frame number divided by 60 |
| Effekseer.StepPicked | thirdparty/effekseer/export.cpp:120-375 | only a frame update sets the clock or draws; every other call makes none of those calls |
| Effekseer.SessionFrames | thirdparty/effekseer/export.cpp:120-176 | a session's SDK calls are the frame sequence repeated once per update, never interleaved |
| Effekseer.SessionClock | thirdparty/effekseer/export.cpp:151-175 | the clock values a session sets are consecutive frame numbers from the start, each divided by 60 |
| Effekseer.NullPassUsesStored | thirdparty/effekseer/export.cpp:122-125 | after the external-Vulkan start-up, a frame given no render pass begins the stored one |

## Left out

- Vulkan object creation, command recording, submission and presentation (`ash` calls) are not modelled. Handles are opaque values, and recorded commands appear only as the ordered lists the contracts talk about. For the same reason, `forward_render.rs`, `graphic_pipeline.rs`, `simple_draw_object.rs`, `render_texture.rs`, `uniform.rs` and the older `src/render/render_context.rs`, `src/render/forward_render.rs`, `src/render/graphic_pipeline.rs` and `src/render/command_buffer_list.rs` are not part of this model. `RenderPlugin.EndDraw` cites `render_runner.rs` only for the `>= 0` check in `get_current_command_buffer`, which decides whether `end_draw_system` ends the frame; the body of `end_draw` only records and submits commands.
- Floating-point numerics are not modelled: f32 rounding, NaN, matrix products, camera projection, fly-camera velocity and friction, yaw and pitch arithmetic and the pitch clamp, viewport flips and scroll scaling. Coordinates are mathematical reals, and matrix products are function-typed parameters.
- Effekseer.SessionClock: the renderer time `time/60` is stated as a real division, not as the C++ float conversion.
- Aabb: `get_center` and the scalar `Mul<f32>` are not modelled. They are plain float arithmetic with no decision logic.
- Aabb.Union: NaN handling of `partial_cmp` is not modelled, because coordinates are totally ordered reals.
- Model.MipLevels: states the integer bit-length of min(w, h) rather than the f32 `log2(..).floor()` computation. The two agree for sizes below 2^24, where the f32 conversion is exact.
- Grass: the float division that produces `slot_count` is not modelled, and `slot_count` is an input.
- Grass.Size treats a u32 overflow of the grass count as a panic, which is Rust's checked (debug) behaviour. A release build would wrap.
- EguiRender.ScissorFor: rounding a physical pixel rectangle to integers is not modelled. The clamp is stated on reals.
- Protobuf reader internals (`quick_protobuf`'s `BytesReader` and `Writer`) are not part of the repository. `ProtoWire` models them from the protobuf binary encoding rules: 10-byte varints, `read_varint32` truncating mod 2^32, length-bounded nested readers, and skipping unknown wire types 0, 1, 2 and 5.
- GltfMesh: the `push_meta` call at `crates/rich_engine/src/render/mesh.rs:176` passes an extra stride argument that the four-argument definition in `vertex_layout.rs` does not take. The model follows the definition.
- GltfMesh.LoadMeshes: texture loading is not part of mesh loading and is not modelled here. Each loaded primitive's material is `Material.FromGltf` of its glTF material, which is what `primitive.material().into()` computes.
- LegacyMesh.LoadMeshes: the conversion of a primitive's glTF material lives in `src/render/material.rs`, which is not part of this model. A source primitive carries the converted material as an opaque number, and the loader is shown to copy it into the primitive it builds.
- SceneNodes: the hashing of node names in `from_gltf` is not modelled. A node's name is its hash already, an `Option<nat>` field; the only function-typed parameter is `Ops`, the matrix operations.
- Panics the caller is expected to rule out are preconditions: unsupported vertex formats and index types, 16-bit pixel formats, blits without linear-filter support, `index` of an absent key, and glTF accessors the loader cannot read (sparse, without a buffer view, or shorter than their count and stride). Panics an input can trigger while loading or painting are `None` or `Err` results, among them a glTF primitive that is not a triangle list or has no indices, and the legacy loader's count mismatch.
- TableData.Load: RON parsing and its panic on malformed text are not modelled. The loader takes the already-parsed item list.
- RenderPlugin: Bevy's hash-set and hash-map iteration order is not determined by the source. It is an explicit parameter, a list of distinct handles, and the contracts hold for every order.
- RenderContext: the `queue_count` of a family is modelled only as the `queue_count > 0` filter. Surface-support queries are a function-typed parameter.
- RenderContext.UboAlignment: states the integer rounding to a multiple, not the f32 `ceil` the source computes it with. The two agree while the sizes are exactly representable.
- DeviceMgr: `find_memory_type_index` in `src/render/device_mgr.rs` is the same decision as `RenderContext.FindMemoryType`, so it is not modelled twice.
- Swapchain: the surface-format, pre-transform and present-mode choices are plain selections from driver data and are not modelled; the extent choice is `Swapchain.ChooseExtent`. `get_current_present_image` is not defined in the source files present. It is called from the frame barriers in `src/render/render_context.rs:88,111,134`, `src/render/render_runner.rs:93,116,139` and `crates/rich_engine/src/render/render_runner.rs:167,195,220`, and it is not part of this model.
- ModelRuntime: entity spawning in `init_model_runtime_system` and the internals of `animation.rs` (sampling and interpolation) are not modelled. An animation update is a parameter reporting whether anything changed.
- RenderContext: `remove_model` is not defined in the source files present, so model removal is the map deletion it is named for.
- EguiIntegrate: the clipboard feature is assumed enabled. Pointer positions, scaling and routing text to the focused window are not modelled.
- Effekseer: these entry points are not modelled:
  - `Shutdown`, `StopEffect`, `SetEffectLocation`, `SetEffectRotation` and `SetThreadLockCall` only forward to the SDK;
  - `SetCommandList` and the memory-pool bookkeeping, for the same reason.
- Effekseer.LoadEffectPrefab: the 32-bit `int` prefab-id counter and the `int32` frame counter are unbounded naturals, so their overflow is not modelled.
- Effekseer.LoadEffectPrefab: `Effect::Create` returning null is not modelled. The shim would increment the id, register the null effect and then crash in `CalculateTerm`; the model takes the created effect as a given handle, so every load succeeds.
- Concurrency is not modelled. Every system runs to completion in the order given.

## Findings

| source | as written | input that shows it | evidently intended | confidence | as-written member | corrected member |
|---|---|---|---|---|---|---|
| crates/rich_engine/src/render/mesh.rs:165-174 | the attribute bytes go at the old end of the buffer and the zero padding after them, but the recorded offset is the old end plus the padding | 6 bytes of 16-bit indices, then a 12-byte position block: the data lands at byte 6 and is recorded at 8 | pad first so the data starts at the recorded 4-aligned offset | high, not executed | GltfMesh.AppendAsWritten, GltfMesh.AsWrittenOffsetMisses | GltfMesh.AppendAligned, GltfMesh.Append |
| crates/rich_engine/src/render/model_renderer.rs:141-144 | a node whose transform lookup fails is skipped without advancing `primitive_idx`, so every later node draws with the render of an earlier primitive | nodes [mesh 0, mesh 1], one primitive each, lookup failing for node 0: node 1 draws with render 0, created for node 0's primitive | advance the counter past the skipped node's primitives | high, not executed | ModelRenderer.WalkAsWritten, ModelRenderer.AsWrittenSkipUsesWrongRender | ModelRenderer.Walk, ModelRenderer.WalkMatchesSlots |
| crates/rich_engine/src/render/render_context.rs:290-294 | the search stops once graphics and present are known, so the compute family stays `None` when only a later family supports compute, and `expect` at line 375 panics | families [graphics + present, no compute], [compute only]: compute is `None`, though family 1 supports compute | keep scanning until compute is known too | medium, not executed | RenderContext.FindQueueFamiliesAsWritten, RenderContext.AsWrittenMissesCompute | RenderContext.FindQueueFamilies, RenderContext.ScanFindsFirsts |
| crates/rich_editor/src/egui_render.rs:506-513 | the bounds check panics when a write would end exactly at the end of the buffer, so a buffer can never be filled | one mesh of 3 vertices and 524288 u32 indices, exactly the 2 MiB index buffer: paint panics | allow a write that ends at the buffer's end | medium, not executed | EguiRender.PaintAsWritten, EguiRender.AsWrittenRejectsExactFit | EguiRender.Paint, EguiRender.PaintCorrect |
| crates/rich_engine/src/render/model_runtime.rs:262-267 | the joint matrix is written at `skin_idx * element_size + joint_idx * 64` with no bound on `joint_idx`, while a skin with more than 512 joints is only warned about when it is read | a model with one skin of 513 joints and a 256-byte alignment: joint 512 is written at bytes 32768 to 32831, just past the end of the 32768-byte skin buffer | write only the 512 joints the block holds | medium, not executed | ModelRuntime.JointOffset, ModelRuntime.JointWriteOverrunsAsWritten | ModelRuntime.CheckedJointOffset, ModelRuntime.JointWriteInBounds |

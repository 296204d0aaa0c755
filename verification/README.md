# ozy_engine core, modelled in Dafny

This project models the parts of the ozy_engine game engine that do not depend on OpenGL or on
Blender, and it proves properties of each part:

- **Geometry and collision queries** (`src/collision.rs`, with `clamp` from `src/lib.rs`):
  - segment/ray–plane intersection and signed point–plane distance;
  - projection onto a plane, and the closest point on a segment or on a triangle;
  - the two selection loops: the nearest ray hit on a terrain mesh, and the tallest plane hit;
  - terrain triangle lookup through the index buffer;
  - the sphere–triangle broad and narrow phases.

  Vectors are triples of `real`. The engine's f32 `sqrt` and `normalize` are the two fields of a
  `Kernel` value passed in, so nothing is assumed about them.
- **`OptionVec`** (`src/structs.rs`): a slot vector that refills its lowest free slot.
- **Binary formats** (`src/io.rs`, `Terrain::from_ozt` in `src/collision.rs`):
  - little-endian `u32`/`u16` words and runs of them;
  - the DDS header fields (Microsoft's `DDS_HEADER`, `DDS_PIXELFORMAT` and `DDS_HEADER_DXT10`);
  - the block-compressed pitch;
  - the `0xFFFFFFFF` "no texture" sentinel of OzyMesh material records;
  - length-prefixed (Pascal) UTF-8 strings;
  - the three-block collision-mesh file (`.ozt`).

  Files are byte sequences (`Byte` is a `nat` below 256). A read past the end is an `Err`.
- **Index-buffer generators** (`src/prims.rs`): the UV-sphere index array, the plane grid
  indices and the skybox cube indices.
- **UI bookkeeping** (`src/ui.rs`):
  - the button quad index writer;
  - adding and deleting buttons and text sections;
  - the menu-chain stack machine and hide-all/unhide-all. Each menu is reduced to its `active`
    flag.
  - the rule that emits a button's command when the mouse is released over it.
- **The Blender exporters** (`scripts/ozy_common.py`, `scripts/ozyterrain_export.py`,
  `scripts/ozymap_export.py`):
  - `size_as_u32` and the Pascal-string writer;
  - the terrain exporter's vertex deduplication and `.ozt` write order, proved to load back
    through `from_ozt`;
  - the map exporter's output directory, its grouping of objects by material, and its
    per-material terrain record.

  A Python `str` is a sequence of Unicode scalar values. Its UTF-8 encoding is defined in module
  `Utf8` after Table 3-7 of the Unicode Standard.

Modules: `Wrappers` (Option/Result), `Bytes`, `Lib`, `Vectors`, `Structs`, `Utf8`, `Io`, `Ozt`,
`Collision`, `Prims`, `Ui`, `InsertionOrder` (the key order of a Python dict), `OzyCommon`,
`TerrainExport` and `MapExport`.

## Model

| member | source | states |
|---|---|---|
| Lib.Clamp | src/lib.rs:13-17 | below `min` gives `min`; from `min` on, above `max` gives `max`; for an ordered range the result lies in `[min, max]`, and equals `x` exactly when `x` is in range |
| Lib.ClampIdempotent | src/lib.rs:13-17 | for `min <= max`, clamping a clamped value changes nothing |
| Lib.ClampInvertedRange | src/lib.rs:13-17 | with `max < min`, the result is `min` below `min` and `max` otherwise, never `x` |
| Collision.SegmentLengthIgnoresZ | src/collision.rs:20-22 | a segment's length does not change when the `z` of either endpoint changes |
| Collision.SegmentHitPlane | src/collision.rs:172-187 | `None` whenever the segment is parallel to the plane, even if it lies in it; otherwise a hit exactly when the endpoints' signed distances change sign (start strictly on one side, end on the other side or on the plane); the hit lies on the plane and is `lerp(p0, p1, x)` for some `x` in `(0, 1]` |
| Collision.SegmentHitCases | src/collision.rs:177-183 | the parameter `x` lies in `(0, 1]` exactly when the endpoint distances change sign, and `lerp(p0, p1, x)` is on the plane |
| Collision.DistanceAlongSegment | src/collision.rs:275-277 | the signed distance from the plane is affine along a segment: at `lerp(p0, p1, x)` it is `(1 - x)·d0 + x·d1` |
| Collision.SegmentHitBoundedPlane | src/collision.rs:257-273 | a hit exactly when the unbounded plane is hit strictly inside the x/y boundaries, and then it is that hit |
| Collision.RayHitPlane | src/collision.rs:220-230 | `None` exactly when the ray is parallel to the plane; otherwise `(t, origin + t·direction)` on the plane, with no sign restriction on `t` |
| Collision.AgreeingNormalsPass | src/collision.rs:191-218 | the in-triangle test accepts a point when the three edge normals normalise to the same unit vector |
| Collision.OpposedNormalsFail | src/collision.rs:191-218 | the in-triangle test rejects a point when two edge normals normalise to opposite unit vectors |
| Collision.GetTerrainTriangle | src/collision.rs:294-301 | corners `a`, `b`, `c` are exactly the vertices named by indices `i`, `i + 1` and `i + 2`, and the normal is the face normal of index `i / 3` |
| Collision.RayHitTerrain | src/collision.rs:233-255 | `None` exactly when no face is hit at `t >= 0` inside its triangle; otherwise the hit with the least `t`, taken from the earliest face among equals |
| Collision.SegmentPlaneTallestCollision | src/collision.rs:280-292 | `None` exactly when no plane is hit; otherwise a plane at the hit with the greatest `z`, the earliest plane among equals, carrying that plane's normal |
| Collision.ClosestPointOnLineSegment | src/collision.rs:303-307 | `None` exactly for a degenerate segment; otherwise a point of segment `ab` no farther from the query point than any other point of `ab` |
| Collision.ClampedParameterIsClosest | src/collision.rs:303-307 | clamping the projection parameter to `[0, 1]` yields the point of the segment nearest the query point |
| Collision.ClosestPointOnTriangle | src/collision.rs:310-325 | the result is one of the three edge candidates, at a distance no greater than any of them; edge `ab` wins ties, then edge `bc` |
| Collision.ProjectedPointOnPlane | src/collision.rs:327-331 | returns the signed distance; for a unit normal the projected point lies on the plane at squared distance `d²` from the point |
| Collision.ProjectionIdempotent | src/collision.rs:327-331 | for a unit normal, projecting a projected point returns it unchanged, at distance 0 |
| Collision.Midpoint | src/collision.rs:334-336 | the midpoint is equidistant from both points and is `lerp(p0, p1, 1/2)` |
| Collision.SpheresCollideSymmetric | src/collision.rs:338-340 | sphere overlap does not depend on the order of the spheres |
| Collision.TriangleSphereCollisionPoint | src/collision.rs:359-382 | `None` when the bounding spheres do not overlap; the face's projected point when it is within the radius and inside the triangle; otherwise a contact exactly when the closest edge point exists and lies within the radius, and then it is that point; any contact's reported distance is below the radius |
| Collision.TriangleCollideSphere | src/collision.rs:343-357 | `None` exactly when there is no contact point; the zero vector when the contact is the sphere's centre; otherwise a positive penetration depth, a vector as long as that depth when `normalize` gives a unit vector, and one that pushes from the contact towards the centre (away from it for a centre behind the face) when `normalize` keeps direction |
| Collision.CorrectionLengthIsDepth | src/collision.rs:343-357 | when `normalize` gives a unit vector, the push-out vector is exactly as long as the penetration depth, whichever side of the face the centre is on |
| Collision.CorrectionPointsAway | src/collision.rs:343-357 | with a positive depth and a `normalize` that keeps direction, the push-out vector has a positive dot product with centre minus contact for a contact in front of the face, and a negative one behind it |
| Collision.PositiveScalingKeepsDirection | src/collision.rs:343-357 | a `normalize` that scales by a positive factor keeps the direction of any non-zero centre-minus-contact vector, so the push-out premise holds for every contact other than the centre |
| Structs.Empty | src/structs.rs:42-46 | a new vector has no slots and no elements |
| Structs.Insert | src/structs.rs:54-76 | the element goes into the lowest empty slot, or is appended when none is empty; only that slot changes, and the length grows only when appending |
| Structs.InsertUsesFirstFree | src/structs.rs:57-63 | the index `insert` picks is the first empty slot, or none exists |
| Structs.InsertCounts | src/structs.rs:54-76 | an insert adds exactly one element |
| Structs.Clear | src/structs.rs:78-82 | every slot becomes empty and the length is unchanged |
| Structs.ClearedIsEmpty | src/structs.rs:78-82 | a cleared vector holds no element, and when it has slots its first free slot is slot 0 |
| Structs.GetElement | src/structs.rs:88-95 | no index gives nothing; index `i` gives the contents of slot `i` |
| Structs.TwoMutRefs | src/structs.rs:97-110 | for distinct indices, in either order, the two slots come back in argument order |
| Structs.Delete | src/ui.rs:96-97 | empties the slot and keeps every other slot and the length |
| Structs.DeleteCounts | src/ui.rs:93-99 | deleting an occupied slot removes one element, and deleting an empty one removes none |
| Bytes.LeU32Decodes | src/io.rs:839-841 | reading a u32 at an offset decodes the four little-endian bytes written there |
| Bytes.U32AtEncodes | src/io.rs:839-841 | the word read at an offset re-encodes to exactly the four bytes there |
| Bytes.LeU16Decodes | src/io.rs:886-898 | reading a u16 decodes the two little-endian bytes written there |
| Io.ReadExact | src/io.rs:867-871 | fails exactly when fewer than `n` bytes remain; otherwise splits off the first `n` |
| Io.ReadU32 | src/io.rs:859-865 | fails exactly on fewer than four bytes; otherwise the word is the little-endian u32 at offset 0, the rest is what follows it, and the two re-assemble the input |
| Io.ReadU32RoundTrip | src/io.rs:859-865 | reading back an encoded u32 returns it and the rest of the file |
| Io.FourCc | src/io.rs:88-93 | the four characters become the word's bytes 0 to 3 |
| Io.DefaultPixelFormat | src/io.rs:87-103 | the default four-character code is "DX10", the word `0x30315844` |
| Io.HeaderBytes | src/io.rs:126-147 | a header occupies exactly 148 bytes |
| Io.HeaderFromFile | src/io.rs:158-209 | fails exactly on a file shorter than 148 bytes; otherwise consumes 148 bytes; height, width, pitch and mipmap count are the little-endian u32s at offsets 12, 16, 20 and 28, and every other field apart from the pixel format and the DX10 header keeps its default |
| Io.PixelFormatRoundTrip | src/io.rs:45-83 | the pixel format is read back from the eight words starting at byte 76 |
| Io.Dxt10RoundTrip | src/io.rs:232-259 | the DXT10 extension is read back from the five words starting at byte 128 |
| Io.HeaderRoundTrip | src/io.rs:158-180 | reading a written header recovers height, width, pitch, mipmap count, pixel format and extension, with the other fields at their defaults |
| Io.BlocksAcross | src/io.rs:415-418 | the number of 4-pixel blocks covering the width, at least one |
| Io.ComputePitchBc | src/io.rs:415-418 | the pitch is the block count times the block size, so it is at least one block |
| Io.TextureIndex | src/io.rs:526-552 | the sentinel `0xFFFFFFFF` decodes to `None`, and every other value to itself |
| Io.TextureIndexRoundTrip | src/io.rs:526-552 | re-encoding a decoded index gives back the raw word |
| Io.RawTextureIndexRoundTrip | src/io.rs:526-552 | every index other than the sentinel decodes back to itself |
| Io.ReadMaterial | src/io.rs:506-560 | fails exactly on a short file; otherwise consumes 48 bytes, and each texture index is the sentinel decoding of its word at bytes 32, 36, 40 and 44 |
| Io.DecodeU32s | src/io.rs:872-878 | the step-by-four loop yields the run of little-endian words |
| Io.DecodeU16s | src/io.rs:891-897 | the step-by-two loop yields the run of little-endian half-words |
| Io.ReadU32Data | src/io.rs:867-879 | fails exactly when `4·count` bytes are not there; otherwise word `k` comes from bytes `4k` to `4k+3` and the rest follows |
| Io.ReadU16Data | src/io.rs:886-898 | fails exactly when `2·count` bytes are not there; otherwise value `k` comes from bytes `2k`, `2k+1` and the rest follows |
| Io.U32RunRoundTrip | src/io.rs:867-879 | reading back `n` encoded u32s returns them and the rest of the file |
| Io.U16RunRoundTrip | src/io.rs:886-898 | reading back `n` encoded u16s returns them and the rest of the file |
| Io.ObsoleteIndexCountOverreads | src/io.rs:812-819 | the superseded 32-bit loader asks for twice the bytes its index block holds |
| Io.ReadPascalStrings | src/io.rs:927-951 | fails with end-of-file on a short length prefix or a short body, and with a UTF-8 error on an ill-formed body; on success yields exactly `count` strings, each shorter than 2^32 bytes, and the file is exactly those strings written with their length prefixes followed by the returned rest |
| Io.WritePascalStrings | src/io.rs:953-966 | the output is exactly four prefix bytes per string plus the bytes of all the strings |
| Io.PascalStringsRoundTrip | src/io.rs:927-966 | reading back `n` written strings returns them and the rest of the file |
| Utf8.EncodeScalarWellFormed | scripts/ozy_common.py:16 | each scalar's UTF-8 encoding is one well-formed sequence of Table 3-7 |
| Utf8.EncodeIsValid | scripts/ozy_common.py:16 | the encoding of any string is valid UTF-8, which the reader's `String::from_utf8` accepts |
| Utf8.EncodeLength | scripts/ozy_common.py:15-16 | the byte length is at least the character count, with equality exactly for ASCII strings |
| Ozt.ReadP3Block | src/collision.rs:94-121 | succeeds exactly when the count fits in the file and is a multiple of 12; yields count/12 points and the bytes after the block |
| Ozt.ReadIndexBlock | src/collision.rs:123-134 | reads `count / 2` u16s after the count and fails exactly when they are not there |
| Ozt.FromOztRoundTrip | src/collision.rs:86-169 | loading a file written in the block layout returns its vertices, indices and normals |
| Ozt.FromOztSound | src/collision.rs:86-169 | every loadable file (with an even index byte count) starts with the block-layout bytes of what it loads as |
| Ozt.ReadP3BlockRoundTrip | src/collision.rs:94-121 | a point block reads back as its points and the rest of the file |
| Ozt.ReadIndexBlockRoundTrip | src/collision.rs:123-134 | an index block reads back as its indices and the rest of the file |
| Ozt.P3RunDecodes | src/collision.rs:107-118 | the 12-byte step loop recovers the points' coordinate words |
| Prims.SphereIndexCountTriangles | src/prims.rs:4-6 | the count is three indices per triangle, for two triangles per segment of each of the `rings - 1` bands |
| Prims.SphereIndexArray | src/prims.rs:60-111 | the array has exactly the counted length; every band quad and both caps are written with their corners, the last segment of a ring wrapping to its first vertex |
| Prims.SphereSlotsCovered | src/prims.rs:60-111 | every slot of the array belongs to a band quad, the bottom cap or the top cap |
| Prims.SphereIndexArrayValid | src/prims.rs:60-111 | every index is below `segments·(rings - 1) + 2`, the vertex count the vertex buffer allocates |
| Prims.SphereIndicesInRange | src/prims.rs:65-108 | each band corner, bottom-cap corner and top-cap corner is a vertex of the sphere |
| Prims.BandWraps | src/prims.rs:80-84 | the last segment of a ring wraps to the ring's first vertex (`offset + 2` and `offset + segments + 2`) |
| Prims.PlaneIndices | src/prims.rs:186-241 | `None` (the panic) exactly for a width below 2; otherwise `(w-1)²·6` indices, quad `(i, j)` holding its six corners truncated to u16 |
| Prims.PlaneIndicesInRange | src/prims.rs:229-241 | every plane corner is below `w²`, and the u16 truncation is the identity when `w² <= 65536` |
| Prims.SkyboxIndicesInRange | src/prims.rs:257-281 | 36 indices, all below 8, using each of the 8 cube vertices |
| Ui.InsertIndexBufferQuad | src/ui.rs:12-19 | writes `[b, b+1, b+2, b+3, b+2, b+1]` with `b = 4i`, every value wrapped to 16 bits, into slots `6i` to `6i+5`, and changes nothing else |
| Ui.QuadCoversItsVertices | src/ui.rs:12-19 | quad `i` uses exactly its four vertices, as two triangles sharing a diagonal |
| Ui.NewInternals | src/ui.rs:73-81 | new internals are clean and hold no button or section |
| Ui.AddButton | src/ui.rs:83-86 | marks the vertex array dirty and stores the button in the first free slot, adding one button; the vector grows by one slot only when none was free, and every other slot is unchanged |
| Ui.AddSection | src/ui.rs:88-91 | marks the vertex array dirty and stores the section in the first free slot, adding one section; the vector grows by one slot only when none was free, and every other slot is unchanged |
| Ui.DeleteButton | src/ui.rs:93-99 | always marks the vertex array dirty; an occupied slot loses its button and the button's section, with every other button and section slot unchanged, and an empty slot changes nothing |
| Ui.DeleteButtonCounts | src/ui.rs:93-99 | deleting a button removes one button and one section when both existed, and nothing from an empty slot |
| Ui.DeleteSection | src/ui.rs:101-104 | marks the vertex array dirty and empties only that section's slot |
| Ui.DeleteButtons | src/ui.rs:742-744 | deleting a menu's buttons one id after another empties every named slot and the section of every button that was there, leaves the other buttons alone, keeps empty sections empty, and keeps every button's section id in range |
| Ui.HideMenuButtons | src/ui.rs:740-747 | an inactive menu changes nothing and reports `false`; an active one deletes its buttons and their sections, ends inactive and reports `true` |
| Ui.ShowMenu | src/ui.rs:672-673 | the menu ends active and no other menu changes |
| Ui.HideMenu | src/ui.rs:740-747 | the menu ends inactive, the result says whether it was active, and no other menu changes |
| Ui.MenuFlagLaws | src/ui.rs:740-755 | showing twice is showing once, hiding twice reports `false` the second time, and toggling twice restores the menus |
| Ui.AppendToChain | src/ui.rs:172-180 | hides the chain's previous top only when the chain was non-empty, shows `dst` and pushes it |
| Ui.RollbackChain | src/ui.rs:269-278 | nothing on an empty chain; otherwise pops and hides the top and shows the new top if one remains |
| Ui.AppendThenRollback | src/ui.rs:269-278 | opening an inactive menu on a chain whose top is shown and rolling back restores the state |
| Ui.ToggleMenu | src/ui.rs:298-304 | an active menu rolls the chain back; an inactive one is pushed on it and shown |
| Ui.ToggleMenuTwice | src/ui.rs:298-304 | toggling an inactive menu twice restores the state |
| Ui.CreateMenuChain | src/ui.rs:184-187 | appends an empty chain and returns its index, changing nothing else |
| Ui.HideAllMenus | src/ui.rs:204-213 | every menu ends inactive, and the record lists exactly the menus that were active, in increasing order |
| Ui.UnhideAllMenus | src/ui.rs:215-222 | with a record, the recorded menus are shown, the others keep their flag, and the record is cleared; without one, nothing changes |
| Ui.ToggleHideAllMenus | src/ui.rs:224-230 | hides everything when nothing is recorded, and otherwise reshows what was recorded |
| Ui.ToggleHideAllTwice | src/ui.rs:204-230 | toggling hide-all twice from an unrecorded state restores every menu flag |
| Ui.Reset | src/ui.rs:235-250 | buttons and sections are emptied in place, and every text element, menu and chain is cleared |
| Ui.UpdateButtons | src/ui.rs:313-350 | commands are emitted slot by slot, and each button's hover state is updated while nothing else changes |
| Ui.NextStateIsHover | src/ui.rs:318-346 | a button ends highlighted exactly when the mouse is strictly inside it |
| Ui.EmittedBounds | src/ui.rs:318-327 | at most one command per occupied slot, and none unless the mouse button was released in this frame |
| Ui.EmittedFromButtonsUnderMouse | src/ui.rs:318-327 | every emitted command belongs to a button that has the mouse strictly inside it |
| OzyCommon.SizeAsU32 | scripts/ozy_common.py:3-4 | fails exactly when `len·size` does not fit in 32 bits; otherwise four bytes encoding `len·size` |
| OzyCommon.LenAsU32IsSizeAsU32 | scripts/ozy_common.py:3-11 | `len_as_u32` and `size_as_u32` produce the same bytes |
| OzyCommon.WritePascalStringsAsWritten | scripts/ozy_common.py:13-16 | fails exactly when a character count does not fit in 32 bits |
| OzyCommon.AsWrittenRejectsNonAscii | scripts/ozy_common.py:13-16 | the string "é" is written with prefix 1 but two bytes, and the reader rejects the result |
| OzyCommon.SameLayoutOnlyAscii | scripts/ozy_common.py:13-16 | the as-written bytes coincide with the engine's layout of the UTF-8 bytes only when every string is ASCII |
| OzyCommon.AsWrittenRoundTripsIffAscii | scripts/ozy_common.py:13-16 | the engine reads back what the as-written writer produced, as the strings' UTF-8 bytes followed by the rest, exactly when every character is below U+0080 |
| OzyCommon.WritersAgreeOnAscii | scripts/ozy_common.py:13-16 | on ASCII strings the written writer and the byte-count writer produce the same bytes |
| OzyCommon.WritePascalStrings | scripts/ozy_common.py:13-16 | with byte-length prefixes, fails exactly when an encoding's length does not fit in 32 bits |
| OzyCommon.WriterMatchesRust | scripts/ozy_common.py:13-16 | the byte-count writer produces exactly the bytes of the engine's `write_pascal_strings` on the encoded strings |
| OzyCommon.PascalStringsRoundTrip | scripts/ozy_common.py:13-16 | the engine's `read_pascal_strings` reads back the encoded strings and the rest of the file |
| InsertionOrder.DistinctMembers | scripts/ozyterrain_export.py:87-90 | the dict's keys are exactly the values inserted |
| InsertionOrder.DistinctNoDuplicates | scripts/ozyterrain_export.py:87-90 | the dict's key order holds no key twice |
| TerrainExport.Dedup | scripts/ozyterrain_export.py:80-92 | vertices are kept in order of first sight; every corner gets an index below their count that names its own coordinates |
| TerrainExport.SharedIndexMeansSameCorner | scripts/ozyterrain_export.py:86-92 | two corners share an index exactly when their coordinates are equal |
| TerrainExport.NewCornerGetsNextIndex | scripts/ozyterrain_export.py:89-92 | a corner not seen before gets the number of distinct corners seen so far |
| TerrainExport.EveryVertexUsed | scripts/ozyterrain_export.py:76-92 | every written vertex is named by some corner |
| TerrainExport.IndexBytes | scripts/ozyterrain_export.py:115-116 | fails exactly when an index does not fit in 16 bits; otherwise the little-endian u16 run |
| TerrainExport.WriteOzt | scripts/ozyterrain_export.py:104-123 | fails exactly when a header or index does not fit; otherwise `from_ozt` loads back the three blocks |
| TerrainExport.ExportTerrain | scripts/ozyterrain_export.py:68-123 | fails exactly on more than 65536 distinct corners or an oversized header; otherwise the file loads back as the distinct corners in first-seen order, three indices per triangle naming each corner's coordinates, and one normal per triangle |
| TerrainExport.ExportedTriangleLoadsBack | scripts/ozyterrain_export.py:81-97 | on a loaded export, the engine's `get_terrain_triangle` at `3k` gives back triangle `k`'s packed corners and its normal |
| MapExport.JoinSplit | scripts/ozymap_export.py:49 | joining the backslash-split parts of a path restores the path |
| MapExport.SplitJoin | scripts/ozymap_export.py:49 | splitting joined separator-free parts returns the parts |
| MapExport.Directory | scripts/ozymap_export.py:48-51 | empty for at most two path components; otherwise the path with `/` for `\`, less its last two components, so it ends in `/` |
| MapExport.IndicesOf | scripts/ozymap_export.py:57-63 | the indices of the objects with a given material, in increasing order |
| MapExport.IndicesOfComplete | scripts/ozymap_export.py:57-63 | every object with the material is listed |
| MapExport.EachObjectInOneGroup | scripts/ozymap_export.py:57-63 | an object appears in a material's list exactly when that is its material |
| MapExport.GroupByMaterial | scripts/ozymap_export.py:54-64 | keys are the materials in first-seen order, and each material maps to exactly its objects' indices, ascending |
| MapExport.GroupedSound | scripts/ozymap_export.py:57-63 | the grouping loop's result has one list per material present, holding exactly that material's objects |
| MapExport.TerrainRecord | scripts/ozymap_export.py:88-91 | the record with the corrected Pascal-string writer: fails exactly when the name's UTF-8 length does not fit in a u32 |
| MapExport.TerrainRecordAsWritten | scripts/ozymap_export.py:88-91 | the record as the exporter writes it: fails exactly when the name's character count does not fit in a u32 |
| MapExport.TerrainRecordReadsBack | scripts/ozymap_export.py:88-91 | the engine reads back the Pascal string `<level>_<mat>_terrain.ozy` and then the instance count 1 |
| MapExport.RecordWritersAgreeOnAscii | scripts/ozymap_export.py:88-91 | for ASCII level and material names the record as written is the corrected record |

## Left out

- f32 arithmetic. Vectors are real triples, so rounding, NaN and infinities are not modelled.
  `sqrt` and `normalize` (and hence `glm::distance`) are the fields of a `Kernel` parameter, so
  every property holds for any choice of them.
- Collision.ClosestPointOnLineSegment: returns `None` for a zero-length segment, where the source
  divides 0 by 0 and yields a NaN point.
- Vertex positions, UVs and trigonometry in `src/prims.rs` (`sphere_vertex_buffer`,
  `debug_sphere_vao`, the plane vertex data), all OpenGL calls, `src/glutil.rs`, `src/render.rs`
  and the glyph layout in `src/ui.rs`. These are float computations or calls into libraries that
  are not part of this model.
- Ui.ShowMenu, Ui.HideMenu: a menu is its `active` flag. The buttons and sections that `show`
  lays out depend on glyph bounds from a library that is not part of this model. The deletions
  `hide` makes are modelled apart, by `Ui.HideMenuButtons` over the menu's button ids.
- Ui.AppendToChain, Ui.RollbackChain, Ui.ToggleMenu, Ui.HideAllMenus, Ui.UnhideAllMenus,
  Ui.ToggleHideAllMenus: they keep the button and section vectors unchanged. In the source each
  `hide` they make deletes that menu's buttons and sections, and each `show` inserts new ones.
  The model carries menus as flags only, so these contracts speak about the flags, the chains
  and the hide-all record.
- Ui.UnhideAllMenus: requires every recorded index to name an existing menu. `set_menus` can
  replace the menus with a shorter list while a record is held, and the source then panics on
  the out-of-range index. That panic is not modelled.
- Ui.AppendThenRollback, Ui.ToggleMenuTwice: they restore the flags, chains and record. The
  source's buttons come back through `show`, possibly in other slots.
- Ui.InsertIndexBufferQuad: follows release builds, where the u16 product and sums wrap past
  65535. A debug build panics there instead.
- Collision.TriangleCollideSphere, Collision.CorrectionLengthIsDepth: `normalize` is a parameter.
  The length of the push-out vector is stated for a `normalize` that returns a unit vector, and
  its direction for one that keeps direction; `glm::normalize` of f32 values only does this
  approximately.
- Ui.UpdateButtons: the colour-buffer uploads are left out, since they are GPU calls.
- `resize`, `synchronize`, `draw`, `toggle_text_element` and the `UIText` layout are glyph or GPU
  plumbing.
- Structs.Delete, Structs.DeleteCounts: `OptionVec::delete` and `count`, which `src/ui.rs` calls,
  are not defined in src/structs.rs. The model assumes `delete(i)` empties slot `i` (which must
  exist) and that `count` is the number of occupied slots.
- `OptionVec::with_capacity`, `iter` and `_iter_mut` have no observable effect beyond `new` and
  the slot sequence itself. `Index` is the slot read `Structs.Index`.
- File I/O. Files are byte sequences. An `unwrap` or `panic!` on a short read becomes an `Err`
  or a `None`, and `read_exact` on a short file consumes nothing.
- f32 values in files (`read_f32_data`, the `.ozt` coordinates, `struct.pack('f')`) are carried
  as their 32-bit patterns. Both sides only move the four bytes.
- Io.ReadMaterial: the four base-colour and three emissive floats, and the roughness, are kept as
  bit patterns. The rest of `OzyMesh::from_file` (primitives and textures) is left out, since it
  depends on `ispc::bc7::calc_output_size` and `routines::mip_resolution`, which are not part of
  this model.
- The `DXGI_FORMAT` and `D3D10_RESOURCE_DIMENSION` transmutes are kept as raw u32s, because the
  transmute is undefined for unknown values.
- Io.ComputePitchBc: requires that `width + 3` and the product fit in a u32. The source's u32
  arithmetic would overflow (panic in debug builds) beyond that.
- The superseded `OzyMeshOBSOLETE` loaders are left out. Only the index-count quirk of
  `load_32bit_idx` is recorded, by `Io.ObsoleteIndexCountOverreads`.
- Prims.SphereIndexArray: requires the vertex count to fit in a u16. Beyond that the source's
  `as u16` casts wrap, which the model does not follow.
- Python lone surrogates: a `str` here holds Unicode scalar values only. Python's UTF-8 encoder
  raises on a surrogate, and that path is not modelled.
- Partial output. When a Python writer raises, the bytes already written stay in the file. The
  model returns only the error.
- TerrainExport.ExportTerrain: a corner is a key of an abstract type with an exact equality,
  and the Blender world-space transform, the cross/normalize face normal and `struct.pack('f')`
  come in as the total parameters `pack` and `normalOf`. `struct.pack('f')` is taken to be
  little-endian, as on the platforms Blender ships for. Python's float-tuple dictionary keys
  differ from this in three ways the model does not follow:
  - `0.0` and `-0.0` compare equal, so such corners merge and the first-seen sign is written;
  - a NaN coordinate never equals itself, so a corner holding one never merges with another;
  - `struct.pack('f')` raises `OverflowError` on a finite value beyond the f32 range, where
    `pack` always returns a pattern.
- MapExport: only the directory, the material grouping and the per-material terrain record are
  modelled. `MeshData`, `save_ozymesh`, `write_vector`, `write_ozyterrain_file`, the identity
  matrix rows and the per-material mesh files call helpers that are not part of this model. An
  object without an active material (a Python `AttributeError`) is not modelled.
- Ozt.FromOztSound: requires an even index byte count. An odd count leaves a byte that
  `from_ozt` skips, so such a file cannot be the image of a terrain.
- `robust_point_in_triangle` is modelled exactly over reals around the abstract `normalize`, so
  only its two characteristic cases are stated (agreeing and opposed normals).

## Findings

| source | as written | input that shows it | evidently intended | confidence | as-written member | corrected member |
|---|---|---|---|---|---|---|
| scripts/ozy_common.py:13-16 | the prefix of each string is `len(s)`, its count of characters | the name `"é"`: written with prefix 1 followed by the two bytes `C3 A9`; the engine's `read_pascal_strings` reads one byte, `C3`, which is not valid UTF-8 | the prefix is the length of the UTF-8 bytes, which the engine reads back | not executed | OzyCommon.WritePascalStringsAsWritten (counterexample: OzyCommon.AsWrittenRejectsNonAscii; for all inputs: OzyCommon.AsWrittenRoundTripsIffAscii) | OzyCommon.WritePascalStrings (proved: OzyCommon.PascalStringsRoundTrip, OzyCommon.WriterMatchesRust; used by MapExport.TerrainRecord) |

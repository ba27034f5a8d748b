# dcue asset pipeline — a Dafny model

This project models the integer and bookkeeping core of dcue, a toolchain and runtime that turns a Unity scene into data for the Sega Dreamcast. It covers:

- **Unity exporter** (`tools/DreamExporter.cs`).
  - The mesh replication encoder. `DreamMesh` groups submeshes by UV scale, UV offset and validity. Each group gets a lump of vertex slots, and every index is remapped into it, under the 65535-vertex ceiling.
  - The collision bake. It drops degenerate triangles, de-duplicates vertices, builds a median-split BVH and flattens it into leaf and interior arrays.
- **Repacker** (`tools/repacker.cpp`). Vertex size and alignment, the exact-duplicate canonical-index table, greedy meshlet packing under a 128-vertex budget, end-of-primitive marking, the `write_vector` append and patch buffer, and the quad selection of at most 32 vertices.
- **Scene loader** (`repacker.cpp`). The `DCUE0000` scene-file reader and its 7-bit varint decoder.
- **GLdc VRAM allocator** (`vendor/gldc/alloc.cpp`). A usage bitmap of 2 KiB blocks and 256-byte sub-blocks, with an allocation list sorted by size. The model covers allocation, release, free, defragmentation and the two free-space counters.
- **dca3 audio codecs** (`vendor/dca3/aud2adpcm.c`). The IMA ADPCM nibble decoder and block decoder, the Yamaha AICA ADPCM encoder step and encoder, and the channel de-interleave and interleave shuffles.
- **Texture layout**:
  - `vendor/dca3/vq.cpp`: the PowerVR twiddle, the colour converters and packers, image decoding and downscaling, and VQ compression with its codebook-then-index layout;
  - `vendor/dca3/float16.h`: upper-half truncation of an IEEE 754 binary32 pattern;
  - `vendor/pvrtex/file_pvr.c`: the small-VQ codebook table and the PVR chunk-size rules.
- **PowerVR emulation** (`vendor/emu/refsw`, `vendor/koshle`):
  - `pvr_mem.cpp`: the video-memory bank interleave `pvr_map32` and the 16- and 32-bit reads and writes through it;
  - `refsw_tile.cpp`: the tile buffers with their clear, peel and stencil-summary passes, the depth-and-tag step `PixelFlush_isp`, the blending unit, and the integer pixel helpers (texture coordinate clamp, flip and wrap, `to_u8_256`, the colour combiner, the blend coefficients);
  - `pvr_regs.cpp`: the register file with the side effects of a write, the reset values of `pvrInit`, and the interrupt queue, which never nests the handler and drains raised interrupts first in, first out;
  - `hlepvr_scene.cpp`: the display-list state machine of the KallistiOS scene API, in which a list opens and closes at most once a frame, and its DMA vertex buffers.
- **Game state** (`pavo/pavo.h`): the environment stack and the inventory.
- **Table generator** (`vendor/emu/refsw/gentable.py`): the nested C initialisers of the renderer's dispatch tables.

The source code's behaviour is modelled as written. Where the code departs from what its authors evidently intended, the model has both an as-written member and a corrected one (see "## Findings"). The rest of the model uses the corrected member. Floating-point values are opaque or exact reals, and file I/O is replaced by byte sequences passed in and returned.

## Model

| member | source | states |
|---|---|---|
| DreamMeshExport.KeyOf | tools/DreamExporter.cs:1996-2010 | a missing material gives the invalid key with zero scale and offset; a present one gives a valid key carrying its main texture scale and offset |
| DreamMeshExport.NewDreamMesh | tools/DreamExporter.cs:1979-2018 | a submesh/material count mismatch and a zero count are the two errors; otherwise one key per material, grouped by exact key equality in first-occurrence order |
| DreamMeshExport.ValidIsPartitioned | tools/DreamExporter.cs:1994-2018 | the first-occurrence grouping puts every submesh in exactly one group, the group of its own key, in ascending submesh order |
| DreamMeshExport.ArraysEqual | tools/DreamExporter.cs:1911-1928 | true exactly when both arrays are missing or both are present with equal contents |
| DreamMeshExport.DreamMeshEquals | tools/DreamExporter.cs:2027-2037 | true exactly when the Unity mesh is the same object and the key arrays are equal |
| DreamMeshExport.ReadSubmeshIndices | tools/DreamExporter.cs:2541-2561 | after one submesh the lump is the distinct indices of the group's stream so far, in arrival order, each index keeps its lump position, and every index of the submesh decodes to `replica_base` plus its lump position |
| DreamMeshExport.BuildGroupLump | tools/DreamExporter.cs:2536-2562 | a group's lump is the distinct indices of its submeshes in first-arrival order; the decode maps of its own submeshes point into that lump and those of other groups are unchanged |
| DreamMeshExport.LumpContents | tools/DreamExporter.cs:2536-2562 | a lump has no duplicates and holds exactly the indices used by the submeshes whose key is the group's key |
| DreamMeshExport.LumpEmptyIff | tools/DreamExporter.cs:2571-2574 | a lump is empty exactly when every submesh of the group is empty |
| DreamMeshExport.ConcatLength | tools/DreamExporter.cs:2566 | the final `replica_base` is the sum of the lump sizes |
| DreamMeshExport.GatherUvs | tools/DreamExporter.cs:2586-2593 | the appended UVs are `uv * scale + offset` of the group's key, one per lump index |
| DreamMeshExport.AppendAttributes | tools/DreamExporter.cs:2576-2615 | the vertex, UV, colour and normal lists grow by the lump's entries; UVs, colours and normals are appended only when the mesh-wide array is non-empty |
| DreamMeshExport.ProcessGroup | tools/DreamExporter.cs:2532-2617 | one group pass reports an empty lump exactly when the group's lump is empty, and otherwise extends the output by the lump |
| DreamMeshExport.BuildLumps | tools/DreamExporter.cs:2524-2617 | fails with "index_lump_linear.Count == 0" exactly when some group's lump is empty; otherwise the gathered attributes and every submesh's decode map agree with the slot assignment |
| DreamMeshExport.RemapIndices | tools/DreamExporter.cs:2659-2679 | every submesh index is rewritten to its decoded slot, and the slot's vertex equals the original vertex |
| DreamMeshExport.EncodeMesh | tools/DreamExporter.cs:2519-2679 | the empty-lump error exactly when some lump is empty, the 65535 ceiling error exactly when all lumps are non-empty and their total exceeds it, carrying both counts; otherwise the encoding is as specified |
| DreamMeshExport.SlotsDistinct | tools/DreamExporter.cs:2544-2552 | no two output slots come from the same (key, source index) pair |
| DreamMeshExport.EncodedIndexResolves | tools/DreamExporter.cs:2664-2678 | every emitted index is a slot below the vertex count (at most 65535) whose vertex, transformed UV, colour and normal are those of the original index |
| CollisionBake.ExpandIsHull | tools/DreamExporter.cs:443-447 | `Expand` gives the smallest box that contains both the old box and the point |
| CollisionBake.FromTriangles | tools/DreamExporter.cs:456-469 | the loop's box is the box of the listed triangles, and it covers every corner of each of them |
| CollisionBake.BoundsCover | tools/DreamExporter.cs:456-469 | the box of a triangle list covers every corner of every listed triangle |
| CollisionBake.LongestAxis | tools/DreamExporter.cs:567-570 | the split axis has the largest extent, and every lower axis is strictly shorter, so ties go to the lower axis |
| CollisionBake.SortByCentroid | tools/DreamExporter.cs:573 | the result is a permutation of the triangles ordered by centroid coordinate on the axis |
| CollisionBake.Range | tools/DreamExporter.cs:543-544 | the list `0, 1, ..., n - 1` |
| CollisionBake.BVHBuilder.BuildRecursive | tools/DreamExporter.cs:553-588 | appends the post-order subtree for its triangles, rooted last: a leaf exactly when the count is at most `maxLeafSize` or the diagonal is at most the threshold; each interior node splits at count / 2 on the longest axis with its children earlier in the list; the leaves hold the triangles as a multiset and number one more than the interior nodes |
| CollisionBake.BVHBuilder.Build | tools/DreamExporter.cs:520-550 | the centroids are those of the triangles, the threshold uses the scene box, and the node list is a sound post-order tree whose root is last and whose leaves hold every triangle exactly once |
| CollisionMesh.MaxAbsIsMax | tools/DreamExporter.cs:609-624 | the running maximum of absolute coordinates on each axis is non-negative, bounds every vertex, and is 0 or attained by some vertex |
| CollisionMesh.ComputeEpsilon | tools/DreamExporter.cs:608-631 | the epsilon is `3 * (maxX + maxY + maxZ) * 1.1920929e-6`, raised to at least 0.01 |
| CollisionMesh.KeptEmptyIff | tools/DreamExporter.cs:633-656 | the kept corners come in threes, and none are kept exactly when every triangle fails the area or edge test |
| CollisionMesh.AddCorner | tools/DreamExporter.cs:660-668 | a position already in the dictionary keeps its number; a new one is appended to the list with the next number |
| CollisionMesh.MergeCorners | tools/DreamExporter.cs:658-673 | the three corners of a surviving triangle are merged and renumbered in corner order |
| CollisionMesh.FilterStep | tools/DreamExporter.cs:633-674 | one triangle more: it is dropped when degenerate and merged otherwise |
| CollisionMesh.FilterTriangles | tools/DreamExporter.cs:633-674 | after the loop the list holds the distinct surviving positions in first-seen order and the triangle list renumbers every surviving corner to its position |
| CollisionMesh.DedupNumbering | tools/DreamExporter.cs:660-668 | the renumbered corners are each corner's place among the distinct positions, and the dictionary has one entry per distinct position |
| CollisionMesh.Intern | tools/DreamExporter.cs:764-787 | the key gets the next number if it is absent and keeps its number otherwise; nothing else changes and the numbers stay dense |
| CollisionMesh.LeavesValid | tools/DreamExporter.cs:701-705 | every leaf of the built tree names only triangles that exist |
| CollisionMesh.BakeHierarchy | tools/DreamExporter.cs:686-761 | the flattened tables have one more leaf than interior nodes, and they are the flattening of a sound tree whose leaves hold every surviving triangle exactly once and whose node boxes cover their triangles |
| CollisionMesh.BakeCollisionMesh | tools/DreamExporter.cs:599-796 | all fields are -1 and the tables are unchanged exactly when no triangle survives; otherwise the counts are the surviving corners and the distinct positions, and the three ids name the interned index list, vertex list and hierarchy |
| CollisionMesh.ProcessMeshColliders | tools/DreamExporter.cs:869-879 | a collider is rejected exactly when its bake returns -1, which is exactly when none of its triangles survives; rejections are in collider order and every accepted bake is recorded in the shared tables |
| CollisionMesh.SharedTablesIff | tools/DreamExporter.cs:779-790 | two accepted meshes share an index id exactly when their renumbered triangle lists are equal, and share a vertex id exactly when their distinct vertex lists are equal |
| CollisionFlatten.SoundChildrenEarlier | tools/DreamExporter.cs:581-586 | in a built tree every interior node's children come earlier in the node list |
| CollisionFlatten.PositionsProperties | tools/DreamExporter.cs:689-690 | the `Where` filters keep exactly the nodes of the requested kind, in list order |
| CollisionFlatten.LeafArrayTris | tools/DreamExporter.cs:689-707 | the leaf array's triangles, in order, are the leaves' triangles in node-list order |
| CollisionFlatten.LeafCorners | tools/DreamExporter.cs:701-705 | a leaf's `BVH_LEAF_TRIS` entry lists the three renumbered corners of each of its triangles |
| CollisionFlatten.FlattenLeaves | tools/DreamExporter.cs:693-717 | one entry per leaf in list order, with its box and corners, and `leafIndex` numbers each leaf by its position |
| CollisionFlatten.ResolveChild | tools/DreamExporter.cs:728-749 | a child resolves to the leaf or interior entry it stands for, and an interior reference always points to an earlier entry |
| CollisionFlatten.FlattenInteriors | tools/DreamExporter.cs:719-752 | one entry per interior node in list order, with its box and both children resolved |
| CollisionFlatten.Flatten | tools/DreamExporter.cs:689-761 | the leaf and interior arrays have the leaf and interior counts; the root is a leaf with count 0, or the last interior entry with the interior count |
| CollisionFlatten.RootIsLastInterior | tools/DreamExporter.cs:584-586 | an interior root, last in the node list, is also the last interior node |
| DreamStream.Advance | repacker.cpp:34 | a read of n bytes moves the position by n when they are there and stops at the end of the file otherwise |
| DreamStream.VarintEnd | repacker.cpp:32-39 | the varint ends just after the first byte below 0x80, or at the end of the file if every remaining byte has bit 7 set |
| DreamStream.Reader.ReadBytes | repacker.cpp:34 | `in.read` of n bytes yields the bytes that are there, then zeros past the end of the file (what a zero-initialised target such as `int x = 0` keeps), and advances past them |
| DreamStream.Reader.ReadByte | repacker.cpp:33-34 | a byte read yields the next byte and advances by one, or yields 0 at the end of the file and stays put |
| DreamStream.Reader.ReadInt32 | repacker.cpp:68-69 | an `int` read yields the little-endian two's-complement word at the position and advances past it |
| DreamStream.Signed32 | repacker.cpp:68-69 | the two's-complement reading of a 32-bit word is an `int` congruent to it modulo 2^32 |
| DreamStream.Reader.Read7BitEncodedInt | repacker.cpp:29-41 | advances to the varint's end and returns the sum of `(b_k & 0x7F) << 7k` over the bytes read |
| DreamStream.Encode7BitSum | tools/repacker.cpp:600-612 | decoding the 7-bit groups of an encoding (unsigned LEB128, section 7.6 of DWARF 4) gives back the number |
| DreamStream.Read7BitRoundTrip | tools/repacker.cpp:600-612 | at an encoded number the reader stops right after the encoding and returns the number |
| DreamStream.LebSumBound | repacker.cpp:35-38 | the value accumulated from k bytes is below 2^(7k) |
| DreamStream.Int32RoundTrip | repacker.cpp:68-69 | an `int` written in little-endian order reads back unchanged |
| DreamStream.WordsRoundTrip | repacker.cpp:118-119 | 32-bit words written as bytes read back unchanged |
| DreamStream.HalvesRoundTrip | repacker.cpp:151-152 | 16-bit indices written as bytes read back unchanged |
| DreamStream.Reader.ReadString | repacker.cpp:44-49 | consumes the varint length and then exactly that many bytes, and returns those bytes |
| DreamStream.ReadStringRoundTrip | tools/repacker.cpp:615-620 | `readString` on a stored string yields it and moves past it |
| DreamLoader.Count | repacker.cpp:70 | a `for (i = 0; i < count; i++)` loop runs max(count, 0) times |
| DreamLoader.CString | repacker.cpp:77-78 | `strcpy` keeps the bytes before the first zero byte |
| DreamLoader.Resolve | repacker.cpp:104-105 | an index resolves exactly when it is in `[0, count)`, and a null reference is the result otherwise |
| DreamLoader.TextureAt | repacker.cpp:71-83 | a texture record is a string, width and height, then `width * height * 4` pixel bytes; a negative size is an allocation failure |
| DreamLoader.RefAt | repacker.cpp:96-106 | a flag byte, then an index only if the flag is set; a resolved reference is below the count |
| DreamLoader.MaterialAt | repacker.cpp:90-108 | four colour words and an optional texture that is one of the textures loaded so far |
| DreamLoader.OptionalAt | repacker.cpp:122-128 | a count, then `width * count` bytes only when the count is positive |
| DreamLoader.MeshAt | repacker.cpp:114-155 | a mesh record reads the vertex count, 3 words per vertex, the optional UV, colour and normal arrays, then the 16-bit indices; a negative vertex or index count is an allocation failure |
| DreamLoader.MeshAtShape | repacker.cpp:118-152 | a loaded mesh has three words per vertex and normal, two per UV and four bytes per colour, and its optional arrays are never empty |
| DreamLoader.GameObjectAt | repacker.cpp:161-201 | 16 transform words, and mesh and material references among those loaded so far |
| DreamLoader.TexturesAt | repacker.cpp:70-84 | n texture records in order |
| DreamLoader.MaterialsAt | repacker.cpp:89-109 | n material records, each referring only to loaded textures |
| DreamLoader.MeshesAt | repacker.cpp:114-156 | n mesh records in order |
| DreamLoader.GameObjectsAt | repacker.cpp:161-202 | n game objects, each referring only to loaded meshes and materials |
| DreamLoader.SceneKeeps | repacker.cpp:67-202 | loading only pushes onto the four vectors, and every stored reference is either null or names a loaded record |
| DreamLoader.ReadTextures | repacker.cpp:68-84 | the texture loop reads what `TexturesAt` describes, or stops with its error |
| DreamLoader.ReadMaterials | repacker.cpp:87-109 | the material loop reads what `MaterialsAt` describes |
| DreamLoader.ReadMeshes | repacker.cpp:112-156 | the mesh loop reads what `MeshesAt` describes, or stops with its error |
| DreamLoader.ReadGameObjects | repacker.cpp:159-202 | the game-object loop reads what `GameObjectsAt` describes |
| DreamLoader.SceneStore.LoadDreamScene | repacker.cpp:52-208 | the vectors become those of `SceneAt` exactly when it succeeds; a header other than "DCUE0000" stops with `InvalidHeader` and leaves the vectors as they were |
| RepackerFormat.MakeEdge | tools/repacker.cpp:64-69 | an edge stores its two vertices, smaller first |
| RepackerFormat.EdgeEquality | tools/repacker.cpp:66-72 | two edges compare equal exactly when they join the same two vertices, in either order |
| RepackerFormat.IsDegenerateByIndex | tools/repacker.cpp:965-967 | true exactly when fewer than three of the indices are distinct |
| RepackerFormat.U32Word | tools/repacker.cpp:984-988 | a written `uint32_t` is four little-endian bytes that read back as the value modulo 2^32 |
| RepackerFormat.U16Half | tools/repacker.cpp:984-988 | a written `uint16_t` is two little-endian bytes that read back as the value modulo 2^16 |
| RepackerFormat.AdjustFlagsForAlignment | tools/repacker.cpp:1061-1073 | `big_vertex` is kept; padding is on exactly for a textured small vertex with big UVs; a textured big vertex forces big UVs, and untextured UV flags are left alone |
| RepackerFormat.VertexAlignment | tools/repacker.cpp:1075-1083 | 4 for a big vertex or textured big UVs, 2 otherwise |
| RepackerFormat.AdjustedLayoutAligned | tools/repacker.cpp:1459-1463 | after the adjustment the vertex size is a multiple of the alignment, and the UV field lands on a multiple of its own width |
| RepackerFormat.UnadjustedLayoutMisaligned | tools/repacker.cpp:1069-1071 | without the padding, a small vertex with big UVs would put the UV word at a misaligned offset |
| RepackerFormat.Flip | tools/repacker.cpp:1048 | `c ^ 128` flips bit 7 of a byte and keeps the other bits |
| RepackerFormat.FlipTwice | tools/repacker.cpp:1048 | flipping twice gives back the byte |
| RepackerFormat.ColorBytes | tools/repacker.cpp:1048 | the colour word's bytes are the four flipped channels, blue first |
| RepackerFormat.VertexBytes | tools/repacker.cpp:996-1114 | `packVertex` appends exactly as many bytes as `caluclateVertexSize` returns |
| RepackerFormat.HalfUvAt | tools/repacker.cpp:1012-1015 | a big UV is one word with u's half in the high 16 bits and v's in the low 16 |
| RepackerFormat.MeshletFlags | tools/repacker.cpp:1495 | the six meshlet flags fit in six bits |
| RepackerFormat.MeshletFlagsDecode | tools/repacker.cpp:1494-1495 | each flag reads back from its own bit: textured, normaled, coloured, small xyz, padding, small UV |
| RepackerFormat.HeaderBytes | tools/repacker.cpp:1493-1507 | a meshlet record is 32 bytes |
| RepackerFormat.HeaderOffsets | tools/repacker.cpp:1504-1507 | the vertex and index data offsets sit at bytes 24 and 28 of the record |
| RepackerFormat.HeaderSlotsRead | tools/repacker.cpp:1504-1507 | in a written table, meshlet k's two recorded slots hold its two offsets modulo 2^32 |
| RepackerFormat.PatchReads | tools/repacker.cpp:1523-1529 | after the patch loop each slot reads its local offset plus the section base, modulo 2^32 |
| RepackerFormat.MeshletTablePatched | tools/repacker.cpp:1504-1529 | in a patched table, meshlet k's words at +24 and +28 are its vertex and index offsets plus the two bases |
| RepackerFormat.WriteVector.Write | tools/repacker.cpp:984-988 | `write` appends exactly the value's bytes |
| RepackerFormat.WriteVector.Rewrite | tools/repacker.cpp:990-994 | `rewrite` overwrites bytes in place and keeps the length |
| RepackerFormat.WriteVector.WritePosition | tools/repacker.cpp:997-1009 | appends the three position fields, and the padding field when it is on |
| RepackerFormat.WriteVector.WriteUv | tools/repacker.cpp:1011-1020 | appends nothing untextured, one word of two halves for big UVs, or two bytes |
| RepackerFormat.WriteVector.WriteNormal | tools/repacker.cpp:1022-1045 | appends the three normal bytes and a zero byte |
| RepackerFormat.WriteVector.PackVertex | tools/repacker.cpp:996-1050 | appends exactly `VertexBytes` of the vertex |
| RepackerFormat.WriteVector.WriteHeader | tools/repacker.cpp:1493-1507 | appends one record and reports its two offset slots at +24 and +28 |
| RepackerFormat.WriteVector.WriteHeaders | tools/repacker.cpp:1446-1508 | appends every record in turn and reports the slots of each |
| RepackerFormat.WriteVector.PatchOffsets | tools/repacker.cpp:1523-1529 | the table becomes `Patch` of the old table: each slot gets its offset plus the base, and nothing else changes |
| RepackerMeshlets.DuplicateIsKeyEquality | tools/repacker.cpp:1215-1228 | two vertices are duplicates exactly when position, UV, normal and colour agree on the attributes the mesh has |
| RepackerMeshlets.FirstEqualBounds | tools/repacker.cpp:1212-1249 | the canonical index of k is at most k and names a vertex with the same key |
| RepackerMeshlets.CanonicalRow | tools/repacker.cpp:1214-1248 | one pass of the outer loop settles entry i to its first duplicate and keeps every later entry either unset or final |
| RepackerMeshlets.CanonicalIndices | tools/repacker.cpp:1212-1249 | every entry of the table is the first vertex equal to that vertex |
| RepackerMeshlets.CanonicalTableProperties | tools/repacker.cpp:1212-1249 | `canonicalIdx[k] <= k`, the vertex there duplicates vertex k, and the table is idempotent |
| RepackerMeshlets.RewriteIndices | tools/repacker.cpp:1263-1265 | every submesh index is replaced by its canonical index |
| RepackerMeshlets.CountNewShared | tools/repacker.cpp:1367-1375 | the new vertices are the strip's indices outside the meshlet, and the shared count is the number of strip indices already in it |
| RepackerMeshlets.PickStrip | tools/repacker.cpp:1360-1384 | no strip is picked exactly when none fits the remaining budget; the first strip adding no vertex wins if there is one; otherwise the last fitting strip with the most shared vertices wins |
| RepackerMeshlets.InsertAll | tools/repacker.cpp:1392-1394 | the meshlet's vertex set gains exactly the strip's indices |
| RepackerMeshlets.FillMeshlet | tools/repacker.cpp:1357-1396 | the picked strips and the rest partition the pending strips; the meshlet's vertices are the union of its strips, at most 128; no remaining strip fits; an empty meshlet means every pending strip needs more than 128 vertices |
| RepackerMeshlets.PackMeshlets | tools/repacker.cpp:1344-1417 | succeeds exactly when every strip has at most 128 distinct vertices; then every strip lands in exactly one meshlet, each meshlet stays within 128 vertices, and each closed meshlet admits none of the later strips |
| RepackerMeshlets.EveryStripPlaced | tools/repacker.cpp:1398 | a packing that places every strip in a valid meshlet implies every strip has at most 128 distinct vertices |
| RepackerMeshlets.LocalIndices | tools/repacker.cpp:1408-1413 | local indices are 0..n-1 in ascending global-index order |
| RepackerMeshlets.RankOrder | tools/repacker.cpp:1408-1411 | ranks are below the set size and strictly increasing in the global index |
| RepackerMeshlets.OrHigh | tools/repacker.cpp:1480 | `b \| 128` sets bit 7 and keeps the low seven bits |
| RepackerMeshlets.EncodedIndexDecodes | tools/repacker.cpp:1475-1487 | an encoded index holds the local index in its low seven bits, and bit 7 is set exactly on the third index of every triangle and the last index of every strip |
| RepackerMeshlets.WriteTriangles | tools/repacker.cpp:1476-1481 | the triangle loop appends the encoding of the primitive |
| RepackerMeshlets.WriteStrip | tools/repacker.cpp:1482-1486 | the strip loop appends the encoding of the primitive |
| RepackerMeshlets.WritePrimitive | tools/repacker.cpp:1476-1486 | one primitive's index bytes are its encoding |
| RepackerMeshlets.WriteMeshletIndices | tools/repacker.cpp:1473-1487 | a meshlet's index data is the encoding of its strips in order |
| RepackerMeshlets.SelectedUnion | tools/repacker.cpp:570-580 | the kept index set is the vertex union of the selected quads |
| RepackerMeshlets.SelectQuads | tools/repacker.cpp:565-580 | the quads are sorted by descending area; each is kept exactly when adding its corners keeps the union within the bound; the union of the selection stays within the bound |
| GldcBitmap.RoundUp | vendor/gldc/alloc.cpp:67-75 | the result is a multiple of `multiple`, at least `n` and less than `n + multiple` |
| GldcBitmap.SubblockCount | vendor/gldc/alloc.cpp:284-288 | the least number of 256-byte sub-blocks whose total covers `size` (the ceiling of `size / 256`) |
| GldcBitmap.CalcAddress | vendor/gldc/alloc.cpp:120-135 | the run of `required` sub-blocks ends at bit `bit` of block `block`; the address is `base` plus 256 times its first sub-block |
| GldcBitmap.FlagsMatch | vendor/gldc/alloc.cpp:86-91 | flag `8*j + i` of the flattened bitmap is bit `7 - i` of byte `j`: the most significant bit is the lowest sub-block |
| GldcBitmap.ChosenUnique | vendor/gldc/alloc.cpp:143-233 | the bitmap determines the search's answer: two answers that both meet the search's specification are equal |
| GldcBitmap.SearchHit | vendor/gldc/alloc.cpp:204-207 | once the aligned count reaches `required`, the run ending here is the first good run and some free run exists |
| GldcBitmap.PoorMeans | vendor/gldc/alloc.cpp:209-211 | the remembered fallback is the first free run of the required length, and none is remembered only when no free run exists |
| GldcBitmap.FreeCount | vendor/gldc/alloc.cpp:178-202 | over a free sub-block the fallback count grows by one and the aligned count follows the reset rules for alignment and block overflow |
| GldcBitmap.ScanBlock | vendor/gldc/alloc.cpp:168-220 | one block of the search either reports the first good run with its address or carries the search state to the next block |
| GldcBitmap.CountOnes | vendor/gldc/alloc.cpp:502-508 | the two nibble lookups give the population count of the byte |
| GldcBitmap.NibbleTable | vendor/gldc/alloc.cpp:503-506 | each entry of the 16-entry table is the number of set bits of its index |
| GldcBitmap.UsedCountFlipped | vendor/gldc/alloc.cpp:325-350 | marking a range whose sub-blocks all had the opposite value changes the used count by the part of the range inside the pool, up or down |
| GldcBitmap.LongestBound | vendor/gldc/alloc.cpp:521-548 | no free run inside the pool is longer than `Longest` |
| GldcBitmap.LongestWitness | vendor/gldc/alloc.cpp:521-548 | some free run inside the pool has length `Longest` |
| GldcBitmap.ContinuousBitAsWritten | vendor/gldc/alloc.cpp:529-539 | one bit of the loop as written: the free count tracks the run ending here while the largest block stays 0 |
| GldcBitmap.ContinuousBit | vendor/gldc/alloc.cpp:529-539 | one bit of the corrected loop: the larger of the largest block and the current run is 256 times the longest run so far |
| GldcBitmap.ContinuousBlock | vendor/gldc/alloc.cpp:526-541 | one byte of the corrected loop keeps that relation across eight bits |
| GldcBitmap.LeadingMask | vendor/gldc/alloc.cpp:326-330 | the leading mask of the corrected loop holds exactly the bits from `offset` for as many sub-blocks as fit in the block |
| GldcBitmap.GoodRunLosesNothing | vendor/gldc/alloc.cpp:326-330 | a run the search accepts without the fallback never crosses a block boundary in its first block, so the shift past bit 0 never happens for it |
| GldcBitmap.StraddleLosesSubblock | vendor/gldc/alloc.cpp:326-330 | on the bitmap `[0xFE, 0x7F]` a 512-byte request falls back to sub-blocks 7-8 and the mask loop as written drops sub-block 8 |
| GldcBitmap.StraddleReleaseTruncated | vendor/gldc/alloc.cpp:411-415 | the corrected allocation marks the run 7-8 in full, turning `[0xFE, 0x7F]` into `[0xFF, 0xFF]`; releasing it with the loop as written then clears sub-block 7 and leaves sub-block 8 used |
| GldcBitmap.InteriorRunMissed | vendor/gldc/alloc.cpp:533-538 | on the bitmap `[0x01]` the as-written count sees a trailing run of 0 while the longest free run is 7 sub-blocks |
| GldcEntries.PointerIndex | vendor/gldc/alloc.cpp:440-461 | the first entry whose pointer matches, or the list length when none does; every earlier entry has another pointer |
| GldcEntries.SizeInsertSorted | vendor/gldc/alloc.cpp:357-391 | inserting before the first smaller entry keeps the list in descending size order |
| GldcEntries.SizeInsertPermutes | vendor/gldc/alloc.cpp:366-391 | the insertion adds exactly the new entry and loses none |
| GldcEntries.PointerUnique | vendor/gldc/alloc.cpp:442-443 | under the allocator invariant two entries with the same pointer are the same entry, so `alloc_free` unlinks the one allocation that starts there |
| GldcEntries.EntryUsed | vendor/gldc/alloc.cpp:86-91 | under the allocator invariant every sub-block of a live allocation is marked used |
| GldcEntries.MallocKeeps | vendor/gldc/alloc.cpp:313-391 | marking a fresh run and inserting its entry keeps the invariant (inside the pool, disjoint, sorted, bitmap consistent) and adds its length to the used count |
| GldcEntries.FreeKeeps | vendor/gldc/alloc.cpp:438-461 | clearing an entry's run and unlinking it keeps the invariant and lowers the used count by its length |
| GldcEntries.DefragKeeps | vendor/gldc/alloc.cpp:477-491 | allocating the new run, releasing the old one and repointing the entry keeps the invariant and the used count |
| GldcAlloc.StaysIff | vendor/gldc/alloc.cpp:478-479 | an entry stays put exactly when the search for its size finds nothing below its current address |
| GldcAlloc.Allocator.constructor | vendor/gldc/alloc.cpp:108-110 | the static pool header: no pool, no blocks, no allocations, and the invariant holds |
| GldcAlloc.Allocator.UpdateTail | vendor/gldc/alloc.cpp:336-350 | the whole blocks and the trailing sub-blocks from block `block` on get `value` and nothing else changes |
| GldcAlloc.Allocator.UpdateRange | vendor/gldc/alloc.cpp:316-350 | exactly the sub-blocks `[start, start + count)` get `value` and every other bit is unchanged |
| GldcAlloc.Allocator.UpdateRangeAsWritten | vendor/gldc/alloc.cpp:316-350 | the loop as written marks `[start, start + count - Lost)`: a run starting late in a block loses the sub-blocks its leading mask shifts past bit 0 |
| GldcAlloc.Allocator.NextAvailable | vendor/gldc/alloc.cpp:143-233 | reports `ceil(size/256)` sub-blocks; fails exactly when that is 0 or no free run exists; otherwise returns a free run, the first good one (2 KiB aligned for 2048 bytes and more, inside one block below that) or, when there is none, the first free run |
| GldcAlloc.Allocator.SearchBlock | vendor/gldc/alloc.cpp:166-222 | one iteration of the block loop: a hit is the first good run with its address, otherwise the search state moves to the next block |
| GldcAlloc.Allocator.Init | vendor/gldc/alloc.cpp:235-265 | fails with -1, changing nothing, exactly when a pool exists or `size` exceeds 8 MiB; otherwise the bitmap is cleared, the list emptied, the base is the first 2 KiB boundary at or after the pool and `pool_size` is the whole 2 KiB blocks that fit times 2048 |
| GldcAlloc.Allocator.CtxInUse | vendor/gldc/alloc.cpp:302-310 | true exactly when some live allocation carries `ctx` |
| GldcAlloc.Allocator.LinkEntry | vendor/gldc/alloc.cpp:357-391 | the list becomes the size-ordered insertion of the new entry |
| GldcAlloc.Allocator.Malloc | vendor/gldc/alloc.cpp:300-397 | the debug assertion fires exactly for a repeated `ctx` outside defrag; the address is the search's answer; exactly its `ceil(size/256)` sub-blocks become used; a normal call inserts the entry by size and raises the used count, a defrag call adds no entry |
| GldcAlloc.Allocator.ReleaseBlocks | vendor/gldc/alloc.cpp:399-436 | exactly the entry's sub-blocks are cleared and every other bit is unchanged |
| GldcAlloc.Allocator.Free | vendor/gldc/alloc.cpp:438-464 | succeeds exactly when some entry has the pointer; then that entry is unlinked, its sub-blocks cleared and the used count falls by its length; otherwise nothing changes |
| GldcAlloc.Allocator.DefragEntry | vendor/gldc/alloc.cpp:477-493 | an entry moves exactly when the search offers a lower address; then it moves to the search's answer, strictly lower, and the used count is unchanged |
| GldcAlloc.Allocator.DefragPass | vendor/gldc/alloc.cpp:469-498 | every move of a pass goes lower, the used count is unchanged, and a pass without a move changes nothing and leaves every entry settled |
| GldcAlloc.Allocator.RunDefrag | vendor/gldc/alloc.cpp:466-500 | at most `max_iterations` passes; every move goes to a lower address; stopping before the limit means no entry can move; the used count and the invariant are kept |
| GldcAlloc.Allocator.CountFree | vendor/gldc/alloc.cpp:510-519 | `pool_size` minus 256 times the number of used sub-blocks |
| GldcAlloc.Allocator.CountContinuousAsWritten | vendor/gldc/alloc.cpp:521-548 | as written the result is 256 times the free run at the end of the pool only |
| GldcAlloc.Allocator.CountContinuous | vendor/gldc/alloc.cpp:521-548 | 256 times the longest free run anywhere in the pool |
| GldcAlloc.Allocator.PvrMemMalloc | vendor/gldc/alloc.cpp:550-552 | `alloc_malloc` with a null `ctx`: a debug build asserts exactly when a live allocation already carries the null `ctx`, which any earlier successful call leaves behind |
| Adpcm.Limit | vendor/dca3/aud2adpcm.c:41-45 | the result lies in `[lo, hi]` when that range is non-empty, equals `val` inside it and `lo` below it |
| Adpcm.LimitMonotone | vendor/dca3/aud2adpcm.c:41-45 | clamping never reorders two values and clamping twice is clamping once |
| Adpcm.Clamp | vendor/dca3/aud2adpcm.c:147 | the result lies in `[low, high]` when that range is non-empty and equals `x` inside it |
| Adpcm.ImaDiffApprox | vendor/dca3/aud2adpcm.c:71-76 | the truncating shifts make the difference at most the exact `(2m + 1)/8` of the step, and less than 17/8 below it |
| Adpcm.IndexTableEntry | vendor/dca3/aud2adpcm.c:56-58 | the index table lowers the step index by one for magnitudes 0-3 and raises it by `2(m - 3)` for magnitudes 4-7, the same for both signs |
| Adpcm.ImaStep | vendor/dca3/aud2adpcm.c:70-95 | the predictor ends in 16 bits, moves up for a positive nibble and down for a negative one, by at most the nibble's difference; the step index moves by the table and stays in 0-88 |
| Adpcm.ImaSignSymmetry | vendor/dca3/aud2adpcm.c:78-81 | away from saturation a nibble and its sign-flipped twin move the predictor by opposite amounts and the step index alike |
| Adpcm.ImaDecoder.Initialize | vendor/dca3/aud2adpcm.c:65-68 | the decoder holds exactly the given predictor and step index |
| Adpcm.ImaDecoder.DecodeNibble | vendor/dca3/aud2adpcm.c:70-95 | the decoder moves to `ImaStep` of its old state and the returned sample is the new predictor |
| Adpcm.Int16Of | vendor/dca3/aud2adpcm.c:102 | the two header bytes, little-endian, read as a signed 16-bit value: in range and equal to `256 hi + lo` modulo 65536 |
| Adpcm.StereoLength | vendor/dca3/aud2adpcm.c:124-134 | a stereo block yields 16 samples per group of 8 bytes, counted from where decoding stands inside a group |
| Adpcm.StereoCheckpoint | vendor/dca3/aud2adpcm.c:124-134 | in a stereo block the output count is compared after every second sample, that is after each left-right pair |
| Adpcm.MonoFrom | vendor/dca3/aud2adpcm.c:136-142 | a mono block yields two samples per byte and the output count is compared after every second sample |
| Adpcm.BlockSamples | vendor/dca3/aud2adpcm.c:100-144 | one block yields the header predictors and the decoded nibbles, `BlockLength` samples in all, with the comparisons at fixed offsets |
| Adpcm.BlockCountDiv | vendor/dca3/aud2adpcm.c:100 | the block loop runs `(input_size - i) / block_size` times |
| Adpcm.BlocksLength | vendor/dca3/aud2adpcm.c:100-144 | without the output limit the decoder yields the block count times the samples per block |
| Adpcm.BlocksCheckpoints | vendor/dca3/aud2adpcm.c:129-141 | the comparisons fall at the same offsets of every block |
| Adpcm.StopAt | vendor/dca3/aud2adpcm.c:129-141 | the decoder stops early only right after a comparison at exactly `2 * output_size` samples, and does stop there when one falls there |
| Adpcm.Written | vendor/dca3/aud2adpcm.c:96-145 | the output holds the first `StopAt` sample values, in order |
| Adpcm.WrittenPrefix | vendor/dca3/aud2adpcm.c:96-145 | `ima_decode_adpcm_blocks` writes a prefix of the decoded stream and every sample it writes fits in 16 bits |
| Adpcm.WrittenStopsEarly | vendor/dca3/aud2adpcm.c:129-141 | the output is shorter than the stream exactly when sample `2 * output_size` ends at a comparison inside the stream, and then it has exactly that length |
| Adpcm.CallerBufferFits | vendor/dca3/aud2adpcm.c:423-431 | with the buffer size `loadWavIMA` computes the decoder writes every sample of every whole block, filling the buffer exactly |
| Adpcm.CallerSize | vendor/dca3/aud2adpcm.c:423-425 | `loadWavIMA`'s byte count is two bytes for each sample of every whole block |
| Adpcm.YmzNext | vendor/dca3/aud2adpcm.c:149-171 | the new step size is the scaled old one clamped to 127-24576; the history stays in 16 bits and moves up for a positive code and down for a negative one, by at most the code's delta |
| Adpcm.YmzStep | vendor/dca3/aud2adpcm.c:149-171 | the two in/out values become `YmzNext` of the old state and the result is the new history |
| Adpcm.YmzHistory | vendor/dca3/aud2adpcm.c:154-169 | the new history is the old one plus or minus the delta, by bit 3, saturated to 16 bits |
| Adpcm.CappedQuotientIsMin | vendor/dca3/aud2adpcm.c:184-185 | the capped quotient is the quotient limited to 7 |
| Adpcm.QuarterSteps | vendor/dca3/aud2adpcm.c:184 | `(a << 16) / (step_size << 14)` is `4a / step_size` when nothing overflows |
| Adpcm.QuantiseSpec | vendor/dca3/aud2adpcm.c:183-187 | the code's sign bit is set exactly when the coarse sample lies below the history, and its magnitude is the number of quarter steps in the distance, at most 7 |
| Adpcm.QuantiserError | vendor/dca3/aud2adpcm.c:183-193 | when the distance is below 7/4 of a step, decoding the chosen code lands within an eighth of a step (plus one) of the coarse sample |
| Adpcm.WrapInt32 | vendor/dca3/aud2adpcm.c:184 | a 32-bit two's-complement value: in range, unchanged below 2^31, less 2^32 from 2^31 to 2^32 |
| Adpcm.QuantiseAsWrittenAgrees | vendor/dca3/aud2adpcm.c:184 | the shift as written agrees with the exact quotient when the distance is below 2^15 |
| Adpcm.QuantiseAsWrittenOverflow | vendor/dca3/aud2adpcm.c:184 | from a distance of 2^15 on the shift as written wraps negative and the magnitude becomes 0 or 7 by the wrapped value, not by the distance |
| Adpcm.QuantiseOverflowExample | vendor/dca3/aud2adpcm.c:184 | six samples of -32768 then one of 32767: the code is 7 for the seventh sample but 0 as written |
| Adpcm.EncoderTracksDecoder | vendor/dca3/aud2adpcm.c:181-194 | the histories the encoder keeps are exactly what a decoder rebuilds from the codes alone |
| Adpcm.CodesStates | vendor/dca3/aud2adpcm.c:181-194 | code `i` is the quantisation of sample `i` against state `i`, and state `i + 1` is the step of that code |
| Adpcm.UnpackPairUp | vendor/dca3/aud2adpcm.c:188-192 | packing two nibbles per byte, low nibble first, loses only an unpaired trailing nibble |
| Adpcm.Encoded | vendor/dca3/aud2adpcm.c:173-195 | one byte per two samples, rounded up; its nibbles are a zero followed by the codes: the first code goes in the high nibble of the first byte and a final code of an even count is not written |
| Adpcm.Put | vendor/dca3/aud2adpcm.c:189 | the byte is appended after those written so far and the rest of the buffer is unchanged |
| Adpcm.EncodeSample | vendor/dca3/aud2adpcm.c:183-193 | one iteration: every second call writes a byte, the written bytes are the pairs of the codes so far, and the state follows `YmzNext` |
| Adpcm.EncodeSamples | vendor/dca3/aud2adpcm.c:181-194 | the loop writes the pairs of a zero and the codes and nothing past them |
| Adpcm.PcmToAdpcm | vendor/dca3/aud2adpcm.c:173-195 | `pcm2adpcm` writes exactly `Encoded` of the first `bytes / 2` samples and leaves the rest of the buffer unchanged |
| AdpcmChannels.ChannelSize | vendor/dca3/aud2adpcm.c:202 | half of `size`, rounded up to a multiple of 8192 |
| AdpcmChannels.Deinterleave | vendor/dca3/aud2adpcm.c:197-218 | returns the channel size and the buffer becomes the left samples, then the right samples, each channel zero-padded |
| AdpcmChannels.DeinterleavedAt | vendor/dca3/aud2adpcm.c:206-212 | slot `k` of the first channel is sample `2k` and slot `k` of the second is sample `2k + 1`, for every whole pair, and 0 after |
| AdpcmChannels.DeinterleaveRoundTrip | vendor/dca3/aud2adpcm.c:197-218 | interleaving the two channels again gives back every whole stereo pair |
| AdpcmChannels.DeinterleavePadding | vendor/dca3/aud2adpcm.c:203-204 | every slot of both channels past the whole pairs is zero |
| AdpcmChannels.InterleavedLengthBound | vendor/dca3/aud2adpcm.c:246-249 | the output covers both halves, is less than 16 KiB longer than the input and meets the assertion's 64 KiB bound |
| AdpcmChannels.InterleavedAt | vendor/dca3/aud2adpcm.c:234-247 | byte `j` of chunk pair `k` is byte `8192k + j` of the first half, then of the second, or 0 past the end |
| AdpcmChannels.FillChunk | vendor/dca3/aud2adpcm.c:236-237 | an 8 KiB chunk is the copied bytes followed by zeros, and nothing else changes |
| AdpcmChannels.CopyPair | vendor/dca3/aud2adpcm.c:235-246 | one round appends a chunk of each half to the output built so far |
| AdpcmChannels.MergeHalves | vendor/dca3/aud2adpcm.c:230-247 | the scratch buffer holds the interleaved halves, 16 KiB per started 8 KiB |
| AdpcmChannels.CopyBack | vendor/dca3/aud2adpcm.c:250 | the first `n` bytes are copied and the rest is unchanged |
| AdpcmChannels.InterleaveAdpcm | vendor/dca3/aud2adpcm.c:221-255 | returns the interleaved length, at most 64 KiB over the input, and the buffer's prefix becomes the two halves interleaved in padded 8 KiB chunks |
| Twiddle.TwiddleSlow | vendor/dca3/vq.cpp:12-42 | the loop computes `Interleave`: one bit of `y`, then one of `x`, for as long as each halved size is non-zero |
| Twiddle.InterleavePow2 | vendor/dca3/vq.cpp:12-42 | for power-of-two sizes `twiddle_slow` is the Morton order `Twiddled` |
| Twiddle.TwiddledBound | vendor/dca3/vq.cpp:12-42 | a twiddled index lies inside the texture of `2^a` by `2^b` texels |
| Twiddle.UntwiddleTwiddle | vendor/dca3/vq.cpp:12-42 | the inverse recovers the texel from its twiddled index |
| Twiddle.TwiddleUntwiddle | vendor/dca3/vq.cpp:12-42 | every index of the texture is the twiddled index of the texel the inverse gives: the order is a bijection |
| Twiddle.TwiddledInjective | vendor/dca3/vq.cpp:12-42 | two texels never share a twiddled index |
| Twiddle.TwiddledBlock | vendor/dca3/vq.cpp:187-194 | the four texels of a 2 by 2 block at even `(x, y)` get consecutive indices from four times the half-size index: `(x, y)`, `(x, y+1)`, `(x+1, y)`, `(x+1, y+1)` |
| VqPixel.PixelARGB8888 | vendor/dca3/vq.cpp:236-250 | the four bytes of the little-endian word, lowest first, are red, green, blue and alpha |
| VqPixel.PixelRGB888 | vendor/dca3/vq.cpp:253-267 | the three bytes are red, green and blue and alpha is 255 |
| VqPixel.PixelARGB1555 | vendor/dca3/vq.cpp:270-284 | bits 0-4, 5-9 and 10-14 of the little-endian word, times 8, are red, green and blue, and bit 15 gives alpha 255 or 0 |
| VqColor.ConvertKeeps | vendor/dca3/vq.cpp:61-89 | each quantiser keeps the top 4, 5 or 6 bits of every channel and fills the low bits by replicating them; ARGB1555 alpha is 0 or 255 by the top bit; RGB565 keeps alpha |
| VqColor.ConvertIdempotent | vendor/dca3/vq.cpp:61-89 | quantising a quantised colour changes nothing |
| VqColor.PackFields4444 | vendor/dca3/vq.cpp:92-94 | alpha, red, green and blue occupy bits 12-15, 8-11, 4-7 and 0-3 with their top four bits |
| VqColor.PackFields1555 | vendor/dca3/vq.cpp:97-99 | alpha's top bit is bit 15 and the top five bits of red, green and blue occupy bits 10-14, 5-9 and 0-4 |
| VqColor.PackFields565 | vendor/dca3/vq.cpp:102-104 | the top bits of red, green and blue occupy bits 11-15, 5-10 and 0-4 |
| VqColor.PackConvert | vendor/dca3/vq.cpp:61-104 | a pack function reads only the bits its quantiser keeps, so packing after quantising is packing |
| VqColor.SameFields4444 | vendor/dca3/vq.cpp:92-94 | colours that agree on the stored bits pack to the same word |
| VqColor.PackUnpack | vendor/dca3/vq.cpp:92-104 | every 16-bit word unpacks to a colour that packs back to it |
| VqColor.UnpackPack | vendor/dca3/vq.cpp:61-104 | unpacking a packed colour gives its quantised colour, with alpha 255 for RGB565, which stores no alpha |
| VqImage.RowMajorIndex | vendor/dca3/vq.cpp:241 | `y * width + x` lies inside the image and gives back `y` and `x` |
| VqImage.CreateImageFromData | vendor/dca3/vq.cpp:236-284 | one pixel per position; pixel `i` is decoded from the bytes at row `i / width` times `stride` plus the pixel size times column `i % width` |
| VqImage.DecodeRow | vendor/dca3/vq.cpp:238-248 | one row of the outer loop decodes the pixels of that row and leaves later positions alone |
| VqImage.OriginAt | vendor/dca3/vq.cpp:240 | the byte offset of pixel `(x, y)` is `y * stride` plus the pixel size times `x` |
| VqImage.BlockMean | vendor/dca3/vq.cpp:293-316 | the pixel is the channel-by-channel integer mean of the source block |
| VqImage.AddRow | vendor/dca3/vq.cpp:297-308 | the inner loop adds one row of the block to the running sums |
| VqImage.BlockCount | vendor/dca3/vq.cpp:296-309 | a block inside the image counts every one of its pixels |
| VqImage.MeanExact | vendor/dca3/vq.cpp:311-316 | the narrowing casts lose nothing: every channel of the mean is the exact integer quotient |
| VqImage.UniformMean | vendor/dca3/vq.cpp:286-321 | downscaling an image of one colour gives that colour back |
| VqImage.DownscaleImage | vendor/dca3/vq.cpp:286-321 | the result has `newWidth * newHeight` pixels, each the mean of its `width / newWidth` by `height / newHeight` source block |
| VqImage.DownscaleRows | vendor/dca3/vq.cpp:291-318 | the `y` loop fills every output pixel with the mean of its block |
| VqImage.DownscaleRow | vendor/dca3/vq.cpp:292-317 | one output row gets the means of its blocks and later positions are unchanged |
| VqCompress.RankTwiddled | vendor/dca3/vq.cpp:332 | the row-major position of a twiddled index is the texel it came from |
| VqCompress.RankInjective | vendor/dca3/vq.cpp:332 | distinct twiddled indices stand for distinct row-major positions |
| VqCompress.PackColors | vendor/dca3/vq.cpp:325-387 | `packColorsTo*`: two bytes per colour; the two bytes at the twiddled index of every texel hold its packed colour, low byte first, and the rest is zero |
| VqCompress.PackRow | vendor/dca3/vq.cpp:330-340 | one row of the loop writes the slots of that row's texels and keeps the zero tail |
| VqCompress.PackedTexel | vendor/dca3/vq.cpp:325-387 | the word at the twiddled index of `(x, y)` unpacks to the quantised colour of pixel `(x, y)` |
| VqCompress.Blocks | vendor/dca3/vq.cpp:185-195 | one 2 by 2 block per four texels |
| VqCompress.BlockTexel | vendor/dca3/vq.cpp:187-194 | colour `t % 4` of block `t / 4` is the quantised colour of the texel with twiddled index `t` |
| VqCompress.BlockColor | vendor/dca3/vq.cpp:190-193 | a block's colours are its texels in the order `(x, y)`, `(x, y+1)`, `(x+1, y)`, `(x+1, y+1)`, quantised |
| VqCompress.ExtractBlocks | vendor/dca3/vq.cpp:185-195 | the extraction loop computes `Blocks` |
| VqCompress.ExtractBlock | vendor/dca3/vq.cpp:189-193 | one iteration fills the block at the half-size twiddled index of `(x, y)` |
| VqCompress.AverageOverflow | vendor/dca3/vq.cpp:150-162 | four texels of 128 on every channel average to 0 with the `uint8_t` sums as written but to 128 exactly |
| VqCompress.MeanOfFour | vendor/dca3/vq.cpp:150-162 | the corrected average is the integer mean of the four channels, between the least and the greatest |
| VqCompress.Pick | vendor/dca3/vq.cpp:174-176 | the sorted position `createCodebook` picks lies inside the block list |
| VqCompress.CreateCodebook | vendor/dca3/vq.cpp:145-179 | the loop computes `Codebook` for the sorted order |
| VqCompress.PickMonotone | vendor/dca3/vq.cpp:175 | picked positions never decrease, and increase strictly when there are at least as many blocks as entries |
| VqCompress.CodebookSorted | vendor/dca3/vq.cpp:145-179 | the codebook entries from `firstEntry` on are blocks of the image in non-decreasing key order, pairwise from distinct blocks when there are enough blocks |
| VqCompress.CodebookEntry | vendor/dca3/vq.cpp:174-176 | entry `i` of the codebook is the block at sorted position `Pick(i - firstEntry)` |
| VqCompress.PermutationDistinct | vendor/dca3/vq.cpp:166-170 | a sorted order never names one block twice |
| VqCompress.FindNearestBlock | vendor/dca3/vq.cpp:128-143 | the result is the first candidate from `256 - codebookSize` of least distance below `FLT_MAX`, or 0 when there is none |
| VqCompress.NearestInRange | vendor/dca3/vq.cpp:131-141 | with a bounded distance the result lies between `firstEntry` and the end of the codebook |
| VqCompress.NearestByte | vendor/dca3/vq.cpp:203 | for a 256-entry codebook the result fits the index byte |
| VqCompress.CodebookBytesAt | vendor/dca3/vq.cpp:209-215 | entry `j` of the emitted codebook occupies bytes `8j` to `8j + 8` |
| VqCompress.IndexTable | vendor/dca3/vq.cpp:201-204 | one index per block, each the nearest codebook entry |
| VqCompress.NearestEntry | vendor/dca3/vq.cpp:203 | the index byte is `findNearestBlock`'s result |
| VqCompress.EmitCodebook | vendor/dca3/vq.cpp:207-215 | the output is the packed colours of the codebook entries from `firstEntry` on, low byte first |
| VqCompress.EmitEntry | vendor/dca3/vq.cpp:210-214 | one entry appends its four packed colours, low byte then high byte |
| VqCompress.IndexRange | vendor/dca3/vq.cpp:216 | with a bounded distance every index byte names a codebook entry at or after `firstEntry` |
| VqCompress.CompressToVQ | vendor/dca3/vq.cpp:183-219 | `8 * codebookSize` codebook bytes followed by one index per 2 by 2 block; the codebook bytes are the used entries in order and every index is the nearest entry for its block |
| Float16.Default | vendor/dca3/float16.h:7-9 | the default value has pattern 0, the float +0 |
| Float16.FromToFloat | vendor/dca3/float16.h:11-25 | converting a `float16` to float and back gives it back |
| Float16.ToFromFloat | vendor/dca3/float16.h:11-25 | converting a float to `float16` and back keeps its top 16 bits, including sign and exponent, and clears the low 16 bits of the mantissa |
| Float16.Representable | vendor/dca3/float16.h:15-25 | a float is some `float16`'s value exactly when its low 16 bits are zero |
| Float16.EqualIsPattern | vendor/dca3/float16.h:63-65 | `==` compares bit patterns, so it holds exactly when the two values are the same float and the same pattern |
| Float16.FromFloatEqual | vendor/dca3/float16.h:11-13 | two floats convert to equal `float16`s exactly when their top 16 bits agree |
| PvrFile.SmallVQCodebookSize | vendor/pvrtex/file_pvr.c:7-28 | the size is a positive multiple of 8 up to 256: 24 up to 32 texels, 256 above 192 |
| PvrFile.SmallVQSizes | vendor/pvrtex/file_pvr.c:8-25 | for each listed texture the codebook and index bytes total the size its comment states |
| PvrFile.ChunkHeader | vendor/pvrtex/file_pvr.c:39-82 | fails exactly for a compressed palettized texture and for a mipmapped rectangle; otherwise the chunk size is 16 plus the index count and the codebook bytes (compressed) or the texture size less 4 with mipmaps (uncompressed); the format is small VQ, VQ, rectangle, 8 bpp, 4 bpp or square by those rules, mipmapped as asked, and `GBIX` is written exactly when the codebook size is not 256 |
| PvrFile.Write | vendor/pvrtex/file_pvr.c:30-101 | fails, writing nothing, exactly for a compressed palettized texture and for a mipmapped rectangle; otherwise the chunk size is 16 plus what the encoder writes, and when the encoder writes that much the file is the chunk size long, plus 12 with `GBIX`, and its size field reads back: the closing assertion |
| PvrFile.ChunkFits | vendor/pvrtex/file_pvr.c:39-61 | for 16-bit dimensions the unsigned arithmetic of a compressed chunk size never wraps |
| PvrFile.LE32RoundTrip | vendor/pvrtex/file_pvr.c:92 | a written 32-bit field reads back as the value modulo 2^32 |
| PvrFile.FileSize | vendor/pvrtex/file_pvr.c:84-100 | with texture data of the chunk size less the 16 header bytes, the file is the chunk size long, plus 12 with `GBIX`, and the chunk size field reads back |
| PvrFile.FieldAt | vendor/pvrtex/file_pvr.c:86-93 | a 32-bit field written after a prefix reads back at the prefix's length |
| DreamMeshExport.ReadStep | tools/DreamExporter.cs:2543-2559 | a new index joins the lump at the next position; a known one keeps its position; an index the submesh has already decoded already maps to `replica_base` plus its lump position, so the "Index missmatch" exception is never thrown |
| DreamMeshExport.ReadIndex | tools/DreamExporter.cs:2542-2560 | one pass of the index loop keeps the lump, its positions and the submesh's decode map in step with the indices read so far |
| DreamLoader.SceneStore.LoadTexturesSection | repacker.cpp:67-84 | the texture section fails exactly when its specification fails, with the same error, and otherwise the store becomes what it describes |
| DreamLoader.SceneStore.LoadMaterialsSection | repacker.cpp:86-109 | the material section fails exactly when its specification fails, with the same error, and otherwise the store becomes what it describes |
| DreamLoader.SceneStore.LoadMeshesSection | repacker.cpp:111-156 | the mesh section fails exactly when its specification fails, with the same error, and otherwise the store becomes what it describes |
| DreamLoader.SceneStore.LoadGameObjectsSection | repacker.cpp:158-202 | the store becomes what the game-object section describes |
| Sorting.SortByKey | tools/repacker.cpp:565-567 | `std::sort` with a key comparison: the result is a permutation of the input in non-decreasing key order |
| Pavo.InitialEnv | pavo/pavo.h:158-168 | the first environment is the defaults (not paused, free to move, rotate and look, no interaction handler, cursor shown, in-game mode) overridden by every field the initial environment sets |
| Pavo.MergeFields | pavo/pavo.h:76-86 | each field of a merged environment is the override's value when the override sets it and the base's value otherwise; a null interaction handler does not override |
| Pavo.MergeEmpty | pavo/pavo.h:76-86 | merging an environment that sets nothing leaves the base unchanged |
| Pavo.MergeIdempotent | pavo/pavo.h:76-86 | merging the same environment twice is the same as merging it once |
| Pavo.MergeCompose | pavo/pavo.h:76-86 | merging two environments in turn equals merging once with their field-wise combination, the later one winning |
| Pavo.Without | pavo/pavo.h:110 | `std::list::remove`: the result is no longer than the list and holds only entries of the list other than the removed pointer |
| Pavo.WithoutKeeps | pavo/pavo.h:110 | every entry other than the removed pointer is still in the list after `remove` |
| Pavo.WithoutDistinct | pavo/pavo.h:110 | removing a pointer from a stack of distinct pointers keeps them distinct, shortens the stack by one when the pointer is on it and changes nothing otherwise |
| Pavo.PushPop | pavo/pavo.h:102-113 | popping the environment just pushed restores the stack as it was before the push |
| Pavo.WithoutAppend | pavo/pavo.h:110 | removal distributes over an appended entry |
| Pavo.WithoutAbsent | pavo/pavo.h:110 | removing a pointer that is not on the stack changes nothing |
| Pavo.WithoutName | pavo/pavo.h:150 | removing a slot compares by name: the result keeps exactly the slots with another name |
| Pavo.WithoutNameUnique | pavo/pavo.h:150 | an inventory with unique names keeps them unique after a removal |
| Pavo.WithoutNameAbsent | pavo/pavo.h:150 | removing a name no slot holds changes nothing |
| Pavo.CountOfSlot | pavo/pavo.h:123-131 | in an inventory with unique names, the count of a slot's name is that slot's count |
| Pavo.CountOfAbsent | pavo/pavo.h:123-131 | a name no slot holds has count zero |
| Pavo.CountOfUntouched | pavo/pavo.h:126 | updating one slot leaves the count of every other name unchanged |
| Pavo.CountOfSnoc | pavo/pavo.h:130 | appending a slot leaves the count of every other name unchanged |
| Pavo.HoldsCount | pavo/pavo.h:133-140 | some slot with the name has at least `times` items exactly when the name is held and its count reaches `times` |
| Pavo.State.constructor | pavo/pavo.h:99-100 | the environment stack and the inventory start empty |
| Pavo.State.Initialize | pavo/pavo.h:158-168 | a fresh environment equal to the initial one merged over the defaults is pushed; the inventory is unchanged |
| Pavo.State.GetEnv | pavo/pavo.h:115-117 | the current environment is the one on top of the stack |
| Pavo.State.PushEnv | pavo/pavo.h:102-106 | a fresh environment, the old top merged with the new settings, is pushed and handed back through the caller's pointer; the inventory is unchanged |
| Pavo.State.PopEnv | pavo/pavo.h:108-113 | with more than one environment on the stack, the caller's environment is removed wherever it sits, the caller's pointer is cleared and at least one environment remains |
| Pavo.State.AddItem | pavo/pavo.h:123-131 | the named item's count goes up by one, wrapping at 2^32; an existing slot keeps its position, a new name gets a slot of count 1 at the end; every other count is unchanged |
| Pavo.State.HasItemTimes | pavo/pavo.h:133-140 | the answer is true exactly when some slot with the name holds at least `times` items |
| Pavo.State.HasItem | pavo/pavo.h:142-144 | the answer is true exactly when the name is held at least once |
| Pavo.State.RemoveItem | pavo/pavo.h:146-155 | the answer is true exactly when some slot had the name; that slot goes whatever its count, so the name is no longer held; nothing else changes |
| GenTable.Decimal | vendor/emu/refsw/gentable.py:19 | `str(i)` is a non-empty string of decimal digits |
| GenTable.DecimalValue | vendor/emu/refsw/gentable.py:19 | the digits `str(i)` produces spell `i` back |
| GenTable.Generator.Recurse | vendor/emu/refsw/gentable.py:16-30 | the lines appended are exactly the sub-table for the level: a leaf at the last level, otherwise an opening brace, the sub-tables for each value of the level's parameter in increasing order, and a closing brace with a comma below the outermost level |
| GenTable.GenerateTable | vendor/emu/refsw/gentable.py:4-38 | the text is the declaration, the nested initialiser and the closing `;`, joined by newlines |
| GenTable.TreeLeaves | vendor/emu/refsw/gentable.py:16-30 | the leaves below a sub-table are its index prefix followed by every tuple of the remaining ranges, in lexicographic order |
| GenTable.TuplesLength | vendor/emu/refsw/gentable.py:23-24 | the table holds as many entries as the product of its declared dimensions |
| GenTable.TuplesSorted | vendor/emu/refsw/gentable.py:23-24 | the entries appear in strictly increasing lexicographic order of their indices, so no instantiation is listed twice |
| GenTable.TuplesComplete | vendor/emu/refsw/gentable.py:23-24 | an index tuple is listed exactly when each index lies below its dimension |
| GenTable.TableLeaves | vendor/emu/refsw/gentable.py:4-38 | the generated table's leaves are all in-range index tuples, once each, in lexicographic order, as many as the product of the dimensions |
| GenTable.WalkAppend | vendor/emu/refsw/gentable.py:22-30 | brace nesting over two runs of lines is the nesting of the first followed by that of the second |
| GenTable.TreeBalanced | vendor/emu/refsw/gentable.py:16-30 | every sub-table closes all the braces it opens and never closes one it did not open |
| GenTable.InnerClosesHaveComma | vendor/emu/refsw/gentable.py:26-29 | below the outermost level every closing brace carries a comma |
| GenTable.TableBraces | vendor/emu/refsw/gentable.py:26-36 | the braces of the whole table balance; only the outermost closing brace lacks the comma and it is followed by the `;` line |
| GenTable.Ranges | vendor/emu/refsw/gentable.py:51 | each dimension is `1 << bw` of its bit width |
| GenTable.RangesProduct | vendor/emu/refsw/gentable.py:51 | a table over `1 << bw` per parameter has 2 to the total bit width entries |
| GenTable.MainTableSizes | vendor/emu/refsw/gentable.py:40-89 | the five generated tables have dimensions [2,2,2,2,2,4,2], [2,2,2,2,2,4], [2,2,4], [2,2,8,8] and [2,2,2,2,8], so 256, 128, 16, 256 and 128 entries |
| PvrMem.Map32 | vendor/emu/refsw/pvr_mem.cpp:38-54 | `pvr_map32` gives an offset inside the 8 MiB of video memory |
| PvrMem.MaskConstants | vendor/emu/refsw/pvr_mem.cpp:42-43 | at 8 MiB the static mask keeps bits 0-1 only and the offset mask is bits 2-21 |
| PvrMem.MapFields | vendor/emu/refsw/pvr_mem.cpp:38-54 | bits 0-1 of the address stay in place, the bank bit lands in bit 2 and bits 2-21 move up by one place |
| PvrMem.UnmapMap | vendor/emu/refsw/pvr_mem.cpp:38-54 | the inverse interleave recovers every address from its offset, modulo 8 MiB |
| PvrMem.MapUnmap | vendor/emu/refsw/pvr_mem.cpp:38-54 | every offset is the image of an address, so `pvr_map32` is a permutation of the 8 MiB |
| PvrMem.MapInjective | vendor/emu/refsw/pvr_mem.cpp:38-54 | two addresses share an offset exactly when they agree modulo 8 MiB |
| PvrMem.MapAligned | vendor/emu/refsw/pvr_mem.cpp:38-54 | a 2- or 4-byte aligned address maps to an equally aligned offset whose access stays inside the array |
| PvrMem.LoadStore16 | vendor/emu/refsw/pvr_mem.cpp:16-30 | a 16-bit write followed by a read of the same address returns the value written |
| PvrMem.LoadStore32 | vendor/emu/refsw/pvr_mem.cpp:20-34 | a 32-bit write followed by a read of the same address returns the value written |
| PvrMem.Apart | vendor/emu/refsw/pvr_mem.cpp:38-54 | aligned accesses at addresses that differ modulo 8 MiB touch disjoint bytes |
| PvrMem.LoadStoreOther32 | vendor/emu/refsw/pvr_mem.cpp:20-34 | a 32-bit write leaves the word at every other aligned address unchanged |
| PvrMem.LoadStoreOther16 | vendor/emu/refsw/pvr_mem.cpp:16-30 | a 16-bit write leaves the half-word at every other aligned address unchanged |
| PvrMem.Vram.Read16 | vendor/emu/refsw/pvr_mem.cpp:16-19 | `pvr_read_area1_16` returns the little-endian half-word at the mapped offset |
| PvrMem.Vram.Read32 | vendor/emu/refsw/pvr_mem.cpp:20-23 | `pvr_read_area1_32` returns the little-endian word at the mapped offset |
| PvrMem.Vram.Write16 | vendor/emu/refsw/pvr_mem.cpp:27-30 | `pvr_write_area1_16` stores the half-word at the mapped offset and changes no other byte |
| PvrMem.Vram.Write32 | vendor/emu/refsw/pvr_mem.cpp:31-34 | `pvr_write_area1_32` stores the word at the mapped offset and changes no other byte |
| PvrMem.Vram.Vri | vendor/emu/refsw/pvr_mem.cpp:61-64 | `vri` reads the same word as `pvr_read_area1_32` |
| PvrMem.Vram.Vrf | vendor/emu/refsw/pvr_mem.cpp:57-60 | `vrf` reads the same 32-bit pattern, which the caller takes as a float |
| PvrMem.Vram.Vrp | vendor/emu/refsw/pvr_mem.cpp:66-69 | `vrp` points at an in-bounds word of the array that holds the word at that address |
| PvrRegs.ResetTableDistinct | vendor/emu/refsw/pvr_regs.cpp:147-170 | `pvrInit` sets each register once, and none of the registers the write path treats specially other than ID, REVISION and SOFTRESET |
| PvrRegs.StoreWord | vendor/emu/refsw/pvr_regs.cpp:31-145 | a write changes at most the addressed word |
| PvrRegs.WriteEffects | vendor/emu/refsw/pvr_regs.cpp:71-92 | a write calls the TA init only for TA_LIST_INIT with bit 31 set, the TA reset only for an odd SOFTRESET value, and at most one of them |
| PvrRegs.ReadOnlyIgnored | vendor/emu/refsw/pvr_regs.cpp:36-41 | writes to ID, REVISION and TA_YUV_TEX_CNT change nothing and call nothing |
| PvrRegs.SoftResetReadsZero | vendor/emu/refsw/pvr_regs.cpp:82-92 | a SOFTRESET write stores 0 and resets the TA exactly when bit 0 is set |
| PvrRegs.WriteReadsBack | vendor/emu/refsw/pvr_regs.cpp:31-145 | a write to any other register stores the value unchanged, and only a TA_LIST_INIT write with bit 31 set calls out |
| PvrRegs.DrainAppend | vendor/emu/refsw/pvr_regs.cpp:184-191 | first in, first out: queued interrupts are handled in queue order before any their handlers raise, and those in the order raised |
| PvrRegs.DrainQuiet | vendor/emu/refsw/pvr_regs.cpp:184-188 | when no handler raises anything, the queue is handled exactly in the order it holds |
| PvrRegs.DrainStep | vendor/emu/refsw/pvr_regs.cpp:185-187 | handling the front of the queue leaves the same handler runs still to come, and the drain measure decreases |
| PvrRegs.Handlers | vendor/emu/refsw/pvr_regs.cpp:183-187 | one handler run per handled interrupt, in order |
| PvrRegs.Pvr.RegRead | vendor/emu/refsw/pvr_regs.cpp:24-27 | `pvrRegRead` returns the addressed word |
| PvrRegs.Pvr.RegWrite | vendor/emu/refsw/pvr_regs.cpp:31-145 | `pvrRegWrite` stores as `StoreWord` says and calls as `WriteEffects` says; a STARTRENDER write renders, then raises the render-done interrupt, which is handled at once outside a handler and queued inside one |
| PvrRegs.Pvr.Init | vendor/emu/refsw/pvr_regs.cpp:147-170 | `pvrInit` builds the tables, every register of the reset table holds its reset value and every other word keeps its own |
| PvrRegs.Pvr.SetRegisters | vendor/emu/refsw/pvr_regs.cpp:149-169 | after assignments to distinct registers each holds its value and no other word changes |
| PvrRegs.Pvr.QueueInterrupt | vendor/emu/refsw/pvr_regs.cpp:180-194 | outside the handler, the handler runs for the interrupt and then for every interrupt raised meanwhile, in first-in first-out order, until the queue is empty; inside it, the interrupt is only queued |
| PvrRegs.Pvr.DrainQueue | vendor/emu/refsw/pvr_regs.cpp:184-188 | the drain loop empties the queue and runs the handler for exactly the interrupts `Drain` lists |
| PvrRegs.Pvr.HandleNext | vendor/emu/refsw/pvr_regs.cpp:185-187 | one turn of the drain loop pops the front and handles it, keeping what remains to be handled |
| PvrRegs.Pvr.RunHandler | vendor/emu/refsw/pvr_regs.cpp:180-194 | a handler run is logged and every interrupt it raises is queued, in order |
| PvrScene.FinishList | vendor/koshle/hlepvr_scene.cpp:175-206 | `pvr_list_finish` refuses with -1 exactly when no list is open outside DMA mode; otherwise it closes the open list after a blank header and the 32-byte end-of-list marker, and no list stays open |
| PvrScene.BeginList | vendor/koshle/hlepvr_scene.cpp:149-167 | `pvr_list_begin` refuses with -1 exactly when the list is closed outside DMA mode; otherwise it finishes a different open list first and opens the list |
| PvrScene.StepKeepsClosed | vendor/koshle/hlepvr_scene.cpp:149-206 | no list operation reopens a closed list or removes a list from the closed set |
| PvrScene.ClosedForTheFrame | vendor/koshle/hlepvr_scene.cpp:145-174 | once closed, a list stays closed for the rest of the frame and `pvr_list_begin` refuses it, whatever operations follow |
| PvrScene.BlankListIsBeginFinish | vendor/koshle/hlepvr_scene.cpp:329-335 | opening a not-yet-closed list with none open sends nothing, and finishing it closes it with a blank header and the end-of-list marker |
| PvrScene.BlankListsCloses | vendor/koshle/hlepvr_scene.cpp:328-336 | the blank-list loop closes exactly the enabled lists not closed before, and sends no header to a closed list |
| PvrScene.FinishScene | vendor/koshle/hlepvr_scene.cpp:278-341 | outside DMA mode a finished scene has no open list |
| PvrScene.SceneFinishClosesAll | vendor/koshle/hlepvr_scene.cpp:278-341 | after `pvr_scene_finish` every enabled list is closed, with the one that was open and those closed before and no other, so none can be begun again this frame |
| PvrScene.CopyContents | vendor/koshle/hlepvr_scene.cpp:238 | after `memcpy` the data is at the target, bytes outside it keep their values and no other address is written |
| PvrScene.PvrState.SetVertbuf | vendor/koshle/hlepvr_scene.cpp:29-61 | `pvr_set_vertbuf` splits the buffer into two halves of `len / 2` bytes, one per DMA buffer, with empty write offsets, and returns the old base |
| PvrScene.PvrState.VertbufTail | vendor/koshle/hlepvr_scene.cpp:63-76 | `pvr_vertbuf_tail` is the list's base plus its write offset in the current buffer |
| PvrScene.PvrState.VertbufWritten | vendor/koshle/hlepvr_scene.cpp:78-90 | `pvr_vertbuf_written` advances the write offset by `amt` as a 32-bit sum, which must stay below the size |
| PvrScene.PvrState.SceneBegin | vendor/koshle/hlepvr_scene.cpp:94-117 | `pvr_scene_begin` opens no list; in DMA mode it zeroes every write offset of the current buffer, otherwise it reopens all lists |
| PvrScene.PvrState.ListBegin | vendor/koshle/hlepvr_scene.cpp:149-167 | `pvr_list_begin` changes the list state, sends events and returns as `BeginList` says |
| PvrScene.PvrState.ListFinish | vendor/koshle/hlepvr_scene.cpp:175-206 | `pvr_list_finish` changes the list state, sends events and returns as `FinishList` says |
| PvrScene.PvrState.SubmitPrim | vendor/koshle/hlepvr_scene.cpp:208-228 | `pvr_prim` refuses with -1 when no list is open; otherwise the data goes to the TA, or in DMA mode to the tail of the open list's buffer |
| PvrScene.PvrState.ListPrim | vendor/koshle/hlepvr_scene.cpp:230-243 | `pvr_list_prim` copies the data to the tail of the list's buffer and advances the write offset by its size |
| PvrScene.PvrState.BlankList | vendor/koshle/hlepvr_scene.cpp:329-335 | one turn of the blank-list loop closes an enabled unclosed list with its blank-list events and otherwise changes nothing |
| PvrScene.PvrState.SendBlankLists | vendor/koshle/hlepvr_scene.cpp:328-336 | the blank-list loop ends in the state and events `BlankLists` gives |
| PvrScene.PvrState.SceneFinish | vendor/koshle/hlepvr_scene.cpp:278-341 | `pvr_scene_finish` outside DMA mode releases the store queues, finishes an open list and sends blank lists, ending as `FinishScene` says |
| RefswPixel.ClampFlip | vendor/emu/refsw/refsw_tile.cpp:609-628 | every texture addressing mode gives a texel coordinate inside the texture |
| RefswPixel.ClampFlipInside | vendor/emu/refsw/refsw_tile.cpp:609-628 | every mode leaves a coordinate inside the texture unchanged |
| RefswPixel.ClampEdges | vendor/emu/refsw/refsw_tile.cpp:612-617 | clamping maps coordinates below the texture to 0 and past it to the last texel |
| RefswPixel.WrapPeriodic | vendor/emu/refsw/refsw_tile.cpp:623-625 | wrapping repeats the texture every `size` texels |
| RefswPixel.FlipMirror | vendor/emu/refsw/refsw_tile.cpp:618-622 | flipping mirrors the texture at its edge and repeats every `2 * size` texels |
| RefswPixel.ToU8_256 | vendor/emu/refsw/refsw_tile.cpp:902-904 | `to_u8_256` stretches a weight by at most one, to at most 256 |
| RefswPixel.ToU8_256Ends | vendor/emu/refsw/refsw_tile.cpp:902-904 | only 0 maps to 0, only 255 maps to 256, and the stretch keeps the order strictly |
| RefswPixel.ToU8_256Complement | vendor/emu/refsw/refsw_tile.cpp:902-904 | a weight and its complement `255 - v` stretch to weights summing to 256 |
| RefswPixel.Scale | vendor/emu/refsw/refsw_tile.cpp:985-1016 | scaling a channel by a stretched weight never raises it and a weight of 256 keeps it |
| RefswPixel.Mix | vendor/emu/refsw/refsw_tile.cpp:999-1005 | a mix of two channels lies between them and the end weights give either channel |
| RefswPixel.AddSat | vendor/emu/refsw/refsw_tile.cpp:1022 | the offset add never lowers either channel nor exceeds their sum; it is the exact sum when that fits a byte and 255 exactly when the sum reaches 255 |
| RefswPixel.ColorCombiner | vendor/emu/refsw/refsw_tile.cpp:972-1028 | without a texture the base colour passes; with the offset the alpha is the shaded alpha and each colour channel is at least the shaded one |
| RefswPixel.CombinerIdentities | vendor/emu/refsw/refsw_tile.cpp:972-1028 | decal copies the texel, modulating by white copies it, and a black offset changes nothing |
| RefswPixel.DecalAlpha | vendor/emu/refsw/refsw_tile.cpp:996-1008 | decal-alpha keeps the base alpha; an opaque texel replaces the colour and a transparent one keeps the base |
| RefswPixel.BlendCoefsComplement | vendor/emu/refsw/refsw_tile.cpp:1099-1121 | an odd blend instruction gives the complement `255 - x` of the even one below it |
| RefswPixel.BlendChannelUnit | vendor/emu/refsw/refsw_tile.cpp:1136 | a weight of 255 against 0 passes a channel through unchanged |
| RefswPixel.BlendCopies | vendor/emu/refsw/refsw_tile.cpp:1123-1141 | one-zero blending gives the source and zero-one the destination |
| RefswPixel.BlendChannelMix | vendor/emu/refsw/refsw_tile.cpp:1136 | blending with weight `a` against `255 - a` is the combiner's mix with weight `to_u8_256(a)` |
| RefswPixel.AlphaBlend | vendor/emu/refsw/refsw_tile.cpp:1099-1141 | source-alpha over inverse-source-alpha blending lands each channel between source and destination; an opaque source replaces and a transparent one keeps |
| RefswPixel.ModifierHit | vendor/emu/refsw/refsw_tile.cpp:404-413 | a passing modifier face flips stencil bit 1, sets bit 2 and keeps the rest |
| RefswPixel.SummaryOr | vendor/emu/refsw/refsw_tile.cpp:114-124 | a marked pixel is reduced to 1 when either low bit is set, an unmarked one is kept |
| RefswPixel.SummaryAnd | vendor/emu/refsw/refsw_tile.cpp:126-136 | a marked pixel is reduced to 1 when both low bits are set, an unmarked one is kept |
| RefswPixel.InsideByParity | vendor/emu/refsw/refsw_tile.cpp:114-136 | from a cleared stencil, `k` passing faces leave the OR summary at `k mod 2` and the AND summary at 0 |
| RefswTile.DepthComplement | vendor/emu/refsw/refsw_tile.cpp:366-388 | compare modes `m` and `7 - m` pass exactly opposite fragments |
| RefswTile.FlushIsp | vendor/emu/refsw/refsw_tile.cpp:347-480 | `PixelFlush_isp` never touches depth B, tag B or the rendered bit; only the modifier pass changes the stencil, and it changes only that; only punch-through and autosort passes raise `MoreToDraw` |
| RefswTile.FlushDepthFail | vendor/emu/refsw/refsw_tile.cpp:366-388 | a fragment that fails the compare leaves the pixel alone and raises `MoreToDraw` only in autosort |
| RefswTile.FlushNeverAlways | vendor/emu/refsw/refsw_tile.cpp:357-455 | in opaque and presort passes mode 0 never writes and mode 7 always takes the tag |
| RefswTile.ForcedModes | vendor/emu/refsw/refsw_tile.cpp:357-364 | punch-through, modifier and autosort passes ignore the polygon's compare mode |
| RefswTile.OpaqueWrite | vendor/emu/refsw/refsw_tile.cpp:393-401 | a passing opaque fragment takes the tag and marks it valid, and writes its depth exactly when Z writes are on |
| RefswTile.AutosortPeel | vendor/emu/refsw/refsw_tile.cpp:456-476 | autosort peeling keeps the candidate depth between the reference layer's and the current candidate's; a fragment is taken only with a depth at least the reference's, ties at the reference broken by a smaller tag; another pass is asked for when a valid candidate is displaced or a fragment fails the compare |
| RefswTile.PunchthroughPeel | vendor/emu/refsw/refsw_tile.cpp:424-444 | punch-through peeling takes a fragment only for an unrendered pixel, between the current layer and the reference with ties broken by a larger tag, and every take asks for another pass |
| RefswTile.ModifierStencil | vendor/emu/refsw/refsw_tile.cpp:404-413 | a modifier face changes the stencil exactly when it passes greater-or-equal |
| RefswTile.FlushAll | vendor/emu/refsw/refsw_tile.cpp:347-480 | flushing fragments in order never touches the peel reference |
| RefswTile.OpaqueNearestWins | vendor/emu/refsw/refsw_tile.cpp:385-401 | with greater-or-equal testing and Z writes on, the opaque pass ends at the nearest depth among the start and the fragments |
| RefswTile.Tile.ClearBuffers | vendor/emu/refsw/refsw_tile.cpp:60-72 | depth A, stencil (as a byte) and tag A take the given values everywhere, and every pixel is valid and unrendered |
| RefswTile.Tile.ClearParamStatusBuffer | vendor/emu/refsw/refsw_tile.cpp:74-80 | every pixel becomes invalid and unrendered |
| RefswTile.Tile.PeelBuffersPTInitial | vendor/emu/refsw/refsw_tile.cpp:82-90 | depth A is copied to depth C, and status and stencil are cleared everywhere |
| RefswTile.Tile.PeelBuffersPT | vendor/emu/refsw/refsw_tile.cpp:92-95 | depth and tag A are copied to B |
| RefswTile.Tile.PeelBuffers | vendor/emu/refsw/refsw_tile.cpp:97-111 | the current layer is copied to B, then depth A, status and stencil are reset everywhere |
| RefswTile.Tile.SummarizeStencilOr | vendor/emu/refsw/refsw_tile.cpp:114-124 | every stencil entry becomes its OR summary |
| RefswTile.Tile.SummarizeStencilAnd | vendor/emu/refsw/refsw_tile.cpp:126-136 | every stencil entry becomes its AND summary |
| RefswTile.Tile.ClearMoreToDraw | vendor/emu/refsw/refsw_tile.cpp:139-142 | the flag is cleared |
| RefswTile.Tile.GetMoreToDraw | vendor/emu/refsw/refsw_tile.cpp:144-147 | the flag is returned |
| RefswTile.Tile.DepthTest | vendor/emu/refsw/refsw_tile.cpp:366-388 | the first switch passes a fragment exactly as `DepthPasses` says |
| RefswTile.Tile.PixelFlushIsp | vendor/emu/refsw/refsw_tile.cpp:347-480 | the pixel at `index` and `MoreToDraw` change as `FlushIsp` says, and every other pixel keeps its buffers |
| RefswTile.Tile.UpdatePixel | vendor/emu/refsw/refsw_tile.cpp:390-479 | after a passing compare, the pixel at `index` is updated as `FlushIsp` says and no other pixel changes |
| RefswTile.Tile.BlendingUnit | vendor/emu/refsw/refsw_tile.cpp:1123-1141 | the blend of the selected source and destination replaces the destination accumulator entry, and nothing else changes |

## Left out

- PvrMem: the VRAM size is fixed at 8 MiB, the configuration the interleave masks are written for. The 16 MiB configuration is not modelled.
- PvrMem.Vram.Read16, PvrMem.Vram.Read32, PvrMem.Vram.Write16, PvrMem.Vram.Write32: require an address aligned to the access width. An unaligned `*(u16*)` or `*(u32*)` access in pvr_mem.cpp:16-34 straddles two interleaved words, or runs past the end of `emu_vram`, and is not modelled.
- PvrMem.Vram.Vrf returns the 32-bit pattern. Its reading as an `f32` is not modelled.
- RefswPixel.ClampFlip requires a power-of-two size in the wrap and flip modes, the texture sizes the hardware allows. For other sizes the source's masks are not a remainder, and the model does not capture them.
- RefswTile: depths are exact reals, and `mask_w` is the identity, as refsw_tile.cpp:53-58 has it. Float rounding and NaN compares are not modelled.
- RefswTile.FlushIsp and RefswTile.Tile.PixelFlushIsp exclude `RM_PUNCHTHROUGH_MV`, for which refsw_tile.cpp:478 calls `die`.
- RefswTile: the rasteriser, texture fetch and filter, fog and `PixelFlush_tsp` that call these helpers are float code and are not modelled. The tile buffers are the arrays of one `Tile` object rather than globals.
- PvrRegs: the register file is held as 32-bit words, the only width pvr_regs.cpp accesses it at. The addresses of the named registers come from `pvr_regs.h`, which is not part of this model; they are a parameter of `PvrRegs.Pvr`, required to give distinct words.
- PvrRegs: `BuildTables`, `RenderCORE`, `lxd_ta_init` and `lxd_ta_reset` are outside the register file. They are recorded as effects in call order, and what they do is not modelled.
- PvrRegs: the `frameDump` branch of a STARTRENDER write (pvr_regs.cpp:45-63) writes files and is not modelled. `pvr_ta_data` is a one-line call into the TA and is not modelled.
- PvrRegs.Pvr.RegWrite requires that the address is not TA_LIST_CONT. pvr_regs.cpp:94-98 fails an assertion for that write.
- PvrRegs: the interrupt handler `pvr_int_handler` is not part of this model. The interrupts each run raises are a script, `raises`, fixed when the object is made.
- PvrRegs.Pvr.Init: the 21 assignments of `pvrInit` are a loop over the table of register and value pairs, in source order.
- PvrScene: the build modelled is the debug build, in which the `#ifndef NDEBUG` checks of hlepvr_scene.cpp are present. `PVR_OPB_COUNT` is a parameter (`listCount`), and the list-enable mask is a set.
- PvrScene.PvrState.SceneFinish requires non-DMA mode. In DMA mode hlepvr_scene.cpp:289 fails an assertion.
- PvrScene: `emu_pump_events`, `pvr_sync_stats`, `pvr_blank_polyhdr`, `pvr_dr_finish` and `pvr_ta_data` are recorded as events in call order. What they do is not modelled.
- PvrScene: `pvr_scene_begin_txr`, `pvr_dr_init`, `pvr_dr_target`, `pvr_dr_commit` and `pvr_list_flush` are not modelled. The first sets render-to-texture fields only the renderer reads, the store-queue calls are hardware plumbing, and `pvr_list_flush` only fails an assertion.
- PvrScene.PvrState.SetVertbuf, PvrScene.PvrState.SubmitPrim, PvrScene.PvrState.ListPrim: take sizes as naturals below 2^31. A negative `len` or `size` is not modelled.
- PvrScene: buffer addresses are naturals and memory is a map from address to byte. Overlapping buffers and the 32-bit pointer width are not modelled.
- pavo/pavo.h `applyState` is an empty placeholder and is not modelled. The environment stack `envs` and the inventory `playerState` are static members in the source; the model makes them the fields of one `State` object. `std::shared_ptr` identity is object identity: `popEnv` removes by pointer, as `std::list::remove` does. The caller's `std::shared_ptr*` out-parameter is an `EnvHandle` object. Item names are compared by content, as `strcmp` does. Reference counting and the lifetime of the name strings are not modelled.
- vendor/emu/refsw/gentable.py: printing the five tables is I/O and is left out; their dimensions are stated by `GenTable.MainTableSizes`. The `lines` list holds each line in its structured form (`GenTable.Line`) and `GenTable.Render` spells it; `generate_table` renders them when it joins them. The indentation strings are carried but not reasoned about.
- vendor/gldc/alloc.cpp `alloc_shutdown`, `alloc_base_address`, `alloc_block_count`, `pvr_mem_free`, `pvr_mem_available` and `pvr_mem_reset` are thin wrappers and are not modelled. `Free` models `alloc_free` and `CountFree` models `alloc_count_free`. The 8 MiB VRAM limit is a constant of the model.
- Geometry: binary32 arithmetic in tools/DreamExporter.cs is modelled with exact reals. This includes the epsilon, area and edge tests of DreamExporter.cs:608-656, so a triangle near a threshold can be classified differently. Rounding, overflow to infinity and NaN are not captured.
- Other exporter floats (positions, UVs, centroids) are opaque values with exact equality and an abstract total order.
- DreamStream.Reader.Read7BitEncodedInt returns an unbounded `nat`. repacker.cpp:30-38 accumulates into a 32-bit `int` with shifts that reach 28 and 35, so a five-byte or longer varint overflows there and not in the model.
- DreamLoader.SceneStore.LoadDreamScene computes `width * height * 4` (repacker.cpp:79) and `vertexCount * 3` (repacker.cpp:118) on unbounded integers. In the source these are `int` products that can overflow.
- DreamLoader.TextureAt, DreamLoader.MaterialAt, DreamLoader.MeshAt: bytes past the end of a truncated file are modelled as zeros. The source leaves them indeterminate where it reads into a buffer it never zeroes: `malloc` pixel data (repacker.cpp:80), the uninitialised colour floats (repacker.cpp:90) and the `new[]` vertex, UV, colour, normal and index arrays (repacker.cpp:118-151). The zeros are faithful only for the zero-initialised `int`, `uint8_t` and `std::string(length, '\0')` reads.
- CollisionMesh.BakeCollisionMesh, CollisionMesh.SharedTablesIff: the tables are interned by value, not by their text. tools/DreamExporter.cs:762-786 keys the vertex and BVH tables by their formatted text, so two meshes whose floats print alike (rounded to the digits C# prints) share an id there and get two ids here. The index table is keyed by a `String.Join` of integers, which is injective, so index ids agree.
- DreamLoader: scene data is read from a byte sequence and not from a file. The terrain branch, `main`, SHA-256 and the pvrtex subprocesses are not modelled.
- Adpcm.HeaderOk excludes block headers whose step-index byte is 89-255. aud2adpcm.c:103 and :112 pass such a byte on, and aud2adpcm.c:71 then reads the step table out of bounds. That read has no defined result.
- Adpcm.BlockShape excludes stereo block sizes that are not a multiple of 8, which the source accepts. The tail of such a block is not captured.
- Adpcm.WrapInt32 gives C's signed 32-bit overflow a two's-complement meaning. The C standard leaves it undefined.
- GldcBitmap.ShiftedOne gives `1 << n` for a negative `n` (alloc.cpp:328, 413) the value 0. The C standard leaves it undefined.
- Adpcm: file loading (`loadWav`, `loadMp3`, `loadWavIMA`, `aud2adpcm`, `main`) and `fwrite` are not modelled. The IMA decoder works on sequences rather than caller buffers.
- VqCompress: `colorDistance` (vq.cpp:119-125) uses `sqrt` on floats. It is modelled as an abstract distance function, passed as a parameter.
- VqCompress: `blockToKey` (vq.cpp:107-116) is never called and is not modelled.
- VqCompress.PackColors and VqCompress.CompressToVQ require power-of-two sizes. The twiddle layout is a bijection only for those sizes, which the PowerVR hardware demands.
- VqCompress.CompressToVQ requires a codebook size in (0, 256], so that every index fits a byte.
- VqImage.DownscaleImage requires `0 < newWidth <= width` and `0 < newHeight <= height`. Outside that range vq.cpp:287 and :298 divide by zero.
- VqImage.DownscaleImage sums channels on unbounded integers. The source's `int` sums cannot overflow for images below 2^23 pixels per block.
- Twiddle.TwiddleSlow computes on unbounded integers. The source's 32-bit `unsigned` result is the same for sizes below 2^16.
- Sorting: `std::sort` (tools/repacker.cpp) and C#'s unstable `List.Sort` (DreamExporter.cs) are modelled as "some permutation sorted by key". The model does not fix which of several equal-key orders the library picks.
- Float16: the arithmetic and comparison operators other than `==` (float16.h:27-62) compute in float, and are not modelled.
- PvrFile: `fPvrWrite` returns the file's bytes instead of writing a file, and `FileSize` is the length of those bytes. The bytes `WritePvrTexEncoder` writes, the format word, `CalcTextureSize`, and the mipmap and twiddle flags are parameters. `FILE_PVR_*` constants take the values of file_pvr.c.
- PvrFile: the unsigned arithmetic of `fPvrWrite` is not modelled with wrap-around. `PvrFile.ChunkFits` shows that 16-bit dimensions and at most 256 codebook entries keep the 32-bit chunk size equal to the exact one.
- PvrFile: the `assert` for a RECT texture with mipmaps (file_pvr.c:77) is modelled as an error result.
- RepackerMeshlets: a strip with more than 128 vertices makes the release build of tools/repacker.cpp loop forever. The model returns an error instead.
- RepackerFormat: the four vertex-block writes (`packVertex` normal quantisation, `packFloat8/16`) and `calculateBoundingSphere` are float geometry and are not modelled. Vertex sizes and alignments are modelled.
- tools/repacker.cpp float geometry (`ComputeConvexHull`, `ComputeInscribedQuadFromHull`, `MergeQuads`, `IsConvexQuad`, epsilon rounding in `CompactVertices`) is not modelled. Quad areas are parameters of the selection.
- Unity editor glue in tools/DreamExporter.cs (scene collection, flow machines, fonts, scripts, animations, hierarchy, component text emission, render-texture readback, BinaryWriter output) is not modelled.

## Findings

| source | as written | input that shows it | evidently intended | confidence | as-written member | corrected member |
|---|---|---|---|---|---|---|
| vendor/gldc/alloc.cpp:326-330 | the bit-setting loop of `alloc_malloc` counts `required_subblocks` down while the shift `7 - (offset + i)` goes negative once the run crosses into the next block. The sub-blocks past the block end stay marked free | usage bitmap `[0xFE, 0x7F]`, size 512: the fallback run starts at sub-block 7, and sub-block 8 stays free after allocation | every sub-block of the chosen run is marked used | not executed | GldcBitmap.StraddleLosesSubblock | GldcAlloc.Allocator.UpdateRange |
| vendor/gldc/alloc.cpp:411-415 | `alloc_release_blocks` clears with the same truncated leading mask, so it clears only what `alloc_malloc` as written set. It is harmless beside the allocation as written, but it must be corrected together with it | the run 7-8 marked in full by the corrected allocation, pool `[0xFF, 0xFF]`: release as written leaves sub-block 8 used | every sub-block of the released run is cleared | not executed | GldcBitmap.StraddleReleaseTruncated | GldcAlloc.Allocator.ReleaseBlocks |
| vendor/gldc/alloc.cpp:533-538 | `alloc_count_continuous` zeroes `free_bits` before it turns a run into `free_size`, so only a run reaching the end of the pool is counted | usage bitmap `[0x01]`: seven free sub-blocks followed by a used one, and the result is 0 | the size of the longest free run | not executed | GldcAlloc.Allocator.CountContinuousAsWritten | GldcAlloc.Allocator.CountContinuous |
| vendor/dca3/aud2adpcm.c:184 | `abs(step) << 16` is a 32-bit `int` shift, which overflows once the step difference reaches 32768 | samples `-32768` six times, then `32767`: the seventh code is 0 | the code that 64-bit arithmetic gives (7 for that input) | not executed | Adpcm.QuantiseOverflowExample | Adpcm.QuantiseSpec |
| vendor/dca3/vq.cpp:150-162 | `createCodebook` sums four channel values into a `uint8_t` before dividing by 4 | four texels whose channel is 128: the sum wraps to 0 and the average is 0 | the integer mean of the four channel values (128) | not executed | VqCompress.AverageOverflow | VqCompress.MeanOfFour |

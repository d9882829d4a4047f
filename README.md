# rust-quake: archive, level and baking logic in Dafny

This project models the parts of rust-quake, a Quake renderer written in Rust, that work
without a GPU, and proves properties of them:

- **Parse** (`parse.dfy`): the `CRead` little-endian readers, `read_string!` and
  `from_cstring`. A `Read + Seek` stream is a byte sequence plus a cursor (`Reader`).
- **Pak** (`pak.dfy`): `PackFile::new` decodes the directory of a `PACK` archive into a
  name → (offset, size) table. `PackFile::file` returns one entry's bytes.
- **Bsp** (`bsp.dfy`): `BspFile::parse` for Quake BSP version 29. It covers the lump
  directory and the texture, texture-info, vertex, edge, ledge, plane, face and model
  records, and the mip-texture directory of `Texture::parse_textures`.
- **Atlas** (`atlas.dfy`): the guillotine rectangle packer `TextureAtlas`, as a class whose
  free list the methods update.
- **Alloc** (`alloc.dfy`): the GPU memory sub-allocator.
  - `ChunkAlloc` keeps a used bit per 8 KiB chunk and a type tag per granularity unit.
  - `GPUMemory` holds regions of 64 MiB.
  - `GPUAlloc` routes each request to a memory.
  - All three are classes.
- **QMap** (`qmap.dfy`): the integer part of `QMap::new`.
  - Texture selection, the area sort and atlas packing, and the copy of mip levels 0–2.
  - Light-map sizing and packing, and the edge-clamped tile copy.
  - Face filtering, routing to the sky buffer, and the per-face vertex fields.
  - Triangle emission, three vertices per edge reference.
  - The sky box built by `gen_sky_box`.
- **Render** (`palette.dfy`): the RGB → RGBA palette expansion in `Renderer::new`.
- **Common** (`common.dfy`): fixed-width integer types, Rust's wrapping `as` casts,
  `Option`/`Result`, and the error kinds.

Conventions:
- A Rust panic that the input can cause is an explicit outcome: `Err(Panic)` or `Panicked`.
  Examples: an index out of range, `unwrap`/`expect` on `None`, a capacity overflow, an
  assertion.
- A read past the end of the data is `Err(Io)`.
- `f32` values are opaque 32-bit words (`Float`).
- The vertex positions, projections and light-map sizes that `QMap::new` computes in
  floating point are kept symbolic:
  - a position is a model origin plus a `Spot` (an edge end or the face centre);
  - a projection is a `Surface` or `LightUV` term naming its inputs;
  - a light map's size is an `extent` function parameter.

In two places the model follows the code rather than the repository's written description
of it:
- Textures and light maps are packed in **ascending** order of area. `TSortable::cmp`
  compares `width * height` and `sort` is ascending.
- A vertex gets light coordinates `(-1, -1)` only when its face has no light map
  (`light_map == -1`), not whenever the light type is `0xFF`. A full-bright face that has
  a light map keeps projected coordinates with a zero tile offset.

## Model

| member | source | states |
|---|---|---|
| Parse.LemmaDecodeEncode | src/parse/mod.rs:28-42 | Decoding the n little-endian bytes of any value below 256^n gives that value back |
| Parse.LemmaEncodeDecode | src/parse/mod.rs:28-42 | Any n bytes are the little-endian encoding of the number they decode to, so decoding loses nothing |
| Parse.ReadString | src/parse/mod.rs:6-12 | Succeeds iff n bytes remain at the cursor (or n is 0). It then yields exactly those n bytes and advances the cursor by n; otherwise it is an I/O error |
| Parse.LemmaFieldsAreLittleEndian | src/parse/mod.rs:25-42 | The record field views are the little-endian unsigned values of 1, 2 or 4 bytes, or their two's-complement readings |
| Parse.ReadChar | src/parse/mod.rs:25-27 | Succeeds iff one byte remains: it reads that byte as a two's-complement i8 and advances by 1; else an I/O error |
| Parse.ReadUChar | src/parse/mod.rs:28-30 | Succeeds iff one byte remains: it reads the byte and advances by 1; else an I/O error |
| Parse.ReadShort | src/parse/mod.rs:31-33 | Succeeds iff two bytes remain: it reads a little-endian i16 and advances by 2; else an I/O error |
| Parse.ReadUShort | src/parse/mod.rs:34-36 | Succeeds iff two bytes remain: it reads a little-endian u16 and advances by 2; else an I/O error |
| Parse.ReadLong | src/parse/mod.rs:37-39 | Succeeds iff four bytes remain: it reads a little-endian i32 and advances by 4; else an I/O error |
| Parse.ReadULong | src/parse/mod.rs:40-42 | Succeeds iff four bytes remain: it reads a little-endian u32 and advances by 4; else an I/O error |
| Parse.ReadFloat | src/parse/mod.rs:43-45 | Succeeds iff four bytes remain: it reads them as an opaque 32-bit word and advances by 4; else an I/O error |
| Parse.LemmaReadShortRoundTrip | src/parse/mod.rs:31-33 | Reading an i16 where its encoding was placed gives it back and advances by 2, whatever surrounds it |
| Parse.LemmaReadUShortRoundTrip | src/parse/mod.rs:34-36 | Reading a u16 where its encoding was placed gives it back and advances by 2, whatever surrounds it |
| Parse.LemmaReadLongRoundTrip | src/parse/mod.rs:37-39 | Reading an i32 where its two's-complement encoding was placed gives it back and advances by 4 |
| Parse.LemmaReadULongRoundTrip | src/parse/mod.rs:40-42 | Reading a u32 where its encoding was placed gives it back and advances by 4 |
| Parse.FileSeek | src/pak/mod.rs:36 | Seeking a file succeeds iff the target is below 2^63, and then puts the cursor there. A negative i32 offset cast to u64 therefore fails with an I/O error |
| Parse.FirstNul | src/parse/mod.rs:49-51 | The position of the first 0 byte, or the length when there is none: every byte before it is non-zero |
| Parse.FromCString | src/parse/mod.rs:48-54 | Succeeds iff the bytes before the first NUL are valid UTF-8. The result is exactly that prefix, has no NUL, is no longer than the input, and is followed by a NUL when shorter. Otherwise a UTF-8 error |
| Parse.LemmaFromCStringRoundTrip | src/parse/mod.rs:48-54 | A NUL-free UTF-8 string comes back unchanged, whether it is followed by a NUL and any padding or by nothing |
| Parse.LemmaAsciiIsUtf8 | src/parse/mod.rs:52 | ASCII bytes are valid UTF-8, so ASCII names always decode |
| Pak.ReadRecord | src/pak/mod.rs:41-49 | Reads one 0x40-byte directory record: a 0x38-byte name cut at the first NUL, then offset and size as i32 cast to u64. The outcome, I/O and UTF-8 errors included, is that of the layout function `RecordFrom` |
| Pak.Header | src/pak/mod.rs:28-36 | Fewer than 4 bytes is an I/O error and a magic other than `PACK` is a bad magic. A missing offset or length, or a negative offset (the seek fails), is an I/O error. Otherwise it yields the offset and the count `length / 0x40`, truncated toward zero and taken as 0 when negative |
| Pak.LemmaRecordsFailureSticks | src/pak/mod.rs:40-45 | Once record n fails, every longer run of the loop fails with that same error (`?` returns early) |
| Pak.LemmaDirectoryByHeader | src/pak/mod.rs:28-50 | The directory is the records read from the header's offset for the header's count, or the header's own error |
| Pak.Open | src/pak/mod.rs:23-56 | Opening succeeds iff the directory decodes, and the table then has every record inserted in file order. Otherwise it fails with the directory's error |
| Pak.ReadDirectory | src/pak/mod.rs:40-50 | The directory loop: it succeeds iff every record decodes, and its table is then the records inserted in order. Otherwise it returns the first failing record's error |
| Pak.LemmaRecordsLayout | src/pak/mod.rs:40-45 | A decoded directory of n records has record i at the directory offset plus 0x40·i, holding name, offset and size in that order |
| Pak.LemmaEntryCount | src/pak/mod.rs:35 | A decoded directory has exactly `length / 0x40` records, or none when that is negative |
| Pak.LastIndexOf | src/pak/mod.rs:46-49 | The position of the last record with the name: that record has it and no later one does |
| Pak.LemmaInsertAllSnoc | src/pak/mod.rs:46-49 | One more record sets its name to its entry, overriding any earlier one |
| Pak.LemmaLaterRecordWins | src/pak/mod.rs:46-49 | A name is in the table iff some record has it, and it maps to the entry of the last such record |
| Pak.LemmaTableKeys | src/pak/mod.rs:46-49 | The table's keys are exactly the records' names |
| Pak.File | src/pak/mod.rs:58-68 | An unknown name gives NotFound. For a known name, it succeeds iff offset and size are below 2^63 and the bytes lie in the archive (or the size is 0), returning exactly `size` bytes from `offset`. A size of 2^63 or more panics on allocation |
| Pak.LemmaFileOfKnownName | src/pak/mod.rs:58-64 | For the last record of a name, with a non-empty range inside the archive, `file` returns exactly that record's bytes |
| Bsp.ReadVec3 | src/bsp/mod.rs:68-72 | Three floats from 12 bytes and the cursor advanced by 12, or an I/O error when fewer remain |
| Bsp.ReadFace | src/bsp/mod.rs:172-188 | The 20-byte face layout. In order: u16 plane, `front` iff the u16 side is 0, the i32 ledge start and u16 count giving `start..start+count`, u16 texture info, type byte, base byte, two light bytes, i32 light-map offset. An I/O error when fewer than 20 bytes remain |
| Bsp.ReadPlane | src/bsp/mod.rs:208-216 | The 20-byte plane layout: normal, distance, i32 kind. An I/O error when short |
| Bsp.ReadTextureInfo | src/bsp/mod.rs:256-278 | The 40-byte texture-info layout: two axes with offsets, the u32 texture, `animated` iff the u32 flag is non-zero. An I/O error when short |
| Bsp.ReadModel | src/bsp/mod.rs:118-148 | The 64-byte model layout: bounds and origin, the four node ids and the leaf count skipped, and `faces = start..start+count` from the two i32s. An I/O error when short |
| Bsp.ReadModelFaces | src/bsp/mod.rs:134-147 | After the nine floats: skips five i32s and reads the face range, with the i32s cast to u64 and the sum wrapping |
| Bsp.ParseTextureInfo | src/bsp/mod.rs:250-282 | Succeeds iff all `count` records fit, and record i is then the layout at cursor + 40·i. Otherwise an I/O error |
| Bsp.ParseVertices | src/bsp/mod.rs:64-73 | Succeeds iff all `count` vertices fit, and vertex i is then the three floats at cursor + 12·i. Otherwise an I/O error |
| Bsp.ParsePlanes | src/bsp/mod.rs:201-220 | Succeeds iff all `count` records fit, and record i is then the plane at cursor + 20·i. Otherwise an I/O error |
| Bsp.ParseFaces | src/bsp/mod.rs:167-192 | Succeeds iff all `count` records fit, and record i is then the face at cursor + 20·i. Otherwise an I/O error |
| Bsp.ReadModelStep | src/bsp/mod.rs:118-148 | One model at cursor + 64·i: it succeeds iff those 64 bytes are there, decodes them by the layout and moves to record i+1 |
| Bsp.ParseModels | src/bsp/mod.rs:113-152 | Succeeds iff all `count` records fit, and record i is then the model at cursor + 64·i. Otherwise an I/O error |
| Bsp.ParseLedges | src/bsp/mod.rs:78-83 | Succeeds iff all `count` i32s fit, and entry i is then the i32 at cursor + 4·i. Otherwise an I/O error |
| Bsp.ReadEdge | src/bsp/mod.rs:231-234 | Both u16 vertex indices are read and looked up in turn. Reading past the end is an I/O error and an index outside the vertices panics, whichever comes first |
| Bsp.ParseEdges | src/bsp/mod.rs:226-237 | Succeeds iff every edge entry decodes, and edge k is then entry k (the vertices at its two indices). Otherwise the error of the first entry that fails |
| Bsp.Shr | src/bsp/mod.rs:341-342 | `v >> i` for mip level i is v divided by 2^i |
| Bsp.PictureOf | src/bsp/mod.rs:339-350 | Picture i is `(width >> i) × (height >> i)` with exactly the u32 product of those many bytes, read at the header plus the i-th mip offset |
| Bsp.Pictures | src/bsp/mod.rs:339-350 | The mip loop yields exactly the remaining pictures, or an I/O error |
| Bsp.EntryTarget | src/bsp/mod.rs:303-314 | A directory entry fails iff its i32 is past the end. Otherwise an offset of -1 means no texture and any other offset points at the lump start plus that offset |
| Bsp.ReadPictures | src/bsp/mod.rs:339-350 | The four-iteration mip loop gives what `Pictures` specifies |
| Bsp.ReadMipTexture | src/bsp/mod.rs:312-352 | Name (a 16-byte C string), width, height, the four mip offsets and the four pictures, read in that order. The first failure decides the error |
| Bsp.ReadEntryTarget | src/bsp/mod.rs:303-304 | Reads entry `id`'s offset as `EntryTarget` describes |
| Bsp.ReadTextureEntry | src/bsp/mod.rs:302-353 | One directory entry: a placeholder for -1, otherwise the texture at its offset. The directory cursor is restored afterwards |
| Bsp.LemmaEntries | src/bsp/mod.rs:302-354 | Entry k of the directory list is directory entry k decoded on its own: entries do not depend on each other |
| Bsp.LemmaEntriesPrefix | src/bsp/mod.rs:302-354 | The first n entries of a longer directory are the entries of the shorter one |
| Bsp.ParseTextures | src/bsp/mod.rs:295-357 | The texture directory loop gives what `TextureLump` specifies: the i32 count, then each entry in order. A negative count panics (capacity overflow) |
| Bsp.LemmaTextureLumpLayout | src/bsp/mod.rs:298-356 | The lump decodes iff every one of its `count` entries does, and then texture k is entry k |
| Bsp.LemmaTextureEntryId | src/bsp/mod.rs:303-337 | An entry of -1 is the placeholder with id -1. Any other entry has id equal to its directory index and four pictures |
| Bsp.VerticesAt | src/bsp/mod.rs:64-73 | The vertex list has exactly the requested count |
| Bsp.ReadHeader | src/bsp/mod.rs:32-52 | Fewer than 4 bytes is an I/O error and a version other than 29 a bad version. A short lump directory is an I/O error. Otherwise the fifteen (offset, size) pairs in lump order |
| Bsp.ReadBsp | src/bsp/mod.rs:28-104 | Errors as `ReadHeader`, and a negative light-map size panics. The parse succeeds iff every lump it uses fits and decodes. The file then holds the light-map bytes, the texture directory and, record by record, every lump decoded with count `size / record size` |
| Bsp.ReadLumps | src/bsp/mod.rs:54-92 | After the header: succeeds iff the used lumps are readable, and the file then decodes record by record |
| Bsp.ReadHeadLumps | src/bsp/mod.rs:54-59 | The light maps are exactly the `size` bytes at the lump's offset, followed by the texture directory. A negative size panics |
| Bsp.ReadMidLumps | src/bsp/mod.rs:61-76 | Texture infos, vertices and edges: succeeds iff they fit and every edge names existing vertices, with each record decoded in place |
| Bsp.ReadTailLumps | src/bsp/mod.rs:78-92 | Ledges, planes, faces and models: succeeds iff they fit, with each record decoded in place |
| Bsp.ReadTextureInfoLump | src/bsp/mod.rs:61-62 | `size / 40` texture-info records from the lump's offset. A negative size panics |
| Bsp.ReadLedgeLump | src/bsp/mod.rs:78-83 | `size / 4` i32 entries from the lump's offset. A negative size panics |
| Bsp.ReadPlaneLump | src/bsp/mod.rs:85-86 | `size / 20` plane records from the lump's offset. A negative size panics |
| Bsp.ReadFaceLump | src/bsp/mod.rs:88-89 | `size / 20` face records from the lump's offset. A negative size panics |
| Bsp.ReadModelLump | src/bsp/mod.rs:91-92 | `size / 64` model records from the lump's offset. A negative size panics |
| Atlas.LemmaDisjointMeansNoCommonCell | src/render/atlas.rs:54-70 | Two rectangles are `Disjoint` iff no cell is covered by both |
| Atlas.LemmaWithinMeansSubset | src/render/atlas.rs:54-70 | `Within` holds iff every cell of the inner rectangle is a cell of the outer one |
| Atlas.LemmaWithinDisjoint | src/render/atlas.rs:54-70 | A part of a rectangle is disjoint from whatever the whole is disjoint from |
| Atlas.LemmaFitScoreNonNegative | src/render/atlas.rs:28-32 | A free rectangle that fits the request has a non-negative score |
| Atlas.BestOf | src/render/atlas.rs:26-41 | The scan's choice is one of the rectangles scanned |
| Atlas.LemmaBestOf | src/render/atlas.rs:26-41 | No choice iff no free rectangle fits. Otherwise the choice fits, no earlier fit scores as low or lower, and no later fit scores lower (ties keep the earliest), unless the scan stopped at a zero score |
| Atlas.LemmaBestIsUnique | src/render/atlas.rs:26-41 | At most one index meets the best-fit rule |
| Atlas.LemmaPerfectFitStays | src/render/atlas.rs:35-38 | Once a zero score is found, scanning further rectangles does not change the choice |
| Atlas.LemmaSplitPieces | src/render/atlas.rs:44-70 | The placement and the (at most two) strips lie inside the chosen rectangle and are pairwise disjoint |
| Atlas.LemmaSplitPartitions | src/render/atlas.rs:44-70 | A cell of the chosen rectangle is in the placement or in a strip, and in exactly one of them |
| Atlas.TextureAtlas.constructor | src/render/atlas.rs:9-14 | A new atlas has the single free rectangle `(0, 0, width, height)`, padding 0 and no placements |
| Atlas.TextureAtlas.Padded | src/render/atlas.rs:16-21 | A padded atlas has the single free rectangle `(0, 0, width, height)`, the given padding and no placements |
| Atlas.TextureAtlas.BestFit | src/render/atlas.rs:26-41 | The scanning loop, with its early exit on a zero score, returns `BestOf` |
| Atlas.TextureAtlas.Find | src/render/atlas.rs:23-81 | The request is inflated by 2·padding on each axis. If nothing fits: `None`, free list and placements unchanged. Otherwise the chosen rectangle is removed with the others' order kept, the right strip then the bottom strip are appended, the placement is recorded, and the result is the placement shrunk by the padding (`FindStep`, `Inner`). The packing invariant is preserved: free rectangles and placements inside the atlas, pairwise apart, and together covering every cell |
| Atlas.LemmaFindKeepsValid | src/render/atlas.rs:44-70 | Removing the chosen rectangle and appending its strips keeps the free rectangles and placements pairwise disjoint, disjoint from each other and inside the atlas |
| Atlas.LemmaWholeCovered | src/render/atlas.rs:9-21 | The single free rectangle of a new atlas covers every cell of it |
| Atlas.LemmaFindKeepsCovered | src/render/atlas.rs:43-70 | After a `find`, every cell of the atlas is still in a free rectangle or in a placement: the chosen rectangle's cells go to the placement or to one of its strips |
| Atlas.PackRun | src/render/atlas.rs:23-81 | Successive `find`s of a list of sizes: a successful run has one placement per request |
| Atlas.LemmaPackRunFailureSticks | src/render/atlas.rs:78-80 | Once a request of the list does not fit, the run over any longer list fails too |
| Atlas.LemmaPackRunStep | src/render/atlas.rs:23-81 | A run that reached request `i` fails if that `find` fails, and otherwise reaches request `i + 1` with the free list after that `find` and its placement appended |
| Atlas.LemmaPackRunPrefix | src/render/atlas.rs:23-81 | The placements of a successful run, cut to the first `n`, are those of the run over the first `n` requests |
| Atlas.FindInRun | src/render/atlas.rs:23-81 | `find` as one request of a run: what `find` promises, plus the atlas afterwards is where the run leaves it, and a failed request fails the whole run |
| Atlas.ScenarioSixteen | src/render/atlas.rs:23-81 | On an unpadded 16×16 free list, a `find(4, 4)` gives `(0, 0, 4, 4)` and leaves the right strip `(4, 0, 12, 16)` and the bottom strip `(0, 4, 4, 12)` |
| Atlas.ScenarioSixteenFull | src/render/atlas.rs:26-41 | On those two strips a `find(16, 16)` gives `None` |
| Alloc.LemmaRunFree | src/render/alloc.rs:198-203 | If the scan of the candidate's chunks finds no used chunk, those chunks all exist and are free |
| Alloc.LemmaTagBound | src/render/alloc.rs:187-193 | A chunk whose granularity unit has a tag lies below g·(number of tags), which bounds the search |
| Alloc.LemmaCandidateBound | src/render/alloc.rs:187-196 | The two tag lookups and skips never move the candidate backwards or past the search bound |
| Alloc.Step | src/render/alloc.rs:185-211 | A round that restarts the search does so at a strictly later chunk still below the bound, so the `'search` loop ends |
| Alloc.LemmaStepFound | src/render/alloc.rs:198-210 | A run one round claims starts at or after the candidate, and its chunks exist, are free and have tags |
| Alloc.LemmaSearchFound | src/render/alloc.rs:185-211 | A run the whole search returns starts at or after its first candidate, and its chunks exist, are free and have tags |
| Alloc.LemmaTagRun | src/render/alloc.rs:205-209 | After the claim loop, exactly the units that some claimed chunk starts in carry the requested type; every other tag is unchanged |
| Alloc.NewChunks | src/render/alloc.rs:170-178 | `size / 8192` chunks, all free, and `size / g` tags, all `None` |
| Alloc.LemmaAllocateRange | src/render/alloc.rs:180-210 | A returned range starts at chunk index · 8192, so it is 8192- and `align`-aligned, it is exactly `size` bytes long, and its chunks lie in the region |
| Alloc.LemmaAllocateUsed | src/render/alloc.rs:181-209 | The `ceil(size/8192)` covered chunks were free and are now used; no other used bit changes |
| Alloc.LemmaAllocateTags | src/render/alloc.rs:205-209 | The units the covered chunks start in are tagged with the requested type; no other tag changes |
| Alloc.LemmaAllocateNoneUnchanged | src/render/alloc.rs:187-193 | When a tag lookup falls outside the tags, `allocate` returns `None` and changes nothing |
| Alloc.LemmaAllocateThenFree | src/render/alloc.rs:179-221 | Freeing the range an allocation returned restores the used bits from before it; the tags keep what the allocation set |
| Alloc.ChunkAlloc.constructor | src/render/alloc.rs:170-178 | The new allocator's state is `NewChunks(size, granularity)` |
| Alloc.ChunkAlloc.Allocate | src/render/alloc.rs:179-212 | Panics unless `align` divides 8192. Otherwise it runs the search and claim, and its result and new state are those of `ChunkAllocate` |
| Alloc.ChunkAlloc.PlaceRange | src/render/alloc.rs:181-211 | The search from chunk 0, then the claim. Result and new state are those of `Place` |
| Alloc.ChunkAlloc.SearchLoop | src/render/alloc.rs:185-211 | The `'search` loop returns `Search` from chunk 0. It leaves the state unchanged when it finds nothing, and claims exactly the found run otherwise |
| Alloc.ChunkAlloc.SearchRound | src/render/alloc.rs:186-210 | One iteration: the tag lookups, the chunk scan, and the claim when the chunks are free, with outcome `Step` |
| Alloc.ChunkAlloc.CandidateAt | src/render/alloc.rs:187-196 | The two tag lookups with their skips, as `Candidate` specifies |
| Alloc.ChunkAlloc.ScanRun | src/render/alloc.rs:198-203 | The scan of the candidate's chunks stops at the first used chunk or at the end of the bits, as `RunFrom` specifies |
| Alloc.ChunkAlloc.ClaimRun | src/render/alloc.rs:205-209 | Succeeds iff the last chunk's unit has a tag. It then marks every chunk of the run used and tags its unit |
| Alloc.ChunkAlloc.Free | src/render/alloc.rs:215-221 | Clears exactly chunks `ceil(start/8192) .. ceil(end/8192)` and leaves the tags alone, as `ChunkFree` specifies |
| Alloc.FirstRegion | src/render/alloc.rs:103-112 | The region that serves the request is one of the regions searched |
| Alloc.RegionOf | src/render/alloc.rs:133-138 | The first region whose device memory is the allocation's, or none when no region has it |
| Alloc.LemmaFirstRegionSkips | src/render/alloc.rs:103-112 | Every region before the one that serves the request refused it and is left as it was |
| Alloc.LemmaMemAllocateFirstFit | src/render/alloc.rs:101-129 | The allocation is owned by the memory and comes from the first region that accepts it; no other region changes. A new `REGION_SIZE` region is appended only when every existing region refused |
| Alloc.LemmaMemFreeTouchesOwnRegion | src/render/alloc.rs:131-139 | Freeing changes at most the region whose device memory the allocation uses |
| Alloc.LemmaMemAllocateThenFree | src/render/alloc.rs:101-139 | Freeing what `GPUMemory::allocate` returned gives every region back the used bits it had before (a new region is all free again) |
| Alloc.Backings | src/render/alloc.rs:141-145 | One device memory per region |
| Alloc.LemmaDestroyFreesEachOnce | src/render/alloc.rs:68-72 | Destroying the allocator frees the device memory of every region of every memory, and frees each exactly once |
| Alloc.FirstMemory | src/render/alloc.rs:36-41 | The first existing memory whose type bit is in the mask and whose properties contain the wanted ones; no earlier memory qualifies. None when no memory qualifies |
| Alloc.FirstType | src/render/alloc.rs:44-51 | The lowest compatible memory type id, or none when there is none |
| Alloc.GPUMemory.constructor | src/render/alloc.rs:52-57 | A memory with its id, type id and type, and no regions |
| Alloc.GPUMemory.Allocate | src/render/alloc.rs:101-129 | Result and new regions are those of `MemAllocate`: the first region that accepts, else a new region, with a panic if that fails too |
| Alloc.GPUMemory.Free | src/render/alloc.rs:131-139 | Frees the range in the region whose device memory the allocation uses; no such region, no change |
| Alloc.GPUMemory.Destroy | src/render/alloc.rs:141-145 | Hands back every region's device memory, in order |
| Alloc.GPUAlloc.Kinds | src/render/alloc.rs:36-37 | One (type id, memory type) pair per memory |
| Alloc.GPUAlloc.Regions | src/render/alloc.rs:68-72 | One region list per memory |
| Alloc.GPUAlloc.constructor | src/render/alloc.rs:26-32 | No memories yet |
| Alloc.GPUAlloc.Allocate | src/render/alloc.rs:34-61 | Delegates to the first compatible existing memory and changes no other. Otherwise it panics when no memory type is compatible, or creates a memory of the lowest compatible type with id equal to its position, serves the request from it, and appends it |
| Alloc.GPUAlloc.AllocateNew | src/render/alloc.rs:44-60 | The new-memory path: panics without a compatible type; otherwise it appends a memory of the lowest compatible type that serves the request |
| Alloc.GPUAlloc.FindType | src/render/alloc.rs:44-51 | The `find` over memory types returns `FirstType` |
| Alloc.GPUAlloc.Free | src/render/alloc.rs:63-66 | An owner past the memory list panics. Otherwise only the owner's memory frees the allocation |
| Alloc.GPUAlloc.Destroy | src/render/alloc.rs:68-72 | Hands back the device memory of every region of every memory, memory by memory |
| QMap.LemmaCmpTotalOrder | src/render/qmap.rs:598-613 | `cmp` is antisymmetric, reflexive and transitive, and says `Equal` exactly for equal areas |
| QMap.LemmaWithAreaAppend | src/render/qmap.rs:598-613 | The entries of a given area in a concatenation are those of each part, in order |
| QMap.LemmaInsertPermutes | src/render/qmap.rs:80 | Inserting adds exactly the new entry |
| QMap.LemmaInsertBounded | src/render/qmap.rs:80 | Inserting keeps every area under a common bound |
| QMap.LemmaInsertSorted | src/render/qmap.rs:80 | Inserting into an area-sorted list keeps it sorted |
| QMap.LemmaInsertStable | src/render/qmap.rs:80 | An inserted entry goes behind every entry of its own area |
| QMap.LemmaSortByArea | src/render/qmap.rs:80 | The sort result is in ascending order of area, is a permutation of its input, and keeps the input order among equal areas (a stable sort) |
| QMap.Selected | src/render/qmap.rs:72-79 | No more entries than textures |
| QMap.LemmaSelectedSound | src/render/qmap.rs:72-79 | Every entry is a present texture with its own id and size, and ids strictly ascend |
| QMap.LemmaSelectedComplete | src/render/qmap.rs:72-79 | Every texture with id ≠ -1 has its entry; placeholders have none |
| QMap.LemmaInsertDistinct | src/render/qmap.rs:80 | Inserting an entry with a new id keeps ids distinct |
| QMap.LemmaSortDistinct | src/render/qmap.rs:80 | Sorting keeps ids distinct |
| QMap.MipSide | src/render/qmap.rs:67-70 | Mip buffer m is `1024 >> m` texels wide: that side times 2^m is 1024 |
| QMap.Cell | src/render/qmap.rs:91-94 | `x + y · stride` lies in the buffer |
| QMap.LemmaCellInjective | src/render/qmap.rs:91-94 | Distinct cells have distinct buffer positions |
| QMap.CopyPicture | src/render/qmap.rs:89-97 | After the pixel loops, pixel (x, y) of the picture is at `(ox + x) + (oy + y) · stride`, and every byte outside that area is unchanged |
| QMap.CopyPictureRow | src/render/qmap.rs:90-96 | One row of the pixel loops: row y lands at row oy + y, and nothing else changes |
| QMap.LemmaScaledDisjoint | src/render/qmap.rs:91-93 | Areas that share no atlas cell share no cell at any mip level after `>> mip` |
| QMap.LemmaScaledWithin | src/render/qmap.rs:91-93 | An area inside the atlas lands inside every mip level |
| QMap.LemmaShowsKept | src/render/qmap.rs:87-97 | A copy into a disjoint area leaves an earlier picture in place |
| QMap.Contents | src/render/qmap.rs:67-70 | The bytes of each mip buffer |
| QMap.LemmaShownAtKept | src/render/qmap.rs:82-99 | A copy into another texture's area leaves a placed texture intact at every mip level |
| QMap.LemmaPackedKept | src/render/qmap.rs:82-99 | Packing entry `i` into an area apart from the earlier placements keeps every earlier entry recorded and shown |
| QMap.CopyMips | src/render/qmap.rs:87-97 | Mip levels 0–2 of the texture land at its area shifted right by the level, and nothing outside those areas changes. Level 3 is never copied |
| QMap.PackTexture | src/render/qmap.rs:83-98 | One texture: the atlas is left exactly as its `find` leaves it, and the run of the earlier entries extends by this one (or the whole run fails when it does not fit). The placed area has the texture's size, `textures[id]` records it, and the texture shows there at every level. Everything else is unchanged |
| QMap.PackTextures | src/render/qmap.rs:82-99 | The texture loop succeeds iff the run of the entries' sizes in list order succeeds, and its placements are that run's. Every entry in order gets a placed area recorded at its id and shown in the buffers. Slots not in the list keep their value |
| QMap.ModelFaces | src/render/qmap.rs:104 | The model's face slice; each face's references fit the level |
| QMap.LightEntries | src/render/qmap.rs:104-148 | At most one entry per face |
| QMap.LemmaLightEntriesSound | src/render/qmap.rs:104-148 | Every entry is that of a lit face of the run: drawn, with a light map and a light type other than `0xFF` |
| QMap.LemmaLightEntriesComplete | src/render/qmap.rs:104-148 | Every lit face of the run has its entry |
| QMap.LemmaLightEntries | src/render/qmap.rs:104-148 | An entry is in the list iff it is some lit face's entry |
| QMap.LemmaModelsLightEntries | src/render/qmap.rs:103-149 | Over all models: an entry is in the list iff it is the entry of a lit face of some model |
| QMap.SizeModelLights | src/render/qmap.rs:104-148 | The inner sizing loop: it skips excluded and unlit faces and pushes one entry per lit face, in order |
| QMap.SizeLights | src/render/qmap.rs:101-149 | The sizing loop over every model gives `ModelsLightEntries` |
| QMap.Clamp | src/render/qmap.rs:162-163 | `max(min(v, n-1), 0)` is within the tile and is v itself inside it |
| QMap.LemmaTileSourceInRange | src/render/qmap.rs:162-165 | Every clamped source index `idx + x + y·w` lies in the light maps |
| QMap.CopyTile | src/render/qmap.rs:157-167 | For x in -1..=w and y in -1..=h, atlas byte `(rect.x+x) + (rect.y+y)·1024` holds the light-map texel at the clamped (x, y), so the border repeats the nearest edge texel. Nothing outside the bordered tile changes |
| QMap.CopyTileRow | src/render/qmap.rs:158-166 | One row of the tile copy, border included; nothing else changes |
| QMap.LemmaShowsTileKept | src/render/qmap.rs:155-169 | A copy outside a tile's border leaves that tile intact |
| QMap.LemmaTilesKept | src/render/qmap.rs:153-170 | Copying tile `i` into a placement apart from the earlier ones keeps every earlier tile shown |
| QMap.PackLight | src/render/qmap.rs:156-168 | The padded atlas is left exactly as its `find` leaves it, and the tile is the placement shrunk by the one-texel border. The run of the earlier entries extends by this one (or the whole run fails). The tile is copied there; nothing outside changes |
| QMap.PackLights | src/render/qmap.rs:153-170 | The light loop succeeds iff the run of the entries' sizes in list order succeeds, with that run's placements. The pairs are `LightPairs`: each entry's offset with the tile inside its placement, shown in the light-map buffer |
| QMap.LemmaToMap | src/render/qmap.rs:170 | The map's keys are exactly the pairs' keys, and each key maps to the value of its last pair |
| QMap.U16Of | src/render/qmap.rs:293 | `as u16` keeps values already in range |
| QMap.LemmaTriangles | src/render/qmap.rs:256-379 | A face emits three vertices per edge reference, and vertices 3k..3k+3 are reference k's triangle |
| QMap.LemmaFaceVertsWinding | src/render/qmap.rs:256-379 | For reference l ≥ 0 the triangle is (edge end 2, edge end 1, centre), and for l < 0 it is (end 1, end 2, centre), each offset by the model origin |
| QMap.LemmaFaceVertsFields | src/render/qmap.rs:193-218 | Every vertex of a face carries its texture's atlas corner, its light (0 when the base light is 255), its light type (`0xFF` for `+`/`*` names) and its light coordinates |
| QMap.LemmaTriangleFields | src/render/qmap.rs:287-378 | The three vertices of a triangle carry the face's fields |
| QMap.LemmaRunSkyLast | src/render/qmap.rs:186-188 | The sky texture is that of the last face drawn into the sky buffer |
| QMap.LemmaRunVertsCount | src/render/qmap.rs:178-381 | A buffer receives three vertices per edge reference of the faces routed to it |
| QMap.LemmaTrianglesStep | src/render/qmap.rs:256-379 | One more reference appends its triangle |
| QMap.PushTriangle | src/render/qmap.rs:287-378 | The three pushes of one edge reference append its triangle |
| QMap.EmitFace | src/render/qmap.rs:193-379 | One face's pushes are exactly `FaceVerts` |
| QMap.LemmaRunStep | src/render/qmap.rs:179-191 | One more face appends its vertices to the buffer it is routed to, and sets the sky texture if it is a sky face |
| QMap.EmitModel | src/render/qmap.rs:179-380 | One model: each buffer gets its faces' vertices in order, and the sky texture follows the last sky face |
| QMap.EmitGeometry | src/render/qmap.rs:172-381 | The emission loop over all models: main and sky buffers and the sky texture are `ModelsVerts` and `ModelsSky` |
| QMap.LemmaRunSkyNone | src/render/qmap.rs:186-188 | After a run the sky texture is unset iff it was unset before and no face of the run is a sky face |
| QMap.LemmaModelsSkyNoneOnly | src/render/qmap.rs:174-188 | An unset sky texture after n models means none of them has a sky face |
| QMap.LemmaModelsSkyNoneIf | src/render/qmap.rs:174-188 | No sky face in the first n models leaves the sky texture unset |
| QMap.LemmaModelsSkyNone | src/render/qmap.rs:174-188 | The sky texture stays unset, and no sky box is built, exactly when no model has a sky face |
| QMap.GenSkyBox | src/render/qmap.rs:480-595 | The twelve pushes give `SkyBox` of the texture's area |
| QMap.LemmaSkyLayerLayout | src/render/qmap.rs:487-591 | A layer is six vertices, two triangles over its four corners: (min,min), (min,max), (max,min), (min,max), (max,max), (max,min) |
| QMap.LemmaSkyLayerFields | src/render/qmap.rs:485-505 | Every vertex of layer z has atlas x `rect.x + (width/2)·z` (as u16, wrapping), atlas y `rect.y`, size `(width/2, height)`, light info (0, 0), light 0 and light type z |
| QMap.LemmaSkyBox | src/render/qmap.rs:487-594 | The sky box is twelve vertices: layer 0, then layer 1 |
| QMap.LemmaOrderCoversTextures | src/render/qmap.rs:72-85 | A texture slot is in the packing order iff its texture is present |
| QMap.NewRects | src/render/qmap.rs:66 | `textures` starts with one default rectangle per texture |
| QMap.NewLevels | src/render/qmap.rs:67-70 | Three zeroed buffers of `(1024 >> m)^2` bytes |
| QMap.LemmaTextureOrder | src/render/qmap.rs:72-80 | The sorted list holds each present texture's entry once |
| QMap.BakeTextures | src/render/qmap.rs:56-99 | Succeeds iff `TextureRun` (the present textures, sorted by area, packed in turn into an empty 1024 square) succeeds, and then the `j`-th texture in that order has the run's `j`-th placement. Every present texture shows at its recorded area with its own size at mip levels 0–2, placeholders keep the default area, and the areas of distinct present textures are disjoint |
| QMap.PackIntoNewAtlas | src/render/qmap.rs:56-99 | The texture loop on a fresh atlas, default rectangles and zeroed buffers succeeds iff the run from the empty atlas does, and places every entry as that run does, with pairwise disjoint placements |
| QMap.LemmaTexturesPlaced | src/render/qmap.rs:82-99 | What the loop leaves, read per texture slot: placed and shown, or the default, with disjoint areas |
| QMap.LemmaEntryOffsets | src/render/qmap.rs:101-149 | An offset has an entry iff some drawn, lit face of a model uses it |
| QMap.LemmaLightKeys | src/render/qmap.rs:153-170 | The lookup map's keys are exactly the light-map offsets of lit faces |
| QMap.LemmaLightValues | src/render/qmap.rs:153-170 | Each key's tile shows a light map stored at that offset |
| QMap.LemmaPairOf | src/render/qmap.rs:170 | Each key's value comes from one of the pairs |
| QMap.LemmaTwoTilesApart | src/render/qmap.rs:153-170 | The bordered tiles of two distinct keys share no cell |
| QMap.LemmaLightsApart | src/render/qmap.rs:153-170 | The bordered tiles of all distinct keys share no cell |
| QMap.LemmaLightOrder | src/render/qmap.rs:153 | The sorted light list is a permutation of the sizing list, and every entry names light-map bytes that are present |
| QMap.BakeLights | src/render/qmap.rs:151-170 | Succeeds iff `LightRun` (the lit faces' tiles, sorted by area, packed in turn into an empty atlas padded by one) succeeds, and then the map is exactly `ToMap` of that run's `(offset, tile)` pairs in packing order. The light map has `1024 · 1024` bytes and keys for exactly the lit faces' offsets. Each key's bordered tile shows its light map, and tiles of distinct keys are apart |
| QMap.LemmaLastEntryWins | src/render/qmap.rs:153-170 | An offset shared by several lit faces maps to the tile of the last of them in packing order |
| QMap.LemmaTilesCover | src/render/qmap.rs:225-246 | Every drawn face that looks its tile up finds it: `lights[&face.light_map]` never misses |
| QMap.LemmaRunSkyIndex | src/render/qmap.rs:186-188 | A sky texture set by a run names a texture slot |
| QMap.LemmaModelsSkyIndex | src/render/qmap.rs:386-388 | The sky texture after all models, when set, names a texture slot, so `gen_sky_box` indexes in range |
| QMap.Bake | src/render/qmap.rs:56-388 | Succeeds iff both atlas runs succeed; the texture areas and the light lookup are exactly those runs' results. The texture atlas and mip data, the light-map atlas and lookup, and the main and sky vertex buffers are as specified above. The sky box is empty without a sky texture and the box over the last sky texture's area otherwise. A failed atlas `find` panics |
| Render.LemmaRgbaLayout | src/render/mod.rs:143-149 | One 4-byte entry per triple: byte 4i+k is palette byte 3i+k for k < 3, and byte 4i+3 is 255 |
| Render.LemmaRgbOfRgba | src/render/mod.rs:143-149 | Dropping every fourth byte of the expansion gives the palette back |
| Render.ExpandPalette | src/render/mod.rs:143-149 | The loop over `chunks(3)` panics iff the length is not a multiple of 3 (the short last chunk is indexed out of range). Otherwise it returns the RGBA expansion |

## Left out

- Floating point: projections, centroids, light-map extents, the `/16` floor and ceil, and
  the sky bounding box are symbolic terms or the `extent` parameter. The model does not
  compute positions, texture coordinates or light-map sizes.
- QMap.Bake: the sky box positions depend on the sky bounding box (`sky_min`/`sky_max`)
  and the ±2000 inflation. Both are floating point, so the box is stated only as corner
  flags and layer.
- QMap.Bake: preconditions `LevelFits` and `LightsFit` require well-formed level data: face,
  texture-info, texture and edge indices in range and light maps present. On malformed data
  the source panics at an out-of-range index, and the model does not cover that path.
- QMap.Area: `width * height` wraps as a u32 product, as in a release build. An
  overflow panic in a debug build is not modelled.
- QMap.LemmaSkyLayerFields: `tex.x as u16 + width * z` wraps as in a release build. A debug
  build would panic on overflow.
- Bsp.ReadFace, Bsp.ReadModelFaces, Bsp.PictureOf, Bsp.EntryTarget, Bsp.ReadEntryTarget: the
  `as usize`/`as u64` sums (the ledge and face ranges at src/bsp/mod.rs:147 and 177-178, the
  directory target at 314, the picture position at 340) and the `w * h` byte count at 343 wrap
  as in a release build (`WrapU64`, `MulU32`). A debug build panics on the overflow instead,
  e.g. a face whose first ledge is `-1` with a count of 2; that panic is not modelled.
- Atlas.TextureAtlas.Find: the i32 arithmetic is unbounded. Overflow of
  `(fw - w) * (fh - h)` on rectangles near 2^31 is not modelled.
- Alloc.LemmaSearchFound: it does not state that a returned range never ends exactly at the
  region end. That holds only when the second tag check causes no skip: after that skip the
  chunk just past the end is not checked again.
- Alloc: `BitSet` is a `bool` array and the `'static` memory pointer is a (memory id, region
  index) handle. Device memory allocation and `free_memory` are not modelled; a region's
  device memory is named by that handle.
- Alloc.GPUAlloc.Allocate: `device.allocate_memory(..).unwrap()` is taken to succeed.
- GPU resource creation, samplers, pipelines and drawing (`QMap::draw`, `Renderer::draw`,
  `Renderer::change_level`, the rest of `Renderer::new`) are device calls.
  `src/render/util.rs` is not part of this model.
- The `time_offset` accumulation is floating-point animation state.
- `src/main.rs` (window, events, camera) and `src/error.rs` (error declarations) are
  I/O and declarations only.
- The `RefCell` around the pack file is plain state here; nothing is concurrent.
- UTF-8 validity is a predicate written from the byte patterns of the Unicode standard. The
  `String` that `from_cstring` returns is kept as its bytes.

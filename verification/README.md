# BSPViewer core, modelled in Dafny

This project models the file-loading and resource core of BSPViewer, a viewer for
Half-Life BSP maps. It covers these parts:

- **The raw BSP reader (`LoadBSPFile`, `SwapBSPFile`, `FastChecksum`).** A BSP file is
  a header directory of fifteen lumps. The reader copies each lump into a fixed-capacity
  table, swaps byte order and checksums the tables.
- **The render loader (`LoadBrushModel` and its `Mod_Load*` steps).** It decodes each
  lump into the in-memory brush model:
  - vertices, edges and surface edges;
  - planes, texture infos and surfaces;
  - mark surfaces, visibility and leaves;
  - nodes with their parent links;
  - clip nodes, entities and sub-models;
  - hull 0 and the sub-model set-up.

  It also includes the model registry `Mod_FindName`.
- **Texture archives (wad files).** This part covers:
  - `LoadWadFile`, `CleanupWadLumpName` and `Wad_FindTexture`;
  - the `CWadFile` wrapper;
  - the `CWadManager` list of archives, with its look-up by archive and by texture name.
- **Textures.** This part covers:
  - the palette conversion and the power-of-two resampling of `UploadMiptex`;
  - `CTextureManager`: loading a texture into its slot table with a case-insensitive map;
  - linking animated texture frames (`+0name` … `+9name`, alternates `+Aname` … `+Jname`)
    into cycles.
- **Entities.** This part covers:
  - the `COM_Parse` tokenizer;
  - `ED_LoadFromFile` / `ED_ParseEdict` / `ED_FindClassName`;
  - `CBaseEntity::KeyValue`;
  - the slot list `CEntityList`.
- **`StringHash` / `StringHashI`**, the sampled FNV-1 hashes (multiply, then XOR).

## How the source is represented

- **Outcomes.** Every operation that can fail returns an `Outcome`:
  - `Done(value)` is success.
  - `Rejected` is what the source reports as failure (it returns `false` or null).
  - `Crashed` is undefined behaviour in the source: a read outside a buffer, a null
    dereference, a failed allocation from a negative length, or unbounded recursion.
- **Pointers** are indices. A node child is `NodeChild(i)` or `LeafChild(i)`. A wad lump
  is its index in the directory, and a texture is its byte offset in the archive.
- **Bytes** are decoded explicitly:
  - fields are little-endian;
  - C `short` and `char` values are read as signed;
  - `size_t` conversions of negative values are written out;
  - 32-bit wrap-around is modelled where the source relies on it (the checksum rotation,
    the pixel-size product).
- **The header is swapped in place.** Both loaders first apply `LittleValue` to each of
  the header's 31 ints in the file's own buffer, then read every lump from that buffer
  (`InPlaceHeader`). The lump directory is what the host reads after the swap, which is
  the file's little-endian values. On a big-endian host a lump that overlaps the header
  therefore holds the swapped header bytes.
- **Things outside the program become parameters:**
  - the host byte order;
  - file contents (the file system is a function from a path to bytes);
  - the name `glGenTextures` hands out;
  - the set of shaders the shader manager knows;
  - `strtod`/`strtol` results;
  - the decoding of IEEE floats and `glm::length`;
  - the value an uninitialised field holds.

## Model

| member | source | states |
|---|---|---|
| Bytes.LittleValue | src/bsp/BSPIO.cpp:99-102 | `LittleValue` leaves a field alone on a little-endian host and reverses its bytes on a big-endian one |
| Bytes.LittleValueInvolutive | src/bsp/BSPIO.cpp:163-313 | swapping a field twice restores it, on either host |
| Bytes.LittleValueReadsLittleEndian | src/bsp/BSPIO.cpp:99-102 | after `LittleValue`, every host reads the field's little-endian value |
| Bytes.Int16 | src/bsp/BSPRenderIO.cpp:536 | a C `short` field lies in [-32768, 32768) |
| Bytes.LeValueOfLeBytes | src/bsp/BSPFile.h:22-33 | encoding a value in `width` little-endian bytes and decoding it gives the value back |
| CStrings.CStr | src/wad/WadIO.cpp:68-85 | the C string of a buffer is its NUL-free prefix, followed by a NUL when shorter than the buffer |
| CStrings.ToUpper | src/wad/WadIO.cpp:80 | `toupper` maps exactly the ASCII lower-case letters down by 32 and fixes everything else |
| CStrings.ToLower | src/common/StringUtils.h:32-45 | `tolower` maps exactly the ASCII upper-case letters up by 32 and fixes everything else |
| CStrings.EqualIgnoreCaseIffLowerEqual | src/wad/CWadManager.cpp:28-43 | `strcasecmp` equality holds exactly when the lower-cased strings are equal |
| CStrings.BoundedCopy | src/wad/CWadFile.h:25-31 | `strncpy` into a `size` buffer, then a terminating NUL: the C string is the source's, cut to `size - 1` characters |
| CStrings.SignedChar | src/utility/Tokenization.cpp:79-91 | a character reads as itself below 128 and as a negative `char` from 128 to 255 |
| BSPFile.LumpIndexBijective | src/bsp/BSPFile.h:75-86 | the fifteen lump kinds and the header directory slots correspond one to one |
| BSPFile.LayoutAddsUpToRecordSize | src/bsp/BSPFile.h:38-344 | the field widths of every on-disk record add up to its `sizeof` |
| BSPFile.HostIntIsLittleEndian | src/bsp/BSPIO.cpp:99-102 | reading a header int after the swap gives its little-endian value on any host |
| BSPFile.ReadHeader | src/bsp/BSPFile.h:75-86 | the header is the version at byte 0, then for each slot `i` the offset and length at bytes 4+8i and 8+8i |
| BSPFile.LumpBytes | src/bsp/BSPFile.h:22-33 | a lump's bytes are the `filelen` bytes from `fileofs` in the file |
| BSPFile.Records | src/bsp/BSPRenderIO.cpp:16-48 | splitting into whole records keeps every full record and drops less than one record |
| BSPFile.RecordsAt | src/bsp/BSPRenderIO.cpp:16-48 | record `i` of the split is bytes `i*size` to `i*size+size` of the data |
| BSPFile.ConcatRecords | src/bsp/BSPRenderIO.cpp:16-48 | concatenating the records gives back a lump that is a whole number of records |
| BSPFile.ChildCodingRoundTrips | src/bsp/BSPFile.h:180-184 | a child number is a node for non-negative values and leaf `-(n+1)` otherwise; the encoding is a bijection |
| BSPFile.VisOffset | src/bsp/BSPFile.h:316-322 | a visibility offset of -1 means no visibility information, and any other value is kept |
| BSPIO.Cleared | src/bsp/BSPIO.cpp:67-68 | after the `memset`, every table has count 0, checksum 0 and no data |
| BSPIO.AsSize | src/bsp/BSPIO.cpp:19-43 | a non-negative `int` keeps its value as `size_t`, and a negative one becomes huge |
| BSPIO.CapacityBound | src/bsp/BSPFile.h:363-387 | every table's capacity in bytes is at most the largest one (`MAX_MAP_MIPTEX`) |
| BSPIO.LengthAcceptedIff | src/bsp/BSPIO.cpp:19-43 | `CopyLump` accepts a length exactly when it is non-negative, a whole number of records and within the table's capacity |
| BSPIO.Overwrite | src/bsp/BSPIO.cpp:40 | `memcpy` replaces the first bytes of the destination and keeps the rest |
| BSPIO.CopyLump | src/bsp/BSPIO.cpp:19-43 | it rejects exactly the bad lengths, crashes exactly on an accepted lump outside the file, and otherwise copies the lump's bytes, leaving count and checksum alone |
| BSPIO.SwapFields | src/bsp/BSPIO.cpp:163-313 | swapping a record's fields keeps its length, changes nothing on a little-endian host and leaves the bytes past the layout unchanged |
| BSPIO.SwapFieldsAt | src/bsp/BSPIO.cpp:198-206 | each field of a swapped record is `LittleValue` of the same bytes of the original |
| BSPIO.SwapRecords | src/bsp/BSPIO.cpp:163-313 | swapping the first `n` records keeps the length, changes nothing on a little-endian host and leaves the bytes after the `n` records unchanged |
| BSPIO.SwapRecordsAt | src/bsp/BSPIO.cpp:189-196 | record `k` of the first `n` is its fields swapped as `SwapFields` swaps the original record |
| BSPIO.MapRecordsFrom | src/bsp/BSPIO.cpp:189-196 | record `k` of a per-record map is the function applied to the original record |
| BSPIO.SwapFieldsInvolutive | src/bsp/BSPIO.cpp:163-313 | swapping a record twice restores it |
| BSPIO.SwapRecordsInvolutive | src/bsp/BSPIO.cpp:163-313 | swapping a table twice restores it |
| BSPIO.Pad | src/bsp/BSPFile.h:363-371 | a table in memory holds the data followed by zeros |
| BSPIO.SwapMiptex | src/bsp/BSPIO.cpp:281-294 | the texture lump is untouched when its count is 0; going to the host, `nummiptex` reads as its little-endian value |
| BSPIO.SwapTable | src/bsp/BSPIO.cpp:163-313 | swapping never changes a table's count or checksum |
| BSPIO.SwapTableRecords | src/bsp/BSPIO.cpp:163-313 | outside the texture lump, each of a table's first `count` records is swapped field by field and the bytes after them are kept |
| BSPIO.SwapBSPFile | src/bsp/BSPIO.cpp:163-313 | `SwapBSPFile` swaps every table and only the tables |
| BSPIO.SwapMiptexRoundTrip | src/bsp/BSPIO.cpp:281-294 | swapping the texture lump one way and back restores it, given the order-dependent read of `nummiptex` |
| BSPIO.SwapTableRoundTrip | src/bsp/BSPIO.cpp:163-313 | swapping any table one way and back restores it |
| BSPIO.SwapBSPFileRoundTrip | src/bsp/BSPIO.cpp:163-313 | swapping a whole file to host order and back to disk order, or the reverse, gives back the file |
| BSPIO.SwapIsIdentityOnLittleEndian | src/bsp/BSPIO.cpp:163-313 | on a little-endian host the swap changes nothing |
| BSPIO.Rotl4 | src/bsp/BSPIO.cpp:45-55 | `_rotl(x, 4)` stays a 32-bit value |
| BSPIO.CharBits | src/bsp/BSPIO.cpp:49-52 | a byte folded in as a signed `char` is a 32-bit pattern whose signed value is the `char`'s value |
| BSPIO.FastChecksum | src/bsp/BSPIO.cpp:45-55 | the loop's result is the reference fold of rotate-by-4-and-xor over the bytes, read as a signed 32-bit `int`, and 0 for no bytes |
| BSPIO.Checksummed | src/bsp/BSPIO.cpp:138-151 | every table but the mark surfaces gets the checksum of its records; data and counts are kept |
| BSPIO.InPlaceHeader | src/bsp/BSPIO.cpp:99-102 | swapping the header's ints in place keeps the buffer's length and every byte past the header, and changes nothing on a little-endian host |
| BSPIO.InPlaceHeaderAt | src/bsp/BSPIO.cpp:99-102 | each header int in the buffer is `LittleValue` of the file's int, and the host reads it as the file's little-endian value |
| BSPIO.LumpPastHeader | src/bsp/BSPIO.cpp:99-102 | a lump past the header, or any lump on a little-endian host, has the same bytes in the buffer as in the file |
| BSPIO.HeaderOverlapSwapped | src/bsp/BSPIO.cpp:99-102 | on a big-endian host, an entity lump over the version field holds the version's bytes reversed |
| BSPIO.Copied | src/bsp/BSPIO.cpp:112-133 | a copied table holds the lump's bytes from the buffer with the header swapped in place (the file's bytes past the header or on a little-endian host), checksum 0, and as count either 0 or `filelen / sizeof` |
| BSPIO.Finished | src/bsp/BSPIO.cpp:136-151 | every table of the loaded file is the copied table, swapped to host order and checksummed |
| BSPIO.LoadBSPFileWith | src/bsp/BSPIO.cpp:63-154 | a file shorter than the header is read out of bounds; a wrong version is rejected; a loaded file has every lump copied, swapped and checksummed |
| BSPIO.CopyFromFileDone | src/bsp/BSPIO.cpp:112-133 | copying one lump succeeds exactly when its length is accepted and it lies in the file |
| BSPIO.LoadBSPFileOutcome | src/bsp/BSPIO.cpp:63-154 | a file loads exactly when its version is right and every lump has an accepted length and lies in the file |
| BSPIO.LoadBSPFileAsWrittenLeavesCountsZero | src/bsp/BSPIO.cpp:112-151 | as written, every loaded table has count 0 and checksum 0 and holds the lump's bytes from the buffer with the header swapped in place |
| BSPIO.EmptyTableUnchanged | src/bsp/BSPIO.cpp:163-313 | a table with no records is neither swapped nor checksummed |
| BSPIO.LoadBSPFileRecordsLumps | src/bsp/BSPIO.cpp:112-136 | with counts recorded, each table holds `filelen / sizeof` records, and swapping back gives the lump's bytes in the buffer, which are the file's bytes for a lump past the header or on a little-endian host |
| BSPIO.LoadBSPFileChecksums | src/bsp/BSPIO.cpp:138-151 | with counts recorded, each table but the mark surfaces carries `FastChecksum` of its records in host order |
| BSPRenderDefs.SurfFlagsAreDistinctBits | src/bsp/BSPRenderDefs.h:125-131 | the seven surface flags are single bits and pairwise distinct |
| BSPRenderDefs.SettingFlagsKeepsOthers | src/bsp/BSPRenderIO.cpp:642 | or-ing in a flag never clears another bit |
| BSPRenderIO.ShortAt | src/bsp/BSPRenderIO.cpp:479 | a `short` field lies in [-32768, 32768) |
| BSPRenderIO.UShortAt | src/bsp/BSPRenderIO.cpp:70-71 | an `unsigned short` field lies in [0, 65536) |
| BSPRenderIO.LumpRecords | src/bsp/BSPRenderIO.cpp:16-48 | the prologue of the loaders that read every record (all but texture infos and mark surfaces): rejects exactly a length that is not a multiple of the record size as `size_t`, crashes exactly on an unreadable lump, and otherwise yields the file's records |
| BSPRenderIO.SplitLump | src/bsp/BSPRenderIO.cpp:16-48 | a lump that is a whole number of records splits into the records read straight from the file |
| BSPRenderIO.LumpCopy | src/bsp/BSPRenderIO.cpp:294-312 | a lump copied whole gives no data exactly when it is empty, and otherwise its bytes; it crashes exactly when unreadable |
| BSPRenderIO.LoadVertexes | src/bsp/BSPRenderIO.cpp:16-48 | one vertex per 12-byte record, each decoded from its record, with the funny-size and out-of-file cases |
| BSPRenderIO.DecodeEdge | src/bsp/BSPRenderIO.cpp:72-76 | edge vertex numbers are stored as `unsigned short` |
| BSPRenderIO.LoadEdges | src/bsp/BSPRenderIO.cpp:50-80 | one edge per 4-byte record, each decoded from its record, with the funny-size and out-of-file cases |
| BSPRenderIO.LoadSurfedges | src/bsp/BSPRenderIO.cpp:82-110 | one signed edge number per 4-byte record, with the funny-size and out-of-file cases |
| BSPRenderIO.LoadTextures | src/bsp/BSPRenderIO.cpp:112-130 | an empty texture lump clears the list; any other returns before reading it and leaves the list |
| BSPRenderIO.LoadLighting | src/bsp/BSPRenderIO.cpp:294-312 | the lighting is the lump's bytes, or none for an empty lump |
| BSPRenderIO.SignBits | src/bsp/BSPRenderIO.cpp:338-344 | bit `j` of `signbits` is set exactly when normal component `j` is negative |
| BSPRenderIO.DecodePlane | src/bsp/BSPRenderIO.cpp:336-349 | a plane has three normal components, sign bits matching their signs, and its type cut to a byte |
| BSPRenderIO.LoadPlanes | src/bsp/BSPRenderIO.cpp:314-353 | one plane per 20-byte record, in storage for twice as many, with the funny-size and out-of-file cases |
| BSPRenderIO.MipAdjust | src/bsp/BSPRenderIO.cpp:388-399 | `mipadjust` is between 1 and 4; it is 4 exactly below 0.32 and 1 exactly from 0.99 on |
| BSPRenderIO.TexinfoTexture | src/bsp/BSPRenderIO.cpp:407-429 | with no texture list the placeholder is used; an index at or past the count is rejected and a negative one crashes |
| BSPRenderIO.DecodeTexinfo | src/bsp/BSPRenderIO.cpp:384-430 | a texture info fails exactly as its texture look-up does; its flags are cleared with the placeholder texture |
| BSPRenderIO.BadTexinfoBeforeFileEnd | src/bsp/BSPRenderIO.cpp:384-421 | a texture index past the list is rejected before a later record that runs past the file is read |
| BSPRenderIO.TexinfosFrom | src/bsp/BSPRenderIO.cpp:384-430 | the loop from record `i` on succeeds exactly when every record lies in the file and names an accepted texture; it is rejected exactly when the first record that does not lies in the file with an index at or past the texture count, and crashes exactly when that record runs past the file or has a negative index; each info is its record decoded |
| BSPRenderIO.LoadTexinfo | src/bsp/BSPRenderIO.cpp:362-433 | a length that is not a multiple of 40 as `size_t` is rejected and a negative one crashes; otherwise the load succeeds, is rejected or crashes exactly as the first bad record decides, record by record; one texture info per 40-byte record; with no texture list, every info has the placeholder and no flags |
| BSPRenderIO.FaceFlags | src/bsp/BSPRenderIO.cpp:478-513 | back side gives PLANEBACK; `sky` gives SKY and TILED; `*` gives TURB and TILED; no other flag is set |
| BSPRenderIO.TurbulentBoundsSpan | src/bsp/BSPRenderIO.cpp:513-517 | a turbulent surface's texture spans -8192 to 8192 on both axes |
| BSPRenderIO.DecodeFace | src/bsp/BSPRenderIO.cpp:472-522 | a surface has its texture info, flags from its side and texture name, lighting offset (none for -1), and turbulent bounds exactly when it is turbulent |
| BSPRenderIO.LoadFaces | src/bsp/BSPRenderIO.cpp:450-525 | it succeeds exactly when every face's texture info exists and has a texture, and then decodes every face |
| BSPRenderIO.MarkEntry | src/bsp/BSPRenderIO.cpp:536-562 | a mark entry read as `unsigned short` lies in [0, 65536) |
| BSPRenderIO.MarksFrom | src/bsp/BSPRenderIO.cpp:552-563 | the loop from entry `i` on succeeds exactly when every entry lies in the file and is below the surface count; it is rejected exactly when the first entry that is not lies in the file, and crashes exactly when that entry runs past the file; each loaded entry is its record read |
| BSPRenderIO.LoadMarksurfaces | src/bsp/BSPRenderIO.cpp:532-566 | an odd length as `size_t` is rejected and a negative one crashes; otherwise the load succeeds, is rejected or crashes exactly as the first bad entry decides, entry by entry; every loaded entry is below the surface count |
| BSPRenderIO.BadMarkBeforeFileEnd | src/bsp/BSPRenderIO.cpp:552-559 | a lump that runs past the file is rejected, not faulted, when an entry inside the file already names no surface |
| BSPRenderIO.LoadVisibility | src/bsp/BSPRenderIO.cpp:573-586 | as written an empty lump is rejected; otherwise, and when corrected, the visibility is the lump copied whole |
| BSPRenderIO.DecodeLeaf | src/bsp/BSPRenderIO.cpp:613-636 | a leaf has its contents, its visibility offset (none for -1), its mark range as `unsigned short`, and its ambient levels |
| BSPRenderIO.DecodeLeafs | src/bsp/BSPRenderIO.cpp:593-636 | one leaf per 28-byte record, with the funny-size and out-of-file cases |
| BSPRenderIO.LoadLeafs | src/bsp/BSPRenderIO.cpp:593-647 | it succeeds exactly when each non-empty leaf's mark entries name surfaces, and then marks exactly those surfaces underwater |
| BSPRenderIO.DecodeNode | src/bsp/BSPRenderIO.cpp:688-710 | a node has its plane and its two children decoded by sign; contents are 0 when corrected and the uninitialised value as written |
| BSPRenderIO.LoadNodes | src/bsp/BSPRenderIO.cpp:668-715 | there is one node per 24-byte record, and at least one; the parent links are those of the walk from node 0 |
| BSPRenderIO.DecodeClipNode | src/bsp/BSPRenderIO.cpp:766-771 | a clip node has two children |
| BSPRenderIO.LoadClipnodes | src/bsp/BSPRenderIO.cpp:722-773 | one clip node per 8-byte record, with the funny-size and out-of-file cases |
| BSPRenderIO.ClipHull | src/bsp/BSPRenderIO.cpp:740-764 | hulls 1 and 2 span every clip node, with their own fixed boxes |
| BSPRenderIO.LoadEntities | src/bsp/BSPRenderIO.cpp:781-793 | the entity text is the lump's bytes, or none for an empty lump |
| BSPRenderIO.DecodeSubmodel | src/bsp/BSPRenderIO.cpp:819-832 | a sub-model's bounds are spread by one unit on every side |
| BSPRenderIO.LoadSubmodels | src/bsp/BSPRenderIO.cpp:801-834 | one sub-model per 64-byte record, each with a head node per hull, with the funny-size and out-of-file cases |
| BSPRenderTree.Flag | src/bsp/BSPRenderIO.cpp:642 | or-ing in SURF_UNDERWATER sets that bit and leaves every other field and bit |
| BSPRenderTree.FlagTwice | src/bsp/BSPRenderIO.cpp:639-643 | flagging a surface twice is flagging it once with the union of the conditions |
| BSPRenderTree.Underwater | src/bsp/BSPRenderIO.cpp:639-643 | exactly the marked surfaces get the underwater bit |
| BSPRenderTree.UnderwaterUnion | src/bsp/BSPRenderIO.cpp:616-644 | marking one set and then another marks their union |
| BSPRenderTree.FlagRangeDone | src/bsp/BSPRenderIO.cpp:639-643 | flagging a leaf's mark entries one by one completes exactly when they all name surfaces |
| BSPRenderTree.FlagRangeMarks | src/bsp/BSPRenderIO.cpp:639-643 | flagging a leaf's mark entries one by one flags exactly the surfaces they name |
| BSPRenderTree.SpreadUnderwaterMarks | src/bsp/BSPRenderIO.cpp:616-644 | the leaf pass completes exactly when every non-empty leaf's entries are in range, and then flags exactly the surfaces some non-empty leaf marks |
| BSPRenderTree.Descend | src/bsp/BSPRenderIO.cpp:654-661 | `Mod_SetParent` links the child it is given and keeps the links made before |
| BSPRenderTree.SetParent | src/bsp/BSPRenderIO.cpp:712 | the walk from node 0 crashes with no nodes and always links node 0 |
| BSPRenderTree.DescendInvariants | src/bsp/BSPRenderIO.cpp:654-661 | each step keeps links naming a parent that holds the child, a null parent only at the root, and every linked node's children linked |
| BSPRenderTree.SetParentLinks | src/bsp/BSPRenderIO.cpp:654-661 | after the walk, every link names a node that has the linked node or leaf as a child, only node 0 has a null parent, and every linked node with non-negative contents has both children linked |
| BSPRenderTree.SetParentOnTree | src/bsp/BSPRenderIO.cpp:654-661 | on a tree, node 0 has a null parent and each node reached is the parent of both its children |
| BSPRenderTree.SetParentCompletes | src/bsp/BSPRenderIO.cpp:654-661 | on a non-empty ranked tree whose leaves have negative contents, the walk never crashes |
| BSPRenderTree.Hull0Child | src/bsp/BSPRenderIO.cpp:862-869 | a hull-0 child is the contents of a leaf, or the index of a node; it fails exactly for a child out of range or a leaf with non-negative contents |
| BSPRenderTree.MakeHull0 | src/bsp/BSPRenderIO.cpp:844-867 | hull 0 has one clip node per node, with the node's plane and converted children; its box is kept |
| BSPRenderTree.Hull0FollowsTree | src/bsp/BSPRenderIO.cpp:844-867 | with zero node contents, a clip child is non-negative exactly for a node child and is then its index; otherwise it is the leaf's contents |
| BrushLoader.ApplySubmodel | src/bsp/BSPRenderIO.cpp:1011-1028 | one pass of the loop sets the hull heads, hulls 1-3 ending at the last clip node, and the surface range, bounds and leaf count; nothing else changes |
| BrushLoader.SetUpSubmodels | src/bsp/BSPRenderIO.cpp:1009-1040 | with no sub-models nothing changes; the tree and visibility are never touched |
| BrushLoader.LoadSurfaces | src/bsp/BSPRenderIO.cpp:954-976 | the surface loaders leave a consistent surface set and do not touch the hulls |
| BrushLoader.UnderwaterKeepsTexinfo | src/bsp/BSPRenderIO.cpp:639-643 | the underwater flag leaves every surface's texture info |
| BrushLoader.LoadTree | src/bsp/BSPRenderIO.cpp:978-988 | the tree loaders leave a consistent tree; visibility is none exactly for an empty lump (and an empty lump fails as written); node contents are the fill value or 0 |
| BrushLoader.LoadHulls | src/bsp/BSPRenderIO.cpp:990-1001 | the clip nodes, entities, sub-models and hull 0 loaders keep surfaces and tree, leave hull 3, and set two frames |
| BrushLoader.LoadBrushModelWith | src/bsp/BSPRenderIO.cpp:933-1043 | a short file crashes, a wrong version is rejected, and a loaded model is well formed, with the visibility, contents and mark-entry properties of the variant |
| BrushLoader.LoadBrushModelAsWritten | src/bsp/BSPRenderIO.cpp:933-1043 | as written, a loaded model has a non-empty visibility lump and the fill value in every node's contents |
| BrushLoader.LoadBrushModel | src/bsp/BSPRenderIO.cpp:933-1043 | corrected, a loaded model is well formed, every node's contents are 0 and every mark entry is non-negative |
| BrushFindings.EmptyVisibilityRejected | src/bsp/BSPRenderIO.cpp:573-586 | an empty visibility lump fails the load as written, while the lighting and entity loaders accept one; corrected it gives no data |
| BrushFindings.NegativeMarkSurface | src/bsp/BSPRenderIO.cpp:552-562 | with 40000 surfaces, entry 35000 reads as -30536 and passes the check; a leaf listing it would flag memory before the surfaces |
| BrushFindings.CorrectedMarksAreSurfaces | src/bsp/BSPRenderIO.cpp:552-562 | read unsigned, every loaded mark entry is a surface number |
| BrushFindings.FillStopsParentWalk | src/bsp/BSPRenderIO.cpp:680-712 | with a negative uninitialised contents value, the parent walk stops at node 0 and links nothing else |
| BrushFindings.FillReplacesNodeChildren | src/bsp/BSPRenderIO.cpp:860-866 | with a negative uninitialised contents value, hull 0 turns every node child into that value |
| BrushFindings.LoadedHull0FollowsTree | src/bsp/BSPRenderIO.cpp:844-867 | the corrected loader's hull 0 mirrors the node tree |
| BrushFindings.LoadedParents | src/bsp/BSPRenderIO.cpp:654-661 | the corrected loader, on a tree, links node 0 to null and each reached node to both its children |
| ModelRegistry.FindName | src/bsp/BSPRenderIO.cpp:901-930 | the empty name gets nothing; a known name gets its first slot and changes nothing; a new name takes the next slot unless all `MAX_MOD_KNOWN` are used |
| ModelRegistry.FindNameKeepsDistinct | src/bsp/BSPRenderIO.cpp:915-928 | registered names stay distinct |
| ModelRegistry.FindNameIdempotent | src/bsp/BSPRenderIO.cpp:915-928 | looking a name up again finds the same slot and changes nothing |
| ModelRegistry.FindNameSlotHoldsName | src/bsp/BSPRenderIO.cpp:915-928 | a returned slot holds the requested name |
| WadIO.MiptexPixelSize | src/wad/WadFile.h:115-118 | the pixel size is `width*height*85/64` when the product fits 32 bits, and always below 2^32/64 |
| WadIO.MipLevelsSum | src/wad/WadFile.h:115-118 | for sizes that are multiples of 64, the pixel size is the sum of the four mip levels |
| WadIO.NameLength | src/wad/WadIO.cpp:68-85 | the copy stops at the first NUL or after 16 characters |
| WadIO.CleanupWadLumpName | src/wad/WadIO.cpp:68-85 | the cleaned name is the name upper-cased up to its NUL or 16 characters, padded with NULs |
| WadIO.CleanupIdempotent | src/wad/WadIO.cpp:68-85 | cleaning a cleaned name changes nothing |
| WadIO.MagicMatches | src/wad/WadIO.cpp:43-48 | `strncmp` of the magic is its byte comparison, and crashes only on a file shorter than four bytes |
| WadIO.WadMagic | src/wad/WadIO.cpp:43-48 | the magic test accepts exactly "WAD2" and "WAD3" |
| WadIO.DecodeLumpInfo | src/wad/WadIO.cpp:56-63 | each directory entry's name is canonicalised on load |
| WadIO.DecodeDirectory | src/wad/WadIO.cpp:50-63 | the directory holds `numlumps` entries (none for a negative count), each decoded from its record |
| WadIO.LoadWadFile | src/wad/WadIO.cpp:11-66 | an unreadable file is rejected; a loaded archive has the right magic, its header's count and offset, a directory inside the file, and every entry decoded |
| WadIO.LoadedNamesAreClean | src/wad/WadIO.cpp:50-63 | every loaded lump name is already clean |
| WadIO.HeaderExamples | src/wad/WadIO.cpp:11-66 | an empty WAD3 archive loads with no lumps; "WAD4" is rejected; three bytes that match "WAD" are read past |
| WadIO.FirstMatch | src/wad/WadIO.cpp:95-111 | the search finds the first entry whose name matches, or reports that none does |
| WadIO.Wad_FindTexture | src/wad/WadIO.cpp:87-114 | a texture is found exactly when the first lump of that name is a texture, and then it is that lump's offset |
| WadIO.FirstMatchUnique | src/wad/WadIO.cpp:97-111 | the first match is unique |
| WadFiles.NewWadFile | src/wad/CWadFile.h:25-31 | a new wrapper is valid, owns the archive and keeps the name cut to the buffer |
| WadFiles.Release | src/wad/CWadFile.h:60-69 | `Release` hands over the archive, zeroes the name and leaves the wrapper invalid |
| WadFiles.NumLumps | src/wad/CWadFile.h:74 | the count crashes exactly on a released wrapper |
| WadFiles.GetLumpByIndex | src/wad/CWadFile.h:90-99 | a lump is returned exactly for an index in [0, numlumps) |
| WadFiles.TypeCode | src/wad/CWadFile.h:107-129 | the type byte is compared as a signed `char` |
| WadFiles.GetLumpByName | src/wad/CWadFile.h:107-129 | the lump returned is exactly the first match, when its type is accepted |
| WadFiles.GetLumpData | src/wad/CWadFile.h:135-148 | a null lump gives null; a lump in the directory gives its offset |
| WadFiles.FindThroughWrapper | src/wad/CWadFile.h:107-148 | finding by name with the texture type and then its data gives what `Wad_FindTexture` gives |
| WadManager.NewManager | src/wad/CWadManager.cpp:11-14 | a new manager has no archives and an empty base path |
| WadManager.SetBasePath | src/wad/CWadManager.cpp:16-26 | a null path changes nothing; otherwise the base path is the path cut to the buffer |
| WadManager.FirstNamed | src/wad/CWadManager.cpp:28-43 | the first archive with that name, ignoring case, or none |
| WadManager.FindWadByName | src/wad/CWadManager.cpp:28-43 | the first archive named so, ignoring case; null for a null name or when none matches |
| WadManager.TextureIn | src/wad/CWadManager.cpp:45-62 | looking in one archive through its wrapper is `Wad_FindTexture` on it |
| WadManager.FirstOffering | src/wad/CWadManager.cpp:45-62 | the first archive that offers the texture, with its offset, or none |
| WadManager.FindTextureByName | src/wad/CWadManager.cpp:45-62 | the texture of the first archive, in order of adding, whose first lump of that name is a texture |
| WadManager.WadPath | src/wad/CWadManager.cpp:74-78 | the formatted path is base path, `/`, name and `.wad` |
| WadManager.AddWad | src/wad/CWadManager.cpp:64-90 | a null or empty name is invalid, a present name is not added, and otherwise the archive is appended exactly when the path fits and the file loads |
| WadManager.AddThenFind | src/wad/CWadManager.cpp:64-90 | after a successful add, looking the name up finds the new archive, last |
| WadManager.AddTwice | src/wad/CWadManager.cpp:64-90 | adding a name a second time reports it as already added |
| WadManager.Clear | src/wad/CWadManager.cpp:92-96 | after `Clear` no archive is found and the base path stays |
| GLMiptex.Alpha | src/gl/GLMiptex.cpp:60-113 | the alpha is the entry index for INDEXALPHA and 255 otherwise |
| GLMiptex.Convert8To32Bit | src/gl/GLMiptex.cpp:60-113 | each palette entry keeps its colour with the format's alpha; with ALPHTEST the last entry is cleared |
| GLMiptex.ColoursRoundTrip | src/gl/GLMiptex.cpp:60-113 | dropping the alpha gives back the palette, except the transparent entry under ALPHTEST |
| GLMiptex.PowerAtLeastAsWritten | src/gl/GLMiptex.cpp:122-124 | when it stops, the doubling loop gives the least power of two not below the size |
| GLMiptex.ImageDimensionsAsWritten | src/gl/GLMiptex.cpp:117-137 | as written, a non-positive side gives no size |
| GLMiptex.PowerAtLeast | src/gl/GLMiptex.cpp:122-127 | the bounded loop gives the least power of two not below the size, capped at 512 |
| GLMiptex.ImageDimensions | src/gl/GLMiptex.cpp:117-137 | no size exactly for a non-positive side; each side becomes the least power of two not below it, capped at 512 |
| GLMiptex.DimensionsAgree | src/gl/GLMiptex.cpp:117-137 | with no side above 2^30, the loop as written and the bounded one agree |
| GLMiptex.OverflowingSide | src/gl/GLMiptex.cpp:122-124 | a side of 2^30+1 overflows the loop as written; the bounded loop gives 512 |
| GLMiptex.AsWrittenPassesTwoToThe30 | src/gl/GLMiptex.cpp:122-124 | any size above 2^30 overflows the loop as written |
| GLMiptex.Average4 | src/gl/GLMiptex.cpp:220-223 | `(a+b+c+d) >> 2` is the mean rounded down |
| GLMiptex.AverageBetween | src/gl/GLMiptex.cpp:220-223 | the filtered value lies between the smallest and largest sample |
| GLMiptex.SamplePos | src/gl/GLMiptex.cpp:192-202 | each sampled source position lies inside the source side |
| GLMiptex.SamplesInLevelZero | src/gl/GLMiptex.cpp:192-225 | every texel the filter reads lies inside mip level 0 |
| GLMiptex.Resample | src/gl/GLMiptex.cpp:190-225 | the resampled image has the output size, four bytes per texel |
| GLMiptex.UploadMiptex | src/gl/GLMiptex.cpp:139-250 | a short header or palette is read out of bounds; no image exactly for an unusable size; otherwise an image of the computed size |
| GLMiptex.ImageNeverEmpty | src/gl/GLMiptex.cpp:177-181 | the image has at least one texel, so the `uiSize < 4` guard never fires |
| GLMiptex.UploadInBounds | src/gl/GLMiptex.cpp:157-225 | a texture whose level 0 and palette lie in the buffer uploads without fault |
| GLMiptex.ResampleReadsLevelZero | src/gl/GLMiptex.cpp:192-225 | only level 0 is read: buffers agreeing on it give the same image |
| GLMiptex.CountIgnored | src/gl/GLMiptex.cpp:159-166 | the two colour-count bytes are never checked: with them changed, the same image is uploaded |
| GLMiptex.UploadReadsOnly | src/gl/GLMiptex.cpp:157-225 | the upload reads only the header, mip level 0 and the palette: buffers agreeing there upload the same image |
| TextureManager.Shutdown | src/gl/CTextureManager.cpp:35-57 | after shutdown no slot, map entry or use remains |
| TextureManager.Initialize | src/gl/CTextureManager.cpp:15-33 | initializing gives `count` zeroed slots, none in use, an empty map |
| TextureManager.FindTexture | src/gl/CTextureManager.cpp:59-72 | a found slot is in use; null for a null name |
| TextureManager.FindTextureSearchesSlots | src/gl/CTextureManager.cpp:59-72 | the map finds exactly the slot in use whose name matches ignoring case |
| TextureManager.ShaderName | src/gl/CTextureManager.cpp:130-135 | `{` asks for the alpha-test shader, `!` for water, anything else for generic |
| TextureManager.ShaderFor | src/gl/CTextureManager.cpp:130-143 | the shader is the one asked for or the generic fallback; none exactly when neither exists |
| TextureManager.MiptexFor | src/gl/CTextureManager.cpp:104-111 | the given texture is used; otherwise the wads' texture of that name, none when no wad has it |
| TextureManager.NewTexture | src/gl/CTextureManager.cpp:118-143 | the new slot has the name cut to 16, the miptex's size, the GL name and the shader |
| TextureManager.Insert | src/gl/CTextureManager.cpp:145-159 | the texture takes the next free slot, enters the map under its name, and nothing else changes |
| TextureManager.UploadAndInsert | src/gl/CTextureManager.cpp:113-159 | it crashes exactly when the upload does, stores nothing exactly when the upload declines, and otherwise inserts |
| TextureManager.LoadTexture | src/gl/CTextureManager.cpp:79-160 | a loaded name returns its slot unchanged; otherwise it fails exactly on a long name, a full table, a missing texture or a declined upload, and succeeds into the next slot |
| TextureManager.LoadedValid | src/gl/CTextureManager.cpp:145-159 | adding under a fresh key in the next slot keeps the table and map consistent |
| TextureManager.AddedMapsBack | src/gl/CTextureManager.cpp:145-159 | after the addition every key of the map names a slot in use whose name has that key |
| TextureManager.AddedSlotsMapped | src/gl/CTextureManager.cpp:145-159 | after the addition every slot in use is found through its own key |
| TextureManager.LoadThenFind | src/gl/CTextureManager.cpp:79-160 | after a load, finding the name gives the slot it was given |
| TextureManager.LoadTwice | src/gl/CTextureManager.cpp:79-160 | loading a name twice returns the same slot and changes nothing |
| TextureAnimation.ValidKeysUnique | src/gl/CTextureManager.cpp:145-159 | the map keeps the names of slots in use distinct, ignoring case |
| TextureAnimation.FrameOf | src/gl/CTextureManager.cpp:188-212 | `0`-`9` is a frame, `A`-`J` in either case an alternate frame, anything else is bad |
| TextureAnimation.SameFrameSameKey | src/gl/CTextureManager.cpp:214-246 | two slots of one animation with the same frame character are the same texture |
| TextureAnimation.AddFrame | src/gl/CTextureManager.cpp:227-240 | recording a frame replaces only that frame's slot and raises its count past it |
| TextureAnimation.Collect | src/gl/CTextureManager.cpp:214-246 | the collected frames are slots in use and counts never fall |
| TextureAnimation.CollectFailsIff | src/gl/CTextureManager.cpp:214-246 | collecting fails exactly when a slot of the animation has a bad frame character |
| TextureAnimation.CollectKeeps | src/gl/CTextureManager.cpp:214-246 | a recorded slot of the animation stays recorded under its frame while later slots are collected, when names are distinct |
| TextureAnimation.CollectHas | src/gl/CTextureManager.cpp:214-246 | every later slot of the animation with a good frame character ends up recorded under its frame, below its side's count |
| TextureAnimation.Link | src/gl/CTextureManager.cpp:249-265 | linking succeeds exactly when every frame is present; names and unrelated slots are kept |
| TextureAnimation.LinkGivesNext | src/gl/CTextureManager.cpp:249-265 | a successful link gives every frame a next frame and takes none away |
| TextureAnimation.LinkedFrames | src/gl/CTextureManager.cpp:249-265 | each linked frame holds its place, the animation's length and its successor |
| TextureAnimation.FollowCycle | src/gl/CTextureManager.cpp:249-265 | following next frames `n` times from frame `k` reaches frame `(k+n) % count` |
| TextureAnimation.AnimationCycles | src/gl/CTextureManager.cpp:249-265 | after a successful link the frames form one cycle of length `count` |
| TextureAnimation.LinkBoth | src/gl/CTextureManager.cpp:249-281 | linking both sides succeeds exactly when both have every frame, and touches only slots in use |
| TextureAnimation.LinkBothGivesNext | src/gl/CTextureManager.cpp:249-281 | every frame on both sides gets a next frame |
| TextureAnimation.SequenceGroup | src/gl/CTextureManager.cpp:184-281 | sequencing one animation keeps names and unused slots and fails on a bad frame character |
| TextureAnimation.SequenceGroupLinksStart | src/gl/CTextureManager.cpp:184-281 | a successful sequencing gives the starting slot a next frame |
| TextureAnimation.Sequence | src/gl/CTextureManager.cpp:165-285 | the loop keeps names and unused slots |
| TextureAnimation.SequenceSequencesAll | src/gl/CTextureManager.cpp:165-285 | when the loop succeeds, every animated slot in use has a next frame |
| TextureAnimation.LinkBothLinks | src/gl/CTextureManager.cpp:249-281 | after a successful link of both sides, every frame holds its place, its side's length, its successor `(j+1) % max` and the other side's first frame, when that side has frames |
| TextureAnimation.SequenceGroupLinksAll | src/gl/CTextureManager.cpp:184-281 | a successful sequencing of one animation gives every later slot of it a next frame |
| TextureAnimation.SequenceFailsOnBadFrame | src/gl/CTextureManager.cpp:208-212 | an animated slot in use with no next frame and a bad frame character makes the loop fail, whether it starts a group or is collected into one |
| TextureAnimation.SequenceFailsOnAnyBadFrame | src/gl/CTextureManager.cpp:208-212 | some animated slot without a next frame having a bad frame character makes the whole loop fail |
| TextureAnimation.SequenceKeepsAnimation | src/gl/CTextureManager.cpp:179-182 | the loop leaves alone every slot of an animation whose slots all have a next frame |
| TextureAnimation.SequenceLinksAnimation | src/gl/CTextureManager.cpp:175-282 | for a slot that starts its animation, a successful loop from any earlier slot links every frame of that animation's group |
| TextureAnimation.SequenceLinksAll | src/gl/CTextureManager.cpp:175-282 | a successful loop, with distinct names, links every frame of every animation's group |
| TextureAnimation.SetupAnimatingTextures | src/gl/CTextureManager.cpp:165-285 | names, map and unused slots are kept; a bad frame character on an unsequenced slot makes it fail; on success every animated slot has a next frame and every frame of every animation holds its place, its side's length, its successor `(j+1) % max` and the other side's first frame |
| StringUtils.CharToSize | src/common/StringUtils.h:12-25 | a negative `char` is sign-extended into `size_t` |
| StringUtils.Stride | src/common/StringUtils.h:12-25 | the stride is at least 1 and is 1 for strings shorter than 10 |
| StringUtils.ArgString | src/common/StringUtils.h:12-25 | a null argument hashes as the empty string |
| StringUtils.StringHash | src/common/StringUtils.h:12-25 | the loop computes the sampled FNV-1 hash of the string (multiply, then XOR); a null string hashes to the offset basis |
| StringUtils.StringHashI | src/common/StringUtils.h:32-45 | the same hash of the lower-cased string |
| StringUtils.EmptyHash | src/common/StringUtils.h:12-25 | the empty string hashes to 2166136261 |
| StringUtils.OnlySampledPositionsMatter | src/common/StringUtils.h:12-25 | characters between the sampled positions do not change the hash |
| StringUtils.EqualIgnoreCaseSameHashI | src/common/StringUtils.h:50-72 | strings equal ignoring case have equal `StringHashI`, as the case-insensitive map functors need |
| Tokenization.LineEnd | src/utility/Tokenization.cpp:44-49 | a comment ends at the first newline or NUL |
| Tokenization.SkipWhite | src/utility/Tokenization.cpp:35-49 | whitespace and comments are skipped to a token start, or to nothing at the NUL |
| Tokenization.QuoteEnd | src/utility/Tokenization.cpp:53-67 | a quoted token ends at the closing quote or the NUL |
| Tokenization.WordEnd | src/utility/Tokenization.cpp:79-91 | a word ends at punctuation or a character at or below space |
| Tokenization.Parse | src/utility/Tokenization.cpp:23-92 | a null buffer gives nothing; no token means no position; otherwise parsing moves forward |
| Tokenization.BlankTextHasNoToken | src/utility/Tokenization.cpp:35-41 | text of blanks only yields no token |
| Tokenization.TrailingCommentHasNoToken | src/utility/Tokenization.cpp:44-49 | a comment reaching the end yields no token |
| Tokenization.CommentSkippedToLineEnd | src/utility/Tokenization.cpp:44-49 | parsing resumes after a `//` comment at its line end |
| Tokenization.BlankSkipped | src/utility/Tokenization.cpp:35-41 | a leading blank does not change the result |
| Tokenization.QuotedToken | src/utility/Tokenization.cpp:53-67 | a quoted token is the text between the quotes and parsing resumes after the closing one |
| Tokenization.UnterminatedQuote | src/utility/Tokenization.cpp:53-67 | an unterminated quote takes the rest of the text |
| Tokenization.PunctuationToken | src/utility/Tokenization.cpp:70-76 | a punctuation character is a token of its own |
| Tokenization.WordTokenShape | src/utility/Tokenization.cpp:79-91 | a word token has no blank and no punctuation after its first character, and ends before one |
| Tokenization.NoTokenIff | src/utility/Tokenization.cpp:35-49 | the skip loop finds no token exactly when every character before the first NUL is blank or inside a `//` comment |
| Tokenization.QuotedTokenShape | src/utility/Tokenization.cpp:53-67 | a quoted token is the text up to the closing quote or the NUL and contains neither |
| Tokenization.TokenShape | src/utility/Tokenization.cpp:23-92 | for every text and start: no token exactly when only blanks and comments come before the NUL; otherwise the token starts at the first other character, and is the quoted text, one punctuation character, or a word of characters above space |
| Tokenization.TokenWaiting | src/utility/Tokenization.cpp:101-115 | 1 exactly when a non-space character comes before the next newline or the end |
| EntityList.FirstEmpty | src/entity/CEntityList.cpp:28-54 | the search finds the lowest empty slot, or the end |
| EntityList.Create | src/entity/CEntityList.cpp:28-54 | a new entity fills the lowest empty slot or one appended, gets that index and a fresh id, and the count rises by one |
| EntityList.Destroy | src/entity/CEntityList.cpp:56-76 | an entity stored at its index is removed and the count falls; anything else changes nothing |
| EntityList.DestroyUndoesCreate | src/entity/CEntityList.cpp:28-76 | destroying a new entity restores the list up to one extra empty slot |
| EntityList.DestroyAsWritten | src/entity/CEntityList.cpp:63 | the written guard lets an index equal to the size through; below it, it agrees with `Destroy` |
| EntityList.DestroyAsWrittenReadsPastEnd | src/entity/CEntityList.cpp:63 | an entity with index 0 in an empty list reads past the end |
| EntityList.DestroyGuardInRange | src/entity/CEntityList.cpp:56-76 | the corrected guard only reads slots in range |
| EntityList.NextFrom | src/entity/CEntityList.cpp:15-26 | the first occupied slot from a position on, or none |
| EntityList.GetNextEntity | src/entity/CEntityList.cpp:15-26 | the next entity is the first after the start's index, or from slot 0 for null |
| EntityList.GetFirstEntity | src/entity/CEntityList.cpp:10-13 | the first entity is in the list; none exactly when the list is empty |
| EntityList.NextEntityIsStored | src/entity/CEntityList.cpp:15-26 | iterating yields stored entities at increasing indices |
| EntityList.DestroyFrom | src/entity/CEntityList.cpp:78-87 | the clearing loop empties every slot from its position on |
| EntityList.Clear | src/entity/CEntityList.cpp:78-87 | after `Clear` no entity and no count remain |
| BaseEntity.NewEntity | src/entity/CBaseEntity.cpp:7-11 | a constructed entity has its id, class and index and default render state |
| BaseEntity.Clamp | src/entity/CBaseEntity.cpp:41-45 | the clamped value lies between the bounds and is the value when already inside |
| BaseEntity.ParseVector | src/entity/CBaseEntity.cpp:21-39 | each component is read where the previous one ended; the `break` comes before the index is counted, so the component after which the text ends is 0, and so is every later one |
| BaseEntity.ParseVectorCorrected | src/entity/CBaseEntity.cpp:21-39 | with the fill starting after the last component read, every component read is kept and only those after the end of the text are 0 |
| BaseEntity.ThreeNumbersLoseLast | src/entity/CBaseEntity.cpp:27-38 | for any three-number text the loop as written gives (x, y, 0), and the corrected loop gives (x, y, z) |
| BaseEntity.SingleNumberLost | src/entity/CBaseEntity.cpp:27-38 | "5", read as 5, gives (0, 0, 0) as written and (5, 0, 0) corrected |
| BaseEntity.ToInt32 | src/entity/CBaseEntity.cpp:59-69 | a `long` converted to the render mode keeps values in 32-bit range |
| BaseEntity.FindModel | src/entity/CBaseEntity.cpp:75-90 | a found model slot holds the name |
| BaseEntity.FindModelIsFirstMatch | src/entity/CBaseEntity.cpp:75-90 | the scan finds the first slot holding the name, unless an empty name comes first |
| BaseEntity.KeyValue | src/entity/CBaseEntity.cpp:47-93 | a key is handled exactly when known; each handled key changes only its own field; origin and angles are `ParseVector` as written, render mode and amount are clamped, and a missing model is ignored |
| EntityIO.TrimTrailingSpaces | src/entity/EntityIO.cpp:136-142 | the key loses exactly its trailing spaces |
| EntityIO.FindClassNameIsFirstClassName | src/entity/EntityIO.cpp:34-80 | `ED_FindClassName` gives the value of the first "classname" key before the block ends |
| EntityIO.AngleKeyBecomesAngles | src/entity/EntityIO.cpp:167-172 | key "angle" becomes "angles" as `0 <value> 0` |
| EntityIO.LightKeyBecomesLightLev | src/entity/EntityIO.cpp:131-132 | key "light" becomes "light_lev" |
| EntityIO.UnderscoreKeyDropped | src/entity/EntityIO.cpp:164-165 | keys starting with `_` never reach `KeyValue` |
| EntityIO.TrailingSpacesIgnored | src/entity/EntityIO.cpp:136-142 | trailing spaces on a key are ignored |
| EntityIO.ApplyPairs | src/entity/EntityIO.cpp:174 | applying pairs never changes the entity's identity |
| EntityIO.Store | src/entity/EntityIO.cpp:174 | the updated entity replaces its slot and nothing else |
| EntityIO.ParsePairs | src/entity/EntityIO.cpp:106-188 | a successful pair loop moves forward and keeps the list consistent |
| EntityIO.ParseEdict | src/entity/EntityIO.cpp:82-189 | a parsed block moves forward and keeps the list consistent |
| EntityIO.ParsePairsFollowsBlock | src/entity/EntityIO.cpp:106-188 | the pair loop applies every pair and succeeds exactly when the block is closed; otherwise the entity is destroyed |
| EntityIO.ParseEdictOutcome | src/entity/EntityIO.cpp:82-189 | with no class name nothing is created; otherwise the entity is created, then kept with every pair applied or destroyed |
| EntityIO.LoadFromFile | src/entity/EntityIO.cpp:191-232 | loading keeps the list consistent |
| EntityIO.EmptyTextLoads | src/entity/EntityIO.cpp:191-232 | text with no token loads and changes nothing |
| EntityIO.MissingOpenBraceFails | src/entity/EntityIO.cpp:200-208 | a first token other than `{` fails before creating anything |

## Left out

- File I/O: files are byte sequences, and the wad manager's file system is a function
  from a path to the file's contents.
- OpenGL: `glGenTextures`, `glTexImage2D`, `glDeleteTextures` and GL error checks are not
  modelled. The texture name is a parameter, and the shader manager is the set of shader
  names it knows.
- Floating point: float fields are decoded by a caller-supplied function (`FloatOps`).
  `glm::length` is also a parameter.
- GLMiptex.SamplePos computes the texel positions of `UploadMiptex` in exact rational
  arithmetic. The source uses `float` and truncates.
- `strtod`/`strtol` are parameters of the entity model. `ParseVector` casts `strtod`'s
  `double` to `float`; the parser's value is taken to be already rounded to `float`.
- `KeyValue`, and so the entity loader, uses `ParseVector` as written (see Findings). The
  corrected fill is stated by `ParseVectorCorrected` and is not threaded into the loader.
- BSPIO.SwapMiptex: the source's loop over `dataofs` runs `nummiptex` times, with the count
  taken from the file. Once `4 + 4 * nummiptex` is above `MAX_MAP_MIPTEX` it writes past the
  texture array, which is undefined behaviour. The model swaps only the offsets that lie in
  the data and returns normally. Modelling that write as a crash would change the result of
  `SwapTable`, `SwapBSPFile` and their round trips.
- `printf` diagnostics are not modelled.
- `MAX_PATH_LENGTH` is a parameter (`pathSize`), because core/Platform.h is not part of
  this model.
- utility/ByteSwap.h is not part of this model. `LittleValue` is modelled as identity on a
  little-endian host and byte reversal on a big-endian one.
- `CBaseEntity::Spawn`, `OnCreate` and `OnDestroy` are virtual hooks with empty bodies
  here; they are not modelled.
- Fixed buffers are not bounded in the model: `com_token`, `keyname[256]` and the 32-byte
  copy of an "angle" value. Overlong tokens would overflow them in the source.
- `RadiusFromBounds` computes `radius` from floats and is not modelled.
- `CalcSurfaceExtents` and `GL_SubdivideSurface` have empty bodies and are not modelled.
- The rest of `Mod_LoadTextures` after its unconditional `return true` is dead code and is
  not modelled.
- BrushLoader.SetUpSubmodels models only the first pass of the sub-model loop.
  - Later passes write into registry models found by `Mod_FindName("*i")`.
  - They copy a model onto itself (`*pModel = *pModel`) and do not touch the model being
    loaded.
- The texture chain, `efrag` and render-time fields of the brush model are not modelled.
- A 16-character wad lump name without a NUL is compared by `_stricmp`, which reads past
  the name. The model compares the 16 characters.
- A negative `snprintf` result in `AddWad` cannot happen for these short formats and is
  not modelled.
- GLMiptex.UploadMiptex: computes the row offsets `row * pMiptex->width` without the 32-bit
  wrap. The factor is the uncapped input width, so in the source the product can wrap once
  `width * height` is above 2^31. The model then samples at the unwrapped index.
- GLMiptex.UploadMiptex: uses the corrected `ImageDimensions`, which stops doubling at 512.
  The source calls the loop as written (`ImageDimensionsAsWritten`), which overflows for a
  side above 2^30 (see Findings). Up to 2^30 the two agree (`DimensionsAgree`), so the
  model is faithful only for sides of at most 2^30.
- Tokenization.Parse: after an unterminated quote the source returns the pointer one past
  the terminating NUL, so a further call reads past the end of the text. The model reads
  NUL at every position past the text, so that call ends with no token instead.
- Tokenization.UnterminatedQuote: gives the position one past the NUL, as the source does;
  what a later call reads there is not modelled (see the line above).
- TextureManager.Insert: the source zeroes the slot when inserting into the map fails. The
  name was looked up just before, so that branch cannot be taken and is not modelled.
- TextureAnimation.SequenceLinksAll and TextureAnimation.SequenceSequencesAll assume names
  distinct ignoring case; SetupAnimatingTextures gets that from the manager's map.
- TextureAnimation.SetupAnimatingTextures: the failure it states for a bad frame character
  covers slots without a next frame. A bad character on an already linked slot that a
  later animation collects also fails (CollectFailsIff), but the contract does not say so.
- TextureAnimation.Collect compares the names after `+N` case-sensitively, as `strcmp` does.

## Findings

| source | as written | input that shows it | evidently intended | confidence | as-written member | corrected member |
|---|---|---|---|---|---|---|
| src/entity/CEntityList.cpp:63 | the guard rejects only `size < index` | an entity whose index equals the vector's size (index 0, empty list) reads `m_Entities[size]` | reject `size <= index` | high, not executed | EntityList.DestroyAsWrittenReadsPastEnd | EntityList.DestroyGuardInRange |
| src/bsp/BSPIO.cpp:19-43 | `CopyLump` never sets the table's `count` | any valid file: every table keeps count 0, so `SwapBSPFile` swaps nothing and every checksum is 0 | `count = filelen / sizeof(Type_t)` | medium, not executed | BSPIO.LoadBSPFileAsWrittenLeavesCountsZero | BSPIO.LoadBSPFileRecordsLumps |
| src/bsp/BSPRenderIO.cpp:573-586 | an empty visibility lump returns `false` | a map with an empty visibility lump fails to load | return `true` with no data, as lighting and entities do | high, not executed | BrushFindings.EmptyVisibilityRejected | BSPRenderIO.LoadVisibility |
| src/bsp/BSPRenderIO.cpp:536-562 | mark entries are read as `short`, checked only against the upper bound | entry 35000 with 40000 surfaces reads as -30536 and passes | read `unsigned short`, as the file stores | medium, not executed | BrushFindings.NegativeMarkSurface | BrushFindings.CorrectedMarksAreSurfaces |
| src/bsp/BSPRenderIO.cpp:680-712 | node `contents` is never set after `new mnode_t[count]` | any allocator fill that is negative: the parent walk stops at node 0, and hull 0 loses the node indices | `contents = 0` for every node | medium, not executed | BrushFindings.FillStopsParentWalk | BrushFindings.LoadedParents |
| src/gl/GLMiptex.cpp:122-124 | the doubling loop runs on an `int` up to the side | a width of 2^30+1 doubles the counter past `INT_MAX` | stop at `MAX_TEXTURE_DIMS` | low, not executed | GLMiptex.OverflowingSide | GLMiptex.ImageDimensions |
| src/entity/CBaseEntity.cpp:27-38 | `ParseVector` breaks out of its loop before counting the component just read, so the zero-fill overwrites that component | "10 20 30" gives (10, 20, 0), and "5" gives (0, 0, 0) | start the fill after the last component read | high, not executed | BaseEntity.ThreeNumbersLoseLast | BaseEntity.ParseVectorCorrected |

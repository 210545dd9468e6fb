# Roblox mesh codecs, modelled in Dafny

This project models the decoders of a family of Roblox binary formats and
proves properties of them. The formats are:

- **Mesh files.** A 12-byte `version X.YY` tag selects either the ASCII
  1.00/1.01 text format or one of the binary layouts 2.00, 3.00/3.01,
  4.00/4.01 and 5.00. Two snapshots of the decoder are modelled. The older
  one is `src/mesh.rs` (versions 1 to 4; module `LegacyMesh`). The newer one
  is `rbx_mesh/src/mesh.rs` (versions 1 to 5, plus the FACS facial-animation
  block; modules `RbxMesh` and `RbxFacs`).
- **Mesh data (`"CSGMDL"`).** Read after a 31-byte cyclic XOR pad has been
  removed (`src/mesh_data.rs`; modules `ByteXor` and `MeshDataFormat`).
- **Physics data (`"CSGPHS"`).** Holds a collision payload tagged `BLOCK`,
  3 or 6 (`src/physics_data.rs`; module `PhysicsDataFormat`).

The binary layouts are declared in the source with `binrw` derive macros. The
module `Wire` stands in for the part of that library the layouts use:

- little-endian `u8`/`i8`/`u16`/`u32`/`u64`;
- `f32` kept as an opaque 32-bit pattern;
- magic byte strings;
- vectors whose length comes from an earlier count.

Every reader has an encoder in continuation style, `Encode(x, tail)`,
because the `binrw` derives also produce writers. Each layout is then tied
to its encoder by two lemmas:

- `Read(Encode(x, tail)) == Ok(x, tail)` for well-formed `x`;
- a successful read re-encodes to exactly the bytes it consumed.

A reader fails in one of three ways: `UnexpectedEof`, `BadMagic` or
`NoVariantMatch`. `BadMagic` is kept separate because the older snapshot
retries a different layout on it. `binrw` rewinds a derived read that
fails, so such a retry starts again from the first byte.

Shared records live in `MeshRecords`:

- 40-byte and 36-byte vertices, faces, LODs, envelopes;
- `BoneId4` with its `0xFFFF` sentinel;
- CFrames, bones, subsets, LOD types and revisions;
- the tangent fix-up.

The ASCII format, its line reader and the error type live in `MeshText`.
Float parsing, UTF-8 decoding and float arithmetic are parameters
(`TextOps`).

The post-decode passes work in place in the source, so they are methods
over arrays proved against specification functions:

- `fix2`…`fix5` become `MeshRecords.FixTangents`;
- `fix1` and `fix_100` become `MeshText.FlipTextureV` and
  `MeshText.HalvePositions`;
- the XOR pass becomes `MeshDataFormat.Decode`.

The line reader is a class, `MeshText.LineMachine`, whose methods advance
its unread input.

## Model

| member | source | states |
|---|---|---|
| Wire.ReadMagic | src/mesh.rs:187 | a magic read succeeds exactly when the input starts with the magic and then leaves the rest; it fails with EOF exactly when the input is shorter, otherwise with `BadMagic` |
| Wire.ReadEncodeMany | src/mesh.rs:213-216 | a counted vector reads back from its encoding when each element does |
| Wire.EncodeReadMany | src/mesh.rs:213-216 | a counted vector that reads successfully re-encodes to exactly the bytes it consumed |
| Wire.ReadManyEofOnly | src/mesh.rs:213-216 | a counted vector of records that fail only at end of input fails only at end of input |
| Wire.ReadManyWidth | src/physics_data.rs:39-43 | `n` fixed-width records consume exactly `n` times the width |
| Wire.ScalarCodecs | src/mesh.rs:184-193 | every little-endian scalar reads back from its encoding, and every successful scalar read re-encodes to its input |
| Wire.ArrayCodecs | src/mesh.rs:196-202 | the same for fixed-size arrays of `f32`, `i8`, `u8` and `u32` |
| MeshRecords.EncodeVertex2 | src/mesh.rs:196-202 | a full vertex occupies 40 bytes |
| MeshRecords.EncodeVertex2Truncated | src/mesh.rs:232-237 | a truncated vertex occupies 36 bytes |
| MeshRecords.WidenNarrow | src/mesh.rs:290-298 | widening a truncated vertex keeps pos/norm/tex/tangent, sets colour `[255;4]`, and is undone by narrowing; narrowing is undone by widening exactly when the colour was opaque white |
| MeshRecords.EncodeFace2 | src/mesh.rs:205-208 | a face is three `u32` ids, 12 bytes |
| MeshRecords.EncodeLod3 | src/mesh.rs:330 | a LOD entry is 4 bytes |
| MeshRecords.EncodeEnvelope4 | src/mesh.rs:466-470 | an envelope is 8 bytes |
| MeshRecords.BoneId4.Get | src/mesh.rs:481-486 | `get` is `None` exactly for the raw value `0xFFFF`, otherwise the raw value |
| MeshRecords.NewBoneId4 | src/mesh.rs:474-480 | `new(None)` stores `0xFFFF`, `new(Some(x))` stores `x` |
| MeshRecords.BoneIdRoundTrip | src/mesh.rs:472-487 | `get(new(v)) == v` for every `v` except `Some(0xFFFF)`, which comes back as `None`; `new(get(id)) == id` |
| MeshRecords.EncodeBoneId4 | src/mesh.rs:472 | a bone id is 2 bytes |
| MeshRecords.EncodeCFrame4 | src/mesh.rs:490-496 | a CFrame is 12 floats, 48 bytes |
| MeshRecords.EncodeBone4 | src/mesh.rs:498-505 | a bone is 60 bytes |
| MeshRecords.EncodeSubset4 | src/mesh.rs:507-515 | a subset with its 26 bone ids is 72 bytes |
| MeshRecords.ReadLodType4 | src/mesh.rs:439-446 | a LOD type is read from its `u16` code; any code above 4 fails with `NoVariantMatch` |
| MeshRecords.EncodeLodType4 | src/mesh.rs:439-446 | a LOD type is 2 bytes |
| MeshRecords.ReadTag | src/mesh.rs:431-436 | a 4-byte revision tag is read exactly when the next 4 bytes are one of the listed tags, consuming them; every failure, short input included, is `NoVariantMatch` |
| MeshRecords.EncodeRevision3 | src/mesh.rs:307-312 | a version 3 revision is 4 bytes |
| MeshRecords.EncodeRevision4 | src/mesh.rs:431-436 | a version 4 revision is 4 bytes |
| MeshRecords.RevisionCodecs | src/mesh.rs:307-312 | revisions 3.00/3.01 and 4.00/4.01 read back from their encodings and re-encode to their input |
| MeshRecords.FixedTangents | src/mesh.rs:249-256 | the fix-up keeps the number of vertices |
| MeshRecords.FixTangents | src/mesh.rs:249-256 | the in-place pass over the vertex array leaves exactly the fixed vertex list |
| MeshRecords.FixVertexList | src/mesh.rs:249-256 | the pass over a copied vertex buffer returns the fixed vertex list |
| MeshRecords.FixedTangentsSpec | src/mesh.rs:249-256 | after the fix no tangent is the sentinel `[-128;4]`; a sentinel becomes `[0,0,-128,127]` and any other tangent is kept; every other field is unchanged; fixing twice equals fixing once |
| MeshRecords.RecordsEofOnly | src/mesh.rs:196-215 | the fixed-width records fail only at end of input, never with a bad magic |
| MeshRecords.VertexEofOnly | src/mesh.rs:196-202 | vertex reads fail only at end of input |
| MeshRecords.BoneEofOnly | src/mesh.rs:498-505 | bone reads fail only at end of input |
| MeshRecords.SubsetEofOnly | src/mesh.rs:507-515 | subset reads fail only at end of input |
| MeshRecords.ReadEncodeVertex2 | src/mesh.rs:196-202 | a full vertex reads back from its encoding |
| MeshRecords.EncodeReadVertex2 | src/mesh.rs:196-202 | a full vertex read re-encodes to its input |
| MeshRecords.ReadEncodeVertex2Truncated | src/mesh.rs:232-237 | a truncated vertex reads back from its encoding |
| MeshRecords.EncodeReadVertex2Truncated | src/mesh.rs:232-237 | a truncated vertex read re-encodes to its input |
| MeshRecords.ReadEncodeFace2 | src/mesh.rs:205-208 | a face reads back from its encoding |
| MeshRecords.EncodeReadFace2 | src/mesh.rs:205-208 | a face read re-encodes to its input |
| MeshRecords.ReadEncodeEnvelope4 | src/mesh.rs:466-470 | an envelope reads back from its encoding |
| MeshRecords.EncodeReadEnvelope4 | src/mesh.rs:466-470 | an envelope read re-encodes to its input |
| MeshRecords.ReadEncodeCFrame4 | src/mesh.rs:490-496 | a CFrame reads back from its encoding |
| MeshRecords.EncodeReadCFrame4 | src/mesh.rs:490-496 | a CFrame read re-encodes to its input |
| MeshRecords.ReadEncodeBone4 | src/mesh.rs:498-505 | a bone reads back from its encoding |
| MeshRecords.EncodeReadBone4 | src/mesh.rs:498-505 | a bone read re-encodes to its input |
| MeshRecords.BoneId4Codec | src/mesh.rs:472-487 | bone ids read back from their encoding and re-encode to their input |
| MeshRecords.ReadEncodeSubset4 | src/mesh.rs:507-515 | a subset reads back from its encoding |
| MeshRecords.EncodeReadSubset4 | src/mesh.rs:507-515 | a subset read re-encodes to its input |
| MeshRecords.ReadEncodeLodType4 | src/mesh.rs:439-446 | a LOD type reads back from its encoding |
| MeshRecords.EncodeReadLodType4 | src/mesh.rs:439-446 | a LOD type read re-encodes to its input |
| MeshRecords.RecordCodecs | src/mesh.rs:196-215 | every shared record reads back from its encoding and re-encodes to its input |
| MeshText.FromParse | src/mesh.rs:283 | a layout error becomes `BinRead` carrying it; a success keeps its value |
| MeshText.TagOf | src/mesh.rs:44-55 | every version tag is 12 bytes starting `version ` |
| MeshText.VersionOf | src/mesh.rs:44-55 | a recognised tag is the tag of the version found; an unrecognised one is the tag of no version |
| MeshText.UntaggedVersion | src/mesh.rs:55 | bytes differing from the eight known tags are the tag of no version |
| MeshText.VersionOfTag | src/mesh.rs:44-51 | every version's tag is recognised as that version |
| MeshText.LineLength | src/mesh.rs:71-73 | a line runs up to, not including, the first newline |
| MeshText.SplitLine | src/mesh.rs:71-73 | splitting off a line strictly shortens the input |
| MeshText.Remaining | src/mesh.rs:71-73 | taking a line from non-empty input strictly shortens it |
| MeshText.NextLine | src/mesh.rs:71-73 | a line is taken only from non-empty input; no line is `UnexpectedEof`, a line that is not UTF-8 is `Io` |
| MeshText.NextU32 | src/mesh.rs:68-70 | a count line fails only with `UnexpectedEof`, `Io` or `ParseIntError` |
| MeshText.SplitLineOfLine | src/mesh.rs:71-73 | a line ending in LF or CRLF is returned without its terminator, and reading resumes after it |
| MeshText.NextLineOfLine | src/mesh.rs:71-73 | a written line whose bytes decode is read as its text, and the input after its newline is what remains |
| MeshText.NextU32OfLine | src/mesh.rs:68-70 | a written line holding a `u32` in decimal is read as that number |
| MeshText.TrimDigits | src/mesh.rs:69 | trimming leaves a string of digits unchanged |
| MeshText.SplitLastLine | src/mesh.rs:71-73 | a final line without a newline is returned whole and ends the input |
| MeshText.LineMachine.constructor | src/mesh.rs:63-67 | a new line reader has all the input unread |
| MeshText.LineMachine.ReadLine | src/mesh.rs:71-73 | reading a line returns the next line or its error and advances past it |
| MeshText.LineMachine.ReadU32 | src/mesh.rs:68-70 | reading a count returns the trimmed next line parsed as `u32` and advances past it |
| MeshText.TrimStart | src/mesh.rs:69 | trimming the start drops exactly the leading whitespace |
| MeshText.TrimEnd | src/mesh.rs:69 | trimming the end drops exactly the trailing whitespace |
| MeshText.TrimSpec | src/mesh.rs:69 | `trim` returns the middle of the line with all whitespace before and after it removed, and neither of its ends is whitespace |
| MeshText.ParseU32Decimal | src/mesh.rs:69 | a `u32` in decimal parses to itself, also with a leading `+`; a leading `-` is rejected |
| MeshText.ParseU32Overflow | src/mesh.rs:69 | a decimal above `u32::MAX` is rejected |
| MeshText.GroupEnd | src/mesh.rs:136 | finds the first `]` or line break at or after a position, with none before it |
| MeshText.BracketGroups | src/mesh.rs:136-137 | every captured `[...]` group holds no `]` and no line break (it may hold a `[`, as the lazy match captures `[a` from `[[a]`) |
| MeshText.BracketGroupsOfBracketed | src/mesh.rs:136-137 | a line of bracketed groups yields exactly those groups, in order |
| MeshText.FirstGroup | src/mesh.rs:136-137 | a leading bracketed group is captured first and scanning resumes after it |
| MeshText.Split | src/mesh.rs:145 | splitting on commas yields at least one piece and no piece holds a comma |
| MeshText.JoinSplit | src/mesh.rs:145 | joining the pieces with commas gives back the group |
| MeshText.SplitJoin | src/mesh.rs:145 | comma-free pieces joined with commas split back into the same pieces |
| MeshText.ParseAll | src/mesh.rs:145-147 | the components parse exactly when each parses, to those values; otherwise `ParseFloatError` |
| MeshText.ParseTriple | src/mesh.rs:144-170 | a group yields a triple exactly when it has 3 parseable components; with another count the error is the component's `DimensionNot3` carrying that count |
| MeshText.ParseVertices | src/mesh.rs:140-180 | a vertex list is three groups per vertex, each triple of groups parsed as position, normal and texture coordinates |
| MeshText.ParseVerticesComplete | src/mesh.rs:142-177 | groups that all parse and come in whole triples always give a vertex list |
| MeshText.ParseVerticesLeftover | src/mesh.rs:178 | one or two groups left over give `VertexTripletCount` |
| MeshText.FlippedV | src/mesh.rs:98-102 | `fix1` keeps the number of vertices |
| MeshText.HalvedPositions | src/mesh.rs:90-96 | `fix_100` keeps the number of vertices |
| MeshText.FlipTextureV | src/mesh.rs:98-102 | the in-place pass leaves exactly the flipped vertex list |
| MeshText.HalvePositions | src/mesh.rs:90-96 | the in-place pass leaves exactly the halved vertex list |
| MeshText.FixVertexBuffer | src/mesh.rs:113-126 | a decoded vertex list copied into a buffer and fixed up in place comes out flipped, and for 1.00 also halved |
| MeshText.FixUpsSpec | src/mesh.rs:90-102 | `fix1` changes only the second texture coordinate, to `1 - v`; `fix_100` changes only the position, halving each coordinate |
| LegacyMesh.Check1 | src/mesh.rs:104-110 | succeeds exactly when there are 3 vertices per face, returning the mesh unchanged, and otherwise fails with `VertexCount` |
| LegacyMesh.Decoded1 | src/mesh.rs:128-182 | the text reader never reports an unknown version; a decoded mesh's face count is the `u32` on its second line |
| LegacyMesh.Decoded1OfText | src/mesh.rs:128-182 | a first line, a decimal face count line and a line of bracketed groups decode to that face count and to the vertices the groups spell, three groups each |
| LegacyMesh.DecodedFixedOfText | src/mesh.rs:113-126 | the same lines through 1.00 and 1.01 give the vertices flipped (and, for 1.00, halved) when there are 3 per face, and `VertexCount` otherwise |
| LegacyMesh.Read1 | src/mesh.rs:128-182 | the line-by-line reader computes the text decoding |
| LegacyMesh.Decoded100 | src/mesh.rs:113-119 | a mesh that comes out has exactly 3 vertices per face, and no error is an unknown version |
| LegacyMesh.Decoded100Fixup | src/mesh.rs:113-119 | a text read error is returned as is; otherwise the result is the decoded mesh with texture V flipped and positions halved when it has 3 vertices per face, and `VertexCount` when it does not |
| LegacyMesh.Decoded101 | src/mesh.rs:122-126 | a mesh that comes out has exactly 3 vertices per face, and no error is an unknown version |
| LegacyMesh.Decoded101Fixup | src/mesh.rs:122-126 | a text read error is returned as is; otherwise the result is the decoded mesh with texture V flipped when it has 3 vertices per face, and `VertexCount` when it does not |
| LegacyMesh.Read100 | src/mesh.rs:113-119 | read, flip, halve, then check, as the 1.00 decoding states |
| LegacyMesh.Read101 | src/mesh.rs:122-126 | read, flip, then check, as the 1.01 decoding states |
| LegacyMesh.EncodeHeader2 | src/mesh.rs:186-193 | a version 2 header is its 17-byte magic and two counts |
| LegacyMesh.ReadMesh2 | src/mesh.rs:211-217 | a decoded mesh has `vertex_count` vertices and `face_count` faces |
| LegacyMesh.ReadMesh2Truncated | src/mesh.rs:240-246 | the same for the 36-byte vertex layout |
| LegacyMesh.WidenVertices | src/mesh.rs:290-298 | widening keeps the number of vertices |
| LegacyMesh.NarrowVertices | src/mesh.rs:290-298 | narrowing keeps the number of vertices |
| LegacyMesh.Read2 | src/mesh.rs:265-303 | the full layout's result is returned as is; any error other than `BadMagic` is returned; only on `BadMagic` is the 36-byte layout read from the start, and its success is the widened mesh and its failure the error it reports |
| LegacyMesh.Fix2 | src/mesh.rs:249-256 | only the vertices change, to their fixed tangents |
| LegacyMesh.ReadEncodeHeader2 | src/mesh.rs:186-193 | a version 2 header reads back from its encoding, under either magic |
| LegacyMesh.EncodeReadHeader2 | src/mesh.rs:186-193 | a version 2 header read re-encodes to its input |
| LegacyMesh.ReadEncodeMesh2 | src/mesh.rs:211-217 | a well-formed version 2 mesh reads back from its encoding |
| LegacyMesh.EncodeReadMesh2 | src/mesh.rs:211-217 | a version 2 mesh read re-encodes to its input |
| LegacyMesh.ReadEncodeMesh2Truncated | src/mesh.rs:240-246 | a well-formed 36-byte-vertex mesh reads back from its encoding |
| LegacyMesh.EncodeReadMesh2Truncated | src/mesh.rs:240-246 | a 36-byte-vertex mesh read re-encodes to its input |
| LegacyMesh.Header2MagicsDiffer | src/mesh.rs:187-223 | the two version 2 magics are 17 bytes and differ only in the vertex-size byte |
| LegacyMesh.Read2Layouts | src/mesh.rs:265-303 | `read2` decodes an encoded full mesh as itself and an encoded 36-byte mesh as its widening |
| LegacyMesh.Read2FallbackLossless | src/mesh.rs:283-300 | whenever the fallback succeeds, the 36-byte read succeeded and the result keeps its counts, faces and every vertex's pos/norm/tex/tangent, with colour `[255;4]` |
| LegacyMesh.EncodeHeader3 | src/mesh.rs:316-327 | a version 3 header is its revision, magic and counts |
| LegacyMesh.ReadMesh3 | src/mesh.rs:333-341 | a decoded mesh has as many vertices, faces and LODs as its header counts |
| LegacyMesh.ReadMesh3Truncated | src/mesh.rs:343-366 | the same for the 36-byte vertex layout |
| LegacyMesh.Read3 | src/mesh.rs:386-427 | as `read2`: the full layout's result or non-`BadMagic` error is returned; on `BadMagic` the 36-byte layout's success is returned widened and its failure as the error it reports |
| LegacyMesh.Fix3 | src/mesh.rs:370-377 | only the vertices change, to their fixed tangents |
| LegacyMesh.ReadEncodeHeader3 | src/mesh.rs:316-327 | a version 3 header reads back from its encoding |
| LegacyMesh.EncodeReadHeader3 | src/mesh.rs:316-327 | a version 3 header read re-encodes to its input |
| LegacyMesh.ReadEncodeMesh3 | src/mesh.rs:333-341 | a well-formed version 3 mesh reads back from its encoding |
| LegacyMesh.EncodeReadMesh3 | src/mesh.rs:333-341 | a version 3 mesh read re-encodes to its input |
| LegacyMesh.ReadEncodeMesh3Truncated | src/mesh.rs:343-366 | a well-formed 36-byte-vertex version 3 mesh reads back from its encoding |
| LegacyMesh.EncodeReadMesh3Truncated | src/mesh.rs:343-366 | a 36-byte-vertex version 3 mesh read re-encodes to its input |
| LegacyMesh.Read3FallbackLossless | src/mesh.rs:405-424 | whenever the fallback succeeds, the 36-byte read succeeded and the result is its widening, which narrows back to it and re-encodes to the input |
| LegacyMesh.Read3Layouts | src/mesh.rs:386-427 | `read3` decodes an encoded full mesh as itself and an encoded 36-byte mesh as its widening |
| LegacyMesh.EncodeHeader4 | src/mesh.rs:449-463 | a version 4 header is 37 bytes |
| LegacyMesh.EncodeHeader4Boneless | src/mesh.rs:537-552 | a boneless version 4 header is 37 bytes |
| LegacyMesh.ReadMesh4 | src/mesh.rs:517-533 | a decoded mesh has all its vectors at their declared lengths, with one envelope per vertex |
| LegacyMesh.ReadMesh4Boneless | src/mesh.rs:555-567 | a decoded boneless mesh has all its vectors at their declared lengths |
| LegacyMesh.WithBones | src/mesh.rs:605-627 | the converted mesh has no bones, no envelopes and a bone count of 0 |
| LegacyMesh.Read4 | src/mesh.rs:586-630 | the boneless layout is tried first and its success converted; any error other than `BadMagic` is returned; on `BadMagic` the result is exactly the full layout's read from the start |
| LegacyMesh.Fix4 | src/mesh.rs:570-577 | only the vertices change, to their fixed tangents |
| LegacyMesh.ReadEncodeHeader4Head | src/mesh.rs:449-463 | the first part of a version 4 header reads back from its encoding |
| LegacyMesh.EncodeReadHeader4Head | src/mesh.rs:449-463 | the first part of a version 4 header re-encodes to its input |
| LegacyMesh.Header4TailCodec | src/mesh.rs:459-462 | the last part of a version 4 header reads back from its encoding and re-encodes to its input |
| LegacyMesh.ReadEncodeHeader4 | src/mesh.rs:449-463 | a version 4 header reads back from its encoding |
| LegacyMesh.EncodeReadHeader4 | src/mesh.rs:449-463 | a version 4 header read re-encodes to its input |
| LegacyMesh.ReadEncodeHeader4Boneless | src/mesh.rs:537-552 | a boneless header reads back from its encoding |
| LegacyMesh.EncodeReadHeader4Boneless | src/mesh.rs:537-552 | a boneless header read re-encodes to its input |
| LegacyMesh.ReadEncodeMesh4 | src/mesh.rs:517-533 | a well-formed version 4 mesh reads back from its encoding |
| LegacyMesh.EncodeReadMesh4 | src/mesh.rs:517-533 | a version 4 mesh read re-encodes to its input |
| LegacyMesh.ReadEncodeMesh4Boneless | src/mesh.rs:555-567 | a well-formed boneless mesh reads back from its encoding |
| LegacyMesh.EncodeReadMesh4Boneless | src/mesh.rs:555-567 | a boneless mesh read re-encodes to its input |
| LegacyMesh.Read4Layouts | src/mesh.rs:586-630 | `read4` decodes an encoded mesh with bones as itself and an encoded boneless mesh as its conversion |
| LegacyMesh.Read4EnvelopesFollowBones | src/mesh.rs:517-630 | whatever `read4` returns has envelopes exactly when it has bones, one per vertex |
| LegacyMesh.BonelessReadsZeroBones | src/mesh.rs:546 | a header whose bone count is 0 never makes the boneless layout fail on its magic |
| LegacyMesh.BonelessBodyEofOnly | src/mesh.rs:555-567 | once the boneless header is read, the rest fails only at end of input |
| LegacyMesh.Decode | src/mesh.rs:41-56 | each result variant comes from exactly its tags; any other 12 bytes, 5.00 included, give `UnknownVersion` carrying exactly those bytes; the 1.00 tag gives exactly the 1.00 reader's result (V flipped, positions halved, count checked) and the 1.01 tag the 1.01 reader's (V flipped, count checked); under a binary tag the result is that layout's read followed by its fix-up |
| LegacyMesh.Read | src/mesh.rs:41-56 | the dispatch with its in-place fix-ups computes the decoding |
| LegacyMesh.RevisionTags | src/mesh.rs:48-51 | an encoded revision 3.00/3.01/4.00/4.01 begins with its version tag |
| LegacyMesh.DecodeText | src/mesh.rs:44-46 | a text file whose first line starts with `version 1.00` or `version 1.01`, followed by a decimal face count line and a line of bracketed groups, decodes through `read` to those vertices flipped (and, for 1.00, halved) when there are 3 per face, and to `VertexCount` otherwise |
| LegacyMesh.DecodeMeshes2 | src/mesh.rs:47 | an encoded version 2 mesh of either layout decodes to the fixed mesh |
| LegacyMesh.DecodeMeshes3 | src/mesh.rs:48-49 | an encoded version 3 mesh of either layout decodes to the fixed mesh |
| LegacyMesh.Head4Tag | src/mesh.rs:50-51 | an encoded version 4 header begins with its version tag |
| LegacyMesh.DecodeMeshes4 | src/mesh.rs:50-51 | an encoded version 4 mesh, with or without bones, decodes to the fixed mesh |
| RbxMesh.Revision1Of | rbx_mesh/src/mesh.rs:135-140 | the first line is accepted exactly when it trims to `version 1.00` or `version 1.01`, recording which; otherwise `Header` |
| RbxMesh.Check1 | rbx_mesh/src/mesh.rs:108-115 | succeeds exactly when there are 3 vertices per face, returning the mesh unchanged, and otherwise fails with `VertexCount` |
| RbxMesh.Decoded1 | rbx_mesh/src/mesh.rs:133-195 | a decoded text mesh has a first line whose revision it records, and its face count is the `u32` on its second line |
| RbxMesh.Decoded1OfText | rbx_mesh/src/mesh.rs:133-195 | a first line naming a revision, a decimal face count line and a line of bracketed groups decode to that revision, that face count and the vertices the groups spell |
| RbxMesh.DecodedFixedOfText | rbx_mesh/src/mesh.rs:117-131 | the same lines through 1.00 and 1.01 give the vertices flipped (and, for 1.00, halved) when there are 3 per face, and `VertexCount` otherwise |
| RbxMesh.HeaderCheckedFirst | rbx_mesh/src/mesh.rs:135-140 | a bad first line fails with `Header` whatever follows |
| RbxMesh.Read1 | rbx_mesh/src/mesh.rs:133-195 | the line-by-line reader computes the text decoding |
| RbxMesh.Decoded100 | rbx_mesh/src/mesh.rs:117-124 | a mesh that comes out has exactly 3 vertices per face, and no error is an unknown version |
| RbxMesh.Decoded100Fixup | rbx_mesh/src/mesh.rs:117-124 | a text read error is returned as is; otherwise the result is the decoded mesh with texture V flipped and positions halved when it has 3 vertices per face, and `VertexCount` when it does not |
| RbxMesh.Decoded101 | rbx_mesh/src/mesh.rs:126-131 | a mesh that comes out has exactly 3 vertices per face, and no error is an unknown version |
| RbxMesh.Decoded101Fixup | rbx_mesh/src/mesh.rs:126-131 | a text read error is returned as is; otherwise the result is the decoded mesh with texture V flipped when it has 3 vertices per face, and `VertexCount` when it does not |
| RbxMesh.Read100 | rbx_mesh/src/mesh.rs:117-124 | read, flip, halve, then check, as the 1.00 decoding states |
| RbxMesh.Read101 | rbx_mesh/src/mesh.rs:126-131 | read, flip, then check, as the 1.01 decoding states |
| RbxMesh.ReadSizeOfVertex2 | rbx_mesh/src/mesh.rs:204-209 | byte 36 is `Truncated` and byte 40 is `Full`; any other byte, or no byte at all, fails with `NoVariantMatch` |
| RbxMesh.EncodeSizeOfVertex2 | rbx_mesh/src/mesh.rs:204-209 | the vertex size is one byte |
| RbxMesh.SizeOfVertex2Codec | rbx_mesh/src/mesh.rs:204-209 | the vertex size reads back from its encoding and re-encodes to its input |
| RbxMesh.EncodeRevision2 | rbx_mesh/src/mesh.rs:198-201 | the version 2 revision is 4 bytes |
| RbxMesh.Revision2Codec | rbx_mesh/src/mesh.rs:198-201 | the version 2 revision reads back from its encoding and re-encodes to its input |
| RbxMesh.EncodeHeader2 | rbx_mesh/src/mesh.rs:212-222 | a version 2 header with its version line is 25 bytes |
| RbxMesh.ReadMesh2 | rbx_mesh/src/mesh.rs:248-256 | the declared vertex size fills exactly one of the two vertex vectors with `vertex_count` entries and leaves the other empty; `face_count` faces |
| RbxMesh.Fix2 | rbx_mesh/src/mesh.rs:259-266 | only the full vertices change, to their fixed tangents; truncated vertices, faces and header are kept |
| RbxMesh.ReadEncodeHeader2 | rbx_mesh/src/mesh.rs:212-222 | a version 2 header reads back from its encoding |
| RbxMesh.EncodeReadHeader2 | rbx_mesh/src/mesh.rs:212-222 | a version 2 header read re-encodes to its input |
| RbxMesh.ReadEncodeMesh2 | rbx_mesh/src/mesh.rs:248-256 | a well-formed version 2 mesh reads back from its encoding |
| RbxMesh.EncodeReadMesh2 | rbx_mesh/src/mesh.rs:248-256 | a version 2 mesh read re-encodes to its input |
| RbxMesh.EncodeHeader3 | rbx_mesh/src/mesh.rs:289-301 | a version 3 header with its version line is 29 bytes |
| RbxMesh.ReadMesh3 | rbx_mesh/src/mesh.rs:308-318 | as version 2, plus `lod_count` LODs |
| RbxMesh.Fix3 | rbx_mesh/src/mesh.rs:321-328 | only the full vertices change, to their fixed tangents |
| RbxMesh.ReadEncodeHeader3 | rbx_mesh/src/mesh.rs:289-301 | a version 3 header reads back from its encoding |
| RbxMesh.EncodeReadHeader3 | rbx_mesh/src/mesh.rs:289-301 | a version 3 header read re-encodes to its input |
| RbxMesh.ReadEncodeMesh3 | rbx_mesh/src/mesh.rs:308-318 | a well-formed version 3 mesh reads back from its encoding |
| RbxMesh.EncodeReadMesh3 | rbx_mesh/src/mesh.rs:308-318 | a version 3 mesh read re-encodes to its input |
| RbxMesh.ReadSkinned | rbx_mesh/src/mesh.rs:433-443 | the body of a version 4/5 mesh has every vector at its declared length, with envelopes only when there are bones |
| RbxMesh.ReadEncodeSkinned | rbx_mesh/src/mesh.rs:433-443 | a body of the declared sizes reads back from its encoding |
| RbxMesh.EncodeReadSkinned | rbx_mesh/src/mesh.rs:433-443 | a body read re-encodes to its input |
| RbxMesh.ReadMesh4 | rbx_mesh/src/mesh.rs:429-445 | a decoded mesh has `vertex_count` envelopes when it has bones and none otherwise, and bones, bone names and subsets at their declared lengths |
| RbxMesh.Fix4 | rbx_mesh/src/mesh.rs:448-455 | only the vertices change, to their fixed tangents |
| RbxMesh.ReadEncodeMesh4 | rbx_mesh/src/mesh.rs:429-445 | a well-formed version 4 mesh reads back from its encoding |
| RbxMesh.EncodeReadMesh4 | rbx_mesh/src/mesh.rs:429-445 | a version 4 mesh read re-encodes to its input |
| RbxMesh.ReadFacsFormat5 | rbx_mesh/src/mesh.rs:469-472 | the FACS format is read exactly when the `u32` is 1; any other value fails with `NoVariantMatch` |
| RbxMesh.EncodeFacsFormat5 | rbx_mesh/src/mesh.rs:469-472 | the FACS format is 4 bytes |
| RbxMesh.EncodeHeader5Counts | rbx_mesh/src/mesh.rs:478-482 | the counts of a version 5 header are 14 bytes |
| RbxMesh.EncodeHeader5Facs | rbx_mesh/src/mesh.rs:487-488 | the FACS fields of a version 5 header are 8 bytes |
| RbxMesh.EncodeHeader5 | rbx_mesh/src/mesh.rs:475-489 | a version 5 header with its version line is 45 bytes |
| RbxMesh.ReadMesh5 | rbx_mesh/src/mesh.rs:551-568 | as version 4, and the FACS block is well formed |
| RbxMesh.Fix5 | rbx_mesh/src/mesh.rs:571-578 | only the vertices change, to their fixed tangents |
| RbxMesh.Header5PartsCodec | rbx_mesh/src/mesh.rs:475-489 | the counts and FACS fields of a version 5 header read back from their encodings |
| RbxMesh.Header5CountsRead | rbx_mesh/src/mesh.rs:478-482 | the counts of a version 5 header re-encode to their input |
| RbxMesh.Header5FacsRead | rbx_mesh/src/mesh.rs:487-488 | the FACS fields of a version 5 header re-encode to their input |
| RbxMesh.ReadEncodeHeader5 | rbx_mesh/src/mesh.rs:475-489 | a version 5 header reads back from its encoding |
| RbxMesh.EncodeReadHeader5 | rbx_mesh/src/mesh.rs:475-489 | a version 5 header read re-encodes to its input |
| RbxMesh.ReadEncodeMesh5 | rbx_mesh/src/mesh.rs:551-568 | a well-formed version 5 mesh reads back from its encoding |
| RbxMesh.EncodeReadMesh5 | rbx_mesh/src/mesh.rs:551-568 | a version 5 mesh read re-encodes to its input |
| RbxMesh.HeaderSizes | rbx_mesh/src/mesh.rs:212-489 | after the 13-byte version line each header occupies exactly the size it declares (12, 16, 24, 32); the vertex, face and LOD sizes it declares are the encoded record widths |
| RbxMesh.HeaderTags | rbx_mesh/src/mesh.rs:43-55 | every encoded header begins with the tag of its version |
| RbxMesh.Decode | rbx_mesh/src/mesh.rs:40-56 | each result variant comes from exactly its tags, 5.00 included; any other 12 bytes give `UnknownVersion` carrying exactly those bytes; the 1.00 tag gives exactly the 1.00 reader's result (V flipped, positions halved, count checked) and the 1.01 tag the 1.01 reader's (V flipped, count checked); under a binary tag the result is that layout's read followed by its fix-up |
| RbxMesh.Read | rbx_mesh/src/mesh.rs:40-56 | the dispatch with its in-place fix-ups computes the decoding |
| RbxMesh.DecodeText | rbx_mesh/src/mesh.rs:43-45 | a text file whose first line starts with `version 1.00` or `version 1.01` and names a revision, followed by a decimal face count line and a line of bracketed groups, decodes through `read` to that revision, face count and the vertices flipped (and, for 1.00, halved) when there are 3 per face, and to `VertexCount` otherwise |
| RbxMesh.DecodeMeshes | rbx_mesh/src/mesh.rs:40-56 | every well-formed encoded mesh of versions 2 to 5 decodes to its own variant holding the fixed mesh |
| RbxFacs.MatrixCount | rbx_mesh/src/mesh.rs:493-510 | the element count is `x*y` in 32 bits: exact when it fits, otherwise wrapped |
| RbxFacs.ReadRaw | rbx_mesh/src/mesh.rs:493-500 | a raw matrix is read only after tag 1 and holds `x*y` floats |
| RbxFacs.ReadQuantized | rbx_mesh/src/mesh.rs:501-510 | a quantized matrix is read only after tag 2 and holds `x*y` `u16`s |
| RbxFacs.ReadQuantizedMatrix | rbx_mesh/src/mesh.rs:493-510 | the variant read is exactly the one its tag names; failure is `NoVariantMatch` |
| RbxFacs.UnknownMatrixTag | rbx_mesh/src/mesh.rs:493-510 | any other tag fails with `NoVariantMatch` |
| RbxFacs.ReadEncodeQuantizedMatrix | rbx_mesh/src/mesh.rs:493-510 | a well-formed matrix reads back from its encoding |
| RbxFacs.EncodeReadQuantizedMatrix | rbx_mesh/src/mesh.rs:493-510 | a matrix read re-encodes to its input |
| RbxFacs.ReadQuantizedTransforms | rbx_mesh/src/mesh.rs:513-520 | the six matrices read are well formed |
| RbxFacs.ReadEncodeQuantizedTransforms | rbx_mesh/src/mesh.rs:513-520 | well-formed transforms read back from their encoding |
| RbxFacs.EncodeReadQuantizedTransforms | rbx_mesh/src/mesh.rs:513-520 | transforms read re-encode to their input |
| RbxFacs.EncodeTwoPose | rbx_mesh/src/mesh.rs:526 | a two-pose corrective is 4 bytes |
| RbxFacs.EncodeThreePose | rbx_mesh/src/mesh.rs:529 | a three-pose corrective is 6 bytes |
| RbxFacs.PoseCodecs | rbx_mesh/src/mesh.rs:523-529 | both correctives read back from their encodings and re-encode to their input |
| RbxFacs.EncodeFacsLengths | rbx_mesh/src/mesh.rs:533-537 | the FACS byte lengths are 24 bytes |
| RbxFacs.ReadFacs | rbx_mesh/src/mesh.rs:532-548 | a decoded FACS block has names, controls, transforms and correctives at the counts its lengths declare |
| RbxFacs.ReadFacsBody | rbx_mesh/src/mesh.rs:538-547 | the body read after the lengths is well formed and has exactly those lengths |
| RbxFacs.ReadEncodeFacsLengths | rbx_mesh/src/mesh.rs:533-537 | the lengths read back from their encoding |
| RbxFacs.EncodeReadFacsLengths | rbx_mesh/src/mesh.rs:533-537 | the lengths re-encode to their input |
| RbxFacs.ReadEncodeFacs | rbx_mesh/src/mesh.rs:532-548 | a well-formed FACS block reads back from its encoding |
| RbxFacs.ReadEncodeFacsBody | rbx_mesh/src/mesh.rs:538-547 | a well-formed FACS body reads back from its encoding under its own lengths |
| RbxFacs.EncodeReadFacs | rbx_mesh/src/mesh.rs:532-548 | a FACS block read re-encodes to its input |
| RbxFacs.EncodeReadFacsBody | rbx_mesh/src/mesh.rs:538-547 | a FACS body read re-encodes to its input |
| RbxFacs.CorrectiveCounts | rbx_mesh/src/mesh.rs:544-547 | the corrective counts are the byte lengths divided by 4 and by 6, rounded down |
| ByteXor.XorInvolution | src/mesh_data.rs:22 | XOR with the same key byte twice restores the byte |
| MeshDataFormat.Unmasked | src/mesh_data.rs:21-23 | unmasking keeps the length; byte `i` is XORed with pad byte `i mod 31` |
| MeshDataFormat.UnmaskTwice | src/mesh_data.rs:21-23 | unmasking twice returns the original bytes |
| MeshDataFormat.PadRestarts | src/mesh_data.rs:18-22 | the pad repeats every 31 bytes |
| MeshDataFormat.UnmaskSplit | src/mesh_data.rs:21-23 | unmasking a multiple of 31 bytes and then the rest is unmasking the whole |
| MeshDataFormat.UnmaskPrefix | src/mesh_data.rs:21-23 | unmasking a prefix is the prefix of the unmasked bytes |
| MeshDataFormat.Decode | src/mesh_data.rs:17-25 | the in-place pass over a fresh buffer leaves exactly the unmasked bytes |
| MeshDataFormat.EncodeHeader | src/mesh_data.rs:35-40 | the header is 40 bytes |
| MeshDataFormat.ReadEncodeHeader | src/mesh_data.rs:35-40 | a header reads back from its encoding |
| MeshDataFormat.EncodeReadHeader | src/mesh_data.rs:35-40 | a header read re-encodes to its input |
| MeshDataFormat.ModelDataLengthValue | src/mesh_data.rs:73 | the model-data-length magic `84u32` is written as the little-endian bytes 84, 0, 0, 0 |
| MeshDataFormat.ModelSize | src/mesh_data.rs:44-53 | a model record encodes to 84 bytes |
| MeshDataFormat.ModelCodec | src/mesh_data.rs:44-53 | a model reads back from its encoding and re-encodes to its input |
| MeshDataFormat.ReadIndices | src/mesh_data.rs:61-65 | the index list has exactly `count` entries |
| MeshDataFormat.IndicesCodec | src/mesh_data.rs:61-65 | a well-formed index list reads back from its encoding and re-encodes to its input |
| MeshDataFormat.ReadMeshData | src/mesh_data.rs:69-77 | a decoded record begins with `CSGMDL` and has `model_count` models and a well-formed index list |
| MeshDataFormat.MeshDataSize | src/mesh_data.rs:69-77 | an encoded record is magic, 40-byte header, the constant, 84 bytes per model and the counted index list |
| MeshDataFormat.ReadEncodeMeshData | src/mesh_data.rs:69-77 | a well-formed record reads back from its encoding |
| MeshDataFormat.EncodeReadMeshData | src/mesh_data.rs:69-77 | a record read re-encodes to its input |
| MeshDataFormat.UnmaskThenRead | src/mesh_data.rs:79-93 | a masked encoding of a well-formed record, once unmasked, is read in full with nothing left over |
| PhysicsDataFormat.ReadPhysicsInfo | src/physics_data.rs:11-16 | physics info is ten floats, 40 bytes |
| PhysicsDataFormat.EncodePhysicsInfo | src/physics_data.rs:11-16 | physics info encodes to 40 bytes |
| PhysicsDataFormat.PhysicsInfoCodec | src/physics_data.rs:11-16 | physics info reads back from its encoding and re-encodes to its input |
| PhysicsDataFormat.ReadMysteryInfo | src/physics_data.rs:20-26 | the record is 40 bytes, with 16 zero bytes after the first word and, after the second, 14 zero bytes then `80 3F` |
| PhysicsDataFormat.EncodeMysteryInfo | src/physics_data.rs:20-26 | the record encodes to 40 bytes |
| PhysicsDataFormat.MysteryInfoCodec | src/physics_data.rs:20-26 | the record reads back from its encoding and re-encodes to its input |
| PhysicsDataFormat.ReadPoint | src/physics_data.rs:40 | a vertex is 12 bytes |
| PhysicsDataFormat.ReadTriangle | src/physics_data.rs:43 | a face is 12 bytes |
| PhysicsDataFormat.RecordWidths | src/physics_data.rs:39-43 | every vertex and face read consumes exactly 12 bytes |
| PhysicsDataFormat.PointCodecs | src/physics_data.rs:39-43 | vertices and faces read back from their encodings and re-encode to their input |
| PhysicsDataFormat.ReadMesh | src/physics_data.rs:34-44 | a decoded mesh has `vertex_count/3` vertices and `face_count/3` faces (rounded down), and its size is consumed exactly |
| PhysicsDataFormat.ReadEncodeMesh | src/physics_data.rs:34-44 | a well-formed mesh reads back from its encoding |
| PhysicsDataFormat.EncodeReadMesh | src/physics_data.rs:34-44 | a mesh read re-encodes to its input |
| PhysicsDataFormat.MeshLength | src/physics_data.rs:34-44 | an encoded mesh is exactly its size |
| PhysicsDataFormat.ReadPhysicsInfoMesh | src/physics_data.rs:48-51 | the mesh after the physics info is well formed |
| PhysicsDataFormat.ReadMeshes | src/physics_data.rs:55-58 | the list stops only where the next mesh read hits end of input; any other error fails the list |
| PhysicsDataFormat.ReadEncodeMeshes | src/physics_data.rs:55-58 | well-formed meshes followed by bytes that run out mid-mesh read back as exactly those meshes |
| PhysicsDataFormat.EncodeReadMeshes | src/physics_data.rs:55-58 | a list read re-encodes to its input |
| PhysicsDataFormat.TrailingBytesLeftUnread | src/physics_data.rs:56 | a stray byte after the last mesh ends the list and is left unread |
| PhysicsDataFormat.ReadCollisionData | src/physics_data.rs:62-69 | `\0\0\0\0BLOCK` gives `Block` and only it does; `Meshes` and `PhysicsInfoMesh` come only from tags 3 and 6; failure is `NoVariantMatch` |
| PhysicsDataFormat.UnknownCollisionTag | src/physics_data.rs:62-69 | any other first four bytes fail with `NoVariantMatch` |
| PhysicsDataFormat.ReadEncodeCollisionData | src/physics_data.rs:62-69 | every well-formed variant reads back from its encoding (a mesh list at the end of the input) |
| PhysicsDataFormat.EncodeReadCollisionData | src/physics_data.rs:62-69 | a variant read re-encodes to its input |
| PhysicsDataFormat.ReadPhysicsData | src/physics_data.rs:73-76 | a decode succeeds only on input starting with `CSGPHS` |
| PhysicsDataFormat.ReadEncodePhysicsData | src/physics_data.rs:73-76 | a well-formed file reads back from its encoding in full |
| PhysicsDataFormat.EncodeReadPhysicsData | src/physics_data.rs:73-76 | a file read re-encodes to its input |

## Left out

- I/O: `BufReader`, `fill_buf`, `Read`/`Seek`, `read_to_end` and file handles. Each reader takes the whole input as a byte sequence, so the `Io` error from `read_to_end` and `fill_buf` is not modelled.
- RbxMesh.Decode, LegacyMesh.Decode: `&buf[0..12]` panics on input shorter than 12 bytes. This is modelled as the precondition `|input| >= 12`.
- Float arithmetic and parsing: `fix_100`'s `* 0.5`, `fix1`'s `1.0 - v` and `str::parse::<f32>` are the parameters of `TextOps`. The model states which field each changes, not the values.
- UTF-8 decoding of text lines is a parameter. A line that does not decode gives `Io`, as `lines()` reports it.
- MeshText.BracketGroups: the `\[(.*?)\]` regex is replaced by a scanner for bracket-delimited groups. It follows the lazy match on any line: a capture runs from a `[` to the first `]` after it, and `.` does not cross a line break, so a `[` with no `]` before the next line break starts no capture. The `Regex` error, for a capture group that is missing, cannot arise and is not produced.
- `binrw` errors keep only their kind (`UnexpectedEof`, `BadMagic`, `NoVariantMatch`), not their positions or backtraces. The older snapshot retries only on a `BadMagic` wrapped in a backtrace frame. A field magic inside a derived struct always has that wrapping, so the model retries on every `BadMagic`.
- For a data-carrying enum (`QuantizedMatrix`, `CollisionData`), the model reports `NoVariantMatch` where `binrw` also says which variants failed and why. Unit enums keep their error kinds. Those with one magic per variant (the revision tags and the `u8` magic `SizeOfVertex2`) fail with `NoVariantMatch` whenever no magic matches, short input included. Those read through a `repr` (`LodType4` as `u16`, `FacsFormat5` as `u32`) pass a short read through as `UnexpectedEof`.
- RbxFacs.MatrixCount: `x*y` in `u32` panics on overflow in a debug build. The model uses the release build's wrap-around.
- PhysicsDataFormat.ReadMeshes: `until_eof` ends the list at the first read that runs out of input and leaves those bytes unread. So a successful decode consumes everything only when the input ends on a record boundary. This is proved for encoded lists (`ReadEncodePhysicsData`), and `TrailingBytesLeftUnread` shows the other case. The sample-file full-consumption tests are covered only for encodings of well-formed records.
- The lerp values of quantized matrices are not evaluated; only their layout is modelled.
- `src/lib.rs` (the wrapper over `mesh::convert` and the `obj` crate) is not part of this model.
- The commented-out `Decoder` in `src/mesh_data.rs` and the commented-out versions 6 and 7 are not modelled.
- Behaviour that only the tests of other snapshots use is not modelled: versioned physics reads, `CSGK`, physics revisions, and `mesh_data.vertices`/`normal_id`.
- LegacyMesh.Fix2, Fix3, Fix4 and the fix methods of RbxMesh receive and return the mesh value, with the vertex array fixed in place inside. Aliasing of the mesh itself is not modelled.

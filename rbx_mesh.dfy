/**
 * The newer mesh decoder (versions 1.00 to 5.00).
 *
 * Version 1 is text, as in the older decoder, but the header line is checked
 * and every number is trimmed before it is parsed. Versions 2 and 3 declare
 * their vertex record size in the header (36 or 40 bytes) and fill exactly
 * one of two vertex vectors; nothing is retried. Versions 4 and 5 carry
 * skinning envelopes only when the mesh has bones, and version 5 ends with a
 * facial animation block.
 */
module RbxMesh {
  import opened Wire
  import opened MeshRecords
  import opened MeshText
  import opened RbxFacs
  import LegacyMesh

  // ============================================================= version 1

  datatype Revision1 = Version100 | Version101
  datatype Header1 = Header1(revision: Revision1, faceCount: U32)
  datatype Mesh1 = Mesh1(header: Header1, vertices: seq<Vertex1>)

  /** The header line, trimmed, must name one of the two text revisions. */
  function Revision1Of(line: string): (r: Result<Revision1>)
    ensures r.Success? <==> Trim(line) == "version 1.00" || Trim(line) == "version 1.01"
    ensures r == Success(Version100) <==> Trim(line) == "version 1.00"
    ensures r == Success(Version101) <==> Trim(line) == "version 1.01"
    ensures r.Failure? ==> r.error == Header
  {
    var t := Trim(line);
    assert "version 1.00"[11] != "version 1.01"[11];
    if t == "version 1.00" then Success(Version100)
    else if t == "version 1.01" then Success(Version101)
    else Failure(Header)
  }

  /** Float parsing after trimming the piece, as every number here is trimmed. */
  function TrimmedParse(parse: string -> Option<F32>): string -> Option<F32>
  {
    s => parse(Trim(s))
  }

  /** A text mesh is accepted only when it has three vertices per face, and is then returned unchanged. */
  function Check1(mesh: Mesh1): (r: Result<Mesh1>)
    ensures r.Success? <==> |mesh.vertices| == 3 * mesh.header.faceCount
    ensures r.Success? ==> r.value == mesh
    ensures r.Failure? ==> r.error == VertexCount
  {
    if 3 * mesh.header.faceCount == |mesh.vertices| then Success(mesh) else Failure(VertexCount)
  }

  /**
   * The text layout: a header line naming the revision, a line holding the
   * face count, and the line of vertex groups. A success names the revision
   * that the trimmed header line spells.
   */
  function Decoded1(data: seq<Byte>, ops: TextOps): (r: Result<Mesh1>)
    ensures r.Failure? ==> !r.error.UnknownVersion?
    ensures r.Success? ==> NextLine(data, ops.utf8).Success?
    ensures r.Success? ==> NextU32(NextLine(data, ops.utf8).value.1, ops.utf8) == Success(r.value.header.faceCount)
    ensures r.Success? ==> Revision1Of(NextLine(data, ops.utf8).value.0) == Success(r.value.header.revision)
  {
    var version :- NextLine(data, ops.utf8);
    var revision :- Revision1Of(version.0);
    var faceCount :- NextU32(version.1, ops.utf8);
    var line :- NextLine(Remaining(version.1), ops.utf8);
    var vertices :- ParseVertices(BracketGroups(line.0), TrimmedParse(ops.parseF32));
    Success(Mesh1(Header1(revision, faceCount), vertices))
  }

  /** The header is checked before anything after it is read: a bad header line is a header error whatever follows. */
  lemma HeaderCheckedFirst(data: seq<Byte>, ops: TextOps)
    requires NextLine(data, ops.utf8).Success?
    requires Revision1Of(NextLine(data, ops.utf8).value.0).Failure?
    ensures Decoded1(data, ops) == Failure(Header)
  {
  }

  /** `read1`: three lines off a line reader. */
  method Read1(data: seq<Byte>, ops: TextOps) returns (r: Result<Mesh1>)
    ensures r == Decoded1(data, ops)
  {
    var lines := new LineMachine(data, ops.utf8);
    var version := lines.ReadLine();
    if version.Failure? {
      return Failure(version.error);
    }
    var revision := Revision1Of(version.value);
    if revision.Failure? {
      return Failure(revision.error);
    }
    var faceCount := lines.ReadU32();
    if faceCount.Failure? {
      return Failure(faceCount.error);
    }
    var line := lines.ReadLine();
    if line.Failure? {
      return Failure(line.error);
    }
    var vertices := ParseVertices(BracketGroups(line.value), TrimmedParse(ops.parseF32));
    if vertices.Failure? {
      return Failure(vertices.error);
    }
    return Success(Mesh1(Header1(revision.value, faceCount.value), vertices.value));
  }

  /** Version 1.00: the texture V coordinate is flipped and positions are halved before the count check. */
  function Decoded100(data: seq<Byte>, ops: TextOps): (r: Result<Mesh1>)
    ensures r.Failure? ==> !r.error.UnknownVersion?
    ensures r.Success? ==> |r.value.vertices| == 3 * r.value.header.faceCount
  {
    var mesh :- Decoded1(data, ops);
    Check1(mesh.(vertices := HalvedPositions(FlippedV(mesh.vertices, ops.oneMinus), ops.half)))
  }

  /** A version 1.00 mesh is the text reading with the texture V coordinate flipped and the
      positions halved, kept only when the count check passes. */
  lemma Decoded100Fixup(data: seq<Byte>, ops: TextOps)
    ensures var d := Decoded1(data, ops);
      d.Failure? ==> Decoded100(data, ops) == Failure(d.error)
    ensures var d := Decoded1(data, ops);
      d.Success? ==> Decoded100(data, ops) == if |d.value.vertices| == 3 * d.value.header.faceCount
                                            then Success(d.value.(vertices := HalvedPositions(FlippedV(d.value.vertices, ops.oneMinus), ops.half)))
                                            else Failure(VertexCount)
  {
  }

  /** Version 1.01: only the texture V coordinate is flipped before the count check. */
  function Decoded101(data: seq<Byte>, ops: TextOps): (r: Result<Mesh1>)
    ensures r.Failure? ==> !r.error.UnknownVersion?
    ensures r.Success? ==> |r.value.vertices| == 3 * r.value.header.faceCount
  {
    var mesh :- Decoded1(data, ops);
    Check1(mesh.(vertices := FlippedV(mesh.vertices, ops.oneMinus)))
  }

  /** A version 1.01 mesh is the text reading with only the texture V coordinate flipped,
      kept only when the count check passes. */
  lemma Decoded101Fixup(data: seq<Byte>, ops: TextOps)
    ensures var d := Decoded1(data, ops);
      d.Failure? ==> Decoded101(data, ops) == Failure(d.error)
    ensures var d := Decoded1(data, ops);
      d.Success? ==> Decoded101(data, ops) == if |d.value.vertices| == 3 * d.value.header.faceCount
                                            then Success(d.value.(vertices := FlippedV(d.value.vertices, ops.oneMinus)))
                                            else Failure(VertexCount)
  {
  }

  /** `read_100`: read, fix the vertex buffer in place, check. */
  method Read100(data: seq<Byte>, ops: TextOps) returns (r: Result<Mesh1>)
    ensures r == Decoded100(data, ops)
  {
    var mesh := Read1(data, ops);
    if mesh.Failure? {
      return Failure(mesh.error);
    }
    var fixed := FixVertexBuffer(mesh.value.vertices, ops, true);
    r := Check1(mesh.value.(vertices := fixed));
  }

  /** `read_101`: read, fix the vertex buffer in place, check. */
  method Read101(data: seq<Byte>, ops: TextOps) returns (r: Result<Mesh1>)
    ensures r == Decoded101(data, ops)
  {
    var mesh := Read1(data, ops);
    if mesh.Failure? {
      return Failure(mesh.error);
    }
    var fixed := FixVertexBuffer(mesh.value.vertices, ops, false);
    r := Check1(mesh.value.(vertices := fixed));
  }
  /**
   * A text mesh read back from its lines: a first line naming the revision, a line
   * holding the face count in decimal and a line of bracketed groups decode to
   * that face count and to the vertices the groups spell, three groups each.
   */
  lemma Decoded1OfText(version: seq<Byte>, count: seq<Byte>, vertexLine: seq<Byte>, rest: seq<Byte>, ops: TextOps,
    rev: Revision1, n: U32, groups: seq<string>, vs: seq<Vertex1>)
    requires PlainLine(version) && PlainLine(count) && PlainLine(vertexLine)
    requires ops.utf8(version).Some? && Revision1Of(ops.utf8(version).value) == Success(rev)
    requires ops.utf8(count) == Some(Decimal(n)) && ops.utf8(vertexLine) == Some(Bracketed(groups))
    requires forall i | 0 <= i < |groups| :: NoStops(groups[i])
    requires ParseVertices(groups, TrimmedParse(ops.parseF32)) == Success(vs)
    ensures Decoded1(version + [Newline] + count + [Newline] + vertexLine + [Newline] + rest, ops) == Success(Mesh1(Header1(rev, n), vs))
  {
    var afterCount := vertexLine + [Newline] + rest;
    var afterVersion := count + [Newline] + afterCount;
    var data := version + [Newline] + count + [Newline] + vertexLine + [Newline] + rest;
    ThreeLines(version, count, vertexLine, rest);
    NextLineOfLine(version, afterVersion, ops.utf8);
    NextLineOfLine(count, afterCount, ops.utf8);
    NextU32OfLine(count, afterCount, ops.utf8, n);
    NextLineOfLine(vertexLine, rest, ops.utf8);
    BracketGroupsOfBracketed(groups);
    Decoded1Steps(data, ops, ops.utf8(version).value, afterVersion, rev, n, Bracketed(groups), rest, vs);
  }

  /** Decoded1 read step by step: each of its reads succeeding gives the mesh they spell. */
  lemma Decoded1Steps(data: seq<Byte>, ops: TextOps, header: string, afterHeader: seq<Byte>, rev: Revision1,
    n: U32, vertexText: string, rest: seq<Byte>, vs: seq<Vertex1>)
    requires NextLine(data, ops.utf8) == Success((header, afterHeader))
    requires Revision1Of(header) == Success(rev)
    requires NextU32(afterHeader, ops.utf8) == Success(n)
    requires NextLine(Remaining(afterHeader), ops.utf8) == Success((vertexText, rest))
    requires ParseVertices(BracketGroups(vertexText), TrimmedParse(ops.parseF32)) == Success(vs)
    ensures Decoded1(data, ops) == Success(Mesh1(Header1(rev, n), vs))
  {
  }

  /**
   * The same lines through versions 1.00 and 1.01: with three vertices per
   * face the mesh comes out with its texture V flipped (and, for 1.00, its
   * positions halved); otherwise the vertex count is the error.
   */
  lemma DecodedFixedOfText(version: seq<Byte>, count: seq<Byte>, vertexLine: seq<Byte>, rest: seq<Byte>, ops: TextOps,
    rev: Revision1, n: U32, groups: seq<string>, vs: seq<Vertex1>)
    requires PlainLine(version) && PlainLine(count) && PlainLine(vertexLine)
    requires ops.utf8(version).Some? && Revision1Of(ops.utf8(version).value) == Success(rev)
    requires ops.utf8(count) == Some(Decimal(n)) && ops.utf8(vertexLine) == Some(Bracketed(groups))
    requires forall i | 0 <= i < |groups| :: NoStops(groups[i])
    requires ParseVertices(groups, TrimmedParse(ops.parseF32)) == Success(vs)
    ensures Decoded100(version + [Newline] + count + [Newline] + vertexLine + [Newline] + rest, ops)
      == if |vs| == 3 * n then Success(Mesh1(Header1(rev, n), HalvedPositions(FlippedV(vs, ops.oneMinus), ops.half)))
         else Failure(VertexCount)
    ensures Decoded101(version + [Newline] + count + [Newline] + vertexLine + [Newline] + rest, ops)
      == if |vs| == 3 * n then Success(Mesh1(Header1(rev, n), FlippedV(vs, ops.oneMinus)))
         else Failure(VertexCount)
  {
    var data := version + [Newline] + count + [Newline] + vertexLine + [Newline] + rest;
    Decoded1OfText(version, count, vertexLine, rest, ops, rev, n, groups, vs);
    Decoded100Fixup(data, ops);
    Decoded101Fixup(data, ops);
  }


  // ===================================================== vertex record size

  /** The vertex record size a version 2 or 3 header declares. */
  datatype SizeOfVertex2 = Truncated | Full

  function VertexSizeByte(z: SizeOfVertex2): Byte
  {
    match z
    case Truncated => TruncatedVertexSize
    case Full => FullVertexSize
  }

  /**
   * The size byte, a unit enum with one magic byte per variant: 36 is
   * truncated, 40 is full; any other byte, or no byte at all, matches no
   * variant.
   */
  function ReadSizeOfVertex2(s: seq<Byte>): (r: Parse<SizeOfVertex2>)
    ensures r.Ok? <==> |s| >= 1 && (s[0] == 36 || s[0] == 40)
    ensures r.Ok? ==> VertexSizeByte(r.value) == s[0] && r.rest == s[1..]
    ensures r.Fail? ==> r.error == NoVariantMatch
  {
    if |s| < 1 then Fail(NoVariantMatch)
    else if s[0] == 36 then Ok(Truncated, s[1..])
    else if s[0] == 40 then Ok(Full, s[1..])
    else Fail(NoVariantMatch)
  }

  function EncodeSizeOfVertex2(z: SizeOfVertex2, tail: seq<Byte>): (r: seq<Byte>)
    ensures |r| == 1 + |tail|
  {
    [VertexSizeByte(z)] + tail
  }

  lemma SizeOfVertex2Codec(z: SizeOfVertex2, tail: seq<Byte>, s: seq<Byte>)
    ensures ReadSizeOfVertex2(EncodeSizeOfVertex2(z, tail)) == Ok(z, tail)
    ensures ReadSizeOfVertex2(s).Ok? ==> EncodeSizeOfVertex2(ReadSizeOfVertex2(s).value, ReadSizeOfVertex2(s).rest) == s
  {
    if |s| >= 1 {
      assert [s[0]] + s[1..] == s;
    }
  }

  /** How many records each vertex vector holds: all of them in the declared one, none in the other. */
  function FullCount(z: SizeOfVertex2, n: U32): nat
  {
    if z == Full then n else 0
  }

  function TruncatedCount(z: SizeOfVertex2, n: U32): nat
  {
    if z == Truncated then n else 0
  }

  // ============================================================= version 2

  datatype Revision2 = Version200

  function ReadRevision2(s: seq<Byte>): Parse<Revision2>
  {
    ReadTag(s, [(Ascii("2.00"), Version200)])
  }

  function EncodeRevision2(r: Revision2, tail: seq<Byte>): (e: seq<Byte>)
    ensures |e| == 4 + |tail|
  {
    Ascii("2.00") + tail
  }

  lemma Revision2Codec(r: Revision2, tail: seq<Byte>, s: seq<Byte>)
    ensures ReadRevision2(EncodeRevision2(r, tail)) == Ok(r, tail)
    ensures ReadRevision2(s).Ok? ==> EncodeRevision2(ReadRevision2(s).value, ReadRevision2(s).rest) == s
  {
    assert EncodeRevision2(r, tail)[..4] == Ascii("2.00");
    assert EncodeRevision2(r, tail)[4..] == tail;
    if |s| >= 4 {
      assert s[..4] + s[4..] == s;
    }
  }

  /** The constants around the vertex size: the line end and header size 12, then the face size 12. */
  const Header2Sizes: seq<Byte> := [0x0A, 0x0C, 0x00]
  const Header2FaceSize: seq<Byte> := [0x0C]

  datatype Header2 = Header2(revision: Revision2, sizeofVertex: SizeOfVertex2, vertexCount: U32, faceCount: U32)

  function ReadHeader2(s: seq<Byte>): Parse<Header2>
  {
    var m1 :- ReadMagic(s, LegacyMesh.VersionPrefix);
    var rev :- ReadRevision2(m1.rest);
    var m2 :- ReadMagic(rev.rest, Header2Sizes);
    var size :- ReadSizeOfVertex2(m2.rest);
    var m3 :- ReadMagic(size.rest, Header2FaceSize);
    var vc :- ReadU32(m3.rest);
    var fc :- ReadU32(vc.rest);
    Ok(Header2(rev.value, size.value, vc.value, fc.value), fc.rest)
  }

  function EncodeHeader2(h: Header2, tail: seq<Byte>): (r: seq<Byte>)
    ensures |r| == 25 + |tail|
  {
    EncodeMagic(LegacyMesh.VersionPrefix, EncodeRevision2(h.revision, EncodeMagic(Header2Sizes,
      EncodeSizeOfVertex2(h.sizeofVertex, EncodeMagic(Header2FaceSize,
      EncodeU32(h.vertexCount, EncodeU32(h.faceCount, tail)))))))
  }

  /**
   * A version 2 mesh: the header's vertex size decides which of the two
   * vertex vectors is filled; the other stays empty.
   */
  datatype Mesh2 = Mesh2(header: Header2, vertices: seq<Vertex2>, verticesTruncated: seq<Vertex2Truncated>,
    faces: seq<Face2>)
  {
    predicate Wf() {
      && |vertices| == FullCount(header.sizeofVertex, header.vertexCount)
      && |verticesTruncated| == TruncatedCount(header.sizeofVertex, header.vertexCount)
      && |faces| == header.faceCount
    }
  }

  function ReadMesh2(s: seq<Byte>): (r: Parse<Mesh2>)
    ensures r.Ok? ==> r.value.Wf()
  {
    var h :- ReadHeader2(s);
    var vs :- ReadMany(h.rest, FullCount(h.value.sizeofVertex, h.value.vertexCount), ReadVertex2);
    var ts :- ReadMany(vs.rest, TruncatedCount(h.value.sizeofVertex, h.value.vertexCount), ReadVertex2Truncated);
    var fs :- ReadMany(ts.rest, h.value.faceCount, ReadFace2);
    Ok(Mesh2(h.value, vs.value, ts.value, fs.value), fs.rest)
  }

  function EncodeMesh2(m: Mesh2, tail: seq<Byte>): seq<Byte>
  {
    EncodeHeader2(m.header, EncodeMany(m.vertices, EncodeVertex2,
      EncodeMany(m.verticesTruncated, EncodeVertex2Truncated, EncodeMany(m.faces, EncodeFace2, tail))))
  }

  /** `fix2`: the tangent fix-up on the full vertices; the truncated ones are left as they are. */
  method Fix2(mesh: Mesh2) returns (fixed: Mesh2)
    ensures fixed == mesh.(vertices := FixedTangents(mesh.vertices))
  {
    var vertices := FixVertexList(mesh.vertices);
    fixed := mesh.(vertices := vertices);
  }

  lemma ReadEncodeHeader2(h: Header2, tail: seq<Byte>)
    ensures ReadHeader2(EncodeHeader2(h, tail)) == Ok(h, tail)
  {
    var counts := EncodeU32(h.vertexCount, EncodeU32(h.faceCount, tail));
    var afterSize := EncodeMagic(Header2FaceSize, counts);
    var afterRev := EncodeMagic(Header2Sizes, EncodeSizeOfVertex2(h.sizeofVertex, afterSize));
    ReadEncodeMagic(LegacyMesh.VersionPrefix, EncodeRevision2(h.revision, afterRev));
    Revision2Codec(h.revision, afterRev, []);
    ReadEncodeMagic(Header2Sizes, EncodeSizeOfVertex2(h.sizeofVertex, afterSize));
    SizeOfVertex2Codec(h.sizeofVertex, afterSize, []);
    ReadEncodeMagic(Header2FaceSize, counts);
    ReadEncodeU32(h.vertexCount, EncodeU32(h.faceCount, tail));
    ReadEncodeU32(h.faceCount, tail);
  }

  lemma EncodeReadHeader2(s: seq<Byte>)
    requires ReadHeader2(s).Ok?
    ensures EncodeHeader2(ReadHeader2(s).value, ReadHeader2(s).rest) == s
  {
    var m1 := ReadMagic(s, LegacyMesh.VersionPrefix);
    EncodeReadMagic(s, LegacyMesh.VersionPrefix);
    var rev := ReadRevision2(m1.rest);
    Revision2Codec(Version200, [], m1.rest);
    var m2 := ReadMagic(rev.rest, Header2Sizes);
    EncodeReadMagic(rev.rest, Header2Sizes);
    var size := ReadSizeOfVertex2(m2.rest);
    SizeOfVertex2Codec(Full, [], m2.rest);
    var m3 := ReadMagic(size.rest, Header2FaceSize);
    EncodeReadMagic(size.rest, Header2FaceSize);
    var vc := ReadU32(m3.rest);
    EncodeReadU32(m3.rest);
    EncodeReadU32(vc.rest);
  }

  /** A well-formed version 2 mesh, in either vertex size, is read back from its encoding. */
  lemma ReadEncodeMesh2(m: Mesh2, tail: seq<Byte>)
    requires m.Wf()
    ensures ReadMesh2(EncodeMesh2(m, tail)) == Ok(m, tail)
  {
    RecordCodecs();
    var faces := EncodeMany(m.faces, EncodeFace2, tail);
    var truncated := EncodeMany(m.verticesTruncated, EncodeVertex2Truncated, faces);
    var full := EncodeMany(m.vertices, EncodeVertex2, truncated);
    ReadEncodeHeader2(m.header, full);
    ReadEncodeMany(m.vertices, truncated, ReadVertex2, EncodeVertex2);
    ReadEncodeMany(m.verticesTruncated, faces, ReadVertex2Truncated, EncodeVertex2Truncated);
    ReadEncodeMany(m.faces, tail, ReadFace2, EncodeFace2);
  }

  /** A read version 2 mesh re-encodes to exactly the bytes it was read from. */
  lemma EncodeReadMesh2(s: seq<Byte>)
    requires ReadMesh2(s).Ok?
    ensures EncodeMesh2(ReadMesh2(s).value, ReadMesh2(s).rest) == s
  {
    RecordCodecs();
    var h := ReadHeader2(s);
    EncodeReadHeader2(s);
    var z := h.value.sizeofVertex;
    var n := h.value.vertexCount;
    var vs := ReadMany(h.rest, FullCount(z, n), ReadVertex2);
    var ts := ReadMany(vs.rest, TruncatedCount(z, n), ReadVertex2Truncated);
    EncodeReadMany(h.rest, FullCount(z, n), ReadVertex2, EncodeVertex2);
    EncodeReadMany(vs.rest, TruncatedCount(z, n), ReadVertex2Truncated, EncodeVertex2Truncated);
    EncodeReadMany(ts.rest, h.value.faceCount, ReadFace2, EncodeFace2);
  }

  // ============================================================= version 3

  /** The constants around the vertex size: line end and header size 16; face size 12 and lod size 4. */
  const Header3Sizes: seq<Byte> := [0x0A, 0x10, 0x00]
  const Header3RecordSizes: seq<Byte> := [0x0C, 0x04, 0x00]

  datatype Header3 = Header3(revision: Revision3, sizeofVertex: SizeOfVertex2, lodCount: U16, vertexCount: U32,
    faceCount: U32)

  function ReadHeader3(s: seq<Byte>): Parse<Header3>
  {
    var m1 :- ReadMagic(s, LegacyMesh.VersionPrefix);
    var rev :- ReadRevision3(m1.rest);
    var m2 :- ReadMagic(rev.rest, Header3Sizes);
    var size :- ReadSizeOfVertex2(m2.rest);
    var m3 :- ReadMagic(size.rest, Header3RecordSizes);
    var lc :- ReadU16(m3.rest);
    var vc :- ReadU32(lc.rest);
    var fc :- ReadU32(vc.rest);
    Ok(Header3(rev.value, size.value, lc.value, vc.value, fc.value), fc.rest)
  }

  function EncodeHeader3(h: Header3, tail: seq<Byte>): (r: seq<Byte>)
    ensures |r| == 29 + |tail|
  {
    EncodeMagic(LegacyMesh.VersionPrefix, EncodeRevision3(h.revision, EncodeMagic(Header3Sizes,
      EncodeSizeOfVertex2(h.sizeofVertex, EncodeMagic(Header3RecordSizes,
      EncodeU16(h.lodCount, EncodeU32(h.vertexCount, EncodeU32(h.faceCount, tail))))))))
  }

  /** A version 3 mesh: as version 2, with level-of-detail markers after the faces. */
  datatype Mesh3 = Mesh3(header: Header3, vertices: seq<Vertex2>, verticesTruncated: seq<Vertex2Truncated>,
    faces: seq<Face2>, lods: seq<Lod3>)
  {
    predicate Wf() {
      && |vertices| == FullCount(header.sizeofVertex, header.vertexCount)
      && |verticesTruncated| == TruncatedCount(header.sizeofVertex, header.vertexCount)
      && |faces| == header.faceCount
      && |lods| == header.lodCount
    }
  }

  function ReadMesh3(s: seq<Byte>): (r: Parse<Mesh3>)
    ensures r.Ok? ==> r.value.Wf()
  {
    var h :- ReadHeader3(s);
    var vs :- ReadMany(h.rest, FullCount(h.value.sizeofVertex, h.value.vertexCount), ReadVertex2);
    var ts :- ReadMany(vs.rest, TruncatedCount(h.value.sizeofVertex, h.value.vertexCount), ReadVertex2Truncated);
    var fs :- ReadMany(ts.rest, h.value.faceCount, ReadFace2);
    var ls :- ReadMany(fs.rest, h.value.lodCount, ReadLod3);
    Ok(Mesh3(h.value, vs.value, ts.value, fs.value, ls.value), ls.rest)
  }

  function EncodeMesh3(m: Mesh3, tail: seq<Byte>): seq<Byte>
  {
    EncodeHeader3(m.header, EncodeMany(m.vertices, EncodeVertex2,
      EncodeMany(m.verticesTruncated, EncodeVertex2Truncated, EncodeMany(m.faces, EncodeFace2,
      EncodeMany(m.lods, EncodeLod3, tail)))))
  }

  /** `fix3`: the tangent fix-up on the full vertices only. */
  method Fix3(mesh: Mesh3) returns (fixed: Mesh3)
    ensures fixed == mesh.(vertices := FixedTangents(mesh.vertices))
  {
    var vertices := FixVertexList(mesh.vertices);
    fixed := mesh.(vertices := vertices);
  }

  lemma ReadEncodeHeader3(h: Header3, tail: seq<Byte>)
    ensures ReadHeader3(EncodeHeader3(h, tail)) == Ok(h, tail)
  {
    var counts := EncodeU16(h.lodCount, EncodeU32(h.vertexCount, EncodeU32(h.faceCount, tail)));
    var afterSize := EncodeMagic(Header3RecordSizes, counts);
    var afterRev := EncodeMagic(Header3Sizes, EncodeSizeOfVertex2(h.sizeofVertex, afterSize));
    ReadEncodeMagic(LegacyMesh.VersionPrefix, EncodeRevision3(h.revision, afterRev));
    RevisionCodecs(h.revision, Version400, afterRev, []);
    ReadEncodeMagic(Header3Sizes, EncodeSizeOfVertex2(h.sizeofVertex, afterSize));
    SizeOfVertex2Codec(h.sizeofVertex, afterSize, []);
    ReadEncodeMagic(Header3RecordSizes, counts);
    ReadEncodeU16(h.lodCount, EncodeU32(h.vertexCount, EncodeU32(h.faceCount, tail)));
    ReadEncodeU32(h.vertexCount, EncodeU32(h.faceCount, tail));
    ReadEncodeU32(h.faceCount, tail);
  }

  lemma EncodeReadHeader3(s: seq<Byte>)
    requires ReadHeader3(s).Ok?
    ensures EncodeHeader3(ReadHeader3(s).value, ReadHeader3(s).rest) == s
  {
    var m1 := ReadMagic(s, LegacyMesh.VersionPrefix);
    EncodeReadMagic(s, LegacyMesh.VersionPrefix);
    var rev := ReadRevision3(m1.rest);
    RevisionCodecs(Version300, Version400, [], m1.rest);
    var m2 := ReadMagic(rev.rest, Header3Sizes);
    EncodeReadMagic(rev.rest, Header3Sizes);
    var size := ReadSizeOfVertex2(m2.rest);
    SizeOfVertex2Codec(Full, [], m2.rest);
    var m3 := ReadMagic(size.rest, Header3RecordSizes);
    EncodeReadMagic(size.rest, Header3RecordSizes);
    var lc := ReadU16(m3.rest);
    EncodeReadU16(m3.rest);
    var vc := ReadU32(lc.rest);
    EncodeReadU32(lc.rest);
    EncodeReadU32(vc.rest);
  }

  /** A well-formed version 3 mesh, in either vertex size, is read back from its encoding. */
  lemma ReadEncodeMesh3(m: Mesh3, tail: seq<Byte>)
    requires m.Wf()
    ensures ReadMesh3(EncodeMesh3(m, tail)) == Ok(m, tail)
  {
    RecordCodecs();
    var lods := EncodeMany(m.lods, EncodeLod3, tail);
    var faces := EncodeMany(m.faces, EncodeFace2, lods);
    var truncated := EncodeMany(m.verticesTruncated, EncodeVertex2Truncated, faces);
    var full := EncodeMany(m.vertices, EncodeVertex2, truncated);
    ReadEncodeHeader3(m.header, full);
    ReadEncodeMany(m.vertices, truncated, ReadVertex2, EncodeVertex2);
    ReadEncodeMany(m.verticesTruncated, faces, ReadVertex2Truncated, EncodeVertex2Truncated);
    ReadEncodeMany(m.faces, lods, ReadFace2, EncodeFace2);
    ReadEncodeMany(m.lods, tail, ReadLod3, EncodeLod3);
  }

  /** A read version 3 mesh re-encodes to exactly the bytes it was read from. */
  lemma EncodeReadMesh3(s: seq<Byte>)
    requires ReadMesh3(s).Ok?
    ensures EncodeMesh3(ReadMesh3(s).value, ReadMesh3(s).rest) == s
  {
    RecordCodecs();
    var h := ReadHeader3(s);
    EncodeReadHeader3(s);
    var z := h.value.sizeofVertex;
    var n := h.value.vertexCount;
    var vs := ReadMany(h.rest, FullCount(z, n), ReadVertex2);
    var ts := ReadMany(vs.rest, TruncatedCount(z, n), ReadVertex2Truncated);
    var fs := ReadMany(ts.rest, h.value.faceCount, ReadFace2);
    EncodeReadMany(h.rest, FullCount(z, n), ReadVertex2, EncodeVertex2);
    EncodeReadMany(vs.rest, TruncatedCount(z, n), ReadVertex2Truncated, EncodeVertex2Truncated);
    EncodeReadMany(ts.rest, h.value.faceCount, ReadFace2, EncodeFace2);
    EncodeReadMany(fs.rest, h.value.lodCount, ReadLod3, EncodeLod3);
  }

  // ================================================== versions 4 and 5 body

  /** Envelopes are present, one per vertex, only when the mesh has bones. */
  function EnvelopeCount(boneCount: U16, vertexCount: U32): nat
  {
    if boneCount == 0 then 0 else vertexCount
  }

  /** The vector sizes a version 4 or 5 header declares. */
  datatype SkinnedCounts = SkinnedCounts(vertexCount: U32, faceCount: U32, lodCount: U16, boneCount: U16,
    boneNamesLen: U32, subsetCount: U16)

  /** The vectors that follow a version 4 or 5 header, in their order on the wire. */
  datatype Skinned = Skinned(vertices: seq<Vertex2>, envelopes: seq<Envelope4>, faces: seq<Face2>,
    lods: seq<Lod3>, bones: seq<Bone4>, boneNames: seq<Byte>, subsets: seq<Subset4>)

  predicate Sized(b: Skinned, c: SkinnedCounts)
  {
    && |b.vertices| == c.vertexCount
    && |b.envelopes| == EnvelopeCount(c.boneCount, c.vertexCount)
    && |b.faces| == c.faceCount
    && |b.lods| == c.lodCount
    && |b.bones| == c.boneCount
    && |b.boneNames| == c.boneNamesLen
    && |b.subsets| == c.subsetCount
  }

  function ReadSkinned(s: seq<Byte>, c: SkinnedCounts): (r: Parse<Skinned>)
    ensures r.Ok? ==> Sized(r.value, c)
  {
    var vs :- ReadMany(s, c.vertexCount, ReadVertex2);
    var es :- ReadMany(vs.rest, EnvelopeCount(c.boneCount, c.vertexCount), ReadEnvelope4);
    var fs :- ReadMany(es.rest, c.faceCount, ReadFace2);
    var ls :- ReadMany(fs.rest, c.lodCount, ReadLod3);
    var bs :- ReadMany(ls.rest, c.boneCount, ReadBone4);
    var ns :- ReadMany(bs.rest, c.boneNamesLen, ReadU8);
    var ss :- ReadMany(ns.rest, c.subsetCount, ReadSubset4);
    Ok(Skinned(vs.value, es.value, fs.value, ls.value, bs.value, ns.value, ss.value), ss.rest)
  }

  function EncodeSkinned(b: Skinned, tail: seq<Byte>): seq<Byte>
  {
    EncodeMany(b.vertices, EncodeVertex2, EncodeMany(b.envelopes, EncodeEnvelope4,
      EncodeMany(b.faces, EncodeFace2, EncodeMany(b.lods, EncodeLod3, EncodeMany(b.bones, EncodeBone4,
      EncodeMany(b.boneNames, EncodeU8, EncodeMany(b.subsets, EncodeSubset4, tail)))))))
  }

  lemma ReadEncodeSkinned(b: Skinned, c: SkinnedCounts, tail: seq<Byte>)
    requires Sized(b, c)
    ensures ReadSkinned(EncodeSkinned(b, tail), c) == Ok(b, tail)
  {
    RecordCodecs();
    ScalarCodecs();
    var subsets := EncodeMany(b.subsets, EncodeSubset4, tail);
    var names := EncodeMany(b.boneNames, EncodeU8, subsets);
    var bones := EncodeMany(b.bones, EncodeBone4, names);
    var lods := EncodeMany(b.lods, EncodeLod3, bones);
    var faces := EncodeMany(b.faces, EncodeFace2, lods);
    var envelopes := EncodeMany(b.envelopes, EncodeEnvelope4, faces);
    ReadEncodeMany(b.vertices, envelopes, ReadVertex2, EncodeVertex2);
    ReadEncodeMany(b.envelopes, faces, ReadEnvelope4, EncodeEnvelope4);
    ReadEncodeMany(b.faces, lods, ReadFace2, EncodeFace2);
    ReadEncodeMany(b.lods, bones, ReadLod3, EncodeLod3);
    ReadEncodeMany(b.bones, names, ReadBone4, EncodeBone4);
    ReadEncodeMany(b.boneNames, subsets, ReadU8, EncodeU8);
    ReadEncodeMany(b.subsets, tail, ReadSubset4, EncodeSubset4);
  }

  lemma EncodeReadSkinned(s: seq<Byte>, c: SkinnedCounts)
    requires ReadSkinned(s, c).Ok?
    ensures EncodeSkinned(ReadSkinned(s, c).value, ReadSkinned(s, c).rest) == s
  {
    RecordCodecs();
    ScalarCodecs();
    var vs := ReadMany(s, c.vertexCount, ReadVertex2);
    var es := ReadMany(vs.rest, EnvelopeCount(c.boneCount, c.vertexCount), ReadEnvelope4);
    var fs := ReadMany(es.rest, c.faceCount, ReadFace2);
    var ls := ReadMany(fs.rest, c.lodCount, ReadLod3);
    var bs := ReadMany(ls.rest, c.boneCount, ReadBone4);
    var ns := ReadMany(bs.rest, c.boneNamesLen, ReadU8);
    EncodeReadMany(s, c.vertexCount, ReadVertex2, EncodeVertex2);
    EncodeReadMany(vs.rest, EnvelopeCount(c.boneCount, c.vertexCount), ReadEnvelope4, EncodeEnvelope4);
    EncodeReadMany(es.rest, c.faceCount, ReadFace2, EncodeFace2);
    EncodeReadMany(fs.rest, c.lodCount, ReadLod3, EncodeLod3);
    EncodeReadMany(ls.rest, c.boneCount, ReadBone4, EncodeBone4);
    EncodeReadMany(bs.rest, c.boneNamesLen, ReadU8, EncodeU8);
    EncodeReadMany(ns.rest, c.subsetCount, ReadSubset4, EncodeSubset4);
  }

  // ============================================================= version 4

  /** The version 4 header is laid out byte for byte as in the older decoder. */
  type Header4 = LegacyMesh.Header4

  function Counts4(h: Header4): SkinnedCounts
  {
    SkinnedCounts(h.vertexCount, h.faceCount, h.lodCount, h.boneCount, h.boneNamesLen, h.subsetCount)
  }

  datatype Mesh4 = Mesh4(header: Header4, vertices: seq<Vertex2>, envelopes: seq<Envelope4>, faces: seq<Face2>,
    lods: seq<Lod3>, bones: seq<Bone4>, boneNames: seq<Byte>, subsets: seq<Subset4>)
  {
    /** Every vector has its declared length; envelopes only when there are bones. */
    predicate Wf() {
      && |vertices| == header.vertexCount
      && |envelopes| == (if header.boneCount == 0 then 0 else header.vertexCount)
      && |faces| == header.faceCount
      && |lods| == header.lodCount
      && |bones| == header.boneCount
      && |boneNames| == header.boneNamesLen
      && |subsets| == header.subsetCount
    }

    function Body(): Skinned {
      Skinned(vertices, envelopes, faces, lods, bones, boneNames, subsets)
    }
  }

  function ReadMesh4(s: seq<Byte>): (r: Parse<Mesh4>)
    ensures r.Ok? ==> r.value.Wf()
  {
    var h :- LegacyMesh.ReadHeader4(s);
    var b :- ReadSkinned(h.rest, Counts4(h.value));
    var v := b.value;
    Ok(Mesh4(h.value, v.vertices, v.envelopes, v.faces, v.lods, v.bones, v.boneNames, v.subsets), b.rest)
  }

  function EncodeMesh4(m: Mesh4, tail: seq<Byte>): seq<Byte>
  {
    LegacyMesh.EncodeHeader4(m.header, EncodeSkinned(m.Body(), tail))
  }

  /** `fix4`: the tangent fix-up on the vertices. */
  method Fix4(mesh: Mesh4) returns (fixed: Mesh4)
    ensures fixed == mesh.(vertices := FixedTangents(mesh.vertices))
  {
    var vertices := FixVertexList(mesh.vertices);
    fixed := mesh.(vertices := vertices);
  }

  /** A well-formed version 4 mesh, with or without bones, is read back from its encoding. */
  lemma ReadEncodeMesh4(m: Mesh4, tail: seq<Byte>)
    requires m.Wf()
    ensures ReadMesh4(EncodeMesh4(m, tail)) == Ok(m, tail)
  {
    LegacyMesh.ReadEncodeHeader4(m.header, EncodeSkinned(m.Body(), tail));
    ReadEncodeSkinned(m.Body(), Counts4(m.header), tail);
  }

  /** A read version 4 mesh re-encodes to exactly the bytes it was read from. */
  lemma EncodeReadMesh4(s: seq<Byte>)
    requires ReadMesh4(s).Ok?
    ensures EncodeMesh4(ReadMesh4(s).value, ReadMesh4(s).rest) == s
  {
    var h := LegacyMesh.ReadHeader4(s);
    LegacyMesh.EncodeReadHeader4(s);
    EncodeReadSkinned(h.rest, Counts4(h.value));
  }

  // ============================================================= version 5

  /** The only facial animation format: the `u32` value 1. */
  datatype FacsFormat5 = Format1

  function ReadFacsFormat5(s: seq<Byte>): (r: Parse<FacsFormat5>)
    ensures r.Ok? <==> ReadU32(s).Ok? && ReadU32(s).value == 1
    ensures r.Fail? && ReadU32(s).Ok? ==> r.error == NoVariantMatch
  {
    var v :- ReadU32(s);
    if v.value == 1 then Ok(Format1, v.rest) else Fail(NoVariantMatch)
  }

  function EncodeFacsFormat5(f: FacsFormat5, tail: seq<Byte>): (r: seq<Byte>)
    ensures |r| == 4 + |tail|
  {
    EncodeU32(1, tail)
  }

  /** The version line and header size 32, all constant. */
  const Header5Magic: seq<Byte> := Ascii("version 5.00\n") + [0x20, 0x00]

  datatype Header5 = Header5(lodType: LodType4, vertexCount: U32, faceCount: U32, lodCount: U16, boneCount: U16,
    boneNamesLen: U32, subsetCount: U16, lodHqCount: Byte, padding: Byte, facsFormat: FacsFormat5, sizeofFacs: U32)

  /** The fields from the level-of-detail type to the bone count. */
  function ReadHeader5Counts(s: seq<Byte>): Parse<(LodType4, U32, U32, U16, U16)>
  {
    var lt :- ReadLodType4(s);
    var vc :- ReadU32(lt.rest);
    var fc :- ReadU32(vc.rest);
    var lc :- ReadU16(fc.rest);
    var bc :- ReadU16(lc.rest);
    Ok((lt.value, vc.value, fc.value, lc.value, bc.value), bc.rest)
  }

  function EncodeHeader5Counts(c: (LodType4, U32, U32, U16, U16), tail: seq<Byte>): (r: seq<Byte>)
    ensures |r| == 14 + |tail|
  {
    EncodeLodType4(c.0, EncodeU32(c.1, EncodeU32(c.2, EncodeU16(c.3, EncodeU16(c.4, tail)))))
  }

  /** The fields after the shared tail: the facial animation format and block size. */
  function ReadHeader5Facs(s: seq<Byte>): Parse<(FacsFormat5, U32)>
  {
    var ff :- ReadFacsFormat5(s);
    var sf :- ReadU32(ff.rest);
    Ok((ff.value, sf.value), sf.rest)
  }

  function EncodeHeader5Facs(f: (FacsFormat5, U32), tail: seq<Byte>): (r: seq<Byte>)
    ensures |r| == 8 + |tail|
  {
    EncodeFacsFormat5(f.0, EncodeU32(f.1, tail))
  }

  function ReadHeader5(s: seq<Byte>): Parse<Header5>
  {
    var m :- ReadMagic(s, Header5Magic);
    var c :- ReadHeader5Counts(m.rest);
    var t :- LegacyMesh.ReadHeader4Tail(c.rest);
    var f :- ReadHeader5Facs(t.rest);
    var (lt, vc, fc, lc, bc) := c.value;
    var (bnl, sc, hq, pad) := t.value;
    Ok(Header5(lt, vc, fc, lc, bc, bnl, sc, hq, pad, f.value.0, f.value.1), f.rest)
  }

  function EncodeHeader5(h: Header5, tail: seq<Byte>): (r: seq<Byte>)
    ensures |r| == 45 + |tail|
  {
    EncodeMagic(Header5Magic, EncodeHeader5Counts((h.lodType, h.vertexCount, h.faceCount, h.lodCount, h.boneCount),
      LegacyMesh.EncodeHeader4Tail(h.boneNamesLen, h.subsetCount, h.lodHqCount, h.padding,
      EncodeHeader5Facs((h.facsFormat, h.sizeofFacs), tail))))
  }

  function Counts5(h: Header5): SkinnedCounts
  {
    SkinnedCounts(h.vertexCount, h.faceCount, h.lodCount, h.boneCount, h.boneNamesLen, h.subsetCount)
  }

  datatype Mesh5 = Mesh5(header: Header5, vertices: seq<Vertex2>, envelopes: seq<Envelope4>, faces: seq<Face2>,
    lods: seq<Lod3>, bones: seq<Bone4>, boneNames: seq<Byte>, subsets: seq<Subset4>, facs: Facs)
  {
    /** As version 4, and the facial animation block is well formed. */
    predicate Wf() {
      && |vertices| == header.vertexCount
      && |envelopes| == (if header.boneCount == 0 then 0 else header.vertexCount)
      && |faces| == header.faceCount
      && |lods| == header.lodCount
      && |bones| == header.boneCount
      && |boneNames| == header.boneNamesLen
      && |subsets| == header.subsetCount
      && facs.Wf()
    }

    function Body(): Skinned {
      Skinned(vertices, envelopes, faces, lods, bones, boneNames, subsets)
    }
  }

  function ReadMesh5(s: seq<Byte>): (r: Parse<Mesh5>)
    ensures r.Ok? ==> r.value.Wf()
  {
    var h :- ReadHeader5(s);
    var b :- ReadSkinned(h.rest, Counts5(h.value));
    var f :- ReadFacs(b.rest);
    var v := b.value;
    Ok(Mesh5(h.value, v.vertices, v.envelopes, v.faces, v.lods, v.bones, v.boneNames, v.subsets, f.value), f.rest)
  }

  function EncodeMesh5(m: Mesh5, tail: seq<Byte>): seq<Byte>
  {
    EncodeHeader5(m.header, EncodeSkinned(m.Body(), EncodeFacs(m.facs, tail)))
  }

  /** `fix5`: the tangent fix-up on the vertices. */
  method Fix5(mesh: Mesh5) returns (fixed: Mesh5)
    ensures fixed == mesh.(vertices := FixedTangents(mesh.vertices))
  {
    var vertices := FixVertexList(mesh.vertices);
    fixed := mesh.(vertices := vertices);
  }

  lemma Header5PartsCodec(c: (LodType4, U32, U32, U16, U16), f: (FacsFormat5, U32), tail: seq<Byte>)
    ensures ReadHeader5Counts(EncodeHeader5Counts(c, tail)) == Ok(c, tail)
    ensures ReadHeader5Facs(EncodeHeader5Facs(f, tail)) == Ok(f, tail)
  {
    ReadEncodeLodType4(c.0, EncodeU32(c.1, EncodeU32(c.2, EncodeU16(c.3, EncodeU16(c.4, tail)))));
    ReadEncodeU32(c.1, EncodeU32(c.2, EncodeU16(c.3, EncodeU16(c.4, tail))));
    ReadEncodeU32(c.2, EncodeU16(c.3, EncodeU16(c.4, tail)));
    ReadEncodeU16(c.3, EncodeU16(c.4, tail));
    ReadEncodeU16(c.4, tail);
    ReadEncodeU32(1, EncodeU32(f.1, tail));
    ReadEncodeU32(f.1, tail);
    assert ReadFacsFormat5(EncodeU32(1, EncodeU32(f.1, tail))) == Ok(Format1, EncodeU32(f.1, tail));
    assert f.0 == Format1;
  }

  lemma Header5CountsRead(s: seq<Byte>)
    requires ReadHeader5Counts(s).Ok?
    ensures EncodeHeader5Counts(ReadHeader5Counts(s).value, ReadHeader5Counts(s).rest) == s
  {
    var lt := ReadLodType4(s);
    EncodeReadLodType4(s);
    var vc := ReadU32(lt.rest);
    EncodeReadU32(lt.rest);
    var fc := ReadU32(vc.rest);
    EncodeReadU32(vc.rest);
    var lc := ReadU16(fc.rest);
    EncodeReadU16(fc.rest);
    EncodeReadU16(lc.rest);
  }

  lemma Header5FacsRead(s: seq<Byte>)
    requires ReadHeader5Facs(s).Ok?
    ensures EncodeHeader5Facs(ReadHeader5Facs(s).value, ReadHeader5Facs(s).rest) == s
  {
    var ff := ReadU32(s);
    EncodeReadU32(s);
    EncodeReadU32(ff.rest);
  }

  lemma ReadEncodeHeader5(h: Header5, tail: seq<Byte>)
    ensures ReadHeader5(EncodeHeader5(h, tail)) == Ok(h, tail)
  {
    var f := (h.facsFormat, h.sizeofFacs);
    var c := (h.lodType, h.vertexCount, h.faceCount, h.lodCount, h.boneCount);
    var afterTail := EncodeHeader5Facs(f, tail);
    var afterCounts := LegacyMesh.EncodeHeader4Tail(h.boneNamesLen, h.subsetCount, h.lodHqCount, h.padding, afterTail);
    ReadEncodeMagic(Header5Magic, EncodeHeader5Counts(c, afterCounts));
    Header5PartsCodec(c, f, afterCounts);
    Header5PartsCodec(c, f, tail);
    LegacyMesh.Header4TailCodec(h.boneNamesLen, h.subsetCount, h.lodHqCount, h.padding, afterTail, []);
  }

  lemma EncodeReadHeader5(s: seq<Byte>)
    requires ReadHeader5(s).Ok?
    ensures EncodeHeader5(ReadHeader5(s).value, ReadHeader5(s).rest) == s
  {
    var m := ReadMagic(s, Header5Magic);
    EncodeReadMagic(s, Header5Magic);
    var c := ReadHeader5Counts(m.rest);
    Header5CountsRead(m.rest);
    var t := LegacyMesh.ReadHeader4Tail(c.rest);
    LegacyMesh.Header4TailCodec(0, 0, 0, 0, [], c.rest);
    Header5FacsRead(t.rest);
  }

  /** A well-formed version 5 mesh is read back from its encoding. */
  lemma ReadEncodeMesh5(m: Mesh5, tail: seq<Byte>)
    requires m.Wf()
    ensures ReadMesh5(EncodeMesh5(m, tail)) == Ok(m, tail)
  {
    var facs := EncodeFacs(m.facs, tail);
    ReadEncodeHeader5(m.header, EncodeSkinned(m.Body(), facs));
    ReadEncodeSkinned(m.Body(), Counts5(m.header), facs);
    ReadEncodeFacs(m.facs, tail);
  }

  /** A read version 5 mesh re-encodes to exactly the bytes it was read from. */
  lemma EncodeReadMesh5(s: seq<Byte>)
    requires ReadMesh5(s).Ok?
    ensures EncodeMesh5(ReadMesh5(s).value, ReadMesh5(s).rest) == s
  {
    var h := ReadHeader5(s);
    EncodeReadHeader5(s);
    var b := ReadSkinned(h.rest, Counts5(h.value));
    EncodeReadSkinned(h.rest, Counts5(h.value));
    EncodeReadFacs(b.rest);
  }

  // ============================================================ header sizes

  /** The little-endian `u16` right after the 13-byte version line: the size the header declares for itself. */
  function DeclaredHeaderSize(e: seq<Byte>): nat
    requires |e| >= 15
  {
    e[13] as int + 0x100 * e[14] as int
  }

  /**
   * Each binary header ends its version line with a newline and then
   * declares its own size truthfully: after the line, the header occupies
   * exactly the declared number of bytes (12, 16, 24, 32), and the record
   * sizes it declares are the widths the records are encoded with.
   */
  lemma HeaderSizes(h2: Header2, h3: Header3, h4: Header4, h5: Header5, tail: seq<Byte>)
    ensures var e := EncodeHeader2(h2, tail);
      && e[12] == 0x0A && DeclaredHeaderSize(e) == 12 && |e| == 13 + 12 + |tail|
      && e[15] == VertexSizeByte(h2.sizeofVertex) && e[16] == FaceSize
    ensures var e := EncodeHeader3(h3, tail);
      && e[12] == 0x0A && DeclaredHeaderSize(e) == 16 && |e| == 13 + 16 + |tail|
      && e[15] == VertexSizeByte(h3.sizeofVertex) && e[16] == FaceSize && e[17] as int + 0x100 * e[18] as int == LodSize
    ensures var e := LegacyMesh.EncodeHeader4(h4, tail);
      e[12] == 0x0A && DeclaredHeaderSize(e) == 24 && |e| == 13 + 24 + |tail|
    ensures var e := EncodeHeader5(h5, tail);
      e[12] == 0x0A && DeclaredHeaderSize(e) == 32 && |e| == 13 + 32 + |tail|
  {
    var e5 := EncodeHeader5(h5, tail);
    assert e5[..15] == Header5Magic;
  }

  /** The first 12 bytes of each binary encoding are the tag of its version. */
  lemma HeaderTags(h2: Header2, h3: Header3, h4: Header4, h5: Header5, tail: seq<Byte>)
    ensures EncodeHeader2(h2, tail)[..12] == TagOf(V200)
    ensures EncodeHeader3(h3, tail)[..12] == TagOf(if h3.revision == Version300 then V300 else V301)
    ensures LegacyMesh.EncodeHeader4(h4, tail)[..12] == TagOf(if h4.revision == Version400 then V400 else V401)
    ensures EncodeHeader5(h5, tail)[..12] == TagOf(V500)
  {
    var e2 := EncodeHeader2(h2, tail);
    assert e2[..12] == LegacyMesh.VersionPrefix + Ascii("2.00");
    var afterRev := EncodeMagic(Header3Sizes, EncodeSizeOfVertex2(h3.sizeofVertex, EncodeMagic(Header3RecordSizes,
      EncodeU16(h3.lodCount, EncodeU32(h3.vertexCount, EncodeU32(h3.faceCount, tail))))));
    LegacyMesh.RevisionTags(h3.revision, Version400, afterRev);
    LegacyMesh.Head4Tag(h4.revision, h4.lodType, h4.vertexCount, h4.faceCount, h4.lodCount,
      EncodeU16(h4.boneCount, LegacyMesh.EncodeHeader4Tail(h4.boneNamesLen, h4.subsetCount, h4.lodHqCount,
      h4.padding, tail)));
    var e5 := EncodeHeader5(h5, tail);
    assert e5[..12] == Header5Magic[..12];
  }

  // ================================================================ dispatch

  datatype VersionedMesh = Version1(mesh1: Mesh1) | Version2(mesh2: Mesh2) | Version3(mesh3: Mesh3)
    | Version4(mesh4: Mesh4) | Version5(mesh5: Mesh5)

  /** A binary mesh with every sentinel tangent replaced. */
  function Fixed2(m: Mesh2): Mesh2 { m.(vertices := FixedTangents(m.vertices)) }
  function Fixed3(m: Mesh3): Mesh3 { m.(vertices := FixedTangents(m.vertices)) }
  function Fixed4(m: Mesh4): Mesh4 { m.(vertices := FixedTangents(m.vertices)) }
  function Fixed5(m: Mesh5): Mesh5 { m.(vertices := FixedTangents(m.vertices)) }

  /**
   * `read`: the first 12 bytes choose the version, every tag from 1.00 to
   * 5.00 is known, and the input is decoded by that version's reader; binary
   * meshes get the tangent fix-up. Input shorter than 12 bytes is outside
   * the domain (the first 12 bytes are sliced without a check).
   */
  function Decode(input: seq<Byte>, ops: TextOps): (r: Result<VersionedMesh>)
    requires |input| >= 12
    ensures r.Success? ==> (r.value.Version1? <==> (VersionOf(input[..12]) == Some(V100) || VersionOf(input[..12]) == Some(V101)))
    ensures r.Success? ==> (r.value.Version2? <==> VersionOf(input[..12]) == Some(V200))
    ensures r.Success? ==> (r.value.Version3? <==> (VersionOf(input[..12]) == Some(V300) || VersionOf(input[..12]) == Some(V301)))
    ensures r.Success? ==> (r.value.Version4? <==> (VersionOf(input[..12]) == Some(V400) || VersionOf(input[..12]) == Some(V401)))
    ensures r.Success? ==> (r.value.Version5? <==> VersionOf(input[..12]) == Some(V500))
    ensures r.Failure? && r.error.UnknownVersion? <==> VersionOf(input[..12]).None?
    ensures r.Failure? && r.error.UnknownVersion? ==> r.error.bytes == input[..12]
    ensures VersionOf(input[..12]) == Some(V100) ==>
      r == (var m := Decoded100(input, ops); if m.Success? then Success(Version1(m.value)) else Failure(m.error))
    ensures VersionOf(input[..12]) == Some(V101) ==>
      r == (var m := Decoded101(input, ops); if m.Success? then Success(Version1(m.value)) else Failure(m.error))
    ensures VersionOf(input[..12]) == Some(V200) ==>
      r == (var m := ReadMesh2(input); if m.Ok? then Success(Version2(Fixed2(m.value))) else Failure(BinRead(m.error)))
    ensures (VersionOf(input[..12]) == Some(V300) || VersionOf(input[..12]) == Some(V301)) ==>
      r == (var m := ReadMesh3(input); if m.Ok? then Success(Version3(Fixed3(m.value))) else Failure(BinRead(m.error)))
    ensures (VersionOf(input[..12]) == Some(V400) || VersionOf(input[..12]) == Some(V401)) ==>
      r == (var m := ReadMesh4(input); if m.Ok? then Success(Version4(Fixed4(m.value))) else Failure(BinRead(m.error)))
    ensures VersionOf(input[..12]) == Some(V500) ==>
      r == (var m := ReadMesh5(input); if m.Ok? then Success(Version5(Fixed5(m.value))) else Failure(BinRead(m.error)))
  {
    var tag := input[..12];
    match VersionOf(tag)
    case Some(V100) =>
      var m :- Decoded100(input, ops);
      Success(Version1(m))
    case Some(V101) =>
      var m :- Decoded101(input, ops);
      Success(Version1(m))
    case Some(V200) =>
      var m :- FromParse(ReadMesh2(input));
      Success(Version2(Fixed2(m)))
    case Some(V300) =>
      var m :- FromParse(ReadMesh3(input));
      Success(Version3(Fixed3(m)))
    case Some(V301) =>
      var m :- FromParse(ReadMesh3(input));
      Success(Version3(Fixed3(m)))
    case Some(V400) =>
      var m :- FromParse(ReadMesh4(input));
      Success(Version4(Fixed4(m)))
    case Some(V401) =>
      var m :- FromParse(ReadMesh4(input));
      Success(Version4(Fixed4(m)))
    case Some(V500) =>
      var m :- FromParse(ReadMesh5(input));
      Success(Version5(Fixed5(m)))
    case None => Failure(UnknownVersion(tag))
  }

  /** `read`, with the text readers and the fix-ups as methods. */
  method Read(input: seq<Byte>, ops: TextOps) returns (r: Result<VersionedMesh>)
    requires |input| >= 12
    ensures r == Decode(input, ops)
  {
    var tag := input[..12];
    var version := VersionOf(tag);
    if version == Some(V100) {
      var m := Read100(input, ops);
      if m.Failure? {
        return Failure(m.error);
      }
      r := Success(Version1(m.value));
    } else if version == Some(V101) {
      var m := Read101(input, ops);
      if m.Failure? {
        return Failure(m.error);
      }
      r := Success(Version1(m.value));
    } else if version == Some(V200) {
      var m := FromParse(ReadMesh2(input));
      if m.Failure? {
        return Failure(m.error);
      }
      var fixed := Fix2(m.value);
      r := Success(Version2(fixed));
    } else if version == Some(V300) || version == Some(V301) {
      var m := FromParse(ReadMesh3(input));
      if m.Failure? {
        return Failure(m.error);
      }
      var fixed := Fix3(m.value);
      r := Success(Version3(fixed));
    } else if version == Some(V400) || version == Some(V401) {
      var m := FromParse(ReadMesh4(input));
      if m.Failure? {
        return Failure(m.error);
      }
      var fixed := Fix4(m.value);
      r := Success(Version4(fixed));
    } else if version == Some(V500) {
      var m := FromParse(ReadMesh5(input));
      if m.Failure? {
        return Failure(m.error);
      }
      var fixed := Fix5(m.value);
      r := Success(Version5(fixed));
    } else {
      r := Failure(UnknownVersion(tag));
    }
  }

  /**
   * A version 1 text file through `read`: the tag at the start of its first
   * line picks the 1.00 or 1.01 reader, so the revision, face count and vertices the
   * lines spell come out flipped, and for 1.00 halved, when there are three
   * vertices per face; otherwise the vertex count is the error.
   */
  lemma DecodeText(v: Version, version: seq<Byte>, count: seq<Byte>, vertexLine: seq<Byte>, rest: seq<Byte>,
    ops: TextOps, rev: Revision1, n: U32, groups: seq<string>, vs: seq<Vertex1>)
    requires v == V100 || v == V101
    requires |version| >= 12 && version[..12] == TagOf(v)
    requires PlainLine(version) && PlainLine(count) && PlainLine(vertexLine)
    requires ops.utf8(version).Some? && Revision1Of(ops.utf8(version).value) == Success(rev)
    requires ops.utf8(count) == Some(Decimal(n)) && ops.utf8(vertexLine) == Some(Bracketed(groups))
    requires forall i | 0 <= i < |groups| :: NoStops(groups[i])
    requires ParseVertices(groups, TrimmedParse(ops.parseF32)) == Success(vs)
    ensures Decode(version + [Newline] + count + [Newline] + vertexLine + [Newline] + rest, ops)
      == if |vs| != 3 * n then Failure(VertexCount)
         else if v == V100 then Success(Version1(Mesh1(Header1(rev, n), HalvedPositions(FlippedV(vs, ops.oneMinus), ops.half))))
         else Success(Version1(Mesh1(Header1(rev, n), FlippedV(vs, ops.oneMinus))))
  {
    var data := version + [Newline] + count + [Newline] + vertexLine + [Newline] + rest;
    assert data[..12] == version[..12];
    VersionOfTag(v);
    DecodedFixedOfText(version, count, vertexLine, rest, ops, rev, n, groups, vs);
  }

  /**
   * Whole files: every well-formed binary mesh of versions 2 to 5 is decoded
   * as its own version, with its tangents fixed up.
   */
  lemma DecodeMeshes(m2: Mesh2, m3: Mesh3, m4: Mesh4, m5: Mesh5, tail: seq<Byte>, ops: TextOps)
    requires m2.Wf() && m3.Wf() && m4.Wf() && m5.Wf()
    ensures Decode(EncodeMesh2(m2, tail), ops) == Success(Version2(Fixed2(m2)))
    ensures Decode(EncodeMesh3(m3, tail), ops) == Success(Version3(Fixed3(m3)))
    ensures Decode(EncodeMesh4(m4, tail), ops) == Success(Version4(Fixed4(m4)))
    ensures Decode(EncodeMesh5(m5, tail), ops) == Success(Version5(Fixed5(m5)))
  {
    ReadEncodeMesh2(m2, tail);
    ReadEncodeMesh3(m3, tail);
    ReadEncodeMesh4(m4, tail);
    ReadEncodeMesh5(m5, tail);
    HeaderTags(m2.header, m3.header, m4.header, m5.header, EncodeMany(m2.vertices, EncodeVertex2,
      EncodeMany(m2.verticesTruncated, EncodeVertex2Truncated, EncodeMany(m2.faces, EncodeFace2, tail))));
    HeaderTags(m2.header, m3.header, m4.header, m5.header, EncodeMany(m3.vertices, EncodeVertex2,
      EncodeMany(m3.verticesTruncated, EncodeVertex2Truncated, EncodeMany(m3.faces, EncodeFace2,
      EncodeMany(m3.lods, EncodeLod3, tail)))));
    HeaderTags(m2.header, m3.header, m4.header, m5.header, EncodeSkinned(m4.Body(), tail));
    HeaderTags(m2.header, m3.header, m4.header, m5.header, EncodeSkinned(m5.Body(), EncodeFacs(m5.facs, tail)));
    VersionOfTag(V200);
    VersionOfTag(V300);
    VersionOfTag(V301);
    VersionOfTag(V400);
    VersionOfTag(V401);
    VersionOfTag(V500);
  }
}

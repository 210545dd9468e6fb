/**
 * The older mesh decoder (versions 1.00 to 4.01).
 *
 * Version 1 is text. Versions 2 and 3 come in two binary layouts, with 40-byte
 * vertices and with 36-byte vertices (no colour); the decoder tries the
 * 40-byte layout and falls back to the 36-byte one only when a constant in the
 * header does not match, widening each vertex with an opaque white colour.
 * Version 4 files with no bones leave the bone count slot zero and omit the
 * skinning envelopes and bones; the decoder tries that layout first.
 */
module LegacyMesh {
  import opened Wire
  import opened MeshRecords
  import opened MeshText

  // ============================================================= version 1

  datatype Header1 = Header1(faceCount: U32)
  datatype Mesh1 = Mesh1(header: Header1, vertices: seq<Vertex1>)

  /** A text mesh is accepted only when it has three vertices per face, and is then returned unchanged. */
  function Check1(mesh: Mesh1): (r: Result<Mesh1>)
    ensures r.Success? <==> |mesh.vertices| == 3 * mesh.header.faceCount
    ensures r.Success? ==> r.value == mesh
    ensures r.Failure? ==> r.error == VertexCount
  {
    if 3 * mesh.header.faceCount == |mesh.vertices| then Success(mesh) else Failure(VertexCount)
  }

  /**
   * The text layout: a version line whose content is not looked at, a line
   * holding the face count, and the line of vertex groups.
   */
  function Decoded1(data: seq<Byte>, ops: TextOps): (r: Result<Mesh1>)
    ensures r.Failure? ==> !r.error.UnknownVersion?
    ensures r.Success? ==> NextLine(data, ops.utf8).Success?
    ensures r.Success? ==> NextU32(NextLine(data, ops.utf8).value.1, ops.utf8) == Success(r.value.header.faceCount)
  {
    var version :- NextLine(data, ops.utf8);
    var faceCount :- NextU32(version.1, ops.utf8);
    var line :- NextLine(Remaining(version.1), ops.utf8);
    var vertices :- ParseVertices(BracketGroups(line.0), ops.parseF32);
    Success(Mesh1(Header1(faceCount), vertices))
  }

  /** `read1`: three lines off a line reader. */
  method Read1(data: seq<Byte>, ops: TextOps) returns (r: Result<Mesh1>)
    ensures r == Decoded1(data, ops)
  {
    var lines := new LineMachine(data, ops.utf8);
    var version := lines.ReadLine();
    if version.Failure? {
      return Failure(version.error);
    }
    var faceCount := lines.ReadU32();
    if faceCount.Failure? {
      return Failure(faceCount.error);
    }
    var line := lines.ReadLine();
    if line.Failure? {
      return Failure(line.error);
    }
    var vertices := ParseVertices(BracketGroups(line.value), ops.parseF32);
    if vertices.Failure? {
      return Failure(vertices.error);
    }
    return Success(Mesh1(Header1(faceCount.value), vertices.value));
  }

  /** Version 1.00: the texture V coordinate is flipped and positions are halved before the count check. */
  function Decoded100(data: seq<Byte>, ops: TextOps): (r: Result<Mesh1>)
    ensures r.Failure? ==> !r.error.UnknownVersion?
    ensures r.Success? ==> |r.value.vertices| == 3 * r.value.header.faceCount
  {
    var mesh :- Decoded1(data, ops);
    Check1(mesh.(vertices := HalvedPositions(FlippedV(mesh.vertices, ops.oneMinus), ops.half)))
  }

  /** A version 1.00 mesh is the text reading with the texture V coordinate flipped and the
      positions halved, kept only when the count check passes. */
  lemma Decoded100Fixup(data: seq<Byte>, ops: TextOps)
    ensures var d := Decoded1(data, ops);
      d.Failure? ==> Decoded100(data, ops) == Failure(d.error)
    ensures var d := Decoded1(data, ops);
      d.Success? ==> Decoded100(data, ops) == if |d.value.vertices| == 3 * d.value.header.faceCount
                                            then Success(d.value.(vertices := HalvedPositions(FlippedV(d.value.vertices, ops.oneMinus), ops.half)))
                                            else Failure(VertexCount)
  {
  }

  /** Version 1.01: only the texture V coordinate is flipped before the count check. */
  function Decoded101(data: seq<Byte>, ops: TextOps): (r: Result<Mesh1>)
    ensures r.Failure? ==> !r.error.UnknownVersion?
    ensures r.Success? ==> |r.value.vertices| == 3 * r.value.header.faceCount
  {
    var mesh :- Decoded1(data, ops);
    Check1(mesh.(vertices := FlippedV(mesh.vertices, ops.oneMinus)))
  }

  /** A version 1.01 mesh is the text reading with only the texture V coordinate flipped,
      kept only when the count check passes. */
  lemma Decoded101Fixup(data: seq<Byte>, ops: TextOps)
    ensures var d := Decoded1(data, ops);
      d.Failure? ==> Decoded101(data, ops) == Failure(d.error)
    ensures var d := Decoded1(data, ops);
      d.Success? ==> Decoded101(data, ops) == if |d.value.vertices| == 3 * d.value.header.faceCount
                                            then Success(d.value.(vertices := FlippedV(d.value.vertices, ops.oneMinus)))
                                            else Failure(VertexCount)
  {
  }

  /** `read_100`: read, fix the vertex buffer in place, check. */
  method Read100(data: seq<Byte>, ops: TextOps) returns (r: Result<Mesh1>)
    ensures r == Decoded100(data, ops)
  {
    var mesh := Read1(data, ops);
    if mesh.Failure? {
      return Failure(mesh.error);
    }
    var fixed := FixVertexBuffer(mesh.value.vertices, ops, true);
    r := Check1(mesh.value.(vertices := fixed));
  }

  /** `read_101`: read, fix the vertex buffer in place, check. */
  method Read101(data: seq<Byte>, ops: TextOps) returns (r: Result<Mesh1>)
    ensures r == Decoded101(data, ops)
  {
    var mesh := Read1(data, ops);
    if mesh.Failure? {
      return Failure(mesh.error);
    }
    var fixed := FixVertexBuffer(mesh.value.vertices, ops, false);
    r := Check1(mesh.value.(vertices := fixed));
  }
  /**
   * A text mesh read back from its lines: a first line whose content is not looked at, a line
   * holding the face count in decimal and a line of bracketed groups decode to
   * that face count and to the vertices the groups spell, three groups each.
   */
  lemma Decoded1OfText(version: seq<Byte>, count: seq<Byte>, vertexLine: seq<Byte>, rest: seq<Byte>, ops: TextOps,
    n: U32, groups: seq<string>, vs: seq<Vertex1>)
    requires PlainLine(version) && PlainLine(count) && PlainLine(vertexLine)
    requires ops.utf8(version).Some?
    requires ops.utf8(count) == Some(Decimal(n)) && ops.utf8(vertexLine) == Some(Bracketed(groups))
    requires forall i | 0 <= i < |groups| :: NoStops(groups[i])
    requires ParseVertices(groups, ops.parseF32) == Success(vs)
    ensures Decoded1(version + [Newline] + count + [Newline] + vertexLine + [Newline] + rest, ops) == Success(Mesh1(Header1(n), vs))
  {
    var afterCount := vertexLine + [Newline] + rest;
    var afterVersion := count + [Newline] + afterCount;
    var data := version + [Newline] + count + [Newline] + vertexLine + [Newline] + rest;
    ThreeLines(version, count, vertexLine, rest);
    NextLineOfLine(version, afterVersion, ops.utf8);
    NextLineOfLine(count, afterCount, ops.utf8);
    NextU32OfLine(count, afterCount, ops.utf8, n);
    NextLineOfLine(vertexLine, rest, ops.utf8);
    BracketGroupsOfBracketed(groups);
    assert NextLine(data, ops.utf8) == Success((ops.utf8(version).value, afterVersion));
    assert NextLine(Remaining(afterVersion), ops.utf8) == Success((Bracketed(groups), rest));
  }

  /**
   * The same lines through versions 1.00 and 1.01: with three vertices per
   * face the mesh comes out with its texture V flipped (and, for 1.00, its
   * positions halved); otherwise the vertex count is the error.
   */
  lemma DecodedFixedOfText(version: seq<Byte>, count: seq<Byte>, vertexLine: seq<Byte>, rest: seq<Byte>, ops: TextOps,
    n: U32, groups: seq<string>, vs: seq<Vertex1>)
    requires PlainLine(version) && PlainLine(count) && PlainLine(vertexLine)
    requires ops.utf8(version).Some?
    requires ops.utf8(count) == Some(Decimal(n)) && ops.utf8(vertexLine) == Some(Bracketed(groups))
    requires forall i | 0 <= i < |groups| :: NoStops(groups[i])
    requires ParseVertices(groups, ops.parseF32) == Success(vs)
    ensures Decoded100(version + [Newline] + count + [Newline] + vertexLine + [Newline] + rest, ops)
      == if |vs| == 3 * n then Success(Mesh1(Header1(n), HalvedPositions(FlippedV(vs, ops.oneMinus), ops.half)))
         else Failure(VertexCount)
    ensures Decoded101(version + [Newline] + count + [Newline] + vertexLine + [Newline] + rest, ops)
      == if |vs| == 3 * n then Success(Mesh1(Header1(n), FlippedV(vs, ops.oneMinus)))
         else Failure(VertexCount)
  {
    var data := version + [Newline] + count + [Newline] + vertexLine + [Newline] + rest;
    Decoded1OfText(version, count, vertexLine, rest, ops, n, groups, vs);
    Decoded100Fixup(data, ops);
    Decoded101Fixup(data, ops);
  }


  // ============================================================= version 2

  /**
   * The constant start of a version 2 file: the version line, then the header
   * size 12 (`u16`), the vertex size and the face size 12.
   */
  const Header2Magic: seq<Byte> := Ascii("version 2.00\n") + [0x0C, 0x00, 0x28, 0x0C]
  const Header2TruncatedMagic: seq<Byte> := Ascii("version 2.00\n") + [0x0C, 0x00, 0x24, 0x0C]

  /** The counts of a version 2 header; both layouts carry the same two. */
  datatype Header2 = Header2(vertexCount: U32, faceCount: U32)

  datatype Mesh2 = Mesh2(header: Header2, vertices: seq<Vertex2>, faces: seq<Face2>) {
    /** The vector lengths are the header counts. */
    predicate Wf() {
      |vertices| == header.vertexCount && |faces| == header.faceCount
    }
  }

  datatype Mesh2Truncated = Mesh2Truncated(header: Header2, vertices: seq<Vertex2Truncated>, faces: seq<Face2>) {
    predicate Wf() {
      |vertices| == header.vertexCount && |faces| == header.faceCount
    }
  }

  function ReadHeader2(s: seq<Byte>, magic: seq<Byte>): Parse<Header2>
  {
    var m :- ReadMagic(s, magic);
    var vc :- ReadU32(m.rest);
    var fc :- ReadU32(vc.rest);
    Ok(Header2(vc.value, fc.value), fc.rest)
  }

  function EncodeHeader2(h: Header2, magic: seq<Byte>, tail: seq<Byte>): (r: seq<Byte>)
    ensures |r| == |magic| + 8 + |tail|
  {
    EncodeMagic(magic, EncodeU32(h.vertexCount, EncodeU32(h.faceCount, tail)))
  }

  function ReadMesh2(s: seq<Byte>): (r: Parse<Mesh2>)
    ensures r.Ok? ==> r.value.Wf()
  {
    var h :- ReadHeader2(s, Header2Magic);
    var vs :- ReadMany(h.rest, h.value.vertexCount, ReadVertex2);
    var fs :- ReadMany(vs.rest, h.value.faceCount, ReadFace2);
    Ok(Mesh2(h.value, vs.value, fs.value), fs.rest)
  }

  function EncodeMesh2(m: Mesh2, tail: seq<Byte>): seq<Byte>
  {
    EncodeHeader2(m.header, Header2Magic,
      EncodeMany(m.vertices, EncodeVertex2, EncodeMany(m.faces, EncodeFace2, tail)))
  }

  function ReadMesh2Truncated(s: seq<Byte>): (r: Parse<Mesh2Truncated>)
    ensures r.Ok? ==> r.value.Wf()
  {
    var h :- ReadHeader2(s, Header2TruncatedMagic);
    var vs :- ReadMany(h.rest, h.value.vertexCount, ReadVertex2Truncated);
    var fs :- ReadMany(vs.rest, h.value.faceCount, ReadFace2);
    Ok(Mesh2Truncated(h.value, vs.value, fs.value), fs.rest)
  }

  function EncodeMesh2Truncated(m: Mesh2Truncated, tail: seq<Byte>): seq<Byte>
  {
    EncodeHeader2(m.header, Header2TruncatedMagic,
      EncodeMany(m.vertices, EncodeVertex2Truncated, EncodeMany(m.faces, EncodeFace2, tail)))
  }

  /** Every vertex widened: same header and faces, each vertex opaque white. */
  function WidenVertices(vs: seq<Vertex2Truncated>): (r: seq<Vertex2>)
    ensures |r| == |vs|
  {
    seq(|vs|, i requires 0 <= i < |vs| => Widen(vs[i]))
  }

  function NarrowVertices(vs: seq<Vertex2>): (r: seq<Vertex2Truncated>)
    ensures |r| == |vs|
  {
    seq(|vs|, i requires 0 <= i < |vs| => Narrow(vs[i]))
  }

  function Widen2(m: Mesh2Truncated): Mesh2
  {
    Mesh2(m.header, WidenVertices(m.vertices), m.faces)
  }

  /**
   * `read2`: the 40-byte layout; when a header constant does not match, the
   * 36-byte layout from the start of the input, widened. Any other failure is
   * returned as it is.
   */
  function Read2(s: seq<Byte>): (r: Result<Mesh2>)
    ensures r.Success? ==> r.value.Wf()
    ensures ReadMesh2(s).Ok? ==> r == Success(ReadMesh2(s).value)
    ensures ReadMesh2(s).Fail? && ReadMesh2(s).error != BadMagic ==> r == Failure(BinRead(ReadMesh2(s).error))
    ensures ReadMesh2(s).Fail? && ReadMesh2(s).error == BadMagic ==>
      r == (match ReadMesh2Truncated(s)
            case Ok(t, _) => Success(Widen2(t))
            case Fail(e) => Failure(BinRead(e)))
    ensures ReadMesh2(s).Fail? && r.Success? ==>
      forall i | 0 <= i < |r.value.vertices| :: r.value.vertices[i].color == OpaqueWhite
  {
    match ReadMesh2(s)
    case Ok(m, _) => Success(m)
    case Fail(e) =>
      if e != BadMagic then Failure(BinRead(e))
      else
        match ReadMesh2Truncated(s)
        case Ok(t, _) => Success(Widen2(t))
        case Fail(e') => Failure(BinRead(e'))
  }

  /** `fix2` over a decoded mesh: the tangent fix-up on its vertex buffer. */
  method Fix2(mesh: Mesh2) returns (fixed: Mesh2)
    ensures fixed == mesh.(vertices := FixedTangents(mesh.vertices))
  {
    var vertices := FixVertexList(mesh.vertices);
    fixed := mesh.(vertices := vertices);
  }

  // ------------------------------------------------- version 2 round trips

  lemma ReadEncodeHeader2(h: Header2, magic: seq<Byte>, tail: seq<Byte>)
    ensures ReadHeader2(EncodeHeader2(h, magic, tail), magic) == Ok(h, tail)
  {
    ReadEncodeMagic(magic, EncodeU32(h.vertexCount, EncodeU32(h.faceCount, tail)));
    ScalarCodecs();
  }

  lemma EncodeReadHeader2(s: seq<Byte>, magic: seq<Byte>)
    requires ReadHeader2(s, magic).Ok?
    ensures EncodeHeader2(ReadHeader2(s, magic).value, magic, ReadHeader2(s, magic).rest) == s
  {
    EncodeReadMagic(s, magic);
    ScalarCodecs();
  }

  /** A well-formed mesh is read back from its 40-byte encoding. */
  lemma ReadEncodeMesh2(m: Mesh2, tail: seq<Byte>)
    requires m.Wf()
    ensures ReadMesh2(EncodeMesh2(m, tail)) == Ok(m, tail)
  {
    RecordCodecs();
    var faces := EncodeMany(m.faces, EncodeFace2, tail);
    var body := EncodeMany(m.vertices, EncodeVertex2, faces);
    ReadEncodeHeader2(m.header, Header2Magic, body);
    ReadEncodeMany(m.vertices, faces, ReadVertex2, EncodeVertex2);
    ReadEncodeMany(m.faces, tail, ReadFace2, EncodeFace2);
  }

  /** A read 40-byte mesh re-encodes to exactly the bytes it was read from. */
  lemma EncodeReadMesh2(s: seq<Byte>)
    requires ReadMesh2(s).Ok?
    ensures EncodeMesh2(ReadMesh2(s).value, ReadMesh2(s).rest) == s
  {
    RecordCodecs();
    var h := ReadHeader2(s, Header2Magic);
    EncodeReadHeader2(s, Header2Magic);
    var vs := ReadMany(h.rest, h.value.vertexCount, ReadVertex2);
    EncodeReadMany(h.rest, h.value.vertexCount, ReadVertex2, EncodeVertex2);
    EncodeReadMany(vs.rest, h.value.faceCount, ReadFace2, EncodeFace2);
  }

  lemma ReadEncodeMesh2Truncated(m: Mesh2Truncated, tail: seq<Byte>)
    requires m.Wf()
    ensures ReadMesh2Truncated(EncodeMesh2Truncated(m, tail)) == Ok(m, tail)
  {
    RecordCodecs();
    var faces := EncodeMany(m.faces, EncodeFace2, tail);
    var body := EncodeMany(m.vertices, EncodeVertex2Truncated, faces);
    ReadEncodeHeader2(m.header, Header2TruncatedMagic, body);
    ReadEncodeMany(m.vertices, faces, ReadVertex2Truncated, EncodeVertex2Truncated);
    ReadEncodeMany(m.faces, tail, ReadFace2, EncodeFace2);
  }

  lemma EncodeReadMesh2Truncated(s: seq<Byte>)
    requires ReadMesh2Truncated(s).Ok?
    ensures EncodeMesh2Truncated(ReadMesh2Truncated(s).value, ReadMesh2Truncated(s).rest) == s
  {
    RecordCodecs();
    var h := ReadHeader2(s, Header2TruncatedMagic);
    EncodeReadHeader2(s, Header2TruncatedMagic);
    var vs := ReadMany(h.rest, h.value.vertexCount, ReadVertex2Truncated);
    EncodeReadMany(h.rest, h.value.vertexCount, ReadVertex2Truncated, EncodeVertex2Truncated);
    EncodeReadMany(vs.rest, h.value.faceCount, ReadFace2, EncodeFace2);
  }

  /** The two version 2 header constants differ only in the vertex size byte. */
  lemma Header2MagicsDiffer()
    ensures |Header2Magic| == |Header2TruncatedMagic| == 17
    ensures Header2Magic[..15] == Header2TruncatedMagic[..15]
    ensures Header2Magic[15] != Header2TruncatedMagic[15]
  {
  }

  /**
   * `read2` over both layouts: a well-formed 40-byte mesh is read as it is;
   * a well-formed 36-byte mesh is read through the fallback, widened.
   */
  lemma Read2Layouts(m: Mesh2, t: Mesh2Truncated, tail: seq<Byte>)
    requires m.Wf() && t.Wf()
    ensures Read2(EncodeMesh2(m, tail)) == Success(m)
    ensures Read2(EncodeMesh2Truncated(t, tail)) == Success(Widen2(t))
  {
    ReadEncodeMesh2(m, tail);
    ReadEncodeMesh2Truncated(t, tail);
    var e := EncodeMesh2Truncated(t, tail);
    Header2MagicsDiffer();
    assert e[..17] == Header2TruncatedMagic;
    assert ReadMagic(e, Header2Magic) == Fail(BadMagic);
  }

  /**
   * The fallback loses only colour: the widened mesh narrows back to the
   * 36-byte mesh it came from, whose encoding is the input that was read.
   */
  lemma Read2FallbackLossless(s: seq<Byte>)
    requires ReadMesh2(s).Fail? && Read2(s).Success?
    ensures ReadMesh2Truncated(s).Ok?
    ensures var t := ReadMesh2Truncated(s);
      Read2(s).value == Widen2(t.value)
      && NarrowVertices(Read2(s).value.vertices) == t.value.vertices
      && EncodeMesh2Truncated(Mesh2Truncated(Read2(s).value.header, NarrowVertices(Read2(s).value.vertices),
           Read2(s).value.faces), t.rest) == s
  {
    var t := ReadMesh2Truncated(s);
    forall i | 0 <= i < |t.value.vertices| ensures Narrow(Widen(t.value.vertices[i])) == t.value.vertices[i] {
      WidenNarrow(t.value.vertices[i], Widen(t.value.vertices[i]));
    }
    assert NarrowVertices(WidenVertices(t.value.vertices)) == t.value.vertices;
    EncodeReadMesh2Truncated(s);
  }

  // ============================================================= version 3

  const VersionPrefix: seq<Byte> := Ascii("version ")

  /** After the revision: newline, header size 16, vertex size, face size 12, lod size 4. */
  const Header3Magic: seq<Byte> := [0x0A, 0x10, 0x00, 0x28, 0x0C, 0x04, 0x00]
  const Header3TruncatedMagic: seq<Byte> := [0x0A, 0x10, 0x00, 0x24, 0x0C, 0x04, 0x00]

  datatype Header3 = Header3(revision: Revision3, lodCount: U16, vertexCount: U32, faceCount: U32)

  datatype Mesh3 = Mesh3(header: Header3, vertices: seq<Vertex2>, faces: seq<Face2>, lods: seq<Lod3>) {
    predicate Wf() {
      |vertices| == header.vertexCount && |faces| == header.faceCount && |lods| == header.lodCount
    }
  }

  datatype Mesh3Truncated = Mesh3Truncated(header: Header3, vertices: seq<Vertex2Truncated>, faces: seq<Face2>,
    lods: seq<Lod3>)
  {
    predicate Wf() {
      |vertices| == header.vertexCount && |faces| == header.faceCount && |lods| == header.lodCount
    }
  }

  function ReadHeader3(s: seq<Byte>, magic: seq<Byte>): Parse<Header3>
  {
    var m1 :- ReadMagic(s, VersionPrefix);
    var rev :- ReadRevision3(m1.rest);
    var m2 :- ReadMagic(rev.rest, magic);
    var lc :- ReadU16(m2.rest);
    var vc :- ReadU32(lc.rest);
    var fc :- ReadU32(vc.rest);
    Ok(Header3(rev.value, lc.value, vc.value, fc.value), fc.rest)
  }

  function EncodeHeader3(h: Header3, magic: seq<Byte>, tail: seq<Byte>): (r: seq<Byte>)
    ensures |r| == 8 + 4 + |magic| + 10 + |tail|
  {
    EncodeMagic(VersionPrefix, EncodeRevision3(h.revision, EncodeMagic(magic,
      EncodeU16(h.lodCount, EncodeU32(h.vertexCount, EncodeU32(h.faceCount, tail))))))
  }

  function ReadMesh3(s: seq<Byte>): (r: Parse<Mesh3>)
    ensures r.Ok? ==> r.value.Wf()
  {
    var h :- ReadHeader3(s, Header3Magic);
    var vs :- ReadMany(h.rest, h.value.vertexCount, ReadVertex2);
    var fs :- ReadMany(vs.rest, h.value.faceCount, ReadFace2);
    var ls :- ReadMany(fs.rest, h.value.lodCount, ReadLod3);
    Ok(Mesh3(h.value, vs.value, fs.value, ls.value), ls.rest)
  }

  function EncodeMesh3(m: Mesh3, tail: seq<Byte>): seq<Byte>
  {
    EncodeHeader3(m.header, Header3Magic, EncodeMany(m.vertices, EncodeVertex2,
      EncodeMany(m.faces, EncodeFace2, EncodeMany(m.lods, EncodeLod3, tail))))
  }

  function ReadMesh3Truncated(s: seq<Byte>): (r: Parse<Mesh3Truncated>)
    ensures r.Ok? ==> r.value.Wf()
  {
    var h :- ReadHeader3(s, Header3TruncatedMagic);
    var vs :- ReadMany(h.rest, h.value.vertexCount, ReadVertex2Truncated);
    var fs :- ReadMany(vs.rest, h.value.faceCount, ReadFace2);
    var ls :- ReadMany(fs.rest, h.value.lodCount, ReadLod3);
    Ok(Mesh3Truncated(h.value, vs.value, fs.value, ls.value), ls.rest)
  }

  function EncodeMesh3Truncated(m: Mesh3Truncated, tail: seq<Byte>): seq<Byte>
  {
    EncodeHeader3(m.header, Header3TruncatedMagic, EncodeMany(m.vertices, EncodeVertex2Truncated,
      EncodeMany(m.faces, EncodeFace2, EncodeMany(m.lods, EncodeLod3, tail))))
  }

  function Widen3(m: Mesh3Truncated): Mesh3
  {
    Mesh3(m.header, WidenVertices(m.vertices), m.faces, m.lods)
  }

  /** `read3`: as `read2`, with the revision, faces and lods carried over by the fallback. */
  function Read3(s: seq<Byte>): (r: Result<Mesh3>)
    ensures r.Success? ==> r.value.Wf()
    ensures ReadMesh3(s).Ok? ==> r == Success(ReadMesh3(s).value)
    ensures ReadMesh3(s).Fail? && ReadMesh3(s).error != BadMagic ==> r == Failure(BinRead(ReadMesh3(s).error))
    ensures ReadMesh3(s).Fail? && ReadMesh3(s).error == BadMagic ==>
      r == (match ReadMesh3Truncated(s)
            case Ok(t, _) => Success(Widen3(t))
            case Fail(e) => Failure(BinRead(e)))
    ensures ReadMesh3(s).Fail? && r.Success? ==>
      forall i | 0 <= i < |r.value.vertices| :: r.value.vertices[i].color == OpaqueWhite
  {
    match ReadMesh3(s)
    case Ok(m, _) => Success(m)
    case Fail(e) =>
      if e != BadMagic then Failure(BinRead(e))
      else
        match ReadMesh3Truncated(s)
        case Ok(t, _) => Success(Widen3(t))
        case Fail(e') => Failure(BinRead(e'))
  }

  /** `fix3` over a decoded mesh. */
  method Fix3(mesh: Mesh3) returns (fixed: Mesh3)
    ensures fixed == mesh.(vertices := FixedTangents(mesh.vertices))
  {
    var vertices := FixVertexList(mesh.vertices);
    fixed := mesh.(vertices := vertices);
  }

  // ------------------------------------------------- version 3 round trips

  lemma ReadEncodeHeader3(h: Header3, magic: seq<Byte>, tail: seq<Byte>)
    ensures ReadHeader3(EncodeHeader3(h, magic, tail), magic) == Ok(h, tail)
  {
    ScalarCodecs();
    var counts := EncodeU16(h.lodCount, EncodeU32(h.vertexCount, EncodeU32(h.faceCount, tail)));
    var afterRev := EncodeMagic(magic, counts);
    var afterPrefix := EncodeRevision3(h.revision, afterRev);
    ReadEncodeMagic(VersionPrefix, afterPrefix);
    RevisionCodecs(h.revision, Version400, afterRev, []);
    ReadEncodeMagic(magic, counts);
  }

  lemma EncodeReadHeader3(s: seq<Byte>, magic: seq<Byte>)
    requires ReadHeader3(s, magic).Ok?
    ensures EncodeHeader3(ReadHeader3(s, magic).value, magic, ReadHeader3(s, magic).rest) == s
  {
    var m1 := ReadMagic(s, VersionPrefix);
    EncodeReadMagic(s, VersionPrefix);
    var rev := ReadRevision3(m1.rest);
    RevisionCodecs(Version300, Version400, [], m1.rest);
    var m2 := ReadMagic(rev.rest, magic);
    EncodeReadMagic(rev.rest, magic);
    var lc := ReadU16(m2.rest);
    EncodeReadU16(m2.rest);
    var vc := ReadU32(lc.rest);
    EncodeReadU32(lc.rest);
    var fc := ReadU32(vc.rest);
    EncodeReadU32(vc.rest);
    assert EncodeU16(lc.value, EncodeU32(vc.value, EncodeU32(fc.value, fc.rest))) == m2.rest;
  }

  lemma ReadEncodeMesh3(m: Mesh3, tail: seq<Byte>)
    requires m.Wf()
    ensures ReadMesh3(EncodeMesh3(m, tail)) == Ok(m, tail)
  {
    RecordCodecs();
    var lods := EncodeMany(m.lods, EncodeLod3, tail);
    var faces := EncodeMany(m.faces, EncodeFace2, lods);
    var body := EncodeMany(m.vertices, EncodeVertex2, faces);
    ReadEncodeHeader3(m.header, Header3Magic, body);
    ReadEncodeMany(m.vertices, faces, ReadVertex2, EncodeVertex2);
    ReadEncodeMany(m.faces, lods, ReadFace2, EncodeFace2);
    ReadEncodeMany(m.lods, tail, ReadLod3, EncodeLod3);
  }

  lemma EncodeReadMesh3(s: seq<Byte>)
    requires ReadMesh3(s).Ok?
    ensures EncodeMesh3(ReadMesh3(s).value, ReadMesh3(s).rest) == s
  {
    RecordCodecs();
    var h := ReadHeader3(s, Header3Magic);
    EncodeReadHeader3(s, Header3Magic);
    var vs := ReadMany(h.rest, h.value.vertexCount, ReadVertex2);
    var fs := ReadMany(vs.rest, h.value.faceCount, ReadFace2);
    EncodeReadMany(h.rest, h.value.vertexCount, ReadVertex2, EncodeVertex2);
    EncodeReadMany(vs.rest, h.value.faceCount, ReadFace2, EncodeFace2);
    EncodeReadMany(fs.rest, h.value.lodCount, ReadLod3, EncodeLod3);
  }

  lemma ReadEncodeMesh3Truncated(m: Mesh3Truncated, tail: seq<Byte>)
    requires m.Wf()
    ensures ReadMesh3Truncated(EncodeMesh3Truncated(m, tail)) == Ok(m, tail)
  {
    RecordCodecs();
    var lods := EncodeMany(m.lods, EncodeLod3, tail);
    var faces := EncodeMany(m.faces, EncodeFace2, lods);
    var body := EncodeMany(m.vertices, EncodeVertex2Truncated, faces);
    ReadEncodeHeader3(m.header, Header3TruncatedMagic, body);
    ReadEncodeMany(m.vertices, faces, ReadVertex2Truncated, EncodeVertex2Truncated);
    ReadEncodeMany(m.faces, lods, ReadFace2, EncodeFace2);
    ReadEncodeMany(m.lods, tail, ReadLod3, EncodeLod3);
  }

  lemma EncodeReadMesh3Truncated(s: seq<Byte>)
    requires ReadMesh3Truncated(s).Ok?
    ensures EncodeMesh3Truncated(ReadMesh3Truncated(s).value, ReadMesh3Truncated(s).rest) == s
  {
    RecordCodecs();
    var h := ReadHeader3(s, Header3TruncatedMagic);
    EncodeReadHeader3(s, Header3TruncatedMagic);
    var vs := ReadMany(h.rest, h.value.vertexCount, ReadVertex2Truncated);
    var fs := ReadMany(vs.rest, h.value.faceCount, ReadFace2);
    EncodeReadMany(h.rest, h.value.vertexCount, ReadVertex2Truncated, EncodeVertex2Truncated);
    EncodeReadMany(vs.rest, h.value.faceCount, ReadFace2, EncodeFace2);
    EncodeReadMany(fs.rest, h.value.lodCount, ReadLod3, EncodeLod3);
  }

  /**
   * The version 3 fallback loses only colour, as in version 2: the widened
   * mesh narrows back to the 36-byte mesh it came from, whose encoding is the
   * input that was read.
   */
  lemma Read3FallbackLossless(s: seq<Byte>)
    requires ReadMesh3(s).Fail? && Read3(s).Success?
    ensures ReadMesh3Truncated(s).Ok?
    ensures var t := ReadMesh3Truncated(s);
      Read3(s).value == Widen3(t.value)
      && NarrowVertices(Read3(s).value.vertices) == t.value.vertices
      && EncodeMesh3Truncated(Mesh3Truncated(Read3(s).value.header, NarrowVertices(Read3(s).value.vertices),
           Read3(s).value.faces, Read3(s).value.lods), t.rest) == s
  {
    var t := ReadMesh3Truncated(s);
    forall i | 0 <= i < |t.value.vertices| ensures Narrow(Widen(t.value.vertices[i])) == t.value.vertices[i] {
      WidenNarrow(t.value.vertices[i], Widen(t.value.vertices[i]));
    }
    assert NarrowVertices(WidenVertices(t.value.vertices)) == t.value.vertices;
    EncodeReadMesh3Truncated(s);
  }

  /**
   * `read3` over both layouts: a well-formed 40-byte mesh is read as it is;
   * a well-formed 36-byte mesh is read through the fallback, widened.
   */
  lemma Read3Layouts(m: Mesh3, t: Mesh3Truncated, tail: seq<Byte>)
    requires m.Wf() && t.Wf()
    ensures Read3(EncodeMesh3(m, tail)) == Success(m)
    ensures Read3(EncodeMesh3Truncated(t, tail)) == Success(Widen3(t))
  {
    ReadEncodeMesh3(m, tail);
    ReadEncodeMesh3Truncated(t, tail);
    var body := EncodeMany(t.vertices, EncodeVertex2Truncated,
      EncodeMany(t.faces, EncodeFace2, EncodeMany(t.lods, EncodeLod3, tail)));
    var afterRev := EncodeMagic(Header3TruncatedMagic,
      EncodeU16(t.header.lodCount, EncodeU32(t.header.vertexCount, EncodeU32(t.header.faceCount, body))));
    RevisionCodecs(t.header.revision, Version400, afterRev, []);
    ReadEncodeMagic(VersionPrefix, EncodeRevision3(t.header.revision, afterRev));
    assert afterRev[..7] == Header3TruncatedMagic;
    assert ReadMagic(afterRev, Header3Magic) == Fail(BadMagic);
  }

  // ============================================================= version 4

  /** After the revision: newline and the header size 24 (`u16`). */
  const Header4Magic: seq<Byte> := [0x0A, 0x18, 0x00]

  datatype Header4 = Header4(revision: Revision4, lodType: LodType4, vertexCount: U32, faceCount: U32,
    lodCount: U16, boneCount: U16, boneNamesLen: U32, subsetCount: U16, lodHqCount: Byte, padding: Byte)

  datatype Mesh4 = Mesh4(header: Header4, vertices: seq<Vertex2>, envelopes: seq<Envelope4>, faces: seq<Face2>,
    lods: seq<Lod3>, bones: seq<Bone4>, boneNames: seq<Byte>, subsets: seq<Subset4>)
  {
    /** The vector lengths of the full layout: one envelope per vertex. */
    predicate Wf() {
      |vertices| == header.vertexCount && |envelopes| == header.vertexCount
      && |faces| == header.faceCount && |lods| == header.lodCount && |bones| == header.boneCount
      && |boneNames| == header.boneNamesLen && |subsets| == header.subsetCount
    }

    /** The vector lengths when envelopes are present only for a mesh with bones. */
    predicate SkinnedWf() {
      |vertices| == header.vertexCount && |envelopes| == (if header.boneCount == 0 then 0 else header.vertexCount)
      && |faces| == header.faceCount && |lods| == header.lodCount && |bones| == header.boneCount
      && |boneNames| == header.boneNamesLen && |subsets| == header.subsetCount
    }
  }

  /** The header of the boneless layout: the bone count slot must hold 0, and no count is kept. */
  datatype Header4Boneless = Header4Boneless(revision: Revision4, lodType: LodType4, vertexCount: U32,
    faceCount: U32, lodCount: U16, boneNamesLen: U32, subsetCount: U16, lodHqCount: Byte, padding: Byte)

  datatype Mesh4Boneless = Mesh4Boneless(header: Header4Boneless, vertices: seq<Vertex2>, faces: seq<Face2>,
    lods: seq<Lod3>, boneNames: seq<Byte>, subsets: seq<Subset4>)
  {
    predicate Wf() {
      |vertices| == header.vertexCount && |faces| == header.faceCount && |lods| == header.lodCount
      && |boneNames| == header.boneNamesLen && |subsets| == header.subsetCount
    }
  }

  /** The fields before the bone count slot, shared by both layouts. */
  function ReadHeader4Head(s: seq<Byte>): Parse<(Revision4, LodType4, U32, U32, U16)>
  {
    var m1 :- ReadMagic(s, VersionPrefix);
    var rev :- ReadRevision4(m1.rest);
    var m2 :- ReadMagic(rev.rest, Header4Magic);
    var lt :- ReadLodType4(m2.rest);
    var vc :- ReadU32(lt.rest);
    var fc :- ReadU32(vc.rest);
    var lc :- ReadU16(fc.rest);
    Ok((rev.value, lt.value, vc.value, fc.value, lc.value), lc.rest)
  }

  function ReadHeader4(s: seq<Byte>): Parse<Header4>
  {
    var head :- ReadHeader4Head(s);
    var bc :- ReadU16(head.rest);
    var rest :- ReadHeader4Tail(bc.rest);
    var (rev, lt, vc, fc, lc) := head.value;
    Ok(Header4(rev, lt, vc, fc, lc, bc.value, rest.value.0, rest.value.1, rest.value.2, rest.value.3), rest.rest)
  }

  /** The fields after the bone count slot, shared by both layouts. */
  function ReadHeader4Tail(s: seq<Byte>): Parse<(U32, U16, Byte, Byte)>
  {
    var bnl :- ReadU32(s);
    var sc :- ReadU16(bnl.rest);
    var hq :- ReadU8(sc.rest);
    var pad :- ReadU8(hq.rest);
    Ok((bnl.value, sc.value, hq.value, pad.value), pad.rest)
  }

  function EncodeHeader4Tail(boneNamesLen: U32, subsetCount: U16, lodHqCount: Byte, padding: Byte,
    tail: seq<Byte>): (r: seq<Byte>)
    ensures |r| == 8 + |tail|
  {
    EncodeU32(boneNamesLen, EncodeU16(subsetCount, EncodeU8(lodHqCount, EncodeU8(padding, tail))))
  }

  /** The encoding of a version 4 header up to, not including, the bone count slot. */
  function EncodeHeader4Head(revision: Revision4, lodType: LodType4, vertexCount: U32, faceCount: U32,
    lodCount: U16, tail: seq<Byte>): (r: seq<Byte>)
    ensures |r| == 27 + |tail|
  {
    EncodeMagic(VersionPrefix, EncodeRevision4(revision, EncodeMagic(Header4Magic, EncodeLodType4(lodType,
      EncodeU32(vertexCount, EncodeU32(faceCount, EncodeU16(lodCount, tail)))))))
  }

  function EncodeHeader4(h: Header4, tail: seq<Byte>): (r: seq<Byte>)
    ensures |r| == 37 + |tail|
  {
    EncodeHeader4Head(h.revision, h.lodType, h.vertexCount, h.faceCount, h.lodCount,
      EncodeU16(h.boneCount, EncodeHeader4Tail(h.boneNamesLen, h.subsetCount, h.lodHqCount, h.padding, tail)))
  }

  function ReadHeader4Boneless(s: seq<Byte>): Parse<Header4Boneless>
  {
    var head :- ReadHeader4Head(s);
    var bc :- ReadMagic(head.rest, [0, 0]);
    var rest :- ReadHeader4Tail(bc.rest);
    var (rev, lt, vc, fc, lc) := head.value;
    Ok(Header4Boneless(rev, lt, vc, fc, lc, rest.value.0, rest.value.1, rest.value.2, rest.value.3), rest.rest)
  }

  function EncodeHeader4Boneless(h: Header4Boneless, tail: seq<Byte>): (r: seq<Byte>)
    ensures |r| == 37 + |tail|
  {
    EncodeHeader4Head(h.revision, h.lodType, h.vertexCount, h.faceCount, h.lodCount,
      EncodeMagic([0, 0], EncodeHeader4Tail(h.boneNamesLen, h.subsetCount, h.lodHqCount, h.padding, tail)))
  }

  function ReadMesh4(s: seq<Byte>): (r: Parse<Mesh4>)
    ensures r.Ok? ==> r.value.Wf()
  {
    var h :- ReadHeader4(s);
    var vs :- ReadMany(h.rest, h.value.vertexCount, ReadVertex2);
    var es :- ReadMany(vs.rest, h.value.vertexCount, ReadEnvelope4);
    var fs :- ReadMany(es.rest, h.value.faceCount, ReadFace2);
    var ls :- ReadMany(fs.rest, h.value.lodCount, ReadLod3);
    var bs :- ReadMany(ls.rest, h.value.boneCount, ReadBone4);
    var ns :- ReadMany(bs.rest, h.value.boneNamesLen, ReadU8);
    var ss :- ReadMany(ns.rest, h.value.subsetCount, ReadSubset4);
    Ok(Mesh4(h.value, vs.value, es.value, fs.value, ls.value, bs.value, ns.value, ss.value), ss.rest)
  }

  function EncodeMesh4(m: Mesh4, tail: seq<Byte>): seq<Byte>
  {
    EncodeHeader4(m.header, EncodeMany(m.vertices, EncodeVertex2, EncodeMany(m.envelopes, EncodeEnvelope4,
      EncodeMany(m.faces, EncodeFace2, EncodeMany(m.lods, EncodeLod3, EncodeMany(m.bones, EncodeBone4,
      EncodeMany(m.boneNames, EncodeU8, EncodeMany(m.subsets, EncodeSubset4, tail))))))))
  }

  function ReadMesh4Boneless(s: seq<Byte>): (r: Parse<Mesh4Boneless>)
    ensures r.Ok? ==> r.value.Wf()
  {
    var h :- ReadHeader4Boneless(s);
    var body :- ReadBonelessBody(h.rest, h.value);
    Ok(Mesh4Boneless(h.value, body.value.0, body.value.1, body.value.2, body.value.3, body.value.4), body.rest)
  }

  /** The vectors of the boneless layout: no envelopes and no bones. */
  function ReadBonelessBody(s: seq<Byte>, h: Header4Boneless)
    : (r: Parse<(seq<Vertex2>, seq<Face2>, seq<Lod3>, seq<Byte>, seq<Subset4>)>)
    ensures r.Ok? ==> (|r.value.0| == h.vertexCount && |r.value.1| == h.faceCount && |r.value.2| == h.lodCount
      && |r.value.3| == h.boneNamesLen && |r.value.4| == h.subsetCount)
  {
    var vs :- ReadMany(s, h.vertexCount, ReadVertex2);
    var fs :- ReadMany(vs.rest, h.faceCount, ReadFace2);
    var ls :- ReadMany(fs.rest, h.lodCount, ReadLod3);
    var ns :- ReadMany(ls.rest, h.boneNamesLen, ReadU8);
    var ss :- ReadMany(ns.rest, h.subsetCount, ReadSubset4);
    Ok((vs.value, fs.value, ls.value, ns.value, ss.value), ss.rest)
  }

  function EncodeMesh4Boneless(m: Mesh4Boneless, tail: seq<Byte>): seq<Byte>
  {
    EncodeHeader4Boneless(m.header, EncodeMany(m.vertices, EncodeVertex2, EncodeMany(m.faces, EncodeFace2,
      EncodeMany(m.lods, EncodeLod3, EncodeMany(m.boneNames, EncodeU8, EncodeMany(m.subsets, EncodeSubset4, tail))))))
  }

  /** A boneless mesh as a full one: bone count 0, no envelopes, no bones, every other field copied. */
  function WithBones(m: Mesh4Boneless): (r: Mesh4)
    ensures r.header.boneCount == 0 && r.envelopes == [] && r.bones == []
  {
    var h := m.header;
    Mesh4(Header4(h.revision, h.lodType, h.vertexCount, h.faceCount, h.lodCount, 0, h.boneNamesLen,
      h.subsetCount, h.lodHqCount, h.padding), m.vertices, [], m.faces, m.lods, [], m.boneNames, m.subsets)
  }

  /**
   * `read4`: the boneless layout first; when a header constant does not match
   * (the bone count slot is not 0, among others), the full layout from the
   * start of the input. Any other failure is returned as it is.
   */
  function Read4(s: seq<Byte>): (r: Result<Mesh4>)
    ensures ReadMesh4Boneless(s).Ok? ==> r == Success(WithBones(ReadMesh4Boneless(s).value))
    ensures ReadMesh4Boneless(s).Fail? && ReadMesh4Boneless(s).error != BadMagic ==>
      r == Failure(BinRead(ReadMesh4Boneless(s).error))
    ensures ReadMesh4Boneless(s).Fail? && ReadMesh4Boneless(s).error == BadMagic ==> r == FromParse(ReadMesh4(s))
    ensures ReadMesh4Boneless(s).Fail? && r.Success? ==> r.value.Wf()
  {
    match ReadMesh4Boneless(s)
    case Ok(b, _) => Success(WithBones(b))
    case Fail(e) =>
      if e != BadMagic then Failure(BinRead(e))
      else FromParse(ReadMesh4(s))
  }

  /** `fix4` over a decoded mesh. */
  method Fix4(mesh: Mesh4) returns (fixed: Mesh4)
    ensures fixed == mesh.(vertices := FixedTangents(mesh.vertices))
  {
    var vertices := FixVertexList(mesh.vertices);
    fixed := mesh.(vertices := vertices);
  }

  // ------------------------------------------------- version 4 round trips

  lemma ReadEncodeHeader4Head(revision: Revision4, lodType: LodType4, vertexCount: U32, faceCount: U32,
    lodCount: U16, tail: seq<Byte>)
    ensures ReadHeader4Head(EncodeHeader4Head(revision, lodType, vertexCount, faceCount, lodCount, tail))
      == Ok((revision, lodType, vertexCount, faceCount, lodCount), tail)
  {
    var counts := EncodeU32(vertexCount, EncodeU32(faceCount, EncodeU16(lodCount, tail)));
    var afterRev := EncodeMagic(Header4Magic, EncodeLodType4(lodType, counts));
    ReadEncodeMagic(VersionPrefix, EncodeRevision4(revision, afterRev));
    RevisionCodecs(Version300, revision, afterRev, []);
    ReadEncodeMagic(Header4Magic, EncodeLodType4(lodType, counts));
    ReadEncodeLodType4(lodType, counts);
    ReadEncodeU32(vertexCount, EncodeU32(faceCount, EncodeU16(lodCount, tail)));
    ReadEncodeU32(faceCount, EncodeU16(lodCount, tail));
    ReadEncodeU16(lodCount, tail);
  }

  lemma EncodeReadHeader4Head(s: seq<Byte>)
    requires ReadHeader4Head(s).Ok?
    ensures var h := ReadHeader4Head(s);
      EncodeHeader4Head(h.value.0, h.value.1, h.value.2, h.value.3, h.value.4, h.rest) == s
  {
    var m1 := ReadMagic(s, VersionPrefix);
    EncodeReadMagic(s, VersionPrefix);
    var rev := ReadRevision4(m1.rest);
    RevisionCodecs(Version300, Version400, [], m1.rest);
    var m2 := ReadMagic(rev.rest, Header4Magic);
    EncodeReadMagic(rev.rest, Header4Magic);
    var lt := ReadLodType4(m2.rest);
    EncodeReadLodType4(m2.rest);
    var vc := ReadU32(lt.rest);
    EncodeReadU32(lt.rest);
    var fc := ReadU32(vc.rest);
    EncodeReadU32(vc.rest);
    var lc := ReadU16(fc.rest);
    EncodeReadU16(fc.rest);
  }

  lemma Header4TailCodec(boneNamesLen: U32, subsetCount: U16, lodHqCount: Byte, padding: Byte, tail: seq<Byte>,
    s: seq<Byte>)
    ensures ReadHeader4Tail(EncodeHeader4Tail(boneNamesLen, subsetCount, lodHqCount, padding, tail))
      == Ok((boneNamesLen, subsetCount, lodHqCount, padding), tail)
    ensures ReadHeader4Tail(s).Ok? ==> var t := ReadHeader4Tail(s).value;
      EncodeHeader4Tail(t.0, t.1, t.2, t.3, ReadHeader4Tail(s).rest) == s
  {
    var afterHq := EncodeU8(padding, tail);
    var afterSc := EncodeU8(lodHqCount, afterHq);
    var afterBnl := EncodeU16(subsetCount, afterSc);
    ReadEncodeU32(boneNamesLen, afterBnl);
    ReadEncodeU16(subsetCount, afterSc);
    ReadEncodeU8(lodHqCount, afterHq);
    ReadEncodeU8(padding, tail);
    if ReadHeader4Tail(s).Ok? {
      var bnl := ReadU32(s);
      var sc := ReadU16(bnl.rest);
      var hq := ReadU8(sc.rest);
      EncodeReadU32(s);
      EncodeReadU16(bnl.rest);
      EncodeReadU8(sc.rest);
      EncodeReadU8(hq.rest);
    }
  }

  lemma ReadEncodeHeader4(h: Header4, tail: seq<Byte>)
    ensures ReadHeader4(EncodeHeader4(h, tail)) == Ok(h, tail)
  {
    var rest := EncodeHeader4Tail(h.boneNamesLen, h.subsetCount, h.lodHqCount, h.padding, tail);
    ReadEncodeHeader4Head(h.revision, h.lodType, h.vertexCount, h.faceCount, h.lodCount, EncodeU16(h.boneCount, rest));
    ReadEncodeU16(h.boneCount, rest);
    Header4TailCodec(h.boneNamesLen, h.subsetCount, h.lodHqCount, h.padding, tail, []);
  }

  lemma EncodeReadHeader4(s: seq<Byte>)
    requires ReadHeader4(s).Ok?
    ensures EncodeHeader4(ReadHeader4(s).value, ReadHeader4(s).rest) == s
  {
    var head := ReadHeader4Head(s);
    EncodeReadHeader4Head(s);
    var bc := ReadU16(head.rest);
    EncodeReadU16(head.rest);
    Header4TailCodec(0, 0, 0, 0, [], bc.rest);
  }

  lemma ReadEncodeHeader4Boneless(h: Header4Boneless, tail: seq<Byte>)
    ensures ReadHeader4Boneless(EncodeHeader4Boneless(h, tail)) == Ok(h, tail)
  {
    var rest := EncodeHeader4Tail(h.boneNamesLen, h.subsetCount, h.lodHqCount, h.padding, tail);
    ReadEncodeHeader4Head(h.revision, h.lodType, h.vertexCount, h.faceCount, h.lodCount, EncodeMagic([0, 0], rest));
    ReadEncodeMagic([0, 0], rest);
    Header4TailCodec(h.boneNamesLen, h.subsetCount, h.lodHqCount, h.padding, tail, []);
  }

  lemma EncodeReadHeader4Boneless(s: seq<Byte>)
    requires ReadHeader4Boneless(s).Ok?
    ensures EncodeHeader4Boneless(ReadHeader4Boneless(s).value, ReadHeader4Boneless(s).rest) == s
  {
    var head := ReadHeader4Head(s);
    EncodeReadHeader4Head(s);
    var bc := ReadMagic(head.rest, [0, 0]);
    EncodeReadMagic(head.rest, [0, 0]);
    Header4TailCodec(0, 0, 0, 0, [], bc.rest);
  }

  lemma ReadEncodeMesh4(m: Mesh4, tail: seq<Byte>)
    requires m.Wf()
    ensures ReadMesh4(EncodeMesh4(m, tail)) == Ok(m, tail)
  {
    RecordCodecs();
    ScalarCodecs();
    var subsets := EncodeMany(m.subsets, EncodeSubset4, tail);
    var names := EncodeMany(m.boneNames, EncodeU8, subsets);
    var bones := EncodeMany(m.bones, EncodeBone4, names);
    var lods := EncodeMany(m.lods, EncodeLod3, bones);
    var faces := EncodeMany(m.faces, EncodeFace2, lods);
    var envelopes := EncodeMany(m.envelopes, EncodeEnvelope4, faces);
    var vertices := EncodeMany(m.vertices, EncodeVertex2, envelopes);
    ReadEncodeHeader4(m.header, vertices);
    ReadEncodeMany(m.vertices, envelopes, ReadVertex2, EncodeVertex2);
    ReadEncodeMany(m.envelopes, faces, ReadEnvelope4, EncodeEnvelope4);
    ReadEncodeMany(m.faces, lods, ReadFace2, EncodeFace2);
    ReadEncodeMany(m.lods, bones, ReadLod3, EncodeLod3);
    ReadEncodeMany(m.bones, names, ReadBone4, EncodeBone4);
    ReadEncodeMany(m.boneNames, subsets, ReadU8, EncodeU8);
    ReadEncodeMany(m.subsets, tail, ReadSubset4, EncodeSubset4);
  }

  lemma EncodeReadMesh4(s: seq<Byte>)
    requires ReadMesh4(s).Ok?
    ensures EncodeMesh4(ReadMesh4(s).value, ReadMesh4(s).rest) == s
  {
    RecordCodecs();
    ScalarCodecs();
    var h := ReadHeader4(s);
    EncodeReadHeader4(s);
    var n := h.value;
    var vs := ReadMany(h.rest, n.vertexCount, ReadVertex2);
    var es := ReadMany(vs.rest, n.vertexCount, ReadEnvelope4);
    var fs := ReadMany(es.rest, n.faceCount, ReadFace2);
    var ls := ReadMany(fs.rest, n.lodCount, ReadLod3);
    var bs := ReadMany(ls.rest, n.boneCount, ReadBone4);
    var ns := ReadMany(bs.rest, n.boneNamesLen, ReadU8);
    EncodeReadMany(h.rest, n.vertexCount, ReadVertex2, EncodeVertex2);
    EncodeReadMany(vs.rest, n.vertexCount, ReadEnvelope4, EncodeEnvelope4);
    EncodeReadMany(es.rest, n.faceCount, ReadFace2, EncodeFace2);
    EncodeReadMany(fs.rest, n.lodCount, ReadLod3, EncodeLod3);
    EncodeReadMany(ls.rest, n.boneCount, ReadBone4, EncodeBone4);
    EncodeReadMany(bs.rest, n.boneNamesLen, ReadU8, EncodeU8);
    EncodeReadMany(ns.rest, n.subsetCount, ReadSubset4, EncodeSubset4);
  }

  lemma ReadEncodeMesh4Boneless(m: Mesh4Boneless, tail: seq<Byte>)
    requires m.Wf()
    ensures ReadMesh4Boneless(EncodeMesh4Boneless(m, tail)) == Ok(m, tail)
  {
    RecordCodecs();
    ScalarCodecs();
    var subsets := EncodeMany(m.subsets, EncodeSubset4, tail);
    var names := EncodeMany(m.boneNames, EncodeU8, subsets);
    var lods := EncodeMany(m.lods, EncodeLod3, names);
    var faces := EncodeMany(m.faces, EncodeFace2, lods);
    var vertices := EncodeMany(m.vertices, EncodeVertex2, faces);
    ReadEncodeHeader4Boneless(m.header, vertices);
    ReadEncodeMany(m.vertices, faces, ReadVertex2, EncodeVertex2);
    ReadEncodeMany(m.faces, lods, ReadFace2, EncodeFace2);
    ReadEncodeMany(m.lods, names, ReadLod3, EncodeLod3);
    ReadEncodeMany(m.boneNames, subsets, ReadU8, EncodeU8);
    ReadEncodeMany(m.subsets, tail, ReadSubset4, EncodeSubset4);
  }

  lemma EncodeReadMesh4Boneless(s: seq<Byte>)
    requires ReadMesh4Boneless(s).Ok?
    ensures EncodeMesh4Boneless(ReadMesh4Boneless(s).value, ReadMesh4Boneless(s).rest) == s
  {
    RecordCodecs();
    ScalarCodecs();
    var h := ReadHeader4Boneless(s);
    EncodeReadHeader4Boneless(s);
    var n := h.value;
    var vs := ReadMany(h.rest, n.vertexCount, ReadVertex2);
    var fs := ReadMany(vs.rest, n.faceCount, ReadFace2);
    var ls := ReadMany(fs.rest, n.lodCount, ReadLod3);
    var ns := ReadMany(ls.rest, n.boneNamesLen, ReadU8);
    EncodeReadMany(h.rest, n.vertexCount, ReadVertex2, EncodeVertex2);
    EncodeReadMany(vs.rest, n.faceCount, ReadFace2, EncodeFace2);
    EncodeReadMany(fs.rest, n.lodCount, ReadLod3, EncodeLod3);
    EncodeReadMany(ls.rest, n.boneNamesLen, ReadU8, EncodeU8);
    EncodeReadMany(ns.rest, n.subsetCount, ReadSubset4, EncodeSubset4);
  }

  /**
   * `read4` over both layouts: a well-formed mesh with bones is read as it is
   * (its non-zero bone count sends the boneless attempt to the fallback), and
   * a well-formed boneless mesh is read with bone count 0 and no envelopes or bones.
   */
  lemma Read4Layouts(m: Mesh4, b: Mesh4Boneless, tail: seq<Byte>)
    requires m.Wf() && m.header.boneCount != 0 && b.Wf()
    ensures Read4(EncodeMesh4(m, tail)) == Success(m)
    ensures Read4(EncodeMesh4Boneless(b, tail)) == Success(WithBones(b))
  {
    ReadEncodeMesh4(m, tail);
    ReadEncodeMesh4Boneless(b, tail);
    var h := m.header;
    var body := EncodeMany(m.vertices, EncodeVertex2, EncodeMany(m.envelopes, EncodeEnvelope4,
      EncodeMany(m.faces, EncodeFace2, EncodeMany(m.lods, EncodeLod3, EncodeMany(m.bones, EncodeBone4,
      EncodeMany(m.boneNames, EncodeU8, EncodeMany(m.subsets, EncodeSubset4, tail)))))));
    var slot := EncodeU16(h.boneCount, EncodeHeader4Tail(h.boneNamesLen, h.subsetCount, h.lodHqCount, h.padding, body));
    ReadEncodeHeader4Head(h.revision, h.lodType, h.vertexCount, h.faceCount, h.lodCount, slot);
    ReadEncodeU16(h.boneCount, EncodeHeader4Tail(h.boneNamesLen, h.subsetCount, h.lodHqCount, h.padding, body));
    assert slot[..2] != [0, 0];
    assert ReadMagic(slot, [0, 0]) == Fail(BadMagic);
  }

  /**
   * Whichever layout `read4` ends up using, the mesh it returns has envelopes
   * exactly when it has bones: a header with bone count 0 always reads as the
   * boneless layout, so the full layout is only ever used with bones.
   */
  lemma Read4EnvelopesFollowBones(s: seq<Byte>)
    requires Read4(s).Success?
    ensures Read4(s).value.SkinnedWf()
  {
    var boneless := ReadMesh4Boneless(s);
    if boneless.Ok? {
      var b := boneless.value;
      assert Read4(s).value == WithBones(b);
    } else {
      assert boneless.error == BadMagic;
      var m := ReadMesh4(s);
      assert Read4(s) == FromParse(m);
      ReadMesh4Header(s);
      if m.value.header.boneCount == 0 {
        BonelessReadsZeroBones(s);
        assert false;
      }
    }
  }

  /** A full-layout mesh carries the header read at the start of its input. */
  lemma ReadMesh4Header(s: seq<Byte>)
    requires ReadMesh4(s).Ok?
    ensures ReadHeader4(s).Ok? && ReadMesh4(s).value.header == ReadHeader4(s).value
  {
  }

  /** A full-layout header with bone count 0 is also a boneless header, and the boneless body can only run out of input. */
  lemma BonelessReadsZeroBones(s: seq<Byte>)
    requires ReadHeader4(s).Ok? && ReadHeader4(s).value.boneCount == 0
    ensures ReadMesh4Boneless(s) != Fail(BadMagic)
  {
    var head := ReadHeader4Head(s);
    assert head.Ok?;
    var bc := ReadU16(head.rest);
    assert bc.Ok? && bc.value == 0;
    ZeroU16(head.rest);
    assert ReadMagic(head.rest, [0, 0]) == Ok((), bc.rest);
    var h := ReadHeader4Boneless(s);
    assert h.Ok?;
    BonelessBodyEofOnly(h.rest, h.value);
  }

  /** A `u16` that reads as 0 is two zero bytes. */
  lemma ZeroU16(s: seq<Byte>)
    requires ReadU16(s).Ok? && ReadU16(s).value == 0
    ensures s[..2] == [0, 0]
  {
    assert s[0] == 0 && s[1] == 0;
    assert s[..2] == [s[0], s[1]];
  }

  lemma BonelessBodyEofOnly(s: seq<Byte>, h: Header4Boneless)
    ensures ReadBonelessBody(s, h).Fail? ==> ReadBonelessBody(s, h).error == BinError.UnexpectedEof
  {
    RecordsEofOnly();
    ScalarsEofOnly();
    var vs := ReadMany(s, h.vertexCount, ReadVertex2);
    ReadManyEofOnly(s, h.vertexCount, ReadVertex2);
    if vs.Ok? {
      var fs := ReadMany(vs.rest, h.faceCount, ReadFace2);
      ReadManyEofOnly(vs.rest, h.faceCount, ReadFace2);
      if fs.Ok? {
        var ls := ReadMany(fs.rest, h.lodCount, ReadLod3);
        ReadManyEofOnly(fs.rest, h.lodCount, ReadLod3);
        if ls.Ok? {
          var ns := ReadMany(ls.rest, h.boneNamesLen, ReadU8);
          if ns.Ok? {
            ReadManyEofOnly(ns.rest, h.subsetCount, ReadSubset4);
          }
        }
      }
    }
  }

  // ============================================================== dispatch

  datatype VersionedMesh = Version1(mesh1: Mesh1) | Version2(mesh2: Mesh2) | Version3(mesh3: Mesh3)
    | Version4(mesh4: Mesh4)

  /** A binary mesh with every sentinel tangent replaced. */
  function Fixed2(m: Mesh2): Mesh2 { m.(vertices := FixedTangents(m.vertices)) }
  function Fixed3(m: Mesh3): Mesh3 { m.(vertices := FixedTangents(m.vertices)) }
  function Fixed4(m: Mesh4): Mesh4 { m.(vertices := FixedTangents(m.vertices)) }

  /**
   * `read`: the first 12 bytes choose the version; the whole input is then
   * decoded by that version's reader, and binary meshes get the tangent
   * fix-up. This decoder predates version 5, whose tag it rejects. Input
   * shorter than 12 bytes is outside the domain (the source slices the first
   * 12 bytes without a check).
   */
  function Decode(input: seq<Byte>, ops: TextOps): (r: Result<VersionedMesh>)
    requires |input| >= 12
    ensures r.Success? ==> (r.value.Version1? <==> (VersionOf(input[..12]) == Some(V100) || VersionOf(input[..12]) == Some(V101)))
    ensures r.Success? ==> (r.value.Version2? <==> VersionOf(input[..12]) == Some(V200))
    ensures r.Success? ==> (r.value.Version3? <==> (VersionOf(input[..12]) == Some(V300) || VersionOf(input[..12]) == Some(V301)))
    ensures r.Success? ==> (r.value.Version4? <==> (VersionOf(input[..12]) == Some(V400) || VersionOf(input[..12]) == Some(V401)))
    ensures r.Failure? && r.error.UnknownVersion? <==> (VersionOf(input[..12]).None? || VersionOf(input[..12]) == Some(V500))
    ensures r.Failure? && r.error.UnknownVersion? ==> r.error.bytes == input[..12]
    ensures VersionOf(input[..12]) == Some(V100) ==>
      r == (var m := Decoded100(input, ops); if m.Success? then Success(Version1(m.value)) else Failure(m.error))
    ensures VersionOf(input[..12]) == Some(V101) ==>
      r == (var m := Decoded101(input, ops); if m.Success? then Success(Version1(m.value)) else Failure(m.error))
    ensures VersionOf(input[..12]) == Some(V200) ==>
      r == (var m := Read2(input); if m.Success? then Success(Version2(Fixed2(m.value))) else Failure(m.error))
    ensures (VersionOf(input[..12]) == Some(V300) || VersionOf(input[..12]) == Some(V301)) ==>
      r == (var m := Read3(input); if m.Success? then Success(Version3(Fixed3(m.value))) else Failure(m.error))
    ensures (VersionOf(input[..12]) == Some(V400) || VersionOf(input[..12]) == Some(V401)) ==>
      r == (var m := Read4(input); if m.Success? then Success(Version4(Fixed4(m.value))) else Failure(m.error))
  {
    var tag := input[..12];
    match VersionOf(tag)
    case Some(V100) =>
      var m :- Decoded100(input, ops);
      Success(Version1(m))
    case Some(V101) =>
      var m :- Decoded101(input, ops);
      Success(Version1(m))
    case Some(V200) =>
      var m :- Read2(input);
      Success(Version2(Fixed2(m)))
    case Some(V300) =>
      var m :- Read3(input);
      Success(Version3(Fixed3(m)))
    case Some(V301) =>
      var m :- Read3(input);
      Success(Version3(Fixed3(m)))
    case Some(V400) =>
      var m :- Read4(input);
      Success(Version4(Fixed4(m)))
    case Some(V401) =>
      var m :- Read4(input);
      Success(Version4(Fixed4(m)))
    case _ => Failure(UnknownVersion(tag))
  }

  /** `read`, with the text readers and the in-place fix-ups. */
  method Read(input: seq<Byte>, ops: TextOps) returns (r: Result<VersionedMesh>)
    requires |input| >= 12
    ensures r == Decode(input, ops)
  {
    var tag := input[..12];
    var version := VersionOf(tag);
    if version == Some(V100) {
      var m := Read100(input, ops);
      if m.Failure? {
        return Failure(m.error);
      }
      r := Success(Version1(m.value));
    } else if version == Some(V101) {
      var m := Read101(input, ops);
      if m.Failure? {
        return Failure(m.error);
      }
      r := Success(Version1(m.value));
    } else if version == Some(V200) {
      var m := Read2(input);
      if m.Failure? {
        return Failure(m.error);
      }
      var fixed := Fix2(m.value);
      r := Success(Version2(fixed));
    } else if version == Some(V300) || version == Some(V301) {
      var m := Read3(input);
      if m.Failure? {
        return Failure(m.error);
      }
      var fixed := Fix3(m.value);
      r := Success(Version3(fixed));
    } else if version == Some(V400) || version == Some(V401) {
      var m := Read4(input);
      if m.Failure? {
        return Failure(m.error);
      }
      var fixed := Fix4(m.value);
      r := Success(Version4(fixed));
    } else {
      r := Failure(UnknownVersion(tag));
    }
  }

  /**
   * A version 1 text file through `read`: the tag at the start of its first
   * line picks the 1.00 or 1.01 reader, so the face count and vertices the
   * lines spell come out flipped, and for 1.00 halved, when there are three
   * vertices per face; otherwise the vertex count is the error.
   */
  lemma DecodeText(v: Version, version: seq<Byte>, count: seq<Byte>, vertexLine: seq<Byte>, rest: seq<Byte>,
    ops: TextOps, n: U32, groups: seq<string>, vs: seq<Vertex1>)
    requires v == V100 || v == V101
    requires |version| >= 12 && version[..12] == TagOf(v)
    requires PlainLine(version) && PlainLine(count) && PlainLine(vertexLine)
    requires ops.utf8(version).Some?
    requires ops.utf8(count) == Some(Decimal(n)) && ops.utf8(vertexLine) == Some(Bracketed(groups))
    requires forall i | 0 <= i < |groups| :: NoStops(groups[i])
    requires ParseVertices(groups, ops.parseF32) == Success(vs)
    ensures Decode(version + [Newline] + count + [Newline] + vertexLine + [Newline] + rest, ops)
      == if |vs| != 3 * n then Failure(VertexCount)
         else if v == V100 then Success(Version1(Mesh1(Header1(n), HalvedPositions(FlippedV(vs, ops.oneMinus), ops.half))))
         else Success(Version1(Mesh1(Header1(n), FlippedV(vs, ops.oneMinus))))
  {
    var data := version + [Newline] + count + [Newline] + vertexLine + [Newline] + rest;
    assert data[..12] == version[..12];
    VersionOfTag(v);
    DecodedFixedOfText(version, count, vertexLine, rest, ops, n, groups, vs);
  }

  /** The first 12 bytes of a version 3 or 4 encoding are the tag of its revision. */
  lemma RevisionTags(r3: Revision3, r4: Revision4, rest: seq<Byte>)
    ensures EncodeMagic(VersionPrefix, EncodeRevision3(r3, rest))[..12]
      == TagOf(if r3 == Version300 then V300 else V301)
    ensures EncodeMagic(VersionPrefix, EncodeRevision4(r4, rest))[..12]
      == TagOf(if r4 == Version400 then V400 else V401)
  {
    Revision3Tagged(r3, rest);
    Revision4Tagged(r4, rest);
  }

  lemma Revision3Tagged(r3: Revision3, rest: seq<Byte>)
    ensures EncodeMagic(VersionPrefix, EncodeRevision3(r3, rest))[..12]
      == TagOf(if r3 == Version300 then V300 else V301)
  {
    assert EncodeMagic(VersionPrefix, EncodeRevision3(r3, rest))[..12] == VersionPrefix + Revision3Tag(r3);
  }

  lemma Revision4Tagged(r4: Revision4, rest: seq<Byte>)
    ensures EncodeMagic(VersionPrefix, EncodeRevision4(r4, rest))[..12]
      == TagOf(if r4 == Version400 then V400 else V401)
  {
    assert EncodeMagic(VersionPrefix, EncodeRevision4(r4, rest))[..12] == VersionPrefix + Revision4Tag(r4);
  }

  /** Whole files: each well-formed version 2 mesh, in each layout, is decoded as version 2 with its tangents fixed up. */
  lemma DecodeMeshes2(m: Mesh2, t: Mesh2Truncated, tail: seq<Byte>, ops: TextOps)
    requires m.Wf() && t.Wf()
    ensures Decode(EncodeMesh2(m, tail), ops) == Success(Version2(Fixed2(m)))
    ensures Decode(EncodeMesh2Truncated(t, tail), ops) == Success(Version2(Fixed2(Widen2(t))))
  {
    Read2Layouts(m, t, tail);
    VersionOfTag(V200);
    Header2Tags(m.header, t.header, EncodeMany(m.vertices, EncodeVertex2, EncodeMany(m.faces, EncodeFace2, tail)),
      EncodeMany(t.vertices, EncodeVertex2Truncated, EncodeMany(t.faces, EncodeFace2, tail)));
  }

  /** Both version 2 headers begin with the version 2 tag. */
  lemma Header2Tags(h: Header2, g: Header2, rest: seq<Byte>, restTruncated: seq<Byte>)
    ensures EncodeHeader2(h, Header2Magic, rest)[..12] == TagOf(V200)
    ensures EncodeHeader2(g, Header2TruncatedMagic, restTruncated)[..12] == TagOf(V200)
  {
    assert Header2Magic[..12] == TagOf(V200);
    assert Header2TruncatedMagic[..12] == TagOf(V200);
    assert EncodeHeader2(h, Header2Magic, rest)[..12] == Header2Magic[..12];
    assert EncodeHeader2(g, Header2TruncatedMagic, restTruncated)[..12] == Header2TruncatedMagic[..12];
  }

  /** Whole files: each well-formed version 3 mesh, in each layout, is decoded as version 3 with its tangents fixed up. */
  lemma DecodeMeshes3(m: Mesh3, t: Mesh3Truncated, tail: seq<Byte>, ops: TextOps)
    requires m.Wf() && t.Wf()
    ensures Decode(EncodeMesh3(m, tail), ops) == Success(Version3(Fixed3(m)))
    ensures Decode(EncodeMesh3Truncated(t, tail), ops) == Success(Version3(Fixed3(Widen3(t))))
  {
    Read3Layouts(m, t, tail);
    var h := m.header;
    RevisionTags(h.revision, Version400, EncodeMagic(Header3Magic, EncodeU16(h.lodCount,
      EncodeU32(h.vertexCount, EncodeU32(h.faceCount, EncodeMany(m.vertices, EncodeVertex2,
      EncodeMany(m.faces, EncodeFace2, EncodeMany(m.lods, EncodeLod3, tail))))))));
    var g := t.header;
    RevisionTags(g.revision, Version400, EncodeMagic(Header3TruncatedMagic, EncodeU16(g.lodCount,
      EncodeU32(g.vertexCount, EncodeU32(g.faceCount, EncodeMany(t.vertices, EncodeVertex2Truncated,
      EncodeMany(t.faces, EncodeFace2, EncodeMany(t.lods, EncodeLod3, tail))))))));
    VersionOfTag(V300);
    VersionOfTag(V301);
  }

  lemma Head4Tag(revision: Revision4, lodType: LodType4, vertexCount: U32, faceCount: U32, lodCount: U16,
    tail: seq<Byte>)
    ensures EncodeHeader4Head(revision, lodType, vertexCount, faceCount, lodCount, tail)[..12]
      == TagOf(if revision == Version400 then V400 else V401)
  {
    RevisionTags(Version300, revision, EncodeMagic(Header4Magic, EncodeLodType4(lodType,
      EncodeU32(vertexCount, EncodeU32(faceCount, EncodeU16(lodCount, tail))))));
  }

  /**
   * Whole files: a skinned version 4 mesh and a boneless one are each
   * decoded as version 4, the boneless one with no bones and no envelopes.
   */
  lemma DecodeMeshes4(m: Mesh4, b: Mesh4Boneless, tail: seq<Byte>, ops: TextOps)
    requires m.Wf() && m.header.boneCount != 0 && b.Wf()
    ensures Decode(EncodeMesh4(m, tail), ops) == Success(Version4(Fixed4(m)))
    ensures Decode(EncodeMesh4Boneless(b, tail), ops) == Success(Version4(Fixed4(WithBones(b))))
  {
    Read4Layouts(m, b, tail);
    var h := m.header;
    Head4Tag(h.revision, h.lodType, h.vertexCount, h.faceCount, h.lodCount,
      EncodeU16(h.boneCount, EncodeHeader4Tail(h.boneNamesLen, h.subsetCount, h.lodHqCount, h.padding,
      EncodeMany(m.vertices, EncodeVertex2, EncodeMany(m.envelopes, EncodeEnvelope4,
      EncodeMany(m.faces, EncodeFace2, EncodeMany(m.lods, EncodeLod3, EncodeMany(m.bones, EncodeBone4,
      EncodeMany(m.boneNames, EncodeU8, EncodeMany(m.subsets, EncodeSubset4, tail))))))))));
    var g := b.header;
    Head4Tag(g.revision, g.lodType, g.vertexCount, g.faceCount, g.lodCount,
      EncodeMagic([0, 0], EncodeHeader4Tail(g.boneNamesLen, g.subsetCount, g.lodHqCount, g.padding,
      EncodeMany(b.vertices, EncodeVertex2, EncodeMany(b.faces, EncodeFace2,
      EncodeMany(b.lods, EncodeLod3, EncodeMany(b.boneNames, EncodeU8, EncodeMany(b.subsets, EncodeSubset4, tail))))))));
    VersionOfTag(V400);
    VersionOfTag(V401);
  }
}

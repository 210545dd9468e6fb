/**
 * The CSG physics-data blob: a "CSGPHS" magic followed by collision data,
 * which is a box marker, a list of meshes running to the end of the input,
 * or one mesh with its mass properties.
 */
module PhysicsDataFormat {
  import opened Wire

  // ------------------------------------------------------------------ records

  /** Volume, centre of gravity and the packed upper triangle of the inertia tensor: ten floats. */
  datatype PhysicsInfo = PhysicsInfo(volume: F32, centerOfGravity: F32x3, momentOfInertiaPacked: F32x6)

  const PhysicsInfoSize: nat := 40

  function ReadPhysicsInfo(s: seq<Byte>): (r: Parse<PhysicsInfo>)
    ensures r.Ok? ==> |r.rest| + PhysicsInfoSize == |s|
  {
    var volume :- ReadF32(s);
    var center :- ReadMany(volume.rest, 3, ReadF32);
    var inertia :- ReadMany(center.rest, 6, ReadF32);
    ScalarWidths();
    ReadManyWidth(volume.rest, 3, ReadF32, 4);
    ReadManyWidth(center.rest, 6, ReadF32, 4);
    Ok(PhysicsInfo(volume.value, center.value, inertia.value), inertia.rest)
  }

  function EncodePhysicsInfo(p: PhysicsInfo, tail: seq<Byte>): (r: seq<Byte>)
    ensures |r| == PhysicsInfoSize + |tail|
  {
    ArrayLengths();
    EncodeF32(p.volume, EncodeMany(p.centerOfGravity, EncodeF32, EncodeMany(p.momentOfInertiaPacked, EncodeF32, tail)))
  }

  /** The 16 bytes after the second unknown word: the little-endian `u128` 0x3F80 << 112. */
  const MysteryTrailer: seq<Byte> := Zeros(14) + [0x80, 0x3F]

  /** Two unknown words, each followed by a 16-byte constant. */
  datatype MysteryInfo = MysteryInfo(unknown1: U32, unknown2: U32)

  const MysteryInfoSize: nat := 40

  function ReadMysteryInfo(s: seq<Byte>): (r: Parse<MysteryInfo>)
    ensures r.Ok? ==> |r.rest| + MysteryInfoSize == |s|
    ensures r.Ok? ==> s[4..20] == Zeros(16) && s[24..40] == MysteryTrailer
  {
    var u1 :- ReadU32(s);
    var z :- ReadMagic(u1.rest, Zeros(16));
    var u2 :- ReadU32(z.rest);
    var t :- ReadMagic(u2.rest, MysteryTrailer);
    Ok(MysteryInfo(u1.value, u2.value), t.rest)
  }

  function EncodeMysteryInfo(m: MysteryInfo, tail: seq<Byte>): (r: seq<Byte>)
    ensures |r| == MysteryInfoSize + |tail|
  {
    EncodeU32(m.unknown1, EncodeMagic(Zeros(16), EncodeU32(m.unknown2, EncodeMagic(MysteryTrailer, tail))))
  }

  type VertexId = U32
  type Triangle = s: seq<VertexId> | |s| == 3 witness [0, 0, 0]

  /** The constant vertex width, the `u32` 4, between the vertex count and the vertices. */
  const VertexWidth: seq<Byte> := [4, 0, 0, 0]

  /**
   * A collision mesh. The counts are of scalars: the vertex list holds
   * `vertexCount / 3` points and the face list `faceCount / 3` triangles,
   * rounded down.
   */
  datatype Mesh = Mesh(mysteryInfo: MysteryInfo, vertexCount: U32, vertices: seq<F32x3>, faceCount: U32,
    faces: seq<Triangle>)
  {
    predicate Wf() {
      |vertices| == vertexCount / 3 && |faces| == faceCount / 3
    }
  }

  function ReadPoint(s: seq<Byte>): (r: Parse<F32x3>)
    ensures r.Ok? ==> |r.rest| + 12 == |s|
  {
    var p :- ReadMany(s, 3, ReadF32);
    ScalarWidths();
    ReadManyWidth(s, 3, ReadF32, 4);
    Ok(p.value, p.rest)
  }

  function ReadTriangle(s: seq<Byte>): (r: Parse<Triangle>)
    ensures r.Ok? ==> |r.rest| + 12 == |s|
  {
    var t :- ReadMany(s, 3, ReadU32);
    ScalarWidths();
    ReadManyWidth(s, 3, ReadU32, 4);
    Ok(t.value, t.rest)
  }

  function EncodePoint(p: F32x3, tail: seq<Byte>): seq<Byte>
  {
    EncodeMany(p, EncodeF32, tail)
  }

  function EncodeTriangle(t: Triangle, tail: seq<Byte>): seq<Byte>
  {
    EncodeMany(t, EncodeU32, tail)
  }

  /** The bytes a mesh occupies: its fixed fields and 12 bytes per point and per triangle. */
  function MeshSize(m: Mesh): nat
  {
    MysteryInfoSize + 8 + 12 * |m.vertices| + 4 + 12 * |m.faces|
  }

  function ReadMesh(s: seq<Byte>): (r: Parse<Mesh>)
    ensures r.Ok? ==> r.value.Wf()
    ensures r.Ok? ==> |r.rest| + MeshSize(r.value) == |s|
  {
    var info :- ReadMysteryInfo(s);
    var vc :- ReadU32(info.rest);
    var w :- ReadMagic(vc.rest, VertexWidth);
    var vs :- ReadMany(w.rest, vc.value / 3, ReadPoint);
    var fc :- ReadU32(vs.rest);
    var fs :- ReadMany(fc.rest, fc.value / 3, ReadTriangle);
    RecordWidths();
    ReadManyWidth(w.rest, vc.value / 3, ReadPoint, 12);
    ReadManyWidth(fc.rest, fc.value / 3, ReadTriangle, 12);
    assert |w.rest| + 48 == |s|;
    assert |vs.rest| + 12 * |vs.value| == |w.rest|;
    assert |fs.rest| + 12 * |fs.value| + 4 == |vs.rest|;
    Ok(Mesh(info.value, vc.value, vs.value, fc.value, fs.value), fs.rest)
  }

  function EncodeMesh(m: Mesh, tail: seq<Byte>): seq<Byte>
  {
    EncodeMysteryInfo(m.mysteryInfo, EncodeU32(m.vertexCount, EncodeMagic(VertexWidth,
      EncodeMany(m.vertices, EncodePoint, EncodeU32(m.faceCount, EncodeMany(m.faces, EncodeTriangle, tail))))))
  }

  datatype PhysicsInfoMesh = PhysicsInfoMesh(physicsInfo: PhysicsInfo, mesh: Mesh)

  function ReadPhysicsInfoMesh(s: seq<Byte>): (r: Parse<PhysicsInfoMesh>)
    ensures r.Ok? ==> r.value.mesh.Wf()
  {
    var p :- ReadPhysicsInfo(s);
    var m :- ReadMesh(p.rest);
    Ok(PhysicsInfoMesh(p.value, m.value), m.rest)
  }

  function EncodePhysicsInfoMesh(x: PhysicsInfoMesh, tail: seq<Byte>): seq<Byte>
  {
    EncodePhysicsInfo(x.physicsInfo, EncodeMesh(x.mesh, tail))
  }

  // ------------------------------------------------------------ until the end

  /**
   * `until_eof`: meshes are read one after another until a read runs out of
   * input; that read is abandoned and its bytes are left unread. Any other
   * failure fails the list.
   */
  function ReadMeshes(s: seq<Byte>): (r: Parse<seq<Mesh>>)
    ensures r.Ok? ==> forall i | 0 <= i < |r.value| :: r.value[i].Wf()
    ensures r.Ok? ==> ReadMesh(r.rest) == Fail(UnexpectedEof)
    ensures r.Fail? ==> r.error != UnexpectedEof
    decreases |s|
  {
    match ReadMesh(s)
    case Fail(e) => if e == UnexpectedEof then Ok([], s) else Fail(e)
    case Ok(m, rest) =>
      var more :- ReadMeshes(rest);
      Ok([m] + more.value, more.rest)
  }

  function EncodeMeshes(ms: seq<Mesh>, tail: seq<Byte>): seq<Byte>
  {
    EncodeMany(ms, EncodeMesh, tail)
  }

  // -------------------------------------------------------- collision variants

  const BlockMagic: seq<Byte> := [0, 0, 0, 0] + Ascii("BLOCK")
  const MeshesTag: seq<Byte> := [3, 0, 0, 0]
  const PhysicsInfoMeshTag: seq<Byte> := [6, 0, 0, 0]

  datatype CollisionData = Block | Meshes(meshes: seq<Mesh>) | PhysicsInfoMeshData(physicsInfoMesh: PhysicsInfoMesh)
  {
    predicate Wf() {
      match this
      case Block => true
      case Meshes(ms) => forall i | 0 <= i < |ms| :: ms[i].Wf()
      case PhysicsInfoMeshData(p) => p.mesh.Wf()
    }
  }

  function ReadBlock(s: seq<Byte>): Parse<CollisionData>
  {
    var m :- ReadMagic(s, BlockMagic);
    Ok(Block, m.rest)
  }

  function ReadMeshesVariant(s: seq<Byte>): Parse<CollisionData>
  {
    var m :- ReadMagic(s, MeshesTag);
    var ms :- ReadMeshes(m.rest);
    Ok(Meshes(ms.value), ms.rest)
  }

  function ReadPhysicsInfoMeshVariant(s: seq<Byte>): Parse<CollisionData>
  {
    var m :- ReadMagic(s, PhysicsInfoMeshTag);
    var p :- ReadPhysicsInfoMesh(m.rest);
    Ok(PhysicsInfoMeshData(p.value), p.rest)
  }

  /**
   * The variants are tried in order, each from the start of the input; the
   * first that reads in full wins, and when none does the error is that no
   * variant matched.
   */
  function ReadCollisionData(s: seq<Byte>): (r: Parse<CollisionData>)
    ensures r.Ok? ==> r.value.Wf()
    ensures r.Ok? && r.value.Block? <==> |s| >= 9 && s[..9] == BlockMagic
    ensures r.Ok? && r.value.Meshes? ==> |s| >= 4 && s[..4] == MeshesTag
    ensures r.Ok? && r.value.PhysicsInfoMeshData? ==> |s| >= 4 && s[..4] == PhysicsInfoMeshTag
    ensures r.Fail? ==> r.error == NoVariantMatch
  {
    match ReadBlock(s)
    case Ok(v, rest) => Ok(v, rest)
    case Fail(_) =>
      match ReadMeshesVariant(s)
      case Ok(v, rest) => Ok(v, rest)
      case Fail(_) =>
        match ReadPhysicsInfoMeshVariant(s)
        case Ok(v, rest) => Ok(v, rest)
        case Fail(_) => Fail(NoVariantMatch)
  }

  /** Input that starts with none of the three tags matches no variant. */
  lemma UnknownCollisionTag(s: seq<Byte>)
    requires |s| < 4 || s[..4] !in {BlockMagic[..4], MeshesTag, PhysicsInfoMeshTag}
    ensures ReadCollisionData(s) == Fail(NoVariantMatch)
  {
    if |s| >= 9 {
      assert s[..9][..4] == s[..4];
    }
  }

  function EncodeCollisionData(c: CollisionData, tail: seq<Byte>): seq<Byte>
  {
    match c
    case Block => EncodeMagic(BlockMagic, tail)
    case Meshes(ms) => EncodeMagic(MeshesTag, EncodeMeshes(ms, tail))
    case PhysicsInfoMeshData(p) => EncodeMagic(PhysicsInfoMeshTag, EncodePhysicsInfoMesh(p, tail))
  }

  const PhysicsDataMagic: seq<Byte> := Ascii("CSGPHS")

  datatype PhysicsData = PhysicsData(collisionData: CollisionData)

  /** `read`: only input that starts with "CSGPHS" can succeed. */
  function ReadPhysicsData(s: seq<Byte>): (r: Parse<PhysicsData>)
    ensures r.Ok? ==> |s| >= 6 && s[..6] == PhysicsDataMagic
    ensures r.Ok? ==> r.value.collisionData.Wf()
  {
    var m :- ReadMagic(s, PhysicsDataMagic);
    var c :- ReadCollisionData(m.rest);
    Ok(PhysicsData(c.value), c.rest)
  }

  function EncodePhysicsData(d: PhysicsData, tail: seq<Byte>): seq<Byte>
  {
    EncodeMagic(PhysicsDataMagic, EncodeCollisionData(d.collisionData, tail))
  }

  // ------------------------------------------------------------------ widths

  lemma ScalarWidths()
    ensures FixedWidth(ReadF32, 4) && FixedWidth(ReadU32, 4)
  {
  }

  lemma RecordWidths()
    ensures FixedWidth(ReadPoint, 12) && FixedWidth(ReadTriangle, 12)
  {
  }

  // ------------------------------------------------------------- round trips

  lemma PhysicsInfoCodec(p: PhysicsInfo, tail: seq<Byte>, s: seq<Byte>)
    ensures ReadPhysicsInfo(EncodePhysicsInfo(p, tail)) == Ok(p, tail)
    ensures ReadPhysicsInfo(s).Ok? ==> EncodePhysicsInfo(ReadPhysicsInfo(s).value, ReadPhysicsInfo(s).rest) == s
  {
    ReadEncodePhysicsInfo(p, tail);
    if ReadPhysicsInfo(s).Ok? {
      EncodeReadPhysicsInfo(s);
    }
  }

  lemma ReadEncodePhysicsInfo(p: PhysicsInfo, tail: seq<Byte>)
    ensures ReadPhysicsInfo(EncodePhysicsInfo(p, tail)) == Ok(p, tail)
  {
    ScalarCodecs();
    var inertia := EncodeMany(p.momentOfInertiaPacked, EncodeF32, tail);
    ReadEncodeF32(p.volume, EncodeMany(p.centerOfGravity, EncodeF32, inertia));
    ReadEncodeMany(p.centerOfGravity, inertia, ReadF32, EncodeF32);
    ReadEncodeMany(p.momentOfInertiaPacked, tail, ReadF32, EncodeF32);
  }

  lemma EncodeReadPhysicsInfo(s: seq<Byte>)
    requires ReadPhysicsInfo(s).Ok?
    ensures EncodePhysicsInfo(ReadPhysicsInfo(s).value, ReadPhysicsInfo(s).rest) == s
  {
    ScalarCodecs();
    var volume := ReadF32(s);
    EncodeReadF32(s);
    var center := ReadMany(volume.rest, 3, ReadF32);
    EncodeReadMany(volume.rest, 3, ReadF32, EncodeF32);
    EncodeReadMany(center.rest, 6, ReadF32, EncodeF32);
  }

  lemma MysteryInfoCodec(m: MysteryInfo, tail: seq<Byte>, s: seq<Byte>)
    ensures ReadMysteryInfo(EncodeMysteryInfo(m, tail)) == Ok(m, tail)
    ensures ReadMysteryInfo(s).Ok? ==> EncodeMysteryInfo(ReadMysteryInfo(s).value, ReadMysteryInfo(s).rest) == s
  {
    var afterZeros := EncodeU32(m.unknown2, EncodeMagic(MysteryTrailer, tail));
    ReadEncodeU32(m.unknown1, EncodeMagic(Zeros(16), afterZeros));
    ReadEncodeMagic(Zeros(16), afterZeros);
    ReadEncodeU32(m.unknown2, EncodeMagic(MysteryTrailer, tail));
    ReadEncodeMagic(MysteryTrailer, tail);
    if ReadMysteryInfo(s).Ok? {
      var u1 := ReadU32(s);
      EncodeReadU32(s);
      var z := ReadMagic(u1.rest, Zeros(16));
      EncodeReadMagic(u1.rest, Zeros(16));
      var u2 := ReadU32(z.rest);
      EncodeReadU32(z.rest);
      EncodeReadMagic(u2.rest, MysteryTrailer);
    }
  }

  lemma PointCodecs()
    ensures forall p: F32x3, t :: ReadPoint(EncodePoint(p, t)) == Ok(p, t)
    ensures forall x: Triangle, t :: ReadTriangle(EncodeTriangle(x, t)) == Ok(x, t)
    ensures forall s | ReadPoint(s).Ok? :: EncodePoint(ReadPoint(s).value, ReadPoint(s).rest) == s
    ensures forall s | ReadTriangle(s).Ok? :: EncodeTriangle(ReadTriangle(s).value, ReadTriangle(s).rest) == s
  {
    ArrayCodecs();
  }

  lemma ReadEncodeMesh(m: Mesh, tail: seq<Byte>)
    requires m.Wf()
    ensures ReadMesh(EncodeMesh(m, tail)) == Ok(m, tail)
  {
    PointCodecs();
    var faces := EncodeMany(m.faces, EncodeTriangle, tail);
    var afterVertices := EncodeU32(m.faceCount, faces);
    var vertices := EncodeMany(m.vertices, EncodePoint, afterVertices);
    var afterCount := EncodeMagic(VertexWidth, vertices);
    MysteryInfoCodec(m.mysteryInfo, EncodeU32(m.vertexCount, afterCount), []);
    ReadEncodeU32(m.vertexCount, afterCount);
    ReadEncodeMagic(VertexWidth, vertices);
    ReadEncodeMany(m.vertices, afterVertices, ReadPoint, EncodePoint);
    ReadEncodeU32(m.faceCount, faces);
    ReadEncodeMany(m.faces, tail, ReadTriangle, EncodeTriangle);
  }

  lemma EncodeReadMesh(s: seq<Byte>)
    requires ReadMesh(s).Ok?
    ensures EncodeMesh(ReadMesh(s).value, ReadMesh(s).rest) == s
  {
    PointCodecs();
    var info := ReadMysteryInfo(s);
    MysteryInfoCodec(MysteryInfo(0, 0), [], s);
    var vc := ReadU32(info.rest);
    EncodeReadU32(info.rest);
    var w := ReadMagic(vc.rest, VertexWidth);
    EncodeReadMagic(vc.rest, VertexWidth);
    var vs := ReadMany(w.rest, vc.value / 3, ReadPoint);
    EncodeReadMany(w.rest, vc.value / 3, ReadPoint, EncodePoint);
    var fc := ReadU32(vs.rest);
    EncodeReadU32(vs.rest);
    EncodeReadMany(fc.rest, fc.value / 3, ReadTriangle, EncodeTriangle);
  }

  /** An encoded mesh occupies exactly `MeshSize` bytes. */
  lemma MeshLength(m: Mesh, tail: seq<Byte>)
    requires m.Wf()
    ensures |EncodeMesh(m, tail)| == MeshSize(m) + |tail|
  {
    ReadEncodeMesh(m, tail);
  }

  /**
   * A list of meshes is read back in full when the bytes after it are too
   * short to start another mesh — in particular at the end of the file.
   */
  lemma {:induction false} ReadEncodeMeshes(ms: seq<Mesh>, tail: seq<Byte>)
    requires forall i | 0 <= i < |ms| :: ms[i].Wf()
    requires ReadMesh(tail) == Fail(UnexpectedEof)
    ensures ReadMeshes(EncodeMeshes(ms, tail)) == Ok(ms, tail)
  {
    if ms == [] {
      assert EncodeMeshes(ms, tail) == tail;
    } else {
      var rest := EncodeMeshes(ms[1..], tail);
      assert EncodeMeshes(ms, tail) == EncodeMesh(ms[0], rest);
      ReadEncodeMesh(ms[0], rest);
      ReadEncodeMeshes(ms[1..], tail);
      assert ReadMeshes(EncodeMesh(ms[0], rest)) == Ok([ms[0]] + ms[1..], tail);
      assert [ms[0]] + ms[1..] == ms;
    }
  }

  /** The meshes that were read re-encode to the bytes they were read from. */
  lemma {:induction false} EncodeReadMeshes(s: seq<Byte>)
    requires ReadMeshes(s).Ok?
    ensures EncodeMeshes(ReadMeshes(s).value, ReadMeshes(s).rest) == s
    decreases |s|
  {
    var first := ReadMesh(s);
    if first.Ok? {
      EncodeReadMeshes(first.rest);
      EncodeReadMesh(s);
      var r := ReadMeshes(s);
      assert r.value[1..] == ReadMeshes(first.rest).value;
    }
  }

  /**
   * Bytes too short for a mesh are left unread: a list followed by a stray
   * byte still reads, and the byte is what remains.
   */
  lemma TrailingBytesLeftUnread(ms: seq<Mesh>)
    requires forall i | 0 <= i < |ms| :: ms[i].Wf()
    ensures ReadMeshes(EncodeMeshes(ms, [0])) == Ok(ms, [0])
  {
    assert ReadMesh([0]) == Fail(UnexpectedEof);
    ReadEncodeMeshes(ms, [0]);
  }

  /** A well-formed collision record is read back; a mesh list only at the end of the input. */
  lemma ReadEncodeCollisionData(c: CollisionData, tail: seq<Byte>)
    requires c.Wf()
    requires c.Meshes? ==> ReadMesh(tail) == Fail(UnexpectedEof)
    ensures ReadCollisionData(EncodeCollisionData(c, tail)) == Ok(c, tail)
  {
    var e := EncodeCollisionData(c, tail);
    match c
    case Block =>
      ReadEncodeMagic(BlockMagic, tail);
    case Meshes(ms) =>
      assert e[..4] == MeshesTag;
      assert |e| < 9 || e[..9][0] != BlockMagic[0];
      ReadEncodeMagic(MeshesTag, EncodeMeshes(ms, tail));
      ReadEncodeMeshes(ms, tail);
    case PhysicsInfoMeshData(p) =>
      assert e[..4] == PhysicsInfoMeshTag;
      assert |e| < 9 || e[..9][0] != BlockMagic[0];
      assert ReadMeshesVariant(e).Fail?;
      var mesh := EncodeMesh(p.mesh, tail);
      ReadEncodeMagic(PhysicsInfoMeshTag, EncodePhysicsInfo(p.physicsInfo, mesh));
      PhysicsInfoCodec(p.physicsInfo, mesh, []);
      ReadEncodeMesh(p.mesh, tail);
  }

  lemma EncodeReadCollisionData(s: seq<Byte>)
    requires ReadCollisionData(s).Ok?
    ensures EncodeCollisionData(ReadCollisionData(s).value, ReadCollisionData(s).rest) == s
  {
    if ReadBlock(s).Ok? {
      EncodeReadBlock(s);
    } else if ReadMeshesVariant(s).Ok? {
      EncodeReadMeshesVariant(s);
    } else {
      EncodeReadPhysicsInfoMeshVariant(s);
    }
  }

  lemma EncodeReadBlock(s: seq<Byte>)
    requires ReadBlock(s).Ok?
    ensures EncodeCollisionData(ReadBlock(s).value, ReadBlock(s).rest) == s
  {
    EncodeReadMagic(s, BlockMagic);
  }

  lemma EncodeReadMeshesVariant(s: seq<Byte>)
    requires ReadMeshesVariant(s).Ok?
    ensures EncodeCollisionData(ReadMeshesVariant(s).value, ReadMeshesVariant(s).rest) == s
  {
    EncodeReadMagic(s, MeshesTag);
    EncodeReadMeshes(s[4..]);
  }

  lemma EncodeReadPhysicsInfoMeshVariant(s: seq<Byte>)
    requires ReadPhysicsInfoMeshVariant(s).Ok?
    ensures EncodeCollisionData(ReadPhysicsInfoMeshVariant(s).value, ReadPhysicsInfoMeshVariant(s).rest) == s
  {
    EncodeReadMagic(s, PhysicsInfoMeshTag);
    EncodeReadPhysicsInfoMesh(s[4..]);
  }

  lemma EncodeReadPhysicsInfoMesh(s: seq<Byte>)
    requires ReadPhysicsInfoMesh(s).Ok?
    ensures EncodePhysicsInfoMesh(ReadPhysicsInfoMesh(s).value, ReadPhysicsInfoMesh(s).rest) == s
  {
    var p := ReadPhysicsInfo(s);
    EncodeReadPhysicsInfo(s);
    EncodeReadMesh(p.rest);
  }

  /** A whole well-formed physics-data file is read back with nothing left over. */
  lemma ReadEncodePhysicsData(d: PhysicsData)
    requires d.collisionData.Wf()
    ensures ReadPhysicsData(EncodePhysicsData(d, [])) == Ok(d, [])
  {
    ReadEncodeMagic(PhysicsDataMagic, EncodeCollisionData(d.collisionData, []));
    ReadEncodeCollisionData(d.collisionData, []);
  }

  lemma EncodeReadPhysicsData(s: seq<Byte>)
    requires ReadPhysicsData(s).Ok?
    ensures EncodePhysicsData(ReadPhysicsData(s).value, ReadPhysicsData(s).rest) == s
  {
    EncodeReadMagic(s, PhysicsDataMagic);
    EncodeReadCollisionData(s[6..]);
  }
}

/**
 * Binary mesh records that both snapshots of the mesh decoder declare in the
 * same way: vertices, faces, level-of-detail markers, skinning envelopes, bones
 * and subsets, the revision tags of versions 3 and 4, and the tangent fix-up
 * that runs after every binary decode.
 */
module MeshRecords {
  import opened Wire

  // ------------------------------------------------------------- vertices

  /** A full vertex record: 40 bytes. */
  datatype Vertex2 = Vertex2(pos: F32x3, norm: F32x3, tex: F32x2, tangent: I8x4, color: U8x4)

  /** A vertex record without colour: 36 bytes. */
  datatype Vertex2Truncated = Vertex2Truncated(pos: F32x3, norm: F32x3, tex: F32x2, tangent: I8x4)

  const FullVertexSize: nat := 40
  const TruncatedVertexSize: nat := 36

  function ReadVertex2(s: seq<Byte>): Parse<Vertex2>
  {
    var pos :- ReadMany(s, 3, ReadF32);
    var norm :- ReadMany(pos.rest, 3, ReadF32);
    var tex :- ReadMany(norm.rest, 2, ReadF32);
    var tangent :- ReadMany(tex.rest, 4, ReadI8);
    var color :- ReadMany(tangent.rest, 4, ReadU8);
    Ok(Vertex2(pos.value, norm.value, tex.value, tangent.value, color.value), color.rest)
  }

  function EncodeVertex2(v: Vertex2, tail: seq<Byte>): (r: seq<Byte>)
    ensures |r| == FullVertexSize + |tail|
  {
    ArrayLengths();
    EncodeMany(v.pos, EncodeF32, EncodeMany(v.norm, EncodeF32, EncodeMany(v.tex, EncodeF32,
      EncodeMany(v.tangent, EncodeI8, EncodeMany(v.color, EncodeU8, tail)))))
  }

  function ReadVertex2Truncated(s: seq<Byte>): Parse<Vertex2Truncated>
  {
    var pos :- ReadMany(s, 3, ReadF32);
    var norm :- ReadMany(pos.rest, 3, ReadF32);
    var tex :- ReadMany(norm.rest, 2, ReadF32);
    var tangent :- ReadMany(tex.rest, 4, ReadI8);
    Ok(Vertex2Truncated(pos.value, norm.value, tex.value, tangent.value), tangent.rest)
  }

  function EncodeVertex2Truncated(v: Vertex2Truncated, tail: seq<Byte>): (r: seq<Byte>)
    ensures |r| == TruncatedVertexSize + |tail|
  {
    ArrayLengths();
    EncodeMany(v.pos, EncodeF32, EncodeMany(v.norm, EncodeF32, EncodeMany(v.tex, EncodeF32,
      EncodeMany(v.tangent, EncodeI8, tail))))
  }

  /** The colour given to a vertex whose record carries none. */
  const OpaqueWhite: U8x4 := [255, 255, 255, 255]

  /** A truncated vertex widened to a full one, with an opaque white colour. */
  function Widen(v: Vertex2Truncated): (w: Vertex2)
  {
    Vertex2(v.pos, v.norm, v.tex, v.tangent, OpaqueWhite)
  }

  /** The colourless part of a full vertex. */
  function Narrow(v: Vertex2): Vertex2Truncated
  {
    Vertex2Truncated(v.pos, v.norm, v.tex, v.tangent)
  }

  /**
   * Widening loses nothing but the colour slot: narrowing undoes it, and a full
   * vertex survives narrowing and widening exactly when it is opaque white.
   */
  lemma WidenNarrow(t: Vertex2Truncated, v: Vertex2)
    ensures Narrow(Widen(t)) == t
    ensures Widen(t).color == OpaqueWhite
    ensures Widen(Narrow(v)) == v <==> v.color == OpaqueWhite
  {
  }

  // ------------------------------------------------- faces and lod markers

  /** Three vertex ids: 12 bytes. */
  datatype Face2 = Face2(a: U32, b: U32, c: U32)

  const FaceSize: nat := 12

  function ReadFace2(s: seq<Byte>): Parse<Face2>
  {
    var a :- ReadU32(s);
    var b :- ReadU32(a.rest);
    var c :- ReadU32(b.rest);
    Ok(Face2(a.value, b.value, c.value), c.rest)
  }

  function EncodeFace2(f: Face2, tail: seq<Byte>): (r: seq<Byte>)
    ensures |r| == FaceSize + |tail|
  {
    EncodeU32(f.a, EncodeU32(f.b, EncodeU32(f.c, tail)))
  }

  /** A level-of-detail marker: the face index where a band starts; 4 bytes. */
  datatype Lod3 = Lod3(start: U32)

  const LodSize: nat := 4

  function ReadLod3(s: seq<Byte>): Parse<Lod3>
  {
    var start :- ReadU32(s);
    Ok(Lod3(start.value), start.rest)
  }

  function EncodeLod3(l: Lod3, tail: seq<Byte>): (r: seq<Byte>)
    ensures |r| == LodSize + |tail|
  {
    EncodeU32(l.start, tail)
  }

  // ------------------------------------------------------------- skinning

  /** Four bone indices and four weights for one vertex: 8 bytes. */
  datatype Envelope4 = Envelope4(bones: U8x4, weights: U8x4)

  function ReadEnvelope4(s: seq<Byte>): Parse<Envelope4>
  {
    var bones :- ReadMany(s, 4, ReadU8);
    var weights :- ReadMany(bones.rest, 4, ReadU8);
    Ok(Envelope4(bones.value, weights.value), weights.rest)
  }

  function EncodeEnvelope4(e: Envelope4, tail: seq<Byte>): (r: seq<Byte>)
    ensures |r| == 8 + |tail|
  {
    ArrayLengths();
    EncodeMany(e.bones, EncodeU8, EncodeMany(e.weights, EncodeU8, tail))
  }

  /** The raw value of a bone id that stands for "no bone". */
  const NoBone: U16 := 0xFFFF

  /** A bone id: a `u16` in which 0xFFFF means "no bone". */
  datatype BoneId4 = BoneId4(raw: U16) {

    /** The referenced bone, or None for the sentinel. */
    function Get(): (r: Option<U16>)
      ensures r == None <==> raw == NoBone
      ensures r.Some? ==> r.value == raw
    {
      if raw == NoBone then None else Some(raw)
    }
  }

  /** The bone id for an optional bone; a missing bone is stored as the sentinel. */
  function NewBoneId4(value: Option<U16>): (id: BoneId4)
    ensures value == None ==> id.raw == NoBone
    ensures value.Some? ==> id.raw == value.value
  {
    match value
    case None => BoneId4(NoBone)
    case Some(other) => BoneId4(other)
  }

  /**
   * `Get` undoes `NewBoneId4` on every value but the sentinel itself, and
   * `NewBoneId4` undoes `Get` on every stored id.
   */
  lemma BoneIdRoundTrip(value: Option<U16>, id: BoneId4)
    ensures value != Some(NoBone) ==> NewBoneId4(value).Get() == value
    ensures NewBoneId4(Some(NoBone)).Get() == None
    ensures NewBoneId4(id.Get()) == id
  {
  }

  function ReadBoneId4(s: seq<Byte>): Parse<BoneId4>
  {
    var raw :- ReadU16(s);
    Ok(BoneId4(raw.value), raw.rest)
  }

  function EncodeBoneId4(id: BoneId4, tail: seq<Byte>): (r: seq<Byte>)
    ensures |r| == 2 + |tail|
  {
    EncodeU16(id.raw, tail)
  }

  /** A rotation (row by row) and a translation; 48 bytes. */
  datatype CFrame4 = CFrame4(
    r00: F32, r01: F32, r02: F32,
    r10: F32, r11: F32, r12: F32,
    r20: F32, r21: F32, r22: F32,
    x: F32, y: F32, z: F32)
  {
    function Fields(): (fs: seq<F32>)
      ensures |fs| == 12
    {
      [r00, r01, r02, r10, r11, r12, r20, r21, r22, x, y, z]
    }
  }

  function ReadCFrame4(s: seq<Byte>): Parse<CFrame4>
  {
    var m :- ReadMany(s, 12, ReadF32);
    Ok(FromFields(m.value), m.rest)
  }

  /** The frame whose twelve fields are `f`, in the order they are stored. */
  function FromFields(f: seq<F32>): CFrame4
    requires |f| == 12
  {
    CFrame4(f[0], f[1], f[2], f[3], f[4], f[5], f[6], f[7], f[8], f[9], f[10], f[11])
  }

  function EncodeCFrame4(c: CFrame4, tail: seq<Byte>): (r: seq<Byte>)
    ensures |r| == 48 + |tail|
  {
    ArrayLengths();
    EncodeMany(c.Fields(), EncodeF32, tail)
  }

  /** A bone: name offset, parent and lod parent, culling distance, frame; 60 bytes. */
  datatype Bone4 = Bone4(boneNamePos: U32, parent: BoneId4, lodParent: BoneId4, cullDistance: F32, cframe: CFrame4)

  function ReadBone4(s: seq<Byte>): Parse<Bone4>
  {
    var namePos :- ReadU32(s);
    var parent :- ReadBoneId4(namePos.rest);
    var lodParent :- ReadBoneId4(parent.rest);
    var cull :- ReadF32(lodParent.rest);
    var cframe :- ReadCFrame4(cull.rest);
    Ok(Bone4(namePos.value, parent.value, lodParent.value, cull.value, cframe.value), cframe.rest)
  }

  function EncodeBone4(b: Bone4, tail: seq<Byte>): (r: seq<Byte>)
    ensures |r| == 60 + |tail|
  {
    EncodeU32(b.boneNamePos, EncodeBoneId4(b.parent, EncodeBoneId4(b.lodParent,
      EncodeF32(b.cullDistance, EncodeCFrame4(b.cframe, tail)))))
  }

  type BoneIds26 = s: seq<BoneId4> | |s| == 26 witness seq(26, i => BoneId4(0))

  /** A subset: face and vertex ranges and the 26 bones it may use; 72 bytes. */
  datatype Subset4 = Subset4(facesOffset: U32, facesLen: U32, verticesOffset: U32, verticesLen: U32,
                             boneCount: U32, bones: BoneIds26)

  function ReadSubset4(s: seq<Byte>): Parse<Subset4>
  {
    var fo :- ReadU32(s);
    var fl :- ReadU32(fo.rest);
    var vo :- ReadU32(fl.rest);
    var vl :- ReadU32(vo.rest);
    var bc :- ReadU32(vl.rest);
    var bones :- ReadMany(bc.rest, 26, ReadBoneId4);
    Ok(Subset4(fo.value, fl.value, vo.value, vl.value, bc.value, bones.value), bones.rest)
  }

  function EncodeSubset4(x: Subset4, tail: seq<Byte>): (r: seq<Byte>)
    ensures |r| == 72 + |tail|
  {
    EncodeManyLength(x.bones, EncodeBoneId4, 2, tail);
    EncodeU32(x.facesOffset, EncodeU32(x.facesLen, EncodeU32(x.verticesOffset, EncodeU32(x.verticesLen,
      EncodeU32(x.boneCount, EncodeMany(x.bones, EncodeBoneId4, tail))))))
  }

  // -------------------------------------------------------- enumerations

  /** How the level-of-detail bands were produced: a `u16` from 0 to 4. */
  datatype LodType4 = NoLods | Unknown | RbxSimplifier | ZeuxMeshOptimizer | Type4

  function LodTypeCode(t: LodType4): U16
  {
    match t
    case NoLods => 0
    case Unknown => 1
    case RbxSimplifier => 2
    case ZeuxMeshOptimizer => 3
    case Type4 => 4
  }

  function ReadLodType4(s: seq<Byte>): (r: Parse<LodType4>)
    ensures r.Ok? ==> ReadU16(s).Ok? && LodTypeCode(r.value) == ReadU16(s).value
    ensures r.Fail? && ReadU16(s).Ok? ==> r.error == NoVariantMatch && ReadU16(s).value > 4
  {
    var code :- ReadU16(s);
    match code.value
    case 0 => Ok(NoLods, code.rest)
    case 1 => Ok(Unknown, code.rest)
    case 2 => Ok(RbxSimplifier, code.rest)
    case 3 => Ok(ZeuxMeshOptimizer, code.rest)
    case 4 => Ok(Type4, code.rest)
    case _ => Fail(NoVariantMatch)
  }

  function EncodeLodType4(t: LodType4, tail: seq<Byte>): (r: seq<Byte>)
    ensures |r| == 2 + |tail|
  {
    EncodeU16(LodTypeCode(t), tail)
  }

  /**
   * A revision tag written as four ASCII characters, read as a unit enum whose
   * variants each carry a magic: every variant's magic is tried in turn, any
   * error (running out of input included) moves on to the next, and when none
   * matches the read fails with NoVariantMatch.
   */
  function ReadTag<T>(s: seq<Byte>, tags: seq<(seq<Byte>, T)>): (r: Parse<T>)
    requires forall i | 0 <= i < |tags| :: |tags[i].0| == 4
    ensures r.Ok? <==> |s| >= 4 && exists i | 0 <= i < |tags| :: tags[i].0 == s[..4]
    ensures r.Ok? ==> r.rest == s[4..]
    ensures r.Ok? ==> exists i | 0 <= i < |tags| :: tags[i] == (s[..4], r.value)
    ensures r.Fail? ==> r.error == NoVariantMatch
    decreases |tags|
  {
    if |s| < 4 || tags == [] then Fail(NoVariantMatch)
    else if s[..4] == tags[0].0 then Ok(tags[0].1, s[4..])
    else
      var r := ReadTag(s, tags[1..]);
      assert r.Ok? ==> tags[1..][0] == tags[1];
      r
  }

  datatype Revision3 = Version300 | Version301
  datatype Revision4 = Version400 | Version401

  function Revision3Tag(r: Revision3): seq<Byte>
  {
    match r
    case Version300 => Ascii("3.00")
    case Version301 => Ascii("3.01")
  }

  function Revision4Tag(r: Revision4): seq<Byte>
  {
    match r
    case Version400 => Ascii("4.00")
    case Version401 => Ascii("4.01")
  }

  function ReadRevision3(s: seq<Byte>): Parse<Revision3>
  {
    ReadTag(s, [(Revision3Tag(Version300), Version300), (Revision3Tag(Version301), Version301)])
  }

  function ReadRevision4(s: seq<Byte>): Parse<Revision4>
  {
    ReadTag(s, [(Revision4Tag(Version400), Version400), (Revision4Tag(Version401), Version401)])
  }

  // -------------------------------------------------------- tangent fix-up

  /** The tangent that marks "no tangent" in binary meshes. */
  const SentinelTangent: I8x4 := [-128, -128, -128, -128]
  /** The tangent that replaces the sentinel. */
  const DefaultTangent: I8x4 := [0, 0, -128, 127]

  /** One vertex after the fix-up: the sentinel tangent becomes the default one. */
  function FixTangent(v: Vertex2): Vertex2
  {
    if v.tangent == SentinelTangent then v.(tangent := DefaultTangent) else v
  }

  /** Every vertex after the fix-up. */
  function FixedTangents(vs: seq<Vertex2>): (r: seq<Vertex2>)
    ensures |r| == |vs|
  {
    seq(|vs|, i requires 0 <= i < |vs| => FixTangent(vs[i]))
  }

  /**
   * The fix-up in place over the vertex buffer of a decoded mesh: each vertex
   * whose tangent is the sentinel gets the default tangent, nothing else changes.
   */
  method FixTangents(vertices: array<Vertex2>)
    modifies vertices
    ensures vertices[..] == FixedTangents(old(vertices[..]))
  {
    for i := 0 to vertices.Length
      invariant forall k | 0 <= k < i :: vertices[k] == FixTangent(old(vertices[k]))
      invariant forall k | i <= k < vertices.Length :: vertices[k] == old(vertices[k])
    {
      if vertices[i].tangent == SentinelTangent {
        vertices[i] := vertices[i].(tangent := DefaultTangent);
      }
    }
  }

  /** The fix-up applied to the vertex list of a decoded mesh value. */
  method FixVertexList(vs: seq<Vertex2>) returns (fixed: seq<Vertex2>)
    ensures fixed == FixedTangents(vs)
  {
    var buffer := new Vertex2[|vs|](i requires 0 <= i < |vs| => vs[i]);
    assert buffer[..] == vs;
    FixTangents(buffer);
    fixed := buffer[..];
  }

  /**
   * What the fix-up promises: no sentinel tangent survives it; exactly the
   * sentinel tangents change, to the default; positions, normals, texture
   * coordinates and colours are untouched; and a second pass changes nothing.
   */
  lemma FixedTangentsSpec(vs: seq<Vertex2>)
    ensures forall i | 0 <= i < |vs| :: FixedTangents(vs)[i].tangent != SentinelTangent
    ensures forall i | 0 <= i < |vs| ::
      FixedTangents(vs)[i].tangent == (if vs[i].tangent == SentinelTangent then DefaultTangent else vs[i].tangent)
    ensures forall i | 0 <= i < |vs| :: FixedTangents(vs)[i].(tangent := vs[i].tangent) == vs[i]
    ensures FixedTangents(FixedTangents(vs)) == FixedTangents(vs)
  {
    assert DefaultTangent[0] != SentinelTangent[0];
  }

  /** The record readers check no constant, so they fail only at the end of input. */
  lemma RecordsEofOnly()
    ensures EofOnly(ReadVertex2) && EofOnly(ReadVertex2Truncated) && EofOnly(ReadFace2) && EofOnly(ReadLod3)
    ensures EofOnly(ReadEnvelope4) && EofOnly(ReadBone4) && EofOnly(ReadSubset4)
  {
    ScalarsEofOnly();
    forall s ensures ReadVertex2(s).Fail? ==> ReadVertex2(s).error == UnexpectedEof {
      VertexEofOnly(s);
    }
    forall s ensures ReadVertex2Truncated(s).Fail? ==> ReadVertex2Truncated(s).error == UnexpectedEof {
      VertexEofOnly(s);
    }
    forall s ensures ReadEnvelope4(s).Fail? ==> ReadEnvelope4(s).error == UnexpectedEof {
      var bones := ReadMany(s, 4, ReadU8);
    }
    forall s ensures ReadBone4(s).Fail? ==> ReadBone4(s).error == UnexpectedEof {
      BoneEofOnly(s);
    }
    forall s ensures ReadSubset4(s).Fail? ==> ReadSubset4(s).error == UnexpectedEof {
      SubsetEofOnly(s);
    }
  }

  lemma VertexEofOnly(s: seq<Byte>)
    ensures ReadVertex2(s).Fail? ==> ReadVertex2(s).error == UnexpectedEof
    ensures ReadVertex2Truncated(s).Fail? ==> ReadVertex2Truncated(s).error == UnexpectedEof
  {
    ScalarsEofOnly();
    var pos := ReadMany(s, 3, ReadF32);
    if pos.Ok? {
      var norm := ReadMany(pos.rest, 3, ReadF32);
      if norm.Ok? {
        var tex := ReadMany(norm.rest, 2, ReadF32);
        if tex.Ok? {
          var tangent := ReadMany(tex.rest, 4, ReadI8);
          if tangent.Ok? {
            var color := ReadMany(tangent.rest, 4, ReadU8);
          }
        }
      }
    }
  }

  lemma BoneEofOnly(s: seq<Byte>)
    ensures ReadBone4(s).Fail? ==> ReadBone4(s).error == UnexpectedEof
  {
    ScalarsEofOnly();
    var namePos := ReadU32(s);
    if namePos.Ok? {
      var parent := ReadBoneId4(namePos.rest);
      if parent.Ok? {
        var lodParent := ReadBoneId4(parent.rest);
        if lodParent.Ok? {
          var cull := ReadF32(lodParent.rest);
          if cull.Ok? {
            var fields := ReadMany(cull.rest, 12, ReadF32);
          }
        }
      }
    }
  }

  lemma SubsetEofOnly(s: seq<Byte>)
    ensures ReadSubset4(s).Fail? ==> ReadSubset4(s).error == UnexpectedEof
  {
    ScalarsEofOnly();
    var fo := ReadU32(s);
    if fo.Ok? {
      var fl := ReadU32(fo.rest);
      if fl.Ok? {
        var vo := ReadU32(fl.rest);
        if vo.Ok? {
          var vl := ReadU32(vo.rest);
          if vl.Ok? {
            var bc := ReadU32(vl.rest);
            if bc.Ok? {
              ReadManyEofOnly(bc.rest, 26, ReadBoneId4);
            }
          }
        }
      }
    }
  }

  // ------------------------------------------------------- record codecs

  lemma ReadEncodeVertex2(v: Vertex2, tail: seq<Byte>)
    ensures ReadVertex2(EncodeVertex2(v, tail)) == Ok(v, tail)
  {
    ArrayCodecs();
  }

  lemma EncodeReadVertex2(s: seq<Byte>)
    requires ReadVertex2(s).Ok?
    ensures EncodeVertex2(ReadVertex2(s).value, ReadVertex2(s).rest) == s
  {
    var pos := ReadMany(s, 3, ReadF32);
    var norm := ReadMany(pos.rest, 3, ReadF32);
    var tex := ReadMany(norm.rest, 2, ReadF32);
    var tangent := ReadMany(tex.rest, 4, ReadI8);
    var color := ReadMany(tangent.rest, 4, ReadU8);
    ArrayCodecs();
    assert EncodeMany(color.value, EncodeU8, color.rest) == tangent.rest;
    assert EncodeMany(tangent.value, EncodeI8, tangent.rest) == tex.rest;
    assert EncodeMany(tex.value, EncodeF32, tex.rest) == norm.rest;
    assert EncodeMany(norm.value, EncodeF32, norm.rest) == pos.rest;
  }

  lemma ReadEncodeVertex2Truncated(v: Vertex2Truncated, tail: seq<Byte>)
    ensures ReadVertex2Truncated(EncodeVertex2Truncated(v, tail)) == Ok(v, tail)
  {
    ArrayCodecs();
  }

  lemma EncodeReadVertex2Truncated(s: seq<Byte>)
    requires ReadVertex2Truncated(s).Ok?
    ensures EncodeVertex2Truncated(ReadVertex2Truncated(s).value, ReadVertex2Truncated(s).rest) == s
  {
    var pos := ReadMany(s, 3, ReadF32);
    var norm := ReadMany(pos.rest, 3, ReadF32);
    var tex := ReadMany(norm.rest, 2, ReadF32);
    var tangent := ReadMany(tex.rest, 4, ReadI8);
    ArrayCodecs();
    assert EncodeMany(tangent.value, EncodeI8, tangent.rest) == tex.rest;
    assert EncodeMany(tex.value, EncodeF32, tex.rest) == norm.rest;
    assert EncodeMany(norm.value, EncodeF32, norm.rest) == pos.rest;
  }

  lemma ReadEncodeFace2(f: Face2, tail: seq<Byte>)
    ensures ReadFace2(EncodeFace2(f, tail)) == Ok(f, tail)
  {
    ScalarCodecs();
  }

  lemma EncodeReadFace2(s: seq<Byte>)
    requires ReadFace2(s).Ok?
    ensures EncodeFace2(ReadFace2(s).value, ReadFace2(s).rest) == s
  {
    ScalarCodecs();
  }

  lemma ReadEncodeEnvelope4(e: Envelope4, tail: seq<Byte>)
    ensures ReadEnvelope4(EncodeEnvelope4(e, tail)) == Ok(e, tail)
  {
    ArrayCodecs();
  }

  lemma EncodeReadEnvelope4(s: seq<Byte>)
    requires ReadEnvelope4(s).Ok?
    ensures EncodeEnvelope4(ReadEnvelope4(s).value, ReadEnvelope4(s).rest) == s
  {
    var bones := ReadMany(s, 4, ReadU8);
    ArrayCodecs();
    assert EncodeMany(ReadMany(bones.rest, 4, ReadU8).value, EncodeU8, ReadEnvelope4(s).rest) == bones.rest;
  }

  lemma ReadEncodeCFrame4(c: CFrame4, tail: seq<Byte>)
    ensures ReadCFrame4(EncodeCFrame4(c, tail)) == Ok(c, tail)
  {
    ArrayCodecs();
  }

  lemma EncodeReadCFrame4(s: seq<Byte>)
    requires ReadCFrame4(s).Ok?
    ensures EncodeCFrame4(ReadCFrame4(s).value, ReadCFrame4(s).rest) == s
  {
    CFrameFields(s);
    EncodeFieldsRead(s, ReadCFrame4(s).value);
  }

  lemma CFrameFields(s: seq<Byte>)
    requires ReadCFrame4(s).Ok?
    ensures ReadMany(s, 12, ReadF32).Ok?
    ensures ReadCFrame4(s).rest == ReadMany(s, 12, ReadF32).rest
    ensures ReadCFrame4(s).value.Fields() == ReadMany(s, 12, ReadF32).value
  {
    var m := ReadMany(s, 12, ReadF32);
    assert m.Ok?;
    FieldsOfFromFields(m.value);
  }

  lemma FieldsOfFromFields(f: seq<F32>)
    requires |f| == 12
    ensures FromFields(f).Fields() == f
  {
  }

  lemma EncodeFieldsRead(s: seq<Byte>, c: CFrame4)
    requires ReadMany(s, 12, ReadF32).Ok? && c.Fields() == ReadMany(s, 12, ReadF32).value
    ensures EncodeCFrame4(c, ReadMany(s, 12, ReadF32).rest) == s
  {
    ScalarCodecs();
    EncodeReadMany(s, 12, ReadF32, EncodeF32);
  }

  lemma ReadEncodeBone4(b: Bone4, tail: seq<Byte>)
    ensures ReadBone4(EncodeBone4(b, tail)) == Ok(b, tail)
  {
    var cframe := EncodeCFrame4(b.cframe, tail);
    var cull := EncodeF32(b.cullDistance, cframe);
    var lodParent := EncodeBoneId4(b.lodParent, cull);
    var parent := EncodeBoneId4(b.parent, lodParent);
    ReadEncodeU32(b.boneNamePos, parent);
    ReadEncodeU16(b.parent.raw, lodParent);
    ReadEncodeU16(b.lodParent.raw, cull);
    ReadEncodeF32(b.cullDistance, cframe);
    ReadEncodeCFrame4(b.cframe, tail);
  }

  lemma EncodeReadBone4(s: seq<Byte>)
    requires ReadBone4(s).Ok?
    ensures EncodeBone4(ReadBone4(s).value, ReadBone4(s).rest) == s
  {
    ScalarCodecs();
    var namePos := ReadU32(s);
    var parent := ReadBoneId4(namePos.rest);
    var lodParent := ReadBoneId4(parent.rest);
    var cull := ReadF32(lodParent.rest);
    EncodeReadCFrame4(cull.rest);
  }

  lemma BoneId4Codec()
    ensures forall id, t :: ReadBoneId4(EncodeBoneId4(id, t)) == Ok(id, t)
    ensures forall s | ReadBoneId4(s).Ok? :: EncodeBoneId4(ReadBoneId4(s).value, ReadBoneId4(s).rest) == s
  {
    ScalarCodecs();
  }

  lemma ReadEncodeSubset4(x: Subset4, tail: seq<Byte>)
    ensures ReadSubset4(EncodeSubset4(x, tail)) == Ok(x, tail)
  {
    var bones := EncodeMany(x.bones, EncodeBoneId4, tail);
    var s5 := EncodeU32(x.boneCount, bones);
    var s4 := EncodeU32(x.verticesLen, s5);
    var s3 := EncodeU32(x.verticesOffset, s4);
    var s2 := EncodeU32(x.facesLen, s3);
    ReadEncodeU32(x.facesOffset, s2);
    ReadEncodeU32(x.facesLen, s3);
    ReadEncodeU32(x.verticesOffset, s4);
    ReadEncodeU32(x.verticesLen, s5);
    ReadEncodeU32(x.boneCount, bones);
    BoneId4Codec();
    ReadEncodeMany(x.bones, tail, ReadBoneId4, EncodeBoneId4);
  }

  lemma EncodeReadSubset4(s: seq<Byte>)
    requires ReadSubset4(s).Ok?
    ensures EncodeSubset4(ReadSubset4(s).value, ReadSubset4(s).rest) == s
  {
    BoneId4Codec();
    var fo := ReadU32(s);
    var fl := ReadU32(fo.rest);
    var vo := ReadU32(fl.rest);
    var vl := ReadU32(vo.rest);
    var bc := ReadU32(vl.rest);
    EncodeReadU32(s);
    EncodeReadU32(fo.rest);
    EncodeReadU32(fl.rest);
    EncodeReadU32(vo.rest);
    EncodeReadU32(vl.rest);
    EncodeReadMany(bc.rest, 26, ReadBoneId4, EncodeBoneId4);
  }

  lemma ReadEncodeLodType4(l: LodType4, tail: seq<Byte>)
    ensures ReadLodType4(EncodeLodType4(l, tail)) == Ok(l, tail)
  {
    ReadEncodeU16(LodTypeCode(l), tail);
  }

  lemma EncodeReadLodType4(s: seq<Byte>)
    requires ReadLodType4(s).Ok?
    ensures EncodeLodType4(ReadLodType4(s).value, ReadLodType4(s).rest) == s
  {
    EncodeReadU16(s);
  }

  function EncodeRevision3(r: Revision3, tail: seq<Byte>): (e: seq<Byte>)
    ensures |e| == 4 + |tail|
  {
    Revision3Tag(r) + tail
  }

  function EncodeRevision4(r: Revision4, tail: seq<Byte>): (e: seq<Byte>)
    ensures |e| == 4 + |tail|
  {
    Revision4Tag(r) + tail
  }

  /** The two revision tags of each version differ, so each reads back as itself. */
  lemma RevisionCodecs(r3: Revision3, r4: Revision4, tail: seq<Byte>, s: seq<Byte>)
    ensures ReadRevision3(EncodeRevision3(r3, tail)) == Ok(r3, tail)
    ensures ReadRevision4(EncodeRevision4(r4, tail)) == Ok(r4, tail)
    ensures ReadRevision3(s).Ok? ==> EncodeRevision3(ReadRevision3(s).value, ReadRevision3(s).rest) == s
    ensures ReadRevision4(s).Ok? ==> EncodeRevision4(ReadRevision4(s).value, ReadRevision4(s).rest) == s
  {
    Revision3Codec(r3, tail, s);
    Revision4Codec(r4, tail, s);
  }

  lemma Revision3Codec(r3: Revision3, tail: seq<Byte>, s: seq<Byte>)
    ensures ReadRevision3(EncodeRevision3(r3, tail)) == Ok(r3, tail)
    ensures ReadRevision3(s).Ok? ==> EncodeRevision3(ReadRevision3(s).value, ReadRevision3(s).rest) == s
  {
    assert Revision3Tag(Version300)[3] != Revision3Tag(Version301)[3];
    var e3 := EncodeRevision3(r3, tail);
    assert e3[..4] == Revision3Tag(r3) && e3[4..] == tail;
    if |s| >= 4 {
      assert s[..4] + s[4..] == s;
    }
  }

  lemma Revision4Codec(r4: Revision4, tail: seq<Byte>, s: seq<Byte>)
    ensures ReadRevision4(EncodeRevision4(r4, tail)) == Ok(r4, tail)
    ensures ReadRevision4(s).Ok? ==> EncodeRevision4(ReadRevision4(s).value, ReadRevision4(s).rest) == s
  {
    assert Revision4Tag(Version400)[3] != Revision4Tag(Version401)[3];
    var e4 := EncodeRevision4(r4, tail);
    assert e4[..4] == Revision4Tag(r4) && e4[4..] == tail;
    if |s| >= 4 {
      assert s[..4] + s[4..] == s;
    }
  }

  /** Every fixed-size mesh record is read back from its encoding, and a read record re-encodes to its input. */
  lemma RecordCodecs()
    ensures forall v, t :: ReadVertex2(EncodeVertex2(v, t)) == Ok(v, t)
    ensures forall v, t :: ReadVertex2Truncated(EncodeVertex2Truncated(v, t)) == Ok(v, t)
    ensures forall f, t :: ReadFace2(EncodeFace2(f, t)) == Ok(f, t)
    ensures forall l, t :: ReadLod3(EncodeLod3(l, t)) == Ok(l, t)
    ensures forall e, t :: ReadEnvelope4(EncodeEnvelope4(e, t)) == Ok(e, t)
    ensures forall b, t :: ReadBone4(EncodeBone4(b, t)) == Ok(b, t)
    ensures forall x, t :: ReadSubset4(EncodeSubset4(x, t)) == Ok(x, t)
    ensures forall s | ReadVertex2(s).Ok? :: EncodeVertex2(ReadVertex2(s).value, ReadVertex2(s).rest) == s
    ensures forall s | ReadVertex2Truncated(s).Ok? ::
      EncodeVertex2Truncated(ReadVertex2Truncated(s).value, ReadVertex2Truncated(s).rest) == s
    ensures forall s | ReadFace2(s).Ok? :: EncodeFace2(ReadFace2(s).value, ReadFace2(s).rest) == s
    ensures forall s | ReadLod3(s).Ok? :: EncodeLod3(ReadLod3(s).value, ReadLod3(s).rest) == s
    ensures forall s | ReadEnvelope4(s).Ok? :: EncodeEnvelope4(ReadEnvelope4(s).value, ReadEnvelope4(s).rest) == s
    ensures forall s | ReadBone4(s).Ok? :: EncodeBone4(ReadBone4(s).value, ReadBone4(s).rest) == s
    ensures forall s | ReadSubset4(s).Ok? :: EncodeSubset4(ReadSubset4(s).value, ReadSubset4(s).rest) == s
  {
    ScalarCodecs();
    forall v, t ensures ReadVertex2(EncodeVertex2(v, t)) == Ok(v, t) { ReadEncodeVertex2(v, t); }
    forall v, t ensures ReadVertex2Truncated(EncodeVertex2Truncated(v, t)) == Ok(v, t) {
      ReadEncodeVertex2Truncated(v, t);
    }
    forall f, t ensures ReadFace2(EncodeFace2(f, t)) == Ok(f, t) { ReadEncodeFace2(f, t); }
    forall e, t ensures ReadEnvelope4(EncodeEnvelope4(e, t)) == Ok(e, t) { ReadEncodeEnvelope4(e, t); }
    forall b, t ensures ReadBone4(EncodeBone4(b, t)) == Ok(b, t) { ReadEncodeBone4(b, t); }
    forall x, t ensures ReadSubset4(EncodeSubset4(x, t)) == Ok(x, t) { ReadEncodeSubset4(x, t); }
    forall s | ReadVertex2(s).Ok? ensures EncodeVertex2(ReadVertex2(s).value, ReadVertex2(s).rest) == s {
      EncodeReadVertex2(s);
    }
    forall s | ReadVertex2Truncated(s).Ok?
      ensures EncodeVertex2Truncated(ReadVertex2Truncated(s).value, ReadVertex2Truncated(s).rest) == s
    {
      EncodeReadVertex2Truncated(s);
    }
    forall s | ReadFace2(s).Ok? ensures EncodeFace2(ReadFace2(s).value, ReadFace2(s).rest) == s {
      EncodeReadFace2(s);
    }
    forall s | ReadEnvelope4(s).Ok? ensures EncodeEnvelope4(ReadEnvelope4(s).value, ReadEnvelope4(s).rest) == s {
      EncodeReadEnvelope4(s);
    }
    forall s | ReadBone4(s).Ok? ensures EncodeBone4(ReadBone4(s).value, ReadBone4(s).rest) == s {
      EncodeReadBone4(s);
    }
    forall s | ReadSubset4(s).Ok? ensures EncodeSubset4(ReadSubset4(s).value, ReadSubset4(s).rest) == s {
      EncodeReadSubset4(s);
    }
  }
}

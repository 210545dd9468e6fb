/**
 * The CSG mesh-data blob: a file masked with a repeating 31-byte XOR pad,
 * which, once unmasked, holds a "CSGMDL" header, a list of 84-byte model
 * records and a count-prefixed list of model indices.
 */
/**
 * Exclusive or on bytes, computed bit by bit from the lowest bit, and its
 * cancellation law.
 */
module ByteXor {
  import opened Wire

  function Pow2(n: nat): (p: nat)
    ensures p >= 1
  {
    if n == 0 then 1 else 2 * Pow2(n - 1)
  }

  /** The exclusive or of the low `n` bits of `a` and `b`. */
  function XorBits(a: nat, b: nat, n: nat): (r: nat)
    ensures r < Pow2(n)
  {
    if n == 0 then 0
    else (if a % 2 == b % 2 then 0 else 1) + 2 * XorBits(a / 2, b / 2, n - 1)
  }

  /** Bitwise exclusive or of two bytes. */
  function Xor(a: Byte, b: Byte): Byte
  {
    XorBits(a, b, 8)
  }

  /** Applying the same `n`-bit key twice restores any `n`-bit value. */
  lemma {:induction false} XorBitsCancel(a: nat, k: nat, n: nat)
    requires a < Pow2(n)
    ensures XorBits(XorBits(a, k, n), k, n) == a
  {
    if n > 0 {
      var c := XorBits(a / 2, k / 2, n - 1);
      assert XorBits(a, k, n) / 2 == c;
      XorBitsCancel(a / 2, k / 2, n - 1);
    }
  }

  /** Masking a byte twice with the same key restores it. */
  lemma XorInvolution(a: Byte, k: Byte)
    ensures Xor(Xor(a, k), k) == a
  {
    XorBitsCancel(a, k, 8);
  }
}

module MeshDataFormat {
  import opened Wire
  import opened ByteXor

  // ----------------------------------------------------------------- unmasking

  /** The 31-byte pad, applied cyclically from the first byte of the file. */
  const Noise: seq<Byte> := [86, 46, 110, 88, 49, 32, 48, 4, 52, 105, 12, 119, 12, 1, 94, 0, 26, 96, 55, 105, 29,
    82, 43, 7, 79, 36, 89, 101, 83, 4, 122]

  /** The key byte for position `i`: the pad is indexed modulo its length, so never out of bounds. */
  function Key(i: nat): Byte
  {
    Noise[i % |Noise|]
  }

  /** `decode`'s result: every byte XOR-ed with the key for its position. */
  function Unmasked(data: seq<Byte>): (r: seq<Byte>)
    ensures |r| == |data|
  {
    seq(|data|, i requires 0 <= i < |data| => Xor(data[i], Key(i)))
  }

  /** The transform is its own inverse: masking and unmasking are the same pass. */
  lemma UnmaskTwice(data: seq<Byte>)
    ensures Unmasked(Unmasked(data)) == data
  {
    forall i | 0 <= i < |data|
      ensures Unmasked(Unmasked(data))[i] == data[i]
    {
      XorInvolution(data[i], Key(i));
    }
  }

  /**
   * The pad restarts every 31 bytes: unmasking a file whose first part is a
   * whole number of pad lengths unmasks the two parts independently.
   */
  lemma UnmaskSplit(a: seq<Byte>, b: seq<Byte>)
    requires |a| % 31 == 0
    ensures Unmasked(a + b) == Unmasked(a) + Unmasked(b)
  {
    var k := |a| / 31;
    assert |a| == 31 * k;
    forall i | 0 <= i < |a| + |b|
      ensures Unmasked(a + b)[i] == (Unmasked(a) + Unmasked(b))[i]
    {
      if i < |a| {
        assert (a + b)[i] == a[i];
        assert (Unmasked(a) + Unmasked(b))[i] == Unmasked(a)[i];
      } else {
        var j := i - |a|;
        PadRestarts(k, j);
        assert i == 31 * k + j;
        assert (a + b)[i] == b[j];
        assert (Unmasked(a) + Unmasked(b))[i] == Unmasked(b)[j];
      }
    }
  }

  /** Shifting a position by whole pad lengths does not change its key. */
  lemma PadRestarts(k: nat, i: nat)
    ensures Key(31 * k + i) == Key(i)
  {
    assert |Noise| == 31;
    ShiftMod(k, i);
  }

  lemma {:induction false} ShiftMod(k: nat, i: nat)
    ensures (31 * k + i) % 31 == i % 31
  {
    if k > 0 {
      ShiftMod(k - 1, i);
      assert 31 * k + i == (31 * (k - 1) + i) + 31;
    }
  }

  /** A prefix of the unmasked file depends only on the same prefix of the masked file. */
  lemma UnmaskPrefix(data: seq<Byte>, n: nat)
    requires n <= |data|
    ensures Unmasked(data)[..n] == Unmasked(data[..n])
  {
  }

  /**
   * `decode`: the whole input is read into a buffer, then each byte is
   * XOR-ed in place with the pad byte for its index.
   */
  method Decode(data: seq<Byte>) returns (buf: array<Byte>)
    ensures fresh(buf)
    ensures buf[..] == Unmasked(data)
  {
    buf := new Byte[|data|](i requires 0 <= i < |data| => data[i]);
    for i := 0 to buf.Length
      invariant buf[..i] == Unmasked(data)[..i]
      invariant buf[i..] == data[i..]
    {
      buf[i] := Xor(buf[i], Noise[i % |Noise|]);
    }
  }

  // ------------------------------------------------------------------ records

  type Hash = s: seq<Byte> | |s| == 16 witness [0, 0, 0, 0, 0, 0, 0, 0, 0, 0, 0, 0, 0, 0, 0, 0]
  type U32x4 = s: seq<U32> | |s| == 4 witness [0, 0, 0, 0]

  datatype Header = Header(version: U32, hash: Hash, unknown: U32x4, modelCount: U32)

  const HeaderSize: nat := 40

  function ReadHeader(s: seq<Byte>): Parse<Header>
  {
    var version :- ReadU32(s);
    var hash :- ReadMany(version.rest, 16, ReadU8);
    var unknown :- ReadMany(hash.rest, 4, ReadU32);
    var count :- ReadU32(unknown.rest);
    Ok(Header(version.value, hash.value, unknown.value, count.value), count.rest)
  }

  function EncodeHeader(h: Header, tail: seq<Byte>): (r: seq<Byte>)
    ensures |r| == HeaderSize + |tail|
  {
    ArrayLengths();
    EncodeU32(h.version, EncodeMany(h.hash, EncodeU8, EncodeMany(h.unknown, EncodeU32, EncodeU32(h.modelCount, tail))))
  }

  /** The constant between the payload and its count. */
  const ModelMagic: seq<Byte> := [0x5B, 0x5D, 0x69, 0xFF]

  /** A model record; its two 16-byte runs of zeros are constants, not fields. */
  datatype Model = Model(payload: F32x6, payloadCount: U32, tex: F32x2, moreFloat: F32x3)

  function ReadModel(s: seq<Byte>): Parse<Model>
  {
    var payload :- ReadMany(s, 6, ReadF32);
    var m :- ReadMagic(payload.rest, ModelMagic);
    var count :- ReadU32(m.rest);
    var tex :- ReadMany(count.rest, 2, ReadF32);
    var z1 :- ReadMagic(tex.rest, Zeros(16));
    var more :- ReadMany(z1.rest, 3, ReadF32);
    var z2 :- ReadMagic(more.rest, Zeros(16));
    Ok(Model(payload.value, count.value, tex.value, more.value), z2.rest)
  }

  function EncodeModel(m: Model, tail: seq<Byte>): seq<Byte>
  {
    EncodeMany(m.payload, EncodeF32, EncodeMagic(ModelMagic, EncodeU32(m.payloadCount,
      EncodeMany(m.tex, EncodeF32, EncodeMagic(Zeros(16), EncodeMany(m.moreFloat, EncodeF32,
      EncodeMagic(Zeros(16), tail)))))))
  }

  /** The "model data length" the file declares before the models: the `u32` 84. */
  const ModelDataLength: seq<Byte> := [84, 0, 0, 0]

  /** The model-data-length constant spells 84 as a little-endian `u32`. */
  lemma ModelDataLengthValue()
    ensures ReadU32(ModelDataLength) == Ok(84, [])
  {
  }

  /** Every model record is 84 bytes, the length the file declares for it. */
  lemma ModelSize(m: Model, tail: seq<Byte>)
    ensures |EncodeModel(m, tail)| == 84 + |tail|
  {
    ArrayLengths();
  }

  type ModelId = U32

  datatype Indices = Indices(count: U32, indices: seq<ModelId>)
  {
    predicate Wf() { |indices| == count }
  }

  function ReadIndices(s: seq<Byte>): (r: Parse<Indices>)
    ensures r.Ok? ==> r.value.Wf()
  {
    var count :- ReadU32(s);
    var ids :- ReadMany(count.rest, count.value, ReadU32);
    Ok(Indices(count.value, ids.value), ids.rest)
  }

  function EncodeIndices(x: Indices, tail: seq<Byte>): seq<Byte>
  {
    EncodeU32(x.count, EncodeMany(x.indices, EncodeU32, tail))
  }

  const MeshDataMagic: seq<Byte> := Ascii("CSGMDL")

  /** The unmasked file: as many models as the header counts, then the index list. */
  datatype MeshData = MeshData(header: Header, models: seq<Model>, indices: Indices)
  {
    predicate Wf() {
      |models| == header.modelCount && indices.Wf()
    }
  }

  /** `read`. */
  function ReadMeshData(s: seq<Byte>): (r: Parse<MeshData>)
    ensures r.Ok? ==> r.value.Wf()
    ensures r.Ok? ==> |s| >= 6 && s[..6] == MeshDataMagic
  {
    var m :- ReadMagic(s, MeshDataMagic);
    var header :- ReadHeader(m.rest);
    var l :- ReadMagic(header.rest, ModelDataLength);
    var models :- ReadMany(l.rest, header.value.modelCount, ReadModel);
    var indices :- ReadIndices(models.rest);
    Ok(MeshData(header.value, models.value, indices.value), indices.rest)
  }

  function EncodeMeshData(d: MeshData, tail: seq<Byte>): seq<Byte>
  {
    EncodeMagic(MeshDataMagic, EncodeHeader(d.header, EncodeMagic(ModelDataLength,
      EncodeMany(d.models, EncodeModel, EncodeIndices(d.indices, tail)))))
  }

  /**
   * The encoded file: magic, a 40-byte header, the declared model length,
   * 84 bytes per model, then 4 bytes per index after their count.
   */
  lemma MeshDataSize(d: MeshData, tail: seq<Byte>)
    ensures |EncodeMeshData(d, tail)| == 6 + HeaderSize + 4 + 84 * |d.models| + 4 + 4 * |d.indices.indices| + |tail|
  {
    ArrayLengths();
    forall m: Model, t: seq<Byte> ensures |EncodeModel(m, t)| == 84 + |t| {
      ModelSize(m, t);
    }
    EncodeManyLength(d.models, EncodeModel, 84, EncodeIndices(d.indices, tail));
  }

  // ------------------------------------------------------------- round trips

  lemma ReadEncodeHeader(h: Header, tail: seq<Byte>)
    ensures ReadHeader(EncodeHeader(h, tail)) == Ok(h, tail)
  {
    var afterUnknown := EncodeU32(h.modelCount, tail);
    var afterHash := EncodeMany(h.unknown, EncodeU32, afterUnknown);
    ScalarCodecs();
    ReadEncodeU32(h.version, EncodeMany(h.hash, EncodeU8, afterHash));
    ReadEncodeMany(h.hash, afterHash, ReadU8, EncodeU8);
    ReadEncodeMany(h.unknown, afterUnknown, ReadU32, EncodeU32);
    ReadEncodeU32(h.modelCount, tail);
  }

  lemma EncodeReadHeader(s: seq<Byte>)
    requires ReadHeader(s).Ok?
    ensures EncodeHeader(ReadHeader(s).value, ReadHeader(s).rest) == s
  {
    var version := ReadU32(s);
    EncodeReadU32(s);
    var hash := ReadMany(version.rest, 16, ReadU8);
    ScalarCodecs();
    EncodeReadMany(version.rest, 16, ReadU8, EncodeU8);
    var unknown := ReadMany(hash.rest, 4, ReadU32);
    EncodeReadMany(hash.rest, 4, ReadU32, EncodeU32);
    EncodeReadU32(unknown.rest);
  }

  lemma ModelCodec(m: Model, tail: seq<Byte>, s: seq<Byte>)
    ensures ReadModel(EncodeModel(m, tail)) == Ok(m, tail)
    ensures ReadModel(s).Ok? ==> EncodeModel(ReadModel(s).value, ReadModel(s).rest) == s
  {
    ScalarCodecs();
    ArrayCodecs();
    var z2 := EncodeMagic(Zeros(16), tail);
    var more := EncodeMany(m.moreFloat, EncodeF32, z2);
    var z1 := EncodeMagic(Zeros(16), more);
    var count := EncodeU32(m.payloadCount, EncodeMany(m.tex, EncodeF32, z1));
    ReadEncodeMagic(ModelMagic, count);
    ReadEncodeMagic(Zeros(16), more);
    ReadEncodeMagic(Zeros(16), tail);
    var payload := ReadMany(s, 6, ReadF32);
    if ReadModel(s).Ok? {
      var mg := ReadMagic(payload.rest, ModelMagic);
      EncodeReadMagic(payload.rest, ModelMagic);
      var c := ReadU32(mg.rest);
      var t := ReadMany(c.rest, 2, ReadF32);
      var y1 := ReadMagic(t.rest, Zeros(16));
      EncodeReadMagic(t.rest, Zeros(16));
      var mf := ReadMany(y1.rest, 3, ReadF32);
      EncodeReadMagic(mf.rest, Zeros(16));
    }
  }

  lemma IndicesCodec(x: Indices, tail: seq<Byte>, s: seq<Byte>)
    requires x.Wf()
    ensures ReadIndices(EncodeIndices(x, tail)) == Ok(x, tail)
    ensures ReadIndices(s).Ok? ==> EncodeIndices(ReadIndices(s).value, ReadIndices(s).rest) == s
  {
    ScalarCodecs();
    ArrayCodecs();
    ReadEncodeU32(x.count, EncodeMany(x.indices, EncodeU32, tail));
    var count := ReadU32(s);
    if count.Ok? && ReadMany(count.rest, count.value, ReadU32).Ok? {
      EncodeReadMany(count.rest, count.value, ReadU32, EncodeU32);
    }
  }

  /** A well-formed file is read back from its encoding, whatever follows it. */
  lemma ReadEncodeMeshData(d: MeshData, tail: seq<Byte>)
    requires d.Wf()
    ensures ReadMeshData(EncodeMeshData(d, tail)) == Ok(d, tail)
  {
    var indices := EncodeIndices(d.indices, tail);
    var models := EncodeMany(d.models, EncodeModel, indices);
    var afterHeader := EncodeMagic(ModelDataLength, models);
    ReadEncodeMagic(MeshDataMagic, EncodeHeader(d.header, afterHeader));
    ReadEncodeHeader(d.header, afterHeader);
    ReadEncodeMagic(ModelDataLength, models);
    forall m: Model, t: seq<Byte> ensures ReadModel(EncodeModel(m, t)) == Ok(m, t) {
      ModelCodec(m, t, []);
    }
    ReadEncodeMany(d.models, indices, ReadModel, EncodeModel);
    IndicesCodec(d.indices, tail, []);
  }

  /** A file that reads successfully re-encodes to exactly the bytes it was read from. */
  lemma EncodeReadMeshData(s: seq<Byte>)
    requires ReadMeshData(s).Ok?
    ensures EncodeMeshData(ReadMeshData(s).value, ReadMeshData(s).rest) == s
  {
    var m := ReadMagic(s, MeshDataMagic);
    EncodeReadMagic(s, MeshDataMagic);
    var header := ReadHeader(m.rest);
    EncodeReadHeader(m.rest);
    var l := ReadMagic(header.rest, ModelDataLength);
    EncodeReadMagic(header.rest, ModelDataLength);
    var models := ReadMany(l.rest, header.value.modelCount, ReadModel);
    forall s' | ReadModel(s').Ok? ensures EncodeModel(ReadModel(s').value, ReadModel(s').rest) == s' {
      ModelCodec(ReadModel(s').value, [], s');
    }
    EncodeReadMany(l.rest, header.value.modelCount, ReadModel, EncodeModel);
    IndicesCodec(Indices(0, []), [], models.rest);
  }

  /**
   * A file stored masked (the pad applied to the encoding of a well-formed
   * record) is unmasked by `decode` and then read in full: nothing is left over.
   */
  lemma UnmaskThenRead(d: MeshData)
    requires d.Wf()
    ensures ReadMeshData(Unmasked(Unmasked(EncodeMeshData(d, [])))) == Ok(d, [])
  {
    UnmaskTwice(EncodeMeshData(d, []));
    ReadEncodeMeshData(d, []);
  }
}

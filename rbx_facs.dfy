/**
 * The facial animation (FACS) block that closes a version 5.00 mesh in the
 * newer mesh decoder: two name blobs, six transform matrices, and the lists of
 * two-pose and three-pose corrective control pairs and triples.
 */
module RbxFacs {
  import opened Wire

  // ------------------------------------------------------- transform matrix

  /** The number of entries of an `x` by `y` matrix: the product in 32-bit arithmetic, which wraps. */
  function MatrixCount(x: U32, y: U32): (n: nat)
    ensures n < 0x1_0000_0000
    ensures x * y < 0x1_0000_0000 ==> n == x * y
  {
    (x * y) % 0x1_0000_0000
  }

  /**
   * A matrix of transform values, stored either as raw floats or as 16-bit
   * levels to be interpolated between `lerp0` and `lerp1`.
   */
  datatype QuantizedMatrix =
    | Raw(x: U32, y: U32, matrix: seq<F32>)
    | Quantized(x: U32, y: U32, lerp0: F32, lerp1: F32, levels: seq<U16>)
  {
    /** The entry list has `x * y` entries. */
    predicate Wf() {
      match this
      case Raw(x, y, matrix) => |matrix| == MatrixCount(x, y)
      case Quantized(x, y, _, _, levels) => |levels| == MatrixCount(x, y)
    }
  }

  /** The variant tags: the `u16` values 1 and 2. */
  const RawTag: seq<Byte> := [0x01, 0x00]
  const QuantizedTag: seq<Byte> := [0x02, 0x00]

  function ReadRaw(s: seq<Byte>): (r: Parse<QuantizedMatrix>)
    ensures r.Ok? ==> r.value.Raw? && r.value.Wf() && |s| >= 2 && s[..2] == RawTag
  {
    var t :- ReadMagic(s, RawTag);
    var x :- ReadU32(t.rest);
    var y :- ReadU32(x.rest);
    var m :- ReadMany(y.rest, MatrixCount(x.value, y.value), ReadF32);
    Ok(Raw(x.value, y.value, m.value), m.rest)
  }

  function ReadQuantized(s: seq<Byte>): (r: Parse<QuantizedMatrix>)
    ensures r.Ok? ==> r.value.Quantized? && r.value.Wf() && |s| >= 2 && s[..2] == QuantizedTag
  {
    var t :- ReadMagic(s, QuantizedTag);
    var x :- ReadU32(t.rest);
    var y :- ReadU32(x.rest);
    var l0 :- ReadF32(y.rest);
    var l1 :- ReadF32(l0.rest);
    var m :- ReadMany(l1.rest, MatrixCount(x.value, y.value), ReadU16);
    Ok(Quantized(x.value, y.value, l0.value, l1.value, m.value), m.rest)
  }

  /**
   * The variants are tried in turn from the same start; when neither reads,
   * whatever stopped each attempt, the error is that no variant matched.
   */
  function ReadQuantizedMatrix(s: seq<Byte>): (r: Parse<QuantizedMatrix>)
    ensures r.Ok? ==> r.value.Wf()
    ensures r.Ok? ==> |s| >= 2 && (r.value.Raw? <==> s[..2] == RawTag) && (r.value.Quantized? <==> s[..2] == QuantizedTag)
    ensures r.Fail? ==> r.error == NoVariantMatch
  {
    match ReadRaw(s)
    case Ok(m, rest) => Ok(m, rest)
    case Fail(_) =>
      match ReadQuantized(s)
      case Ok(m, rest) => Ok(m, rest)
      case Fail(_) => Fail(NoVariantMatch)
  }

  function EncodeQuantizedMatrix(m: QuantizedMatrix, tail: seq<Byte>): seq<Byte>
  {
    match m
    case Raw(x, y, matrix) =>
      EncodeMagic(RawTag, EncodeU32(x, EncodeU32(y, EncodeMany(matrix, EncodeF32, tail))))
    case Quantized(x, y, lerp0, lerp1, levels) =>
      EncodeMagic(QuantizedTag, EncodeU32(x, EncodeU32(y, EncodeF32(lerp0, EncodeF32(lerp1,
        EncodeMany(levels, EncodeU16, tail))))))
  }

  /** A tag other than 1 and 2 is never read as a matrix. */
  lemma UnknownMatrixTag(s: seq<Byte>)
    requires |s| >= 2 && s[..2] != RawTag && s[..2] != QuantizedTag
    ensures ReadQuantizedMatrix(s) == Fail(NoVariantMatch)
  {
  }

  lemma ReadEncodeQuantizedMatrix(m: QuantizedMatrix, tail: seq<Byte>)
    requires m.Wf()
    ensures ReadQuantizedMatrix(EncodeQuantizedMatrix(m, tail)) == Ok(m, tail)
  {
    ScalarCodecs();
    match m
    case Raw(x, y, matrix) =>
      var body := EncodeMany(matrix, EncodeF32, tail);
      ReadEncodeMagic(RawTag, EncodeU32(x, EncodeU32(y, body)));
      ReadEncodeMany(matrix, tail, ReadF32, EncodeF32);
    case Quantized(x, y, lerp0, lerp1, levels) =>
      var body := EncodeMany(levels, EncodeU16, tail);
      var e := EncodeQuantizedMatrix(m, tail);
      ReadEncodeMagic(QuantizedTag, EncodeU32(x, EncodeU32(y, EncodeF32(lerp0, EncodeF32(lerp1, body)))));
      assert e[..2] == QuantizedTag;
      assert ReadRaw(e).Fail?;
      ReadEncodeMany(levels, tail, ReadU16, EncodeU16);
  }

  lemma EncodeReadQuantizedMatrix(s: seq<Byte>)
    requires ReadQuantizedMatrix(s).Ok?
    ensures EncodeQuantizedMatrix(ReadQuantizedMatrix(s).value, ReadQuantizedMatrix(s).rest) == s
  {
    ScalarCodecs();
    if ReadRaw(s).Ok? {
      var t := ReadMagic(s, RawTag);
      EncodeReadMagic(s, RawTag);
      var x := ReadU32(t.rest);
      var y := ReadU32(x.rest);
      EncodeReadMany(y.rest, MatrixCount(x.value, y.value), ReadF32, EncodeF32);
    } else {
      var t := ReadMagic(s, QuantizedTag);
      EncodeReadMagic(s, QuantizedTag);
      var x := ReadU32(t.rest);
      var y := ReadU32(x.rest);
      var l0 := ReadF32(y.rest);
      var l1 := ReadF32(l0.rest);
      EncodeReadMany(l1.rest, MatrixCount(x.value, y.value), ReadU16, EncodeU16);
    }
  }

  // ------------------------------------------------------------- transforms

  /** The position and rotation matrices of the face bones, one per axis. */
  datatype QuantizedTransforms = QuantizedTransforms(
    px: QuantizedMatrix, py: QuantizedMatrix, pz: QuantizedMatrix,
    rx: QuantizedMatrix, ry: QuantizedMatrix, rz: QuantizedMatrix)
  {
    predicate Wf() {
      px.Wf() && py.Wf() && pz.Wf() && rx.Wf() && ry.Wf() && rz.Wf()
    }
  }

  function ReadQuantizedTransforms(s: seq<Byte>): (r: Parse<QuantizedTransforms>)
    ensures r.Ok? ==> r.value.Wf()
  {
    var px :- ReadQuantizedMatrix(s);
    var py :- ReadQuantizedMatrix(px.rest);
    var pz :- ReadQuantizedMatrix(py.rest);
    var rx :- ReadQuantizedMatrix(pz.rest);
    var ry :- ReadQuantizedMatrix(rx.rest);
    var rz :- ReadQuantizedMatrix(ry.rest);
    Ok(QuantizedTransforms(px.value, py.value, pz.value, rx.value, ry.value, rz.value), rz.rest)
  }

  function EncodeQuantizedTransforms(t: QuantizedTransforms, tail: seq<Byte>): seq<Byte>
  {
    EncodeQuantizedMatrix(t.px, EncodeQuantizedMatrix(t.py, EncodeQuantizedMatrix(t.pz,
      EncodeQuantizedMatrix(t.rx, EncodeQuantizedMatrix(t.ry, EncodeQuantizedMatrix(t.rz, tail))))))
  }

  lemma ReadEncodeQuantizedTransforms(t: QuantizedTransforms, tail: seq<Byte>)
    requires t.Wf()
    ensures ReadQuantizedTransforms(EncodeQuantizedTransforms(t, tail)) == Ok(t, tail)
  {
    var rz := EncodeQuantizedMatrix(t.rz, tail);
    var ry := EncodeQuantizedMatrix(t.ry, rz);
    var rx := EncodeQuantizedMatrix(t.rx, ry);
    var pz := EncodeQuantizedMatrix(t.pz, rx);
    var py := EncodeQuantizedMatrix(t.py, pz);
    ReadEncodeQuantizedMatrix(t.px, py);
    ReadEncodeQuantizedMatrix(t.py, pz);
    ReadEncodeQuantizedMatrix(t.pz, rx);
    ReadEncodeQuantizedMatrix(t.rx, ry);
    ReadEncodeQuantizedMatrix(t.ry, rz);
    ReadEncodeQuantizedMatrix(t.rz, tail);
  }

  lemma EncodeReadQuantizedTransforms(s: seq<Byte>)
    requires ReadQuantizedTransforms(s).Ok?
    ensures EncodeQuantizedTransforms(ReadQuantizedTransforms(s).value, ReadQuantizedTransforms(s).rest) == s
  {
    var px := ReadQuantizedMatrix(s);
    var py := ReadQuantizedMatrix(px.rest);
    var pz := ReadQuantizedMatrix(py.rest);
    var rx := ReadQuantizedMatrix(pz.rest);
    var ry := ReadQuantizedMatrix(rx.rest);
    EncodeReadQuantizedMatrix(s);
    EncodeReadQuantizedMatrix(px.rest);
    EncodeReadQuantizedMatrix(py.rest);
    EncodeReadQuantizedMatrix(pz.rest);
    EncodeReadQuantizedMatrix(rx.rest);
    EncodeReadQuantizedMatrix(ry.rest);
  }

  // ------------------------------------------------------------ correctives

  /** A face control, by index. */
  type ControlId = U16

  datatype TwoPoseCorrective5 = TwoPoseCorrective5(a: ControlId, b: ControlId)
  datatype ThreePoseCorrective5 = ThreePoseCorrective5(a: ControlId, b: ControlId, c: ControlId)

  /** The in-memory sizes the byte lengths in the block are divided by. */
  const TwoPoseSize: nat := 4
  const ThreePoseSize: nat := 6

  function ReadTwoPose(s: seq<Byte>): Parse<TwoPoseCorrective5>
  {
    var a :- ReadU16(s);
    var b :- ReadU16(a.rest);
    Ok(TwoPoseCorrective5(a.value, b.value), b.rest)
  }

  function EncodeTwoPose(p: TwoPoseCorrective5, tail: seq<Byte>): (r: seq<Byte>)
    ensures |r| == TwoPoseSize + |tail|
  {
    EncodeU16(p.a, EncodeU16(p.b, tail))
  }

  function ReadThreePose(s: seq<Byte>): Parse<ThreePoseCorrective5>
  {
    var a :- ReadU16(s);
    var b :- ReadU16(a.rest);
    var c :- ReadU16(b.rest);
    Ok(ThreePoseCorrective5(a.value, b.value, c.value), c.rest)
  }

  function EncodeThreePose(p: ThreePoseCorrective5, tail: seq<Byte>): (r: seq<Byte>)
    ensures |r| == ThreePoseSize + |tail|
  {
    EncodeU16(p.a, EncodeU16(p.b, EncodeU16(p.c, tail)))
  }

  lemma PoseCodecs()
    ensures forall p, t :: ReadTwoPose(EncodeTwoPose(p, t)) == Ok(p, t)
    ensures forall p, t :: ReadThreePose(EncodeThreePose(p, t)) == Ok(p, t)
    ensures forall s | ReadTwoPose(s).Ok? :: EncodeTwoPose(ReadTwoPose(s).value, ReadTwoPose(s).rest) == s
    ensures forall s | ReadThreePose(s).Ok? :: EncodeThreePose(ReadThreePose(s).value, ReadThreePose(s).rest) == s
  {
    ScalarCodecs();
  }

  // ------------------------------------------------------------------- block

  /**
   * The FACS block: five length fields, then the blobs and lists they size.
   * The corrective lists are sized by their byte lengths divided by the size
   * of one entry, rounding down; the transform length is not used.
   */
  datatype Facs = Facs(
    faceBoneNamesLen: U32, faceControlNamesLen: U32, quantizedTransformsLen: U64,
    twoPoseCorrectivesLen: U32, threePoseCorrectivesLen: U32,
    faceBoneNames: seq<Byte>, faceControlNames: seq<Byte>, quantizedTransforms: QuantizedTransforms,
    twoPoseCorrectives: seq<TwoPoseCorrective5>, threePoseCorrectives: seq<ThreePoseCorrective5>)
  {
    predicate Wf() {
      && |faceBoneNames| == faceBoneNamesLen
      && |faceControlNames| == faceControlNamesLen
      && quantizedTransforms.Wf()
      && |twoPoseCorrectives| == twoPoseCorrectivesLen / TwoPoseSize
      && |threePoseCorrectives| == threePoseCorrectivesLen / ThreePoseSize
    }
  }

  function ReadFacsLengths(s: seq<Byte>): Parse<(U32, U32, U64, U32, U32)>
  {
    var bn :- ReadU32(s);
    var cn :- ReadU32(bn.rest);
    var qt :- ReadU64(cn.rest);
    var tp :- ReadU32(qt.rest);
    var th :- ReadU32(tp.rest);
    Ok((bn.value, cn.value, qt.value, tp.value, th.value), th.rest)
  }

  function EncodeFacsLengths(n: (U32, U32, U64, U32, U32), tail: seq<Byte>): (r: seq<Byte>)
    ensures |r| == 24 + |tail|
  {
    EncodeU32(n.0, EncodeU32(n.1, EncodeU64(n.2, EncodeU32(n.3, EncodeU32(n.4, tail)))))
  }

  /** The five length fields of a block, in their order on the wire. */
  function Lengths(f: Facs): (U32, U32, U64, U32, U32)
  {
    (f.faceBoneNamesLen, f.faceControlNamesLen, f.quantizedTransformsLen, f.twoPoseCorrectivesLen,
      f.threePoseCorrectivesLen)
  }

  function ReadFacs(s: seq<Byte>): (r: Parse<Facs>)
    ensures r.Ok? ==> r.value.Wf()
  {
    var n :- ReadFacsLengths(s);
    ReadFacsBody(n.rest, n.value)
  }

  /** What follows the length fields, sized by them. */
  function ReadFacsBody(s: seq<Byte>, n: (U32, U32, U64, U32, U32)): (r: Parse<Facs>)
    ensures r.Ok? ==> r.value.Wf() && Lengths(r.value) == n
  {
    var (bnl, cnl, qtl, tpl, thl) := n;
    var bn :- ReadMany(s, bnl, ReadU8);
    var cn :- ReadMany(bn.rest, cnl, ReadU8);
    var qt :- ReadQuantizedTransforms(cn.rest);
    var tp :- ReadMany(qt.rest, tpl / TwoPoseSize, ReadTwoPose);
    var th :- ReadMany(tp.rest, thl / ThreePoseSize, ReadThreePose);
    Ok(Facs(bnl, cnl, qtl, tpl, thl, bn.value, cn.value, qt.value, tp.value, th.value), th.rest)
  }

  function EncodeFacs(f: Facs, tail: seq<Byte>): seq<Byte>
  {
    EncodeFacsLengths(Lengths(f), EncodeFacsBody(f, tail))
  }

  function EncodeFacsBody(f: Facs, tail: seq<Byte>): seq<Byte>
  {
    EncodeMany(f.faceBoneNames, EncodeU8, EncodeMany(f.faceControlNames, EncodeU8,
      EncodeQuantizedTransforms(f.quantizedTransforms, EncodeMany(f.twoPoseCorrectives, EncodeTwoPose,
      EncodeMany(f.threePoseCorrectives, EncodeThreePose, tail)))))
  }

  lemma ReadEncodeFacsLengths(n: (U32, U32, U64, U32, U32), tail: seq<Byte>)
    ensures ReadFacsLengths(EncodeFacsLengths(n, tail)) == Ok(n, tail)
  {
    ReadEncodeU32(n.0, EncodeU32(n.1, EncodeU64(n.2, EncodeU32(n.3, EncodeU32(n.4, tail)))));
    ReadEncodeU32(n.1, EncodeU64(n.2, EncodeU32(n.3, EncodeU32(n.4, tail))));
    ReadEncodeU64(n.2, EncodeU32(n.3, EncodeU32(n.4, tail)));
    ReadEncodeU32(n.3, EncodeU32(n.4, tail));
    ReadEncodeU32(n.4, tail);
  }

  lemma EncodeReadFacsLengths(s: seq<Byte>)
    requires ReadFacsLengths(s).Ok?
    ensures EncodeFacsLengths(ReadFacsLengths(s).value, ReadFacsLengths(s).rest) == s
  {
    var bn := ReadU32(s);
    var cn := ReadU32(bn.rest);
    var qt := ReadU64(cn.rest);
    var tp := ReadU32(qt.rest);
    EncodeReadU32(s);
    EncodeReadU32(bn.rest);
    EncodeReadU64(cn.rest);
    EncodeReadU32(qt.rest);
    EncodeReadU32(tp.rest);
  }

  lemma ReadEncodeFacs(f: Facs, tail: seq<Byte>)
    requires f.Wf()
    ensures ReadFacs(EncodeFacs(f, tail)) == Ok(f, tail)
  {
    ReadEncodeFacsLengths(Lengths(f), EncodeFacsBody(f, tail));
    ReadEncodeFacsBody(f, tail);
  }

  lemma ReadEncodeFacsBody(f: Facs, tail: seq<Byte>)
    requires f.Wf()
    ensures ReadFacsBody(EncodeFacsBody(f, tail), Lengths(f)) == Ok(f, tail)
  {
    ScalarCodecs();
    PoseCodecs();
    var th := EncodeMany(f.threePoseCorrectives, EncodeThreePose, tail);
    var tp := EncodeMany(f.twoPoseCorrectives, EncodeTwoPose, th);
    var qt := EncodeQuantizedTransforms(f.quantizedTransforms, tp);
    var cn := EncodeMany(f.faceControlNames, EncodeU8, qt);
    ReadEncodeMany(f.faceBoneNames, cn, ReadU8, EncodeU8);
    ReadEncodeMany(f.faceControlNames, qt, ReadU8, EncodeU8);
    ReadEncodeQuantizedTransforms(f.quantizedTransforms, tp);
    ReadEncodeMany(f.twoPoseCorrectives, th, ReadTwoPose, EncodeTwoPose);
    ReadEncodeMany(f.threePoseCorrectives, tail, ReadThreePose, EncodeThreePose);
  }

  lemma EncodeReadFacs(s: seq<Byte>)
    requires ReadFacs(s).Ok?
    ensures EncodeFacs(ReadFacs(s).value, ReadFacs(s).rest) == s
  {
    var n := ReadFacsLengths(s);
    EncodeReadFacsLengths(s);
    EncodeReadFacsBody(n.rest, n.value);
  }

  lemma EncodeReadFacsBody(s: seq<Byte>, n: (U32, U32, U64, U32, U32))
    requires ReadFacsBody(s, n).Ok?
    ensures EncodeFacsBody(ReadFacsBody(s, n).value, ReadFacsBody(s, n).rest) == s
  {
    ScalarCodecs();
    PoseCodecs();
    var bn := ReadMany(s, n.0, ReadU8);
    var cn := ReadMany(bn.rest, n.1, ReadU8);
    var qt := ReadQuantizedTransforms(cn.rest);
    var tp := ReadMany(qt.rest, n.3 / TwoPoseSize, ReadTwoPose);
    EncodeReadMany(s, n.0, ReadU8, EncodeU8);
    EncodeReadMany(bn.rest, n.1, ReadU8, EncodeU8);
    EncodeReadQuantizedTransforms(cn.rest);
    EncodeReadMany(qt.rest, n.3 / TwoPoseSize, ReadTwoPose, EncodeTwoPose);
    EncodeReadMany(tp.rest, n.4 / ThreePoseSize, ReadThreePose, EncodeThreePose);
  }

  /**
   * The corrective lists take whole entries only: a byte length that is not
   * a multiple of the entry size reads the same entries as the next lower
   * multiple, and the list occupies at most the declared bytes.
   */
  lemma CorrectiveCounts(f: Facs)
    requires f.Wf()
    ensures |f.twoPoseCorrectives| * TwoPoseSize <= f.twoPoseCorrectivesLen < (|f.twoPoseCorrectives| + 1) * TwoPoseSize
    ensures |f.threePoseCorrectives| * ThreePoseSize <= f.threePoseCorrectivesLen
      < (|f.threePoseCorrectives| + 1) * ThreePoseSize
  {
  }
}

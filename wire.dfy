/**
 * Little-endian binary records, as the asset decoders read and write them.
 *
 * Every reader takes the unread input and either fails or returns the decoded
 * value together with the input that follows it. Every encoder is written in
 * continuation style: `EncodeX(x, tail)` is the bytes of `x` followed by `tail`,
 * so that the round trip of a record is the round trips of its fields in order.
 */
module Wire {

  type Byte = b: int | 0 <= b < 0x100
  type U16 = x: int | 0 <= x < 0x1_0000
  type U32 = x: int | 0 <= x < 0x1_0000_0000
  type U64 = x: int | 0 <= x < 0x1_0000_0000_0000_0000
  type I8 = x: int | -0x80 <= x < 0x80

  /** An IEEE 754 binary32 value kept as its bit pattern; no float arithmetic is modelled. */
  datatype F32 = F32(bits: U32)

  // Fixed-size arrays (`[T; N]` fields) are sequences of exactly that length.
  type F32x2 = s: seq<F32> | |s| == 2 witness [F32(0), F32(0)]
  type F32x3 = s: seq<F32> | |s| == 3 witness [F32(0), F32(0), F32(0)]
  type F32x6 = s: seq<F32> | |s| == 6 witness [F32(0), F32(0), F32(0), F32(0), F32(0), F32(0)]
  type I8x4 = s: seq<I8> | |s| == 4 witness [0, 0, 0, 0]
  type U8x4 = s: seq<Byte> | |s| == 4 witness [0, 0, 0, 0]

  datatype Option<+T> = None | Some(value: T)

  /** The failures a record read can end in. */
  datatype BinError =
    | UnexpectedEof   // the input ended inside a field
    | BadMagic        // a constant byte pattern did not match
    | NoVariantMatch  // no variant of an enumeration matched

  /** The outcome of reading one value: the value and the unread input, or an error. */
  datatype Parse<+T> = Ok(value: T, rest: seq<Byte>) | Fail(error: BinError) {

    predicate IsFailure() {
      Fail?
    }

    function PropagateFailure<U>(): Parse<U>
      requires Fail?
    {
      Fail(error)
    }

    function Extract(): (r: Parse<T>)
      requires Ok?
      ensures r.Ok? && r == this
    {
      this
    }
  }

  /** The bytes of an ASCII string. */
  function Ascii(s: string): (r: seq<Byte>)
    ensures |r| == |s|
  {
    seq(|s|, i requires 0 <= i < |s| => (s[i] as int) % 0x100)
  }

  // ---------------------------------------------------------------- scalars

  function ReadU8(s: seq<Byte>): (r: Parse<Byte>)
  {
    if |s| < 1 then Fail(UnexpectedEof) else Ok(s[0], s[1..])
  }

  function EncodeU8(x: Byte, tail: seq<Byte>): seq<Byte>
  {
    [x] + tail
  }

  function ReadU16(s: seq<Byte>): (r: Parse<U16>)
  {
    if |s| < 2 then Fail(UnexpectedEof) else Ok(s[0] as int + 0x100 * s[1] as int, s[2..])
  }

  function EncodeU16(x: U16, tail: seq<Byte>): seq<Byte>
  {
    [x % 0x100, x / 0x100] + tail
  }

  function ReadU32(s: seq<Byte>): (r: Parse<U32>)
  {
    if |s| < 4 then Fail(UnexpectedEof)
    else Ok(s[0] as int + 0x100 * s[1] as int + 0x1_0000 * s[2] as int + 0x100_0000 * s[3] as int, s[4..])
  }

  function EncodeU32(x: U32, tail: seq<Byte>): seq<Byte>
  {
    var q1 := x / 0x100;
    var q2 := q1 / 0x100;
    [x % 0x100, q1 % 0x100, q2 % 0x100, q2 / 0x100] + tail
  }

  /** A `u64` is its low 32 bits followed by its high 32 bits. */
  function ReadU64(s: seq<Byte>): (r: Parse<U64>)
  {
    var lo :- ReadU32(s);
    var hi :- ReadU32(lo.rest);
    Ok(lo.value + 0x1_0000_0000 * hi.value, hi.rest)
  }

  function EncodeU64(x: U64, tail: seq<Byte>): seq<Byte>
  {
    EncodeU32(x % 0x1_0000_0000, EncodeU32(x / 0x1_0000_0000, tail))
  }

  /** A signed byte is the two's complement reading of one byte. */
  function ReadI8(s: seq<Byte>): (r: Parse<I8>)
  {
    if |s| < 1 then Fail(UnexpectedEof)
    else Ok(if s[0] < 0x80 then s[0] as int else s[0] as int - 0x100, s[1..])
  }

  function EncodeI8(x: I8, tail: seq<Byte>): seq<Byte>
  {
    [if x < 0 then x + 0x100 else x] + tail
  }

  function ReadF32(s: seq<Byte>): (r: Parse<F32>)
  {
    var bits :- ReadU32(s);
    Ok(F32(bits.value), bits.rest)
  }

  function EncodeF32(x: F32, tail: seq<Byte>): seq<Byte>
  {
    EncodeU32(x.bits, tail)
  }

  // ----------------------------------------------------------------- magic

  /**
   * A constant byte pattern: too little input is an end-of-input error, a
   * different pattern is BadMagic.
   */
  function ReadMagic(s: seq<Byte>, magic: seq<Byte>): (r: Parse<()>)
    ensures r.Ok? <==> |s| >= |magic| && s[..|magic|] == magic
    ensures r.Ok? ==> r.rest == s[|magic|..]
    ensures r == Fail(UnexpectedEof) <==> |s| < |magic|
  {
    if |s| < |magic| then Fail(UnexpectedEof)
    else if s[..|magic|] != magic then Fail(BadMagic)
    else Ok((), s[|magic|..])
  }

  function EncodeMagic(magic: seq<Byte>, tail: seq<Byte>): seq<Byte>
  {
    magic + tail
  }

  /** `n` zero bytes: the encoding of the constant `0` of an `n`-byte integer. */
  function Zeros(n: nat): (r: seq<Byte>)
    ensures |r| == n && forall i | 0 <= i < n :: r[i] == 0
  {
    seq(n, i => 0)
  }

  // -------------------------------------------------------- counted vectors

  /** `n` values read one after the other; the first failure ends the read. */
  function ReadMany<T>(s: seq<Byte>, n: nat, read: seq<Byte> -> Parse<T>): (r: Parse<seq<T>>)
    ensures r.Ok? ==> |r.value| == n
    decreases n
  {
    if n == 0 then Ok([], s)
    else
      var first :- read(s);
      var others :- ReadMany(first.rest, n - 1, read);
      Ok([first.value] + others.value, others.rest)
  }

  function EncodeMany<T>(xs: seq<T>, encode: (T, seq<Byte>) -> seq<Byte>, tail: seq<Byte>): seq<Byte>
  {
    if xs == [] then tail else encode(xs[0], EncodeMany(xs[1..], encode, tail))
  }

  /** Encoding `k` values of a fixed width `w` adds exactly `k * w` bytes. */
  lemma {:induction false} EncodeManyLength<T>(xs: seq<T>, encode: (T, seq<Byte>) -> seq<Byte>, w: nat, tail: seq<Byte>)
    requires forall x, t :: |encode(x, t)| == w + |t|
    ensures |EncodeMany(xs, encode, tail)| == |xs| * w + |tail|
  {
    if xs != [] {
      EncodeManyLength(xs[1..], encode, w, tail);
    }
  }

  /** Reading back `|xs|` encoded values yields `xs` and leaves the tail. */
  lemma {:induction false} ReadEncodeMany<T>(xs: seq<T>, tail: seq<Byte>, read: seq<Byte> -> Parse<T>, encode: (T, seq<Byte>) -> seq<Byte>)
    requires forall x, t :: read(encode(x, t)) == Ok(x, t)
    ensures ReadMany(EncodeMany(xs, encode, tail), |xs|, read) == Ok(xs, tail)
  {
    if xs != [] {
      ReadEncodeMany(xs[1..], tail, read, encode);
      assert [xs[0]] + xs[1..] == xs;
    }
  }

  /** A successful read of `n` values consumed exactly their encoding. */
  lemma {:induction false} EncodeReadMany<T>(s: seq<Byte>, n: nat, read: seq<Byte> -> Parse<T>, encode: (T, seq<Byte>) -> seq<Byte>)
    requires forall s' :: read(s').Ok? ==> encode(read(s').value, read(s').rest) == s'
    requires ReadMany(s, n, read).Ok?
    ensures EncodeMany(ReadMany(s, n, read).value, encode, ReadMany(s, n, read).rest) == s
    decreases n
  {
    if n > 0 {
      var first := read(s);
      EncodeReadMany(first.rest, n - 1, read, encode);
      var r := ReadMany(s, n, read);
      assert r.value[1..] == ReadMany(first.rest, n - 1, read).value;
    }
  }

  /** A reader that always consumes exactly `w` bytes. */
  ghost predicate FixedWidth<T>(read: seq<Byte> -> Parse<T>, w: nat)
  {
    forall s :: read(s).Ok? ==> |read(s).rest| + w == |s|
  }

  /** Reading `n` values of width `w` consumes exactly `n * w` bytes. */
  lemma {:induction false} ReadManyWidth<T>(s: seq<Byte>, n: nat, read: seq<Byte> -> Parse<T>, w: nat)
    requires FixedWidth(read, w)
    ensures ReadMany(s, n, read).Ok? ==> |ReadMany(s, n, read).rest| + n * w == |s|
    decreases n
  {
    if n > 0 && read(s).Ok? {
      ReadManyWidth(read(s).rest, n - 1, read, w);
    }
  }

  /** A reader that can only fail by running out of input: it checks no constant. */
  ghost predicate EofOnly<T>(read: seq<Byte> -> Parse<T>)
  {
    forall s :: read(s).Fail? ==> read(s).error == UnexpectedEof
  }

  /** Repeating a reader that checks no constant checks no constant either. */
  lemma {:induction false} ReadManyEofOnly<T>(s: seq<Byte>, n: nat, read: seq<Byte> -> Parse<T>)
    requires EofOnly(read)
    ensures ReadMany(s, n, read).Fail? ==> ReadMany(s, n, read).error == UnexpectedEof
    decreases n
  {
    if n > 0 && read(s).Ok? {
      ReadManyEofOnly(read(s).rest, n - 1, read);
    }
  }

  /** The scalar readers, and arrays of them, fail only at the end of input. */
  lemma ScalarsEofOnly()
    ensures EofOnly(ReadU8) && EofOnly(ReadI8) && EofOnly(ReadU16) && EofOnly(ReadU32) && EofOnly(ReadF32)
    ensures forall s, n: nat :: ReadMany(s, n, ReadF32).Fail? ==> ReadMany(s, n, ReadF32).error == UnexpectedEof
    ensures forall s, n: nat :: ReadMany(s, n, ReadI8).Fail? ==> ReadMany(s, n, ReadI8).error == UnexpectedEof
    ensures forall s, n: nat :: ReadMany(s, n, ReadU8).Fail? ==> ReadMany(s, n, ReadU8).error == UnexpectedEof
  {
    forall s, n: nat ensures ReadMany(s, n, ReadF32).Fail? ==> ReadMany(s, n, ReadF32).error == UnexpectedEof {
      ReadManyEofOnly(s, n, ReadF32);
    }
    forall s, n: nat ensures ReadMany(s, n, ReadI8).Fail? ==> ReadMany(s, n, ReadI8).error == UnexpectedEof {
      ReadManyEofOnly(s, n, ReadI8);
    }
    forall s, n: nat ensures ReadMany(s, n, ReadU8).Fail? ==> ReadMany(s, n, ReadU8).error == UnexpectedEof {
      ReadManyEofOnly(s, n, ReadU8);
    }
  }

  // ------------------------------------------------- scalar round trips

  lemma ReadEncodeU8(x: Byte, tail: seq<Byte>)
    ensures ReadU8(EncodeU8(x, tail)) == Ok(x, tail)
  {
    assert ([x] + tail)[1..] == tail;
  }

  lemma ReadEncodeU16(x: U16, tail: seq<Byte>)
    ensures ReadU16(EncodeU16(x, tail)) == Ok(x, tail)
  {
    assert ([x % 0x100, x / 0x100] + tail)[2..] == tail;
  }

  lemma ReadEncodeU32(x: U32, tail: seq<Byte>)
    ensures ReadU32(EncodeU32(x, tail)) == Ok(x, tail)
  {
    var q1 := x / 0x100;
    var q2 := q1 / 0x100;
    var e := EncodeU32(x, tail);
    assert e[4..] == tail;
    assert e[0] as int + 0x100 * e[1] as int + 0x1_0000 * e[2] as int + 0x100_0000 * e[3] as int == x;
  }

  lemma ReadEncodeU64(x: U64, tail: seq<Byte>)
    ensures ReadU64(EncodeU64(x, tail)) == Ok(x, tail)
  {
    ReadEncodeU32(x / 0x1_0000_0000, tail);
    ReadEncodeU32(x % 0x1_0000_0000, EncodeU32(x / 0x1_0000_0000, tail));
  }

  lemma ReadEncodeI8(x: I8, tail: seq<Byte>)
    ensures ReadI8(EncodeI8(x, tail)) == Ok(x, tail)
  {
    assert EncodeI8(x, tail)[1..] == tail;
  }

  lemma ReadEncodeF32(x: F32, tail: seq<Byte>)
    ensures ReadF32(EncodeF32(x, tail)) == Ok(x, tail)
  {
    ReadEncodeU32(x.bits, tail);
  }

  lemma EncodeReadU8(s: seq<Byte>)
    requires ReadU8(s).Ok?
    ensures EncodeU8(ReadU8(s).value, ReadU8(s).rest) == s
  {
    assert [s[0]] + s[1..] == s;
  }

  lemma EncodeReadU16(s: seq<Byte>)
    requires ReadU16(s).Ok?
    ensures EncodeU16(ReadU16(s).value, ReadU16(s).rest) == s
  {
    assert [s[0], s[1]] + s[2..] == s;
  }

  lemma EncodeReadU32(s: seq<Byte>)
    requires ReadU32(s).Ok?
    ensures EncodeU32(ReadU32(s).value, ReadU32(s).rest) == s
  {
    var x := ReadU32(s).value;
    var hi := s[2] as int + 0x100 * s[3] as int;
    var q1 := s[1] as int + 0x100 * hi;
    assert x == s[0] as int + 0x100 * q1;
    LowByte(s[0] as int, q1);
    LowByte(s[1] as int, hi);
    LowByte(s[2] as int, s[3] as int);
    assert EncodeU32(x, s[4..]) == [s[0], s[1], s[2], s[3]] + s[4..];
    assert [s[0], s[1], s[2], s[3]] + s[4..] == s;
  }

  /** A byte below a multiple of 256 is the remainder, and the multiple's factor the quotient. */
  lemma LowByte(lo: int, hi: int)
    requires 0 <= lo < 0x100
    ensures (lo + 0x100 * hi) % 0x100 == lo && (lo + 0x100 * hi) / 0x100 == hi
  {
  }

  lemma EncodeReadU64(s: seq<Byte>)
    requires ReadU64(s).Ok?
    ensures EncodeU64(ReadU64(s).value, ReadU64(s).rest) == s
  {
    var lo := ReadU32(s);
    var hi := ReadU32(lo.rest);
    EncodeReadU32(s);
    EncodeReadU32(lo.rest);
    var x := lo.value + 0x1_0000_0000 * hi.value;
    assert x % 0x1_0000_0000 == lo.value && x / 0x1_0000_0000 == hi.value;
  }

  lemma EncodeReadI8(s: seq<Byte>)
    requires ReadI8(s).Ok?
    ensures EncodeI8(ReadI8(s).value, ReadI8(s).rest) == s
  {
    assert [s[0]] + s[1..] == s;
  }

  lemma EncodeReadF32(s: seq<Byte>)
    requires ReadF32(s).Ok?
    ensures EncodeF32(ReadF32(s).value, ReadF32(s).rest) == s
  {
    EncodeReadU32(s);
  }

  lemma ReadEncodeMagic(magic: seq<Byte>, tail: seq<Byte>)
    ensures ReadMagic(EncodeMagic(magic, tail), magic) == Ok((), tail)
  {
    assert (magic + tail)[..|magic|] == magic;
    assert (magic + tail)[|magic|..] == tail;
  }

  lemma EncodeReadMagic(s: seq<Byte>, magic: seq<Byte>)
    requires ReadMagic(s, magic).Ok?
    ensures EncodeMagic(magic, ReadMagic(s, magic).rest) == s
  {
    assert s[..|magic|] + s[|magic|..] == s;
  }

  /** Sizes of the scalar encodings. */
  lemma EncodedSizes(tail: seq<Byte>)
    ensures forall x: Byte :: |EncodeU8(x, tail)| == 1 + |tail|
    ensures forall x: I8 :: |EncodeI8(x, tail)| == 1 + |tail|
    ensures forall x: U16 :: |EncodeU16(x, tail)| == 2 + |tail|
    ensures forall x: U32 :: |EncodeU32(x, tail)| == 4 + |tail|
    ensures forall x: F32 :: |EncodeF32(x, tail)| == 4 + |tail|
    ensures forall x: U64 :: |EncodeU64(x, tail)| == 8 + |tail|
  {
  }

  /** Every scalar codec is a bijection between values and the byte strings it accepts. */
  lemma ScalarCodecs()
    ensures forall x: Byte, t: seq<Byte> :: ReadU8(EncodeU8(x, t)) == Ok(x, t)
    ensures forall x: I8, t: seq<Byte> :: ReadI8(EncodeI8(x, t)) == Ok(x, t)
    ensures forall x: U16, t: seq<Byte> :: ReadU16(EncodeU16(x, t)) == Ok(x, t)
    ensures forall x: U32, t: seq<Byte> :: ReadU32(EncodeU32(x, t)) == Ok(x, t)
    ensures forall x: F32, t: seq<Byte> :: ReadF32(EncodeF32(x, t)) == Ok(x, t)
    ensures forall s | ReadU8(s).Ok? :: EncodeU8(ReadU8(s).value, ReadU8(s).rest) == s
    ensures forall s | ReadI8(s).Ok? :: EncodeI8(ReadI8(s).value, ReadI8(s).rest) == s
    ensures forall s | ReadU16(s).Ok? :: EncodeU16(ReadU16(s).value, ReadU16(s).rest) == s
    ensures forall s | ReadU32(s).Ok? :: EncodeU32(ReadU32(s).value, ReadU32(s).rest) == s
    ensures forall s | ReadF32(s).Ok? :: EncodeF32(ReadF32(s).value, ReadF32(s).rest) == s
  {
    forall x: Byte, t: seq<Byte> ensures ReadU8(EncodeU8(x, t)) == Ok(x, t) { ReadEncodeU8(x, t); }
    forall x: I8, t: seq<Byte> ensures ReadI8(EncodeI8(x, t)) == Ok(x, t) { ReadEncodeI8(x, t); }
    forall x: U16, t: seq<Byte> ensures ReadU16(EncodeU16(x, t)) == Ok(x, t) { ReadEncodeU16(x, t); }
    forall x: U32, t: seq<Byte> ensures ReadU32(EncodeU32(x, t)) == Ok(x, t) { ReadEncodeU32(x, t); }
    forall x: F32, t: seq<Byte> ensures ReadF32(EncodeF32(x, t)) == Ok(x, t) { ReadEncodeF32(x, t); }
    forall s | ReadU8(s).Ok? ensures EncodeU8(ReadU8(s).value, ReadU8(s).rest) == s { EncodeReadU8(s); }
    forall s | ReadI8(s).Ok? ensures EncodeI8(ReadI8(s).value, ReadI8(s).rest) == s { EncodeReadI8(s); }
    forall s | ReadU16(s).Ok? ensures EncodeU16(ReadU16(s).value, ReadU16(s).rest) == s { EncodeReadU16(s); }
    forall s | ReadU32(s).Ok? ensures EncodeU32(ReadU32(s).value, ReadU32(s).rest) == s { EncodeReadU32(s); }
    forall s | ReadF32(s).Ok? ensures EncodeF32(ReadF32(s).value, ReadF32(s).rest) == s { EncodeReadF32(s); }
  }

  /** Arrays of scalars: reading back an encoded array yields it, and a read array re-encodes to its input. */
  lemma ArrayCodecs()
    ensures forall xs: seq<F32>, t: seq<Byte> :: ReadMany(EncodeMany(xs, EncodeF32, t), |xs|, ReadF32) == Ok(xs, t)
    ensures forall xs: seq<I8>, t: seq<Byte> :: ReadMany(EncodeMany(xs, EncodeI8, t), |xs|, ReadI8) == Ok(xs, t)
    ensures forall xs: seq<Byte>, t: seq<Byte> :: ReadMany(EncodeMany(xs, EncodeU8, t), |xs|, ReadU8) == Ok(xs, t)
    ensures forall xs: seq<U32>, t: seq<Byte> :: ReadMany(EncodeMany(xs, EncodeU32, t), |xs|, ReadU32) == Ok(xs, t)
    ensures forall s, n: nat | ReadMany(s, n, ReadF32).Ok? ::
      EncodeMany(ReadMany(s, n, ReadF32).value, EncodeF32, ReadMany(s, n, ReadF32).rest) == s
    ensures forall s, n: nat | ReadMany(s, n, ReadI8).Ok? ::
      EncodeMany(ReadMany(s, n, ReadI8).value, EncodeI8, ReadMany(s, n, ReadI8).rest) == s
    ensures forall s, n: nat | ReadMany(s, n, ReadU8).Ok? ::
      EncodeMany(ReadMany(s, n, ReadU8).value, EncodeU8, ReadMany(s, n, ReadU8).rest) == s
    ensures forall s, n: nat | ReadMany(s, n, ReadU32).Ok? ::
      EncodeMany(ReadMany(s, n, ReadU32).value, EncodeU32, ReadMany(s, n, ReadU32).rest) == s
  {
    ScalarCodecs();
    forall xs: seq<F32>, t: seq<Byte> ensures ReadMany(EncodeMany(xs, EncodeF32, t), |xs|, ReadF32) == Ok(xs, t) {
      ReadEncodeMany(xs, t, ReadF32, EncodeF32);
    }
    forall xs: seq<I8>, t: seq<Byte> ensures ReadMany(EncodeMany(xs, EncodeI8, t), |xs|, ReadI8) == Ok(xs, t) {
      ReadEncodeMany(xs, t, ReadI8, EncodeI8);
    }
    forall xs: seq<Byte>, t: seq<Byte> ensures ReadMany(EncodeMany(xs, EncodeU8, t), |xs|, ReadU8) == Ok(xs, t) {
      ReadEncodeMany(xs, t, ReadU8, EncodeU8);
    }
    forall xs: seq<U32>, t: seq<Byte> ensures ReadMany(EncodeMany(xs, EncodeU32, t), |xs|, ReadU32) == Ok(xs, t) {
      ReadEncodeMany(xs, t, ReadU32, EncodeU32);
    }
    forall s, n: nat | ReadMany(s, n, ReadF32).Ok?
      ensures EncodeMany(ReadMany(s, n, ReadF32).value, EncodeF32, ReadMany(s, n, ReadF32).rest) == s
    {
      EncodeReadMany(s, n, ReadF32, EncodeF32);
    }
    forall s, n: nat | ReadMany(s, n, ReadI8).Ok?
      ensures EncodeMany(ReadMany(s, n, ReadI8).value, EncodeI8, ReadMany(s, n, ReadI8).rest) == s
    {
      EncodeReadMany(s, n, ReadI8, EncodeI8);
    }
    forall s, n: nat | ReadMany(s, n, ReadU8).Ok?
      ensures EncodeMany(ReadMany(s, n, ReadU8).value, EncodeU8, ReadMany(s, n, ReadU8).rest) == s
    {
      EncodeReadMany(s, n, ReadU8, EncodeU8);
    }
    forall s, n: nat | ReadMany(s, n, ReadU32).Ok?
      ensures EncodeMany(ReadMany(s, n, ReadU32).value, EncodeU32, ReadMany(s, n, ReadU32).rest) == s
    {
      EncodeReadMany(s, n, ReadU32, EncodeU32);
    }
  }

  /** Encoded array sizes: element width times element count. */
  lemma ArrayLengths()
    ensures forall xs: seq<F32>, t: seq<Byte> :: |EncodeMany(xs, EncodeF32, t)| == 4 * |xs| + |t|
    ensures forall xs: seq<I8>, t: seq<Byte> :: |EncodeMany(xs, EncodeI8, t)| == |xs| + |t|
    ensures forall xs: seq<Byte>, t: seq<Byte> :: |EncodeMany(xs, EncodeU8, t)| == |xs| + |t|
    ensures forall xs: seq<U32>, t: seq<Byte> :: |EncodeMany(xs, EncodeU32, t)| == 4 * |xs| + |t|
  {
    forall xs: seq<F32>, t: seq<Byte> ensures |EncodeMany(xs, EncodeF32, t)| == 4 * |xs| + |t| {
      EncodeManyLength(xs, EncodeF32, 4, t);
    }
    forall xs: seq<I8>, t: seq<Byte> ensures |EncodeMany(xs, EncodeI8, t)| == |xs| + |t| {
      EncodeManyLength(xs, EncodeI8, 1, t);
    }
    forall xs: seq<Byte>, t: seq<Byte> ensures |EncodeMany(xs, EncodeU8, t)| == |xs| + |t| {
      EncodeManyLength(xs, EncodeU8, 1, t);
    }
    forall xs: seq<U32>, t: seq<Byte> ensures |EncodeMany(xs, EncodeU32, t)| == 4 * |xs| + |t| {
      EncodeManyLength(xs, EncodeU32, 4, t);
    }
  }
}

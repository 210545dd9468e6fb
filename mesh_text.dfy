/**
 * The text (version 1.x) mesh format and the error type of the mesh decoders.
 *
 * A version 1 file is three lines: a version line, the face count, and one
 * line of bracketed groups `[x,y,z]`, three groups (position, normal,
 * texture coordinates) per vertex. Decoding a line's bytes as UTF-8, parsing
 * one decimal float and the two float operations of the fix-ups are not
 * modelled: they are the fields of `TextOps`.
 */
module MeshText {
  import opened Wire

  // ---------------------------------------------------------------- errors

  /** The failures of a mesh decode, shared by every version. */
  datatype Error =
    | Io                                   // a line is not valid UTF-8 (or the reader failed)
    | Header                               // the version line is not a version 1 line
    | UnknownVersion(bytes: seq<Byte>)     // the first 12 bytes name no known version
    | UnexpectedEof                        // a line is missing
    | ParseIntError                        // the face count line is not a `u32`
    | ParseFloatError                      // a vertex component is not a float
    | Regex                                // a capture group is missing (cannot happen)
    | PositionDimensionNot3(len: nat)
    | NormalDimensionNot3(len: nat)
    | TextureCoordsDimensionNot3(len: nat)
    | VertexTripletCount                   // one or two groups are left over
    | VertexCount                          // the vertex count is not three times the face count
    | BinRead(error: BinError)             // a binary record failed to read

  datatype Result<+T> = Success(value: T) | Failure(error: Error) {

    predicate IsFailure() {
      Failure?
    }

    function PropagateFailure<U>(): Result<U>
      requires Failure?
    {
      Failure(error)
    }

    function Extract(): T
      requires Success?
    {
      value
    }
  }

  /** A binary read as a decoder result: the unread input is dropped, a failure becomes BinRead. */
  function FromParse<T>(p: Parse<T>): (r: Result<T>)
    ensures r.Success? <==> p.Ok?
    ensures p.Ok? ==> r.value == p.value
    ensures p.Fail? ==> r.error == BinRead(p.error)
  {
    match p
    case Ok(v, _) => Success(v)
    case Fail(e) => Failure(BinRead(e))
  }

  // ---------------------------------------------------------- version tags

  /** The versions a mesh file can name in its first 12 bytes. */
  datatype Version = V100 | V101 | V200 | V300 | V301 | V400 | V401 | V500

  /** The 12-byte tag that opens a file of each version. */
  function TagOf(v: Version): (tag: seq<Byte>)
    ensures |tag| == 12 && tag[..8] == Ascii("version ")
  {
    match v
    case V100 => Ascii("version 1.00")
    case V101 => Ascii("version 1.01")
    case V200 => Ascii("version 2.00")
    case V300 => Ascii("version 3.00")
    case V301 => Ascii("version 3.01")
    case V400 => Ascii("version 4.00")
    case V401 => Ascii("version 4.01")
    case V500 => Ascii("version 5.00")
  }

  /** The version a tag names, if any. */
  function VersionOf(tag: seq<Byte>): (r: Option<Version>)
    ensures r.Some? ==> TagOf(r.value) == tag
    ensures r.None? ==> forall v :: TagOf(v) != tag
  {
    if tag == TagOf(V100) then Some(V100)
    else if tag == TagOf(V101) then Some(V101)
    else if tag == TagOf(V200) then Some(V200)
    else if tag == TagOf(V300) then Some(V300)
    else if tag == TagOf(V301) then Some(V301)
    else if tag == TagOf(V400) then Some(V400)
    else if tag == TagOf(V401) then Some(V401)
    else if tag == TagOf(V500) then Some(V500)
    else
      UntaggedVersion(tag);
      None
  }

  lemma UntaggedVersion(tag: seq<Byte>)
    requires tag != TagOf(V100) && tag != TagOf(V101) && tag != TagOf(V200) && tag != TagOf(V300)
    requires tag != TagOf(V301) && tag != TagOf(V400) && tag != TagOf(V401) && tag != TagOf(V500)
    ensures forall v :: TagOf(v) != tag
  {
    forall v ensures TagOf(v) != tag {
      match v
      case V100 =>
      case V101 =>
      case V200 =>
      case V300 =>
      case V301 =>
      case V400 =>
      case V401 =>
      case V500 =>
    }
  }

  /** Different versions have different tags, so each tag names its own version back. */
  lemma VersionOfTag(v: Version)
    ensures VersionOf(TagOf(v)) == Some(v)
  {
    var t := TagOf(v);
    assert TagOf(V100)[8] == 0x31 && TagOf(V101)[8] == 0x31 && TagOf(V200)[8] == 0x32;
    assert TagOf(V300)[8] == 0x33 && TagOf(V301)[8] == 0x33 && TagOf(V400)[8] == 0x34;
    assert TagOf(V401)[8] == 0x34 && TagOf(V500)[8] == 0x35;
    assert TagOf(V100)[11] == 0x30 && TagOf(V101)[11] == 0x31 && TagOf(V300)[11] == 0x30;
    assert TagOf(V301)[11] == 0x31 && TagOf(V400)[11] == 0x30 && TagOf(V401)[11] == 0x31;
  }

  /** What reading text needs and this model does not define. */
  datatype TextOps = TextOps(
    utf8: seq<Byte> -> Option<string>,   // a line's bytes as UTF-8 text
    parseF32: string -> Option<F32>,     // `str::parse::<f32>`
    half: F32 -> F32,                    // `x * 0.5`
    oneMinus: F32 -> F32)                // `1.0 - x`

  // ----------------------------------------------------------------- lines

  const Newline: Byte := 0x0A
  const CarriageReturn: Byte := 0x0D

  /** The number of bytes before the first newline, or all of them when there is none. */
  function LineLength(data: seq<Byte>): (n: nat)
    ensures n <= |data|
    ensures forall k | 0 <= k < n :: data[k] != Newline
    ensures n < |data| ==> data[n] == Newline
  {
    if data == [] || data[0] == Newline then 0 else 1 + LineLength(data[1..])
  }

  /**
   * The first line of a non-empty input, without its line ending, and the
   * input after that ending. A line ends at a newline; a carriage return right
   * before the newline is dropped with it.
   */
  function SplitLine(data: seq<Byte>): (r: (seq<Byte>, seq<Byte>))
    requires data != []
    ensures |r.1| < |data|
  {
    var n := LineLength(data);
    if n == |data| then (data, [])
    else if n > 0 && data[n - 1] == CarriageReturn then (data[..n - 1], data[n + 1..])
    else (data[..n], data[n + 1..])
  }

  /** What is left to read after the next line. */
  function Remaining(data: seq<Byte>): (r: seq<Byte>)
    ensures data != [] ==> |r| < |data|
  {
    if data == [] then [] else SplitLine(data).1
  }

  /** The next line as text and the input after it. */
  function NextLine(data: seq<Byte>, utf8: seq<Byte> -> Option<string>): (r: Result<(string, seq<Byte>)>)
    ensures r.Success? ==> data != [] && r.value.1 == Remaining(data)
    ensures r.Failure? ==> r.error == (if data == [] then Error.UnexpectedEof else Io)
  {
    if data == [] then Failure(Error.UnexpectedEof)
    else
      match utf8(SplitLine(data).0)
      case None => Failure(Io)
      case Some(text) => Success((text, SplitLine(data).1))
  }

  /** The next line, trimmed and read as a `u32`. */
  function NextU32(data: seq<Byte>, utf8: seq<Byte> -> Option<string>): (r: Result<U32>)
    ensures r.Failure? ==> r.error in {Error.UnexpectedEof, Io, ParseIntError}
  {
    var line :- NextLine(data, utf8);
    match ParseU32(Trim(line.0))
    case None => Failure(ParseIntError)
    case Some(n) => Success(n)
  }

  /**
   * Lines read back from their rendering: a line without newline bytes that
   * does not end in a carriage return, followed by LF or by CR LF, is split
   * off exactly.
   */
  lemma SplitLineOfLine(line: seq<Byte>, rest: seq<Byte>)
    requires Newline !in line
    requires line == [] || line[|line| - 1] != CarriageReturn
    ensures SplitLine(line + [Newline] + rest) == (line, rest)
    ensures SplitLine(line + [CarriageReturn, Newline] + rest) == (line, rest)
  {
    var lf := line + [Newline] + rest;
    var crlf := line + [CarriageReturn, Newline] + rest;
    assert forall k | 0 <= k < |line| :: lf[k] == line[k] && crlf[k] == line[k];
    assert lf[|line|] == Newline;
    assert crlf[|line|] == CarriageReturn && crlf[|line| + 1] == Newline;
    assert LineLength(lf) == |line|;
    assert LineLength(crlf) == |line| + 1;
    assert lf[..|line|] == line && lf[|line| + 1..] == rest;
    assert crlf[..|line|] == line && crlf[|line| + 2..] == rest;
  }

  /** The last line of an input that does not end in a newline is all of it. */
  lemma SplitLastLine(line: seq<Byte>)
    requires line != [] && Newline !in line
    ensures SplitLine(line) == (line, [])
  {
    assert LineLength(line) == |line|;
  }

  /** A line as it is written out: no newline inside it and no carriage return at its end. */
  predicate PlainLine(line: seq<Byte>)
  {
    Newline !in line && (line == [] || line[|line| - 1] != CarriageReturn)
  }

  /** A written line whose bytes decode is read back as its text, with the input after it left unread. */
  lemma NextLineOfLine(line: seq<Byte>, rest: seq<Byte>, utf8: seq<Byte> -> Option<string>)
    requires PlainLine(line) && utf8(line).Some?
    ensures NextLine(line + [Newline] + rest, utf8) == Success((utf8(line).value, rest))
    ensures Remaining(line + [Newline] + rest) == rest
  {
    SplitLineOfLine(line, rest);
  }

  /** Three written lines and what follows them, grouped from the front. */
  lemma ThreeLines(a: seq<Byte>, b: seq<Byte>, c: seq<Byte>, rest: seq<Byte>)
    ensures a + [Newline] + b + [Newline] + c + [Newline] + rest == a + [Newline] + (b + [Newline] + (c + [Newline] + rest))
  {
  }

  /**
   * The line reader: the bytes not read yet, and the text decoding it applies
   * to each line. Every read takes one line off the front.
   */
  class LineMachine {
    var unread: seq<Byte>
    const utf8: seq<Byte> -> Option<string>

    constructor (data: seq<Byte>, utf8: seq<Byte> -> Option<string>)
      ensures unread == data && this.utf8 == utf8
    {
      unread := data;
      this.utf8 := utf8;
    }

    /** The next line as text: UnexpectedEof when no bytes remain, Io when the line is not text. */
    method ReadLine() returns (r: Result<string>)
      modifies this
      ensures unread == Remaining(old(unread))
      ensures NextLine(old(unread), utf8).Success? ==> r == Success(NextLine(old(unread), utf8).value.0)
      ensures NextLine(old(unread), utf8).Failure? ==> r == Failure(NextLine(old(unread), utf8).error)
    {
      if unread == [] {
        return Failure(Error.UnexpectedEof);
      }
      var i := 0;
      while i < |unread| && unread[i] != Newline
        invariant 0 <= i <= |unread|
        invariant forall k | 0 <= k < i :: unread[k] != Newline
      {
        i := i + 1;
      }
      assert i == LineLength(unread);
      var bytes;
      if i == |unread| {
        bytes := unread;
        unread := [];
      } else {
        bytes := if i > 0 && unread[i - 1] == CarriageReturn then unread[..i - 1] else unread[..i];
        unread := unread[i + 1..];
      }
      match utf8(bytes)
      case None => r := Failure(Io);
      case Some(text) => r := Success(text);
    }

    /** The next line, trimmed and read as a `u32`: ParseIntError when it is not one. */
    method ReadU32() returns (r: Result<U32>)
      modifies this
      ensures unread == Remaining(old(unread))
      ensures r == NextU32(old(unread), utf8)
    {
      var line := ReadLine();
      if line.Failure? {
        return Failure(line.error);
      }
      match ParseU32(Trim(line.value))
      case None => r := Failure(ParseIntError);
      case Some(n) => r := Success(n);
    }
  }

  // -------------------------------------------------------------- trimming

  /** Unicode White_Space, the characters `str::trim` removes. */
  predicate IsWhitespace(c: char)
  {
    ('\t' <= c <= '\r') || c == ' ' || c == '\U{0085}' || c == '\U{00A0}' || c == '\U{1680}'
    || ('\U{2000}' <= c <= '\U{200A}') || c == '\U{2028}' || c == '\U{2029}' || c == '\U{202F}'
    || c == '\U{205F}' || c == '\U{3000}'
  }

  /** The text without its leading whitespace. */
  function TrimStart(s: string): (r: string)
    ensures |r| <= |s| && r == s[|s| - |r|..]
    ensures forall k | 0 <= k < |s| - |r| :: IsWhitespace(s[k])
    ensures r == [] || !IsWhitespace(r[0])
  {
    if s != [] && IsWhitespace(s[0]) then TrimStart(s[1..]) else s
  }

  /** The text without its trailing whitespace. */
  function TrimEnd(s: string): (r: string)
    ensures |r| <= |s| && r == s[..|r|]
    ensures forall k | |r| <= k < |s| :: IsWhitespace(s[k])
    ensures r == [] || !IsWhitespace(r[|r| - 1])
  {
    if s != [] && IsWhitespace(s[|s| - 1]) then TrimEnd(s[..|s| - 1]) else s
  }

  /** `str::trim`: the text without leading and trailing whitespace. */
  function Trim(s: string): (r: string)
    ensures |s| - |TrimStart(s)| + |r| <= |s|
  {
    TrimEnd(TrimStart(s))
  }

  /**
   * Trim removes exactly a whitespace prefix and a whitespace suffix: the
   * result is the slice `s[i..i + |r|]`, everything outside it is whitespace,
   * and it neither starts nor ends with whitespace.
   */
  lemma {:induction false} TrimSpec(s: string)
    ensures |s| - |TrimStart(s)| + |Trim(s)| <= |s|
    ensures Trim(s) == s[|s| - |TrimStart(s)|..|s| - |TrimStart(s)| + |Trim(s)|]
    ensures forall k | 0 <= k < |s| - |TrimStart(s)| :: IsWhitespace(s[k])
    ensures forall k | |s| - |TrimStart(s)| + |Trim(s)| <= k < |s| :: IsWhitespace(s[k])
    ensures Trim(s) == [] || (!IsWhitespace(Trim(s)[0]) && !IsWhitespace(Trim(s)[|Trim(s)| - 1]))
  {
    var t := TrimStart(s);
    assert forall k | 0 <= k < |s| - |t| :: IsWhitespace(s[k]);
    var r := TrimEnd(t);
    assert Trim(s) == r;
    TrimSlice(s);
    TrimParts(s, t, r);
  }

  /** The trimmed text is the slice of the input that starts where the leading whitespace ends. */
  lemma TrimSlice(s: string)
    ensures Trim(s) == s[|s| - |TrimStart(s)|..|s| - |TrimStart(s)| + |Trim(s)|]
  {
    var t := TrimStart(s);
    var r := TrimEnd(t);
    assert Trim(s) == r;
    PrefixOfSuffix(s, t, r);
  }

  /** A prefix of a suffix of `s` is a slice of `s`. */
  lemma PrefixOfSuffix<T>(s: seq<T>, t: seq<T>, r: seq<T>)
    requires |t| <= |s| && t == s[|s| - |t|..]
    requires |r| <= |t| && r == t[..|r|]
    ensures r == s[|s| - |t|..|s| - |t| + |r|]
  {
  }

  /**
   * The two trimming passes put together: `t` is `s` without a whitespace
   * prefix and `r` is `t` without a whitespace suffix, neither starting or
   * ending on whitespace.
   */
  lemma TrimParts(s: string, t: string, r: string)
    requires |t| <= |s| && t == s[|s| - |t|..] && (t == [] || !IsWhitespace(t[0]))
    requires |r| <= |t| && r == t[..|r|] && (r == [] || !IsWhitespace(r[|r| - 1]))
    requires forall k | |r| <= k < |t| :: IsWhitespace(t[k])
    ensures |s| - |t| + |r| <= |s|
    ensures r == s[|s| - |t|..|s| - |t| + |r|]
    ensures forall k | |s| - |t| + |r| <= k < |s| :: IsWhitespace(s[k])
    ensures r == [] || (!IsWhitespace(r[0]) && !IsWhitespace(r[|r| - 1]))
  {
    var i := |s| - |t|;
    forall k | i + |r| <= k < |s|
      ensures IsWhitespace(s[k])
    {
      assert |r| <= k - i < |t|;
      assert s[k] == t[k - i];
    }
    if r != [] {
      assert r[0] == t[0];
    }
  }

  // -------------------------------------------------------------- integers

  predicate IsDigit(c: char)
  {
    '0' <= c <= '9'
  }

  predicate AllDigits(s: string)
  {
    forall k | 0 <= k < |s| :: IsDigit(s[k])
  }

  /** The value of a string of decimal digits, most significant first. */
  function DigitsValue(ds: string): nat
    requires AllDigits(ds)
  {
    if ds == [] then 0 else 10 * DigitsValue(ds[..|ds| - 1]) + (ds[|ds| - 1] as int - '0' as int)
  }

  /**
   * `str::parse::<u32>`: an optional `+` and then at least one decimal digit,
   * with a value below 2^32; anything else is an error.
   */
  function ParseU32(s: string): (r: Option<U32>)
  {
    var digits := if |s| > 0 && s[0] == '+' then s[1..] else s;
    if digits == [] || !AllDigits(digits) then None
    else if DigitsValue(digits) < 0x1_0000_0000 then Some(DigitsValue(digits))
    else None
  }

  /** The decimal rendering of a natural number, without leading zeros. */
  function Decimal(n: nat): (r: string)
    ensures r != [] && AllDigits(r)
  {
    if n < 10 then ['0' + n as char] else Decimal(n / 10) + ['0' + (n % 10) as char]
  }

  lemma {:induction false} DecimalValue(n: nat)
    ensures DigitsValue(Decimal(n)) == n
  {
    if n >= 10 {
      DecimalValue(n / 10);
      var d := Decimal(n);
      assert d[..|d| - 1] == Decimal(n / 10);
    }
  }

  /** Every `u32` is read back from its decimal rendering, with or without a `+`, but not with a `-`. */
  lemma ParseU32Decimal(n: U32)
    ensures ParseU32(Decimal(n)) == Some(n)
    ensures ParseU32("+" + Decimal(n)) == Some(n)
    ensures ParseU32("-" + Decimal(n)) == None
  {
    DecimalValue(n);
    assert ("+" + Decimal(n))[1..] == Decimal(n);
    assert !IsDigit(("-" + Decimal(n))[0]);
  }

  /** Digits have no whitespace to trim. */
  lemma TrimDigits(s: string)
    requires AllDigits(s)
    ensures Trim(s) == s
  {
    assert TrimStart(s) == s;
  }

  /** A written line holding the decimal rendering of a `u32` is read as that number. */
  lemma NextU32OfLine(line: seq<Byte>, rest: seq<Byte>, utf8: seq<Byte> -> Option<string>, n: U32)
    requires PlainLine(line) && utf8(line) == Some(Decimal(n))
    ensures NextU32(line + [Newline] + rest, utf8) == Success(n)
  {
    NextLineOfLine(line, rest, utf8);
    TrimDigits(Decimal(n));
    ParseU32Decimal(n);
  }

  /** A number of 2^32 or more is an error, however it is written. */
  lemma ParseU32Overflow(n: nat)
    requires n >= 0x1_0000_0000
    ensures ParseU32(Decimal(n)) == None
  {
    DecimalValue(n);
  }

  // ------------------------------------------------------ bracket groups

  /** Where a capture group stops: a closing bracket, or a line break that `.` cannot cross. */
  predicate StopsGroup(c: char)
  {
    c == ']' || c == '\n'
  }

  predicate NoStops(g: string)
  {
    forall k | 0 <= k < |g| :: !StopsGroup(g[k])
  }

  /** The first index at or after `from` that stops a group, if any. */
  function GroupEnd(line: string, from: nat): (r: Option<nat>)
    requires from <= |line|
    ensures r.Some? ==> from <= r.value < |line| && StopsGroup(line[r.value])
    ensures r.Some? ==> forall k | from <= k < r.value :: !StopsGroup(line[k])
    ensures r.None? ==> forall k | from <= k < |line| :: !StopsGroup(line[k])
    decreases |line| - from
  {
    if from == |line| then None
    else if StopsGroup(line[from]) then Some(from)
    else GroupEnd(line, from + 1)
  }

  /**
   * The captures of `\[(.*?)\]` over a line, left to right: from each `[`
   * the shortest text up to a `]` on the same line; a `[` with no such `]`
   * starts no match, and the search resumes after each match.
   */
  function BracketGroups(line: string): (groups: seq<string>)
    ensures forall i | 0 <= i < |groups| :: NoStops(groups[i])
    decreases |line|
  {
    if line == [] then []
    else if line[0] != '[' then BracketGroups(line[1..])
    else
      match GroupEnd(line, 1)
      case Some(j) =>
        if line[j] == ']' then [line[1..j]] + BracketGroups(line[j + 1..])
        else BracketGroups(line[1..])
      case None => BracketGroups(line[1..])
  }

  /** Groups written out as `[g0][g1]...`, the vertex line of a version 1 file. */
  function Bracketed(groups: seq<string>): string
  {
    if groups == [] then [] else "[" + groups[0] + "]" + Bracketed(groups[1..])
  }

  /** Groups that contain no `]` and no line break are exactly the captures of their bracketed rendering. */
  lemma {:induction false} BracketGroupsOfBracketed(groups: seq<string>)
    requires forall i | 0 <= i < |groups| :: NoStops(groups[i])
    ensures BracketGroups(Bracketed(groups)) == groups
  {
    if groups != [] {
      BracketGroupsOfBracketed(groups[1..]);
      FirstGroup(groups[0], Bracketed(groups[1..]));
      assert [groups[0]] + groups[1..] == groups;
    }
  }

  /** The first capture of `[g]` followed by more text is `g`, and the search resumes after it. */
  lemma FirstGroup(g: string, tail: string)
    requires NoStops(g)
    ensures BracketGroups("[" + g + "]" + tail) == [g] + BracketGroups(tail)
  {
    var line := "[" + g + "]" + tail;
    var j := |g| + 1;
    assert line[0] == '[' && line[j] == ']';
    assert forall k | 1 <= k < j :: line[k] == g[k - 1];
    GroupEndAt(line, 1, j);
    assert line[1..j] == g;
    assert line[j + 1..] == tail;
  }

  /** GroupEnd finds the first stopping index. */
  lemma GroupEndAt(line: string, from: nat, j: nat)
    requires from <= j < |line| && StopsGroup(line[j])
    requires forall k | from <= k < j :: !StopsGroup(line[k])
    ensures GroupEnd(line, from) == Some(j)
  {
  }

  // ------------------------------------------------------------ components

  /** `str::split(",")`: the pieces between commas; no comma gives one piece. */
  function Split(s: string): (pieces: seq<string>)
    ensures |pieces| >= 1
    ensures forall i | 0 <= i < |pieces| :: ',' !in pieces[i]
  {
    if s == [] then [""]
    else if s[0] == ',' then [""] + Split(s[1..])
    else
      var others := Split(s[1..]);
      [[s[0]] + others[0]] + others[1..]
  }

  /** Pieces joined with commas. */
  function Join(pieces: seq<string>): string
    requires |pieces| >= 1
  {
    if |pieces| == 1 then pieces[0] else pieces[0] + "," + Join(pieces[1..])
  }

  /** Splitting loses nothing: joining the pieces gives back the text. */
  lemma {:induction false} JoinSplit(s: string)
    ensures Join(Split(s)) == s
  {
    if s != [] {
      JoinSplit(s[1..]);
      if s[0] != ',' {
        var others := Split(s[1..]);
        if |others| == 1 {
          assert Join(Split(s)) == [s[0]] + others[0];
        } else {
          assert Split(s)[1..] == others[1..];
          assert Join(Split(s)) == [s[0]] + others[0] + "," + Join(others[1..]);
        }
      }
    }
  }

  /** Pieces without commas are split back out of their join. */
  lemma {:induction false} SplitJoin(pieces: seq<string>)
    requires |pieces| >= 1
    requires forall i | 0 <= i < |pieces| :: ',' !in pieces[i]
    ensures Split(Join(pieces)) == pieces
    decreases |pieces|, |pieces[0]|
  {
    var p := pieces[0];
    if p == [] {
      if |pieces| > 1 {
        assert Join(pieces) == [','] + Join(pieces[1..]);
        SplitJoin(pieces[1..]);
        assert [""] + pieces[1..] == pieces;
      }
    } else {
      var shorter := [p[1..]] + pieces[1..];
      assert ',' !in p[1..];
      SplitJoin(shorter);
      assert Join(pieces) == [p[0]] + Join(shorter) by {
        if |pieces| > 1 {
          assert shorter[1..] == pieces[1..];
        }
      }
      assert Join(pieces)[1..] == Join(shorter);
      assert [p[0]] + p[1..] == p;
      assert [[p[0]] + shorter[0]] + shorter[1..] == pieces;
    }
  }

  // -------------------------------------------------------------- vertices

  /** A text vertex: three floats each of position, normal and texture coordinates. */
  datatype Vertex1 = Vertex1(pos: F32x3, norm: F32x3, tex: F32x3)

  /** Which group of a vertex is being read; each has its own dimension error. */
  datatype Component = Position | Normal | TextureCoords

  function DimensionError(c: Component, len: nat): Error
  {
    match c
    case Position => PositionDimensionNot3(len)
    case Normal => NormalDimensionNot3(len)
    case TextureCoords => TextureCoordsDimensionNot3(len)
  }

  /** Every piece parsed as a float; the first piece that is not one fails the whole list. */
  function ParseAll(pieces: seq<string>, parse: string -> Option<F32>): (r: Result<seq<F32>>)
    ensures r.Success? <==> forall i | 0 <= i < |pieces| :: parse(pieces[i]).Some?
    ensures r.Success? ==> |r.value| == |pieces|
    ensures r.Success? ==> forall i | 0 <= i < |pieces| :: r.value[i] == parse(pieces[i]).value
    ensures r.Failure? ==> r.error == ParseFloatError
  {
    if pieces == [] then Success([])
    else
      match parse(pieces[0])
      case None => Failure(ParseFloatError)
      case Some(x) =>
        var others :- ParseAll(pieces[1..], parse);
        Success([x] + others)
  }

  /**
   * One group as three floats: the comma-separated pieces are parsed first,
   * and only then is their number checked, so a bad piece wins over a bad count.
   */
  function ParseTriple(group: string, parse: string -> Option<F32>, c: Component): (r: Result<F32x3>)
    ensures r.Success? <==> ParseAll(Split(group), parse).Success? && |Split(group)| == 3
    ensures r.Success? ==> r.value == ParseAll(Split(group), parse).value
    ensures ParseAll(Split(group), parse).Success? && |Split(group)| != 3 ==>
      r == Failure(DimensionError(c, |Split(group)|))
  {
    var xs :- ParseAll(Split(group), parse);
    if |xs| == 3 then Success(xs) else Failure(DimensionError(c, |xs|))
  }

  /** A vertex from its position, normal and texture groups, checked in that order. */
  function ParseVertex(groups: seq<string>, parse: string -> Option<F32>): Result<Vertex1>
    requires |groups| == 3
  {
    var pos :- ParseTriple(groups[0], parse, Position);
    var norm :- ParseTriple(groups[1], parse, Normal);
    var tex :- ParseTriple(groups[2], parse, TextureCoords);
    Success(Vertex1(pos, norm, tex))
  }

  /**
   * The vertices of a version 1 file, taking groups three at a time: no group
   * left ends the list, one or two left over is VertexTripletCount, and the
   * first vertex that fails fails the whole list.
   */
  function ParseVertices(groups: seq<string>, parse: string -> Option<F32>): (r: Result<seq<Vertex1>>)
    ensures r.Failure? ==> !r.error.UnknownVersion?
    ensures r.Success? ==> |groups| == 3 * |r.value|
    ensures r.Success? ==> forall i | 0 <= i < |r.value| ::
      ParseVertex(groups[3 * i..3 * i + 3], parse) == Success(r.value[i])
    decreases |groups|
  {
    if groups == [] then Success([])
    else if |groups| < 3 then Failure(VertexTripletCount)
    else
      var v :- ParseVertex(groups[..3], parse);
      var others :- ParseVertices(groups[3..], parse);
      TriplesOfSuffix(groups);
      Success([v] + others)
  }

  /** Triple `i` of `groups` is triple `i - 1` of what follows the first triple. */
  lemma TriplesOfSuffix(groups: seq<string>)
    requires |groups| >= 3
    ensures forall i | 1 <= i && 3 * i + 3 <= |groups| :: groups[3 * i..3 * i + 3] == groups[3..][3 * (i - 1)..3 * (i - 1) + 3]
  {
    forall i | 1 <= i && 3 * i + 3 <= |groups|
      ensures groups[3 * i..3 * i + 3] == groups[3..][3 * (i - 1)..3 * (i - 1) + 3]
    {
      SliceOfSuffix(groups, 3, 3 * (i - 1), 3 * (i - 1) + 3);
    }
  }

  /** Every complete triple of `groups` parses as a vertex. */
  predicate TriplesParse(groups: seq<string>, parse: string -> Option<F32>)
  {
    forall i | 0 <= i < |groups| && 3 * i + 3 <= |groups| :: ParseVertex(groups[3 * i..3 * i + 3], parse).Success?
  }

  /** When every complete triple parses and no group is left over, the list succeeds. */
  lemma {:induction false} ParseVerticesComplete(groups: seq<string>, parse: string -> Option<F32>)
    requires TriplesParse(groups, parse) && |groups| % 3 == 0
    ensures ParseVertices(groups, parse).Success?
    decreases |groups|
  {
    if groups != [] {
      TriplesParseRest(groups, parse);
      ParseVerticesComplete(groups[3..], parse);
    }
  }

  /** When every complete triple parses but one or two groups are left over, the list fails with VertexTripletCount. */
  lemma {:induction false} ParseVerticesLeftover(groups: seq<string>, parse: string -> Option<F32>)
    requires TriplesParse(groups, parse) && |groups| % 3 != 0
    ensures ParseVertices(groups, parse) == Failure(VertexTripletCount)
    decreases |groups|
  {
    if |groups| >= 3 {
      TriplesParseRest(groups, parse);
      ParseVerticesLeftover(groups[3..], parse);
    }
  }

  /** The first triple of groups that all parse parses, and so do the triples after it. */
  lemma TriplesParseRest(groups: seq<string>, parse: string -> Option<F32>)
    requires |groups| >= 3 && TriplesParse(groups, parse)
    ensures ParseVertex(groups[..3], parse).Success?
    ensures TriplesParse(groups[3..], parse)
  {
    assert groups[3 * 0..3 * 0 + 3] == groups[..3];
    var rest := groups[3..];
    forall i | 0 <= i < |rest| && 3 * i + 3 <= |rest|
      ensures ParseVertex(rest[3 * i..3 * i + 3], parse).Success?
    {
      var j := i + 1;
      SliceOfSuffix(groups, 3, 3 * i, 3 * i + 3);
      assert 3 + 3 * i == 3 * j && 3 + (3 * i + 3) == 3 * j + 3;
      assert 0 <= j < |groups| && 3 * j + 3 <= |groups|;
    }
  }

  /** A slice of a suffix of `s` is a slice of `s`. */
  lemma SliceOfSuffix<T>(s: seq<T>, d: nat, a: nat, b: nat)
    requires d <= |s| && a <= b <= |s| - d
    ensures s[d..][a..b] == s[d + a..d + b]
  {
  }

  // ---------------------------------------------------------------- fix-ups

  /** One vertex after `fix1`: the second texture coordinate becomes `1 - v`. */
  function FlipV(v: Vertex1, oneMinus: F32 -> F32): Vertex1
  {
    v.(tex := v.tex[1 := oneMinus(v.tex[1])])
  }

  function FlippedV(vs: seq<Vertex1>, oneMinus: F32 -> F32): (r: seq<Vertex1>)
    ensures |r| == |vs|
  {
    seq(|vs|, i requires 0 <= i < |vs| => FlipV(vs[i], oneMinus))
  }

  /** One vertex after `fix_100`: each position component is halved. */
  function HalvePosition(v: Vertex1, half: F32 -> F32): Vertex1
  {
    v.(pos := [half(v.pos[0]), half(v.pos[1]), half(v.pos[2])])
  }

  function HalvedPositions(vs: seq<Vertex1>, half: F32 -> F32): (r: seq<Vertex1>)
    ensures |r| == |vs|
  {
    seq(|vs|, i requires 0 <= i < |vs| => HalvePosition(vs[i], half))
  }

  /** `fix1` in place over a vertex buffer. */
  method FlipTextureV(vertices: array<Vertex1>, oneMinus: F32 -> F32)
    modifies vertices
    ensures vertices[..] == FlippedV(old(vertices[..]), oneMinus)
  {
    for i := 0 to vertices.Length
      invariant forall k | 0 <= k < i :: vertices[k] == FlipV(old(vertices[k]), oneMinus)
      invariant forall k | i <= k < vertices.Length :: vertices[k] == old(vertices[k])
    {
      var tex := vertices[i].tex;
      vertices[i] := vertices[i].(tex := tex[1 := oneMinus(tex[1])]);
    }
  }

  /** `fix_100` in place over a vertex buffer, one position component at a time. */
  method HalvePositions(vertices: array<Vertex1>, half: F32 -> F32)
    modifies vertices
    ensures vertices[..] == HalvedPositions(old(vertices[..]), half)
  {
    for i := 0 to vertices.Length
      invariant forall k | 0 <= k < i :: vertices[k] == HalvePosition(old(vertices[k]), half)
      invariant forall k | i <= k < vertices.Length :: vertices[k] == old(vertices[k])
    {
      var pos: F32x3 := vertices[i].pos;
      for j := 0 to 3
        invariant forall k | 0 <= k < j :: pos[k] == half(old(vertices[i]).pos[k])
        invariant forall k | j <= k < 3 :: pos[k] == old(vertices[i]).pos[k]
      {
        pos := pos[j := half(pos[j])];
      }
      vertices[i] := vertices[i].(pos := pos);
    }
  }

  /**
   * The vertex list of a text mesh copied into a buffer, fixed there in place
   * (`fix1`, then `fix_100` when `halve` is set) and read back out.
   */
  method FixVertexBuffer(vs: seq<Vertex1>, ops: TextOps, halve: bool) returns (fixed: seq<Vertex1>)
    ensures fixed == if halve then HalvedPositions(FlippedV(vs, ops.oneMinus), ops.half) else FlippedV(vs, ops.oneMinus)
  {
    var buffer := new Vertex1[|vs|](i requires 0 <= i < |vs| => vs[i]);
    assert buffer[..] == vs;
    FlipTextureV(buffer, ops.oneMinus);
    if halve {
      HalvePositions(buffer, ops.half);
    }
    fixed := buffer[..];
  }

  /**
   * What the text fix-ups promise: `fix1` changes only the second texture
   * coordinate and `fix_100` only the position, the vertex count is kept, and
   * the two passes commute (they touch different fields).
   */
  lemma FixUpsSpec(vs: seq<Vertex1>, half: F32 -> F32, oneMinus: F32 -> F32)
    ensures forall i | 0 <= i < |vs| ::
      var f := FlippedV(vs, oneMinus)[i];
      f.pos == vs[i].pos && f.norm == vs[i].norm && f.tex[0] == vs[i].tex[0] && f.tex[2] == vs[i].tex[2]
      && f.tex[1] == oneMinus(vs[i].tex[1])
    ensures forall i | 0 <= i < |vs| ::
      var h := HalvedPositions(vs, half)[i];
      h.norm == vs[i].norm && h.tex == vs[i].tex && forall k | 0 <= k < 3 :: h.pos[k] == half(vs[i].pos[k])
    ensures HalvedPositions(FlippedV(vs, oneMinus), half) == FlippedV(HalvedPositions(vs, half), oneMinus)
  {
  }
}

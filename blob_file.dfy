/**
 * `BlobOutFile` / `BlobInFile`: a simple binary file of user-structured
 * data.  The file starts with a header (endianness marker, four-byte magic,
 * version); after it come raw fixed-size values, length-prefixed vectors and
 * strings, and bools as one byte.  The model works on the bytes handed to
 * (and taken from) the compressing stream buffer underneath.
 */
module BlobFile {
  import opened Bytes
  import opened Wrappers

  /** `endianTest`, written as a `uint16_t`. */
  const EndianTest: nat := 0xFFAA

  /** `runtime_error` from the writer, `BlobFileException` from the reader. */
  datatype Error = RuntimeError(message: string) | BlobFileException(message: string)

  /** The header: marker, magic, version. */
  function Header(magic: seq<Byte>, version: nat): (h: seq<Byte>)
    requires |magic| == 4
    ensures |h| == 10
  {
    U16(EndianTest) + magic + U32(version)
  }

  /** `Write(bool)`: one byte, 1 or 0. */
  function EncodeBool(b: bool): seq<Byte> {
    [if b then 1 else 0]
  }

  function Flatten(elems: seq<seq<Byte>>): (bs: seq<Byte>)
    decreases |elems|
  {
    if elems == [] then [] else elems[0] + Flatten(elems[1..])
  }

  /** Every element occupies `width` bytes, as every `T` occupies `sizeof(T)`. */
  predicate AllWidth(elems: seq<seq<Byte>>, width: nat) {
    forall i :: 0 <= i < |elems| ==> |elems[i]| == width
  }

  /** `Write(vector)`: the element count as a `uint64_t`, then the elements' bytes. */
  function EncodeVector(elems: seq<seq<Byte>>): seq<Byte> {
    U64(|elems|) + Flatten(elems)
  }

  /** `Write(string)`: the length as a `uint64_t`, then the characters. */
  function EncodeString(s: seq<Byte>): seq<Byte> {
    U64(|s|) + s
  }

  /** The bytes after an encoded value: the value, or the error, and the bytes still unread. */
  datatype Decoded<T> = Decoded(value: Result<T, Error>, rest: seq<Byte>)

  /** `ThrowEOF`. */
  const Insufficient: Error := BlobFileException("Insufficient data in blob file")

  /** `sgetn` of `n` bytes: a short read consumes what there was and throws. */
  function Take(input: seq<Byte>, n: nat): (r: Decoded<seq<Byte>>)
    ensures r.value.Ok? <==> n <= |input|
    ensures r.value.Ok? ==> r.value.value == input[..n] && r.rest == input[n..]
    ensures r.value.Err? ==> r.value.error == Insufficient && r.rest == []
  {
    if n <= |input| then Decoded(Ok(input[..n]), input[n..]) else Decoded(Err(Insufficient), [])
  }

  /** `Read<T>` for an unsigned integer of `w` bytes. */
  function ReadUnsigned(input: seq<Byte>, w: nat): (r: Decoded<nat>)
    ensures r.value.Ok? <==> w <= |input|
    ensures r.value.Ok? ==> r.value.value < Pow256(w) && r.rest == input[w..]
  {
    var t := Take(input, w);
    if t.value.Err? then Decoded(Err(t.value.error), t.rest) else Decoded(Ok(FromLE(t.value.value)), t.rest)
  }

  /** `ReadBool`: true exactly when the byte is 1. */
  function ReadBool(input: seq<Byte>): (r: Decoded<bool>)
    ensures r.value.Ok? <==> |input| >= 1
    ensures r.value.Ok? ==> (r.value.value <==> input[0] == 1) && r.rest == input[1..]
  {
    var t := Take(input, 1);
    if t.value.Err? then Decoded(Err(t.value.error), t.rest) else Decoded(Ok(t.value.value[0] == 1), t.rest)
  }

  /** `count` elements of `width` bytes each, cut from `bs`. */
  function Split(bs: seq<Byte>, width: nat, count: nat): (elems: seq<seq<Byte>>)
    requires |bs| == width * count
    ensures |elems| == count && AllWidth(elems, width)
    decreases count
  {
    if count == 0 then [] else [bs[..width]] + Split(bs[width..], width, count - 1)
  }

  /** `ReadVector<T>`: a `uint64_t` count, then that many `width`-byte elements, throwing on a short read. */
  function ReadVector(input: seq<Byte>, width: nat): (r: Decoded<seq<seq<Byte>>>)
    ensures r.value.Ok? ==> AllWidth(r.value.value, width)
  {
    var n := ReadUnsigned(input, 8);
    if n.value.Err? then Decoded(Err(n.value.error), n.rest)
    else
      var t := Take(n.rest, n.value.value * width);
      if t.value.Err? then Decoded(Err(t.value.error), t.rest)
      else Decoded(Ok(Split(t.value.value, width, n.value.value)), t.rest)
  }

  /** `ReadString`: `ReadVector<char>`, as a string. */
  function ReadString(input: seq<Byte>): (r: Decoded<seq<Byte>>)
    ensures r.value.Ok? ==> var n := |r.value.value|;
      8 + n <= |input| && r.value.value == input[8..8 + n] && r.rest == input[8 + n..]
  {
    var v := ReadVector(input, 1);
    if v.value.Err? then Decoded(Err(v.value.error), v.rest)
    else
      var n := ReadUnsigned(input, 8).value.value;
      assert input[8..][..n * 1] == input[8..8 + n];
      FlattenSingles(input[8..8 + n]);
      Decoded(Ok(Flatten(v.value.value)), v.rest)
  }

  /**
   * The reader's header check: a short read throws; otherwise the marker,
   * the magic and the version are compared in that order and the first
   * mismatch throws.
   */
  function CheckHeader(input: seq<Byte>, path: string, magic: seq<Byte>, version: nat): (r: Decoded<()>)
    requires |magic| == 4
    ensures r.value.Ok? <==> |input| >= 10 && input[..10] == Header(magic, version) && version < 0x1_0000_0000
    ensures r.value.Ok? ==> r.rest == input[10..]
    ensures |input| >= 2 && FromLE(input[..2]) != EndianTest ==>
      r.value == Err(BlobFileException("Incorrect endianness in file '" + path + "'"))
  {
    HeaderBytes(input, magic, version);
    if |input| < 2 then Decoded(Err(Insufficient), [])
    else if FromLE(input[..2]) != EndianTest then
      Decoded(Err(BlobFileException("Incorrect endianness in file '" + path + "'")), input[2..])
    else if |input| < 6 then Decoded(Err(Insufficient), [])
    else if input[2..6] != magic then Decoded(Err(BlobFileException("Incorrect type of file '" + path + "'")), input[6..])
    else if |input| < 10 then Decoded(Err(Insufficient), [])
    else if FromLE(input[6..10]) != version then
      Decoded(Err(BlobFileException("Incorrect version of file '" + path + "'")), input[10..])
    else Decoded(Ok(()), input[10..])
  }

  /** Ten bytes are the header exactly when they decode to its marker, magic and version. */
  lemma HeaderBytes(input: seq<Byte>, magic: seq<Byte>, version: nat)
    requires |magic| == 4
    ensures |input| >= 10 ==>
      (input[..10] == Header(magic, version) && version < 0x1_0000_0000 <==>
       FromLE(input[..2]) == EndianTest && input[2..6] == magic && FromLE(input[6..10]) == version)
  {
    if |input| >= 10 {
      var h := input[..10];
      assert h == input[..2] + input[2..6] + input[6..10];
      SplitEq3(input[..2], input[2..6], input[6..10], U16(EndianTest), magic, U32(version));
      DecodesTo(input[..2], EndianTest);
      DecodesTo(input[6..10], version);
      Pow256Widths();
    }
  }

  /** Two concatenations of three parts of matching lengths are equal exactly when their parts are. */
  lemma SplitEq3(a: seq<Byte>, b: seq<Byte>, c: seq<Byte>, x: seq<Byte>, y: seq<Byte>, z: seq<Byte>)
    requires |a| == |x| && |b| == |y| && |c| == |z|
    ensures a + b + c == x + y + z <==> a == x && b == y && c == z
  {
    if a + b + c == x + y + z {
      assert a == (a + b + c)[..|a|] && x == (x + y + z)[..|a|];
      assert b == (a + b + c)[|a|..|a| + |b|] && y == (x + y + z)[|a|..|a| + |b|];
      assert c == (a + b + c)[|a| + |b|..] && z == (x + y + z)[|a| + |b|..];
    }
  }

  // ---------------------------------------------------------------------
  // Round trips: what the writer emits, the reader reads back.
  // ---------------------------------------------------------------------

  lemma ReadBoolRoundTrip(b: bool, rest: seq<Byte>)
    ensures ReadBool(EncodeBool(b) + rest) == Decoded(Ok(b), rest)
  {
    assert (EncodeBool(b) + rest)[1..] == rest;
  }

  lemma ReadUnsignedRoundTrip(n: nat, w: nat, rest: seq<Byte>)
    requires n < Pow256(w)
    ensures ReadUnsigned(LE(n, w) + rest, w) == Decoded(Ok(n), rest)
  {
    FromLEOfLE(n, w);
    assert (LE(n, w) + rest)[..w] == LE(n, w);
    assert (LE(n, w) + rest)[w..] == rest;
  }

  lemma {:induction false} FlattenLength(elems: seq<seq<Byte>>, width: nat)
    requires AllWidth(elems, width)
    ensures |Flatten(elems)| == width * |elems|
    decreases |elems|
  {
    if elems != [] {
      FlattenLength(elems[1..], width);
    }
  }

  lemma {:induction false} SplitFlatten(elems: seq<seq<Byte>>, width: nat)
    requires AllWidth(elems, width)
    ensures |Flatten(elems)| == width * |elems| && Split(Flatten(elems), width, |elems|) == elems
    decreases |elems|
  {
    FlattenLength(elems, width);
    if elems != [] {
      FlattenLength(elems[1..], width);
      SplitFlatten(elems[1..], width);
      assert Flatten(elems)[..width] == elems[0];
      assert Flatten(elems)[width..] == Flatten(elems[1..]);
      assert [elems[0]] + elems[1..] == elems;
    }
  }

  /** `ReadVector` after `Write(vector)` gives the vector back. */
  lemma ReadVectorRoundTrip(elems: seq<seq<Byte>>, width: nat, rest: seq<Byte>)
    requires AllWidth(elems, width) && |elems| < 0x1_0000_0000_0000_0000
    ensures ReadVector(EncodeVector(elems) + rest, width) == Decoded(Ok(elems), rest)
  {
    Pow256Widths();
    FlattenLength(elems, width);
    var flat := Flatten(elems);
    AppendAssoc(U64(|elems|), flat, rest);
    ReadUnsignedRoundTrip(|elems|, 8, flat + rest);
    assert |elems| * width == |flat|;
    assert (flat + rest)[..|flat|] == flat && (flat + rest)[|flat|..] == rest;
    SplitFlatten(elems, width);
  }

  lemma {:induction false} FlattenSingles(s: seq<Byte>)
    ensures Flatten(Split(s, 1, |s|)) == s
    decreases |s|
  {
    if s != [] {
      FlattenSingles(s[1..]);
      assert [s[..1]] + Split(s[1..], 1, |s| - 1) == Split(s, 1, |s|);
      assert Split(s, 1, |s|)[1..] == Split(s[1..], 1, |s| - 1);
    }
  }

  /** `ReadString` after `Write(string)` gives the string back. */
  lemma ReadStringRoundTrip(s: seq<Byte>, rest: seq<Byte>)
    requires |s| < 0x1_0000_0000_0000_0000
    ensures ReadString(EncodeString(s) + rest) == Decoded(Ok(s), rest)
  {
    Pow256Widths();
    var input := EncodeString(s) + rest;
    assert input == U64(|s|) + (s + rest);
    ReadUnsignedRoundTrip(|s|, 8, s + rest);
    assert (s + rest)[..|s|] == s && (s + rest)[|s|..] == rest;
    FlattenSingles(s);
  }

  /** Any byte but 1 reads back as false, so only 0 and 1 round-trip. */
  lemma ReadBoolOfOtherByte(b: Byte, rest: seq<Byte>)
    requires b != 1
    ensures ReadBool([b] + rest).value == Ok(false)
  {
  }

  class BlobOutFile {
    /** The bytes written so far. */
    var out: seq<Byte>

    /** The writer's constructor after the file isOpen: the header is written. */
    constructor (magic: seq<Byte>, version: nat)
      requires |magic| == 4
      ensures out == Header(magic, version)
    {
      out := U16(EndianTest) + magic + U32(version);
    }

    /** `Write<T>`: the value's `sizeof(T)` bytes. */
    method WriteRaw(bytes: seq<Byte>)
      modifies this
      ensures out == old(out) + bytes
    {
      out := out + bytes;
    }

    /** `Write(bool)`. */
    method WriteBool(b: bool)
      modifies this
      ensures out == old(out) + EncodeBool(b)
    {
      WriteRaw([if b then 1 else 0]);
    }

    /** `Write(vector)` and `Write(range)`: the count, then the elements. */
    method WriteVector(elems: seq<seq<Byte>>)
      modifies this
      ensures out == old(out) + EncodeVector(elems)
    {
      WriteRaw(U64(|elems|));
      WriteRaw(Flatten(elems));
    }

    /** `Write(string)`: the length, then the characters. */
    method WriteString(s: seq<Byte>)
      modifies this
      ensures out == old(out) + EncodeString(s)
    {
      WriteRaw(U64(|s|));
      WriteRaw(s);
    }
  }

  /** The writer's constructor: a file that does not open throws `runtime_error`. */
  method OpenOut(path: string, isOpen: bool, magic: seq<Byte>, version: nat) returns (r: Result<BlobOutFile, Error>)
    requires |magic| == 4
    ensures !isOpen <==> r.Err?
    ensures r.Err? ==> r.error == RuntimeError("Could not open file '" + path + "'")
    ensures r.Ok? ==> fresh(r.value) && r.value.out == Header(magic, version)
  {
    if !isOpen {
      return Err(RuntimeError("Could not open file '" + path + "'"));
    }
    var f := new BlobOutFile(magic, version);
    r := Ok(f);
  }

  class BlobInFile {
    /** The bytes not read yet. */
    var input: seq<Byte>

    constructor (rest: seq<Byte>)
      ensures input == rest
    {
      input := rest;
    }

    /** `Read<T>`: `sizeof(T)` bytes, throwing on a short read. */
    method ReadRaw(n: nat) returns (r: Result<seq<Byte>, Error>)
      modifies this
      ensures var t := Take(old(input), n); r == t.value && input == t.rest
    {
      var t := Take(input, n);
      r, input := t.value, t.rest;
    }

    /** `Read<size_t, BlobSizeType>`: a `uint64_t`, cast to `size_t` (the same width). */
    method ReadSize() returns (r: Result<nat, Error>)
      modifies this
      ensures var d := ReadUnsigned(old(input), 8); r == d.value && input == d.rest
    {
      var d := ReadUnsigned(input, 8);
      r, input := d.value, d.rest;
    }

    /** `ReadBool`. */
    method ReadBoolean() returns (r: Result<bool, Error>)
      modifies this
      ensures var d := ReadBool(old(input)); r == d.value && input == d.rest
    {
      var d := ReadBool(input);
      r, input := d.value, d.rest;
    }

    /** `ReadVector<T>` for elements of `width` bytes. */
    method ReadElements(width: nat) returns (r: Result<seq<seq<Byte>>, Error>)
      modifies this
      ensures var d := ReadVector(old(input), width); r == d.value && input == d.rest
    {
      var d := ReadVector(input, width);
      r, input := d.value, d.rest;
    }

    /** `ReadString`. */
    method ReadText() returns (r: Result<seq<Byte>, Error>)
      modifies this
      ensures var d := ReadString(old(input)); r == d.value && input == d.rest
    {
      var d := ReadString(input);
      r, input := d.value, d.rest;
    }
  }

  /**
   * The reader's constructor: a file that does not open throws, and so does
   * a header that is short or does not match; otherwise reading starts after
   * the header.
   */
  method OpenIn(path: string, isOpen: bool, contents: seq<Byte>, magic: seq<Byte>, version: nat)
    returns (r: Result<BlobInFile, Error>)
    requires |magic| == 4
    ensures !isOpen ==> r == Err(BlobFileException("Could not open file '" + path + "'"))
    ensures isOpen ==> (r.Ok? <==> CheckHeader(contents, path, magic, version).value.Ok?)
    ensures isOpen && r.Err? ==> r.error == CheckHeader(contents, path, magic, version).value.error
    ensures r.Ok? ==> fresh(r.value) && r.value.input == contents[10..]
  {
    if !isOpen {
      return Err(BlobFileException("Could not open file '" + path + "'"));
    }
    var h := CheckHeader(contents, path, magic, version);
    if h.value.Err? {
      return Err(h.value.error);
    }
    var f := new BlobInFile(h.rest);
    r := Ok(f);
  }

  /** A file the writer starts is accepted by the reader with the same magic and version. */
  lemma HeaderRoundTrip(path: string, magic: seq<Byte>, version: nat, rest: seq<Byte>)
    requires |magic| == 4 && version < 0x1_0000_0000
    ensures CheckHeader(Header(magic, version) + rest, path, magic, version) == Decoded(Ok(()), rest)
  {
    assert (Header(magic, version) + rest)[..10] == Header(magic, version);
    assert (Header(magic, version) + rest)[10..] == rest;
  }
}

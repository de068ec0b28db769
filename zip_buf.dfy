/**
 * `zip_buf`: a string buffer that frames what is written to it into
 * compressed blocks on an underlying stream, and reads such blocks back.
 * A block is its uncompressed size (u16), its compressed size (u16), then
 * the compressed bytes, or the raw bytes when the compressed size is 0.
 *
 * LZF is a pair of function parameters: `compress` gives the compressed
 * bytes of a block, or nothing when they would not fit in a block (as
 * `lzf_compress` returns 0), and `decompress` gives the bytes a compressed
 * payload stands for.  The underlying stream is the bytes written to it, how
 * many more it accepts, and the bytes left to read from it.
 */
module ZipBuf {
  import opened Bytes
  import opened Wrappers

  /** `BLOCK_SIZE`. */
  const BlockSize: nat := 1024
  /** `traits_type::eof()`. */
  const Eof: int := -1

  /** `lzf_compress` writes at most `BLOCK_SIZE` bytes. */
  ghost predicate Fits(compress: seq<Byte> -> seq<Byte>) {
    forall d :: |compress(d)| <= BlockSize
  }

  /** Decompression undoes compression on every block. */
  ghost predicate Inverts(compress: seq<Byte> -> seq<Byte>, decompress: seq<Byte> -> seq<Byte>) {
    forall d :: |d| <= BlockSize && compress(d) != [] ==> decompress(compress(d)) == d
  }

  /** The bytes `write_some` puts on the stream for the block `d`. */
  function Frame(d: seq<Byte>, compress: seq<Byte> -> seq<Byte>): (f: seq<Byte>)
    ensures |f| >= 4
  {
    var c := compress(d);
    U16(|d|) + U16(|c|) + (if c == [] then d else c)
  }

  /** The leading block of a put buffer: all of it, up to `BLOCK_SIZE` bytes. */
  function BlockLen(n: nat): (k: nat)
    ensures k <= n && k <= BlockSize && (n > 0 ==> k > 0)
  {
    if n < BlockSize then n else BlockSize
  }

  /** What `sync` writes for a whole put buffer: one block after another. */
  function Frames(put: seq<Byte>, compress: seq<Byte> -> seq<Byte>): seq<Byte>
    decreases |put|
  {
    if put == [] then []
    else
      var k := BlockLen(|put|);
      Frame(put[..k], compress) + Frames(put[k..], compress)
  }

  /** A non-empty buffer is framed as its leading block followed by the rest. */
  lemma FramesUnfold(put: seq<Byte>, compress: seq<Byte> -> seq<Byte>)
    requires put != []
    ensures var k := BlockLen(|put|);
      Frames(put, compress) == Frame(put[..k], compress) + Frames(put[k..], compress)
      && |Frames(put, compress)| >= |Frame(put[..k], compress)|
  {
  }

  /** What the stream holds after the three writes of a frame, by how many bytes it accepts. */
  lemma PartialFrame(sink: seq<Byte>, h1: seq<Byte>, h2: seq<Byte>, p: seq<Byte>, room: nat)
    ensures room < |h1| ==> sink + h1[..room] == sink + (h1 + h2 + p)[..room]
    ensures |h1| <= room < |h1| + |h2| ==> sink + h1 + h2[..room - |h1|] == sink + (h1 + h2 + p)[..room]
    ensures |h1| + |h2| <= room ==>
      sink + h1 + h2 + p[..Min(|p|, room - |h1| - |h2|)] == sink + (h1 + h2 + p)[..Min(|h1 + h2 + p|, room)]
  {
    if room < |h1| {
      assert (h1 + h2 + p)[..room] == h1[..room];
    } else if room < |h1| + |h2| {
      assert (h1 + h2 + p)[..room] == h1 + h2[..room - |h1|];
    } else {
      assert (h1 + h2 + p)[..Min(|h1 + h2 + p|, room)] == h1 + h2 + p[..Min(|p|, room - |h1| - |h2|)];
    }
  }

  function Min(a: nat, b: nat): nat { if a <= b then a else b }

  /** What one `underflow` makes of the stream: the block it reads (none at eof) and the bytes left. */
  datatype Read = Read(block: Option<seq<Byte>>, rest: seq<Byte>)

  /**
   * `underflow`'s reading, as written: a short header or an oversized size is
   * eof; the payload is read with `sgetn` without checking its length, so a
   * short payload leaves the rest of the stack buffer (`buf`, `comp`) as it was.
   */
  function Deframe(source: seq<Byte>, decompress: seq<Byte> -> seq<Byte>, buf: seq<Byte>, comp: seq<Byte>): (r: Read)
    requires |buf| == BlockSize && |comp| == BlockSize
    ensures |r.rest| <= |source|
    ensures r.block.Some? ==> |r.block.value| <= BlockSize && |r.rest| <= |source| - 4
  {
    if |source| < 4 then Read(None, [])
    else
      var uncomp, size := FromLE(source[..2]), FromLE(source[2..4]);
      var body := source[4..];
      if size > BlockSize || uncomp > BlockSize then Read(None, body)
      else if size == 0 then
        var got := body[..if |body| < uncomp then |body| else uncomp];
        Read(Some(got + buf[|got|..uncomp]), body[|got|..])
      else
        var got := body[..if |body| < size then |body| else size];
        var d := decompress(got + comp[|got|..size]);
        if |d| != uncomp then Read(None, body[|got|..]) else Read(Some(d), body[|got|..])
  }

  /** `underflow` reading with the payload length checked: a short payload is eof too. */
  function DeframeChecked(source: seq<Byte>, decompress: seq<Byte> -> seq<Byte>): (r: Read)
    ensures |r.rest| <= |source|
    ensures r.block.Some? ==> |r.block.value| <= BlockSize && |r.rest| <= |source| - 4
  {
    if |source| < 4 then Read(None, [])
    else
      var uncomp, size := FromLE(source[..2]), FromLE(source[2..4]);
      var body := source[4..];
      if size > BlockSize || uncomp > BlockSize then Read(None, body)
      else if size == 0 then
        if |body| < uncomp then Read(None, []) else Read(Some(body[..uncomp]), body[uncomp..])
      else if |body| < size then Read(None, [])
      else
        var d := decompress(body[..size]);
        if |d| != uncomp then Read(None, body[size..]) else Read(Some(d), body[size..])
  }

  /** Where the payload is all there, the checked reading is the reading as written. */
  lemma DeframeCheckedAgrees(source: seq<Byte>, decompress: seq<Byte> -> seq<Byte>, buf: seq<Byte>, comp: seq<Byte>)
    requires |buf| == BlockSize && |comp| == BlockSize
    requires |source| >= 4
    requires var uncomp, size := FromLE(source[..2]), FromLE(source[2..4]);
      |source| - 4 >= (if size == 0 then uncomp else size)
    ensures DeframeChecked(source, decompress) == Deframe(source, decompress, buf, comp)
  {
    var uncomp, size := FromLE(source[..2]), FromLE(source[2..4]);
    var body := source[4..];
    if size == 0 && uncomp <= BlockSize {
      assert buf[uncomp..uncomp] == [];
      assert body[..uncomp] + buf[uncomp..uncomp] == body[..uncomp];
    } else if 0 < size <= BlockSize {
      assert comp[size..size] == [];
      assert body[..size] + comp[size..size] == body[..size];
    }
  }

  /**
   * A raw block whose payload is cut short is accepted as written: the
   * stream `2, 0, 0, 0, 7` announces two raw bytes but holds one, and the
   * block read is that byte followed by whatever the stack buffer held.
   */
  lemma TruncatedBlockAccepted(decompress: seq<Byte> -> seq<Byte>, buf: seq<Byte>, comp: seq<Byte>)
    requires |buf| == BlockSize && |comp| == BlockSize
    ensures Deframe([2, 0, 0, 0, 7], decompress, buf, comp) == Read(Some([7, buf[1]]), [])
    ensures DeframeChecked([2, 0, 0, 0, 7], decompress) == Read(None, [])
  {
    var s: seq<Byte> := [2, 0, 0, 0, 7];
    assert FromLE(s[..2]) == 2 by {
      assert s[..2][1..] == [0];
      assert s[..2][1..][1..] == [];
    }
    assert FromLE(s[2..4]) == 0 by {
      assert s[2..4][1..] == [0];
      assert s[2..4][1..][1..] == [];
    }
    assert s[4..][..1] + buf[1..2] == [7, buf[1]];
  }

  /** A concatenation split where its first part ends gives back both parts. */
  lemma SplitAt(a: seq<Byte>, b: seq<Byte>)
    ensures (a + b)[..|a|] == a && (a + b)[|a|..] == b
  {
  }

  /** Where a frame's sizes and payload sit in the stream that holds it. */
  lemma FrameLayout(d: seq<Byte>, rest: seq<Byte>, compress: seq<Byte> -> seq<Byte>)
    ensures var c := compress(d); var s := Frame(d, compress) + rest;
      s[..2] == U16(|d|) && s[2..4] == U16(|c|) && s[4..] == (if c == [] then d else c) + rest
  {
    var c := compress(d);
    var payload := if c == [] then d else c;
    var h := U16(|d|) + U16(|c|);
    AppendAssoc(h, payload, rest);
    SplitAt(h, payload + rest);
    SplitAt(U16(|d|), U16(|c|));
  }

  /** The checked reading of a frame gives back the framed block and leaves the bytes after it. */
  lemma DeframeFrame(d: seq<Byte>, rest: seq<Byte>, compress: seq<Byte> -> seq<Byte>, decompress: seq<Byte> -> seq<Byte>)
    requires Fits(compress) && Inverts(compress, decompress) && |d| <= BlockSize
    ensures DeframeChecked(Frame(d, compress) + rest, decompress) == Read(Some(d), rest)
  {
    var c := compress(d);
    FrameLayout(d, rest, compress);
    UnsignedRoundTrips(|d|);
    UnsignedRoundTrips(|c|);
    if c == [] {
      SplitAt(d, rest);
    } else {
      SplitAt(c, rest);
    }
  }

  /** Reading blocks until the stream ends: the bytes they hold, or nothing when a read fails. */
  function DecodeAll(source: seq<Byte>, decompress: seq<Byte> -> seq<Byte>): Option<seq<Byte>>
    decreases |source|
  {
    if source == [] then Some([])
    else
      var r := DeframeChecked(source, decompress);
      if r.block.None? then None
      else match DecodeAll(r.rest, decompress)
        case None => None
        case Some(more) => Some(r.block.value + more)
  }

  /** A stream whose first block reads back and whose remainder decodes, decodes to both. */
  lemma DecodeAllStep(source: seq<Byte>, decompress: seq<Byte> -> seq<Byte>, block: seq<Byte>, rest: seq<Byte>, more: seq<Byte>)
    requires source != [] && DeframeChecked(source, decompress) == Read(Some(block), rest)
    requires DecodeAll(rest, decompress) == Some(more)
    ensures DecodeAll(source, decompress) == Some(block + more)
  {
  }

  /** Reading back everything `sync` framed gives the bytes that were buffered. */
  lemma {:induction false} DecodeAllFrames(put: seq<Byte>, compress: seq<Byte> -> seq<Byte>, decompress: seq<Byte> -> seq<Byte>)
    requires Fits(compress) && Inverts(compress, decompress)
    ensures DecodeAll(Frames(put, compress), decompress) == Some(put)
    decreases |put|
  {
    if put != [] {
      var k := BlockLen(|put|);
      var f, rest := Frame(put[..k], compress), Frames(put[k..], compress);
      FramesUnfold(put, compress);
      DeframeFrame(put[..k], rest, compress, decompress);
      DecodeAllFrames(put[k..], compress, decompress);
      DecodeAllStep(f + rest, decompress, put[..k], rest, put[k..]);
      TakeDrop(put, k);
    }
  }

  class ZipBuf {
    /** The put area: bytes written to the buffer and not yet framed. */
    var put: seq<Byte>
    /** The get area: the last block read and not yet consumed. */
    var get: seq<Byte>
    /** Whether there is an underlying stream (`stream != nullptr`). */
    var hasStream: bool
    /** Bytes the underlying stream has accepted. */
    var sink: seq<Byte>
    /** How many more bytes the underlying stream accepts. */
    var room: nat
    /** Bytes left to read from the underlying stream. */
    var source: seq<Byte>

    /** `zip_buf(underlying)`, or `zip_buf()` with no stream. */
    constructor (hasStream: bool, room: nat, source: seq<Byte>)
      ensures put == [] && get == [] && sink == []
      ensures this.hasStream == hasStream && this.room == room && this.source == source
    {
      put, get, sink := [], [], [];
      this.hasStream, this.room, this.source := hasStream, room, source;
    }

    /** `sputn` on the underlying stream: as many bytes as it accepts. */
    method Sputn(data: seq<Byte>) returns (n: nat)
      modifies this
      ensures n == if |data| <= old(room) then |data| else old(room)
      ensures sink == old(sink) + data[..n] && room == old(room) - n
      ensures put == old(put) && get == old(get) && source == old(source) && hasStream == old(hasStream)
    {
      n := if |data| <= room then |data| else room;
      sink := sink + data[..n];
      room := room - n;
    }

    /** `sgetn` on the underlying stream: as many bytes as it has, up to `n`. */
    method Sgetn(n: nat) returns (got: seq<Byte>)
      modifies this
      ensures got == old(source)[..if n <= |old(source)| then n else |old(source)|]
      ensures source == old(source)[|got|..]
      ensures put == old(put) && get == old(get) && sink == old(sink) && room == old(room) && hasStream == old(hasStream)
    {
      var k := if n <= |source| then n else |source|;
      got := source[..k];
      source := source[k..];
    }

    /**
     * The three `sputn` calls of `write_some` (the two sizes, then the
     * payload), stopping at the first one the stream cuts short: the stream
     * gets as much of the frame as it accepts.
     */
    method SputFrame(h1: seq<Byte>, h2: seq<Byte>, p: seq<Byte>) returns (ok: bool)
      modifies this
      ensures ok <==> |h1 + h2 + p| <= old(room)
      ensures ok ==> sink == old(sink) + (h1 + h2 + p) && room == old(room) - |h1 + h2 + p|
      ensures !ok ==> sink == old(sink) + (h1 + h2 + p)[..old(room)] && room == 0
      ensures put == old(put) && get == old(get) && source == old(source) && hasStream == old(hasStream)
    {
      ghost var room0, sink0 := room, sink;
      var n := Sputn(h1);
      if n != |h1| {
        PartialFrame(sink0, h1, h2, p, room0);
        return false;
      }
      n := Sputn(h2);
      if n != |h2| {
        PartialFrame(sink0, h1, h2, p, room0);
        return false;
      }
      n := Sputn(p);
      PartialFrame(sink0, h1, h2, p, room0);
      ok := n == |p|;
    }

    /**
     * `write_some(min)`: with a stream and at least `min` bytes buffered,
     * frame the leading block onto the stream and drop it from the buffer;
     * eof when the stream takes less than the whole frame.
     */
    method WriteSome(min: int, compress: seq<Byte> -> seq<Byte>) returns (r: int)
      requires Fits(compress)
      modifies this
      ensures get == old(get) && source == old(source) && hasStream == old(hasStream)
      ensures var k := BlockLen(|old(put)|);
        var f := Frame(old(put)[..k], compress);
        if !hasStream || k < min then
          r == 0 && put == old(put) && sink == old(sink) && room == old(room)
        else if |f| <= old(room) then
          r == 0 && put == old(put)[k..] && sink == old(sink) + f && room == old(room) - |f|
        else
          r == Eof && put == old(put) && sink == old(sink) + f[..old(room)] && room == 0
    {
      var k := BlockLen(|put|);
      if !hasStream || k < min {
        return 0;
      }
      var block := put[..k];
      var c := compress(block);
      var ok := SputFrame(U16(k), U16(|c|), if c == [] then block else c);
      if !ok {
        return Eof;
      }
      put := put[k..];
      r := 0;
    }

    /**
     * `overflow(c)`: frame a full block if there is one, then let the string
     * buffer take `c`; eof when framing fails.
     */
    method Overflow(c: Byte, compress: seq<Byte> -> seq<Byte>) returns (r: int)
      requires Fits(compress)
      modifies this
      ensures get == old(get) && source == old(source) && hasStream == old(hasStream)
      ensures r == Eof || r == c as int
      ensures r == Eof <==> hasStream && |old(put)| >= BlockSize && |Frame(old(put)[..BlockSize], compress)| > old(room)
      ensures r != Eof ==> put == (if hasStream && |old(put)| >= BlockSize then old(put)[BlockSize..] else old(put)) + [c]
    {
      var w := WriteSome(BlockSize, compress);
      if w == Eof {
        return Eof;
      }
      put := put + [c];
      r := c as int;
    }

    /** One `write_some(0)` of `sync` on a stream with bytes buffered: whether the whole frame went out. */
    method FlushBlock(compress: seq<Byte> -> seq<Byte>) returns (ok: bool)
      requires Fits(compress) && hasStream && put != []
      modifies this
      ensures get == old(get) && source == old(source) && hasStream
      ensures var k := BlockLen(|old(put)|); var f := Frame(old(put)[..k], compress);
        (ok <==> |f| <= old(room)) &&
        (ok ==> put == old(put)[k..] && sink == old(sink) + f && room == old(room) - |f|)
    {
      var w := WriteSome(0, compress);
      ok := w != Eof;
    }

    /**
     * `sync` with the missing case filled in: without an underlying stream it
     * fails instead of calling `write_some(0)` forever.  Otherwise it frames
     * blocks until the buffer is empty, failing if the stream stops taking bytes.
     */
    method SyncIntended(compress: seq<Byte> -> seq<Byte>) returns (r: int)
      requires Fits(compress)
      modifies this
      ensures get == old(get) && source == old(source) && hasStream == old(hasStream)
      ensures r == 0 || r == -1
      ensures !hasStream ==> put == old(put) && sink == old(sink) && (r == 0 <==> put == [])
      ensures r == 0 ==> put == [] && sink == old(sink) + Frames(old(put), compress)
      ensures hasStream && |Frames(old(put), compress)| <= old(room) ==> r == 0
    {
      if !hasStream {
        return if put == [] then 0 else -1;
      }
      while |put| > 0
        invariant get == old(get) && source == old(source) && hasStream
        invariant old(sink) + Frames(old(put), compress) == sink + Frames(put, compress)
        invariant old(room) - |Frames(old(put), compress)| == room - |Frames(put, compress)|
        decreases |put|
      {
        ghost var put0, sink0 := put, sink;
        ghost var f := Frame(put0[..BlockLen(|put0|)], compress);
        FramesUnfold(put0, compress);
        var ok := FlushBlock(compress);
        if !ok {
          return -1;
        }
        AppendAssoc(sink0, f, Frames(put, compress));
      }
      r := 0;
    }

    /**
     * `underflow`: the next byte of the get area when there is one; otherwise
     * read a block from the stream as written and make it the get area, and
     * give its first byte, or eof when there is none.  `buf` and `comp` are
     * what the stack buffers held before the read.
     */
    method Underflow(decompress: seq<Byte> -> seq<Byte>, buf: seq<Byte>, comp: seq<Byte>) returns (r: int)
      requires |buf| == BlockSize && |comp| == BlockSize
      modifies this
      ensures put == old(put) && sink == old(sink) && room == old(room) && hasStream == old(hasStream)
      ensures old(get) != [] ==> r == old(get)[0] as int && get == old(get) && source == old(source)
      ensures old(get) == [] ==>
        var d := Deframe(old(source), decompress, buf, comp);
        && source == d.rest
        && (d.block.None? ==> r == Eof && get == old(get))
        && (d.block.Some? ==> get == d.block.value && r == if get == [] then Eof else get[0] as int)
    {
      if get != [] {
        return get[0] as int;
      }
      var h := Sgetn(2);
      if |h| != 2 {
        return Eof;
      }
      var h2 := Sgetn(2);
      if |h2| != 2 {
        return Eof;
      }
      assert old(source)[..2] == h && old(source)[2..4] == h2 && source == old(source)[4..];
      var uncomp, size := FromLE(h), FromLE(h2);
      if size > BlockSize || uncomp > BlockSize {
        return Eof;
      }
      var block;
      if size == 0 {
        var got := Sgetn(uncomp);
        block := got + buf[|got|..uncomp];
      } else {
        var got := Sgetn(size);
        block := decompress(got + comp[|got|..size]);
        if |block| != uncomp {
          return Eof;
        }
      }
      get := block;
      r := if get == [] then Eof else get[0] as int;
    }
  }

  /**
   * `sync` as written calls `write_some(0)` while bytes are buffered.  With no
   * underlying stream, `write_some` returns 0 and changes nothing, so the
   * loop's condition never changes: a buffer with data and no stream never
   * finishes syncing (the destructor calls `sync`).
   */
  method SyncSpinsWithoutStream(compress: seq<Byte> -> seq<Byte>) returns (before: seq<Byte>, after: seq<Byte>, w: int)
    requires Fits(compress)
    ensures before == after && |after| > 0 && w != Eof
  {
    var z := new ZipBuf(false, 0, []);
    z.put := [1];
    before := z.put;
    w := z.WriteSome(0, compress);
    after := z.put;
  }
}

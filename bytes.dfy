/**
 * Bytes and the little-endian unsigned integers the binary formats store
 * (the in-memory layout of `uint16_t`, `uint32_t` and `uint64_t` on the
 * little-endian machines the code targets).
 */
module Bytes {
  newtype Byte = x: int | 0 <= x < 256

  function Pow256(w: nat): (r: nat)
    ensures r >= 1
  {
    if w == 0 then 1 else 256 * Pow256(w - 1)
  }

  /** The `w`-byte little-endian form of `n`, taken modulo 256^w as an unsigned store would. */
  function LE(n: nat, w: nat): (bs: seq<Byte>)
    ensures |bs| == w
  {
    if w == 0 then [] else [(n % 256) as Byte] + LE(n / 256, w - 1)
  }

  /** The number a little-endian byte string stands for. */
  function FromLE(bs: seq<Byte>): (n: nat)
    ensures n < Pow256(|bs|)
  {
    if bs == [] then 0 else bs[0] as nat + 256 * FromLE(bs[1..])
  }

  /** Encoding a number that fits and decoding it gives the number back. */
  lemma {:induction false} FromLEOfLE(n: nat, w: nat)
    requires n < Pow256(w)
    ensures FromLE(LE(n, w)) == n
  {
    if w > 0 {
      assert n / 256 < Pow256(w - 1);
      FromLEOfLE(n / 256, w - 1);
      assert LE(n, w)[1..] == LE(n / 256, w - 1);
    }
  }

  /** Decoding a byte string and encoding it at its width gives the bytes back. */
  lemma {:induction false} LEOfFromLE(bs: seq<Byte>)
    ensures LE(FromLE(bs), |bs|) == bs
  {
    if bs != [] {
      LEOfFromLE(bs[1..]);
      var n := FromLE(bs);
      assert n % 256 == bs[0] as int && n / 256 == FromLE(bs[1..]);
    }
  }

  /** A `uint16_t`'s bytes. */
  function U16(n: nat): (bs: seq<Byte>)
    ensures |bs| == 2
  {
    LE(n, 2)
  }

  /** A `uint32_t`'s bytes. */
  function U32(n: nat): (bs: seq<Byte>)
    ensures |bs| == 4
  {
    LE(n, 4)
  }

  /** A `uint64_t`'s bytes. */
  function U64(n: nat): (bs: seq<Byte>)
    ensures |bs| == 8
  {
    LE(n, 8)
  }

  lemma Pow256Widths()
    ensures Pow256(2) == 0x1_0000 && Pow256(4) == 0x1_0000_0000 && Pow256(8) == 0x1_0000_0000_0000_0000
  {
  }

  /** Each unsigned width decodes back what it encodes when the value is in range. */
  lemma UnsignedRoundTrips(n: nat)
    ensures n < 0x1_0000 ==> FromLE(U16(n)) == n
    ensures n < 0x1_0000_0000 ==> FromLE(U32(n)) == n
    ensures n < 0x1_0000_0000_0000_0000 ==> FromLE(U64(n)) == n
  {
    Pow256Widths();
    if n < 0x1_0000 {
      FromLEOfLE(n, 2);
    }
    if n < 0x1_0000_0000 {
      FromLEOfLE(n, 4);
    }
    if n < 0x1_0000_0000_0000_0000 {
      FromLEOfLE(n, 8);
    }
  }

  /** Concatenation is associative (stated once, so that long proofs need not rediscover it). */
  lemma AppendAssoc(a: seq<Byte>, b: seq<Byte>, c: seq<Byte>)
    ensures (a + b) + c == a + (b + c)
  {
  }

  /** A byte string is its first `k` bytes followed by the rest. */
  lemma TakeDrop(s: seq<Byte>, k: nat)
    requires k <= |s|
    ensures s[..k] + s[k..] == s
  {
  }

  /** A byte string of width `w` decodes to `n` exactly when it is the encoding of an `n` that fits. */
  lemma DecodesTo(bs: seq<Byte>, n: nat)
    ensures LE(n, |bs|) == bs && n < Pow256(|bs|) <==> FromLE(bs) == n
  {
    if FromLE(bs) == n {
      LEOfFromLE(bs);
    }
    if n < Pow256(|bs|) {
      FromLEOfLE(n, |bs|);
    }
  }
}

/** Bytes, fixed-width unsigned integers and their big- and little-endian
    encodings, as Go's encoding/binary writes and reads them. */
module Bytes {

  type byte = b: int | 0 <= b < 0x100
  type uint16 = x: int | 0 <= x < 0x1_0000
  type uint32 = x: int | 0 <= x < 0x1_0000_0000
  type uint64 = x: int | 0 <= x < 0x1_0000_0000_0000_0000

  // crypto.PublicKeySize, crypto.SecretKeySize, crypto.NonceSize
  const PublicKeySize: nat := 32
  const SecretKeySize: nat := 32
  const NonceSize: nat := 24

  function Zeros(n: nat): (z: seq<byte>)
    ensures |z| == n && forall i :: 0 <= i < n ==> z[i] == 0
  {
    seq(n, _ => 0)
  }

  /** A Go `[32]byte` public or secret key. */
  type Key = s: seq<byte> | |s| == PublicKeySize witness Zeros(PublicKeySize)

  /** A Go `[24]byte` nonce. */
  type Nonce = s: seq<byte> | |s| == NonceSize witness Zeros(NonceSize)

  function Min(a: int, b: int): int { if a <= b then a else b }

  function Pow256(w: nat): (p: nat)
    ensures p >= 1
  {
    if w == 0 then 1 else 256 * Pow256(w - 1)
  }

  lemma Pow256Widths()
    ensures Pow256(1) == 0x100 && Pow256(2) == 0x1_0000
    ensures Pow256(4) == 0x1_0000_0000 && Pow256(8) == 0x1_0000_0000_0000_0000
  {
    assert Pow256(2) == 0x1_0000;
    assert Pow256(4) == 0x1_0000_0000 by { assert Pow256(3) == 0x100_0000; }
    assert Pow256(8) == 0x1_0000_0000_0000_0000 by {
      assert Pow256(5) == 0x100_0000_0000;
      assert Pow256(6) == 0x1_0000_0000_0000;
      assert Pow256(7) == 0x100_0000_0000_0000;
    }
  }

  /** The `w`-byte big-endian encoding of `n` modulo 256^w (binary.BigEndian). */
  function BE(n: nat, w: nat): (s: seq<byte>)
    ensures |s| == w
  {
    if w == 0 then [] else BE(n / 256, w - 1) + [n % 256]
  }

  /** The number a big-endian byte string denotes. */
  function BEValue(s: seq<byte>): (v: nat)
    ensures v < Pow256(|s|)
  {
    if |s| == 0 then 0 else BEValue(s[..|s| - 1]) * 256 + s[|s| - 1]
  }

  /** The `w`-byte little-endian encoding of `n` modulo 256^w (binary.LittleEndian). */
  function LE(n: nat, w: nat): (s: seq<byte>)
    ensures |s| == w
  {
    if w == 0 then [] else [n % 256] + LE(n / 256, w - 1)
  }

  /** The number a little-endian byte string denotes. */
  function LEValue(s: seq<byte>): (v: nat)
    ensures v < Pow256(|s|)
  {
    if |s| == 0 then 0 else s[0] + 256 * LEValue(s[1..])
  }

  lemma {:induction false} BERoundTrip(n: nat, w: nat)
    requires n < Pow256(w)
    ensures BEValue(BE(n, w)) == n
  {
    if w > 0 {
      assert n / 256 < Pow256(w - 1);
      BERoundTrip(n / 256, w - 1);
      var s := BE(n, w);
      assert s[..|s| - 1] == BE(n / 256, w - 1);
    }
  }

  lemma {:induction false} BEOfValue(s: seq<byte>)
    ensures BE(BEValue(s), |s|) == s
  {
    if |s| > 0 {
      var p := s[..|s| - 1];
      var v := BEValue(s);
      assert v / 256 == BEValue(p) && v % 256 == s[|s| - 1];
      BEOfValue(p);
      assert s == p + [s[|s| - 1]];
    }
  }

  lemma {:induction false} LERoundTrip(n: nat, w: nat)
    requires n < Pow256(w)
    ensures LEValue(LE(n, w)) == n
  {
    if w > 0 {
      assert n / 256 < Pow256(w - 1);
      LERoundTrip(n / 256, w - 1);
      var s := LE(n, w);
      assert s[1..] == LE(n / 256, w - 1);
    }
  }

  lemma {:induction false} LEOfValue(s: seq<byte>)
    ensures LE(LEValue(s), |s|) == s
  {
    if |s| > 0 {
      var v := LEValue(s);
      assert v % 256 == s[0] && v / 256 == LEValue(s[1..]);
      LEOfValue(s[1..]);
      assert s == [s[0]] + s[1..];
    }
  }

  /** A big-endian uint16, uint32 or uint64 field read back from its bytes. */
  function BE16(s: seq<byte>): uint16 requires |s| == 2 { Pow256Widths(); BEValue(s) }
  function BE32(s: seq<byte>): uint32 requires |s| == 4 { Pow256Widths(); BEValue(s) }
  function BE64(s: seq<byte>): uint64 requires |s| == 8 { Pow256Widths(); BEValue(s) }
  function LE16(s: seq<byte>): uint16 requires |s| == 2 { Pow256Widths(); LEValue(s) }
  function LE32(s: seq<byte>): uint32 requires |s| == 4 { Pow256Widths(); LEValue(s) }

  /** A big-endian uint16, uint32 or uint64 field read back from its
      encoding. */
  lemma BE16RoundTrip(x: nat)
    requires x < 0x1_0000
    ensures BE16(BE(x, 2)) == x
  {
    Pow256Widths();
    BERoundTrip(x, 2);
  }

  lemma BE32RoundTrip(x: nat)
    requires x < 0x1_0000_0000
    ensures BE32(BE(x, 4)) == x
  {
    Pow256Widths();
    BERoundTrip(x, 4);
  }

  lemma BE64RoundTrip(x: nat)
    requires x < 0x1_0000_0000_0000_0000
    ensures BE64(BE(x, 8)) == x
  {
    Pow256Widths();
    BERoundTrip(x, 8);
  }

  /** A little-endian uint16 or uint32 field read back from its encoding. */
  lemma LE16RoundTrip(x: nat)
    requires x < 0x1_0000
    ensures LE16(LE(x, 2)) == x
  {
    Pow256Widths();
    LERoundTrip(x, 2);
  }

  lemma LE32RoundTrip(x: nat)
    requires x < 0x1_0000_0000
    ensures LE32(LE(x, 4)) == x
  {
    Pow256Widths();
    LERoundTrip(x, 4);
  }

  predicate AllZero(s: seq<byte>)
  {
    forall i :: 0 <= i < |s| ==> s[i] == 0
  }

  /** A slice of a part of the input is a slice of the input. */
  lemma SliceWithin(data: seq<byte>, off: nat, e: seq<byte>, a: nat, b: nat)
    requires off + |e| <= |data| && data[off..off + |e|] == e && a <= b <= |e|
    ensures data[off + a..off + b] == e[a..b]
  {
    forall i | 0 <= i < b - a
      ensures data[off + a..off + b][i] == e[a..b][i]
    {
      assert data[off..off + |e|][a + i] == e[a + i];
    }
  }

  /** The two halves of a part of the input. */
  lemma SliceSplit(data: seq<byte>, off: nat, x: seq<byte>, y: seq<byte>)
    requires off + |x| + |y| <= |data| && data[off..off + |x| + |y|] == x + y
    ensures data[off..off + |x|] == x
    ensures data[off + |x|..off + |x| + |y|] == y
  {
    SliceWithin(data, off, x + y, 0, |x|);
    SliceWithin(data, off, x + y, |x|, |x| + |y|);
    assert (x + y)[..|x|] == x;
    assert (x + y)[|x|..] == y;
  }

  /** The encodings of a list's elements, back to back in list order. */
  function ConcatMap<T>(xs: seq<T>, encode: T -> seq<byte>): seq<byte>
  {
    if |xs| == 0 then [] else ConcatMap(xs[..|xs| - 1], encode) + encode(xs[|xs| - 1])
  }

  lemma {:induction false} ConcatMapCons<T>(x: T, xs: seq<T>, encode: T -> seq<byte>)
    ensures ConcatMap([x] + xs, encode) == encode(x) + ConcatMap(xs, encode)
    decreases |xs|
  {
    if |xs| > 0 {
      var all := [x] + xs;
      assert all[..|all| - 1] == [x] + xs[..|xs| - 1];
      ConcatMapCons(x, xs[..|xs| - 1], encode);
    } else {
      assert [x] + xs == [x];
      assert [x][..0] == [];
    }
  }

  /** One more element's encoding after those of the elements before it. */
  lemma ConcatMapSnoc<T>(xs: seq<T>, k: nat, encode: T -> seq<byte>)
    requires k < |xs|
    ensures ConcatMap(xs[..k + 1], encode) == ConcatMap(xs[..k], encode) + encode(xs[k])
  {
    assert xs[..k + 1][..k] == xs[..k];
  }
}

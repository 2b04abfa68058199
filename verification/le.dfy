/** Little-endian, two's-complement layout of fixed-width integers.

    Both halves of the profiler share this layout: the C side stores `long`
    fields of the header in native byte order, and the Python side packs and
    unpacks them with `struct`. The model fixes the platform to 64-bit
    little-endian (a `long` and a pointer are 8 bytes). */
module LittleEndian {

  /** One octet of a byte stream. */
  type byte = b: int | 0 <= b < 256

  /** The number of distinct values an `n`-byte field can hold. */
  function Pow256(n: nat): (p: nat)
    ensures p >= 1
  {
    if n == 0 then 1 else 256 * Pow256(n - 1)
  }

  /** The `n` least significant bytes of `v`, least significant first. */
  function LeBytes(v: nat, n: nat): (bs: seq<byte>)
    ensures |bs| == n
  {
    if n == 0 then [] else [v % 256] + LeBytes(v / 256, n - 1)
  }

  /** The unsigned value of a little-endian byte sequence. */
  function LeValue(bs: seq<byte>): (v: nat)
    ensures v < Pow256(|bs|)
  {
    if bs == [] then 0
    else
      var rest := LeValue(bs[1..]);
      assert rest <= Pow256(|bs| - 1) - 1;
      assert 256 * rest <= 256 * Pow256(|bs| - 1) - 256;
      bs[0] + 256 * rest
  }

  /** Decoding the bytes of an in-range value gives the value back. */
  lemma {:induction false} LeValueOfLeBytes(v: nat, n: nat)
    requires v < Pow256(n)
    ensures LeValue(LeBytes(v, n)) == v
  {
    if n > 0 {
      var bs := LeBytes(v, n);
      assert bs[1..] == LeBytes(v / 256, n - 1);
      LeValueOfLeBytes(v / 256, n - 1);
    }
  }

  /** Encoding the value of any byte sequence gives the same bytes back. */
  lemma {:induction false} LeBytesOfLeValue(bs: seq<byte>)
    ensures LeBytes(LeValue(bs), |bs|) == bs
  {
    if bs != [] {
      LeBytesOfLeValue(bs[1..]);
      var v := LeValue(bs);
      assert v % 256 == bs[0];
      assert v / 256 == LeValue(bs[1..]);
    }
  }

  /** Half of `Pow256(n)`: the first value whose top bit is set in an `n`-byte field. */
  function HalfRange(n: nat): (h: nat)
    ensures n >= 1 ==> Pow256(n) == 2 * h
  {
    if n == 0 then 0 else 128 * Pow256(n - 1)
  }

  /** Values a signed `n`-byte field can hold. */
  predicate InSignedRange(v: int, n: nat)
  {
    -(HalfRange(n) as int) <= v < HalfRange(n)
  }

  /** Values an unsigned `n`-byte field can hold. */
  predicate InUnsignedRange(v: int, n: nat)
  {
    0 <= v < Pow256(n)
  }

  /** The two's-complement bit pattern of a signed value, as an unsigned number. */
  function ToTwos(v: int, n: nat): (u: nat)
    requires InSignedRange(v, n)
    ensures u < Pow256(n)
    ensures v >= 0 ==> u == v
    ensures v < 0 ==> u >= HalfRange(n)
  {
    if v < 0 then v + Pow256(n) else v
  }

  /** The signed value an unsigned `n`-byte bit pattern stands for. */
  function FromTwos(u: nat, n: nat): (v: int)
    requires n >= 1 && u < Pow256(n)
    ensures InSignedRange(v, n)
    ensures (v < 0) == (u >= HalfRange(n))
  {
    if u >= HalfRange(n) then u - Pow256(n) else u
  }

  /** Two's complement is a bijection between the signed and unsigned ranges. */
  lemma TwosRoundTrip(v: int, u: nat, n: nat)
    requires n >= 1 && InSignedRange(v, n) && u < Pow256(n)
    ensures FromTwos(ToTwos(v, n), n) == v
    ensures ToTwos(FromTwos(u, n), n) == u
  {
  }

  /** A C `long` on the modelled platform. */
  type long = x: int | -0x8000_0000_0000_0000 <= x < 0x8000_0000_0000_0000

  /** The 8 bytes a C `long` occupies in memory. */
  function LongBytes(v: long): (bs: seq<byte>)
    ensures |bs| == 8
    ensures FromTwos(LeValue(bs), 8) == v
  {
    LeValueOfLeBytes(ToTwos(v, 8), 8);
    LeBytes(ToTwos(v, 8), 8)
  }

  /** The bytes of a sequence of `long`s laid out one after the other, as in a C array. */
  function LongsBytes(ws: seq<long>): (b: seq<byte>)
    ensures |b| == 8 * |ws|
  {
    if ws == [] then [] else LongBytes(ws[0]) + LongsBytes(ws[1..])
  }

  /** The `k`-th 8-byte slot of laid-out `long`s holds the `k`-th one. */
  lemma {:induction false} LongsBytesAt(ws: seq<long>, k: nat)
    requires k < |ws|
    ensures LongsBytes(ws)[8 * k..8 * k + 8] == LongBytes(ws[k])
  {
    var b := LongsBytes(ws);
    if k == 0 {
      assert b[..8] == LongBytes(ws[0]);
    } else {
      LongsBytesAt(ws[1..], k - 1);
      assert b[8..] == LongsBytes(ws[1..]);
      assert b[8 * k..8 * k + 8] == b[8..][8 * (k - 1)..8 * (k - 1) + 8];
    }
  }
}

/**
 * Fixed-width unsigned integers, host byte order and the network byte order
 * conversions (htons/htonl and their inverses) that the probe's messages use.
 * A multi-byte integer is described by the bytes it occupies in memory; the
 * network byte order is big-endian.
 */
module ByteOrder {

  type uint8 = x: int | 0 <= x < 0x100
  type uint16 = x: int | 0 <= x < 0x1_0000
  type uint32 = x: int | 0 <= x < 0x1_0000_0000
  type uint64 = x: int | 0 <= x < 0x1_0000_0000_0000_0000

  const TWO_32: int := 0x1_0000_0000
  const TWO_64: int := 0x1_0000_0000_0000_0000

  /** Reducing a summand first does not change a 64-bit wrapping sum. */
  lemma ModAdd64(a: int, b: int)
    ensures (a % TWO_64 + b) % TWO_64 == (a + b) % TWO_64
  {
  }

  /** Adding a multiple of 2^64 does not change a value modulo 2^64. */
  lemma ModShift64(x: int, k: int)
    ensures (x + k * TWO_64) % TWO_64 == x % TWO_64
  {
  }

  /** Reducing a summand first does not change a 32-bit wrapping sum. */
  lemma ModAdd32(a: int, b: int)
    ensures (a % TWO_32 + b) % TWO_32 == (a + b) % TWO_32
  {
  }

  /** The byte order of the machine the program runs on. */
  datatype Endian = LittleEndian | BigEndian

  /** 256^n: the number of values an n-byte integer can hold. */
  function Pow256(n: nat): (r: nat)
    ensures r >= 1
  {
    if n == 0 then 1 else 256 * Pow256(n - 1)
  }

  lemma Pow256Widths()
    ensures Pow256(2) == 0x1_0000 && Pow256(4) == TWO_32 && Pow256(8) == TWO_64
  {
  }

  /** The n low-order bytes of x, least significant first. */
  function LeBytes(x: nat, n: nat): (r: seq<uint8>)
    ensures |r| == n
  {
    if n == 0 then [] else [x % 256] + LeBytes(x / 256, n - 1)
  }

  /** The value of a little-endian byte string. */
  function LeValue(bs: seq<uint8>): (r: nat)
    ensures r < Pow256(|bs|)
  {
    if bs == [] then 0 else bs[0] + 256 * LeValue(bs[1..])
  }

  /** Decoding the bytes of a value that fits gives the value back. */
  lemma {:induction false} LeValueOfLeBytes(x: nat, n: nat)
    requires x < Pow256(n)
    ensures LeValue(LeBytes(x, n)) == x
  {
    if n > 0 {
      LeValueOfLeBytes(x / 256, n - 1);
      assert LeBytes(x, n)[1..] == LeBytes(x / 256, n - 1);
    }
  }

  /** Encoding the value of a byte string gives the byte string back. */
  lemma {:induction false} LeBytesOfLeValue(bs: seq<uint8>)
    ensures LeBytes(LeValue(bs), |bs|) == bs
  {
    if bs != [] {
      LeBytesOfLeValue(bs[1..]);
      var v := LeValue(bs);
      assert v % 256 == bs[0] && v / 256 == LeValue(bs[1..]);
    }
  }

  function Reverse<T>(s: seq<T>): (r: seq<T>)
    ensures |r| == |s|
    ensures forall i :: 0 <= i < |s| ==> r[i] == s[|s| - 1 - i]
  {
    if s == [] then [] else Reverse(s[1..]) + [s[0]]
  }

  lemma ReverseReverse<T>(s: seq<T>)
    ensures Reverse(Reverse(s)) == s
  {
    assert forall i :: 0 <= i < |s| ==> Reverse(Reverse(s))[i] == s[i];
  }

  /** The n low-order bytes of x, most significant first (network order). */
  function BeBytes(x: nat, n: nat): (r: seq<uint8>)
    ensures |r| == n
  {
    Reverse(LeBytes(x, n))
  }

  /** The value of a big-endian byte string. */
  function BeValue(bs: seq<uint8>): (r: nat)
    ensures r < Pow256(|bs|)
  {
    LeValue(Reverse(bs))
  }

  lemma BeValueOfBeBytes(x: nat, n: nat)
    requires x < Pow256(n)
    ensures BeValue(BeBytes(x, n)) == x
  {
    ReverseReverse(LeBytes(x, n));
    LeValueOfLeBytes(x, n);
  }

  /** The bytes an n-byte integer occupies in the memory of a host. */
  function Store(host: Endian, x: nat, n: nat): (r: seq<uint8>)
    ensures |r| == n
  {
    if host == LittleEndian then LeBytes(x, n) else BeBytes(x, n)
  }

  /** The integer a host reads from the given bytes of memory. */
  function Load(host: Endian, bs: seq<uint8>): (r: nat)
    ensures r < Pow256(|bs|)
  {
    if host == LittleEndian then LeValue(bs) else BeValue(bs)
  }

  /** Reverses the order of the n low-order bytes of x (bswap_16/32/64). */
  function ByteSwap(x: nat, n: nat): (r: nat)
    requires x < Pow256(n)
    ensures r < Pow256(n)
  {
    LeValue(Reverse(LeBytes(x, n)))
  }

  /** Swapping a 16-bit value exchanges its low and high bytes. */
  lemma ByteSwapTwo(lo: nat, hi: nat)
    requires lo < 256 && hi < 256
    ensures hi * 256 + lo < Pow256(2)
    ensures ByteSwap(hi * 256 + lo, 2) == lo * 256 + hi
  {
    var x := hi * 256 + lo;
    var bs: seq<uint8> := [lo, hi];
    assert LeBytes(x, 2) == [lo] + LeBytes(hi, 1);
    assert LeBytes(hi, 1) == [hi];
    assert LeBytes(x, 2) == bs;
    var rev: seq<uint8> := [hi, lo];
    assert Reverse(bs) == rev;
    assert LeValue(rev[1..]) == lo;
  }

  /** Swapping twice gives the value back. */
  lemma {:induction false} ByteSwapInvolution(x: nat, n: nat)
    requires x < Pow256(n)
    ensures ByteSwap(ByteSwap(x, n), n) == x
  {
    var bs := Reverse(LeBytes(x, n));
    LeBytesOfLeValue(bs);
    ReverseReverse(LeBytes(x, n));
    LeValueOfLeBytes(x, n);
  }

  /**
   * Host to network order for an n-byte integer (htons, htonl, htobe64):
   * a byte swap on a little-endian host, the identity on a big-endian one.
   * Network to host order is the same map.
   */
  function HostToNet(host: Endian, x: nat, n: nat): (r: nat)
    requires x < Pow256(n)
    ensures r < Pow256(n)
    ensures host == BigEndian ==> r == x
  {
    if host == LittleEndian then ByteSwap(x, n) else x
  }

  /** ntoh after hton is the identity, on either byte order. */
  lemma NetToHostOfHostToNet(host: Endian, x: nat, n: nat)
    requires x < Pow256(n)
    ensures HostToNet(host, HostToNet(host, x, n), n) == x
  {
    if host == LittleEndian {
      ByteSwapInvolution(x, n);
    }
  }

  /** The memory of hton(x) holds the big-endian bytes of x, on either host. */
  lemma {:induction false} StoreHostToNet(host: Endian, x: nat, n: nat)
    requires x < Pow256(n)
    ensures Store(host, HostToNet(host, x, n), n) == BeBytes(x, n)
  {
    if host == LittleEndian {
      LeBytesOfLeValue(Reverse(LeBytes(x, n)));
    }
  }

  /** ntoh of what a host reads from memory is the big-endian value of the bytes. */
  lemma {:induction false} NetToHostOfLoad(host: Endian, bs: seq<uint8>)
    ensures HostToNet(host, Load(host, bs), |bs|) == BeValue(bs)
  {
    if host == LittleEndian {
      LeBytesOfLeValue(bs);
    }
  }

  function Htons(host: Endian, x: uint16): (r: uint16)
    ensures Ntohs(host, r) == x
  {
    Pow256Widths();
    NetToHostOfHostToNet(host, x, 2);
    HostToNet(host, x, 2)
  }

  function Ntohs(host: Endian, x: uint16): (r: uint16)
  {
    Pow256Widths();
    HostToNet(host, x, 2)
  }

  function Htonl(host: Endian, x: uint32): (r: uint32)
    ensures Ntohl(host, r) == x
  {
    Pow256Widths();
    NetToHostOfHostToNet(host, x, 4);
    HostToNet(host, x, 4)
  }

  function Ntohl(host: Endian, x: uint32): (r: uint32)
  {
    Pow256Widths();
    HostToNet(host, x, 4)
  }

  /** Integer division by a positive number never increases a natural number. */
  lemma DivAtMostSelf(x: nat, f: nat)
    requires f > 0
    ensures 0 <= x / f <= x
  {
    var q := x / f;
    assert q >= 0 by {
      assert x == q * f + x % f;
    }
    MulNonneg(q, f - 1);
    assert q * f == q * (f - 1) + q;
  }

  lemma MulNonneg(a: int, b: int)
    requires a >= 0 && b >= 0
    ensures a * b >= 0
  {
  }

  // ---------------------------------------------------------------------
  // 32-bit fields in network byte order
  // ---------------------------------------------------------------------

  /** ntohl of the 32-bit word a host reads from four bytes of memory. */
  function ReadNet32(host: Endian, bs: seq<uint8>): (r: uint32)
    requires |bs| == 4
    ensures r == BeValue(bs)
  {
    Pow256Widths();
    NetToHostOfLoad(host, bs);
    Ntohl(host, Load(host, bs))
  }

  /** The four bytes of memory that hold htonl(x). */
  function WriteNet32(host: Endian, x: uint32): (r: seq<uint8>)
    ensures r == BeBytes(x, 4)
  {
    Pow256Widths();
    StoreHostToNet(host, x, 4);
    Store(host, Htonl(host, x), 4)
  }

  /** A field written by one host is read back by any other. */
  lemma {:induction false} WireRoundTrip(writer: Endian, reader: Endian, x: uint32)
    ensures ReadNet32(reader, WriteNet32(writer, x)) == x
  {
    Pow256Widths();
    BeValueOfBeBytes(x, 4);
  }
}

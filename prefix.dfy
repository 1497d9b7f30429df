/**
 * The prefix records of the RIB benchmark (gobgp's `bgp.AddrPrefixInterface`) and the
 * parts of Go's `net.IP` that the key encoders use.
 */
module Prefixes {
  import opened Values

  /**
   * A prefix record. The decoder produces `*bgp.IPAddrPrefix` (IPv4) and `*bgp.IPv6AddrPrefix`
   * values, each an address (`net.IP`, a byte slice) and a length; any other implementation of
   * the interface is only seen through its `String()` text.
   */
  datatype Prefix =
    | IPv4Prefix(addr: seq<byte>, length: byte)
    | IPv6Prefix(addr: seq<byte>, length: byte)
    | OtherPrefix(text: seq<byte>)

  const IPV4_LEN: nat := 4
  const IPV6_LEN: nat := 16

  /** The leading 12 bytes of an IPv4-mapped IPv6 address (`::ffff:0:0/96`). */
  const V4_IN_V6_PREFIX: seq<byte> := [0, 0, 0, 0, 0, 0, 0, 0, 0, 0, 0xff, 0xff]

  /** A record as the decoder produces it: 4 or 16 address bytes and a length within the family width. */
  predicate WellFormed(p: Prefix) {
    match p
    case IPv4Prefix(addr, length) => |addr| == IPV4_LEN && length as int <= 32
    case IPv6Prefix(addr, length) => |addr| == IPV6_LEN && length as int <= 128
    case OtherPrefix(_) => false
  }

  /**
   * The records every encoder accepts without a run-time panic: `binary.BigEndian.Uint32`
   * reads four bytes, and `radixStringkey` slices its bit string at the prefix length.
   */
  predicate Encodable(p: Prefix) {
    p.IPv4Prefix? ==> |p.addr| >= IPV4_LEN && p.length as int <= 8 * |p.addr|
  }

  lemma WellFormedIsEncodable(p: Prefix)
    requires WellFormed(p)
    ensures Encodable(p) && !p.OtherPrefix?
  {
  }

  /** Go's `net.IP.To4`: the 4-byte form of an IPv4 or IPv4-mapped address, or nil. */
  function To4(ip: seq<byte>): (r: seq<byte>)
    ensures |r| == IPV4_LEN || r == []
    ensures |ip| == IPV4_LEN ==> r == ip
  {
    if |ip| == IPV4_LEN then ip
    else if |ip| == IPV6_LEN && ip[..12] == V4_IN_V6_PREFIX then ip[12..]
    else []
  }

  /** Go's `net.IP.To16`: the 16-byte form of an address (IPv4 becomes IPv4-mapped), or nil. */
  function To16(ip: seq<byte>): (r: seq<byte>)
    ensures |r| == IPV6_LEN || r == []
    ensures |ip| == IPV6_LEN ==> r == ip
  {
    if |ip| == IPV4_LEN then V4_IN_V6_PREFIX + ip
    else if |ip| == IPV6_LEN then ip
    else []
  }

  function Zeros(n: nat): (r: seq<byte>)
    ensures |r| == n && forall i :: 0 <= i < n ==> r[i] == 0
  {
    seq(n, _ => 0)
  }

  /** A fresh `make([]byte, width)` after `copy(b, src)`: as much of `src` as fits, zero-padded. */
  function CopyInto(width: nat, src: seq<byte>): (r: seq<byte>)
    ensures |r| == width
    ensures forall i :: 0 <= i < width ==> r[i] == if i < |src| then src[i] else 0
  {
    if |src| >= width then src[..width] else src + Zeros(width - |src|)
  }

  function Pow2(n: nat): (r: nat)
    ensures r >= 1
  {
    if n == 0 then 1 else 2 * Pow2(n - 1)
  }

  /** Bit `j` of `x`, counting from the least significant bit. */
  function BitAt(x: nat, j: nat): (r: nat)
    ensures r == 0 || r == 1
  {
    if j == 0 then x % 2 else BitAt(x / 2, j - 1)
  }

  /** Two numbers below 2^k with the same k low bits are equal. */
  lemma {:induction false} LowBitsDetermine(x: nat, y: nat, k: nat)
    requires x < Pow2(k) && y < Pow2(k)
    requires forall j :: 0 <= j < k ==> BitAt(x, j) == BitAt(y, j)
    ensures x == y
  {
    if k > 0 {
      assert BitAt(x, 0) == BitAt(y, 0);
      forall j | 0 <= j < k - 1
        ensures BitAt(x / 2, j) == BitAt(y / 2, j)
      {
        assert BitAt(x, j + 1) == BitAt(y, j + 1);
      }
      LowBitsDetermine(x / 2, y / 2, k - 1);
    }
  }

  /** Bit `j` (0 = most significant) of a byte, in the order `fmt`'s `%08b` prints them. */
  predicate ByteBit(b: byte, j: nat)
    requires j < 8
  {
    BitAt(b as nat, 7 - j) == 1
  }

  /** Bit `i` (0 = most significant bit of the first byte) of an address. */
  predicate AddrBit(addr: seq<byte>, i: nat)
    requires i < 8 * |addr|
  {
    ByteBit(addr[i / 8], i % 8)
  }

  /** A byte is determined by its eight bits. */
  lemma ByteBitsDetermineByte(b: byte, c: byte)
    requires forall j :: 0 <= j < 8 ==> (ByteBit(b, j) <==> ByteBit(c, j))
    ensures b == c
  {
    var x, y := b as nat, c as nat;
    forall j | 0 <= j < 8
      ensures BitAt(x, j) == BitAt(y, j)
    {
      assert ByteBit(b, 7 - j) <==> ByteBit(c, 7 - j);
    }
    assert Pow2(8) == 256;
    LowBitsDetermine(x, y, 8);
  }

  /** Addresses of equal size with the same bits are the same address. */
  lemma AddrBitsDetermineAddr(a: seq<byte>, b: seq<byte>)
    requires |a| == |b|
    requires forall i :: 0 <= i < 8 * |a| ==> (AddrBit(a, i) <==> AddrBit(b, i))
    ensures a == b
  {
    forall k | 0 <= k < |a|
      ensures a[k] == b[k]
    {
      forall j | 0 <= j < 8
        ensures ByteBit(a[k], j) <==> ByteBit(b[k], j)
      {
        var i := 8 * k + j;
        assert i / 8 == k && i % 8 == j;
        assert AddrBit(a, i) <==> AddrBit(b, i);
      }
      ByteBitsDetermineByte(a[k], b[k]);
    }
  }

  /** An IPv4 prefix whose host bits (those at or beyond the length) are all zero, as in a RIB dump. */
  predicate Canonical(p: Prefix) {
    p.IPv4Prefix? &&
    forall i :: p.length as int <= i < 8 * |p.addr| ==> !AddrBit(p.addr, i)
  }
}

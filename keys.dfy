/**
 * The four key encoders of the RIB benchmark: each maps a prefix record to the native key
 * of one storage backend.
 */
module Keys {
  import opened Values
  import opened Prefixes

  /**
   * `stringKey`: a fresh 5-byte key for IPv4 (the `To4` form of the address, then the length)
   * and a fresh 17-byte key for IPv6 (the `To16` form, then the length); any other record is
   * keyed by its `String()` text. Go's pointer cast from `[]byte` to `string` is a plain byte
   * sequence here.
   */
  function StringKey(p: Prefix): (k: seq<byte>)
    ensures p.IPv4Prefix? ==> |k| == 5 && k[4] == p.length && k[..4] == CopyInto(4, To4(p.addr))
    ensures p.IPv6Prefix? ==> |k| == 17 && k[16] == p.length && k[..16] == CopyInto(16, To16(p.addr))
    ensures p.IPv4Prefix? && |p.addr| == IPV4_LEN ==> k == p.addr + [p.length]
    ensures p.IPv6Prefix? && |p.addr| == IPV6_LEN ==> k == p.addr + [p.length]
  {
    match p
    case IPv4Prefix(addr, length) => CopyInto(5, To4(addr))[4 := length]
    case IPv6Prefix(addr, length) => CopyInto(17, To16(addr))[16 := length]
    case OtherPrefix(text) => text
  }

  /** An IPv4 key (5 bytes) and an IPv6 key (17 bytes) never coincide. */
  lemma StringKeyFamiliesDisjoint(p: Prefix, q: Prefix)
    requires p.IPv4Prefix? && q.IPv6Prefix?
    ensures StringKey(p) != StringKey(q)
  {
  }

  /** On decoded records, `stringKey` is injective: the key determines family, address and length. */
  lemma StringKeyInjective(p: Prefix, q: Prefix)
    requires WellFormed(p) && WellFormed(q)
    ensures StringKey(p) == StringKey(q) <==> p == q
  {
    var k := StringKey(p);
    if k == StringKey(q) {
      if p.IPv4Prefix? {
        assert q.IPv4Prefix?;
        assert p.addr == k[..4] == q.addr;
      } else {
        assert q.IPv6Prefix?;
        assert p.addr == k[..16] == q.addr;
      }
    }
  }

  /** Go's `binary.BigEndian.Uint32`: the first four bytes, most significant first. */
  function BigEndian32(b: seq<byte>): (r: u32)
    requires |b| >= 4
    ensures r as int % 0x100 == b[3] as int
    ensures r as int / 0x100 % 0x100 == b[2] as int
    ensures r as int / 0x1_0000 % 0x100 == b[1] as int
    ensures r as int / 0x100_0000 == b[0] as int
  {
    (b[0] as int * 0x100_0000 + b[1] as int * 0x1_0000 + b[2] as int * 0x100 + b[3] as int) as u32
  }

  lemma BigEndian32Injective(a: seq<byte>, b: seq<byte>)
    requires |a| == 4 && |b| == 4
    requires BigEndian32(a) == BigEndian32(b)
    ensures a == b
  {
    Base256DigitsUnique(a[0] as int, a[1] as int, a[2] as int, a[3] as int,
                        b[0] as int, b[1] as int, b[2] as int, b[3] as int);
  }

  /** Four base-256 digits are fixed by the number they spell. */
  lemma Base256DigitsUnique(a0: int, a1: int, a2: int, a3: int, b0: int, b1: int, b2: int, b3: int)
    requires 0 <= a0 < 0x100 && 0 <= a1 < 0x100 && 0 <= a2 < 0x100 && 0 <= a3 < 0x100
    requires 0 <= b0 < 0x100 && 0 <= b1 < 0x100 && 0 <= b2 < 0x100 && 0 <= b3 < 0x100
    requires a0 * 0x100_0000 + a1 * 0x1_0000 + a2 * 0x100 + a3 == b0 * 0x100_0000 + b1 * 0x1_0000 + b2 * 0x100 + b3
    ensures a0 == b0 && a1 == b1 && a2 == b2 && a3 == b3
  {
    var ra, rb := a1 * 0x1_0000 + a2 * 0x100 + a3, b1 * 0x1_0000 + b2 * 0x100 + b3;
    assert 0 <= ra < 0x100_0000 && 0 <= rb < 0x100_0000;
    assert a0 == b0;
    var sa, sb := a2 * 0x100 + a3, b2 * 0x100 + b3;
    assert 0 <= sa < 0x1_0000 && 0 <= sb < 0x1_0000;
    assert a1 == b1;
    assert a2 == b2;
  }

  /**
   * `intKey`: `uint64(length) << 32 | uint64(BigEndian.Uint32(addr))` for IPv4, and the
   * sentinel 0 for every other record. The two operands of `|` occupy disjoint bit ranges
   * (the length is a byte, shifted above the low 32 bits), so the OR is their sum.
   * `Uint32` panics on fewer than four bytes, hence the precondition.
   */
  function IntKey(p: Prefix): (k: u64)
    requires p.IPv4Prefix? ==> |p.addr| >= 4
    ensures p.IPv4Prefix? ==> k as int / TWO_32 == p.length as int
    ensures p.IPv4Prefix? ==> k as int % TWO_32 == BigEndian32(p.addr) as int
    ensures !p.IPv4Prefix? ==> k == 0
  {
    match p
    case IPv4Prefix(addr, length) => (length as int * TWO_32 + BigEndian32(addr) as int) as u64
    case _ => 0
  }

  /** The default route 0.0.0.0/0, whose int key is the sentinel. */
  const DEFAULT_ROUTE_V4: Prefix := IPv4Prefix([0, 0, 0, 0], 0)

  /** `intKey` tells IPv4 prefixes apart: the key determines address and length. */
  lemma IntKeyInjective(p: Prefix, q: Prefix)
    requires p.IPv4Prefix? && q.IPv4Prefix? && |p.addr| == IPV4_LEN && |q.addr| == IPV4_LEN
    ensures IntKey(p) == IntKey(q) <==> p == q
  {
    if IntKey(p) == IntKey(q) {
      BigEndian32Injective(p.addr, q.addr);
    }
  }

  /** Every non-IPv4 record gets the sentinel key, and the sentinel is the key of 0.0.0.0/0 and of no other IPv4 prefix. */
  lemma IntKeySentinel(p: Prefix, q: Prefix)
    requires !p.IPv4Prefix? && q.IPv4Prefix? && |q.addr| == IPV4_LEN
    ensures IntKey(p) == 0 == IntKey(DEFAULT_ROUTE_V4)
    ensures IntKey(p) == IntKey(q) <==> q == DEFAULT_ROUTE_V4
  {
    IntKeyInjective(q, DEFAULT_ROUTE_V4);
  }

  /**
   * `radixKey`: the address bytes followed by the length byte for IPv4, the empty key for
   * every other record.
   */
  function RadixKey(p: Prefix): (k: seq<byte>)
    ensures p.IPv4Prefix? ==> |k| == |p.addr| + 1 && k[..|p.addr|] == p.addr && k[|p.addr|] == p.length
    ensures !p.IPv4Prefix? ==> k == []
  {
    match p
    case IPv4Prefix(addr, length) => addr + [length]
    case _ => []
  }

  /** `radixKey` tells every two IPv4 prefixes apart, and no IPv4 key is the shared non-IPv4 key. */
  lemma RadixKeyInjective(p: Prefix, q: Prefix)
    requires p.IPv4Prefix?
    ensures RadixKey(p) == RadixKey(q) <==> p == q
  {
    var k := RadixKey(p);
    if k == RadixKey(q) {
      assert q.IPv4Prefix?;
      assert p.addr == k[..|p.addr|] == q.addr;
    }
  }

  /** The character `%08b` prints for bit `i` of an address. */
  function BitChar(addr: seq<byte>, i: nat): (c: char)
    requires i < 8 * |addr|
    ensures c == '0' || c == '1'
  {
    if AddrBit(addr, i) then '1' else '0'
  }

  /** `fmt.Fprintf(&buffer, "%08b", b)`: the eight bits of a byte, most significant first. */
  function ByteBits(b: byte): (s: string)
    ensures |s| == 8
    ensures forall j :: 0 <= j < 8 ==> (s[j] == '1' <==> ByteBit(b, j)) && (s[j] == '0' || s[j] == '1')
  {
    seq(8, j requires 0 <= j < 8 => if ByteBit(b, j) then '1' else '0')
  }

  /**
   * What `radixStringkey` returns: for IPv4, the first `length` bits of the address as '0'/'1'
   * characters, most significant first; the empty string for every other record.
   */
  function RadixStringKeyOf(p: Prefix): (k: string)
    requires p.IPv4Prefix? ==> p.length as int <= 8 * |p.addr|
    ensures p.IPv4Prefix? ==> |k| == p.length as int
    ensures forall i :: 0 <= i < |k| ==> k[i] == '0' || k[i] == '1'
    ensures !p.IPv4Prefix? ==> k == ""
  {
    if p.IPv4Prefix? then seq(p.length as int, i requires 0 <= i < p.length as int => BitChar(p.addr, i)) else ""
  }

  /**
   * `radixStringkey`, as the loop computes it: print the leading bytes (at most `length` of
   * them) in `%08b` into a buffer, then cut the buffer at `length` characters.
   */
  method RadixStringKey(p: Prefix) returns (k: string)
    requires p.IPv4Prefix? ==> p.length as int <= 8 * |p.addr|
    ensures k == RadixStringKeyOf(p)
  {
    match p
    case IPv4Prefix(b, max) =>
      var buffer: string := "";
      var i := 0;
      while i < |b| && i < max as int
        invariant 0 <= i <= |b| && i <= max as int
        invariant |buffer| == 8 * i
        invariant forall j :: 0 <= j < |buffer| ==> buffer[j] == BitChar(b, j)
      {
        buffer := buffer + ByteBits(b[i]);
        forall j | 8 * i <= j < 8 * i + 8
          ensures buffer[j] == BitChar(b, j)
        {
          assert j / 8 == i && j % 8 == j - 8 * i;
        }
        i := i + 1;
      }
      k := buffer[..max];
    case IPv6Prefix(_, _) =>
      k := "";
    case OtherPrefix(_) =>
      k := "";
  }

  /** Character `i` of the key is bit `i` of the address. */
  lemma RadixStringKeyBits(p: Prefix, i: nat)
    requires p.IPv4Prefix? && p.length as int <= 8 * |p.addr| && i < p.length as int
    ensures RadixStringKeyOf(p)[i] == '1' <==> AddrBit(p.addr, i)
  {
  }

  /** Keys of the same address nest: a shorter prefix's key is a prefix of a longer one's. */
  lemma RadixStringKeyNested(addr: seq<byte>, l1: byte, l2: byte)
    requires l1 <= l2 && l2 as int <= 8 * |addr|
    ensures RadixStringKeyOf(IPv4Prefix(addr, l1)) <= RadixStringKeyOf(IPv4Prefix(addr, l2))
  {
  }

  /**
   * The bit-string key tells canonical prefixes apart (host bits zero, addresses of one size):
   * the key fixes the length and the network bits, and the host bits are zero.
   */
  lemma RadixStringKeyInjective(p: Prefix, q: Prefix)
    requires Canonical(p) && Canonical(q) && |p.addr| == |q.addr|
    requires p.length as int <= 8 * |p.addr| && q.length as int <= 8 * |q.addr|
    ensures RadixStringKeyOf(p) == RadixStringKeyOf(q) <==> p == q
  {
    if RadixStringKeyOf(p) == RadixStringKeyOf(q) {
      assert p.length == q.length;
      forall i | 0 <= i < 8 * |p.addr|
        ensures AddrBit(p.addr, i) <==> AddrBit(q.addr, i)
      {
        if i < p.length as int {
          RadixStringKeyBits(p, i);
          RadixStringKeyBits(q, i);
        }
      }
      AddrBitsDetermineAddr(p.addr, q.addr);
    }
  }

  /** Two prefixes that differ only in a host bit share a bit-string key: 10.0.0.1/24 and 10.0.0.2/24. */
  lemma RadixStringKeyIgnoresHostBits()
    ensures IPv4Prefix([10, 0, 0, 1], 24) != IPv4Prefix([10, 0, 0, 2], 24)
    ensures RadixStringKeyOf(IPv4Prefix([10, 0, 0, 1], 24)) == RadixStringKeyOf(IPv4Prefix([10, 0, 0, 2], 24))
  {
    var a: seq<byte>, b: seq<byte> := [10, 0, 0, 1], [10, 0, 0, 2];
    forall i | 0 <= i < 24
      ensures BitChar(a, i) == BitChar(b, i)
    {
      assert i / 8 < 3;
      assert a[i / 8] == b[i / 8];
    }
  }
}

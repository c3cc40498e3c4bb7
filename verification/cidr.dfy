/** The subnet the plugin scans, as an IPv4 network address and prefix
    length. Validation mirrors what `ipaddress.ip_network` accepts for an
    IPv4 network in strict mode, and enumeration yields every address of
    the block, network and broadcast addresses included, as iterating a
    `netaddr.IPNetwork` does. A prefix of length `p` covers the
    2^(32 - p) contiguous addresses that share their leading `p` bits with
    the network address (section 3.1 of RFC 4632). */
module Cidr {

  const AddressSpace: nat := 0x1_0000_0000

  /** An IPv4 address as a 32-bit number. */
  type Address = a: nat | a < 0x1_0000_0000

  datatype Subnet = Subnet(base: nat, prefix: nat)

  /** The subnet configured in the plugin's constructor, 10.11.0.0/24. */
  const DefaultSubnet: Subnet := Subnet(0x0A0B_0000, 24)

  function Pow2(n: nat): (r: nat)
    ensures r >= 1
  {
    if n == 0 then 1 else 2 * Pow2(n - 1)
  }

  lemma {:induction false} Pow2Add(a: nat, b: nat)
    ensures Pow2(a + b) == Pow2(a) * Pow2(b)
    decreases a
  {
    if a > 0 {
      Pow2Add(a - 1, b);
      assert Pow2(a + b) == 2 * Pow2(a - 1 + b);
    }
  }

  /** The number of addresses a prefix of this length covers. */
  function BlockSize(prefix: nat): nat
    requires prefix <= 32
  {
    Pow2(32 - prefix)
  }

  /** A well-formed IPv4 network: a prefix length of at most 32 and a
      network address with no bits set below the prefix. */
  predicate Valid(s: Subnet) {
    s.prefix <= 32 && s.base < AddressSpace && s.base % BlockSize(s.prefix) == 0
  }

  /** `a` shares its leading `prefix` bits with the network address. */
  ghost predicate InSubnet(a: nat, s: Subnet)
    requires s.prefix <= 32
  {
    a < AddressSpace && a / BlockSize(s.prefix) == s.base / BlockSize(s.prefix)
  }

  lemma MultiplyMonotonic(x: nat, y: nat, size: nat)
    requires x <= y
    ensures x * size <= y * size
  {
  }

  /** Quotient and remainder are unique. */
  lemma DivUnique(a: nat, size: nat, q: nat, r: nat)
    requires size > 0 && r < size && a == q * size + r
    ensures a / size == q
  {
    var q', r' := a / size, a % size;
    assert a == q' * size + r';
    if q' < q {
      MultiplyMonotonic(q' + 1, q, size);
      assert false;
    } else if q' > q {
      MultiplyMonotonic(q + 1, q', size);
      assert false;
    }
  }

  /** Within a block aligned at `base`, sharing the quotient by the block
      size is the same as lying in `[base, base + size)`. */
  lemma SameBlockIsRange(a: nat, base: nat, size: nat)
    requires size > 0 && base % size == 0
    ensures a / size == base / size <==> base <= a < base + size
  {
    var q := base / size;
    assert base == q * size + base % size;
    if a / size == q {
      assert a == q * size + a % size;
    }
    if base <= a < base + size {
      DivUnique(a, size, q, a - base);
    }
  }

  lemma Pow2Of32()
    ensures Pow2(32) == AddressSpace
  {
    assert Pow2(4) == 16;
    Pow2Add(4, 4);
    Pow2Add(8, 8);
    Pow2Add(16, 16);
  }

  /** A valid block ends inside the IPv4 address space. */
  lemma BlockFits(s: Subnet)
    requires Valid(s)
    ensures s.base + BlockSize(s.prefix) <= AddressSpace
  {
    Pow2Add(s.prefix, 32 - s.prefix);
    Pow2Of32();
    AlignedBlockFits(s.base, BlockSize(s.prefix), Pow2(s.prefix));
  }

  /** A block aligned at a multiple of its size, starting below the end of
      a space of whole blocks, ends inside that space. */
  lemma AlignedBlockFits(base: nat, size: nat, blocks: nat)
    requires size > 0 && base % size == 0 && base < blocks * size
    ensures base + size <= blocks * size
  {
    var q := base / size;
    assert base == q * size by {
      assert base == q * size + base % size;
    }
    assert q < blocks by {
      if q >= blocks {
        MultiplyMonotonic(blocks, q, size);
      }
    }
    MultiplyMonotonic(q + 1, blocks, size);
    MultiplySucc(q, size);
  }

  lemma MultiplySucc(q: nat, size: nat)
    ensures (q + 1) * size == q * size + size
  {
  }

  /** What strict `ipaddress.ip_network` accepts: an IPv4 address with a
      prefix length of at most 32 that is the lowest address of its block,
      so that no host bit is set. */
  lemma ValidIsNetworkAddress(s: Subnet)
    ensures Valid(s) <==>
              && s.prefix <= 32
              && s.base < AddressSpace
              && forall a: nat :: InSubnet(a, s) ==> s.base <= a
  {
    if s.prefix <= 32 && s.base < AddressSpace {
      var size := BlockSize(s.prefix);
      if s.base % size == 0 {
        forall a: nat | InSubnet(a, s)
          ensures s.base <= a
        {
          SameBlockIsRange(a, s.base, size);
        }
      } else {
        var low := s.base - s.base % size;
        RoundDownSameBlock(s.base, size);
        assert InSubnet(low, s);
      }
    }
  }

  /** Rounding an address down to a multiple of the block size stays in
      its block. */
  lemma RoundDownSameBlock(a: nat, size: nat)
    requires size > 0
    ensures a % size <= a && (a - a % size) / size == a / size
  {
    assert a == (a / size) * size + a % size;
    DivUnique(a - a % size, size, a / size, 0);
  }

  /** The addresses scanned for a subnet, in ascending order. */
  function Enumerate(s: Subnet): (addrs: seq<Address>)
    requires Valid(s)
    ensures |addrs| == BlockSize(s.prefix)
    ensures forall i, j :: 0 <= i < j < |addrs| ==> addrs[i] < addrs[j]
    ensures forall a: nat :: a in addrs <==> InSubnet(a, s)
  {
    var size := BlockSize(s.prefix);
    BlockFits(s);
    var addrs := seq(size, i requires 0 <= i < size => (s.base + i) as Address);
    forall a: nat
      ensures a in addrs <==> InSubnet(a, s)
    {
      SameBlockIsRange(a, s.base, size);
      if s.base <= a < s.base + size {
        assert addrs[a - s.base] == a;
      }
    }
    addrs
  }

  /** The configured subnet passes validation and yields 256 addresses. */
  lemma DefaultSubnetScansWholeBlock()
    ensures Valid(DefaultSubnet)
    ensures |Enumerate(DefaultSubnet)| == 256
  {
    assert BlockSize(24) == 256;
  }
}

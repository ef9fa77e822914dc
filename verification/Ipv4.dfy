/**
 IPv4 addresses, CIDR networks and subnet masks (src/services/utils.rs and the
 operations of `Ipv4Net` the router uses).  Addresses are 32-bit numbers.
 */
module Ipv4 {
  import opened Options
  import opened Naturals

  type Ip = x: nat | x < 0x1_0000_0000

  lemma Pow2Of32()
    ensures Pow2(32) == 0x1_0000_0000
  {
    assert Pow2(8) == 0x100;
    Pow2Splits(8, 8);
    Pow2Splits(16, 16);
  }

  /** The number with its `bits` lowest bits cleared. */
  function ClearLow(x: nat, bits: nat): (r: nat) {
    if bits == 0 then x else 2 * ClearLow(x / 2, bits - 1)
  }

  // Clearing bits gives the start of the aligned block around the number ...
  lemma {:induction false} ClearLowBlock(x: nat, bits: nat)
    ensures ClearLow(x, bits) <= x < ClearLow(x, bits) + Pow2(bits)
  {
    if bits > 0 {
      ClearLowBlock(x / 2, bits - 1);
    }
  }

  // ... which is the same for every member of the block.
  lemma {:induction false} SameBlock(x: nat, y: nat, bits: nat)
    requires ClearLow(x, bits) <= y < ClearLow(x, bits) + Pow2(bits)
    ensures ClearLow(y, bits) == ClearLow(x, bits)
  {
    if bits > 0 {
      SameBlock(x / 2, y / 2, bits - 1);
    }
  }

  // A larger block starts no later.
  lemma {:induction false} LargerBlock(x: nat, bits: nat, more: nat)
    requires bits <= more
    ensures ClearLow(x, more) <= ClearLow(x, bits)
  {
    if bits == 0 {
      ClearLowBlock(x, more);
    } else {
      LargerBlock(x / 2, bits - 1, more - 1);
    }
  }

  // Blocks of 32-bit numbers stay within 32 bits.
  lemma {:induction false} BlockFits(x: nat, bits: nat, width: nat)
    requires bits <= width && x < Pow2(width)
    ensures ClearLow(x, bits) + Pow2(bits) <= Pow2(width)
  {
    if bits > 0 {
      BlockFits(x / 2, bits - 1, width - 1);
    }
  }

  /** An address together with its prefix length. */
  datatype Net = Net(addr: Ip, prefix: nat) {
    predicate Valid() {
      prefix <= 32
    }

    function Size(): (r: nat)
      requires Valid()
      ensures r > 0
    {
      Pow2(32 - prefix)
    }

    /** The address with the host bits cleared. */
    function Network(): (r: Ip)
      requires Valid()
      ensures r <= addr < r + Size()
    {
      ClearLowBlock(addr, 32 - prefix);
      ClearLow(addr, 32 - prefix)
    }

    /** The address with the host bits set. */
    function Broadcast(): (r: Ip)
      requires Valid()
      ensures Network() <= addr <= r
    {
      Pow2Of32();
      BlockFits(addr, 32 - prefix, 32);
      Network() + Size() - 1
    }

    predicate Contains(ip: Ip)
      requires Valid()
    {
      Network() <= ip <= Broadcast()
    }
  }

  type Cidr = n: Net | n.Valid() witness Net(0, 32)

  predicate IsSubnetOverlap(a: Net, b: Net)
    requires a.Valid() && b.Valid()
  {
    a.Contains(b.Network()) || b.Contains(a.Network())
  }

  // If an address lies in both blocks, the smaller one starts inside the larger.
  lemma SharedAddress(large: Net, small: Net, ip: Ip)
    requires large.Valid() && small.Valid() && large.prefix <= small.prefix
    requires large.Contains(ip) && small.Contains(ip)
    ensures large.Contains(small.Network())
  {
    SameBlock(large.addr, ip, 32 - large.prefix);
    SameBlock(small.addr, ip, 32 - small.prefix);
    LargerBlock(ip, 32 - small.prefix, 32 - large.prefix);
  }

  /** The overlap test, which looks at the two network addresses only, is exact. */
  lemma OverlapIffShared(a: Net, b: Net)
    requires a.Valid() && b.Valid()
    ensures IsSubnetOverlap(a, b) <==> exists ip: Ip :: a.Contains(ip) && b.Contains(ip)
  {
    if IsSubnetOverlap(a, b) {
      var ip := if a.Contains(b.Network()) then b.Network() else a.Network();
      assert a.Contains(ip) && b.Contains(ip);
    }
    if ip: Ip :| a.Contains(ip) && b.Contains(ip) {
      if a.prefix <= b.prefix {
        SharedAddress(a, b, ip);
      } else {
        SharedAddress(b, a, ip);
      }
    }
  }

  // ---- masks ----

  /** The number of leading one bits of a number of `width` bits. */
  function LeadingOnes(m: nat, width: nat): (r: nat)
    requires m < Pow2(width)
    ensures r <= width
  {
    if width == 0 || m < Pow2(width - 1) then 0 else 1 + LeadingOnes(m - Pow2(width - 1), width - 1)
  }

  /** The number of trailing zero bits of a number of `width` bits. */
  function TrailingZeros(m: nat, width: nat): (r: nat)
    requires m < Pow2(width)
    ensures r <= width
  {
    if width == 0 || m % 2 == 1 then 0 else 1 + TrailingZeros(m / 2, width - 1)
  }

  function MaskToPrefixLen(mask: Ip): (r: Option<nat>) {
    Pow2Of32();
    var ones := LeadingOnes(mask, 32);
    if ones + TrailingZeros(mask, 32) != 32 then None else Some(ones)
  }

  function PrefixLenToMask(prefix: nat): (r: Ip) {
    if prefix == 0 || prefix > 32 then
      0
    else
      Pow2Of32();
      Pow2Grows(32 - prefix, 32);
      Pow2(32) - Pow2(32 - prefix)
  }

  // A run of `ones` ones above zeros has that many leading ones ...
  lemma {:induction false} OnesThenZerosLead(width: nat, ones: nat)
    requires ones <= width
    ensures Pow2(width - ones) <= Pow2(width)
    ensures LeadingOnes(Pow2(width) - Pow2(width - ones), width) == ones
    decreases ones
  {
    Pow2Grows(width - ones, width);
    if ones > 0 {
      OnesThenZerosLead(width - 1, ones - 1);
    }
  }

  // ... and the rest trailing zeros.
  lemma {:induction false} OnesThenZerosTrail(width: nat, ones: nat)
    requires ones <= width
    ensures Pow2(width - ones) <= Pow2(width)
    ensures TrailingZeros(Pow2(width) - Pow2(width - ones), width) == width - ones
    decreases width - ones
  {
    Pow2Grows(width - ones, width);
    if ones < width {
      OnesThenZerosTrail(width - 1, ones);
      assert Pow2(width - ones) == 2 * Pow2(width - 1 - ones);
    }
  }

  // A number is at least its leading ones ...
  lemma {:induction false} LeadingOnesBound(m: nat, width: nat)
    requires m < Pow2(width)
    ensures Pow2(width) - Pow2(width - LeadingOnes(m, width)) <= m
  {
    if width > 0 && m >= Pow2(width - 1) {
      LeadingOnesBound(m - Pow2(width - 1), width - 1);
    }
  }

  // ... and unchanged by clearing its trailing zeros.
  lemma {:induction false} TrailingZerosClear(m: nat, width: nat)
    requires m < Pow2(width)
    ensures ClearLow(m, TrailingZeros(m, width)) == m
  {
    if width > 0 && m % 2 == 0 {
      TrailingZerosClear(m / 2, width - 1);
    }
  }

  // The largest number of a width with `zeros` low bits cleared.
  lemma {:induction false} ClearedBelowTop(m: nat, width: nat, zeros: nat)
    requires zeros <= width && m < Pow2(width) && ClearLow(m, zeros) == m
    requires Pow2(width) - Pow2(zeros) <= m
    ensures m == Pow2(width) - Pow2(zeros)
    decreases zeros
  {
    if zeros > 0 {
      ClearedBelowTop(m / 2, width - 1, zeros - 1);
    }
  }

  /** The two translations are inverse: from every prefix length, and from every mask that is accepted. */
  lemma MaskRoundTrip(prefix: nat)
    requires prefix <= 32
    ensures MaskToPrefixLen(PrefixLenToMask(prefix)) == Some(prefix)
  {
    Pow2Of32();
    OnesThenZerosLead(32, prefix);
    OnesThenZerosTrail(32, prefix);
  }

  /** A mask is accepted exactly if it is ones followed by zeros, and then translates back to itself. */
  lemma ContiguousMask(mask: Ip)
    ensures MaskToPrefixLen(mask).Some? <==> exists p: nat :: p <= 32 && PrefixLenToMask(p) == mask
    ensures MaskToPrefixLen(mask).Some? ==>
              MaskToPrefixLen(mask).value <= 32 && PrefixLenToMask(MaskToPrefixLen(mask).value) == mask
  {
    Pow2Of32();
    if MaskToPrefixLen(mask).Some? {
      var ones := MaskToPrefixLen(mask).value;
      LeadingOnesBound(mask, 32);
      TrailingZerosClear(mask, 32);
      ClearedBelowTop(mask, 32, 32 - ones);
      assert PrefixLenToMask(ones) == mask;
    } else if p: nat :| p <= 32 && PrefixLenToMask(p) == mask {
      MaskRoundTrip(p);
    }
  }
}

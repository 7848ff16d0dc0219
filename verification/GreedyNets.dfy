/**
 dni/go/sdk/utils/cidr.go, Range.ToIPNets: the left-to-right loop that covers a
 range of byte addresses with the largest aligned block that fits each time.
 */
module GreedyNets {
  import opened Bits
  import opened Blocks
  import opened ByteAddress

  // net.IPNet: an address and a mask of the same length.
  datatype IPNet = IPNet(ip: Addr, mask: Addr)

  // The block a net stands for: as many host bits as the mask has low zeros.
  function NetBlock(n: IPNet): Block {
    Block(Value(n.ip), TrailingZerosOf(Value(n.mask), 8 * |n.mask|))
  }

  function NetBlocks(ns: seq<IPNet>): (bs: seq<Block>)
    ensures |bs| == |ns| && forall i :: 0 <= i < |ns| ==> bs[i] == NetBlock(ns[i])
  {
    seq(|ns|, i requires 0 <= i < |ns| => NetBlock(ns[i]))
  }

  // n bytes of address and a mask that is a prefix mask
  predicate NetOk(net: IPNet, n: nat) {
    && |net.ip| == n && |net.mask| == n
    && exists ones :: 0 <= ones <= 8 * n && net.mask == CidrMask(ones, n)
  }

  lemma {:induction false} LowBitOfMask(w: nat, k: nat)
    requires k < w
    ensures Pow2(k) < Pow2(w) && LowBit(Pow2(w) - Pow2(k)) == k
    decreases w
  {
    Pow2Grows(k, w);
    if k > 0 {
      LowBitOfMask(w - 1, k - 1);
      LowBitTwice(Pow2(w - 1) - Pow2(k - 1), 0);
    } else {
      LowBitTwice(Pow2(w - 1) - 1, 1);
    }
  }

  // A prefix mask of `ones` bits leaves 8 * n - ones host bits.
  lemma HostBits(ones: nat, n: nat)
    requires ones <= 8 * n
    ensures TrailingZerosOf(Value(CidrMask(ones, n)), 8 * n) == 8 * n - ones
  {
    hide Pow2, Value, CidrMask;
    MaskValue(ones, n);
    if ones > 0 {
      LowBitOfMask(8 * n, 8 * n - ones);
    }
  }

  // ---------- the choice of the block ----------

  function Max(a: int, b: int): int { if a < b then b else a }

  /** `max(prefixLength(xor(addOne(end), s)), ipBits - trailingZeros(s))` as
      arithmetic on w-bit numbers. */
  function Prefix(s: nat, end: nat, w: nat): int {
    var x := Xor(Successor(end, w), s);
    Max(if x == 0 then 0 else w - TopBit(x), w - TrailingZerosOf(s, w))
  }

  lemma AlignedSteps(a: nat, b: nat, k: nat)
    requires Aligned(a, k) && Aligned(b, k) && a < b
    ensures a + Pow2(k) <= b
  {
  }

  // With e the first address after the range, the highest bit in which s and e
  // differ bounds the blocks that still fit.
  lemma FitsBelowTop(s: nat, e: nat, k: nat)
    requires s < e && Aligned(s, k)
    ensures Xor(e, s) > 0
    ensures k <= TopBit(Xor(e, s)) ==> s + Pow2(k) <= e
    ensures k > TopBit(Xor(e, s)) ==> s + Pow2(k) > e
  {
    hide Aligned, Pow2, Down, TopBit, Xor;
    XorSymmetric(e, s);
    XorTopBit(s, e);
    var p := TopBit(Xor(s, e));
    DownBounds(e, p);
    DownBounds(s, p);
    if k <= p {
      AlignedWeaken(Down(e, p), k, p);
      AlignedSteps(s, Down(e, p), k);
    } else {
      AlignedWeaken(s, p + 1, k);
      DownUnique2(s, p + 1);
      DownBounds(e, p + 1);
      Pow2Grows(p + 1, k);
    }
  }

  lemma DownUnique2(s: nat, k: nat)
    requires Aligned(s, k)
    ensures Down(s, k) == s
  {
  }

  lemma {:induction false} XorSymmetric(a: nat, b: nat)
    ensures Xor(a, b) == Xor(b, a)
    decreases a + b
  {
    if a != 0 || b != 0 {
      XorSymmetric(a / 2, b / 2);
    }
  }

  lemma LowZeros(s: nat, w: nat)
    requires s < Pow2(w)
    ensures TrailingZerosOf(s, w) <= w && Aligned(s, TrailingZerosOf(s, w))
    ensures s > 0 ==> !Aligned(s, TrailingZerosOf(s, w) + 1)
  {
    hide Aligned, TopBit, LowBit, Pow2;
    ZeroAligned(w);
    if s > 0 {
      LowBitAligned(s);
      TopBitBelow(s, w);
    }
  }

  lemma PrefixBeforeLast(s: nat, end: nat, w: nat)
    requires s <= end && end + 1 < Pow2(w)
    ensures 0 <= Prefix(s, end, w) <= w
    ensures LargestFit(Block(s, w - Prefix(s, end, w)), s, end + 1)
  {
    hide Aligned, TopBit, LowBit, Xor, Pow2, TrailingZerosOf;
    var z, e := TrailingZerosOf(s, w), end + 1;
    LowZeros(s, w);
    XorBound(e, s, w);
    FitsBelowTop(s, e, z);
    var p := TopBit(Xor(e, s));
    TopBitBelow(Xor(e, s), w);
    if p < z {
      AlignedWeaken(s, p + 1, z);
      AlignedWeaken(s, p, z);
      FitsBelowTop(s, e, p + 1);
      FitsBelowTop(s, e, p);
    } else {
      assert s > 0 by { ZeroHasAll(s, w); }
    }
  }

  lemma ZeroHasAll(s: nat, w: nat)
    ensures s == 0 ==> TrailingZerosOf(s, w) == w
  {
  }

  // At the end of the address space the low zeros of s decide alone.
  lemma PrefixWraps(s: nat, w: nat)
    requires s < Pow2(w)
    ensures Prefix(s, Pow2(w) - 1, w) == w - TrailingZerosOf(s, w)
  {
    hide Aligned, TopBit, LowBit, Xor, Pow2;
    XorWithZero(s);
    if s > 0 {
      LowBitAligned(s);
    }
  }

  lemma PrefixAtLast(s: nat, w: nat)
    requires s < Pow2(w)
    ensures 0 <= Prefix(s, Pow2(w) - 1, w) <= w
    ensures LargestFit(Block(s, w - Prefix(s, Pow2(w) - 1, w)), s, Pow2(w))
  {
    hide Aligned, Pow2, Prefix, TrailingZerosOf;
    LowZeros(s, w);
    PrefixWraps(s, w);
    var z := TrailingZerosOf(s, w);
    PowerAligned(w);
    AlignedWeaken(Pow2(w), z, w);
    AlignedSteps(s, Pow2(w), z);
    ZeroHasAll(s, w);
    PowerDoubles(w);
  }

  lemma PowerDoubles(w: nat)
    ensures Pow2(w + 1) > Pow2(w)
  {
  }

  // The computed prefix is that of the largest block that fits, also when the
  // range ends at the last address and addOne wraps to zero.
  lemma PrefixIsLargestFit(s: nat, end: nat, w: nat)
    requires s <= end < Pow2(w)
    ensures 0 <= Prefix(s, end, w) <= w
    ensures LargestFit(Block(s, w - Prefix(s, end, w)), s, end + 1)
  {
    hide LargestFit, Prefix, Pow2;
    if end + 1 < Pow2(w) {
      PrefixBeforeLast(s, end, w);
    } else {
      PrefixAtLast(s, w);
    }
  }

  // One step of the loop peels the first block off the tiling.
  lemma TilingStep(b: Block, s: nat, end: nat)
    requires s < end && LargestFit(b, s, end)
    ensures Tiling(s, end) == [b] + Tiling(b.End(), end)
  {
    hide LargestFit;
    LargestFitUnique(b, FitFrom(s, end, 0), s, end);
  }

  // The last address of a net whose base is aligned.
  lemma LastOfNet(s: nat, ones: nat, n: nat)
    requires ones <= 8 * n && Aligned(s, 8 * n - ones)
    ensures Value(CidrMask(ones, n)) < Pow2(8 * n)
    ensures Or(s, Not(Value(CidrMask(ones, n)), 8 * n)) == s + Pow2(8 * n - ones) - 1
  {
    hide Aligned, Pow2, Or, Value, CidrMask;
    var k := 8 * n - ones;
    MaskValue(ones, n);
    OrLowMask(s, k);
    DownUnique2(s, k);
  }

  /** The loop returns the tiling of the range, for addresses of any length and
      also when the range ends at the last address. */
  method ToIPNets(start: Addr, end: Addr) returns (result: seq<IPNet>)
    requires |start| == |end| && Value(start) <= Value(end)
    ensures forall i :: 0 <= i < |result| ==> NetOk(result[i], |start|)
    ensures NetBlocks(result) == Tiling(Value(start), Value(end) + 1)
  {
    hide Value, Pow2, Aligned, TopBit, LowBit, Xor, Or, LargestFit, Tiling, CidrMask, NetOk;
    var s := start;
    var ipBits := |s| * 8;
    result := [];
    ValueBound(end);
    while true
      invariant |s| == |start| && Value(s) <= Value(end)
      invariant forall i :: 0 <= i < |result| ==> NetOk(result[i], |start|)
      invariant Tiling(Value(start), Value(end) + 1) == NetBlocks(result) + Tiling(Value(s), Value(end) + 1)
      decreases Value(end) - Value(s)
    {
      var e1 := AddOne(end);
      var x := XorBytes(e1, s);
      var pl := PrefixLength(x);
      var tz := TrailingZeros(s);
      var cidr := Max(pl, ipBits - tz);
      assert cidr == Prefix(Value(s), Value(end), ipBits);
      PrefixIsLargestFit(Value(s), Value(end), ipBits);
      var ipNet := IPNet(s, CidrMask(cidr, |s|));
      ghost var b := Block(Value(s), ipBits - cidr);
      assert NetBlock(ipNet) == b by { HostBits(cidr, |s|); }
      assert NetOk(ipNet, |start|) by { MaskOk(ipNet, cidr, |start|); }
      TilingStep(b, Value(s), Value(end) + 1);
      assert NetBlocks(result + [ipNet]) == NetBlocks(result) + [b];
      result := result + [ipNet];
      var tmp := LastIP(s, ipNet.mask);
      assert Aligned(b.lo, b.bits) && b.End() <= Value(end) + 1 by { FitFacts(b, Value(s), Value(end) + 1); }
      LastOfNet(Value(s), cidr, |s|);
      CompareIsNumeric(tmp, end);
      if !LessThan(tmp, end) {
        assert Tiling(b.End(), Value(end) + 1) == [] by { EmptyTiling(b.End(), Value(end) + 1); }
        return;
      }
      s := AddOne(tmp);
    }
  }

  lemma MaskOk(net: IPNet, ones: nat, n: nat)
    requires ones <= 8 * n && |net.ip| == n && net.mask == CidrMask(ones, n)
    ensures NetOk(net, n)
  {
  }

  lemma FitFacts(b: Block, s: nat, end: nat)
    requires LargestFit(b, s, end)
    ensures Aligned(b.lo, b.bits) && b.End() <= end
  {
  }

  lemma EmptyTiling(s: nat, end: nat)
    requires s >= end
    ensures Tiling(s, end) == []
  {
  }
}

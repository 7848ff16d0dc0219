/**
 dni/framework/formats/cidr.cc, part two: the recursive splitter that turns a
 range of IPv4 addresses into CIDR blocks.
 */
module Splitter {
  import opened Bits
  import opened Blocks

  datatype Cidr = Cidr(ip: nat, len: int)

  // The block a prefix of a w-bit address stands for: w - len host bits.
  function Net(w: nat, c: Cidr): Block
    requires c.len <= w
  {
    Block(c.ip, w - c.len)
  }

  predicate IsNet(w: nat, c: Cidr) {
    0 <= c.len <= w && c.ip < Pow2(w) && Net(w, c).Ok()
  }

  predicate AllNets(w: nat, cs: seq<Cidr>) { forall i :: 0 <= i < |cs| ==> IsNet(w, cs[i]) }

  function Nets(w: nat, cs: seq<Cidr>): (bs: seq<Block>)
    requires AllNets(w, cs)
    ensures |bs| == |cs| && forall i :: 0 <= i < |cs| ==> bs[i] == Net(w, cs[i])
  {
    seq(|cs|, i requires 0 <= i < |cs| => Net(w, cs[i]))
  }

  // 1u << k, defined for shifts below the width of the word
  function Bit(w: nat, k: int): nat
    requires 0 <= k < w
  {
    Pow2(k)
  }

  function SetBit(w: nat, ip: nat, bitno: int): nat
    requires 1 <= bitno <= w
  {
    Or(ip, Bit(w, w - bitno))
  }

  function Netmask(w: nat, len: int): (m: nat)
    requires 0 <= len <= w
    ensures m == Pow2(w) - Pow2(w - len)
  {
    if len == 0 then Not(Pow2(w) - 1, w)
    else
      Pow2Grows(w - len, w);
      Not(Bit(w, w - len) - 1, w)
  }

  function Broadcast(w: nat, ip: nat, len: int): (b: nat)
    requires 0 <= len <= w
    ensures b == Down(ip, w - len) + Pow2(w - len) - 1
  {
    OrLowMask(ip, w - len);
    Or(ip, Not(Netmask(w, len), w))
  }

  function Network(w: nat, ip: nat, len: int): (n: nat)
    requires 0 <= len <= w && ip < Pow2(w)
    ensures n == Down(ip, w - len)
  {
    Pow2Grows(w - len, w);
    AndHighMask(ip, w - len, w);
    And(ip, Netmask(w, len))
  }

  // The last address of a block.
  lemma BroadcastOfNet(w: nat, ip: nat, len: int)
    requires IsNet(w, Cidr(ip, len))
    ensures Broadcast(w, ip, len) == ip + Pow2(w - len) - 1
    ensures ip + Pow2(w - len) <= Pow2(w)
  {
    DownUnique(ip, ip, w - len);
    InWord(ip, w - len, w);
  }

  lemma InWord(x: nat, k: nat, w: nat)
    requires k <= w && Aligned(x, k) && x < Pow2(w)
    ensures x + Pow2(k) <= Pow2(w)
  {
  }

  // The halves of a block.
  lemma HalvesOfNet(w: nat, ip: nat, len: int)
    requires IsNet(w, Cidr(ip, len)) && len < w
    ensures SetBit(w, ip, len + 1) == ip + Pow2(w - len - 1)
    ensures IsNet(w, Cidr(ip, len + 1)) && IsNet(w, Cidr(ip + Pow2(w - len - 1), len + 1))
  {
    Halves(ip, w - len - 1);
    OrBit(ip, w - len - 1);
    InWord(ip, w - len, w);
  }

  /** Outcome of one call: the status, what it appended to the vector, how many
      calls it took and how deep they nested below this one. */
  datatype Split = Split(ok: bool, cidrs: seq<Cidr>, calls: nat, depth: nat)

  function Nested(s: Split): Split { Split(s.ok, s.cidrs, s.calls + 1, s.depth + 1) }

  function Max(a: nat, b: nat): nat { if a < b then b else a }

  // split_range on addresses of w bits; the source has w = 32.
  function SplitRange(w: nat, ip: nat, len: int, lo: nat, hi: nat): Split
    decreases w + 1 - len
  {
    if len < 0 || len > w then Split(false, [], 1, 0)
    else if lo < ip || hi > Broadcast(w, ip, len) then Split(false, [], 1, 0)
    else if lo == ip && hi == Broadcast(w, ip, len) then Split(true, [Cidr(ip, len)], 1, 0)
    // Whatever the undefined bit number w + 1 yields, the next call rejects the length.
    else if len == w then Split(false, [], 2, 1)
    else
      var upper := SetBit(w, ip, len + 1);
      if hi < upper then Nested(SplitRange(w, ip, len + 1, lo, hi))
      else if lo >= upper then Nested(SplitRange(w, upper, len + 1, lo, hi))
      else
        var left := SplitRange(w, ip, len + 1, lo, Broadcast(w, ip, len + 1));
        if !left.ok then Nested(left)
        else
          var right := SplitRange(w, upper, len + 1, upper, hi);
          Split(right.ok, left.cidrs + right.cidrs,
                1 + left.calls + right.calls, 1 + Max(left.depth, right.depth))
  }

  function IprangeToCidrs(w: nat, from: Cidr, to: Cidr): seq<Cidr>
    requires 0 <= from.len && 0 <= to.len && from.ip < Pow2(w) && to.ip < Pow2(w)
  {
    if from.len > w || to.len > w then []
    else
      var s := SplitRange(w, 0, 0, Network(w, from.ip, from.len), Broadcast(w, to.ip, to.len));
      if s.ok then s.cidrs else []
  }

  // ---------- what a call computes ----------

  // Tilings of a proper part of a block join at the block's middle.
  lemma JoinAtMiddle(p: Block, s: nat, end: nat)
    requires p.Ok() && p.bits > 0
    requires p.lo <= s < Upper(p).lo < end <= p.End()
    requires s != p.lo || end != p.End()
    ensures Tiling(s, end) == Tiling(s, Upper(p).lo) + Tiling(Upper(p).lo, end)
  {
    hide Tiling, Aligned, Pow2;
    var mid := Upper(p).lo;
    var a, b := Tiling(s, mid), Tiling(mid, end);
    TilingCanonical(s, mid);
    TilingCanonical(mid, end);
    forall i | 0 <= i < |a| ensures s <= a[i].lo && a[i].End() <= mid {
      MemberCovered(a, i);
      assert a[i].Has(a[i].lo) && a[i].Has(a[i].End() - 1);
    }
    forall j | 0 <= j < |b| ensures mid <= b[j].lo && b[j].End() <= end {
      MemberCovered(b, j);
      assert b[j].Has(b[j].lo) && b[j].Has(b[j].End() - 1);
    }
    if Siblings(a[|a| - 1], b[0]) {
      SiblingsAtMiddle(p, a[|a| - 1], b[0], s, end);
    }
    var c := a + b;
    assert Canonical(c) by {
      forall i | 0 <= i < |c| - 1 ensures !Siblings(c[i], c[i + 1]) {
        if i + 1 < |a| { assert c[i] == a[i] && c[i + 1] == a[i + 1]; }
        else if i + 1 > |a| { assert c[i] == b[i - |a|] && c[i + 1] == b[i + 1 - |a|]; }
      }
    }
    forall x: nat ensures Covers(c, x) <==> s <= x < end { CoversConcat(a, b, x); }
    TilingUnique(c, s, end);
  }

  // Siblings that meet at the middle of a block are its halves.
  lemma SiblingsAtMiddle(p: Block, x: Block, y: Block, s: nat, end: nat)
    requires p.Ok() && p.bits > 0 && x.Ok() && y.Ok() && Siblings(x, y)
    requires p.lo <= s <= x.lo && y.lo == Upper(p).lo && y.End() <= end <= p.End()
    ensures s == p.lo && end == p.End()
  {
    Halves(p.lo, p.bits - 1);
    Halves(x.lo, x.bits);
    if x.bits < p.bits - 1 {
      AlignedWeaken(y.lo, x.bits + 1, p.bits - 1);
    } else if p.bits - 1 < x.bits {
      Pow2Grows(p.bits - 1, x.bits);
    }
  }

  // The call on (ip, len) as its cases, with the bit operations worked out.
  lemma Unfold(w: nat, ip: nat, len: int, lo: nat, hi: nat)
    requires IsNet(w, Cidr(ip, len)) && len < w
    requires ip <= lo && hi < ip + Pow2(w - len)
    requires lo != ip || hi != ip + Pow2(w - len) - 1
    ensures var upper := ip + Pow2(w - len - 1);
            var left := SplitRange(w, ip, len + 1, lo, upper - 1);
            var right := SplitRange(w, upper, len + 1, upper, hi);
            SplitRange(w, ip, len, lo, hi) ==
              if hi < upper then Nested(SplitRange(w, ip, len + 1, lo, hi))
              else if lo >= upper then Nested(SplitRange(w, upper, len + 1, lo, hi))
              else if !left.ok then Nested(left)
              else Split(right.ok, left.cidrs + right.cidrs,
                         1 + left.calls + right.calls, 1 + Max(left.depth, right.depth))
  {
    BroadcastOfNet(w, ip, len);
    HalvesOfNet(w, ip, len);
    BroadcastOfNet(w, ip, len + 1);
  }

  // The case in which both halves take part.
  lemma UnfoldBoth(w: nat, ip: nat, len: int, lo: nat, hi: nat, left: Split, right: Split)
    requires IsNet(w, Cidr(ip, len)) && len < w
    requires ip <= lo < ip + Pow2(w - len - 1) <= hi < ip + Pow2(w - len)
    requires lo != ip || hi != ip + Pow2(w - len) - 1
    requires left == SplitRange(w, ip, len + 1, lo, ip + Pow2(w - len - 1) - 1) && left.ok
    requires right == SplitRange(w, ip + Pow2(w - len - 1), len + 1, ip + Pow2(w - len - 1), hi)
    ensures SplitRange(w, ip, len, lo, hi) ==
            Split(right.ok, left.cidrs + right.cidrs,
                  1 + left.calls + right.calls, 1 + Max(left.depth, right.depth))
  {
    hide SplitRange, Aligned, Pow2;
    Unfold(w, ip, len, lo, hi);
  }

  lemma Whole(w: nat, ip: nat, len: int)
    requires IsNet(w, Cidr(ip, len))
    ensures SplitRange(w, ip, len, ip, ip + Pow2(w - len) - 1) == Split(true, [Cidr(ip, len)], 1, 0)
  {
    BroadcastOfNet(w, ip, len);
  }

  lemma NetsConcat(w: nat, a: seq<Cidr>, b: seq<Cidr>)
    requires AllNets(w, a) && AllNets(w, b)
    ensures AllNets(w, a + b) && Nets(w, a + b) == Nets(w, a) + Nets(w, b)
  {
  }

  // The bounds on blocks and calls with k host bits, by which ends the range meets.
  predicate Frugal(s: Split, k: nat, atLo: bool, atHi: bool) {
    && s.depth <= k
    && if atLo && atHi then |s.cidrs| == 1 && s.calls == 1
       else if atLo || atHi then |s.cidrs| <= k && s.calls <= 2 * k
       else |s.cidrs| <= 2 * k - 2 && s.calls <= 4 * k - 3
  }

  /** The splitter returns the tiling of the range within the bounds that the
      source states in its comment. */
  lemma {:induction false} SplitCorrect(w: nat, ip: nat, len: int, lo: nat, hi: nat)
    requires IsNet(w, Cidr(ip, len)) && ip <= lo <= hi < ip + Pow2(w - len)
    ensures var s := SplitRange(w, ip, len, lo, hi);
            && s.ok && AllNets(w, s.cidrs) && Nets(w, s.cidrs) == Tiling(lo, hi + 1)
            && Frugal(s, w - len, lo == ip, hi == ip + Pow2(w - len) - 1)
    decreases w - len
  {
    hide SplitRange, Tiling, Aligned;
    if lo == ip && hi == ip + Pow2(w - len) - 1 {
      Whole(w, ip, len);
      BlockRoundTrip(Net(w, Cidr(ip, len)));
    } else {
      HalvesOfNet(w, ip, len);
      var upper := ip + Pow2(w - len - 1);
      if hi < upper {
        SplitCorrect(w, ip, len + 1, lo, hi);
        Unfold(w, ip, len, lo, hi);
      } else if lo >= upper {
        SplitCorrect(w, upper, len + 1, lo, hi);
        Unfold(w, ip, len, lo, hi);
      } else {
        SplitCorrect(w, ip, len + 1, lo, upper - 1);
        SplitCorrect(w, upper, len + 1, upper, hi);
        SplitBoth(w, ip, len, lo, hi,
                  SplitRange(w, ip, len + 1, lo, upper - 1), SplitRange(w, upper, len + 1, upper, hi));
      }
    }
  }

  lemma SplitBoth(w: nat, ip: nat, len: int, lo: nat, hi: nat, left: Split, right: Split)
    requires IsNet(w, Cidr(ip, len)) && len < w
    requires ip <= lo < ip + Pow2(w - len - 1) <= hi < ip + Pow2(w - len)
    requires lo != ip || hi != ip + Pow2(w - len) - 1
    requires left == SplitRange(w, ip, len + 1, lo, ip + Pow2(w - len - 1) - 1)
    requires right == SplitRange(w, ip + Pow2(w - len - 1), len + 1, ip + Pow2(w - len - 1), hi)
    requires left.ok && AllNets(w, left.cidrs) && Nets(w, left.cidrs) == Tiling(lo, ip + Pow2(w - len - 1))
    requires right.ok && AllNets(w, right.cidrs) && Nets(w, right.cidrs) == Tiling(ip + Pow2(w - len - 1), hi + 1)
    requires Frugal(left, w - len - 1, lo == ip, true) && Frugal(right, w - len - 1, true, hi == ip + Pow2(w - len) - 1)
    ensures var s := SplitRange(w, ip, len, lo, hi);
            && s.ok && AllNets(w, s.cidrs) && Nets(w, s.cidrs) == Tiling(lo, hi + 1)
            && Frugal(s, w - len, lo == ip, hi == ip + Pow2(w - len) - 1)
  {
    hide SplitRange, Tiling, Aligned;
    UnfoldBoth(w, ip, len, lo, hi, left, right);
    JoinAtMiddle(Net(w, Cidr(ip, len)), lo, hi + 1);
    NetsConcat(w, left.cidrs, right.cidrs);
  }

  // An inverted range runs down one path and is rejected.
  lemma {:induction false} SplitRejects(w: nat, ip: nat, len: int, lo: nat, hi: nat)
    requires IsNet(w, Cidr(ip, len)) && hi < lo
    ensures !SplitRange(w, ip, len, lo, hi).ok
    decreases w - len
  {
    hide Aligned;
    BroadcastOfNet(w, ip, len);
    if len < w && ip <= lo && hi < ip + Pow2(w - len) {
      Unfold(w, ip, len, lo, hi);
      HalvesOfNet(w, ip, len);
      SplitRejects(w, ip, len + 1, lo, hi);
      SplitRejects(w, ip + Pow2(w - len - 1), len + 1, lo, hi);
    }
  }

  // From any range of addresses: its tiling, or failure for an inverted one.
  lemma SplitFromRoot(w: nat, lo: nat, hi: nat)
    requires w >= 2 && lo < Pow2(w) && hi < Pow2(w)
    ensures var s := SplitRange(w, 0, 0, lo, hi);
            && s.ok == (lo <= hi)
            && (s.ok ==> && AllNets(w, s.cidrs) && Nets(w, s.cidrs) == Tiling(lo, hi + 1)
                         && |s.cidrs| <= 2 * w - 2 && s.calls <= 4 * w - 3 && s.depth <= w)
  {
    ZeroAligned(w);
    assert IsNet(w, Cidr(0, 0));
    if lo <= hi {
      SplitCorrect(w, 0, 0, lo, hi);
    } else {
      SplitRejects(w, 0, 0, lo, hi);
    }
  }

  // The bounds in the source's comment, for the width it uses.
  lemma SplitBounds32(lo: nat, hi: nat)
    requires lo <= hi < Pow2(32)
    ensures var s := SplitRange(32, 0, 0, lo, hi);
            s.ok && |s.cidrs| <= 62 && s.calls <= 125 && s.depth <= 32
  {
    SplitFromRoot(32, lo, hi);
  }

  // The range between the network address of `from` and the broadcast address of
  // `to`, as blocks; nothing exactly when that range is empty.
  lemma IprangeToCidrsCorrect(w: nat, from: Cidr, to: Cidr)
    requires w >= 2 && 0 <= from.len <= w && 0 <= to.len <= w
    requires from.ip < Pow2(w) && to.ip < Pow2(w)
    ensures var r := IprangeToCidrs(w, from, to);
            var lo, hi := Down(from.ip, w - from.len), Down(to.ip, w - to.len) + Pow2(w - to.len) - 1;
            && AllNets(w, r) && Nets(w, r) == Tiling(lo, hi + 1)
            && Canonical(Nets(w, r)) && CoversRange(Nets(w, r), lo, hi + 1)
            && (r == [] <==> lo > hi)
  {
    hide Aligned, SplitRange, Canonical, Down, Pow2;
    DownBounds(from.ip, w - from.len);
    DownBounds(to.ip, w - to.len);
    InWord(Down(to.ip, w - to.len), w - to.len, w);
    var lo, hi := Down(from.ip, w - from.len), Down(to.ip, w - to.len) + Pow2(w - to.len) - 1;
    SplitFromRoot(w, lo, hi);
    TilingCanonical(lo, hi + 1);
  }

  // ---------- the worst case ----------

  // All of a block but its first address.
  lemma {:induction false} LowerArm(w: nat, ip: nat, len: int)
    requires IsNet(w, Cidr(ip, len)) && len < w
    ensures var s, k := SplitRange(w, ip, len, ip + 1, ip + Pow2(w - len) - 1), w - len;
            s.ok && |s.cidrs| == k && s.calls == 2 * k && s.depth == k
    decreases w - len
  {
    hide SplitRange, Aligned;
    Unfold(w, ip, len, ip + 1, ip + Pow2(w - len) - 1);
    HalvesOfNet(w, ip, len);
    Whole(w, ip + Pow2(w - len - 1), len + 1);
    if len + 1 < w {
      LowerArm(w, ip, len + 1);
    }
  }

  // All of a block but its last address.
  lemma {:induction false} UpperArm(w: nat, ip: nat, len: int)
    requires IsNet(w, Cidr(ip, len)) && len < w
    ensures var s, k := SplitRange(w, ip, len, ip, ip + Pow2(w - len) - 2), w - len;
            s.ok && |s.cidrs| == k && s.calls == 2 * k && s.depth == k
    decreases w - len
  {
    hide SplitRange, Aligned;
    Unfold(w, ip, len, ip, ip + Pow2(w - len) - 2);
    HalvesOfNet(w, ip, len);
    Whole(w, ip, len + 1);
    if len + 1 < w {
      UpperArm(w, ip + Pow2(w - len - 1), len + 1);
    }
  }

  // All of a block but its first and its last address.
  lemma WorstCase(w: nat, ip: nat, len: int)
    requires IsNet(w, Cidr(ip, len)) && len + 2 <= w
    ensures Pow2(w - len) == 2 * Pow2(w - len - 1) >= 4
    ensures var s, k := SplitRange(w, ip, len, ip + 1, ip + Pow2(w - len) - 2), w - len;
            s.ok && |s.cidrs| == 2 * k - 2 && s.calls == 4 * k - 3 && s.depth == k
  {
    hide SplitRange, Aligned;
    HalvesOfNet(w, ip, len);
    var h := Pow2(w - len - 1);
    assert Pow2(w - len) == 2 * h && h == 2 * Pow2(w - len - 2);
    LowerArm(w, ip, len + 1);
    UpperArm(w, ip + h, len + 1);
    UnfoldBoth(w, ip, len, ip + 1, ip + 2 * h - 2,
               SplitRange(w, ip, len + 1, ip + 1, ip + h - 1),
               SplitRange(w, ip + h, len + 1, ip + h, ip + 2 * h - 2));
  }

  // 0.0.0.1 to 255.255.255.254 attains the bounds of the source's comment.
  lemma WorstCase32()
    ensures var s := SplitRange(32, 0, 0, 1, Pow2(32) - 2);
            s.ok && |s.cidrs| == 62 && s.calls == 125 && s.depth == 32
  {
    hide SplitRange, Aligned, Pow2;
    ZeroAligned(32);
    assert IsNet(32, Cidr(0, 0));
    WorstCase(32, 0, 0);
  }
}

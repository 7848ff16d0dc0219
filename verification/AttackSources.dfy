/**
 dni/go/sdk/utils/snding.go: the addresses of a count map are moved, stage by
 stage, into networks: single addresses, then /24 segments, then /16 segments.
 Packets are then counted per network or, for what is left, in one random bucket.
 Go visits a map in any order, so the loops here pick any remaining key.
 */
module AttackSources {
  import opened Bits
  import opened Blocks
  import opened Counting
  import ByteAddress
  import GreedyNets

  type CountMap = map<nat, int>

  // ---------- totals ----------

  // The sum of all values.
  ghost function Total(m: CountMap): int {
    if m == map[] then 0
    else
      var k :| k in m;
      m[k] + Total(m - {k})
  }

  lemma {:induction false} TotalRemove(m: CountMap, k: nat)
    requires k in m
    ensures Total(m) == m[k] + Total(m - {k})
    decreases |m|
  {
    var j :| j in m && Total(m) == m[j] + Total(m - {j});
    if j != k {
      TotalRemove(m - {j}, k);
      TotalRemove(m - {k}, j);
      assert m - {j} - {k} == m - {k} - {j};
    }
  }

  lemma TotalUpdate(m: CountMap, k: nat, v: int)
    ensures Total(m[k := v]) == Total(m) + v - if k in m then m[k] else 0
  {
    TotalRemove(m[k := v], k);
    if k in m {
      TotalRemove(m, k);
      assert m[k := v] - {k} == m - {k};
    } else {
      assert m[k := v] - {k} == m;
    }
  }

  // The entries of m for the given keys.
  function Only(m: CountMap, ks: set<nat>): CountMap { map k | k in m && k in ks :: m[k] }

  // Nothing is lost between the entries kept and the entries taken out.
  lemma {:induction false} TotalSplit(m: CountMap, ks: set<nat>)
    requires ks <= m.Keys
    ensures Total(m) == Total(Only(m, ks)) + Total(m - ks)
    decreases |ks|
  {
    if ks == {} {
      assert Only(m, ks) == map[] && m - ks == m;
    } else {
      var k :| k in ks;
      TotalRemove(m, k);
      TotalSplit(m - {k}, ks - {k});
      TotalRemove(Only(m, ks), k);
      assert Only(m, ks) - {k} == Only(m - {k}, ks - {k});
      assert m - {k} - (ks - {k}) == m - ks;
    }
  }

  // ---------- segments ----------

  predicate Words(m: CountMap) { forall ip :: ip in m ==> ip < Pow2(32) }

  // ip & mask, with k low bits masked off
  function Segment(ip: nat, k: nat): (p: nat)
    requires ip < Pow2(32) && k <= 32
    ensures p == Down(ip, k)
  {
    SegmentIsDown(ip, k);
    And(ip, Pow2(32) - Pow2(k))
  }

  lemma SegmentIsDown(ip: nat, k: nat)
    requires ip < Pow2(32) && k <= 32
    ensures Pow2(k) <= Pow2(32) && And(ip, Pow2(32) - Pow2(k)) == Down(ip, k)
  {
    hide Pow2, And, Down;
    Pow2Grows(k, 32);
    AndHighMask(ip, k, 32);
  }

  // The addresses of a segment.
  function Group(m: CountMap, p: nat, k: nat): set<nat> { set ip | ip in m && Down(ip, k) == p }

  // The addresses of some segments.
  function Groups(m: CountMap, ps: set<nat>, k: nat): set<nat> { set ip | ip in m && Down(ip, k) in ps }

  // Two segments of one size are equal or apart.
  lemma SegmentsApart(p: nat, q: nat, k: nat)
    requires Aligned(p, k) && Aligned(q, k) && p != q
    ensures Block(p, k).Apart(Block(q, k))
  {
  }

  // Addresses per segment and the sum of their counts.
  method GroupBy(df: CountMap, k: nat) returns (sums: CountMap, groups: map<nat, set<nat>>)
    requires Words(df) && k <= 32
    ensures sums.Keys == groups.Keys
    ensures forall p :: p in groups ==> Aligned(p, k) && groups[p] == Group(df, p, k) && groups[p] != {}
    ensures forall ip :: ip in df ==> Down(ip, k) in groups
    ensures forall p :: p in sums ==> sums[p] == Total(Only(df, Group(df, p, k)))
  {
    hide Total, Pow2, Aligned, Down, Words, Group, Only;
    sums, groups := map[], map[];
    var todo := df.Keys;
    while todo != {}
      invariant todo <= df.Keys && sums.Keys == groups.Keys
      invariant forall p :: p in groups ==> Aligned(p, k) && groups[p] == Group(df, p, k) - todo && groups[p] != {}
      invariant forall ip :: ip in df && ip !in todo ==> Down(ip, k) in groups
      invariant forall p :: p in sums ==> sums[p] == Total(Only(df, Group(df, p, k) - todo))
    {
      var ip :| ip in todo;
      assert ip < Pow2(32) by { WordOf(df, ip); }
      var p := Segment(ip, k);
      DownBounds(ip, k);
      GroupStep(df, k, todo, ip);
      if p in groups {
        sums := sums[p := sums[p] + df[ip]];
        groups := groups[p := groups[p] + {ip}];
      } else {
        assert Group(df, p, k) - todo == {} by { NewGroup(df, k, todo, p, groups.Keys); }
        EmptyTotal(df, Group(df, p, k) - todo);
        sums := sums[p := df[ip]];
        groups := groups[p := {ip}];
      }
      todo := todo - {ip};
    }
    assert forall p :: p in groups ==> Group(df, p, k) - {} == Group(df, p, k);
  }

  // One more address taken in: its segment grows by it, the others stay.
  lemma GroupStep(df: CountMap, k: nat, todo: set<nat>, ip: nat)
    requires ip in todo && todo <= df.Keys
    ensures forall q :: q != Down(ip, k) ==> Group(df, q, k) - (todo - {ip}) == Group(df, q, k) - todo
    ensures var g := Group(df, Down(ip, k), k);
            && g - (todo - {ip}) == (g - todo) + {ip}
            && Total(Only(df, g - (todo - {ip}))) == Total(Only(df, g - todo)) + df[ip]
  {
    hide Total, Down;
    var g := Group(df, Down(ip, k), k) - todo;
    assert Group(df, Down(ip, k), k) - (todo - {ip}) == g + {ip};
    assert Only(df, g + {ip}) == Only(df, g)[ip := df[ip]];
    TotalUpdate(Only(df, g), ip, df[ip]);
  }

  lemma NewGroup(df: CountMap, k: nat, todo: set<nat>, p: nat, seen: set<nat>)
    requires p !in seen && forall ip :: ip in df && ip !in todo ==> Down(ip, k) in seen
    ensures Group(df, p, k) - todo == {}
  {
  }

  lemma WordOf(m: CountMap, ip: nat)
    requires Words(m) && ip in m
    ensures ip < Pow2(32)
  {
  }

  lemma EmptyTotal(m: CountMap, g: set<nat>)
    requires g == {}
    ensures Total(Only(m, g)) == 0
  {
  }

  // ---------- one stage ----------

  function Segments(m: CountMap, k: nat): set<nat> { set ip | ip in m :: Down(ip, k) }

  // Go's division truncates toward zero.
  function Half(t: int): int { if t >= 0 then t / 2 else -(-t / 2) }

  // With many segments half the threshold is enough.
  function Limit(segments: nat, threshold: int): int { if segments >= threshold then Half(threshold) else threshold }

  ghost function Chosen(m: CountMap, k: nat, threshold: int): set<nat> {
    set p | p in Segments(m, k) && Total(Only(m, Group(m, p, k))) > Limit(|Segments(m, k)|, threshold)
  }

  /** A segment is chosen exactly when it holds an address and its count is above the
      threshold, or above half of it when there are at least so many segments. */
  lemma ChosenMeans(m: CountMap, k: nat, threshold: int, p: nat, segments: set<nat>, own: CountMap)
    requires forall q :: q in segments <==> exists ip :: ip in m && Down(ip, k) == q
    requires forall ip :: ip in own <==> ip in m && Down(ip, k) == p
    requires forall ip :: ip in own ==> own[ip] == m[ip]
    ensures p in Chosen(m, k, threshold) <==>
            p in segments && Total(own) > if |segments| < threshold then threshold
                                          else if threshold >= 0 then threshold / 2 else -((-threshold) / 2)
  {
    hide Total, Down;
    assert Only(m, Group(m, p, k)) == own;
    assert Segments(m, k) == segments;
  }

  predicate AllApart(nets: seq<Block>) { forall i, j :: 0 <= i < j < |nets| ==> nets[i].Apart(nets[j]) }

  // b lies inside one of the segments ps.
  predicate InSegment(b: Block, ps: set<nat>, k: nat) { b.Ok() && b.bits <= k && Down(b.lo, k) in ps }

  predicate InSegments(nets: seq<Block>, ps: set<nat>, k: nat) {
    forall i :: 0 <= i < |nets| ==> InSegment(nets[i], ps, k)
  }

  lemma InSegmentWithin(b: Block, k: nat)
    requires b.Ok() && b.bits <= k
    ensures b.Within(Block(Down(b.lo, k), k))
  {
    hide Aligned, Pow2, Down;
    DownBounds(b.lo, k);
    NestedOrApart(b, Block(Down(b.lo, k), k));
  }

  lemma WithinSegment(b: Block, p: nat, k: nat)
    requires b.Ok() && Aligned(p, k) && b.Within(Block(p, k))
    ensures InSegment(b, {p}, k)
  {
    hide Aligned, Pow2, Down;
    NestedOrApart(b, Block(p, k));
    DownUnique(b.lo, p, k);
  }

  // The chosen segments leave the map, and the networks lie inside them.
  ghost predicate StageOk(m: CountMap, rest: CountMap, nets: seq<Block>, ps: set<nat>, k: nat) {
    rest == m - Groups(m, ps, k) && InSegments(nets, ps, k)
  }

  // Networks inside some segments hold no address of another segment.
  lemma OtherSegment(nets: seq<Block>, ps: set<nat>, k: nat, ip: nat)
    requires InSegments(nets, ps, k) && Down(ip, k) !in ps
    ensures !Covers(nets, ip)
  {
    hide Aligned, Pow2, Down;
    if Covers(nets, ip) {
      var i :| 0 <= i < |nets| && nets[i].Has(ip);
      InSegmentWithin(nets[i], k);
      DownBounds(nets[i].lo, k);
      DownUnique(ip, Down(nets[i].lo, k), k);
    }
  }

  /** No address left in the map lies in a network of the stage, and no count is
      lost between what left and what stayed. */
  lemma StageSeparates(m: CountMap, rest: CountMap, nets: seq<Block>, ps: set<nat>, k: nat)
    requires StageOk(m, rest, nets, ps, k)
    ensures forall ip :: ip in rest ==> !Covers(nets, ip)
    ensures Total(m) == Total(Only(m, m.Keys - rest.Keys)) + Total(rest)
  {
    hide Aligned, Pow2, Down, Total;
    forall ip | ip in rest ensures !Covers(nets, ip) {
      OtherSegment(nets, ps, k, ip);
    }
    TotalSplit(m, Groups(m, ps, k));
    assert m.Keys - rest.Keys == Groups(m, ps, k);
  }

  method GetMinMax(vals: set<nat>) returns (min: nat, max: nat)
    requires forall x :: x in vals ==> x <= 0xFFFF_FFFF
    ensures vals != {} ==> min in vals && max in vals
    ensures forall x :: x in vals ==> min <= x <= max
  {
    max, min := 0, 0xFFFF_FFFF;
    var todo := vals;
    while todo != {}
      invariant todo <= vals
      invariant vals - todo != {} ==> min in vals - todo && max in vals - todo
      invariant vals - todo == {} ==> min == 0xFFFF_FFFF && max == 0
      invariant forall x :: x in vals - todo ==> min <= x <= max
    {
      var val :| val in todo;
      if val > max {
        max := val;
      }
      if val < min {
        min := val;
      }
      assert vals - (todo - {val}) == (vals - todo) + {val};
      todo := todo - {val};
    }
    assert vals - {} == vals;
  }

  // The blocks of a range inside one segment.
  lemma TilingInSegment(p: nat, k: nat, lo: nat, end: nat)
    requires Aligned(p, k) && p <= lo && end <= p + Pow2(k)
    ensures var nets := Tiling(lo, end);
            && AllApart(nets) && InSegments(nets, {p}, k) && CoversRange(nets, lo, end)
  {
    hide Aligned, Pow2, Tiling;
    TilingCanonical(lo, end);
    var nets := Tiling(lo, end);
    forall i | 0 <= i < |nets| ensures InSegment(nets[i], {p}, k) {
      assert nets[i].Has(nets[i].lo) && nets[i].Has(nets[i].End() - 1) by { InsideItself(nets[i]); }
      assert Covers(nets, nets[i].lo) && Covers(nets, nets[i].End() - 1);
      WithinSegment(nets[i], p, k);
    }
  }

  lemma InsideItself(b: Block)
    ensures b.Has(b.lo) && b.Has(b.End() - 1)
  {
  }

  lemma WholeSegment(p: nat, k: nat)
    requires Aligned(p, k)
    ensures AllApart([Block(p, k)]) && InSegments([Block(p, k)], {p}, k)
    ensures CoversRange([Block(p, k)], p, p + Pow2(k))
  {
    hide Pow2, Aligned;
    WithinSegment(Block(p, k), p, k);
    forall x: nat ensures Covers([Block(p, k)], x) <==> p <= x < p + Pow2(k) {
      if Block(p, k).Has(x) { assert [Block(p, k)][0].Has(x); }
    }
  }

  /** The range as byte addresses, covered by the greedy loop: its tiling. */
  method IPRangeToCIDR(start: nat, end: nat) returns (nets: seq<Block>)
    requires start <= end <= 0xFFFF_FFFF
    ensures nets == Tiling(start, end + 1)
  {
    hide Tiling, ByteAddress.Value;
    ByteAddress.UitonRoundTrip(start);
    ByteAddress.UitonRoundTrip(end);
    var ipNets := GreedyNets.ToIPNets(ByteAddress.Uiton(start), ByteAddress.Uiton(end));
    nets := GreedyNets.NetBlocks(ipNets);
  }

  // lo and hi are the least and the greatest of ips.
  ghost predicate Spans(ips: set<nat>, lo: nat, hi: nat) {
    lo in ips && hi in ips && forall x :: x in ips ==> lo <= x <= hi
  }

  /** What one /24 turns into: the whole segment when its addresses span 200 or are
      many, else the tiling of the range they span. */
  ghost predicate Networks24(nets: seq<Block>, p: nat, ips: set<nat>, segCover: int) {
    exists lo: nat, hi: nat :: Spans(ips, lo, hi) &&
      nets == if hi - lo >= 200 || |ips| >= segCover then [Block(p, 8)] else Tiling(lo, hi + 1)
  }

  // The networks of a /24 are determined, and they cover all of its addresses.
  lemma Networks24Facts(nets: seq<Block>, p: nat, ips: set<nat>, segCover: int)
    requires Aligned(p, 8) && (forall ip :: ip in ips ==> Down(ip, 8) == p)
    requires Networks24(nets, p, ips, segCover)
    ensures AllApart(nets) && InSegments(nets, {p}, 8)
    ensures forall ip :: ip in ips ==> Covers(nets, ip)
    ensures forall more :: Networks24(more, p, ips, segCover) ==> more == nets
  {
    hide Aligned, Pow2, Tiling, Down, InSegments, AllApart;
    forall ip | ip in ips ensures p <= ip < p + Pow2(8) {
      DownBounds(ip, 8);
    }
    var lo: nat, hi: nat :| Spans(ips, lo, hi) &&
      nets == if hi - lo >= 200 || |ips| >= segCover then [Block(p, 8)] else Tiling(lo, hi + 1);
    WholeSegment(p, 8);
    TilingInSegment(p, 8, lo, hi + 1);
    forall lo': nat, hi': nat | Spans(ips, lo', hi') ensures lo' == lo && hi' == hi {
      assert lo in ips && hi in ips && lo' in ips && hi' in ips;
    }
  }

  /** The networks of one /24. */
  method SegmentNets24(p: nat, ips: set<nat>, segCover: int) returns (nets: seq<Block>)
    requires ips != {} && forall ip :: ip in ips ==> ip <= 0xFFFF_FFFF
    ensures Networks24(nets, p, ips, segCover)
  {
    hide Tiling;
    var ipMin, ipMax := GetMinMax(ips);
    assert Spans(ips, ipMin, ipMax);
    if ipMax - ipMin >= 200 {
      nets := [Block(p, 8)];
    } else if |ips| >= segCover {
      nets := [Block(p, 8)];
    } else {
      nets := IPRangeToCIDR(ipMin, ipMax);
    }
  }

  // ip & 0x0000FF00 in place of the third byte
  function ThirdByte(ip: nat): (b: nat)
    ensures b == Down(ip, 8) - Down(ip, 16)
  {
    ThirdByteIs(ip);
    And(ip, 0xFF00)
  }

  lemma ThirdByteIs(ip: nat)
    ensures And(ip, 0xFF00) == Down(ip, 8) - Down(ip, 16)
  {
    hide And, Down;
    Pow2Grows(8, 16);
    assert Pow2(16) - Pow2(8) == 0xFF00;
    AndMiddle(ip, 8, 16);
  }

  /** The networks of one /16: the whole segment when its addresses are many, else
      the range from the first to the last third byte. That range ends at the base
      address of the last /24, so an address is covered exactly when there are many
      or it does not lie above that base address. */
  method SegmentNets16(p: nat, ips: set<nat>, segCover: int) returns (nets: seq<Block>)
    requires Aligned(p, 16) && ips != {} && forall ip :: ip in ips ==> Down(ip, 16) == p && ip <= 0xFFFF_FFFF
    ensures AllApart(nets) && InSegments(nets, {p}, 16)
    ensures forall ip :: ip in ips ==> (Covers(nets, ip) <==> Reached16(ips, segCover, ip))
  {
    hide Aligned, Pow2, Tiling, Down, InSegments, AllApart, Covers, Reached16;
    var p3s := set ip | ip in ips :: ThirdByte(ip);
    forall ip | ip in ips ensures ThirdByte(ip) <= 0xFFFF {
      ThirdByteIn(ip);
    }
    var p3Min, p3Max := GetMinMax(p3s);
    assert p3s != {} by { SomeThirdByte(ips, p3s); }
    if |ips| >= segCover {
      nets := [Block(p, 16)];
      WholeNets16(p, ips, segCover);
    } else {
      assert p3Max + p <= 0xFFFF_FFFF by { HighestFits(p, ips, p3s, p3Max); }
      nets := IPRangeToCIDR(p3Min + p, p3Max + p);
      HighestIn(ips, p3s, p3Max);
      forall ip | ip in ips ensures p3Min + p <= ip <= p3Max + p <==> Reached16(ips, segCover, ip) {
        ReachesLast(p, ips, segCover, p3s, p3Min, p3Max, ip);
      }
      SpanNets16(p, ips, segCover, p3Min, p3Max);
    }
  }

  // A /16 reaches an address when it has many, or one whose /24 starts no earlier.
  predicate Reached16(ips: set<nat>, segCover: int, ip: nat) {
    |ips| >= segCover || exists last :: last in ips && ip <= Down(last, 8)
  }

  lemma SomeThirdByte(ips: set<nat>, p3s: set<nat>)
    requires ips != {} && p3s == set ip | ip in ips :: ThirdByte(ip)
    ensures p3s != {}
  {
    hide Down;
    var any :| any in ips;
    assert ThirdByte(any) in p3s;
  }

  lemma WholeNets16(p: nat, ips: set<nat>, segCover: int)
    requires Aligned(p, 16) && |ips| >= segCover && forall ip :: ip in ips ==> Down(ip, 16) == p
    ensures AllApart([Block(p, 16)]) && InSegments([Block(p, 16)], {p}, 16)
    ensures forall ip :: ip in ips ==> Covers([Block(p, 16)], ip) && Reached16(ips, segCover, ip)
  {
    hide Aligned, Pow2, Down, InSegments, AllApart, Covers;
    WholeSegment(p, 16);
    forall ip | ip in ips ensures p <= ip < p + Pow2(16) {
      DownBounds(ip, 16);
    }
  }

  lemma SpanNets16(p: nat, ips: set<nat>, segCover: int, lo: nat, hi: nat)
    requires Aligned(p, 16) && hi < Pow2(16)
    requires forall ip :: ip in ips ==> (lo + p <= ip <= hi + p <==> Reached16(ips, segCover, ip))
    ensures var nets := Tiling(lo + p, hi + p + 1);
            && AllApart(nets) && InSegments(nets, {p}, 16)
            && forall ip :: ip in ips ==> (Covers(nets, ip) <==> Reached16(ips, segCover, ip))
  {
    hide Aligned, Pow2, Tiling, InSegments, AllApart, Covers, Reached16;
    TilingInSegment(p, 16, lo + p, hi + p + 1);
  }

  lemma HighestIn(ips: set<nat>, p3s: set<nat>, hi: nat)
    requires p3s == (set x | x in ips :: ThirdByte(x)) && hi in p3s
    ensures hi < Pow2(16)
  {
    hide Down, Pow2;
    var ip :| ip in ips && hi == ThirdByte(ip);
    ThirdByteIn(ip);
  }

  lemma ThirdByteIn(ip: nat)
    ensures Down(ip, 16) + ThirdByte(ip) == Down(ip, 8) <= ip && ThirdByte(ip) < Pow2(16) == 0x1_0000
    ensures Down(ip, 16) <= ip < Down(ip, 16) + Pow2(16)
  {
    hide Down, Pow2;
    DownTwice(ip, 8, 16);
    DownBounds(ip, 8);
    DownBounds(ip, 16);
    WordSize();
  }

  lemma HighestFits(p: nat, ips: set<nat>, p3s: set<nat>, hi: nat)
    requires forall ip :: ip in ips ==> Down(ip, 16) == p && ip <= 0xFFFF_FFFF
    requires p3s == (set x | x in ips :: ThirdByte(x)) && hi in p3s
    ensures hi + p <= 0xFFFF_FFFF
  {
    hide Down, Pow2;
    var ip :| ip in ips && hi == ThirdByte(ip);
    ThirdByteIn(ip);
  }

  lemma ReachesLast(p: nat, ips: set<nat>, segCover: int, p3s: set<nat>, lo: nat, hi: nat, ip: nat)
    requires |ips| < segCover && forall x :: x in ips ==> Down(x, 16) == p
    requires p3s == set x | x in ips :: ThirdByte(x)
    requires lo in p3s && hi in p3s && (forall b :: b in p3s ==> lo <= b <= hi) && ip in ips
    ensures lo + p <= ip <= hi + p <==> Reached16(ips, segCover, ip)
  {
    hide Down;
    forall x | x in ips ensures Down(x, 8) == p + ThirdByte(x) <= x && lo <= ThirdByte(x) <= hi {
      ThirdByteIn(x);
      assert ThirdByte(x) in p3s;
    }
    if ip <= hi + p {
      var last :| last in ips && ThirdByte(last) == hi;
      assert ip <= Down(last, 8);
    }
  }

  // ---------- the three stages ----------

  // The entries below the threshold.
  function Fewer(m: CountMap, t: int): CountMap { map ip | ip in m && m[ip] < t :: m[ip] }

  // The map without its chosen segments.
  ghost function Without(m: CountMap, k: nat, t: int): CountMap { m - Groups(m, Chosen(m, k, t), k) }

  /** Every address whose count reaches the threshold becomes a /32 of its own. */
  method IPSuspectFW4(df: CountMap, threshold: int) returns (rest: CountMap, nets: seq<Block>)
    requires Words(df)
    ensures rest == Fewer(df, threshold)
    ensures forall ip :: ip in rest <==> ip in df && df[ip] < threshold
    ensures forall ip :: ip in rest ==> rest[ip] == df[ip]
    ensures AllApart(nets) && StageOk(df, rest, nets, df.Keys - rest.Keys, 0)
    ensures forall ip :: ip in df && ip !in rest ==> Covers(nets, ip)
  {
    hide Total, Pow2, Words, Covers;
    rest, nets := df, [];
    var todo := set ip | ip in df && df[ip] >= threshold;
    ghost var all := todo;
    while todo != {}
      invariant todo <= all && rest == df - (all - todo)
      invariant AllApart(nets) && forall i :: 0 <= i < |nets| ==> nets[i].bits == 0 && nets[i].lo in all - todo
      invariant forall ip :: ip in all - todo ==> Covers(nets, ip)
    {
      var ip :| ip in todo;
      assert AllApart(nets + [Block(ip, 0)]) by { HostApart(nets, ip); }
      forall x | x in all - (todo - {ip}) ensures Covers(nets + [Block(ip, 0)], x) {
        CoversHost(nets, ip, x);
      }
      rest := rest - {ip};
      nets := nets + [Block(ip, 0)];
      todo := todo - {ip};
    }
    HostStage(df, rest, nets);
  }

  lemma HostApart(nets: seq<Block>, ip: nat)
    requires AllApart(nets) && forall i :: 0 <= i < |nets| ==> nets[i].bits == 0 && nets[i].lo != ip
    ensures AllApart(nets + [Block(ip, 0)])
  {
  }

  lemma CoversHost(nets: seq<Block>, ip: nat, x: nat)
    ensures Covers(nets + [Block(ip, 0)], x) <==> Covers(nets, x) || x == ip
  {
    hide Pow2;
    CoversConcat(nets, [Block(ip, 0)], x);
    assert Block(ip, 0).Has(x) <==> x == ip by { assert Pow2(0) == 1 by { PowZero(); } }
    assert Covers([Block(ip, 0)], x) <==> Block(ip, 0).Has(x) by {
      if Block(ip, 0).Has(x) { assert [Block(ip, 0)][0].Has(x); }
    }
  }

  lemma PowZero()
    ensures Pow2(0) == 1
  {
  }

  lemma HostStage(df: CountMap, rest: CountMap, nets: seq<Block>)
    requires rest.Keys <= df.Keys && forall ip :: ip in rest ==> rest[ip] == df[ip]
    requires forall i :: 0 <= i < |nets| ==> nets[i].bits == 0 && nets[i].lo in df.Keys - rest.Keys
    ensures StageOk(df, rest, nets, df.Keys - rest.Keys, 0)
  {
  }

  // One more segment.
  lemma SegmentDone(m: CountMap, nets: seq<Block>, more: seq<Block>, ps: set<nat>, p: nat, k: nat)
    requires AllApart(nets) && AllApart(more) && InSegments(nets, ps, k) && InSegments(more, {p}, k) && p !in ps
    ensures AllApart(nets + more) && InSegments(nets + more, ps + {p}, k)
    ensures Groups(m, ps + {p}, k) == Groups(m, ps, k) + Group(m, p, k)
  {
    hide Aligned, Pow2, Down;
    forall i, j | 0 <= i < |nets| && 0 <= j < |more| ensures nets[i].Apart(more[j]) {
      InSegmentWithin(nets[i], k);
      InSegmentWithin(more[j], k);
      DownBounds(nets[i].lo, k);
      DownBounds(more[j].lo, k);
      SegmentsApart(Down(nets[i].lo, k), p, k);
    }
  }

  // The segments whose sum is over the limit.
  method Select(sums: CountMap, threshold: int) returns (ps: set<nat>)
    ensures ps == set p | p in sums && sums[p] > Limit(|sums|, threshold)
  {
    ps := set p | p in sums && sums[p] > Limit(|sums|, threshold);
  }

  lemma SelectedAreChosen(m: CountMap, k: nat, sums: CountMap, groups: map<nat, set<nat>>, threshold: int)
    requires sums.Keys == groups.Keys
    requires forall p :: p in groups ==> groups[p] == Group(m, p, k) && groups[p] != {}
    requires forall ip :: ip in m ==> Down(ip, k) in groups
    requires forall p :: p in sums ==> sums[p] == Total(Only(m, Group(m, p, k)))
    ensures (set p | p in sums && sums[p] > Limit(|sums|, threshold)) == Chosen(m, k, threshold)
  {
    hide Total, Down, Only;
    assert sums.Keys == Segments(m, k) by {
      forall p | p in sums ensures p in Segments(m, k) {
        var ip :| ip in groups[p];
      }
    }
    assert |sums| == |sums.Keys|;
  }

  /** The /24 segments with the largest counts leave the map. Each address that
      left lies in exactly one network of the stage. */
  method IPSuspectFW3(df: CountMap, threshold: int, segCover: int) returns (rest: CountMap, nets: seq<Block>)
    requires Words(df)
    ensures StageOk(df, rest, nets, Chosen(df, 8, threshold), 8) && AllApart(nets)
    ensures forall ip :: ip in df && ip !in rest ==> Covers(nets, ip)
  {
    hide Total, Pow2, Words, Covers, Aligned, Down, InSegments, AllApart, Group, Groups, Chosen, Networks24;
    var sums, groups := GroupBy(df, 8);
    var ps := Select(sums, threshold);
    SelectedAreChosen(df, 8, sums, groups, threshold);
    rest, nets := df, [];
    var todo := ps;
    assert ps - todo == {};
    NothingDone(df, 8);
    while todo != {}
      invariant todo <= ps && rest == df - Groups(df, ps - todo, 8)
      invariant AllApart(nets) && InSegments(nets, ps - todo, 8)
      invariant forall ip :: ip in Groups(df, ps - todo, 8) ==> Covers(nets, ip)
    {
      var p :| p in todo;
      GroupWords(df, p, 8);
      var more := SegmentNets24(p, groups[p], segCover);
      Networks24Facts(more, p, groups[p], segCover);
      SegmentDone(df, nets, more, ps - todo, p, 8);
      assert ps - (todo - {p}) == (ps - todo) + {p};
      forall ip | ip in Groups(df, ps - (todo - {p}), 8) ensures Covers(nets + more, ip) {
        CoversConcat(nets, more, ip);
      }
      rest := rest - groups[p];
      nets := nets + more;
      todo := todo - {p};
    }
    assert ps - {} == ps;
    LeftGroups(df, rest, ps, 8);
  }

  lemma NothingDone(df: CountMap, k: nat)
    ensures AllApart([]) && InSegments([], {}, k) && Groups(df, {}, k) == {} && df - {} == df
  {
  }

  lemma GroupWords(df: CountMap, p: nat, k: nat)
    requires Words(df)
    ensures forall ip :: ip in Group(df, p, k) ==> Down(ip, k) == p && ip <= 0xFFFF_FFFF
  {
    WordSize();
  }

  lemma LeftGroups(df: CountMap, rest: CountMap, ps: set<nat>, k: nat)
    requires rest == df - Groups(df, ps, k)
    ensures forall ip :: ip in df && ip !in rest ==> ip in Groups(df, ps, k)
  {
  }

  // Of the addresses that left in segments ps, those that the networks cover.
  ghost predicate Reach(df: CountMap, nets: seq<Block>, ps: set<nat>, segCover: int) {
    forall ip :: ip in Groups(df, ps, 16) ==>
      (Covers(nets, ip) <==> Reached16(Group(df, Down(ip, 16), 16), segCover, ip))
  }

  lemma ReachMore(df: CountMap, nets: seq<Block>, more: seq<Block>, ps: set<nat>, p: nat, segCover: int)
    requires Reach(df, nets, ps, segCover) && p !in ps && InSegments(nets, ps, 16) && InSegments(more, {p}, 16)
    requires forall ip :: ip in Group(df, p, 16) ==> (Covers(more, ip) <==> Reached16(Group(df, p, 16), segCover, ip))
    ensures Reach(df, nets + more, ps + {p}, segCover)
  {
    hide Covers, Reached16, InSegments, Down;
    forall ip | ip in Groups(df, ps + {p}, 16)
      ensures Covers(nets + more, ip) <==> Reached16(Group(df, Down(ip, 16), 16), segCover, ip)
    {
      CoversConcat(nets, more, ip);
      if Down(ip, 16) == p {
        OtherSegment(nets, ps, 16, ip);
      } else {
        OtherSegment(more, {p}, 16, ip);
      }
    }
  }

  /** The /16 segments with the largest counts leave the map. Not every address that
      left is covered; the last clause says which are. */
  method IPSuspectFW2(df: CountMap, threshold: int, segCover: int) returns (rest: CountMap, nets: seq<Block>)
    requires Words(df)
    ensures StageOk(df, rest, nets, Chosen(df, 16, threshold), 16) && AllApart(nets)
    ensures forall ip :: ip in df && ip !in rest ==>
              (Covers(nets, ip) <==> Reached16(Group(df, Down(ip, 16), 16), segCover, ip))
  {
    hide Total, Pow2, Words, Aligned, Down, InSegments, AllApart, Group, Groups, Chosen, Covers, Reached16, Reach;
    var sums, groups := GroupBy(df, 16);
    var ps := Select(sums, threshold);
    SelectedAreChosen(df, 16, sums, groups, threshold);
    rest, nets := df, [];
    var todo := ps;
    assert ps - todo == {};
    NothingDone(df, 16);
    assert Reach(df, nets, {}, segCover) by { NothingReached(df, segCover); }
    while todo != {}
      invariant todo <= ps && rest == df - Groups(df, ps - todo, 16)
      invariant AllApart(nets) && InSegments(nets, ps - todo, 16)
      invariant Reach(df, nets, ps - todo, segCover)
    {
      var p :| p in todo;
      GroupWords(df, p, 16);
      var more := SegmentNets16(p, groups[p], segCover);
      SegmentDone(df, nets, more, ps - todo, p, 16);
      ReachMore(df, nets, more, ps - todo, p, segCover);
      assert ps - (todo - {p}) == (ps - todo) + {p};
      rest := rest - groups[p];
      nets := nets + more;
      todo := todo - {p};
    }
    assert ps - {} == ps;
    LeftGroups(df, rest, ps, 16);
    ReachOf(df, nets, ps, segCover);
  }

  lemma NothingReached(df: CountMap, segCover: int)
    ensures Reach(df, [], {}, segCover)
  {
  }

  lemma ReachOf(df: CountMap, nets: seq<Block>, ps: set<nat>, segCover: int)
    requires Reach(df, nets, ps, segCover)
    ensures forall ip :: ip in Groups(df, ps, 16) ==>
              (Covers(nets, ip) <==> Reached16(Group(df, Down(ip, 16), 16), segCover, ip))
  {
  }

  // Networks that do not overlap hold an address at most once.
  lemma InOneNetwork(nets: seq<Block>, ip: nat, i: nat, j: nat)
    requires AllApart(nets) && i < |nets| && j < |nets| && nets[i].Has(ip) && nets[j].Has(ip)
    ensures i == j
  {
  }

  lemma TotalOne(k: nat, v: int)
    ensures Total(map[k := v]) == v
  {
    TotalRemove(map[k := v], k);
    assert map[k := v] - {k} == map[];
  }

  // A map of one address has one segment, with its count.
  lemma OneSegment(df: CountMap, ip: nat, k: nat)
    requires df == map[ip := 5]
    ensures Segments(df, k) == {Down(ip, k)} && Group(df, Down(ip, k), k) == {ip}
    ensures Total(Only(df, Group(df, Down(ip, k), k))) == 5
  {
    hide Total, Down;
    assert Only(df, {ip}) == df;
    TotalOne(ip, 5);
  }

  /** An address that the /16 stage loses: 0.0.0.1, alone in its /16, leaves the map
      and no network covers it. */
  method LostAddress() returns (df: CountMap, rest: CountMap, nets: seq<Block>)
    ensures df == map[1 := 5] && StageOk(df, rest, nets, Chosen(df, 16, 1), 16)
    ensures 1 !in rest && !Covers(nets, 1)
  {
    hide Total, Covers, Segments, Group, Only;
    WordSize();
    df := map[1 := 5];
    OneSegment(df, 1, 16);
    rest, nets := IPSuspectFW2(df, 1, 5);
    assert Down(1, 16) in Chosen(df, 16, 1);
    assert Down(1, 8) == 0 by { DownSmall(1, 8); }
  }
}

/**
 dni/tasks/snding/attacker_ip_merge_task.cc, stages 1 to 3 of Process: the C++
 counterpart of the stages in AttackSources. It differs in its comparisons, in the
 splitter it calls, in erasing addresses only after all networks are made, and in
 keeping third bytes in 8 bits. The result is compared with the Go stages segment
 by segment.
 */
module SourceMergeTask {
  import opened Bits
  import opened Blocks
  import opened Counting
  import opened Splitter
  import opened AttackSources
  import opened PacketBuckets

  // belongs_24 and belongs_16
  predicate BelongsTo(cidr: nat, ip: nat, k: nat) { Shr(Xor(cidr, ip), k) == 0 }

  lemma BelongsIsGroup(cidr: nat, ip: nat, k: nat)
    requires Aligned(cidr, k)
    ensures BelongsTo(cidr, ip, k) <==> Down(ip, k) == cidr
  {
    hide Shr, Xor, Down, Aligned;
    XorShifted(cidr, ip, k);
    DownUnique(cidr, cidr, k);
  }

  // ip & 0x000000FF
  function LastByte(ip: nat): (b: nat)
    ensures b == ip - Down(ip, 8) && b < 256
  {
    LastByteIs(ip);
    And(ip, 0xFF)
  }

  lemma LastByteIs(ip: nat)
    ensures And(ip, 0xFF) == ip - Down(ip, 8) < 256
  {
    hide And, Down;
    assert Pow2(8) == 256;
    AndLowMask(ip, 8);
    DownBounds(ip, 8);
  }

  // A value stored as uint8_t.
  function Narrow(x: nat): nat { x % 256 }

  // What is stored of the third byte of an address: nothing.
  lemma ThirdByteIsLost(ip: nat)
    ensures Narrow(ThirdByte(ip)) == 0
  {
    hide Down, Aligned, Pow2;
    DownBounds(ip, 8);
    DownBounds(ip, 16);
    AlignedWeaken(Down(ip, 16), 8, 16);
    DownTwice(ip, 8, 16);
    MultipleOf256(Down(ip, 8));
    MultipleOf256(Down(ip, 16));
    MultiplesDiffer(Down(ip, 8), Down(ip, 16));
  }

  lemma MultiplesDiffer(a: nat, b: nat)
    requires b <= a && a % 256 == 0 && b % 256 == 0
    ensures (a - b) % 256 == 0
  {
  }

  lemma MultipleOf256(x: nat)
    requires Aligned(x, 8)
    ensures x % 256 == 0
  {
    hide Aligned;
    var a := HalfOf(x, 8);
    var b := HalfOf(a, 7);
    var c := HalfOf(b, 6);
    var d := HalfOf(c, 5);
    var e := HalfOf(d, 4);
    var f := HalfOf(e, 3);
    var g := HalfOf(f, 2);
    var h := HalfOf(g, 1);
    assert x == 256 * h;
  }

  lemma HalfOf(x: nat, k: nat) returns (y: nat)
    requires Aligned(x, k) && k > 0
    ensures x == 2 * y && Aligned(y, k - 1)
  {
    y := x / 2;
  }

  // ---------- which segments are chosen ----------

  // The number of segments is unsigned, so a negative threshold converts to a
  // number that no map reaches.
  function Bar(segments: nat, threshold: int, half: int): int {
    if 0 <= threshold <= segments then half else threshold
  }

  ghost function Picked(m: CountMap, k: nat, threshold: int, half: int): set<nat> {
    set p | p in Segments(m, k) && Total(Only(m, Group(m, p, k))) >= Bar(|Segments(m, k)|, threshold, half)
  }

  /** A segment is picked exactly when it holds an address and its count reaches the
      threshold, or the second one when there are at least as many segments as the
      first, not negative, asks for. */
  lemma PickedMeans(m: CountMap, k: nat, threshold: int, half: int, p: nat, segments: set<nat>, own: CountMap)
    requires forall q :: q in segments <==> exists ip :: ip in m && Down(ip, k) == q
    requires forall ip :: ip in own <==> ip in m && Down(ip, k) == p
    requires forall ip :: ip in own ==> own[ip] == m[ip]
    ensures p in Picked(m, k, threshold, half) <==>
            p in segments && Total(own) >= if threshold < 0 || |segments| < threshold then threshold else half
  {
    hide Total, Down;
    assert Only(m, Group(m, p, k)) == own;
    assert Segments(m, k) == segments;
  }

  /** For one threshold the C++ task picks all the segments that the Go task
      chooses, and no other one exactly when no segment's count equals the limit. */
  lemma PickedAndChosen(m: CountMap, k: nat, threshold: nat)
    ensures Chosen(m, k, threshold) <= Picked(m, k, threshold, Half(threshold))
    ensures Chosen(m, k, threshold) == Picked(m, k, threshold, Half(threshold)) <==>
            forall p :: p in Segments(m, k) ==> Total(Only(m, Group(m, p, k))) != Limit(|Segments(m, k)|, threshold)
  {
    hide Total, Group, Segments, Only;
    forall p | p in Segments(m, k) && Total(Only(m, Group(m, p, k))) == Limit(|Segments(m, k)|, threshold)
      ensures p in Picked(m, k, threshold, Half(threshold)) && p !in Chosen(m, k, threshold)
    {
    }
  }

  // ---------- one segment ----------

  // The list holds the last bytes of the addresses `from` of the group g in /24 p.
  ghost predicate LastOf(g: set<nat>, list: seq<nat>, from: seq<nat>, p: nat) {
    && |list| == |from| == |g|
    && (forall i :: 0 <= i < |list| ==> from[i] == p + list[i])
    && (forall ip :: ip in g <==> ip in from)
  }

  // The loop over the map that collects the last bytes of one /24.
  method LastBytes(df: CountMap, p: nat) returns (list: seq<nat>, ghost from: seq<nat>)
    requires Aligned(p, 8)
    ensures |list| == |Group(df, p, 8)| && forall i :: 0 <= i < |list| ==> p + list[i] in Group(df, p, 8)
    ensures LastOf(Group(df, p, 8), list, from, p)
  {
    hide Down, Aligned, BelongsTo, Group, LastOf;
    list, from := [], [];
    var todo := df.Keys;
    ghost var g := Group(df, p, 8);
    assert g - todo == {} by { GroupInside(df, p, 8); }
    assert LastOf({}, [], [], p) by { LastOfNone(p); }
    while todo != {}
      invariant todo <= df.Keys && LastOf(g - todo, list, from, p)
    {
      var ip :| ip in todo;
      BelongsIsGroup(p, ip, 8);
      GroupHas(df, p, 8, ip);
      if BelongsTo(p, ip, 8) {
        LastOfMore(g - todo, list, from, p, ip);
        list, from := list + [LastByte(ip)], from + [ip];
      }
      GroupRest(g, todo, ip);
      todo := todo - {ip};
    }
    assert g - {} == g;
    LastOfFacts(g, list, from, p);
  }

  lemma LastOfFacts(g: set<nat>, list: seq<nat>, from: seq<nat>, p: nat)
    requires LastOf(g, list, from, p)
    ensures |list| == |g| && forall i :: 0 <= i < |list| ==> p + list[i] in g
  {
    assert forall i :: 0 <= i < |list| ==> from[i] in g;
  }

  lemma GroupRest(g: set<nat>, todo: set<nat>, ip: nat)
    requires ip in todo
    ensures g - (todo - {ip}) == if ip in g then (g - todo) + {ip} else g - todo
  {
  }

  lemma GroupInside(df: CountMap, p: nat, k: nat)
    ensures Group(df, p, k) - df.Keys == {}
  {
  }

  lemma LastOfNone(p: nat)
    ensures LastOf({}, [], [], p)
  {
  }

  lemma LastOfMore(g: set<nat>, list: seq<nat>, from: seq<nat>, p: nat, ip: nat)
    requires LastOf(g, list, from, p) && ip !in g && p <= ip
    ensures LastOf(g + {ip}, list + [ip - p], from + [ip], p)
  {
  }

  lemma GroupHas(df: CountMap, p: nat, k: nat, ip: nat)
    requires ip in df
    ensures ip in Group(df, p, k) <==> Down(ip, k) == p
    ensures Down(ip, k) <= ip
  {
    DownBounds(ip, k);
  }

  // std::min_element and std::max_element
  method MinMaxElement(list: seq<nat>) returns (min: nat, max: nat)
    requires |list| > 0
    ensures min in list && max in list && forall i :: 0 <= i < |list| ==> min <= list[i] <= max
  {
    min, max := list[0], list[0];
    for i := 1 to |list|
      invariant min in list && max in list && forall j :: 0 <= j < i ==> min <= list[j] <= max
    {
      if list[i] < min {
        min := list[i];
      }
      if max < list[i] {
        max := list[i];
      }
    }
  }

  // A /24 or /16 itself, as a prefix.
  lemma SegmentIsNet(p: nat, k: nat)
    requires Aligned(p, k) && p < Pow2(32) && k <= 32
    ensures AllNets(32, [Cidr(p, 32 - k)]) && Nets(32, [Cidr(p, 32 - k)]) == [Block(p, k)]
  {
  }

  /** The networks that one /24 turns into, the same as in Go. A segment without
      addresses turns into nothing. */
  method Segment24(df: CountMap, p: nat, cover: int) returns (cidrs: seq<Cidr>)
    requires Words(df) && Aligned(p, 8)
    ensures AllNets(32, cidrs)
    ensures Group(df, p, 8) == {} ==> cidrs == []
    ensures Group(df, p, 8) != {} ==> Networks24(Nets(32, cidrs), p, Group(df, p, 8), cover)
  {
    hide Aligned, Pow2, Group, Tiling, IsNet, IprangeToCidrs, LastOf;
    ghost var from;
    var list;
    list, from := LastBytes(df, p);
    if |list| == 0 {
      return [];
    }
    var min, max := MinMaxElement(list);
    assert Spans(Group(df, p, 8), p + min, p + max) by { SpansShift(Group(df, p, 8), p, list, from, min, max); }
    GroupInWord(df, p, 8, p + min);
    GroupInWord(df, p, 8, p + max);
    var range := max - min;
    if range >= 200 {
      cidrs := [Cidr(p, 24)];
      SegmentIsNet(p, 8);
    } else if |list| >= cover {
      cidrs := [Cidr(p, 24)];
      SegmentIsNet(p, 8);
    } else {
      cidrs := IprangeToCidrs(32, Cidr(p + min, 32), Cidr(p + max, 32));
      RangeOfHosts(p + min, p + max);
    }
  }

  /** One /24 with the same addresses turns into the same networks in both programs. */
  method BothWays24(df: CountMap, p: nat, cover: int) returns (cpp: seq<Cidr>, go: seq<Block>)
    requires Words(df) && Aligned(p, 8) && Group(df, p, 8) != {}
    ensures AllNets(32, cpp) && Nets(32, cpp) == go && Networks24(go, p, Group(df, p, 8), cover)
  {
    hide Networks24, Aligned, Group, AllApart, Covers, InSegments, IsNet;
    GroupWords(df, p, 8);
    cpp := Segment24(df, p, cover);
    go := SegmentNets24(p, Group(df, p, 8), cover);
    Networks24Facts(go, p, Group(df, p, 8), cover);
  }

  lemma SpansShift(g: set<nat>, p: nat, list: seq<nat>, from: seq<nat>, min: nat, max: nat)
    requires LastOf(g, list, from, p)
    requires min in list && max in list && forall i :: 0 <= i < |list| ==> min <= list[i] <= max
    ensures Spans(g, p + min, p + max)
  {
  }

  lemma GroupInWord(df: CountMap, p: nat, k: nat, ip: nat)
    requires Words(df) && ip in Group(df, p, k)
    ensures p <= ip < Pow2(32)
  {
    DownBounds(ip, k);
  }

  // iprange_to_cidrs between two single addresses
  lemma RangeOfHosts(lo: nat, hi: nat)
    requires lo <= hi < Pow2(32)
    ensures var r := IprangeToCidrs(32, Cidr(lo, 32), Cidr(hi, 32));
            AllNets(32, r) && Nets(32, r) == Tiling(lo, hi + 1)
  {
    hide IprangeToCidrs, Tiling, Canonical, IsNet;
    IprangeToCidrsCorrect(32, Cidr(lo, 32), Cidr(hi, 32));
    assert Pow2(0) == 1 && Down(lo, 0) == lo && Down(hi, 0) == hi;
    TilingUnique(Nets(32, IprangeToCidrs(32, Cidr(lo, 32), Cidr(hi, 32))), lo, hi + 1);
  }

  // The third bytes kept of one /16: as many as it has addresses, all zero.
  method ThirdBytes(df: CountMap, p: nat) returns (list: seq<nat>)
    requires Aligned(p, 16)
    ensures |list| == |Group(df, p, 16)| && forall i :: 0 <= i < |list| ==> list[i] == 0
  {
    hide Down, Aligned, BelongsTo, Group, ThirdByte, Narrow;
    list := [];
    var todo := df.Keys;
    ghost var g := Group(df, p, 16);
    assert g - todo == {} by { GroupInside(df, p, 16); }
    while todo != {}
      invariant todo <= df.Keys && |list| == |g - todo| && forall i :: 0 <= i < |list| ==> list[i] == 0
    {
      var ip :| ip in todo;
      BelongsIsGroup(p, ip, 16);
      GroupHas(df, p, 16, ip);
      if BelongsTo(p, ip, 16) {
        ThirdByteIsLost(ip);
        list := list + [Narrow(ThirdByte(ip))];
      }
      GroupRest(g, todo, ip);
      todo := todo - {ip};
    }
    assert g - {} == g;
  }

  // What one /16 turns into: itself when it has many addresses, else its first /24.
  function Network16(p: nat, ips: set<nat>, cover: int): Block {
    if |ips| >= cover then Block(p, 16) else Block(p, 8)
  }

  /** Since the third bytes are lost, a /16 with few addresses always turns into its
      first /24, wherever its addresses are. */
  method Segment16(df: CountMap, p: nat, cover: int) returns (cidrs: seq<Cidr>)
    requires Words(df) && Aligned(p, 16) && p < Pow2(32)
    ensures AllNets(32, cidrs)
    ensures Nets(32, cidrs) == if Group(df, p, 16) == {} then [] else [Network16(p, Group(df, p, 16), cover)]
  {
    hide Aligned, Pow2, Group, Tiling, IsNet, IprangeToCidrs;
    var list := ThirdBytes(df, p);
    if |list| == 0 {
      return [];
    }
    if |list| >= cover {
      cidrs := [Cidr(p, 16)];
      SegmentIsNet(p, 16);
    } else {
      var min, max := MinMaxElement(list);
      assert min == 0 && max == 0;
      cidrs := IprangeToCidrs(32, Cidr(p + 256 * min, 24), Cidr(p + 256 * max, 24));
      FirstOf16(p);
    }
  }

  lemma FirstOf16(p: nat)
    requires Aligned(p, 16) && p < Pow2(32)
    ensures var r := IprangeToCidrs(32, Cidr(p, 24), Cidr(p, 24));
            AllNets(32, r) && Nets(32, r) == [Block(p, 8)]
  {
    hide Aligned, Pow2, IprangeToCidrs, Tiling, Canonical, IsNet, Down;
    AlignedWeaken(p, 8, 16);
    IprangeToCidrsCorrect(32, Cidr(p, 24), Cidr(p, 24));
    DownUnique(p, p, 8) by { DownBounds(p, 8); }
    BlockRoundTrip(Block(p, 8));
  }

  // ---------- the stages ----------

  lemma PickedAre(m: CountMap, k: nat, sums: CountMap, groups: map<nat, set<nat>>, threshold: int, half: int)
    requires sums.Keys == groups.Keys
    requires forall p :: p in groups ==> groups[p] == Group(m, p, k) && groups[p] != {}
    requires forall ip :: ip in m ==> Down(ip, k) in groups
    requires forall p :: p in sums ==> sums[p] == Total(Only(m, Group(m, p, k)))
    ensures (set p | p in sums && sums[p] >= Bar(|sums|, threshold, half)) == Picked(m, k, threshold, half)
  {
    hide Total, Down, Only;
    assert sums.Keys == Segments(m, k) by {
      forall p | p in sums ensures p in Segments(m, k) {
        var ip :| ip in groups[p];
      }
    }
    assert |sums| == |sums.Keys|;
  }

  // The segments whose sum reaches the bar.
  method Pick(sums: CountMap, threshold: int, half: int) returns (ps: set<nat>)
    ensures ps == set p | p in sums && sums[p] >= Bar(|sums|, threshold, half)
  {
    ps := set p | p in sums && sums[p] >= Bar(|sums|, threshold, half);
  }

  // The loops that erase the addresses of the picked segments.
  method EraseSegments(df: CountMap, ps: set<nat>, groups: map<nat, set<nat>>, k: nat) returns (rest: CountMap)
    requires forall p :: p in ps ==> p in groups && groups[p] == Group(df, p, k)
    ensures rest == df - Groups(df, ps, k)
  {
    hide Down;
    rest := df;
    var todo := ps;
    while todo != {}
      invariant todo <= ps && rest == df - Groups(df, ps - todo, k)
    {
      var p :| p in todo;
      rest := rest - groups[p];
      todo := todo - {p};
    }
  }

  // Of the addresses in segments ps, exactly those that `reached` names are covered.
  ghost predicate Reaches(df: CountMap, nets: seq<Block>, ps: set<nat>, k: nat, reached: set<nat>) {
    forall ip :: ip in Groups(df, ps, k) ==> (Covers(nets, ip) <==> ip in reached)
  }

  // The networks of one more segment.
  lemma OneMore(df: CountMap, nets: seq<Block>, more: seq<Block>, ps: set<nat>, p: nat, k: nat, reached: set<nat>)
    requires AllApart(nets) && AllApart(more) && InSegments(nets, ps, k) && InSegments(more, {p}, k) && p !in ps
    requires Reaches(df, nets, ps, k, reached)
    requires forall ip :: ip in Group(df, p, k) ==> (Covers(more, ip) <==> ip in reached)
    ensures AllApart(nets + more) && InSegments(nets + more, ps + {p}, k)
    ensures Reaches(df, nets + more, ps + {p}, k, reached)
  {
    hide Covers, InSegments, AllApart, Down;
    SegmentDone(df, nets, more, ps, p, k);
    forall ip | ip in Groups(df, ps + {p}, k) ensures Covers(nets + more, ip) <==> ip in reached {
      CoversConcat(nets, more, ip);
      if Down(ip, k) == p {
        OtherSegment(nets, ps, k, ip);
      } else {
        OtherSegment(more, {p}, k, ip);
      }
    }
  }

  lemma NoNets(df: CountMap, k: nat, reached: set<nat>)
    ensures AllApart([]) && InSegments([], {}, k) && Reaches(df, [], {}, k, reached)
  {
  }

  // Every segment of some addresses starts inside the word.
  lemma SegmentInWord(df: CountMap, p: nat, k: nat)
    requires Words(df) && Group(df, p, k) != {}
    ensures p < Pow2(32)
  {
    var ip :| ip in Group(df, p, k);
    DownBounds(ip, k);
  }

  /** The /24 stage: the picked segments leave the map, and each address that left
      lies in exactly one network of the stage. */
  method Stage24(df: CountMap, threshold: int, half: int, cover: int) returns (rest: CountMap, cidrs: seq<Cidr>)
    requires Words(df)
    ensures AllNets(32, cidrs) && AllApart(Nets(32, cidrs))
    ensures StageOk(df, rest, Nets(32, cidrs), Picked(df, 8, threshold, half), 8)
    ensures forall ip :: ip in df && ip !in rest ==> Covers(Nets(32, cidrs), ip)
  {
    hide Total, Pow2, Words, Covers, Aligned, Down, InSegments, AllApart, Group, Groups, Picked, Networks24, IsNet, Reaches;
    var sums, groups := GroupBy(df, 8);
    var ps := Pick(sums, threshold, half);
    PickedAre(df, 8, sums, groups, threshold, half);
    cidrs := [];
    var todo := ps;
    assert ps - todo == {};
    NoNets(df, 8, df.Keys);
    while todo != {}
      invariant todo <= ps && AllNets(32, cidrs)
      invariant AllApart(Nets(32, cidrs)) && InSegments(Nets(32, cidrs), ps - todo, 8)
      invariant Reaches(df, Nets(32, cidrs), ps - todo, 8, df.Keys)
    {
      var p :| p in todo;
      var more := Segment24(df, p, cover);
      All24(df, Nets(32, more), p, cover);
      OneMore(df, Nets(32, cidrs), Nets(32, more), ps - todo, p, 8, df.Keys);
      assert ps - (todo - {p}) == (ps - todo) + {p};
      NetsConcat(32, cidrs, more);
      cidrs := cidrs + more;
      todo := todo - {p};
    }
    assert ps - {} == ps;
    rest := EraseSegments(df, ps, groups, 8);
    LeftGroups(df, rest, ps, 8);
    ReachesOf(df, Nets(32, cidrs), ps, 8, df.Keys);
  }

  lemma All24(df: CountMap, nets: seq<Block>, p: nat, cover: int)
    requires Aligned(p, 8) && Networks24(nets, p, Group(df, p, 8), cover)
    ensures AllApart(nets) && InSegments(nets, {p}, 8)
    ensures forall ip :: ip in Group(df, p, 8) ==> Covers(nets, ip) && ip in df
  {
    hide Networks24, Covers, InSegments, AllApart, Aligned;
    Networks24Facts(nets, p, Group(df, p, 8), cover);
  }

  lemma ReachesOf(df: CountMap, nets: seq<Block>, ps: set<nat>, k: nat, reached: set<nat>)
    requires Reaches(df, nets, ps, k, reached)
    ensures forall ip :: ip in Groups(df, ps, k) ==> (Covers(nets, ip) <==> ip in reached)
  {
  }

  // The addresses that the networks of their /16 cover.
  function Reached(df: CountMap, cover: int): set<nat> {
    set ip | ip in df && (|Group(df, Down(ip, 16), 16)| >= cover || Down(ip, 8) == Down(ip, 16))
  }

  lemma Reach16(df: CountMap, p: nat, cover: int)
    requires Aligned(p, 16)
    ensures var nets := [Network16(p, Group(df, p, 16), cover)];
            && AllApart(nets) && InSegments(nets, {p}, 16)
            && forall ip :: ip in Group(df, p, 16) ==> (Covers(nets, ip) <==> ip in Reached(df, cover))
  {
    hide Aligned, Pow2, Down, Covers;
    var nets, k := [Network16(p, Group(df, p, 16), cover)], if |Group(df, p, 16)| >= cover then 16 else 8;
    AlignedWeaken(p, k, 16);
    AlignedWeaken(p, 8, 16);
    WholeSegment(p, k);
    DownUnique(p, p, 16) by { DownBounds(p, 16); }
    forall ip | ip in Group(df, p, 16) ensures Covers(nets, ip) <==> ip in Reached(df, cover) {
      DownBounds(ip, 8);
      DownBounds(ip, 16);
      if Covers(nets, ip) && k == 8 {
        DownUnique(ip, p, 8);
      }
    }
  }

  /** The /16 stage: the picked segments leave the map. An address that left is
      covered exactly when its /16 has many addresses or it lies in the first /24. */
  method Stage16(df: CountMap, threshold: int, half: int, cover: int) returns (rest: CountMap, cidrs: seq<Cidr>)
    requires Words(df)
    ensures AllNets(32, cidrs) && AllApart(Nets(32, cidrs))
    ensures StageOk(df, rest, Nets(32, cidrs), Picked(df, 16, threshold, half), 16)
    ensures forall ip :: ip in df && ip !in rest ==>
              (Covers(Nets(32, cidrs), ip) <==> |Group(df, Down(ip, 16), 16)| >= cover || Down(ip, 8) == Down(ip, 16))
  {
    hide Total, Pow2, Words, Covers, Aligned, Down, InSegments, AllApart, Group, Groups, Picked, IsNet, Reaches;
    var sums, groups := GroupBy(df, 16);
    var ps := Pick(sums, threshold, half);
    PickedAre(df, 16, sums, groups, threshold, half);
    cidrs := [];
    var todo := ps;
    assert ps - todo == {};
    NoNets(df, 16, Reached(df, cover));
    while todo != {}
      invariant todo <= ps && AllNets(32, cidrs)
      invariant AllApart(Nets(32, cidrs)) && InSegments(Nets(32, cidrs), ps - todo, 16)
      invariant Reaches(df, Nets(32, cidrs), ps - todo, 16, Reached(df, cover))
    {
      var p :| p in todo;
      SegmentInWord(df, p, 16);
      var more := Segment16(df, p, cover);
      Reach16(df, p, cover);
      OneMore(df, Nets(32, cidrs), Nets(32, more), ps - todo, p, 16, Reached(df, cover));
      assert ps - (todo - {p}) == (ps - todo) + {p};
      NetsConcat(32, cidrs, more);
      cidrs := cidrs + more;
      todo := todo - {p};
    }
    assert ps - {} == ps;
    rest := EraseSegments(df, ps, groups, 16);
    LeftGroups(df, rest, ps, 16);
    ReachesOf(df, Nets(32, cidrs), ps, 16, Reached(df, cover));
  }

  // The addresses of m at or over the threshold.
  function Many(m: CountMap, t: int): set<nat> { set ip | ip in m && m[ip] >= t }

  // The two lists of stage 1.
  ghost predicate HostLists(ips: seq<nat>, cidrs: seq<Cidr>, hosts: set<nat>) {
    && Distinct(ips) && Elements(ips) == hosts && |cidrs| == |ips|
    && forall i :: 0 <= i < |ips| ==> cidrs[i] == Cidr(ips[i], 32)
  }

  lemma HostListsMore(ips: seq<nat>, cidrs: seq<Cidr>, hosts: set<nat>, ip: nat)
    requires HostLists(ips, cidrs, hosts) && ip !in hosts
    ensures HostLists(ips + [ip], cidrs + [Cidr(ip, 32)], hosts + {ip})
  {
    assert ip !in ips by { assert ip !in Elements(ips); }
    assert Elements(ips + [ip]) == Elements(ips) + {ip};
  }

  /** The addresses at or over the threshold are collected, then erased. */
  method Stage32(df: CountMap, threshold: int) returns (rest: CountMap, cidrs: seq<Cidr>)
    requires Words(df)
    ensures rest == Fewer(df, threshold)
    ensures forall ip :: ip in rest <==> ip in df && df[ip] < threshold
    ensures AllNets(32, cidrs) && AllApart(Nets(32, cidrs))
    ensures StageOk(df, rest, Nets(32, cidrs), df.Keys - rest.Keys, 0)
    ensures forall ip :: ip in df && ip !in rest ==> Covers(Nets(32, cidrs), ip)
  {
    hide HostLists, Many, Covers, AllApart, Groups, IsNet, InSegments;
    var ipFw4 := [];
    cidrs := [];
    var todo := df.Keys;
    ManyLeft(df, threshold, {});
    assert HostLists([], [], {}) by { NoHosts(); }
    while todo != {}
      invariant todo <= df.Keys && HostLists(ipFw4, cidrs, Many(df, threshold) - todo)
    {
      var ip :| ip in todo;
      ManyStep(df, threshold, todo, ip);
      if df[ip] >= threshold {
        HostListsMore(ipFw4, cidrs, Many(df, threshold) - todo, ip);
        ipFw4 := ipFw4 + [ip];
        cidrs := cidrs + [Cidr(ip, 32)];
      }
      todo := todo - {ip};
    }
    assert Many(df, threshold) - {} == Many(df, threshold);
    rest := df;
    for i := 0 to |ipFw4|
      invariant rest == df - Elements(ipFw4[..i])
    {
      assert ipFw4[..i + 1] == ipFw4[..i] + [ipFw4[i]];
      rest := rest - {ipFw4[i]};
    }
    assert ipFw4[..|ipFw4|] == ipFw4;
    Erased(df, threshold, ipFw4, cidrs, rest);
  }

  lemma NoHosts()
    ensures HostLists([], [], {})
  {
  }

  lemma ManyLeft(df: CountMap, t: int, none: set<nat>)
    requires none == {}
    ensures Many(df, t) - df.Keys == none
  {
  }

  lemma ManyStep(df: CountMap, t: int, todo: set<nat>, ip: nat)
    requires ip in todo && ip in df
    ensures Many(df, t) - (todo - {ip}) == if df[ip] >= t then (Many(df, t) - todo) + {ip} else Many(df, t) - todo
  {
  }

  lemma Erased(df: CountMap, t: int, ips: seq<nat>, cidrs: seq<Cidr>, rest: CountMap)
    requires Words(df) && HostLists(ips, cidrs, Many(df, t)) && rest == df - Elements(ips)
    ensures rest == Fewer(df, t) && AllNets(32, cidrs) && AllApart(Nets(32, cidrs))
    ensures StageOk(df, rest, Nets(32, cidrs), df.Keys - rest.Keys, 0)
    ensures forall ip :: ip in df && ip !in rest ==> Covers(Nets(32, cidrs), ip)
  {
    hide Pow2, IsNet, HostLists, Covers, AllApart, StageOk, Words, Many;
    KeptIsFewer(df, t, ips, cidrs, rest);
    HostNets(df, t, ips, cidrs);
    var nets := Nets(32, cidrs);
    forall i | 0 <= i < |nets| ensures nets[i].bits == 0 && nets[i].lo in df.Keys - rest.Keys {
      assert nets[i].lo in Elements(ips);
    }
    HostStage(df, rest, nets);
    forall ip | ip in df && ip !in rest ensures Covers(nets, ip) {
      assert ip in Elements(ips);
    }
  }

  lemma KeptIsFewer(df: CountMap, t: int, ips: seq<nat>, cidrs: seq<Cidr>, rest: CountMap)
    requires HostLists(ips, cidrs, Many(df, t)) && rest == df - Elements(ips)
    ensures rest == Fewer(df, t) && df.Keys - rest.Keys == Elements(ips)
  {
  }

  lemma HostNets(df: CountMap, t: int, ips: seq<nat>, cidrs: seq<Cidr>)
    requires Words(df) && HostLists(ips, cidrs, Many(df, t))
    ensures AllNets(32, cidrs) && AllApart(Nets(32, cidrs))
    ensures forall i :: 0 <= i < |cidrs| ==> Nets(32, cidrs)[i].bits == 0 && Nets(32, cidrs)[i].lo in Elements(ips)
    ensures forall ip :: ip in Elements(ips) ==> Covers(Nets(32, cidrs), ip)
  {
    hide Pow2, Covers;
    forall i | 0 <= i < |ips| ensures IsNet(32, cidrs[i]) {
      assert ips[i] in Elements(ips);
    }
    var nets := Nets(32, cidrs);
    assert Pow2(0) == 1 by { PowZero(); }
    forall ip | ip in Elements(ips) ensures Covers(nets, ip) {
      var i :| 0 <= i < |ips| && ips[i] == ip;
      MemberCovered(nets, i);
    }
  }

  /** Stages 1 to 3: no address left over lies in a network, and every address that
      left in the first two stages is covered. */
  method Attackers(df: CountMap, t4: int, t3: int, half3: int, t2: int, half2: int, cover: int)
    returns (rest: CountMap, cidrs: seq<Cidr>)
    requires Words(df)
    ensures AllNets(32, cidrs) && Separate(rest, Nets(32, cidrs))
    ensures var m1 := Fewer(df, t4);
            var m2 := m1 - Groups(m1, Picked(m1, 8, t3, half3), 8);
            && rest == m2 - Groups(m2, Picked(m2, 16, t2, half2), 16)
            && forall ip :: ip in df && ip !in m2 ==> Covers(Nets(32, cidrs), ip)
  {
    hide Total, Covers, Picked, InSegments, AllApart, Pow2, Down, Groups, IsNet, Only;
    var df1, cidrs1 := Stage32(df, t4);
    StageSeparates(df, df1, Nets(32, cidrs1), df.Keys - df1.Keys, 0);
    if |df1| == 0 {
      NothingLeft(df1, 8);
      NothingLeft(df1, 16);
      return df1, cidrs1;
    }
    var df2, cidrs2 := Stage24(df1, t3, half3, cover);
    StageSeparates(df1, df2, Nets(32, cidrs2), Picked(df1, 8, t3, half3), 8);
    SeparateMore(df1, df2, Nets(32, cidrs1), Nets(32, cidrs2));
    NetsConcat(32, cidrs1, cidrs2);
    cidrs := cidrs1 + cidrs2;
    forall ip | ip in df && ip !in df2 ensures Covers(Nets(32, cidrs), ip) {
      CoversConcat(Nets(32, cidrs1), Nets(32, cidrs2), ip);
    }
    if |df2| == 0 {
      NothingLeft(df2, 16);
      return df2, cidrs;
    }
    var cidrs3;
    rest, cidrs3 := Stage16(df2, t2, half2, cover);
    StageSeparates(df2, rest, Nets(32, cidrs3), Picked(df2, 16, t2, half2), 16);
    SeparateMore(df2, rest, Nets(32, cidrs), Nets(32, cidrs3));
    NetsConcat(32, cidrs, cidrs3);
    forall ip | ip in df && ip !in df2 ensures Covers(Nets(32, cidrs + cidrs3), ip) {
      CoversConcat(Nets(32, cidrs), Nets(32, cidrs3), ip);
    }
    cidrs := cidrs + cidrs3;
  }

  lemma NothingLeft(m: CountMap, k: nat)
    requires |m| == 0
    ensures forall ps :: m - Groups(m, ps, k) == m
  {
  }

  /** An address that the /16 stage loses: 0.0.1.0, alone in its /16, leaves the map
      and only the first /24 is reported. */
  method LostAddress16() returns (df: CountMap, rest: CountMap, cidrs: seq<Cidr>)
    ensures df == map[256 := 5] && AllNets(32, cidrs)
    ensures StageOk(df, rest, Nets(32, cidrs), Picked(df, 16, 1, 0), 16)
    ensures 256 !in rest && !Covers(Nets(32, cidrs), 256)
  {
    hide Total, Covers, Segments, Group, Only, IsNet, AllApart, InSegments;
    WordSize();
    df := map[256 := 5];
    OneSegment(df, 256, 16);
    rest, cidrs := Stage16(df, 1, 0, 5);
    assert Down(256, 16) in Picked(df, 16, 1, 0);
    assert Down(256, 16) == 0 && Down(256, 8) == 256 by { Low256(); }
  }

  lemma Low256()
    ensures Down(256, 16) == 0 && Down(256, 8) == 256
  {
    WordSize();
    DownSmall(256, 16);
    assert Aligned(256, 8) by { PowerAligned(8); }
    DownUnique(256, 256, 8);
  }
}

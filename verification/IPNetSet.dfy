/**
 dni/go/sdk/utils/ip.go, IPNetSet: a set of IPv4 networks kept in three views, an
 exact map, a map of the /32 members and a slice of the other members as ranges in
 ascending order, searched by bisection.

 A canonical network (address already masked) is a `Block`; its mask has
 32 - bits ones, so a /32 member has bits == 0. The Go map values carry nothing, so
 the maps are sets. Range end points are numbers here; UitonOrder in
 ByteAddress shows that comparing their byte forms is comparing the numbers.
 */
module IPNetSets {
  import opened Bits
  import opened Blocks

  predicate IsNetwork(n: Block) { n.Ok() && n.bits <= 32 && n.End() <= Pow2(32) }

  datatype Span = Span(start: nat, end: nat)

  function Mask(n: Block): nat
    requires IsNetwork(n)
  {
    Pow2Grows(n.bits, 32);
    Pow2(32) - Pow2(n.bits)
  }

  lemma MaskEnds(n: Block)
    requires IsNetwork(n)
    ensures Mask(n) < Pow2(32)
    ensures And(n.lo, Mask(n)) == n.lo && Or(n.lo, Not(Mask(n), 32)) == n.End() - 1
  {
    hide Pow2, Aligned, And, Or;
    Pow2Grows(n.bits, 32);
    AndHighMask(n.lo, n.bits, 32);
    DownUnique(n.lo, n.lo, n.bits);
    OrLowMask(n.lo, n.bits);
  }

  // start = IPAddr & Mask, end = IPAddr | ^Mask
  function IPNetToRange(n: Block): (r: Span)
    requires IsNetwork(n)
    ensures r == Span(n.lo, n.End() - 1)
  {
    MaskEnds(n);
    Span(And(n.lo, Mask(n)), Or(n.lo, Not(Mask(n), 32)))
  }

  // ---------- the intended meaning ----------

  // Some member contains n.
  ghost predicate CoveredBy(s: set<Block>, n: Block) { exists m :: m in s && n.Within(m) }

  // The members that n contains.
  function Inside(s: set<Block>, n: Block): set<Block> { set m | m in s && m.Within(n) }

  ghost function AddTo(s: set<Block>, n: Block): set<Block> {
    if CoveredBy(s, n) then s else s - Inside(s, n) + {n}
  }

  // Deletion stops at the first argument that is not a member.
  function DeleteFrom(s: set<Block>, ns: seq<Block>): set<Block> {
    if ns == [] || ns[0] !in s then s else DeleteFrom(s - {ns[0]}, ns[1..])
  }

  ghost predicate AllApart(s: set<Block>) {
    forall a, b :: a in s && b in s && a != b ==> a.Apart(b)
  }

  ghost predicate AllNetworks(s: set<Block>) { forall n :: n in s ==> IsNetwork(n) }

  ghost predicate InSet(s: set<Block>, x: nat) { exists m :: m in s && m.Has(x) }

  // Adding a network makes the covered addresses the union.
  lemma AddCoversUnion(s: set<Block>, n: Block, x: nat)
    ensures InSet(AddTo(s, n), x) <==> InSet(s, x) || n.Has(x)
  {
  }

  lemma AddKeepsApart(s: set<Block>, n: Block)
    requires AllApart(s) && AllNetworks(s) && IsNetwork(n)
    ensures AllApart(AddTo(s, n)) && AllNetworks(AddTo(s, n))
  {
    hide Pow2, IsNetwork, Aligned;
    if !CoveredBy(s, n) {
      forall m | m in s - Inside(s, n) ensures m.Apart(n) {
        assert m.Ok() && n.Ok() by { NetworkOk(m); NetworkOk(n); }
        NestedOrApart(m, n);
      }
    }
  }

  lemma NetworkOk(n: Block)
    requires IsNetwork(n)
    ensures n.Ok()
  {
  }

  lemma {:induction false} DeleteKeepsApart(s: set<Block>, ns: seq<Block>)
    requires AllApart(s) && AllNetworks(s)
    ensures AllApart(DeleteFrom(s, ns)) && AllNetworks(DeleteFrom(s, ns)) && DeleteFrom(s, ns) <= s
  {
    hide IsNetwork;
    if ns != [] && ns[0] in s {
      DeleteKeepsApart(s - {ns[0]}, ns[1..]);
    }
  }

  // The first k arguments were distinct members and are gone; the next one, if any,
  // is not a member.
  ghost predicate DeletedUpTo(before: set<Block>, after: set<Block>, ns: seq<Block>, k: nat) {
    && k <= |ns| && Members(ns[..k]) <= before && NoRepeats(ns[..k])
    && after == before - Members(ns[..k]) && (k < |ns| ==> ns[k] !in after)
  }

  /** Deletion removes a prefix of its arguments, each of them once, and stops only at
      the end or at an argument that is not, or no longer, a member. */
  lemma {:induction false} DeletesPrefix(s: set<Block>, ns: seq<Block>) returns (k: nat)
    ensures DeletedUpTo(s, DeleteFrom(s, ns), ns, k)
  {
    if ns == [] || ns[0] !in s {
      k := 0;
    } else {
      var j := DeletesPrefix(s - {ns[0]}, ns[1..]);
      k := j + 1;
      assert ns[..k] == [ns[0]] + ns[1..][..j];
      MembersSplit([ns[0]], ns[1..][..j]);
      NoRepeatsConcat([ns[0]], ns[1..][..j]);
    }
  }

  datatype Op = AddOp(n: Block) | DeleteOp(ns: seq<Block>) | ClearOp

  ghost function Apply(s: set<Block>, op: Op): set<Block> {
    match op
    case AddOp(n) => AddTo(s, n)
    case DeleteOp(ns) => DeleteFrom(s, ns)
    case ClearOp => {}
  }

  ghost function Run(s: set<Block>, ops: seq<Op>): set<Block>
    decreases |ops|
  {
    if ops == [] then s else Run(Apply(s, ops[0]), ops[1..])
  }

  // A run does its operations in order.
  lemma {:induction false} RunSnoc(s: set<Block>, ops: seq<Op>, op: Op)
    ensures Run(s, ops + [op]) == Apply(Run(s, ops), op)
    decreases |ops|
  {
    hide Apply;
    if ops == [] {
      assert ops + [op] == [op] && [op][1..] == [];
    } else {
      RunSnoc(Apply(s, ops[0]), ops[1..], op);
      assert (ops + [op])[1..] == ops[1..] + [op];
    }
  }

  /** Whatever the sequence of calls, no two members overlap. With the contracts
      of the methods below this holds of every reachable index. */
  lemma {:induction false} RunKeepsApart(s: set<Block>, ops: seq<Op>)
    requires AllApart(s) && AllNetworks(s)
    requires forall op :: op in ops && op.AddOp? ==> IsNetwork(op.n)
    ensures AllApart(Run(s, ops)) && AllNetworks(Run(s, ops))
    decreases |ops|
  {
    hide IsNetwork, AllApart, AllNetworks, AddTo;
    if ops != [] {
      match ops[0] {
        case AddOp(n) => assert ops[0] in ops; AddKeepsApart(s, n);
        case DeleteOp(ns) => DeleteKeepsApart(s, ns);
        case ClearOp => EmptyApart();
      }
      RunKeepsApart(Apply(s, ops[0]), ops[1..]);
    }
  }

  lemma EmptyApart()
    ensures AllApart({}) && AllNetworks({})
  {
  }

  // ---------- the three views ----------

  // The exact map, the /32 map and the other members in ascending order agree.
  ghost predicate Agree(inets: set<Block>, single: set<Block>, tiles: seq<Block>) {
    && AllNetworks(inets) && AllApart(inets)
    && inets == single + Members(tiles)
    && (forall n :: n in single ==> n.bits == 0)
    && (forall i :: 0 <= i < |tiles| ==> tiles[i].bits > 0)
    && Ascending(tiles)
  }

  predicate Mirrors(ranges: seq<Span>, tiles: seq<Block>) {
    |ranges| == |tiles| && forall i :: 0 <= i < |tiles| ==> ranges[i] == Span(tiles[i].lo, tiles[i].End() - 1)
  }

  lemma DropSingles(inets: set<Block>, single: set<Block>, tiles: seq<Block>, d: set<Block>)
    requires Agree(inets, single, tiles) && d <= single
    ensures Agree(inets - d, single - d, tiles)
  {
  }

  lemma AddSingle(inets: set<Block>, single: set<Block>, tiles: seq<Block>, n: Block)
    requires Agree(inets, single, tiles) && IsNetwork(n) && n.bits == 0
    requires forall m :: m in inets ==> m.Apart(n)
    ensures Agree(inets + {n}, single + {n}, tiles)
  {
  }

  lemma MembersSplit(a: seq<Block>, b: seq<Block>)
    ensures Members(a + b) == Members(a) + Members(b)
  {
  }

  lemma OutsideSlice(tiles: seq<Block>, m: Block, idx: nat, end: nat)
    requires idx <= end <= |tiles| && m in tiles && m !in Members(tiles[idx..end])
    ensures exists i :: (0 <= i < idx || end <= i < |tiles|) && tiles[i] == m
  {
  }

  lemma NewOrder(tiles: seq<Block>, n: Block, idx: nat, end: nat)
    requires Ascending(tiles) && idx <= end <= |tiles|
    requires forall i :: 0 <= i < idx ==> tiles[i].End() <= n.lo
    requires forall i :: end <= i < |tiles| ==> n.End() <= tiles[i].lo
    ensures Ascending(tiles[..idx] + [n] + tiles[end..])
  {
  }

  lemma NewMembers(tiles: seq<Block>, n: Block, idx: nat, end: nat)
    requires Ascending(tiles) && idx <= end <= |tiles|
    ensures Members(tiles[..idx] + [n] + tiles[end..]) == Members(tiles) - Members(tiles[idx..end]) + {n}
  {
  }

  // Tiles from idx up to end give way to n, which lies between the others.
  lemma ReplaceTiles(inets: set<Block>, single: set<Block>, tiles: seq<Block>, n: Block, idx: nat, end: nat)
    requires Agree(inets, single, tiles) && IsNetwork(n) && n.bits > 0
    requires idx <= end <= |tiles|
    requires forall i :: 0 <= i < idx ==> tiles[i].End() <= n.lo
    requires forall i :: end <= i < |tiles| ==> n.End() <= tiles[i].lo
    requires forall m :: m in single ==> m.Apart(n)
    ensures Agree(inets - Members(tiles[idx..end]) + {n}, single, tiles[..idx] + [n] + tiles[end..])
  {
    hide IsNetwork, Pow2;
    NewOrder(tiles, n, idx, end);
    NewMembers(tiles, n, idx, end);
    var gone, t := Members(tiles[idx..end]), tiles[..idx] + [n] + tiles[end..];
    assert gone <= Members(tiles) && gone !! single by {
      forall m | m in gone ensures m in tiles && m !in single {
      }
    }
    forall m | m in inets - gone ensures m.Apart(n) {
      if m !in single {
        OutsideSlice(tiles, m, idx, end);
      }
    }
  }

  // Tile idx is taken out.
  lemma RemoveTile(inets: set<Block>, single: set<Block>, tiles: seq<Block>, idx: nat)
    requires Agree(inets, single, tiles) && idx < |tiles|
    ensures Agree(inets - {tiles[idx]}, single, tiles[..idx] + tiles[idx + 1..])
  {
    hide IsNetwork, Pow2;
    var a, c := tiles[..idx], tiles[idx + 1..];
    var t := a + c;
    assert tiles == a + [tiles[idx]] + c;
    MembersSplit(a + [tiles[idx]], c);
    MembersSplit(a, [tiles[idx]]);
    MembersSplit(a, c);
    assert tiles[idx] !in Members(t) && tiles[idx] !in single by { TileOnce(tiles, idx); }
    assert inets - {tiles[idx]} == single + Members(t);
    assert Ascending(t) by { DropOrder(tiles, idx); }
  }

  lemma TileOnce(tiles: seq<Block>, idx: nat)
    requires Ascending(tiles) && idx < |tiles|
    ensures tiles[idx] !in Members(tiles[..idx] + tiles[idx + 1..])
  {
  }

  lemma DropOrder(tiles: seq<Block>, idx: nat)
    requires Ascending(tiles) && idx < |tiles|
    ensures Ascending(tiles[..idx] + tiles[idx + 1..])
  {
  }

  // ---------- where a network stands among the tiles ----------

  lemma TilesOk(inets: set<Block>, single: set<Block>, tiles: seq<Block>)
    requires Agree(inets, single, tiles)
    ensures AllOk(tiles) && Ascending(tiles)
    ensures forall i, j :: 0 <= i < j < |tiles| ==> tiles[i].lo < tiles[j].lo
  {
  }

  // n starts after the tiles before idx and no later than the others.
  predicate Placed(tiles: seq<Block>, n: Block, idx: nat) {
    && AllOk(tiles) && Ascending(tiles) && n.Ok() && idx <= |tiles|
    && (forall i :: 0 <= i < idx ==> tiles[i].lo < n.lo)
    && (forall i :: idx <= i < |tiles| ==> n.lo <= tiles[i].lo)
  }

  // Only the tile just before idx can reach n, and then it contains n.
  lemma TilesBefore(tiles: seq<Block>, n: Block, idx: nat)
    requires Placed(tiles, n, idx) && 0 < idx
    ensures n.End() <= tiles[idx - 1].End() ==> n.Within(tiles[idx - 1]) && n != tiles[idx - 1]
    ensures n.End() > tiles[idx - 1].End() ==> forall i :: 0 <= i < idx ==> tiles[i].End() <= n.lo
  {
    hide Aligned, Pow2;
    var p := tiles[idx - 1];
    NestedOrApart(n, p);
    forall i | 0 <= i < idx - 1 ensures tiles[i].End() < n.lo {
      assert tiles[i].End() <= p.lo;
    }
  }

  // The tile at idx equals n, is on one side of the containment, or lies after n.
  lemma TilesAfter(tiles: seq<Block>, n: Block, idx: nat)
    requires Placed(tiles, n, idx) && idx < |tiles|
    ensures tiles[idx].lo == n.lo && tiles[idx].End() == n.End() ==> tiles[idx] == n
    ensures tiles[idx].End() <= n.End() ==> tiles[idx].Within(n)
    ensures tiles[idx].lo == n.lo && n.End() < tiles[idx].End() ==> n.Within(tiles[idx])
    ensures n.lo < tiles[idx].lo && n.End() < tiles[idx].End()
            ==> forall i :: idx <= i < |tiles| ==> n.End() <= tiles[i].lo
  {
    hide Aligned, Pow2;
    var q := tiles[idx];
    NestedOrApart(n, q);
    if q.lo == n.lo && q.End() == n.End() {
      Mutual(q, n);
    }
    assert forall i :: idx < i < |tiles| ==> q.End() <= tiles[i].lo;
  }

  // ---------- what Add finds ----------

  predicate NoRepeats(s: seq<Block>) { forall i, j :: 0 <= i < j < |s| ==> s[i] != s[j] }

  // With the tiles from idx up to end inside n and the others apart from it.
  lemma FoundRoom(inets: set<Block>, single: set<Block>, tiles: seq<Block>, n: Block, idx: nat, end: nat)
    requires Agree(inets, single, tiles) && IsNetwork(n) && n !in inets && idx <= end <= |tiles|
    requires forall i :: 0 <= i < idx ==> tiles[i].End() <= n.lo
    requires forall i :: end <= i < |tiles| ==> n.End() <= tiles[i].lo
    requires forall i :: idx <= i < end ==> tiles[i].Within(n)
    ensures !CoveredBy(inets, n)
    ensures Inside(inets, n) == Inside(single, n) + Members(tiles[idx..end])
    ensures forall m :: m in inets - Inside(inets, n) ==> m.Apart(n)
    ensures Inside(single, n) == {} ==> forall m :: m in single ==> m.Apart(n)
  {
    hide Aligned, Pow2;
    forall m | m in single ensures !n.Within(m) && (m.Within(n) || m.Apart(n)) {
      assert m in inets;
      NestedOrApart(n, m);
      NestedOrApart(m, n);
      if n.Within(m) { Mutual(n, m); }
    }
    forall m | m in tiles && m !in Members(tiles[idx..end])
      ensures !n.Within(m) && !m.Within(n) && m.Apart(n)
    {
      OutsideSlice(tiles, m, idx, end);
    }
    forall m | m in Members(tiles[idx..end]) ensures m in inets && m.Within(n) && !n.Within(m) {
      assert m in tiles;
      if n.Within(m) { Mutual(n, m); }
    }
    if Inside(single, n) == {} {
      forall m | m in single ensures m.Apart(n) {
        assert m !in Inside(single, n);
      }
    }
  }

  lemma FoundParent(inets: set<Block>, single: set<Block>, tiles: seq<Block>, n: Block, idx: nat)
    requires Agree(inets, single, tiles) && IsNetwork(n) && idx < |tiles| && n.Within(tiles[idx])
    ensures CoveredBy(inets, n) && Inside(single, n) == {}
  {
    hide IsNetwork;
    var p := tiles[idx];
    assert p in inets;
    forall m | m in single ensures !m.Within(n) {
      assert m in inets && m.Apart(p);
    }
  }

  // Dropping members inside n first does not change what Add has to do.
  lemma DropThenAdd(s: set<Block>, d: set<Block>, n: Block)
    requires AllNetworks(s) && IsNetwork(n) && n !in s && d <= Inside(s, n)
    ensures CoveredBy(s, n) <==> CoveredBy(s - d, n)
    ensures Inside(s, n) == d + Inside(s - d, n)
  {
    hide Aligned, Pow2;
    forall m | m in d ensures !n.Within(m) {
      if n.Within(m) { Mutual(m, n); }
    }
  }

  lemma NoRepeatsConcat(a: seq<Block>, b: seq<Block>)
    requires NoRepeats(a) && NoRepeats(b) && Members(a) !! Members(b)
    ensures NoRepeats(a + b)
  {
    forall i, j | 0 <= i < j < |a + b| ensures (a + b)[i] != (a + b)[j] {
      if i < |a| <= j { assert a[i] in Members(a) && b[j - |a|] in Members(b); }
    }
  }

  lemma SliceNoRepeats(tiles: seq<Block>, idx: nat, end: nat)
    requires Ascending(tiles) && idx <= end <= |tiles|
    ensures NoRepeats(tiles[idx..end])
  {
  }

  lemma MirrorsLength(ranges: seq<Span>, tiles: seq<Block>)
    requires Mirrors(ranges, tiles)
    ensures |ranges| == |tiles|
  {
  }

  lemma MirrorsReplace(ranges: seq<Span>, tiles: seq<Block>, n: Block, idx: nat, end: nat)
    requires Mirrors(ranges, tiles) && idx <= end <= |tiles|
    ensures Mirrors(ranges[..idx] + [Span(n.lo, n.End() - 1)] + ranges[end..], tiles[..idx] + [n] + tiles[end..])
  {
  }

  // The first tile that sticks out of n ends the run of tiles inside n.
  lemma RunEnds(tiles: seq<Block>, n: Block, idx: nat, end: nat)
    requires AllOk(tiles) && Ascending(tiles) && n.Ok() && idx < end < |tiles|
    requires tiles[idx].Within(n) && n.End() < tiles[end].End()
    ensures forall i :: end <= i < |tiles| ==> n.End() <= tiles[i].lo
  {
    hide Aligned, Pow2;
    NestedOrApart(tiles[end], n);
    assert tiles[idx].End() <= tiles[end].lo;
    assert forall i :: end < i < |tiles| ==> tiles[end].End() <= tiles[i].lo;
  }

  // n in place of the run of tiles inside it.
  lemma Absorbed(inets: set<Block>, single: set<Block>, tiles: seq<Block>, n: Block, idx: nat, end: nat)
    requires Agree(inets, single, tiles) && IsNetwork(n) && n !in inets && idx < end <= |tiles|
    requires forall i :: 0 <= i < idx ==> tiles[i].End() <= n.lo
    requires forall i :: idx <= i < end ==> tiles[i].Within(n)
    requires end < |tiles| ==> n.End() < tiles[end].End()
    requires Inside(single, n) == {}
    ensures var gone := Members(tiles[idx..end]);
            && !CoveredBy(inets, n) && gone == Inside(inets, n)
            && gone !! single && n !in gone && NoRepeats(tiles[idx..end])
            && Agree(inets - gone + {n}, single, tiles[..idx] + [n] + tiles[end..])
  {
    hide Agree, Pow2, Aligned, IsNetwork;
    TilesOk(inets, single, tiles);
    NetworkOk(n);
    if end < |tiles| {
      RunEnds(tiles, n, idx, end);
    }
    FoundRoom(inets, single, tiles, n, idx, end);
    TilesAreMembers(inets, single, tiles);
    BiggerThanTile(inets, single, tiles, n, idx);
    SliceNoRepeats(tiles, idx, end);
    ReplaceTiles(inets, single, tiles, n, idx, end);
  }

  lemma AgreeApart(inets: set<Block>, single: set<Block>, tiles: seq<Block>)
    requires Agree(inets, single, tiles)
    ensures AllApart(inets) && AllNetworks(inets) && Members(tiles) <= inets
  {
  }

  // A network that contains a member is not inside another one.
  lemma NoParent(s: set<Block>, n: Block, child: Block)
    requires AllApart(s) && AllNetworks(s) && IsNetwork(n) && child in s && child.Within(n) && n !in s
    ensures !CoveredBy(s, n)
  {
    hide Aligned, Pow2;
    forall m | m in s ensures !n.Within(m) {
      if n.Within(m) {
        Mutual(child, n);
      }
    }
  }

  lemma OnlySingle(inets: set<Block>, single: set<Block>, tiles: seq<Block>, n: Block)
    requires Agree(inets, single, tiles) && n in inets && n.bits == 0
    ensures n in single
  {
  }

  // A member that is not a /32 sits at the place the bisection finds.
  lemma FindTile(inets: set<Block>, single: set<Block>, tiles: seq<Block>, ranges: seq<Span>, n: Block, idx: nat)
    requires Agree(inets, single, tiles) && Mirrors(ranges, tiles) && n in inets && n.bits > 0
    requires idx <= |ranges|
    requires forall i :: 0 <= i < idx ==> ranges[i].start < n.lo
    requires forall i :: idx <= i < |ranges| ==> ranges[i].start >= n.lo
    ensures idx < |tiles| && |ranges| == |tiles| && tiles[idx] == n
  {
  }

  lemma MirrorsDrop(ranges: seq<Span>, tiles: seq<Block>, idx: nat)
    requires Mirrors(ranges, tiles) && idx < |tiles|
    ensures Mirrors(ranges[..idx] + ranges[idx + 1..], tiles[..idx] + tiles[idx + 1..])
  {
  }

  lemma SingleBits(inets: set<Block>, single: set<Block>, tiles: seq<Block>, m: Block)
    requires Agree(inets, single, tiles) && m in single
    ensures m.bits == 0
  {
  }

  lemma AgreeNetworks(inets: set<Block>, single: set<Block>, tiles: seq<Block>)
    requires Agree(inets, single, tiles)
    ensures AllNetworks(inets) && single <= inets
  {
  }

  lemma NoneMeansEmpty(s: seq<Block>)
    ensures Members(s) == {} <==> s == []
  {
    assert s != [] ==> s[0] in Members(s);
  }

  lemma OneAddress(m: Block)
    requires m.bits == 0
    ensures m.End() == m.lo + 1
  {
  }

  lemma TilesAreMembers(inets: set<Block>, single: set<Block>, tiles: seq<Block>)
    requires Agree(inets, single, tiles)
    ensures Members(tiles) <= inets && Members(tiles) !! single
  {
  }

  lemma BiggerThanTile(inets: set<Block>, single: set<Block>, tiles: seq<Block>, n: Block, idx: nat)
    requires Agree(inets, single, tiles) && idx < |tiles| && IsNetwork(n) && tiles[idx].Within(n)
    ensures n.bits > 0
  {
  }

  // An index without members has nothing in the other views either.
  lemma EmptyViews(inets: set<Block>, single: set<Block>, tiles: seq<Block>)
    requires Agree(inets, single, tiles) && inets == {}
    ensures single == {} && tiles == []
  {
    NoneMeansEmpty(tiles);
  }

  lemma AgreeOne(n: Block)
    requires IsNetwork(n)
    ensures n.bits == 0 ==> Agree({n}, {n}, [])
    ensures n.bits > 0 ==> Agree({n}, {}, [n])
  {
  }

  // ---------- the index ----------

  class IPNetSet {
    var inets: set<Block>
    var single: set<Block>
    var ranges: seq<Span>
    // the networks that `ranges` came from
    ghost var tiles: seq<Block>

    ghost predicate Valid()
      reads this
    {
      Agree(inets, single, tiles) && Mirrors(ranges, tiles)
    }

    constructor ()
      ensures Valid() && inets == {}
    {
      inets, single, ranges, tiles := {}, {}, [], [];
    }

    method ClearAll()
      modifies this
      ensures Valid() && inets == {}
    {
      inets, single, ranges, tiles := {}, {}, [], [];
    }

    // sort.Search for the first range that starts no earlier than `start`
    method LowerBound(start: nat) returns (idx: nat)
      requires Valid()
      ensures idx <= |ranges|
      ensures forall i :: 0 <= i < idx ==> ranges[i].start < start
      ensures forall i :: idx <= i < |ranges| ==> ranges[i].start >= start
    {
      hide Agree, Pow2;
      TilesOk(inets, single, tiles);
      var i, j := 0, |ranges|;
      while i < j
        invariant 0 <= i <= j <= |ranges|
        invariant forall k :: 0 <= k < i ==> ranges[k].start < start
        invariant forall k :: j <= k < |ranges| ==> ranges[k].start >= start
      {
        var h := (i + j) / 2;
        if ranges[h].start < start {
          i := h + 1;
        } else {
          j := h;
        }
      }
      idx := i;
    }

    /** Where n stands among the ranges: -1 inside ranges[idx], 0 equal to it,
        1 containing it and nothing before it, -2 apart from all of them with idx
        the place to insert it. */
    method Search(n: Block) returns (idx: nat, c: int)
      requires Valid() && IsNetwork(n)
      ensures idx <= |tiles| && (c == -2 || (-1 <= c <= 1 && idx < |tiles|))
      ensures c == -1 ==> n.Within(tiles[idx]) && n != tiles[idx]
      ensures c == 0 ==> n == tiles[idx]
      ensures c == 1 ==> tiles[idx].Within(n) && n != tiles[idx]
      ensures c == 1 || c == -2 ==> forall i :: 0 <= i < idx ==> tiles[i].End() <= n.lo
      ensures c == -2 ==> forall i :: idx <= i < |tiles| ==> n.End() <= tiles[i].lo
    {
      hide Agree, Pow2, Aligned;
      if |ranges| == 0 {
        return 0, -2;
      }
      var nr := IPNetToRange(n);
      idx := LowerBound(nr.start);
      TilesOk(inets, single, tiles);
      assert Placed(tiles, n, idx) by { NetworkOk(n); }
      if idx > 0 { TilesBefore(tiles, n, idx); }
      if idx == |ranges| {
        if nr.end <= ranges[idx - 1].end {
          return idx - 1, -1;
        } else {
          return idx, -2;
        }
      }
      TilesAfter(tiles, n, idx);
      if ranges[idx].start == nr.start {
        return idx, if nr.end < ranges[idx].end then -1 else if nr.end > ranges[idx].end then 1 else 0;
      } else {
        if idx != 0 && nr.end <= ranges[idx - 1].end {
          return idx - 1, -1;
        }
        if nr.end >= ranges[idx].end {
          return idx, 1;
        } else {
          return idx, -2;
        }
      }
    }

    // The first loop of Add: /32 members inside n go.
    method DropSinglesInside(n: Block) returns (del: seq<Block>)
      requires Valid() && IsNetwork(n)
      modifies this
      ensures Valid() && ranges == old(ranges) && tiles == old(tiles)
      ensures Members(del) == Inside(old(single), n) && NoRepeats(del)
      ensures inets == old(inets) - Members(del) && single == old(single) - Members(del)
    {
      hide Agree, Pow2, Aligned;
      var r := IPNetToRange(n);
      del := [];
      var todo := single;
      while todo != {}
        invariant todo <= old(single) && ranges == old(ranges) && tiles == old(tiles)
        invariant Members(del) == Inside(old(single) - todo, n) && NoRepeats(del)
        invariant inets == old(inets) - Members(del) && single == old(single) - Members(del)
      {
        var m :| m in todo;
        assert m.bits == 0 by { SingleBits(old(inets), old(single), old(tiles), m); }
        assert m.End() == m.lo + 1 by { OneAddress(m); }
        if r.start <= m.lo <= r.end {
          MembersSplit(del, [m]);
          assert m !in Members(del);
          del := del + [m];
          inets := inets - {m};
          single := single - {m};
        }
        todo := todo - {m};
      }
      DropSingles(old(inets), old(single), tiles, Members(del));
    }

    // The loop over ranges[idx..] that n contains, each turned back into networks.
    method TakeChildren(n: Block, idx: nat) returns (del: seq<Block>, end: nat)
      requires Valid() && IsNetwork(n) && idx < |tiles| && tiles[idx].Within(n)
      modifies `inets
      ensures idx < end <= |tiles| && del == tiles[idx..end]
      ensures forall i :: idx <= i < end ==> tiles[i].Within(n)
      ensures end < |tiles| ==> n.End() < tiles[end].End()
      ensures inets == old(inets) + {n} - Members(del)
    {
      hide Agree, Pow2, Aligned, Tiling, IsNetwork;
      var r := IPNetToRange(n);
      TilesOk(inets, single, tiles);
      inets := inets + {n};
      del, end := [], idx;
      while end < |ranges| && ranges[end].end <= r.end
        invariant idx <= end <= |tiles| && del == tiles[idx..end]
        invariant forall i :: idx <= i < end ==> tiles[i].Within(n)
        invariant inets == old(inets) + {n} - Members(del)
      {
        var nets := Tiling(ranges[end].start, ranges[end].end + 1);
        BlockRoundTrip(tiles[end]);
        assert nets == [tiles[end]];
        assert tiles[end].Within(n) by { assert end > idx ==> tiles[idx].End() <= tiles[end].lo; }
        MembersSplit(del, nets);
        del := del + nets;
        inets := inets - Members(nets);
        end := end + 1;
      }
    }

    // The case of Add in which n takes the place of ranges[idx] and those after
    // it that n contains.
    method Absorb(n: Block, idx: nat) returns (del: seq<Block>)
      requires Valid() && IsNetwork(n) && n !in inets && idx < |tiles|
      requires tiles[idx].Within(n)
      requires forall i :: 0 <= i < idx ==> tiles[i].End() <= n.lo
      requires Inside(single, n) == {}
      modifies this
      ensures Valid() && single == old(single)
      ensures !CoveredBy(old(inets), n)
      ensures Members(del) == Inside(old(inets), n) && NoRepeats(del) && Members(del) !! single
      ensures inets == old(inets) - Members(del) + {n}
    {
      hide Agree, Pow2, Aligned, IsNetwork, CoveredBy, Inside, Mirrors;
      var r := IPNetToRange(n);
      assert |ranges| == |tiles| by { MirrorsLength(ranges, tiles); }
      var end: nat;
      del, end := TakeChildren(n, idx);
      Absorbed(old(inets), single, tiles, n, idx, end);
      MirrorsReplace(ranges, tiles, n, idx, end);
      ranges := ranges[idx := r];
      ranges := ranges[..idx + 1] + ranges[end..];
      assert ranges == old(ranges)[..idx] + [r] + old(ranges)[end..];
      tiles := tiles[..idx] + [n] + tiles[end..];
      assert inets == old(inets) - Members(del) + {n};
    }

    // The case of Add in which n is apart from all ranges and idx is its place.
    method Place(n: Block, idx: nat)
      requires Valid() && IsNetwork(n) && n !in inets && idx <= |tiles| && Inside(single, n) == {}
      requires forall i :: 0 <= i < idx ==> tiles[i].End() <= n.lo
      requires forall i :: idx <= i < |tiles| ==> n.End() <= tiles[i].lo
      modifies this
      ensures Valid() && inets == old(inets) + {n}
      ensures !CoveredBy(old(inets), n) && Inside(old(inets), n) == {}
    {
      hide Agree, Pow2, Aligned, IsNetwork, CoveredBy, Mirrors;
      assert |ranges| == |tiles| by { MirrorsLength(ranges, tiles); }
      assert tiles[idx..idx] == [] && Members(tiles[idx..idx]) == {};
      FoundRoom(inets, single, tiles, n, idx, idx);
      if n.bits == 0 {
        AddSingle(inets, single, tiles, n);
        inets := inets + {n};
        single := single + {n};
      } else {
        ReplaceTiles(inets, single, tiles, n, idx, idx);
        MirrorsReplace(ranges, tiles, n, idx, idx);
        assert inets - {} + {n} == inets + {n};
        inets := inets + {n};
        ranges := ranges[..idx] + [IPNetToRange(n)] + ranges[idx..];
        tiles := tiles[..idx] + [n] + tiles[idx..];
      }
    }

    /** Inserts n unless a member already contains it. Returns the members that
        n replaced and whether n was inserted. */
    method Add(n: Block) returns (del: seq<Block>, ok: bool)
      requires Valid() && IsNetwork(n)
      modifies this
      ensures Valid()
      ensures ok <==> !CoveredBy(old(inets), n)
      ensures inets == AddTo(old(inets), n)
      ensures Members(del) == (if ok then Inside(old(inets), n) else {}) && NoRepeats(del)
    {
      hide Agree, Pow2, Aligned, IsNetwork, AllNetworks;
      if inets == {} {
        EmptyViews(inets, single, tiles);
        inets := inets + {n};
        AgreeOne(n);
        if n.bits != 0 {
          ranges, tiles := [IPNetToRange(n)], [n];
        } else {
          single := single + {n};
        }
        assert inets == {n};
        return [], true;
      }
      if n in inets {
        assert CoveredBy(inets, n);
        return [], false;
      }
      del := DropSinglesInside(n);
      ok := del != [];
      AgreeNetworks(old(inets), old(single), old(tiles));
      assert Members(del) <= Inside(old(inets), n);
      DropThenAdd(old(inets), Members(del), n);
      var idx, c := Search(n);
      if c == -1 || c == 0 {
        FoundParent(old(inets), old(single), tiles, n, idx);
        NoneMeansEmpty(del);
      } else if c == -2 {
        assert Inside(single, n) == {};
        Place(n, idx);
        ok := true;
      } else {
        assert Inside(single, n) == {};
        var more := Absorb(n, idx);
        MembersSplit(del, more);
        NoRepeatsConcat(del, more);
        del := del + more;
        ok := true;
      }
    }

    /** Deletes the arguments in turn, and stops at the first one that is absent. */
    method Delete(ns: seq<Block>)
      requires Valid()
      modifies this
      ensures Valid() && inets == DeleteFrom(old(inets), ns)
      ensures exists k :: 0 <= k <= |ns| && inets == old(inets) - Members(ns[..k]) && Members(ns[..k]) <= old(inets)
                          && NoRepeats(ns[..k]) && (k < |ns| ==> ns[k] !in inets)
    {
      hide Agree, Pow2, Aligned, IsNetwork, Mirrors, NoRepeats;
      ghost var last := DeletesPrefix(inets, ns);
      for k := 0 to |ns|
        invariant Valid()
        invariant DeleteFrom(old(inets), ns) == DeleteFrom(inets, ns[k..])
      {
        var n := ns[k];
        assert ns[k..][0] == n && ns[k..][1..] == ns[k + 1..];
        if n !in inets {
          return;
        }
        AgreeNetworks(inets, single, tiles);
        ghost var before := inets;
        if n.bits == 0 {
          OnlySingle(inets, single, tiles, n);
          DropSingles(inets, single, tiles, {n});
          inets := inets - {n};
          single := single - {n};
        } else {
          var nr := IPNetToRange(n);
          var idx := LowerBound(nr.start);
          FindTile(inets, single, tiles, ranges, n, idx);
          RemoveTile(inets, single, tiles, idx);
          MirrorsDrop(ranges, tiles, idx);
          inets := inets - {n};
          ranges := ranges[..idx] + ranges[idx + 1..];
          tiles := tiles[..idx] + tiles[idx + 1..];
        }
        assert inets == before - {n};
      }
      assert ns[|ns|..] == [];
    }

    /** Any sequence of calls: the views agree afterwards, and the members are those
        of the run. */
    method Perform(ops: seq<Op>)
      requires Valid() && forall i :: 0 <= i < |ops| && ops[i].AddOp? ==> IsNetwork(ops[i].n)
      modifies this
      ensures Valid() && inets == Run(old(inets), ops)
    {
      hide Agree, Mirrors, AddTo, DeleteFrom, IsNetwork, CoveredBy;
      for k := 0 to |ops|
        invariant Valid() && inets == Run(old(inets), ops[..k])
      {
        assert ops[..k + 1] == ops[..k] + [ops[k]];
        RunSnoc(old(inets), ops[..k], ops[k]);
        match ops[k] {
          case AddOp(n) =>
            var del, ok := Add(n);
          case DeleteOp(ns) =>
            Delete(ns);
          case ClearOp =>
            ClearAll();
        }
      }
      assert ops[..|ops|] == ops;
    }

    // An exact match.
    method Has(n: Block) returns (r: bool)
      ensures r <==> n in inets
    {
      r := n in inets;
    }

    /** True exactly when some member is n or contains n. */
    method Contains(n: Block) returns (r: bool)
      requires Valid() && IsNetwork(n)
      ensures r <==> CoveredBy(inets, n)
    {
      hide Agree, Pow2, Aligned, IsNetwork;
      if n in inets {
        return true;
      }
      var idx, c := Search(n);
      TilesAreMembers(inets, single, tiles);
      if c == -2 {
        FoundRoom(inets, single, tiles, n, idx, idx);
      } else if c == 1 {
        AgreeApart(inets, single, tiles);
        NoParent(inets, n, tiles[idx]);
      } else {
        assert tiles[idx] in inets;
      }
      r := c == 0 || c == -1;
    }
  }

  // ---------- compareCIDR ----------

  function Sign(a: nat, b: nat): int { if a < b then -1 else if a > b then 1 else 0 }

  function CompareCIDR(a: Block, b: Block): int
    requires IsNetwork(a) && IsNetwork(b)
  {
    if a == b then 0
    else
      var ar, br := IPNetToRange(a), IPNetToRange(b);
      var res := Sign(ar.end, br.end) - Sign(ar.start, br.start);
      if res == 0 then (if ar.end == br.end then 0 else -2)
      else if res < 0 then -1 else 1
  }

  // 0 equal, -1 inside, +1 containing, -2 unrelated, and nothing else.
  lemma CompareCIDRCorrect(a: Block, b: Block)
    requires IsNetwork(a) && IsNetwork(b)
    ensures CompareCIDR(a, b) == 0 <==> a == b
    ensures CompareCIDR(a, b) == -1 <==> a.Within(b) && a != b
    ensures CompareCIDR(a, b) == 1 <==> b.Within(a) && a != b
    ensures CompareCIDR(a, b) == -2 <==> a.Apart(b)
  {
    hide Aligned, Pow2;
    NestedOrApart(a, b);
    if a.Within(b) && b.Within(a) {
      Mutual(a, b);
    }
  }
}

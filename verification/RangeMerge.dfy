/**
 dni/go/sdk/utils/cidr.go, MergeIRanges: ranges are sorted, fused where they
 overlap or touch, and converted to nets. Addresses of different lengths may be
 mixed; a family is the set of addresses of one length.
 */
module RangeMerge {
  import opened Bits
  import opened Blocks
  import opened ByteAddress
  import opened GreedyNets
  import Splitter
  import CidrMerge

  datatype Range = Range(start: Addr, end: Addr) {
    predicate Ok() { |start| == |end| && Value(start) <= Value(end) }

    predicate Has(family: nat, x: nat) { |start| == family && Value(start) <= x <= Value(end) }
  }

  predicate AllRangesOk(rs: seq<Range>) { forall i :: 0 <= i < |rs| ==> rs[i].Ok() }

  ghost predicate InRanges(rs: seq<Range>, family: nat, x: nat) {
    exists i :: 0 <= i < |rs| && rs[i].Has(family, x)
  }

  // a ends before b starts, with at least one address between them in one family
  predicate Before(a: Range, b: Range) {
    |a.end| < |b.start| || (|a.end| == |b.start| && Value(a.end) + 1 < Value(b.start))
  }

  predicate Separated(rs: seq<Range>) { forall i, j :: 0 <= i < j < |rs| ==> Before(rs[i], rs[j]) }

  // !lessThan(b.start, a.start)
  predicate StartsNoLater(a: Range, b: Range) {
    |a.start| < |b.start| || (|a.start| == |b.start| && Value(a.start) <= Value(b.start))
  }

  predicate SortedByStart(rs: seq<Range>) {
    forall i, j :: 0 <= i < j < |rs| ==> StartsNoLater(rs[i], rs[j])
  }

  lemma LessThanIsOrder(a: Range, b: Range)
    ensures LessThan(b.start, a.start) <==> !StartsNoLater(a, b)
  {
    hide Value, Compare;
    if |a.start| == |b.start| {
      CompareIsNumeric(b.start, a.start);
    }
  }

  // ---------- sort.Sort ----------

  function Insert(c: Range, s: seq<Range>): (r: seq<Range>)
    ensures multiset(r) == multiset(s) + multiset{c}
  {
    if s == [] || !LessThan(s[0].start, c.start) then [c] + s
    else
      assert s == [s[0]] + s[1..];
      [s[0]] + Insert(c, s[1..])
  }

  lemma {:induction false} InsertSorted(c: Range, s: seq<Range>)
    requires SortedByStart(s)
    ensures SortedByStart(Insert(c, s))
  {
    hide Value, LessThan;
    if s != [] {
      LessThanIsOrder(c, s[0]);
      if LessThan(s[0].start, c.start) {
        InsertSorted(c, s[1..]);
        var r := Insert(c, s[1..]);
        forall j | 0 <= j < |r| ensures StartsNoLater(s[0], r[j]) {
          assert r[j] in multiset(r);
          assert r[j] == c || r[j] in s[1..];
        }
      }
    }
  }

  // Some order by start address; ranges with equal starts may come in any order.
  method Sort(rs: seq<Range>) returns (s: seq<Range>)
    ensures multiset(s) == multiset(rs) && SortedByStart(s)
  {
    s := [];
    for i := 0 to |rs|
      invariant multiset(s) == multiset(rs[..i]) && SortedByStart(s)
    {
      InsertSorted(rs[i], s);
      s := Insert(rs[i], s);
      assert rs[..i + 1] == rs[..i] + [rs[i]];
    }
    assert rs[..|rs|] == rs;
  }

  lemma SameMembers(a: seq<Range>, b: seq<Range>)
    requires multiset(a) == multiset(b)
    ensures AllRangesOk(a) ==> AllRangesOk(b)
    ensures forall f: nat, x: nat :: InRanges(a, f, x) <==> InRanges(b, f, x)
  {
    assert forall r :: r in a <==> r in multiset(a);
    assert forall r :: r in b <==> r in multiset(b);
    if AllRangesOk(a) {
      forall j | 0 <= j < |b| ensures b[j].Ok() { assert b[j] in a; }
    }
    forall f: nat, x: nat ensures InRanges(a, f, x) <==> InRanges(b, f, x) {
      if InRanges(a, f, x) {
        var i :| 0 <= i < |a| && a[i].Has(f, x);
        assert a[i] in b;
      }
      if InRanges(b, f, x) {
        var i :| 0 <= i < |b| && b[i].Has(f, x);
        assert b[i] in a;
      }
    }
  }

  // ---------- sortAndMerge ----------

  lemma InRangesSnoc(rs: seq<Range>, r: Range, f: nat, x: nat)
    ensures InRanges(rs + [r], f, x) <==> InRanges(rs, f, x) || r.Has(f, x)
  {
    if InRanges(rs, f, x) {
      var i :| 0 <= i < |rs| && rs[i].Has(f, x);
      assert (rs + [r])[i].Has(f, x);
    }
    if r.Has(f, x) {
      assert (rs + [r])[|rs|].Has(f, x);
    }
  }

  // The fused range covers what the two ranges cover.
  lemma FuseCovers(a: Range, b: Range, c: Range)
    requires a.Ok() && b.Ok() && |a.start| == |b.start| && StartsNoLater(a, b)
    requires Value(b.start) <= Value(a.end) + 1
    requires c == Range(a.start, if Value(a.end) < Value(b.end) then b.end else a.end)
    ensures c.Ok()
    ensures forall f: nat, x: nat :: c.Has(f, x) <==> a.Has(f, x) || b.Has(f, x)
  {
  }

  // allFF(end) || !lessThan(addOne(end), now.start): b overlaps or touches a
  lemma TouchTest(a: Range, b: Range, next: Addr)
    requires a.Ok() && b.Ok() && |a.start| == |b.start| && |next| == |a.end|
    requires Value(next) == Successor(Value(a.end), 8 * |a.end|)
    ensures (AllFF(a.end) || !LessThan(next, b.start)) <==> Value(b.start) <= Value(a.end) + 1
    ensures LessThan(a.end, b.end) <==> Value(a.end) < Value(b.end)
  {
    hide Value, Compare, Pow2;
    AllFFIsLast(a.end);
    CompareIsNumeric(next, b.start);
    CompareIsNumeric(a.end, b.end);
    ValueBound(a.end);
    ValueBound(b.start);
  }

  ghost predicate SameRanges(a: seq<Range>, b: seq<Range>) {
    forall f: nat, x: nat :: InRanges(a, f, x) <==> InRanges(b, f, x)
  }

  // Taking in the next range as a new entry.
  lemma AppendKeeps(done: seq<Range>, seen: seq<Range>, now: Range)
    requires SameRanges(done, seen)
    ensures SameRanges(done + [now], seen + [now])
  {
    forall f: nat, x: nat ensures InRanges(done + [now], f, x) <==> InRanges(seen + [now], f, x) {
      InRangesSnoc(done, now, f, x);
      InRangesSnoc(seen, now, f, x);
    }
  }

  // Fusing the next range into the current entry.
  lemma FuseKeeps(res: seq<Range>, cur: Range, now: Range, fused: Range, seen: seq<Range>)
    requires SameRanges(res + [cur], seen)
    requires forall f: nat, x: nat :: fused.Has(f, x) <==> cur.Has(f, x) || now.Has(f, x)
    ensures SameRanges(res + [fused], seen + [now])
  {
    forall f: nat, x: nat ensures InRanges(res + [fused], f, x) <==> InRanges(seen + [now], f, x) {
      InRangesSnoc(res, cur, f, x);
      InRangesSnoc(res, fused, f, x);
      InRangesSnoc(seen, now, f, x);
      assert InRanges(res + [cur], f, x) <==> InRanges(seen, f, x);
    }
  }

  /** Sorts and fuses. The result covers the same addresses of every family, in
      ascending order with a gap between any two entries of one family. */
  method SortAndMerge(wrappers: seq<Range>) returns (res: seq<Range>)
    requires AllRangesOk(wrappers)
    ensures AllRangesOk(res) && Separated(res)
    ensures SameRanges(res, wrappers)
  {
    hide Value, LessThan, InRanges, AllFF;
    if |wrappers| == 0 {
      return [];
    }
    var ranges := Sort(wrappers);
    SameMembers(wrappers, ranges);
    assert |ranges| == |multiset(ranges)| == |multiset(wrappers)| == |wrappers|;
    res := [];
    var start, end := ranges[0].start, ranges[0].end;
    assert ranges[..1] == res + [Range(start, end)];
    for i := 1 to |ranges|
      invariant AllRangesOk(res) && Range(start, end).Ok()
      invariant Separated(res + [Range(start, end)])
      invariant start == ranges[0].start || exists j :: 0 <= j < i && start == ranges[j].start
      invariant SameRanges(res + [Range(start, end)], ranges[..i])
    {
      var now := ranges[i];
      ghost var cur := Range(start, end);
      assert StartsNoLater(cur, now);
      assert ranges[..i + 1] == ranges[..i] + [now];
      if |now.start| != |start| {
        assert Separated(res + [cur] + [now]) by { AppendSeparated(res, cur, now); }
        AppendKeeps(res + [cur], ranges[..i], now);
        res := res + [Range(start, end)];
        start, end := now.start, now.end;
      } else {
        var next := AddOne(end);
        TouchTest(cur, now, next);
        if AllFF(end) || !LessThan(next, now.start) {
          if LessThan(end, now.end) {
            end := now.end;
          }
          FuseCovers(cur, now, Range(start, end));
          FuseKeeps(res, cur, now, Range(start, end), ranges[..i]);
          assert Separated(res + [Range(start, end)]) by { ReplaceLast(res, cur, Range(start, end)); }
        } else {
          assert Separated(res + [cur] + [now]) by { AppendSeparated(res, cur, now); }
          AppendKeeps(res + [cur], ranges[..i], now);
          res := res + [Range(start, end)];
          start, end := now.start, now.end;
        }
      }
    }
    assert ranges[..|ranges|] == ranges;
    res := res + [Range(start, end)];
  }

  lemma AppendSeparated(res: seq<Range>, cur: Range, now: Range)
    requires Separated(res + [cur]) && Before(cur, now) && cur.Ok()
    ensures Separated(res + [cur] + [now])
  {
    var s := res + [cur];
    forall i | 0 <= i < |s| ensures Before(s[i], now) {
      if i < |res| { assert Before(s[i], s[|res|]); }
    }
  }

  lemma ReplaceLast(res: seq<Range>, cur: Range, fused: Range)
    requires Separated(res + [cur]) && fused.start == cur.start
    ensures Separated(res + [fused])
  {
    var s := res + [cur];
    forall i | 0 <= i < |res| ensures Before(res[i], fused) { assert Before(s[i], s[|res|]); }
    forall i, j | 0 <= i < j < |res| ensures Before(res[i], res[j]) { assert Before(s[i], s[j]); }
  }

  // ---------- convertBatch ----------

  // The tilings of all ranges, one after the other.
  function TileAll(rs: seq<Range>): seq<Block> {
    if rs == [] then []
    else TileAll(rs[..|rs| - 1]) + Tiling(Value(rs[|rs| - 1].start), Value(rs[|rs| - 1].end) + 1)
  }

  // The entries of one family.
  function OfFamily(rs: seq<Range>, n: nat): seq<Range> {
    if rs == [] then []
    else OfFamily(rs[..|rs| - 1], n) + if |rs[|rs| - 1].start| == n then [rs[|rs| - 1]] else []
  }

  function NetsOf(ns: seq<IPNet>, n: nat): seq<IPNet> {
    if ns == [] then []
    else NetsOf(ns[..|ns| - 1], n) + if |ns[|ns| - 1].ip| == n then [ns[|ns| - 1]] else []
  }

  lemma {:induction false} NetsOfConcat(a: seq<IPNet>, b: seq<IPNet>, n: nat, m: nat)
    requires forall i :: 0 <= i < |b| ==> |b[i].ip| == m
    ensures NetsOf(a + b, n) == NetsOf(a, n) + if m == n then b else []
    decreases |b|
  {
    hide NetsOf;
    if b == [] {
      assert a + b == a && NetsOf(a, n) + [] == NetsOf(a, n);
    } else {
      var k := |b| - 1;
      NetsOfConcat(a, b[..k], n, m);
      assert b == b[..k] + [b[k]];
      assert a + b == (a + b[..k]) + [b[k]];
      NetsOfSnoc(a + b[..k], b[k], n);
      assert m == n ==> NetsOf(a, n) + b == (NetsOf(a, n) + b[..k]) + [b[k]];
    }
  }

  lemma NetsOfSnoc(ns: seq<IPNet>, x: IPNet, n: nat)
    ensures NetsOf(ns + [x], n) == NetsOf(ns, n) + if |x.ip| == n then [x] else []
  {
    assert (ns + [x])[..|ns|] == ns;
  }

  lemma OfFamilySnoc(rs: seq<Range>, r: Range, n: nat)
    ensures OfFamily(rs + [r], n) == OfFamily(rs, n) + if |r.start| == n then [r] else []
  {
    assert (rs + [r])[..|rs|] == rs;
  }

  lemma TileAllSnoc(rs: seq<Range>, r: Range)
    ensures TileAll(rs + [r]) == TileAll(rs) + Tiling(Value(r.start), Value(r.end) + 1)
  {
    hide Tiling, Value;
    assert (rs + [r])[..|rs|] == rs;
  }

  // One more range, converted.
  lemma ConvertOne(done: seq<Range>, r: Range, result: seq<IPNet>, nets: seq<IPNet>, n: nat)
    requires NetBlocks(NetsOf(result, n)) == TileAll(OfFamily(done, n))
    requires NetBlocks(nets) == Tiling(Value(r.start), Value(r.end) + 1)
    requires forall i :: 0 <= i < |nets| ==> |nets[i].ip| == |r.start|
    ensures NetBlocks(NetsOf(result + nets, n)) == TileAll(OfFamily(done + [r], n))
  {
    hide Value, Tiling, TileAll, OfFamily, NetsOf;
    NetsOfConcat(result, nets, n, |r.start|);
    OfFamilySnoc(done, r, n);
    TileAllSnoc(OfFamily(done, n), r);
    assert NetsOf(result, n) + [] == NetsOf(result, n) && OfFamily(done, n) + [] == OfFamily(done, n);
    NetBlocksConcat(NetsOf(result, n), nets);
  }

  lemma NetBlocksConcat(a: seq<IPNet>, b: seq<IPNet>)
    ensures NetBlocks(a + b) == NetBlocks(a) + NetBlocks(b)
  {
  }

  // A well-formed net of the family of some range.
  ghost predicate FromSome(net: IPNet, rs: seq<Range>) { exists r :: r in rs && NetOk(net, |r.start|) }

  method ConvertBatch(wrappers: seq<Range>) returns (result: seq<IPNet>)
    requires AllRangesOk(wrappers)
    ensures forall n: nat :: NetBlocks(NetsOf(result, n)) == TileAll(OfFamily(wrappers, n))
    ensures forall i :: 0 <= i < |result| ==> FromSome(result[i], wrappers)
  {
    hide Value, NetOk, Tiling, TileAll, NetBlocks, NetsOf, OfFamily;
    result := [];
    assert forall n: nat :: NetBlocks(NetsOf([], n)) == TileAll(OfFamily([], n)) by { ConvertNone(); }
    for i := 0 to |wrappers|
      invariant forall n: nat :: NetBlocks(NetsOf(result, n)) == TileAll(OfFamily(wrappers[..i], n))
      invariant forall k :: 0 <= k < |result| ==> FromSome(result[k], wrappers)
    {
      var nets := ToIPNets(wrappers[i].start, wrappers[i].end);
      NetLengths(nets, |wrappers[i].start|);
      assert wrappers[..i + 1] == wrappers[..i] + [wrappers[i]];
      forall n: nat ensures NetBlocks(NetsOf(result + nets, n)) == TileAll(OfFamily(wrappers[..i + 1], n)) {
        ConvertOne(wrappers[..i], wrappers[i], result, nets, n);
      }
      forall k | 0 <= k < |nets| ensures FromSome(nets[k], wrappers) {
        assert wrappers[i] in wrappers;
      }
      result := result + nets;
    }
    assert wrappers[..|wrappers|] == wrappers;
  }

  lemma ConvertNone()
    ensures forall n: nat :: NetBlocks(NetsOf([], n)) == TileAll(OfFamily([], n))
  {
  }

  lemma NetLengths(nets: seq<IPNet>, n: nat)
    requires forall i :: 0 <= i < |nets| ==> NetOk(nets[i], n)
    ensures forall i :: 0 <= i < |nets| ==> |nets[i].ip| == n
  {
  }

  predicate OneFamily(rs: seq<Range>, n: nat) { forall i :: 0 <= i < |rs| ==> |rs[i].start| == n }

  lemma {:induction false} TileAllCanonical(rs: seq<Range>, n: nat)
    requires AllRangesOk(rs) && Separated(rs) && OneFamily(rs, n)
    ensures Canonical(TileAll(rs))
    ensures forall x: nat :: Covers(TileAll(rs), x) <==> InRanges(rs, n, x)
  {
    hide Value, Canonical, Tiling, Covers, InRanges;
    if rs == [] {
      EmptyCanonical();
    } else {
      var k := |rs| - 1;
      var init, last := rs[..k], rs[k];
      var lo, end := Value(last.start), Value(last.end) + 1;
      TileAllCanonical(init, n);
      TilingCanonical(lo, end);
      var a, b := TileAll(init), Tiling(lo, end);
      forall i, j | 0 <= i < |a| && 0 <= j < |b| ensures a[i].End() < b[j].lo {
        EndsInside(a, i);
        EndsInside(b, j);
        EndsEarlier(rs, n, a[i].End() - 1);
      }
      GapConcat(a, b);
      assert rs == init + [last];
      forall x: nat ensures Covers(a + b, x) <==> InRanges(rs, n, x) {
        CoversConcat(a, b, x);
        InRangesSnoc(init, last, n, x);
      }
    }
  }

  // An address of the earlier ranges lies well before the last one.
  lemma EndsEarlier(rs: seq<Range>, n: nat, x: nat)
    requires rs != [] && Separated(rs) && OneFamily(rs, n) && AllRangesOk(rs) && InRanges(rs[..|rs| - 1], n, x)
    ensures x + 1 < Value(rs[|rs| - 1].start)
  {
    hide Value;
    var k := |rs| - 1;
    var m :| 0 <= m < k && rs[..k][m].Has(n, x);
    assert Before(rs[m], rs[k]);
  }

  lemma EmptyCanonical()
    ensures Canonical([]) && TileAll([]) == []
    ensures forall x: nat :: !Covers([], x)
    ensures forall n: nat, x: nat :: !InRanges([], n, x)
  {
  }

  lemma EndsInside(bs: seq<Block>, i: nat)
    requires i < |bs|
    ensures Covers(bs, bs[i].lo) && Covers(bs, bs[i].End() - 1)
  {
  }

  // One family of separated ranges is separated and covers what it covered.
  lemma {:induction false} FamilyKept(rs: seq<Range>, n: nat)
    requires AllRangesOk(rs) && Separated(rs)
    ensures AllRangesOk(OfFamily(rs, n)) && Separated(OfFamily(rs, n)) && OneFamily(OfFamily(rs, n), n)
    ensures forall r :: r in OfFamily(rs, n) ==> r in rs
    ensures forall x: nat :: InRanges(OfFamily(rs, n), n, x) <==> InRanges(rs, n, x)
  {
    hide Value, InRanges;
    if rs == [] {
      EmptyCanonical();
    } else {
      var k := |rs| - 1;
      var init, last, kept := rs[..k], rs[k], OfFamily(rs[..k], n);
      FamilyKept(init, n);
      assert rs == init + [last];
      assert kept + [] == kept;
      forall i | 0 <= i < |kept| ensures Before(kept[i], last) {
        assert kept[i] in init;
      }
      forall x: nat ensures InRanges(OfFamily(rs, n), n, x) <==> InRanges(rs, n, x) {
        InRangesSnoc(init, last, n, x);
        InRangesSnoc(kept, last, n, x);
        OtherFamily(last, n, x);
      }
    }
  }

  lemma OtherFamily(r: Range, n: nat, x: nat)
    ensures |r.start| != n ==> !r.Has(n, x)
  {
  }

  // The nets of one family are the canonical cover of the ranges of that family.
  ghost predicate MergedFamily(nets: seq<IPNet>, input: seq<Range>, n: nat) {
    && Canonical(NetBlocks(NetsOf(nets, n)))
    && forall x: nat :: Covers(NetBlocks(NetsOf(nets, n)), x) <==> InRanges(input, n, x)
  }

  /** For every family the nets are the canonical cover of its ranges, and no list of
      blocks with that cover is shorter. No family is added. */
  method MergeIRanges(input: seq<Range>) returns (nets: seq<IPNet>)
    requires AllRangesOk(input)
    ensures forall n: nat :: MergedFamily(nets, input, n)
    ensures forall n: nat, c: seq<Block> ::
              AllOk(c) && SameCover(NetBlocks(NetsOf(nets, n)), c) ==> |NetsOf(nets, n)| <= |c|
    ensures forall i :: 0 <= i < |nets| ==> FromSome(nets[i], input)
  {
    hide Value, FromSome, TileAll, NetsOf, OfFamily, MergedFamily, Separated, NetBlocks;
    var ret := SortAndMerge(input);
    nets := ConvertBatch(ret);
    forall n: nat
      ensures MergedFamily(nets, input, n)
      ensures forall c: seq<Block> :: AllOk(c) && SameCover(NetBlocks(NetsOf(nets, n)), c) ==> |NetsOf(nets, n)| <= |c|
    {
      OneMerged(ret, input, nets, n);
    }
    forall i | 0 <= i < |nets| ensures FromSome(nets[i], input) {
      FamilyPresent(ret, input, nets[i]);
    }
  }

  lemma OneMerged(ret: seq<Range>, input: seq<Range>, nets: seq<IPNet>, n: nat)
    requires AllRangesOk(ret) && Separated(ret) && SameRanges(ret, input)
    requires NetBlocks(NetsOf(nets, n)) == TileAll(OfFamily(ret, n))
    ensures MergedFamily(nets, input, n)
    ensures forall c: seq<Block> :: AllOk(c) && SameCover(NetBlocks(NetsOf(nets, n)), c) ==> |NetsOf(nets, n)| <= |c|
  {
    hide Value, TileAll, NetsOf, OfFamily, Separated, Canonical, SameCover, InRanges, Covers;
    FamilyKept(ret, n);
    TileAllCanonical(OfFamily(ret, n), n);
    forall c: seq<Block> | AllOk(c) && SameCover(NetBlocks(NetsOf(nets, n)), c) ensures |NetsOf(nets, n)| <= |c| {
      Shortest(NetBlocks(NetsOf(nets, n)), c);
    }
  }

  lemma FamilyPresent(ret: seq<Range>, input: seq<Range>, net: IPNet)
    requires SameRanges(ret, input) && AllRangesOk(ret) && FromSome(net, ret)
    ensures FromSome(net, input)
  {
    hide Value, NetOk;
    var r :| r in ret && NetOk(net, |r.start|);
    var i :| 0 <= i < |ret| && ret[i] == r;
    assert r.Has(|r.start|, Value(r.start));
    assert InRanges(input, |r.start|, Value(r.start));
    var k :| 0 <= k < |input| && input[k].Has(|r.start|, Value(r.start));
    assert input[k] in input;
  }

  // ---------- agreement of the Go and the C++ merge ----------

  /** A set of IPv4 addresses merged by both programs gives the same blocks, the
      canonical cover of the set. */
  method MergeBothWays(ipMap: map<nat, int>, hosts: seq<Range>)
    returns (cpp: seq<Splitter.Cidr>, go: seq<IPNet>)
    requires |ipMap| > 0 && forall x :: x in ipMap ==> x < Pow2(32)
    requires AllRangesOk(hosts) && OneFamily(hosts, 4)
    requires forall i :: 0 <= i < |hosts| ==> hosts[i].start == hosts[i].end && Value(hosts[i].start) in ipMap
    requires forall x :: x in ipMap ==> exists i :: 0 <= i < |hosts| && Value(hosts[i].start) == x
    ensures Splitter.AllNets(32, cpp) && Splitter.Nets(32, cpp) == NetBlocks(go)
    ensures Canonical(NetBlocks(go)) && forall x: nat :: Covers(NetBlocks(go), x) <==> x in ipMap
  {
    hide Canonical, Pow2, Value, NetsOf, NetBlocks, FromSome;
    cpp := CidrMerge.CidrMerge(ipMap);
    go := MergeIRanges(hosts);
    assert NetsOf(go, 4) == go by { NetsOfAll(go, hosts, 4); }
    assert MergedFamily(go, hosts, 4);
    forall x: nat ensures Covers(NetBlocks(go), x) <==> x in ipMap {
      assert InRanges(hosts, 4, x) <==> x in ipMap by { HostRanges(hosts, ipMap.Keys, x); }
    }
    Unique(Splitter.Nets(32, cpp), NetBlocks(go));
  }

  lemma {:induction false} NetsOfAll(nets: seq<IPNet>, rs: seq<Range>, n: nat)
    requires OneFamily(rs, n)
    requires forall i :: 0 <= i < |nets| ==> FromSome(nets[i], rs)
    ensures NetsOf(nets, n) == nets
  {
    if nets != [] {
      var k := |nets| - 1;
      assert FromSome(nets[k], rs);
      NetsOfAll(nets[..k], rs, n);
      assert nets == nets[..k] + [nets[k]];
    }
  }

  /** A range of IPv4 addresses split by both programs gives the same blocks in
      the same order. */
  method SplitBothWays(lo: nat, hi: nat) returns (cpp: seq<Splitter.Cidr>, go: seq<IPNet>)
    requires lo <= hi < 0x1_0000_0000
    ensures Splitter.AllNets(32, cpp) && Splitter.Nets(32, cpp) == NetBlocks(go)
    ensures Canonical(NetBlocks(go)) && CoversRange(NetBlocks(go), lo, hi + 1)
  {
    hide Canonical, Value, Splitter.SplitRange, Tiling;
    WordSize();
    cpp := Splitter.SplitRange(32, 0, 0, lo, hi).cidrs;
    Splitter.SplitFromRoot(32, lo, hi);
    UitonRoundTrip(lo);
    UitonRoundTrip(hi);
    go := ToIPNets(Uiton(lo), Uiton(hi));
    TilingCanonical(lo, hi + 1);
  }

  lemma HostRanges(hosts: seq<Range>, ips: set<nat>, x: nat)
    requires OneFamily(hosts, 4)
    requires forall i :: 0 <= i < |hosts| ==> hosts[i].start == hosts[i].end && Value(hosts[i].start) in ips
    requires forall y :: y in ips ==> exists i :: 0 <= i < |hosts| && Value(hosts[i].start) == y
    ensures InRanges(hosts, 4, x) <==> x in ips
  {
  }
}

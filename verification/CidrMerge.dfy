/**
 dni/framework/formats/cidr.cc, part one: a set of addresses is listed as /32
 prefixes, sorted, and reduced in place; the second pass steps back after every
 merge so that a merged prefix meets its left neighbour again.
 */
module CidrMerge {
  import opened Bits
  import opened Blocks
  import opened Splitter

  // x >> k; a shift by the full width of the word is undefined in C++.
  function ShiftRight(x: nat, k: int): nat
    requires 0 <= k < 32
  {
    Shr(x, k)
  }

  predicate IsChildCollection(a: Cidr, b: Cidr)
    requires a.len <= b.len ==> 1 <= a.len <= 32
  {
    a.len <= b.len && ShiftRight(Xor(a.ip, b.ip), 32 - a.len) == 0
  }

  predicate UnionCollection(a: Cidr, b: Cidr)
    requires a.len == b.len ==> 1 <= a.len <= 32
  {
    a.len == b.len && ShiftRight(Xor(a.ip, b.ip), 32 - a.len) == 1
  }

  // The comparator handed to std::list::sort: by address, then the shorter prefix.
  predicate Leq(a: Cidr, b: Cidr) {
    a.ip < b.ip || (a.ip == b.ip && a.len <= b.len)
  }

  predicate SortedList(s: seq<Cidr>) { forall i, j :: 0 <= i < j < |s| ==> Leq(s[i], s[j]) }

  lemma ChildIsWithin(a: Cidr, b: Cidr)
    requires IsNet(32, a) && IsNet(32, b) && 1 <= a.len
    ensures IsChildCollection(a, b) <==> Net(32, b).Within(Net(32, a))
  {
    hide Shr, Xor, Down, Aligned, Pow2;
    var x, y := Net(32, a), Net(32, b);
    XorShifted(a.ip, b.ip, x.bits);
    NestedOrApart(y, x);
    DownBounds(b.ip, x.bits);
    DownUnique(a.ip, a.ip, x.bits);
    if y.Within(x) {
      DownUnique(b.ip, a.ip, x.bits);
    }
  }

  lemma UnionIsSiblings(a: Cidr, b: Cidr)
    requires IsNet(32, a) && IsNet(32, b) && 1 <= a.len && a.ip < b.ip
    ensures UnionCollection(a, b) <==> Siblings(Net(32, a), Net(32, b))
  {
    hide Shr, Xor, Aligned, Pow2;
    if a.len == b.len {
      XorIsOne(a.ip, b.ip, 32 - a.len);
    }
  }

  // ---------- list updates, seen as blocks ----------

  // ipl.erase(j)
  function Erase(s: seq<Cidr>, j: nat): seq<Cidr>
    requires j < |s|
  {
    s[..j] + s[j + 1..]
  }

  lemma EraseKeepsCover(s: seq<Cidr>, i: nat, j: nat)
    requires AllNets(32, s) && i < j < |s| && Net(32, s[j]).Within(Net(32, s[i]))
    ensures AllNets(32, Erase(s, j)) && SameCover(Nets(32, s), Nets(32, Erase(s, j)))
  {
    hide IsNet, Pow2;
    var t := Erase(s, j);
    var a, b := Nets(32, s), Nets(32, t);
    assert forall m :: 0 <= m < |t| ==> t[m] == if m < j then s[m] else s[m + 1];
    forall x: nat ensures Covers(a, x) <==> Covers(b, x) {
      if Covers(a, x) {
        var m :| 0 <= m < |a| && a[m].Has(x);
        var n := if m < j then m else if m == j then i else m - 1;
        assert b[n].Has(x);
      }
      if Covers(b, x) {
        var m :| 0 <= m < |b| && b[m].Has(x);
        assert a[if m < j then m else m + 1].Has(x);
      }
    }
  }

  // The pair of siblings at i and i + 1 replaced by the block they form.
  function Fuse(s: seq<Cidr>, i: nat): seq<Cidr>
    requires i + 1 < |s|
  {
    Erase(s, i + 1)[i := Cidr(s[i].ip, s[i].len - 1)]
  }

  lemma FuseIsParent(a: Cidr, b: Cidr)
    requires IsNet(32, a) && IsNet(32, b) && Siblings(Net(32, a), Net(32, b))
    ensures a.len >= 1 && IsNet(32, Cidr(a.ip, a.len - 1))
    ensures Net(32, Cidr(a.ip, a.len - 1)).End() == Net(32, b).End()
  {
    hide Aligned;
    InWord(b.ip, 32 - b.len, 32);
  }

  // Entries of the fused list: all but i come from one entry of the old list.
  lemma FuseEntries(s: seq<Cidr>, i: nat)
    requires i + 1 < |s|
    ensures |Fuse(s, i)| == |s| - 1 && Fuse(s, i)[i] == Cidr(s[i].ip, s[i].len - 1)
    ensures forall m :: 0 <= m < i ==> Fuse(s, i)[m] == s[m]
    ensures forall m :: i < m < |s| - 1 ==> Fuse(s, i)[m] == s[m + 1]
  {
  }

  lemma FuseKeepsOrder(s: seq<Cidr>, i: nat)
    requires AllNets(32, s) && Ascending(Nets(32, s)) && i + 1 < |s|
    requires Siblings(Net(32, s[i]), Net(32, s[i + 1]))
    ensures AllNets(32, Fuse(s, i)) && Ascending(Nets(32, Fuse(s, i)))
  {
    hide IsNet, Pow2, Fuse, Siblings;
    FuseIsParent(s[i], s[i + 1]);
    FuseEntries(s, i);
    var a, b := Nets(32, s), Nets(32, Fuse(s, i));
    forall m, n | 0 <= m < n < |b| ensures b[m].End() <= b[n].lo {
      assert a[if m < i then m else m + 1].End() <= a[if n <= i then n else n + 1].lo;
    }
  }

  lemma FuseKeepsCover(s: seq<Cidr>, i: nat)
    requires i + 1 < |s| && AllNets(32, s) && AllNets(32, Fuse(s, i))
    requires Siblings(Net(32, s[i]), Net(32, s[i + 1]))
    ensures SameCover(Nets(32, s), Nets(32, Fuse(s, i)))
  {
    hide IsNet, Pow2, Fuse, Aligned;
    FuseIsParent(s[i], s[i + 1]);
    FuseEntries(s, i);
    var a, b := Nets(32, s), Nets(32, Fuse(s, i));
    forall x: nat ensures Covers(a, x) <==> Covers(b, x) {
      if Covers(a, x) {
        var m :| 0 <= m < |a| && a[m].Has(x);
        assert b[if m <= i then m else m - 1].Has(x);
      }
      if Covers(b, x) {
        var m :| 0 <= m < |b| && b[m].Has(x);
        assert a[if m < i || (m == i && a[i].Has(x)) then m else m + 1].Has(x);
      }
    }
  }

  lemma SameCoverTrans(a: seq<Block>, b: seq<Block>, c: seq<Block>)
    requires SameCover(a, b) && SameCover(b, c)
    ensures SameCover(a, c)
  {
  }

  // Two blocks of one size that do not overlap are smaller than the whole space,
  // so the shift in UnionCollection stays below 32.
  lemma ApartAreShort(a: Cidr, b: Cidr)
    requires IsNet(32, a) && IsNet(32, b) && Net(32, a).End() <= Net(32, b).lo
    ensures a.len >= 1 && b.len >= 1 && a.ip < b.ip
  {
    hide Aligned;
    InWord(a.ip, 32 - a.len, 32);
    InWord(b.ip, 32 - b.len, 32);
  }

  // In the sorted order a block is inside its predecessor or to the right of it.
  lemma SortedPair(a: Cidr, b: Cidr)
    requires IsNet(32, a) && IsNet(32, b) && Leq(a, b)
    ensures Net(32, b).Within(Net(32, a)) || Net(32, a).End() <= Net(32, b).lo
  {
    hide Aligned, Pow2;
    NestedOrApart(Net(32, b), Net(32, a));
    NestedOrApart(Net(32, a), Net(32, b));
  }

  // ---------- the two passes ----------

  /** Drops every prefix that an earlier one contains. What is left ascends
      without overlap and covers the same addresses. */
  method FirstStepMerge(ipl: seq<Cidr>) returns (out: seq<Cidr>)
    requires |ipl| > 0 && AllNets(32, ipl) && SortedList(ipl)
    requires forall i :: 0 <= i < |ipl| ==> ipl[i].len >= 1
    ensures |out| > 0 && AllNets(32, out) && Ascending(Nets(32, out))
    ensures SameCover(Nets(32, ipl), Nets(32, out))
  {
    hide Pow2, Aligned, Net, SameCover, IsChildCollection;
    out := ipl;
    var i, j := 0, 1;
    assert SameCover(Nets(32, ipl), Nets(32, out)) by { CoverSelf(Nets(32, ipl)); }
    while j < |out|
      invariant j == i + 1 && j <= |out|
      invariant AllNets(32, out) && SortedList(out)
      invariant forall m :: 0 <= m < |out| ==> out[m].len >= 1
      invariant forall m, n :: 0 <= m < n < j ==> Net(32, out[m]).End() <= Net(32, out[n]).lo
      invariant SameCover(Nets(32, ipl), Nets(32, out))
      decreases |out| - j
    {
      ChildIsWithin(out[i], out[j]);
      SortedPair(out[i], out[j]);
      if IsChildCollection(out[i], out[j]) {
        EraseKeepsCover(out, i, j);
        SameCoverTrans(Nets(32, ipl), Nets(32, out), Nets(32, Erase(out, j)));
        out := Erase(out, j);
      } else {
        LoBeforeEnd(out[i]);
        i, j := i + 1, j + 1;
      }
    }
  }

  lemma CoverSelf(a: seq<Block>)
    ensures SameCover(a, a)
  {
  }

  lemma LoBeforeEnd(c: Cidr)
    requires IsNet(32, c)
    ensures Net(32, c).lo < Net(32, c).End()
  {
  }

  /** Merges siblings until none are left, stepping back after each merge. */
  method SecondStepMerge(ipl: seq<Cidr>) returns (out: seq<Cidr>)
    requires |ipl| > 0 && AllNets(32, ipl) && Ascending(Nets(32, ipl))
    ensures AllNets(32, out) && Canonical(Nets(32, out))
    ensures SameCover(Nets(32, ipl), Nets(32, out))
  {
    hide Pow2, Aligned, SameCover, UnionCollection, Siblings;
    out := ipl;
    var i, j := 0, 1;
    assert SameCover(Nets(32, ipl), Nets(32, out)) by { CoverSelf(Nets(32, ipl)); }
    while j < |out|
      invariant j == i + 1 && j <= |out|
      invariant AllNets(32, out) && Ascending(Nets(32, out))
      invariant forall m :: 0 <= m < i ==> !Siblings(Net(32, out[m]), Net(32, out[m + 1]))
      invariant SameCover(Nets(32, ipl), Nets(32, out))
      decreases 2 * |out| - i
    {
      assert Nets(32, out)[i].End() <= Nets(32, out)[j].lo;
      ApartAreShort(out[i], out[j]);
      UnionIsSiblings(out[i], out[j]);
      if UnionCollection(out[i], out[j]) {
        FuseKeepsOrder(out, i);
        FuseKeepsCover(out, i);
        SameCoverTrans(Nets(32, ipl), Nets(32, out), Nets(32, Fuse(out, i)));
        ghost var before := out;
        out := Erase(out, j);
        out := out[i := Cidr(out[i].ip, out[i].len - 1)];
        assert out == Fuse(before, i);
        assert forall m :: 0 <= m < i ==> out[m] == before[m];
        if i != 0 {
          i, j := i - 1, j - 1;
        }
      } else {
        i, j := i + 1, j + 1;
      }
    }
    assert AllOk(Nets(32, out));
  }

  // ---------- sorting the list ----------

  function Insert(c: Cidr, s: seq<Cidr>): (r: seq<Cidr>)
    ensures multiset(r) == multiset(s) + multiset{c}
  {
    if s == [] || Leq(c, s[0]) then [c] + s
    else
      assert s == [s[0]] + s[1..];
      [s[0]] + Insert(c, s[1..])
  }

  lemma {:induction false} InsertSorted(c: Cidr, s: seq<Cidr>)
    requires SortedList(s)
    ensures SortedList(Insert(c, s))
  {
    if s != [] && !Leq(c, s[0]) {
      InsertSorted(c, s[1..]);
      var r := Insert(c, s[1..]);
      forall j | 0 <= j < |r| ensures Leq(s[0], r[j]) {
        assert r[j] in multiset(r);
        assert r[j] == c || r[j] in s[1..];
      }
    }
  }

  // The keys of the map as /32 prefixes, in ascending order.
  method SortedHosts(ips: set<nat>) returns (ipl: seq<Cidr>)
    ensures SortedList(ipl)
    ensures forall i :: 0 <= i < |ipl| ==> ipl[i].len == 32 && ipl[i].ip in ips
    ensures forall x :: x in ips ==> Cidr(x, 32) in ipl
  {
    ipl := [];
    var left := ips;
    while left != {}
      invariant left <= ips && SortedList(ipl)
      invariant forall c :: c in multiset(ipl) ==> c.len == 32 && c.ip in ips
      invariant forall x :: x in ips - left ==> Cidr(x, 32) in multiset(ipl)
    {
      var ip :| ip in left;
      InsertSorted(Cidr(ip, 32), ipl);
      ipl := Insert(Cidr(ip, 32), ipl);
      left := left - {ip};
    }
    assert forall i :: 0 <= i < |ipl| ==> ipl[i] in multiset(ipl);
  }

  lemma HostsCover(ipl: seq<Cidr>, ips: set<nat>)
    requires AllNets(32, ipl)
    requires forall i :: 0 <= i < |ipl| ==> ipl[i].len == 32 && ipl[i].ip in ips
    requires forall x :: x in ips ==> Cidr(x, 32) in ipl
    ensures forall x: nat :: Covers(Nets(32, ipl), x) <==> x in ips
  {
  }

  /** cidr_merge on the keys of a non-empty map: the canonical cover of exactly
      those addresses, and no list of blocks with that cover is shorter. */
  method CidrMerge(ipMap: map<nat, int>) returns (ret: seq<Cidr>)
    requires |ipMap| > 0 && forall x :: x in ipMap ==> x < Pow2(32)
    ensures AllNets(32, ret) && Canonical(Nets(32, ret))
    ensures forall x: nat :: Covers(Nets(32, ret), x) <==> x in ipMap
    ensures forall c: seq<Block> :: AllOk(c) && SameCover(Nets(32, ret), c) ==> |ret| <= |c|
  {
    hide Pow2, Aligned, Canonical;
    var ipl := SortedHosts(ipMap.Keys);
    assert AllNets(32, ipl) by { HostsAreNets(ipl); }
    assert |ipl| > 0 by {
      var x :| x in ipMap;
      assert Cidr(x, 32) in ipl;
    }
    HostsCover(ipl, ipMap.Keys);
    var first := FirstStepMerge(ipl);
    ret := SecondStepMerge(first);
    SameCoverTrans(Nets(32, ipl), Nets(32, first), Nets(32, ret));
    forall x: nat ensures Covers(Nets(32, ret), x) <==> x in ipMap {
      assert Covers(Nets(32, ipl), x) <==> Covers(Nets(32, ret), x);
    }
    forall c: seq<Block> | AllOk(c) && SameCover(Nets(32, ret), c) ensures |ret| <= |c| {
      Shortest(Nets(32, ret), c);
    }
  }

  lemma HostsAreNets(ipl: seq<Cidr>)
    requires forall i :: 0 <= i < |ipl| ==> ipl[i].len == 32 && ipl[i].ip < Pow2(32)
    ensures AllNets(32, ipl)
  {
  }
}

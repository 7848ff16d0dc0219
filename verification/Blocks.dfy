/**
 The algebra of CIDR blocks: aligned runs of 2^bits addresses. `bits` is the
 number of host bits, so a prefix of length L on a w-bit address is bits = w - L.

 A list of blocks is canonical when it ascends without overlap and no two
 neighbours are the halves of one block. `Unique` shows that the canonical list is
 determined by the addresses it covers and `Shortest` that no list of blocks with
 the same cover is shorter. Each algorithm of the repository that produces blocks
 is then compared with every other one through these two facts.
 */
module Blocks {
  import opened Bits
  import opened Counting

  datatype Block = Block(lo: nat, bits: nat) {
    // one past the last address
    function End(): nat { lo + Pow2(bits) }

    predicate Ok() { Aligned(lo, bits) }

    predicate Has(x: nat) { lo <= x < End() }

    predicate Within(that: Block) { that.lo <= lo && End() <= that.End() }

    predicate Apart(that: Block) { End() <= that.lo || that.End() <= lo }
  }

  predicate AllOk(bs: seq<Block>) { forall i :: 0 <= i < |bs| ==> bs[i].Ok() }

  predicate Ascending(bs: seq<Block>) {
    forall i, j :: 0 <= i < j < |bs| ==> bs[i].End() <= bs[j].lo
  }

  // a and b are the lower and the upper half of one block
  predicate Siblings(a: Block, b: Block) {
    a.bits == b.bits && a.End() == b.lo && Aligned(a.lo, a.bits + 1)
  }

  predicate NoSiblings(bs: seq<Block>) {
    forall i :: 0 <= i < |bs| - 1 ==> !Siblings(bs[i], bs[i + 1])
  }

  predicate Canonical(bs: seq<Block>) {
    AllOk(bs) && Ascending(bs) && NoSiblings(bs)
  }

  ghost predicate Covers(bs: seq<Block>, x: nat) {
    exists i :: 0 <= i < |bs| && bs[i].Has(x)
  }

  ghost predicate SameCover(a: seq<Block>, b: seq<Block>) {
    forall x: nat :: Covers(a, x) <==> Covers(b, x)
  }

  // bs covers exactly the addresses from lo up to, not including, end
  ghost predicate CoversRange(bs: seq<Block>, lo: nat, end: nat) {
    forall x: nat :: Covers(bs, x) <==> lo <= x < end
  }

  lemma NestedOrApart(a: Block, b: Block)
    requires a.Ok() && b.Ok()
    ensures a.Within(b) || b.Within(a) || a.Apart(b)
    ensures a.bits <= b.bits ==> a.Within(b) || a.Apart(b)
    ensures a.Within(b) ==> a.bits <= b.bits
  {
    if a.bits <= b.bits {
      Laminar(a.lo, a.bits, b.lo, b.bits);
    } else {
      Laminar(b.lo, b.bits, a.lo, a.bits);
      Pow2Grows(b.bits, a.bits);
    }
  }

  lemma Mutual(a: Block, b: Block)
    requires a.Ok() && b.Ok() && a.Within(b) && b.Within(a)
    ensures a == b
  {
    NestedOrApart(a, b);
    NestedOrApart(b, a);
  }

  // The halves of an aligned block.
  function Lower(p: Block): Block
    requires p.bits > 0
  {
    Block(p.lo, p.bits - 1)
  }

  function Upper(p: Block): Block
    requires p.bits > 0
  {
    Block(p.lo + Pow2(p.bits - 1), p.bits - 1)
  }

  // What lies strictly inside a block and contains one of its halves is that half.
  lemma OnlyHalf(b: Block, h: Block, p: Block)
    requires b.Ok() && p.Ok() && p.bits > 0 && h.Ok() && h.bits == p.bits - 1 && h.Within(p)
    requires h.Within(b) && !p.Within(b)
    ensures b == h
  {
    NestedOrApart(p, b);
    NestedOrApart(b, p);
    NestedOrApart(h, b);
    NestedOrApart(b, h);
    Mutual(if b.bits <= h.bits then b else h, h);
  }

  lemma Between(bs: seq<Block>, i: nat, j: nat)
    requires Ascending(bs) && i + 1 < j < |bs|
    ensures bs[i].End() < bs[j].lo
  {
    assert bs[i].End() <= bs[i + 1].lo;
  }

  // Members that touch are neighbours in an ascending list.
  lemma Adjoining(bs: seq<Block>, i: nat, j: nat)
    requires Ascending(bs) && i < |bs| && j < |bs| && bs[i].End() == bs[j].lo
    ensures j == i + 1
  {
    if i + 1 < j {
      Between(bs, i, j);
    }
  }

  // Maximality: a block covered by a canonical list lies inside one member.
  lemma {:induction false} InsideOne(bs: seq<Block>, p: Block) returns (i: nat)
    requires Canonical(bs) && p.Ok()
    requires forall x: nat :: p.Has(x) ==> Covers(bs, x)
    ensures i < |bs| && p.Within(bs[i])
    decreases p.bits
  {
    if p.bits == 0 {
      assert p.Has(p.lo);
      i :| 0 <= i < |bs| && bs[i].Has(p.lo);
    } else {
      Halves(p.lo, p.bits - 1);
      i := InsideOne(bs, Lower(p));
      var j := InsideOne(bs, Upper(p));
      if !p.Within(bs[i]) {
        OnlyHalf(bs[i], Lower(p), p);
        if !p.Within(bs[j]) {
          OnlyHalf(bs[j], Upper(p), p);
          Adjoining(bs, i, j);
          assert false;
        }
        i := j;
      }
    }
  }

  lemma OneHolder(bs: seq<Block>, i: nat, j: nat, x: nat)
    requires Ascending(bs) && i < |bs| && j < |bs| && bs[i].Has(x) && bs[j].Has(x)
    ensures i == j
  {

  }

  lemma MemberCovered(bs: seq<Block>, i: nat)
    requires i < |bs|
    ensures forall x: nat :: bs[i].Has(x) ==> Covers(bs, x)
  {
  }

  // A member of one canonical list is a member of every other with the same cover.
  lemma MemberOfBoth(a: seq<Block>, b: seq<Block>, i: nat)
    requires Canonical(a) && Canonical(b) && SameCover(a, b) && i < |a|
    ensures a[i] in b
  {
    MemberCovered(a, i);
    var j := InsideOne(b, a[i]);
    MemberCovered(b, j);
    var k := InsideOne(a, b[j]);
    OneHolder(a, k, i, a[i].lo);
    Mutual(a[i], b[j]);
  }

  function Members(bs: seq<Block>): set<Block> { set b | b in bs }

  lemma FirstAndRest(bs: seq<Block>)
    requires Ascending(bs) && |bs| > 0
    ensures Members(bs[1..]) == Members(bs) - {bs[0]}
    ensures forall b :: b in Members(bs) && b != bs[0] ==> bs[0].lo < b.lo
  {
  }

  // An ascending list is determined by its members.
  lemma {:induction false} AscendingUnique(a: seq<Block>, b: seq<Block>)
    requires Ascending(a) && Ascending(b) && Members(a) == Members(b)
    ensures a == b
    decreases |a|
  {
    assert |a| > 0 ==> a[0] in Members(b);
    assert |b| > 0 ==> b[0] in Members(a);
    if a != [] {
      FirstAndRest(a);
      FirstAndRest(b);
      AscendingUnique(a[1..], b[1..]);
      assert a == [a[0]] + a[1..] && b == [b[0]] + b[1..];
    }
  }

  // The canonical list is determined by the addresses it covers.
  lemma Unique(a: seq<Block>, b: seq<Block>)
    requires Canonical(a) && Canonical(b) && SameCover(a, b)
    ensures a == b
  {
    forall i | 0 <= i < |a| ensures a[i] in Members(b) { MemberOfBoth(a, b, i); }
    forall i | 0 <= i < |b| ensures b[i] in Members(a) { MemberOfBoth(b, a, i); }
    AscendingUnique(a, b);
  }

  // A member of c for every member of the canonical list a, all different.
  ghost function Witness(a: seq<Block>, c: seq<Block>, i: nat): (j: nat)
    requires i < |a| && SameCover(a, c)
    ensures j < |c| && c[j].Has(a[i].lo)
  {
    assert a[i].Has(a[i].lo);
    assert Covers(c, a[i].lo);
    var j :| 0 <= j < |c| && c[j].Has(a[i].lo);
    j
  }

  lemma WitnessInjective(a: seq<Block>, c: seq<Block>, i: nat, j: nat)
    requires Canonical(a) && AllOk(c) && SameCover(a, c) && i < |a| && j < |a|
    requires Witness(a, c, i) == Witness(a, c, j)
    ensures i == j
  {
    var m := Witness(a, c, i);
    MemberCovered(c, m);
    var k := InsideOne(a, c[m]);
    OneHolder(a, k, i, a[i].lo);
    OneHolder(a, k, j, a[j].lo);
  }

  // No list of blocks, in any order and overlapping or not, covers the same
  // addresses with fewer members.
  lemma Shortest(a: seq<Block>, c: seq<Block>)
    requires Canonical(a) && AllOk(c) && SameCover(a, c)
    ensures |a| <= |c|
  {
    var f := seq(|a|, i requires 0 <= i < |a| => Witness(a, c, i));
    forall i, j | 0 <= i < j < |f| ensures f[i] != f[j] {
      if f[i] == f[j] { WitnessInjective(a, c, i, j); }
    }
    Pigeonhole(f, |c|);
  }

  // ---------- the tiling of one range ----------

  // b is the largest block that starts at s and ends no later than end
  predicate LargestFit(b: Block, s: nat, end: nat) {
    && b.lo == s && b.Ok() && b.End() <= end
    && !(Aligned(s, b.bits + 1) && s + Pow2(b.bits + 1) <= end)
  }

  function FitFrom(s: nat, end: nat, k: nat): (r: Block)
    requires Aligned(s, k) && s + Pow2(k) <= end
    ensures LargestFit(r, s, end)
    decreases end - s - Pow2(k)
  {
    if Aligned(s, k + 1) && s + Pow2(k + 1) <= end then FitFrom(s, end, k + 1) else Block(s, k)
  }

  lemma LargestFitUnique(a: Block, b: Block, s: nat, end: nat)
    requires LargestFit(a, s, end) && LargestFit(b, s, end)
    ensures a == b
  {
    if a.bits < b.bits {
      AlignedWeaken(s, a.bits + 1, b.bits);
      Pow2Grows(a.bits + 1, b.bits);
    } else if b.bits < a.bits {
      AlignedWeaken(s, b.bits + 1, a.bits);
      Pow2Grows(b.bits + 1, a.bits);
    }
  }

  // The largest fitting block each time, from left to right: the reference form of
  // a range of addresses as a list of blocks.
  function Tiling(s: nat, end: nat): seq<Block>
    decreases end - s
  {
    if s >= end then []
    else
      var b := FitFrom(s, end, 0);
      [b] + Tiling(b.End(), end)
  }

  lemma CoversCons(b: Block, bs: seq<Block>, x: nat)
    ensures Covers([b] + bs, x) <==> b.Has(x) || Covers(bs, x)
  {
    if b.Has(x) {
      assert ([b] + bs)[0].Has(x);
    }
    if Covers(bs, x) {
      var i :| 0 <= i < |bs| && bs[i].Has(x);
      assert ([b] + bs)[i + 1].Has(x);
    }
  }

  lemma CoversConcat(a: seq<Block>, b: seq<Block>, x: nat)
    ensures Covers(a + b, x) <==> Covers(a, x) || Covers(b, x)
  {
    if Covers(a, x) {
      var i :| 0 <= i < |a| && a[i].Has(x);
      assert (a + b)[i].Has(x);
    }
    if Covers(b, x) {
      var i :| 0 <= i < |b| && b[i].Has(x);
      assert (a + b)[|a| + i].Has(x);
    }
  }

  lemma {:induction false} TilingCanonical(s: nat, end: nat)
    ensures Canonical(Tiling(s, end))
    ensures CoversRange(Tiling(s, end), s, end)
    ensures s < end ==> |Tiling(s, end)| > 0 && Tiling(s, end)[0].lo == s
    decreases end - s
  {
    if s < end {
      var b := FitFrom(s, end, 0);
      var rest := Tiling(b.End(), end);
      TilingCanonical(b.End(), end);
      var bs := [b] + rest;
      forall x: nat ensures Covers(bs, x) <==> s <= x < end { CoversCons(b, rest, x); }
      forall i | 0 <= i < |rest| ensures b.End() <= rest[i].lo && rest[i].End() <= end {
        MemberCovered(rest, i);
        assert rest[i].Has(rest[i].lo) && rest[i].Has(rest[i].End() - 1);
      }
      assert Ascending(bs) by {
        forall i, j | 0 <= i < j < |bs| ensures bs[i].End() <= bs[j].lo {
          if i > 0 { assert bs[i] == rest[i - 1] && bs[j] == rest[j - 1]; }
        }
      }
      assert NoSiblings(bs) by {
        forall i | 0 <= i < |bs| - 1 ensures !Siblings(bs[i], bs[i + 1]) {
          if i > 0 { assert bs[i] == rest[i - 1] && bs[i + 1] == rest[i]; }
        }
      }
      assert AllOk(bs);
    }
  }

  // Any canonical list that covers a range is its tiling.
  lemma TilingUnique(bs: seq<Block>, s: nat, end: nat)
    requires Canonical(bs) && CoversRange(bs, s, end)
    ensures bs == Tiling(s, end)
  {
    TilingCanonical(s, end);
    Unique(bs, Tiling(s, end));
  }

  // A block turned into a range comes back as that one block.
  lemma BlockRoundTrip(b: Block)
    requires b.Ok()
    ensures Tiling(b.lo, b.End()) == [b]
  {
    assert Covers([b], b.lo) by { assert [b][0].Has(b.lo); }
    forall x: nat ensures Covers([b], x) <==> b.lo <= x < b.End() {
      if b.Has(x) { assert [b][0].Has(x); }
    }
    TilingUnique([b], b.lo, b.End());
  }

  // Ascending canonical pieces with a gap between them form one canonical list.
  lemma GapConcat(a: seq<Block>, b: seq<Block>)
    requires Canonical(a) && Canonical(b)
    requires forall i, j :: 0 <= i < |a| && 0 <= j < |b| ==> a[i].End() < b[j].lo
    ensures Canonical(a + b)
  {
  }
}

/**
 dni/go/sdk/utils/snding.go SIPBaseMerge and IPSuspectRand, and
 dni/go/sdk/task/snding/snd_attaker_ip_merge_task.go, which runs the stages of
 AttackSources in turn: packets are counted per network that holds their source
 address, or as random.
 */
module PacketBuckets {
  import opened Bits
  import opened Blocks
  import opened Counting
  import opened AttackSources

  // ---------- the stages in turn ----------

  /** Known addresses and addresses seen often are dropped; what is left is random
      when its counts add up to the threshold. */
  method IPSuspectRand(normal: set<nat>, df: CountMap, countThreshold: int, numThreshold: int)
    returns (known: set<nat>, rest: CountMap, isRand: bool)
    ensures known == normal + set ip | ip in df && df[ip] > countThreshold
    ensures rest == df - known && isRand == (Total(rest) >= numThreshold)
  {
    hide Total;
    known := normal + set ip | ip in df && df[ip] > countThreshold;
    rest := df - known;
    var sum := 0;
    var todo := rest;
    assert Total(rest) == sum + Total(todo);
    while todo != map[]
      invariant Total(rest) == sum + Total(todo)
      decreases |todo|
    {
      var ip :| ip in todo;
      TotalRemove(todo, ip);
      sum := sum + todo[ip];
      todo := todo - {ip};
    }
    assert Total(map[]) == 0 by { TotalNone(); }
    isRand := sum >= numThreshold;
  }

  lemma TotalNone()
    ensures Total(map[]) == 0
  {
  }

  // The addresses of m are in no network.
  ghost predicate Separate(m: CountMap, nets: seq<Block>) { forall ip :: ip in m ==> !Covers(nets, ip) }

  lemma SeparateMore(m: CountMap, rest: CountMap, a: seq<Block>, b: seq<Block>)
    requires rest.Keys <= m.Keys && Separate(m, a) && Separate(rest, b)
    ensures Separate(rest, a + b)
  {
  }

  datatype MergeResult = MergeResult(nets: seq<Block>, isRand: bool, randDF: CountMap)

  // Neither known nor seen often.
  function Unknown(m: CountMap, normal: set<nat>, t: int): CountMap {
    m - (normal + set ip | ip in m && m[ip] > t)
  }

  lemma CoverSource(nets: seq<Block>, ps: set<nat>, k: nat)
    requires InSegments(nets, ps, k)
    ensures forall x: nat :: Covers(nets, x) ==> Down(x, k) in ps
  {
    hide Covers, Down, InSegments;
    forall x: nat | Covers(nets, x) ensures Down(x, k) in ps {
      if Down(x, k) !in ps { OtherSegment(nets, ps, k, x); }
    }
  }

  /** The task: the three stages, then the random test. No address left over lies
      in a network of any stage; every address that left in the first two stages is
      covered, and no address outside the chosen segments is; counts add up. The
      task hands over an empty map when the rest is random. */
  method MergeSources(df: CountMap, fw4: int, fw3: int, fw2: int, segCover: int,
                      normal: set<nat>, randCount: int, randNum: int) returns (r: MergeResult)
    requires Words(df)
    ensures var m1 := Fewer(df, fw4);
            var m2 := Without(m1, 8, fw3);
            var m3 := Without(m2, 16, fw2);
            && (forall ip :: ip in df && ip !in m2 ==> Covers(r.nets, ip))
            && (forall x: nat :: Covers(r.nets, x) ==>
                  (x in df && x !in m1) || Down(x, 8) in Chosen(m1, 8, fw3) || Down(x, 16) in Chosen(m2, 16, fw2))
            && Total(df) == Total(Only(df, df.Keys - m1.Keys)) + Total(Only(m1, m1.Keys - m2.Keys))
                            + Total(Only(m2, m2.Keys - m3.Keys)) + Total(m3)
            && Separate(m3, r.nets) && r.randDF.Keys <= m3.Keys
            && r.isRand == (Total(Unknown(m3, normal, randCount)) >= randNum)
            && r.randDF == if r.isRand then map[] else Unknown(m3, normal, randCount)
  {
    hide Total, Covers, Chosen, InSegments, AllApart, Pow2, Down, Only, Groups;
    var df1, nets1 := IPSuspectFW4(df, fw4);
    StageSeparates(df, df1, nets1, df.Keys - df1.Keys, 0);
    CoverSource(nets1, df.Keys - df1.Keys, 0);
    var df2, nets2 := IPSuspectFW3(df1, fw3, segCover);
    StageSeparates(df1, df2, nets2, Chosen(df1, 8, fw3), 8);
    CoverSource(nets2, Chosen(df1, 8, fw3), 8);
    SeparateMore(df1, df2, nets1, nets2);
    var df3, nets3 := IPSuspectFW2(df2, fw2, segCover);
    StageSeparates(df2, df3, nets3, Chosen(df2, 16, fw2), 16);
    CoverSource(nets3, Chosen(df2, 16, fw2), 16);
    SeparateMore(df2, df3, nets1 + nets2, nets3);
    var known, df4, isRand := IPSuspectRand(normal, df3, randCount, randNum);
    forall x: nat
      ensures Covers(nets1 + nets2 + nets3, x) <==> Covers(nets1, x) || Covers(nets2, x) || Covers(nets3, x)
      ensures Down(x, 0) == x
    {
      CoversConcat(nets1 + nets2, nets3, x);
      CoversConcat(nets1, nets2, x);
      DownNone(x);
    }
    assert df1 == Fewer(df, fw4) && df2 == Without(df1, 8, fw3) && df3 == Without(df2, 16, fw2);
    r := MergeResult(nets1 + nets2 + nets3, isRand, if isRand then map[] else df4);
  }

  lemma DownNone(x: nat)
    ensures Down(x, 0) == x
  {
  }

  // ---------- histograms ----------

  function Bump(h: CountMap, x: nat): CountMap { h[x := 1 + if x in h then h[x] else 0] }

  function Hist(s: seq<nat>): CountMap {
    if s == [] then map[] else Bump(Hist(s[..|s| - 1]), s[|s| - 1])
  }

  // A histogram adds up to the number of values.
  lemma {:induction false} HistTotal(s: seq<nat>)
    ensures Total(Hist(s)) == |s|
  {
    hide Total;
    if s == [] {
      TotalNone();
    } else {
      var n := |s| - 1;
      HistTotal(s[..n]);
      TotalUpdate(Hist(s[..n]), s[n], 1 + if s[n] in Hist(s[..n]) then Hist(s[..n])[s[n]] else 0);
    }
  }

  // Where a value occurs.
  function Spots(vals: seq<nat>, x: nat): set<nat> { set i | 0 <= i < |vals| && vals[i] == x }

  // h counts how often each value occurs, and has no other key.
  ghost predicate Tallies(h: CountMap, vals: seq<nat>) {
    forall x: nat :: (x in h <==> Spots(vals, x) != {}) && (x in h ==> h[x] == |Spots(vals, x)|)
  }

  lemma SpotsSnoc(vals: seq<nat>, y: nat, x: nat)
    ensures Spots(vals + [y], x) == Spots(vals, x) + (if y == x then {|vals|} else {})
  {
  }

  lemma BumpTallies(h: CountMap, vals: seq<nat>, y: nat)
    requires Tallies(h, vals)
    ensures Tallies(Bump(h, y), vals + [y])
  {
    hide Spots;
    forall x: nat
      ensures var n := |Spots(vals + [y], x)|;
              (x in Bump(h, y) <==> Spots(vals + [y], x) != {}) && (x in Bump(h, y) ==> Bump(h, y)[x] == n)
    {
      SpotsSnoc(vals, y, x);
      SpotsBelow(vals, x);
    }
  }

  lemma SpotsBelow(vals: seq<nat>, x: nat)
    ensures |vals| !in Spots(vals, x)
  {
  }

  lemma {:induction false} HistTallies(s: seq<nat>)
    ensures Tallies(Hist(s), s)
  {
    hide Tallies, Bump;
    if s == [] {
      assert Tallies(map[], []) by { NoTally(); }
    } else {
      var n := |s| - 1;
      HistTallies(s[..n]);
      BumpTallies(Hist(s[..n]), s[..n], s[n]);
      assert s == s[..n] + [s[n]];
    }
  }

  lemma NoTally()
    ensures Tallies(map[], [])
  {
  }

  // ---------- SIPBaseMerge ----------

  datatype Packet = Packet(sip: nat, dip: nat, sport: nat, dport: nat, length: nat, proto: nat)
  datatype Key = NetKey(net: Block) | Random
  datatype Stat = Stat(idxs: seq<nat>, dip: CountMap, sport: CountMap, dport: CountMap, length: CountMap, proto: CountMap)

  const EMPTY_STAT := Stat([], map[], map[], map[], map[], map[])

  function AddPacket(s: Stat, i: nat, p: Packet): Stat {
    Stat(s.idxs + [i], Bump(s.dip, p.dip), Bump(s.sport, p.sport), Bump(s.dport, p.dport),
         Bump(s.length, p.length), Bump(s.proto, p.proto))
  }

  // The statistics of the packets at the given positions.
  function StatOf(ps: seq<Packet>, idxs: seq<nat>): Stat
    requires forall i :: 0 <= i < |idxs| ==> idxs[i] < |ps|
  {
    Stat(idxs,
         Hist(seq(|idxs|, i requires 0 <= i < |idxs| => ps[idxs[i]].dip)),
         Hist(seq(|idxs|, i requires 0 <= i < |idxs| => ps[idxs[i]].sport)),
         Hist(seq(|idxs|, i requires 0 <= i < |idxs| => ps[idxs[i]].dport)),
         Hist(seq(|idxs|, i requires 0 <= i < |idxs| => ps[idxs[i]].length)),
         Hist(seq(|idxs|, i requires 0 <= i < |idxs| => ps[idxs[i]].proto)))
  }

  lemma HistSnoc(s: seq<nat>, t: seq<nat>, x: nat)
    requires t == s + [x]
    ensures Hist(t) == Bump(Hist(s), x)
  {
  }

  lemma StatSnoc(ps: seq<Packet>, idxs: seq<nat>, i: nat)
    requires i < |ps| && forall k :: 0 <= k < |idxs| ==> idxs[k] < |ps|
    ensures StatOf(ps, idxs + [i]) == AddPacket(StatOf(ps, idxs), i, ps[i])
  {
    hide Hist, Bump;
    var a, b := idxs, idxs + [i];
    HistSnoc(seq(|a|, k requires 0 <= k < |a| => ps[a[k]].dip), seq(|b|, k requires 0 <= k < |b| => ps[b[k]].dip), ps[i].dip);
    HistSnoc(seq(|a|, k requires 0 <= k < |a| => ps[a[k]].sport), seq(|b|, k requires 0 <= k < |b| => ps[b[k]].sport), ps[i].sport);
    HistSnoc(seq(|a|, k requires 0 <= k < |a| => ps[a[k]].dport), seq(|b|, k requires 0 <= k < |b| => ps[b[k]].dport), ps[i].dport);
    HistSnoc(seq(|a|, k requires 0 <= k < |a| => ps[a[k]].length), seq(|b|, k requires 0 <= k < |b| => ps[b[k]].length), ps[i].length);
    HistSnoc(seq(|a|, k requires 0 <= k < |a| => ps[a[k]].proto), seq(|b|, k requires 0 <= k < |b| => ps[b[k]].proto), ps[i].proto);
  }

  // The first network that holds an address, or |nets|.
  function FirstNet(nets: seq<Block>, ip: nat): (i: nat)
    ensures i <= |nets| && (i < |nets| ==> nets[i].Has(ip)) && forall j :: 0 <= j < i ==> !nets[j].Has(ip)
  {
    if nets == [] then 0 else if nets[0].Has(ip) then 0 else 1 + FirstNet(nets[1..], ip)
  }

  // The packet belongs to the bucket.
  predicate Belongs(p: Packet, nets: seq<Block>, isRand: bool, df: CountMap, key: Key) {
    match key
    case NetKey(b) => FirstNet(nets, p.sip) < |nets| && nets[FirstNet(nets, p.sip)] == b
    case Random => isRand && p.sip in df
  }

  // The positions, in order, of the packets of a bucket among the first n.
  function Positions(ps: seq<Packet>, nets: seq<Block>, isRand: bool, df: CountMap, key: Key, n: nat): (s: seq<nat>)
    requires n <= |ps|
    ensures forall i :: 0 <= i < |s| ==> s[i] < n && Belongs(ps[s[i]], nets, isRand, df, key)
    ensures forall i :: 0 <= i < n && Belongs(ps[i], nets, isRand, df, key) ==> i in s
  {
    if n == 0 then []
    else Positions(ps, nets, isRand, df, key, n - 1) + if Belongs(ps[n - 1], nets, isRand, df, key) then [n - 1] else []
  }

  // The statistics of a bucket over the first n packets, if it has any.
  ghost predicate Counted(ps: seq<Packet>, nets: seq<Block>, isRand: bool, df: CountMap, stats: map<Key, Stat>, n: nat)
    requires n <= |ps|
  {
    forall key :: var s := Positions(ps, nets, isRand, df, key, n);
                  (key in stats <==> s != []) && (key in stats ==> stats[key] == StatOf(ps, s))
  }

  // One more packet: every bucket it belongs to, and no other, takes it in.
  lemma CountOne(ps: seq<Packet>, nets: seq<Block>, isRand: bool, df: CountMap,
                 before: map<Key, Stat>, after: map<Key, Stat>, n: nat)
    requires n < |ps| && Counted(ps, nets, isRand, df, before, n)
    requires forall key :: if Belongs(ps[n], nets, isRand, df, key)
                           then key in after && after[key] == AddPacket(if key in before then before[key] else EMPTY_STAT, n, ps[n])
                           else (key in after <==> key in before) && (key in after ==> after[key] == before[key])
    ensures Counted(ps, nets, isRand, df, after, n + 1)
  {
    hide Belongs, StatOf, AddPacket, Positions;
    forall key ensures var s := Positions(ps, nets, isRand, df, key, n + 1);
                       (key in after <==> s != []) && (key in after ==> after[key] == StatOf(ps, s))
    {
      var s := Positions(ps, nets, isRand, df, key, n);
      PositionsStep(ps, nets, isRand, df, key, n);
      if Belongs(ps[n], nets, isRand, df, key) {
        StatSnoc(ps, s, n);
        EmptyStat(ps);
      }
    }
  }

  lemma PositionsStep(ps: seq<Packet>, nets: seq<Block>, isRand: bool, df: CountMap, key: Key, n: nat)
    requires n < |ps|
    ensures var s := Positions(ps, nets, isRand, df, key, n);
            Positions(ps, nets, isRand, df, key, n + 1) == if Belongs(ps[n], nets, isRand, df, key) then s + [n] else s
  {
  }

  lemma EmptyStat(ps: seq<Packet>)
    ensures StatOf(ps, []) == EMPTY_STAT
  {
  }

  /** Each bucket holds exactly the packets that belong to it, in order, with the
      five histograms of their fields. */
  method SIPBaseMerge(ps: seq<Packet>, nets: seq<Block>, isRand: bool, df: CountMap) returns (stats: map<Key, Stat>)
    ensures Counted(ps, nets, isRand, df, stats, |ps|)
  {
    hide Counted, AddPacket;
    stats := map[];
    NoneCounted(ps, nets, isRand, df);
    for i := 0 to |ps|
      invariant Counted(ps, nets, isRand, df, stats, i)
    {
      var p := ps[i];
      ghost var before := stats;
      var k := 0;
      while k < |nets| && !nets[k].Has(p.sip)
        invariant k <= |nets| && forall j :: 0 <= j < k ==> !nets[j].Has(p.sip)
      {
        k := k + 1;
      }
      assert k == FirstNet(nets, p.sip);
      if k < |nets| {
        var key := NetKey(nets[k]);
        stats := stats[key := AddPacket(if key in stats then stats[key] else EMPTY_STAT, i, p)];
      }
      if isRand && p.sip in df {
        stats := stats[Random := AddPacket(if Random in stats then stats[Random] else EMPTY_STAT, i, p)];
      }
      CountOne(ps, nets, isRand, df, before, stats, i);
    }
  }

  lemma NoneCounted(ps: seq<Packet>, nets: seq<Block>, isRand: bool, df: CountMap)
    ensures Counted(ps, nets, isRand, df, map[], 0)
  {
  }

  // ---------- what the buckets add up to ----------

  predicate Rising(s: seq<nat>) { forall i, j :: 0 <= i < j < |s| ==> s[i] < s[j] }

  lemma RisingSnoc(s: seq<nat>, n: nat)
    requires Rising(s) && InRange(s, n)
    ensures Rising(s + [n])
  {
  }

  lemma {:induction false} PositionsAscend(ps: seq<Packet>, nets: seq<Block>, isRand: bool, df: CountMap, key: Key, n: nat)
    requires n <= |ps|
    ensures Rising(Positions(ps, nets, isRand, df, key, n)) && InRange(Positions(ps, nets, isRand, df, key, n), n)
  {
    hide Belongs, Positions, Rising;
    if n > 0 {
      PositionsAscend(ps, nets, isRand, df, key, n - 1);
      PositionsStep(ps, nets, isRand, df, key, n - 1);
      RisingSnoc(Positions(ps, nets, isRand, df, key, n - 1), n - 1);
    } else {
      NoPositions(ps, nets, isRand, df, key, 0);
      assert Rising([]) by { NoneRising(); }
    }
  }

  lemma NoneRising()
    ensures Rising([])
  {
  }

  /** A bucket exists exactly when some packet belongs to it, and lists its packets by
      position, each once and in order. */
  lemma BucketHolds(ps: seq<Packet>, nets: seq<Block>, isRand: bool, df: CountMap, stats: map<Key, Stat>, key: Key)
    requires Counted(ps, nets, isRand, df, stats, |ps|)
    ensures key in stats <==> exists i :: 0 <= i < |ps| && Belongs(ps[i], nets, isRand, df, key)
    ensures key in stats ==> Rising(stats[key].idxs) && InRange(stats[key].idxs, |ps|)
    ensures key in stats ==> forall i: nat :: i in stats[key].idxs <==> i < |ps| && Belongs(ps[i], nets, isRand, df, key)
  {
    hide Hist, Belongs, Positions, Rising;
    var s := Positions(ps, nets, isRand, df, key, |ps|);
    assert key in stats ==> stats[key].idxs == s;
    PositionsAscend(ps, nets, isRand, df, key, |ps|);
    assert s != [] ==> Belongs(ps[s[0]], nets, isRand, df, key);
  }

  predicate InRange(idxs: seq<nat>, n: nat) { forall i :: 0 <= i < |idxs| ==> idxs[i] < n }

  /** Each histogram of a bucket counts exactly the values of its own field over the
      bucket's packets. */
  lemma BucketTallies(ps: seq<Packet>, nets: seq<Block>, isRand: bool, df: CountMap, stats: map<Key, Stat>, key: Key, s: Stat,
                      dips: seq<nat>, sports: seq<nat>, dports: seq<nat>, lengths: seq<nat>, protos: seq<nat>)
    requires Counted(ps, nets, isRand, df, stats, |ps|) && key in stats && s == stats[key] && InRange(s.idxs, |ps|)
    requires |dips| == |sports| == |dports| == |lengths| == |protos| == |s.idxs|
    requires forall i :: 0 <= i < |s.idxs| ==> dips[i] == ps[s.idxs[i]].dip
    requires forall i :: 0 <= i < |s.idxs| ==> sports[i] == ps[s.idxs[i]].sport && dports[i] == ps[s.idxs[i]].dport
    requires forall i :: 0 <= i < |s.idxs| ==> lengths[i] == ps[s.idxs[i]].length && protos[i] == ps[s.idxs[i]].proto
    ensures Tallies(s.dip, dips) && Tallies(s.sport, sports) && Tallies(s.dport, dports)
    ensures Tallies(s.length, lengths) && Tallies(s.proto, protos)
  {
    hide Tallies, Belongs, Positions;
    assert s == StatOf(ps, s.idxs);
    hide Counted;
    StatTallies(ps, s.idxs, s, dips, sports, dports, lengths, protos);
  }

  lemma StatTallies(ps: seq<Packet>, idxs: seq<nat>, s: Stat,
                    dips: seq<nat>, sports: seq<nat>, dports: seq<nat>, lengths: seq<nat>, protos: seq<nat>)
    requires InRange(idxs, |ps|) && s == StatOf(ps, idxs)
    requires |dips| == |sports| == |dports| == |lengths| == |protos| == |idxs|
    requires forall i :: 0 <= i < |idxs| ==> dips[i] == ps[idxs[i]].dip
    requires forall i :: 0 <= i < |idxs| ==> sports[i] == ps[idxs[i]].sport && dports[i] == ps[idxs[i]].dport
    requires forall i :: 0 <= i < |idxs| ==> lengths[i] == ps[idxs[i]].length && protos[i] == ps[idxs[i]].proto
    ensures Tallies(s.dip, dips) && Tallies(s.sport, sports) && Tallies(s.dport, dports)
    ensures Tallies(s.length, lengths) && Tallies(s.proto, protos)
  {
    hide Tallies, Hist;
    assert dips == seq(|idxs|, i requires 0 <= i < |idxs| => ps[idxs[i]].dip);
    assert sports == seq(|idxs|, i requires 0 <= i < |idxs| => ps[idxs[i]].sport);
    assert dports == seq(|idxs|, i requires 0 <= i < |idxs| => ps[idxs[i]].dport);
    assert lengths == seq(|idxs|, i requires 0 <= i < |idxs| => ps[idxs[i]].length);
    assert protos == seq(|idxs|, i requires 0 <= i < |idxs| => ps[idxs[i]].proto);
    HistTallies(dips);
    HistTallies(sports);
    HistTallies(dports);
    HistTallies(lengths);
    HistTallies(protos);
  }

  /** The five histograms of a bucket each sum to its number of packets. */
  lemma HistogramsSum(ps: seq<Packet>, nets: seq<Block>, isRand: bool, df: CountMap, stats: map<Key, Stat>, key: Key)
    requires Counted(ps, nets, isRand, df, stats, |ps|) && key in stats
    ensures var s := stats[key];
            Total(s.dip) == Total(s.sport) == Total(s.dport) == Total(s.length) == Total(s.proto) == |s.idxs|
  {
    hide Total, Hist;
    var s := Positions(ps, nets, isRand, df, key, |ps|);
    HistTotal(seq(|s|, i requires 0 <= i < |s| => ps[s[i]].dip));
    HistTotal(seq(|s|, i requires 0 <= i < |s| => ps[s[i]].sport));
    HistTotal(seq(|s|, i requires 0 <= i < |s| => ps[s[i]].dport));
    HistTotal(seq(|s|, i requires 0 <= i < |s| => ps[s[i]].length));
    HistTotal(seq(|s|, i requires 0 <= i < |s| => ps[s[i]].proto));
  }

  /** A packet is in two buckets exactly when random counting is on and its source
      is both left over and inside a network. */
  lemma TwoBuckets(p: Packet, nets: seq<Block>, isRand: bool, df: CountMap)
    ensures (exists a, b :: a != b && Belongs(p, nets, isRand, df, a) && Belongs(p, nets, isRand, df, b))
            <==> isRand && p.sip in df && Covers(nets, p.sip)
  {
    var f := FirstNet(nets, p.sip);
    if isRand && p.sip in df && Covers(nets, p.sip) {
      var i :| 0 <= i < |nets| && nets[i].Has(p.sip);
      assert f < |nets|;
      assert Belongs(p, nets, isRand, df, NetKey(nets[f])) && Belongs(p, nets, isRand, df, Random);
      assert NetKey(nets[f]) != Random;
    }
  }

  /** On the networks and the rest that the stages hand over no packet is counted
      twice: the position lists of different buckets have nothing in common. */
  lemma BucketsAreDisjoint(ps: seq<Packet>, nets: seq<Block>, isRand: bool, df: CountMap,
                           stats: map<Key, Stat>, a: Key, b: Key, i: nat)
    requires Separate(df, nets) && Counted(ps, nets, isRand, df, stats, |ps|)
    requires a in stats && b in stats && i in stats[a].idxs && i in stats[b].idxs
    ensures a == b
  {
    hide Covers, Belongs, Hist;
    assert i < |ps| && Belongs(ps[i], nets, isRand, df, a) && Belongs(ps[i], nets, isRand, df, b);
    TwoBuckets(ps[i], nets, isRand, df);
  }

  /** The merge task and then the counting: no packet is in two buckets, and since
      the task empties the leftover map whenever the leftovers are random, none is in
      the random bucket. */
  method MergeAndCount(df: CountMap, fw4: int, fw3: int, fw2: int, segCover: int, normal: set<nat>,
                       randCount: int, randNum: int, ps: seq<Packet>) returns (r: MergeResult, stats: map<Key, Stat>)
    requires Words(df)
    ensures var m3 := Without(Without(Fewer(df, fw4), 8, fw3), 16, fw2);
            Separate(m3, r.nets) && r.isRand == (Total(Unknown(m3, normal, randCount)) >= randNum)
    ensures Counted(ps, r.nets, r.isRand, r.randDF, stats, |ps|)
    ensures forall a, b, i :: a in stats && b in stats && i in stats[a].idxs && i in stats[b].idxs ==> a == b
    ensures Random !in stats
  {
    hide Total, Covers, Chosen, Groups, Counted, Only, Down;
    r := MergeSources(df, fw4, fw3, fw2, segCover, normal, randCount, randNum);
    stats := SIPBaseMerge(ps, r.nets, r.isRand, r.randDF);
    forall a, b, i | a in stats && b in stats && i in stats[a].idxs && i in stats[b].idxs ensures a == b {
      BucketsAreDisjoint(ps, r.nets, r.isRand, r.randDF, stats, a, b, i);
    }
    assert Random !in stats by { RandomStaysEmpty(ps, r, stats); }
  }

  lemma RandomStaysEmpty(ps: seq<Packet>, r: MergeResult, stats: map<Key, Stat>)
    requires r.isRand ==> r.randDF == map[]
    requires Counted(ps, r.nets, r.isRand, r.randDF, stats, |ps|)
    ensures Random !in stats
  {
    hide StatOf;
    NoPositions(ps, r.nets, r.isRand, r.randDF, Random, |ps|);
  }

  // A single address far below the threshold stays.
  lemma NoneChosen(df: CountMap, ip: nat, k: nat)
    requires df == map[ip := 5]
    ensures Without(df, k, 10) == df
  {
    hide Total, Down, Only;
    OneSegment(df, ip, k);
    assert Chosen(df, k, 10) == {};
  }

  /** A random source whose packet no bucket counts: 0.0.0.1, seen five times, is left
      over after the stages and makes the rest random, yet its packet is in no bucket. */
  method RandomPacketLost() returns (df: CountMap, ps: seq<Packet>, r: MergeResult, stats: map<Key, Stat>)
    ensures df == map[1 := 5] && |ps| == 1 && ps[0].sip == 1
    ensures r.isRand && Unknown(Without(Without(Fewer(df, 10), 8, 10), 16, 10), {}, 9) == df
    ensures Counted(ps, r.nets, r.isRand, r.randDF, stats, 1) && stats == map[]
  {
    hide Total, Covers, Chosen, Groups, Down, StatOf, Without;
    WordSize();
    df, ps := map[1 := 5], [Packet(1, 2, 3, 4, 5, 6)];
    assert Fewer(df, 10) == df;
    NoneChosen(df, 1, 8);
    NoneChosen(df, 1, 16);
    assert Unknown(df, {}, 9) == df;
    assert Total(df) == 5 by { TotalOne(1, 5); }
    r, stats := MergeAndCount(df, 10, 10, 10, 100, {}, 9, 1, ps);
    forall key | key != Random ensures key !in stats {
      Uncounted(ps, r, stats, key);
    }
  }

  lemma Uncounted(ps: seq<Packet>, r: MergeResult, stats: map<Key, Stat>, key: Key)
    requires |ps| == 1 && !Covers(r.nets, ps[0].sip) && key != Random
    requires Counted(ps, r.nets, r.isRand, r.randDF, stats, 1)
    ensures key !in stats
  {
    hide StatOf;
    NoPositions(ps, r.nets, r.isRand, r.randDF, key, 1);
  }

  lemma {:induction false} NoPositions(ps: seq<Packet>, nets: seq<Block>, isRand: bool, df: CountMap, key: Key, n: nat)
    requires n <= |ps| && forall i :: 0 <= i < n ==> !Belongs(ps[i], nets, isRand, df, key)
    ensures Positions(ps, nets, isRand, df, key, n) == []
  {
    hide Belongs;
    if n > 0 {
      NoPositions(ps, nets, isRand, df, key, n - 1);
    }
  }
}

/** Lists without repetition and the sets they draw from. */
module Counting {

  // Pigeonhole: numbers below m, all different, are at most m many.
  lemma {:induction false} Pigeonhole(f: seq<nat>, m: nat)
    requires forall i :: 0 <= i < |f| ==> f[i] < m
    requires forall i, j :: 0 <= i < j < |f| ==> f[i] != f[j]
    ensures |f| <= m
    decreases |f|
  {
    if |f| > 0 {
      // The entry m - 1, if there is one, takes the value of the last entry.
      var n := |f| - 1;
      var g := seq(n, i requires 0 <= i < n => if f[i] == m - 1 then f[n] else f[i]);
      Pigeonhole(g, m - 1);
    }
  }

  ghost predicate Distinct<T>(s: seq<T>) { forall i, j :: 0 <= i < j < |s| ==> s[i] != s[j] }

  function Elements<T>(s: seq<T>): set<T> { set x | x in s }

  lemma {:induction false} DistinctSize<T>(s: seq<T>)
    requires Distinct(s)
    ensures |Elements(s)| == |s|
  {
    if s != [] {
      var n := |s| - 1;
      DistinctSize(s[..n]);
      assert s == s[..n] + [s[n]];
      assert Elements(s) == Elements(s[..n]) + {s[n]};
    }
  }

  lemma {:induction false} SubsetSize<T>(a: set<T>, b: set<T>)
    requires a <= b
    ensures |a| <= |b|
    ensures |a| == |b| ==> a == b
  {
    if a != {} {
      var x :| x in a;
      SubsetSize(a - {x}, b - {x});
    }
  }

  // The numbers below n.
  function Below(n: nat): (s: set<nat>)
    ensures |s| == n
    ensures forall x :: x in s <==> 0 <= x < n
  {
    if n == 0 then {} else Below(n - 1) + {n - 1}
  }

  // A list longer than the set it draws from repeats an element.
  lemma {:induction false} Repeats<T>(p: seq<T>, u: set<T>) returns (i: nat, j: nat)
    requires |p| > |u| && forall k :: 0 <= k < |p| ==> p[k] in u
    ensures i < j < |p| && p[i] == p[j]
    decreases |p|
  {
    if p[0] in p[1..] {
      var k :| 0 <= k < |p[1..]| && p[1..][k] == p[0];
      i, j := 0, k + 1;
    } else {
      i, j := Repeats(p[1..], u - {p[0]});
      i, j := i + 1, j + 1;
    }
  }
}

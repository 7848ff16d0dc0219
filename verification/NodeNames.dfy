/**
 dni/framework/utils/names.cc: the name under which a node is registered. A base
 name that several nodes share gets a running number; nothing keeps the result
 apart from the other names.
 */
module NodeNames {

  // ---------- std::to_string ----------

  function Digit(d: nat): char
    requires d < 10
  {
    '0' + d as char
  }

  function ToString(n: nat): (s: string)
    ensures |s| > 0 && forall i :: 0 <= i < |s| ==> '0' <= s[i] <= '9'
  {
    if n < 10 then [Digit(n)] else ToString(n / 10) + [Digit(n % 10)]
  }

  // The number a string of digits stands for.
  function Parse(s: string): nat
    requires forall i :: 0 <= i < |s| ==> '0' <= s[i] <= '9'
  {
    if s == [] then 0 else 10 * Parse(s[..|s| - 1]) + (s[|s| - 1] - '0') as int
  }

  lemma {:induction false} ParseToString(n: nat)
    ensures Parse(ToString(n)) == n
  {
    if n >= 10 {
      ParseToString(n / 10);
      var s := ToString(n);
      assert s[..|s| - 1] == ToString(n / 10);
    }
  }

  // ---------- names with a number ----------

  function Numbered(base: string, k: nat): string { base + "_" + ToString(k) }

  // The last underscore tells where the number starts.
  lemma LastUnderscore(a: string, j: nat)
    ensures |a| < |Numbered(a, j)| && Numbered(a, j)[|a|] == '_'
    ensures forall i :: |a| < i < |Numbered(a, j)| ==> Numbered(a, j)[i] != '_'
  {
    hide ToString;
  }

  lemma NumberedInjective(a: string, j: nat, b: string, k: nat)
    requires Numbered(a, j) == Numbered(b, k)
    ensures a == b && j == k
  {
    hide ToString;
    LastUnderscore(a, j);
    LastUnderscore(b, k);
    assert |a| == |b|;
    assert Numbered(a, j)[..|a|] == a && Numbered(b, k)[..|a|] == b;
    assert Numbered(a, j)[|a| + 1..] == ToString(j) && Numbered(b, k)[|a| + 1..] == ToString(k);
    ParseToString(j);
    ParseToString(k);
  }

  // ---------- the canonical name ----------

  // How many of the first n base names are b.
  function Count(bases: seq<string>, b: string, n: nat): (c: nat)
    requires n <= |bases|
    ensures c <= n
  {
    if n == 0 then 0 else Count(bases, b, n - 1) + if bases[n - 1] == b then 1 else 0
  }

  predicate Repeated(bases: seq<string>, b: string) { Count(bases, b, |bases|) > 1 }

  function Canonical(bases: seq<string>, v: nat): string
    requires v < |bases|
  {
    if Repeated(bases, bases[v]) then Numbered(bases[v], Count(bases, bases[v], v)) else bases[v]
  }

  // A node of the configuration file.
  datatype NodeProto = NodeProto(name: string, task: string, inputs: seq<string>, outputs: seq<string>) {
    function Base(): string { if name == "" then task else name }
  }

  function Bases(protos: seq<NodeProto>): (bs: seq<string>)
    ensures |bs| == |protos| && forall i :: 0 <= i < |bs| ==> bs[i] == protos[i].Base()
  {
    seq(|protos|, i requires 0 <= i < |protos| => protos[i].Base())
  }

  method CanonicalNodeName(protos: seq<NodeProto>, id: nat) returns (name: string)
    requires id < |protos|
    ensures name == Canonical(Bases(protos), id)
  {
    hide Numbered;
    ghost var bases := Bases(protos);
    var base := protos[id].Base();
    var count, num := 0, 0;
    for i := 0 to |protos|
      invariant count == Count(bases, base, i)
      invariant num == Count(bases, base, if i < id then i else id)
    {
      if protos[i].Base() == base {
        count := count + 1;
        if i < id {
          num := num + 1;
        }
      }
    }
    if count <= 1 {
      return base;
    }
    return Numbered(base, num);
  }

  // The nodes below n with base name b.
  function Same(protos: seq<NodeProto>, b: string, n: nat): set<nat>
    requires n <= |protos|
  {
    set w | 0 <= w < n && (if protos[w].name == "" then protos[w].task else protos[w].name) == b
  }

  lemma {:induction false} CountIsSame(protos: seq<NodeProto>, b: string, n: nat)
    requires n <= |protos|
    ensures Count(Bases(protos), b, n) == |Same(protos, b, n)|
  {
    hide Same;
    if n > 0 {
      CountIsSame(protos, b, n - 1);
      SameStep(protos, b, n);
    } else {
      SameNone(protos, b);
    }
  }

  lemma SameStep(protos: seq<NodeProto>, b: string, n: nat)
    requires 0 < n <= |protos|
    ensures |Same(protos, b, n)| == |Same(protos, b, n - 1)| + if protos[n - 1].Base() == b then 1 else 0
  {
    assert Same(protos, b, n) == Same(protos, b, n - 1) + if protos[n - 1].Base() == b then {n - 1} else {};
  }

  lemma SameNone(protos: seq<NodeProto>, b: string)
    ensures Same(protos, b, 0) == {}
  {
  }

  /** A node that shares its name, or its task's name when it has none, with no other
      node keeps it; otherwise it gets the number of earlier nodes that share it. */
  lemma CanonicalMeans(protos: seq<NodeProto>, v: nat)
    requires v < |protos|
    ensures var b := if protos[v].name == "" then protos[v].task else protos[v].name;
            Canonical(Bases(protos), v) ==
              if Same(protos, b, |protos|) == {v} then b else b + "_" + ToString(|Same(protos, b, v)|)
  {
    hide ToString;
    var b := protos[v].Base();
    CountIsSame(protos, b, |protos|);
    CountIsSame(protos, b, v);
    assert v in Same(protos, b, |protos|);
    if |Same(protos, b, |protos|)| <= 1 {
      OnlyOne(Same(protos, b, |protos|), v);
    }
  }

  lemma OnlyOne(s: set<nat>, v: nat)
    requires v in s && |s| <= 1
    ensures s == {v}
  {
    assert |s - {v}| == 0;
  }

  // ---------- when names collide ----------

  lemma {:induction false} CountGrows(bases: seq<string>, b: string, m: nat, n: nat)
    requires m <= n <= |bases|
    ensures Count(bases, b, m) <= Count(bases, b, n)
    ensures m < n && bases[m] == b ==> Count(bases, b, m) < Count(bases, b, n)
    decreases n
  {
    if m < n {
      CountGrows(bases, b, m, n - 1);
    }
  }

  // The node that gets number k.
  lemma {:induction false} Holder(bases: seq<string>, b: string, n: nat, k: nat) returns (v: nat)
    requires n <= |bases| && k < Count(bases, b, n)
    ensures v < n && bases[v] == b && Count(bases, b, v) == k
    decreases n
  {
    if bases[n - 1] == b && Count(bases, b, n - 1) == k {
      v := n - 1;
    } else {
      v := Holder(bases, b, n - 1, k);
    }
  }

  // A base name used once that reads like a numbered name.
  predicate Clash(bases: seq<string>, u: nat, v: nat)
    requires u < |bases| && v < |bases|
  {
    && !Repeated(bases, bases[u]) && Repeated(bases, bases[v])
    && bases[u] == Numbered(bases[v], Count(bases, bases[v], v))
  }

  /** No base name that occurs once has the form c_k with c repeated and k below the
      number of its occurrences. */
  ghost predicate NamesSafe(bases: seq<string>) {
    forall u, c, k: nat ::
      0 <= u < |bases| && bases[u] == Numbered(c, k) && Repeated(bases, c) && k < Count(bases, c, |bases|)
      ==> Repeated(bases, bases[u])
  }

  ghost predicate Distinguished(bases: seq<string>) {
    forall u, v :: 0 <= u < v < |bases| ==> Canonical(bases, u) != Canonical(bases, v)
  }

  lemma SameName(bases: seq<string>, u: nat, v: nat)
    requires u < v < |bases| && Canonical(bases, u) == Canonical(bases, v)
    ensures Clash(bases, u, v) || Clash(bases, v, u)
  {
    hide Numbered;
    var b, c := bases[u], bases[v];
    CountGrows(bases, c, v, |bases|);
    CountGrows(bases, b, u, v);
    CountGrows(bases, b, v, |bases|);
    if Repeated(bases, b) && Repeated(bases, c) {
      NumberedInjective(b, Count(bases, b, u), c, Count(bases, c, v));
    }
  }

  /** Canonical names are distinct exactly when the base names are safe. */
  lemma DistinctExactly(bases: seq<string>)
    ensures Distinguished(bases) <==> NamesSafe(bases)
  {
    hide Numbered, Repeated;
    if NamesSafe(bases) {
      forall u, v | 0 <= u < v < |bases| ensures Canonical(bases, u) != Canonical(bases, v) {
        if Canonical(bases, u) == Canonical(bases, v) {
          SameName(bases, u, v);
          CountGrows(bases, bases[u], u, |bases|);
          CountGrows(bases, bases[v], v, |bases|);
        }
      }
    } else {
      var u, c, k: nat :|
        && 0 <= u < |bases| && bases[u] == Numbered(c, k) && Repeated(bases, c) && k < Count(bases, c, |bases|)
        && !Repeated(bases, bases[u]);
      var v := Holder(bases, c, |bases|, k);
      assert Canonical(bases, u) == Canonical(bases, v) && u != v;
    }
  }

  /** Three nodes a, a and a_0 are registered as a_0, a_1 and a_0. */
  lemma NamesCollide()
    ensures var bases := ["a", "a", "a_0"];
            Canonical(bases, 0) == Canonical(bases, 2) == "a_0" && Canonical(bases, 1) == "a_1" && !NamesSafe(bases)
  {
    var bases := ["a", "a", "a_0"];
    assert Count(bases, "a", 0) == 0 && Count(bases, "a", 1) == 1 && Count(bases, "a", 2) == 2 && Count(bases, "a", 3) == 2;
    assert Count(bases, "a_0", 2) == 0 && Count(bases, "a_0", 3) == 1;
    assert ToString(0) == "0" && ToString(1) == "1";
    assert Numbered("a", 0) == "a_0" && Numbered("a", 1) == "a_1";
    DistinctExactly(bases);
  }
}

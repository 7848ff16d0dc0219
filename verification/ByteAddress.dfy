/**
 dni/go/sdk/utils/cidr.go, the helpers on addresses kept as big-endian byte
 slices of any length n. Each loop is proved to compute on `Value`, the number
 the slice stands for, modulo 2^(8n).
 */
module ByteAddress {
  import opened Bits

  type Byte = b: nat | b < 256
  type Addr = seq<Byte>

  function Value(a: Addr): nat {
    if a == [] then 0 else 256 * Value(a[..|a| - 1]) + a[|a| - 1]
  }

  lemma Pow2Byte(k: nat)
    ensures Pow2(k + 8) == 256 * Pow2(k)
  {
    hide Pow2;
    Doubled(k);
    Doubled(k + 1);
    Doubled(k + 2);
    Doubled(k + 3);
    Doubled(k + 4);
    Doubled(k + 5);
    Doubled(k + 6);
    Doubled(k + 7);
  }

  lemma Doubled(k: nat)
    ensures Pow2(k + 1) == 2 * Pow2(k)
  {
  }

  lemma Pow2Small()
    ensures Pow2(0) == 1 && Pow2(8) == 256
  {
  }

  lemma {:induction false} ValueBound(a: Addr)
    ensures Value(a) < Pow2(8 * |a|)
  {
    if a != [] {
      ValueBound(a[..|a| - 1]);
      Pow2Byte(8 * (|a| - 1));
    }
  }

  lemma {:induction false} ValueInjective(a: Addr, b: Addr)
    requires |a| == |b| && Value(a) == Value(b)
    ensures a == b
  {
    if a != [] {
      ValueInjective(a[..|a| - 1], b[..|b| - 1]);
      assert a == a[..|a| - 1] + [a[|a| - 1]] && b == b[..|b| - 1] + [b[|b| - 1]];
    }
  }

  // bytes.Compare on slices of equal length: the last byte only breaks a tie.
  function Compare(a: Addr, b: Addr): int
    requires |a| == |b|
  {
    if a == [] then 0
    else
      var c := Compare(a[..|a| - 1], b[..|b| - 1]);
      if c != 0 then c
      else if a[|a| - 1] < b[|b| - 1] then -1
      else if a[|a| - 1] > b[|b| - 1] then 1 else 0
  }

  lemma {:induction false} CompareIsNumeric(a: Addr, b: Addr)
    requires |a| == |b|
    ensures Compare(a, b) == if Value(a) < Value(b) then -1 else if Value(a) > Value(b) then 1 else 0
  {
    if a != [] {
      CompareIsNumeric(a[..|a| - 1], b[..|b| - 1]);
    }
  }

  // Shorter addresses come first.
  predicate LessThan(a: Addr, b: Addr) {
    if |a| != |b| then |a| < |b| else Compare(a, b) < 0
  }

  // ---------- a number followed by k more bits ----------

  function Cat(v: nat, l: nat, k: nat): nat {
    if k == 0 then v else 2 * Cat(v, l / 2, k - 1) + l % 2
  }

  lemma {:induction false} CatLinear(v: nat, l: nat, k: nat)
    requires l < Pow2(k)
    ensures Cat(v, l, k) == Cat(v, 0, k) + l
    decreases k
  {
    if k > 0 {
      CatLinear(v, l / 2, k - 1);
    }
  }

  lemma CatByte(v: nat, l: Byte)
    ensures Cat(v, l, 8) == 256 * v + l
  {
    assert Pow2(8) == 256;
    CatLinear(v, l, 8);
    assert Cat(v, 0, 8) == 2 * Cat(v, 0, 7) == 4 * Cat(v, 0, 6) == 8 * Cat(v, 0, 5) == 16 * Cat(v, 0, 4);
    assert Cat(v, 0, 4) == 2 * Cat(v, 0, 3) == 4 * Cat(v, 0, 2) == 8 * Cat(v, 0, 1) == 16 * v;
  }

  lemma CatTwice(v: nat, l: nat, i: nat, k: nat)
    requires i < 2 && k > 0
    ensures Cat(v, 2 * l + i, k) == 2 * Cat(v, l, k - 1) + i
  {
  }

  lemma XorTwice(a: nat, b: nat, i: nat, j: nat)
    requires i < 2 && j < 2
    ensures Xor(2 * a + i, 2 * b + j) == 2 * Xor(a, b) + if i == j then 0 else 1
  {
  }

  lemma XorCatStep(v: nat, u: nat, p: nat, q: nat, i: nat, j: nat, k: nat)
    requires i < 2 && j < 2 && k > 0
    requires Xor(Cat(v, p, k - 1), Cat(u, q, k - 1)) == Cat(Xor(v, u), Xor(p, q), k - 1)
    ensures Xor(Cat(v, 2 * p + i, k), Cat(u, 2 * q + j, k)) == Cat(Xor(v, u), Xor(2 * p + i, 2 * q + j), k)
  {
    hide Xor, Cat;
    CatTwice(v, p, i, k);
    CatTwice(u, q, j, k);
    CatTwice(Xor(v, u), Xor(p, q), if i == j then 0 else 1, k);
    XorTwice(Cat(v, p, k - 1), Cat(u, q, k - 1), i, j);
    XorTwice(p, q, i, j);
  }

  lemma {:induction false} XorCat(v: nat, u: nat, l: nat, m: nat, k: nat)
    ensures Xor(Cat(v, l, k), Cat(u, m, k)) == Cat(Xor(v, u), Xor(l, m), k)
    decreases k
  {
    hide Xor;
    if k > 0 {
      hide Cat;
      XorCat(v, u, l / 2, m / 2, k - 1);
      XorCatStep(v, u, l / 2, m / 2, l % 2, m % 2, k);
      assert 2 * (l / 2) + l % 2 == l && 2 * (m / 2) + m % 2 == m;
    }
  }

  lemma OrTwice(a: nat, b: nat, i: nat, j: nat)
    requires i < 2 && j < 2
    ensures Or(2 * a + i, 2 * b + j) == 2 * Or(a, b) + if i == 1 || j == 1 then 1 else 0
  {
  }

  lemma OrCatStep(v: nat, u: nat, p: nat, q: nat, i: nat, j: nat, k: nat)
    requires i < 2 && j < 2 && k > 0
    requires Or(Cat(v, p, k - 1), Cat(u, q, k - 1)) == Cat(Or(v, u), Or(p, q), k - 1)
    ensures Or(Cat(v, 2 * p + i, k), Cat(u, 2 * q + j, k)) == Cat(Or(v, u), Or(2 * p + i, 2 * q + j), k)
  {
    hide Or, Cat;
    CatTwice(v, p, i, k);
    CatTwice(u, q, j, k);
    CatTwice(Or(v, u), Or(p, q), if i == 1 || j == 1 then 1 else 0, k);
    OrTwice(Cat(v, p, k - 1), Cat(u, q, k - 1), i, j);
    OrTwice(p, q, i, j);
  }

  lemma {:induction false} OrCat(v: nat, u: nat, l: nat, m: nat, k: nat)
    ensures Or(Cat(v, l, k), Cat(u, m, k)) == Cat(Or(v, u), Or(l, m), k)
    decreases k
  {
    hide Or;
    if k > 0 {
      hide Cat;
      OrCat(v, u, l / 2, m / 2, k - 1);
      OrCatStep(v, u, l / 2, m / 2, l % 2, m % 2, k);
      assert 2 * (l / 2) + l % 2 == l && 2 * (m / 2) + m % 2 == m;
    }
  }

  lemma {:induction false} TopBitCat(v: nat, l: nat, k: nat)
    requires v > 0
    ensures Cat(v, l, k) > 0 && TopBit(Cat(v, l, k)) == k + TopBit(v)
    decreases k
  {
    if k > 0 {
      TopBitCat(v, l / 2, k - 1);
    }
  }

  lemma LowBitTwice(x: nat, i: nat)
    requires i < 2 && x + i > 0
    ensures LowBit(2 * x + i) == if i == 1 then 0 else 1 + LowBit(x)
  {
  }

  // l is written as 2 * p + i
  lemma LowBitCatStep(v: nat, p: nat, i: nat, k: nat)
    requires i < 2 && k > 0 && v + p + i > 0
    requires v + p > 0 ==> Cat(v, p, k - 1) > 0
    requires v + p > 0 ==> LowBit(Cat(v, p, k - 1)) == if p > 0 then LowBit(p) else k - 1 + LowBit(v)
    ensures Cat(v, 2 * p + i, k) > 0
    ensures LowBit(Cat(v, 2 * p + i, k)) == if p + i > 0 then LowBit(2 * p + i) else k + LowBit(v)
  {
    hide LowBit, Cat;
    CatTwice(v, p, i, k);
    LowBitTwice(Cat(v, p, k - 1), i);
    if p + i > 0 {
      LowBitTwice(p, i);
    }
  }

  lemma {:induction false} LowBitCat(v: nat, l: nat, k: nat)
    requires l < Pow2(k) && v + l > 0
    ensures Cat(v, l, k) > 0
    ensures LowBit(Cat(v, l, k)) == if l > 0 then LowBit(l) else k + LowBit(v)
    decreases k
  {
    hide LowBit;
    if k > 0 {
      hide Cat;
      var p, i := l / 2, l % 2;
      assert l == 2 * p + i && p < Pow2(k - 1);
      if v + p > 0 {
        LowBitCat(v, p, k - 1);
      }
      LowBitCatStep(v, p, i, k);
    }
  }

  // Bitwise operations on one more byte.
  lemma XorByte(v: nat, u: nat, l: Byte, m: Byte)
    ensures Xor(l, m) < 256 && Xor(256 * v + l, 256 * u + m) == 256 * Xor(v, u) + Xor(l, m)
  {
    assert Pow2(8) == 256;
    XorBound(l, m, 8);
    CatByte(v, l);
    CatByte(u, m);
    CatByte(Xor(v, u), Xor(l, m));
    XorCat(v, u, l, m, 8);
  }

  lemma {:induction false} OrBound(a: nat, b: nat, w: nat)
    requires a < Pow2(w) && b < Pow2(w)
    ensures Or(a, b) < Pow2(w)
    decreases w
  {
    if w > 0 {
      OrBound(a / 2, b / 2, w - 1);
    }
  }

  lemma OrByte(v: nat, u: nat, l: Byte, m: Byte)
    ensures Or(l, m) < 256 && Or(256 * v + l, 256 * u + m) == 256 * Or(v, u) + Or(l, m)
  {
    assert Pow2(8) == 256;
    OrBound(l, m, 8);
    CatByte(v, l);
    CatByte(u, m);
    CatByte(Or(v, u), Or(l, m));
    OrCat(v, u, l, m, 8);
  }

  // ---------- addOne ----------

  // Incrementing byte i and zeroing a tail of 0xff bytes adds one.
  lemma {:induction false} Carry(ip: Addr, r: Addr, i: nat)
    requires |r| == |ip| && i < |ip| && r[..i] == ip[..i] && r[i] as int == ip[i] as int + 1
    requires forall j :: i < j < |ip| ==> ip[j] == 255 && r[j] == 0
    ensures Value(r) == Value(ip) + 1
    decreases |ip|
  {
    var n := |ip| - 1;
    if i == n {
      assert ip[..n] == r[..n];
    } else {
      assert r[..n][..i] == r[..i] && ip[..n][..i] == ip[..i];
      Carry(ip[..n], r[..n], i);
    }
  }

  lemma {:induction false} AllOnes(ip: Addr)
    requires forall j :: 0 <= j < |ip| ==> ip[j] == 255
    ensures Value(ip) == Pow2(8 * |ip|) - 1
  {
    if ip != [] {
      AllOnes(ip[..|ip| - 1]);
      Pow2Byte(8 * (|ip| - 1));
    }
  }

  lemma {:induction false} AllZero(ip: Addr)
    requires forall j :: 0 <= j < |ip| ==> ip[j] == 0
    ensures Value(ip) == 0
  {
    if ip != [] {
      AllZero(ip[..|ip| - 1]);
    }
  }

  // One more, wrapping to zero after the last address.
  function Successor(x: nat, w: nat): nat { if x + 1 < Pow2(w) then x + 1 else 0 }

  method AddOne(ip: Addr) returns (r: Addr)
    ensures |r| == |ip| && Value(r) == Successor(Value(ip), 8 * |ip|)
  {
    hide Pow2, Value;
    var n := |ip|;
    var res := new Byte[n](_ => 0);
    var i := n - 1;
    while i >= 0
      invariant -1 <= i < n
      invariant forall j :: i < j < n ==> ip[j] == 255
      invariant forall j :: 0 <= j < n ==> res[j] == 0
    {
      var t := (ip[i] as int + 1) % 256;
      res[i] := t;
      if t != 0 {
        forall j | 0 <= j < i { res[j] := ip[j]; }
        r := res[..];
        assert r[..i] == ip[..i];
        Carry(ip, r, i);
        ValueBound(r);
        return;
      }
      i := i - 1;
    }
    r := res[..];
    AllOnes(ip);
    AllZero(r);
  }

  predicate AllFF(ip: Addr) { forall j :: 0 <= j < |ip| ==> ip[j] == 255 }

  lemma {:induction false} AllFFIsLast(ip: Addr)
    ensures AllFF(ip) <==> Value(ip) == Pow2(8 * |ip|) - 1
  {
    if AllFF(ip) {
      AllOnes(ip);
    } else {
      var ones := seq(|ip|, _ => 255 as Byte);
      AllOnes(ones);
      if Value(ip) == Value(ones) { ValueInjective(ip, ones); }
    }
  }

  // ---------- xor and lastIP ----------

  lemma {:induction false} XorValue(a: Addr, b: Addr, r: Addr)
    requires |a| == |b| == |r| && forall j :: 0 <= j < |a| ==> r[j] == Xor(a[j], b[j])
    ensures Value(r) == Xor(Value(a), Value(b))
  {
    if a != [] {
      var n := |a| - 1;
      XorValue(a[..n], b[..n], r[..n]);
      XorByte(Value(a[..n]), Value(b[..n]), a[n], b[n]);
    }
  }

  method XorBytes(a: Addr, b: Addr) returns (r: Addr)
    requires |a| == |b|
    ensures |r| == |a| && Value(r) == Xor(Value(a), Value(b))
  {
    hide Xor, Value;
    var n := |a|;
    var res := new Byte[n](_ => 0);
    var i := n - 1;
    while i >= 0
      invariant -1 <= i < n
      invariant forall j :: i < j < n ==> res[j] == Xor(a[j], b[j])
    {
      XorByte(0, 0, a[i], b[i]);
      res[i] := Xor(a[i], b[i]);
      i := i - 1;
    }
    r := res[..];
    XorValue(a, b, r);
  }

  // res[i] = ip[i] | ^mask[i], summed up.
  lemma {:induction false} LastValue(ip: Addr, mask: Addr, r: Addr)
    requires |ip| == |mask| == |r|
    requires forall j :: 0 <= j < |ip| ==> r[j] == Or(ip[j], 255 - mask[j])
    ensures Value(mask) < Pow2(8 * |mask|)
    ensures Value(r) == Or(Value(ip), Not(Value(mask), 8 * |mask|))
  {
    hide Or, Pow2;
    ValueBound(mask);
    if ip == [] {
      Pow2Small();
      OrZero(0);
    } else {
      hide Not;
      var n := |ip| - 1;
      LastValue(ip[..n], mask[..n], r[..n]);
      assert Value(mask) == 256 * Value(mask[..n]) + mask[n];
      LastByte(Value(ip[..n]), Value(mask[..n]), ip[n], mask[n], n);
    }
  }

  lemma LastByte(v: nat, u: nat, l: Byte, m: Byte, n: nat)
    requires u < Pow2(8 * n) && 256 * u + m < Pow2(8 * (n + 1))
    ensures Or(256 * v + l, Not(256 * u + m, 8 * (n + 1))) == 256 * Or(v, Not(u, 8 * n)) + Or(l, 255 - m)
  {
    hide Or, Pow2;
    Pow2Byte(8 * n);
    OrByte(v, Not(u, 8 * n), l, 255 - m);
  }

  method LastIP(ip: Addr, mask: Addr) returns (r: Addr)
    requires |ip| == |mask|
    ensures |r| == |ip| && Value(mask) < Pow2(8 * |ip|)
    ensures Value(r) == Or(Value(ip), Not(Value(mask), 8 * |ip|))
  {
    hide Or, Value, Pow2;
    var n := |ip|;
    var res := new Byte[n](_ => 0);
    for i := 0 to n
      invariant forall j :: 0 <= j < i ==> res[j] == Or(ip[j], 255 - mask[j])
    {
      OrByte(0, 0, ip[i], 255 - mask[i]);
      res[i] := Or(ip[i], 255 - mask[i]);
    }
    r := res[..];
    LastValue(ip, mask, r);
  }

  // ---------- prefixLength and trailingZeros ----------

  function LeadingZeros8(c: Byte): int
    requires c > 0
  {
    7 - TopBit(c)
  }

  function TrailingZeros8(c: Byte): int
    requires c > 0
  {
    LowBit(c)
  }

  lemma {:induction false} TopByte(ip: Addr, i: nat)
    requires i < |ip| && ip[i] != 0 && forall j :: 0 <= j < i ==> ip[j] == 0
    ensures Value(ip) > 0 && TopBit(Value(ip)) == 8 * (|ip| - 1 - i) + TopBit(ip[i])
    decreases |ip|
  {
    hide TopBit, Cat;
    var n := |ip| - 1;
    if i == n {
      AllZero(ip[..n]);
    } else {
      TopByte(ip[..n], i);
      CatByte(Value(ip[..n]), ip[n]);
      TopBitCat(Value(ip[..n]), ip[n], 8);
    }
  }

  lemma {:induction false} LowByte(ip: Addr, i: nat)
    requires i < |ip| && ip[i] != 0 && forall j :: i < j < |ip| ==> ip[j] == 0
    ensures Value(ip) > 0 && LowBit(Value(ip)) == 8 * (|ip| - 1 - i) + LowBit(ip[i])
    decreases |ip|
  {
    hide LowBit, Cat;
    var n := |ip| - 1;
    assert Pow2(8) == 256;
    CatByte(Value(ip[..n]), ip[n]);
    if i < n {
      LowByte(ip[..n], i);
    }
    LowBitCat(Value(ip[..n]), ip[n], 8);
  }

  method PrefixLength(ip: Addr) returns (r: int)
    ensures r == if Value(ip) == 0 then 0 else 8 * |ip| - TopBit(Value(ip))
  {
    hide Value, TopBit;
    for index := 0 to |ip|
      invariant forall j :: 0 <= j < index ==> ip[j] == 0
    {
      if ip[index] != 0 {
        TopByte(ip, index);
        return index * 8 + LeadingZeros8(ip[index]) + 1;
      }
    }
    AllZero(ip);
    return 0;
  }

  // The number of low zero bits of a w-bit number.
  function TrailingZerosOf(x: nat, w: nat): nat { if x == 0 then w else LowBit(x) }

  method TrailingZeros(ip: Addr) returns (r: int)
    ensures r == TrailingZerosOf(Value(ip), 8 * |ip|)
  {
    hide Value, LowBit;
    var i := |ip| - 1;
    while i >= 0
      invariant -1 <= i < |ip|
      invariant forall j :: i < j < |ip| ==> ip[j] == 0
    {
      if ip[i] != 0 {
        LowByte(ip, i);
        return (|ip| - i - 1) * 8 + TrailingZeros8(ip[i]);
      }
      i := i - 1;
    }
    AllZero(ip);
    return |ip| * 8;
  }

  // ---------- net.CIDRMask, Uiton, Ntoui ----------

  function MaskByte(ones: nat, i: nat): Byte {
    if 8 * (i + 1) <= ones then 255
    else if ones <= 8 * i then 0
    else
      var z := 8 * (i + 1) - ones;
      assert Pow2(8) == 256;
      Pow2Grows(z, 8);
      256 - Pow2(z)
  }

  // net.CIDRMask(ones, 8 * n)
  function CidrMask(ones: nat, n: nat): (m: Addr)
    ensures |m| == n
  {
    seq(n, i requires 0 <= i < n => MaskByte(ones, i))
  }

  // All bytes but the last are full when the mask reaches into the last.
  lemma SameTop(ones: nat, n: nat)
    requires n > 0 && 8 * (n - 1) < ones
    ensures CidrMask(ones, n)[..n - 1] == CidrMask(8 * (n - 1), n - 1)
  {
  }

  lemma {:induction false} MaskValue(ones: nat, n: nat)
    requires ones <= 8 * n
    ensures Value(CidrMask(ones, n)) == Pow2(8 * n) - Pow2(8 * n - ones)
    decreases n
  {
    if n == 0 {
      assert Value([]) == 0;
    } else {
      hide Pow2;
      var m := CidrMask(ones, n);
      var w := 8 * (n - 1);
      Pow2Byte(w);
      assert m[n - 1] == MaskByte(ones, n - 1);
      if ones <= w {
        assert m[..n - 1] == CidrMask(ones, n - 1);
        MaskValue(ones, n - 1);
        Pow2Byte(w - ones);
      } else {
        assert m[..n - 1] == CidrMask(w, n - 1) by { SameTop(ones, n); }
        MaskValue(w, n - 1);
        assert Pow2(0) == 1 by { Pow2Small(); }
      }
    }
  }

  function Uiton(i: nat): (b: Addr)
    requires i < 0x1_0000_0000
    ensures |b| == 4
  {
    [i / 0x100_0000, i / 0x1_0000 % 256, i / 0x100 % 256, i % 256]
  }

  function Ntoui(b: Addr): nat
    requires |b| == 4
  {
    b[3] as nat + b[2] as nat * 0x100 + b[1] as nat * 0x1_0000 + b[0] as nat * 0x100_0000
  }

  lemma NtouiIsValue(b: Addr)
    requires |b| == 4
    ensures Ntoui(b) == Value(b)
  {
    assert b[..3][..2] == b[..2] && b[..2][..1] == b[..1] && b[..1][..0] == [];
    assert Value(b[..1]) == b[0] as nat;
    assert Value(b[..2]) == 256 * Value(b[..1]) + b[1] as nat;
    assert Value(b[..3]) == 256 * Value(b[..2]) + b[2] as nat;
  }

  // The two conversions are inverse to each other.
  lemma UitonRoundTrip(i: nat)
    requires i < 0x1_0000_0000
    ensures Ntoui(Uiton(i)) == i && Value(Uiton(i)) == i
  {
    hide Value;
    NtouiIsValue(Uiton(i));
    var p, q := i / 0x100, i / 0x1_0000;
    assert q == p / 0x100 && i / 0x100_0000 == q / 0x100;
    assert i == p * 0x100 + i % 0x100 && p == q * 0x100 + p % 0x100;
    assert q == q / 0x100 * 0x100 + q % 0x100;
  }

  lemma NtouiRoundTrip(b: Addr)
    requires |b| == 4
    ensures Ntoui(b) < 0x1_0000_0000 && Uiton(Ntoui(b)) == b
  {
    hide Value;
    UitonRoundTrip(Ntoui(b));
    NtouiIsValue(b);
    ValueInjective(Uiton(Ntoui(b)), b);
  }

  // Comparing the byte forms compares the numbers.
  lemma UitonOrder(a: nat, b: nat)
    requires a < 0x1_0000_0000 && b < 0x1_0000_0000
    ensures Compare(Uiton(a), Uiton(b)) == if a < b then -1 else if a > b then 1 else 0
  {
    hide Uiton;
    UitonRoundTrip(a);
    UitonRoundTrip(b);
    CompareIsNumeric(Uiton(a), Uiton(b));
  }
}

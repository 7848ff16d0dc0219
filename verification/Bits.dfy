/**
 Unsigned integer arithmetic by bits. Every definition halves its argument, so
 the facts below are linear and follow the binary digits; no proof multiplies two
 variables.
 */
module Bits {

  function Pow2(k: nat): (p: nat)
    ensures p >= 1
  {
    if k == 0 then 1 else 2 * Pow2(k - 1)
  }

  // x >> k
  function Shr(x: nat, k: nat): nat {
    if k == 0 then x else Shr(x / 2, k - 1)
  }

  // x with its k low bits cleared
  function Down(x: nat, k: nat): nat {
    if k == 0 then x else 2 * Down(x / 2, k - 1)
  }

  function Xor(a: nat, b: nat): nat
    decreases a + b
  {
    if a == 0 && b == 0 then 0
    else 2 * Xor(a / 2, b / 2) + if a % 2 == b % 2 then 0 else 1
  }

  function Or(a: nat, b: nat): nat
    decreases a + b
  {
    if a == 0 && b == 0 then 0
    else 2 * Or(a / 2, b / 2) + if a % 2 == 1 || b % 2 == 1 then 1 else 0
  }

  function And(a: nat, b: nat): nat
    decreases a + b
  {
    if a == 0 && b == 0 then 0
    else 2 * And(a / 2, b / 2) + if a % 2 == 1 && b % 2 == 1 then 1 else 0
  }

  // ~x on a word of w bits
  function Not(x: nat, w: nat): nat
    requires x < Pow2(w)
  {
    Pow2(w) - 1 - x
  }

  // the k low bits of x are zero
  predicate Aligned(x: nat, k: nat) {
    k == 0 || (x % 2 == 0 && Aligned(x / 2, k - 1))
  }

  // position of the highest bit that is set
  function TopBit(x: nat): nat
    requires x > 0
  {
    if x == 1 then 0 else 1 + TopBit(x / 2)
  }

  // position of the lowest bit that is set
  function LowBit(x: nat): nat
    requires x > 0
  {
    if x % 2 == 1 then 0 else 1 + LowBit(x / 2)
  }

  lemma {:induction false} Pow2Grows(j: nat, k: nat)
    requires j <= k
    ensures Pow2(j) <= Pow2(k)
    ensures j < k ==> 2 * Pow2(j) <= Pow2(k)
  {
    if j < k {
      Pow2Grows(j, k - 1);
    }
  }

  lemma WordSize()
    ensures Pow2(8) == 0x100 && Pow2(16) == 0x1_0000 && Pow2(32) == 0x1_0000_0000
  {
    assert Pow2(16) == 256 * Pow2(8);
    assert Pow2(24) == 256 * Pow2(16);
    assert Pow2(32) == 256 * Pow2(24);
  }

  // ---------- alignment ----------

  lemma {:induction false} AlignedWeaken(x: nat, j: nat, k: nat)
    requires j <= k && Aligned(x, k)
    ensures Aligned(x, j)
  {
    if j > 0 {
      AlignedWeaken(x / 2, j - 1, k - 1);
    }
  }

  lemma {:induction false} ZeroAligned(k: nat)
    ensures Aligned(0, k)
  {
    if k > 0 {
      ZeroAligned(k - 1);
    }
  }

  lemma {:induction false} PowerAligned(k: nat)
    ensures Aligned(Pow2(k), k)
  {
    if k > 0 {
      PowerAligned(k - 1);
      assert Pow2(k) / 2 == Pow2(k - 1) && Pow2(k) % 2 == 0;
    }
  }

  // The halves of an aligned block are aligned, the upper one no further.
  lemma {:induction false} Halves(x: nat, k: nat)
    requires Aligned(x, k + 1)
    ensures Aligned(x, k) && Aligned(x + Pow2(k), k) && !Aligned(x + Pow2(k), k + 1)
  {
    if k > 0 {
      Halves(x / 2, k - 1);
      assert (x + Pow2(k)) / 2 == x / 2 + Pow2(k - 1);
    }
  }

  // Aligned blocks are nested or disjoint.
  lemma {:induction false} Laminar(x: nat, j: nat, y: nat, k: nat)
    requires j <= k && Aligned(x, j) && Aligned(y, k)
    ensures || (y <= x && x + Pow2(j) <= y + Pow2(k))
            || x + Pow2(j) <= y
            || y + Pow2(k) <= x
  {
    if j > 0 {
      Laminar(x / 2, j - 1, y / 2, k - 1);
    }
  }

  lemma {:induction false} DownBounds(x: nat, k: nat)
    ensures Aligned(Down(x, k), k)
    ensures Down(x, k) <= x < Down(x, k) + Pow2(k)
  {
    if k > 0 {
      DownBounds(x / 2, k - 1);
    }
  }

  lemma {:induction false} DownUnique(x: nat, y: nat, k: nat)
    requires Aligned(y, k) && y <= x < y + Pow2(k)
    ensures Down(x, k) == y
  {
    if k > 0 {
      DownUnique(x / 2, y / 2, k - 1);
    }
  }

  // ---------- exclusive or ----------

  lemma {:induction false} XorZero(a: nat, b: nat)
    ensures Xor(a, b) == 0 <==> a == b
    decreases a + b
  {
    if a != 0 || b != 0 {
      XorZero(a / 2, b / 2);
    }
  }

  lemma {:induction false} XorShifted(a: nat, b: nat, k: nat)
    ensures Shr(Xor(a, b), k) == 0 <==> Down(a, k) == Down(b, k)
  {
    if k == 0 {
      XorZero(a, b);
    } else {
      XorShifted(a / 2, b / 2, k - 1);
    }
  }

  // Two prefixes of equal length differ in their last bit alone exactly when the
  // blocks are the halves of one block.
  lemma {:induction false} XorIsOne(a: nat, b: nat, k: nat)
    requires Aligned(a, k) && Aligned(b, k)
    ensures Shr(Xor(a, b), k) == 1 <==>
            || (Aligned(a, k + 1) && b == a + Pow2(k))
            || (Aligned(b, k + 1) && a == b + Pow2(k))
  {
    hide Xor, Shr, Aligned, Pow2;
    XorBit(a, b);
    AlignedBit(a, k);
    AlignedBit(b, k);
    ShrBit(Xor(a, b), k);
    if k == 0 {
      XorZero(a / 2, b / 2);
    } else {
      XorIsOne(a / 2, b / 2, k - 1);
    }
  }

  // The definitions, one bit at a time.
  lemma XorBit(a: nat, b: nat)
    ensures Xor(a, b) == 2 * Xor(a / 2, b / 2) + if a % 2 == b % 2 then 0 else 1
    ensures Xor(a, b) / 2 == Xor(a / 2, b / 2)
  {
  }

  lemma AlignedBit(x: nat, k: nat)
    ensures Aligned(x, k + 1) <==> x % 2 == 0 && (k == 0 || Aligned(x / 2, k))
    ensures k > 0 ==> (Aligned(x, k) <==> x % 2 == 0 && Aligned(x / 2, k - 1))
    ensures Aligned(x, 0) && Pow2(0) == 1 && (k > 0 ==> Pow2(k) == 2 * Pow2(k - 1))
  {
  }

  lemma ShrBit(x: nat, k: nat)
    ensures Shr(x, k) == if k == 0 then x else Shr(x / 2, k - 1)
  {
  }

  // The highest differing bit of a < b is clear in a and set in b.
  lemma {:induction false} XorTopBit(a: nat, b: nat)
    requires a < b
    ensures Xor(a, b) > 0
    ensures var p := TopBit(Xor(a, b));
            Down(a, p + 1) == Down(b, p + 1) && Down(a, p) + Pow2(p) == Down(b, p)
    decreases b
  {
    XorZero(a, b);
    XorZero(a / 2, b / 2);
    if a / 2 < b / 2 {
      XorTopBit(a / 2, b / 2);
    }
  }

  lemma {:induction false} XorWithZero(a: nat)
    ensures Xor(0, a) == a
  {
    if a > 0 {
      XorWithZero(a / 2);
    }
  }

  lemma {:induction false} XorBound(a: nat, b: nat, w: nat)
    requires a < Pow2(w) && b < Pow2(w)
    ensures Xor(a, b) < Pow2(w)
    decreases w
  {
    if w > 0 {
      XorBound(a / 2, b / 2, w - 1);
    }
  }

  lemma {:induction false} TopBitBelow(x: nat, w: nat)
    requires 0 < x < Pow2(w)
    ensures TopBit(x) < w
  {
    if x > 1 {
      TopBitBelow(x / 2, w - 1);
    }
  }

  lemma {:induction false} LowBitAligned(x: nat)
    requires x > 0
    ensures Aligned(x, LowBit(x)) && !Aligned(x, LowBit(x) + 1)
    ensures LowBit(x) <= TopBit(x)
  {
    if x % 2 == 0 {
      LowBitAligned(x / 2);
    }
  }

  // ---------- masks ----------

  lemma {:induction false} OrLowMask(x: nat, k: nat)
    ensures Or(x, Pow2(k) - 1) == Down(x, k) + Pow2(k) - 1
    decreases k
  {
    if k == 0 {
      OrZero(x);
    } else {
      OrLowMask(x / 2, k - 1);
    }
  }

  lemma {:induction false} OrZero(x: nat)
    ensures Or(x, 0) == x
  {
    if x > 0 {
      OrZero(x / 2);
    }
  }

  // Setting the clear bit k of an address that has nothing below it.
  lemma {:induction false} OrBit(x: nat, k: nat)
    requires Aligned(x, k + 1)
    ensures Or(x, Pow2(k)) == x + Pow2(k)
    decreases k
  {
    if k == 0 {
      OrZero(x / 2);
    } else {
      OrBit(x / 2, k - 1);
    }
  }

  lemma {:induction false} AndZero(x: nat)
    ensures And(x, 0) == 0
  {
    if x > 0 {
      AndZero(x / 2);
    }
  }

  lemma {:induction false} AndLowMask(x: nat, w: nat)
    ensures And(x, Pow2(w) - 1) == x - Down(x, w)
    decreases w
  {
    if w == 0 {
      AndZero(x);
    } else {
      AndLowMask(x / 2, w - 1);
    }
  }

  // The bits k .. w-1 of x, in place.
  lemma {:induction false} AndMiddle(x: nat, k: nat, w: nat)
    requires k <= w && Pow2(k) <= Pow2(w)
    ensures And(x, Pow2(w) - Pow2(k)) == Down(x, k) - Down(x, w)
    decreases k
  {
    if k == 0 {
      AndLowMask(x, w);
    } else {
      Pow2Grows(k - 1, w - 1);
      AndMiddle(x / 2, k - 1, w - 1);
      assert (Pow2(w) - Pow2(k)) / 2 == Pow2(w - 1) - Pow2(k - 1);
    }
  }

  lemma {:induction false} DownSmall(x: nat, w: nat)
    requires x < Pow2(w)
    ensures Down(x, w) == 0
  {
    if w > 0 {
      DownSmall(x / 2, w - 1);
    }
  }

  lemma AndHighMask(x: nat, k: nat, w: nat)
    requires k <= w && x < Pow2(w) && Pow2(k) <= Pow2(w)
    ensures And(x, Pow2(w) - Pow2(k)) == Down(x, k)
  {
    hide Pow2, And, Down;
    AndMiddle(x, k, w);
    DownSmall(x, w);
  }

  // Clearing more low bits.
  lemma {:induction false} DownTwice(x: nat, j: nat, k: nat)
    requires j <= k
    ensures Down(Down(x, j), k) == Down(x, k) && Down(x, k) <= Down(x, j)
  {
    if j > 0 {
      DownTwice(x / 2, j - 1, k - 1);
    } else {
      DownBounds(x, k);
    }
  }
}

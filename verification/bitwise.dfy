/** Algebra of the bitwise exclusive or and of the 64-bit mixing steps built from it. */
module Bitwise {
  import opened Words

  lemma {:induction false} XorBelow(a: nat, b: nat, n: nat)
    requires a < Pow2(n) && b < Pow2(n)
    ensures Xor(a, b) < Pow2(n)
  {
    if n == 0 || (a == 0 && b == 0) {
    } else {
      XorBelow(a / 2, b / 2, n - 1);
    }
  }

  lemma {:induction false} XorCommutes(a: nat, b: nat)
    ensures Xor(a, b) == Xor(b, a)
    decreases a + b
  {
    if a == 0 && b == 0 {
    } else {
      XorCommutes(a / 2, b / 2);
    }
  }

  lemma {:induction false} XorZero(a: nat)
    ensures Xor(a, 0) == a
  {
    if a == 0 {
    } else {
      XorZero(a / 2);
    }
  }

  lemma {:induction false} XorSelf(a: nat)
    ensures Xor(a, a) == 0
  {
    if a == 0 {
    } else {
      XorSelf(a / 2);
    }
  }

  lemma XorHalves(a: nat, b: nat)
    ensures Xor(a, b) / 2 == Xor(a / 2, b / 2) && Xor(a, b) % 2 == (a + b) % 2
  {
  }

  lemma EqualByHalves(x: nat, y: nat)
    requires x / 2 == y / 2 && x % 2 == y % 2
    ensures x == y
  {
  }

  lemma ParityAssociates(x: nat, y: nat, a: nat, b: nat, c: nat)
    requires x % 2 == (a + b) % 2 && y % 2 == (b + c) % 2
    ensures (x + c) % 2 == (a + y) % 2
  {
  }

  lemma {:induction false} XorAssociates(a: nat, b: nat, c: nat)
    ensures Xor(Xor(a, b), c) == Xor(a, Xor(b, c))
    decreases a + b + c
  {
    if a == 0 && b == 0 && c == 0 {
    } else {
      XorAssociates(a / 2, b / 2, c / 2);
      var x, y := Xor(a, b), Xor(b, c);
      XorHalves(a, b);
      XorHalves(b, c);
      XorHalves(x, c);
      XorHalves(a, y);
      ParityAssociates(x, y, a, b, c);
      EqualByHalves(Xor(x, c), Xor(a, y));
    }
  }

  /** Xor with a fixed word is its own inverse. */
  lemma XorCancels(a: nat, b: nat)
    ensures Xor(Xor(a, b), b) == a
  {
    XorAssociates(a, b, b);
    XorSelf(b);
    XorZero(a);
  }

  lemma {:induction false} XorShiftsDown(a: nat, b: nat, k: nat)
    ensures Shr(Xor(a, b), k) == Xor(Shr(a, k), Shr(b, k))
    decreases k
  {
    if k == 0 {
    } else {
      XorHalves(a, b);
      XorShiftsDown(a / 2, b / 2, k - 1);
    }
  }

  lemma {:induction false} ShiftTwice(a: nat, j: nat, k: nat)
    ensures Shr(Shr(a, j), k) == Shr(a, j + k)
    decreases j
  {
    if j == 0 {
    } else {
      ShiftTwice(a / 2, j - 1, k);
    }
  }

  lemma {:induction false} ShiftVanishes(a: nat, k: nat)
    requires a < Pow2(k)
    ensures Shr(a, k) == 0
    decreases k
  {
    if k == 0 {
    } else {
      ShiftVanishes(a / 2, k - 1);
    }
  }

  /** Bit i of the exclusive or is 1 exactly when bit i differs. */
  lemma XorBit(a: nat, b: nat, i: nat)
    ensures (Xor(a, b) / Pow2(i)) % 2 == if (a / Pow2(i)) % 2 == (b / Pow2(i)) % 2 then 0 else 1
  {
    ShrIsQuotient(Xor(a, b), i);
    ShrIsQuotient(a, i);
    ShrIsQuotient(b, i);
    XorShiftsDown(a, b, i);
    XorHalves(Shr(a, i), Shr(b, i));
    ParityOfSum(Shr(a, i), Shr(b, i));
  }

  lemma ParityOfSum(x: nat, y: nat)
    ensures (x + y) % 2 == if x % 2 == y % 2 then 0 else 1
  {
  }

  // ---- a ^= a >> k ----

  function XorShift(a: nat, k: nat): nat { Xor(a, Shr(a, k)) }

  function UnXorShift(y: nat, k: nat): nat { Xor(Xor(y, Shr(y, k)), Shr(y, k + k)) }

  lemma ThirdShiftVanishes(x: nat, k: nat)
    requires x < TWO64 && 64 <= 3 * k
    ensures Shr(x, k + k + k) == 0
  {
    Pow2OfTableBits();
    Pow2Adds(32, 32);
    Pow2Grows(64, k + k + k);
    ShiftVanishes(x, k + k + k);
  }

  /** a ^= a >> k loses nothing on 64-bit words as soon as 3k >= 64. */
  lemma XorShiftInverts(x: nat, k: nat)
    requires x < TWO64 && 64 <= 3 * k
    ensures UnXorShift(XorShift(x, k), k) == x && XorShift(UnXorShift(x, k), k) == x
  {
    var s1, s2 := Shr(x, k), Shr(x, k + k);
    ShiftTwice(x, k, k);
    ShiftTwice(x, k, k + k);
    ShiftTwice(x, k + k, k);
    ThirdShiftVanishes(x, k);
    XorZero(s2);
    assert UnXorShift(XorShift(x, k), k) == x by {
      XorShiftsDown(x, s1, k);
      XorShiftsDown(x, s1, k + k);
      assert UnXorShift(XorShift(x, k), k) == Xor(Xor(Xor(x, s1), Xor(s1, s2)), s2);
      Telescopes(x, s1, s2);
    }
    assert XorShift(UnXorShift(x, k), k) == x by {
      XorZero(Xor(s1, s2));
      XorShiftsDown(Xor(x, s1), s2, k);
      XorShiftsDown(x, s1, k);
      assert Shr(UnXorShift(x, k), k) == Xor(s1, s2);
      XorAssociates(x, s1, s2);
      XorCancels(x, Xor(s1, s2));
    }
  }

  lemma Telescopes(x: nat, s1: nat, s2: nat)
    ensures Xor(Xor(Xor(x, s1), Xor(s1, s2)), s2) == x
  {
    XorAssociates(Xor(x, s1), s1, s2);
    XorCancels(x, s1);
    XorCancels(x, s2);
  }

  lemma XorBelow64(a: nat, b: nat)
    requires a < TWO64 && b < TWO64
    ensures Xor(a, b) < TWO64
  {
    Pow2OfTableBits();
    Pow2Adds(32, 32);
    XorBelow(a, b, 64);
  }

  lemma XorShiftsStayBelow64(x: nat, k: nat)
    requires x < TWO64
    ensures XorShift(x, k) < TWO64 && UnXorShift(x, k) < TWO64
  {
    XorBelow64(x, Shr(x, k));
    XorBelow64(Xor(x, Shr(x, k)), Shr(x, k + k));
  }
}

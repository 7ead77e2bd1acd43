/** Machine words as naturals: exclusive or and shifts by their arithmetic. */
module Bits {
  /** Bitwise exclusive or. */
  function Xor(a: nat, b: nat): nat
  {
    if a == 0 then b else if b == 0 then a else (if a % 2 == b % 2 then 0 else 1) + 2 * Xor(a / 2, b / 2)
  }

  lemma XorStep(a: nat, b: nat)
    ensures Xor(a, b) % 2 == (if a % 2 == b % 2 then 0 else 1)
    ensures Xor(a, b) / 2 == Xor(a / 2, b / 2)
  {
    if a != 0 && b != 0 {
      LowBitAndRest(if a % 2 == b % 2 then 0 else 1, Xor(a / 2, b / 2));
    }
  }

  lemma LowBitAndRest(bit: nat, rest: nat)
    requires bit < 2
    ensures (bit + 2 * rest) % 2 == bit && (bit + 2 * rest) / 2 == rest
  {
  }

  lemma {:induction false} XorCancels(a: nat, b: nat)
    ensures Xor(Xor(a, b), b) == a
  {
    if a != 0 && b != 0 {
      XorStep(a, b);
      XorStep(Xor(a, b), b);
      XorCancels(a / 2, b / 2);
      assert Xor(Xor(a, b), b) == Xor(Xor(a, b), b) % 2 + 2 * (Xor(Xor(a, b), b) / 2);
    } else if a == 0 {
      XorSelf(b);
    }
  }

  lemma {:induction false} XorSelf(a: nat)
    ensures Xor(a, a) == 0
  {
    if a != 0 {
      XorSelf(a / 2);
    }
  }

  function Pow2(k: nat): (p: nat)
    ensures p > 0
  {
    if k == 0 then 1 else 2 * Pow2(k - 1)
  }

  /** `x >> k`. */
  function Shr(x: nat, k: nat): (r: nat)
    ensures r <= x && (x > 0 && k > 0 ==> r < x)
    decreases k
  {
    if k == 0 then x else Shr(x / 2, k - 1)
  }

  /** Shifting right distributes over exclusive or. */
  lemma {:induction false} XorShifts(a: nat, b: nat, k: nat)
    ensures Shr(Xor(a, b), k) == Xor(Shr(a, k), Shr(b, k))
    decreases k
  {
    if k > 0 {
      XorStep(a, b);
      XorShifts(a / 2, b / 2, k - 1);
    }
  }

  /** Exclusive or of two k-bit numbers has k bits. */
  lemma {:induction false} XorFits(a: nat, b: nat, k: nat)
    requires a < Pow2(k) && b < Pow2(k)
    ensures Xor(a, b) < Pow2(k)
  {
    if k > 0 {
      XorFits(a / 2, b / 2, k - 1);
      XorStep(a, b);
    }
  }

  lemma XorZero(a: nat)
    ensures Xor(a, 0) == a && Xor(0, a) == a
  {
  }

  lemma PowerPlus4(k: nat)
    ensures Pow2(k + 4) == 16 * Pow2(k)
  {
    assert Pow2(k + 2) == 4 * Pow2(k);
  }

  lemma PowerPlus16(k: nat)
    ensures Pow2(k + 16) == 0x1_0000 * Pow2(k)
  {
    PowerPlus4(k);
    PowerPlus4(k + 4);
    PowerPlus4(k + 8);
    PowerPlus4(k + 12);
  }

  lemma {:induction false} XorCommutes(a: nat, b: nat)
    ensures Xor(a, b) == Xor(b, a)
  {
    if a != 0 && b != 0 {
      XorCommutes(a / 2, b / 2);
    }
  }

  lemma {:induction false} XorAssociates(a: nat, b: nat, c: nat)
    ensures Xor(Xor(a, b), c) == Xor(a, Xor(b, c))
    decreases a + b + c
  {
    if a + b + c > 0 {
      XorStep(a, b);
      XorStep(b, c);
      XorStep(Xor(a, b), c);
      XorStep(a, Xor(b, c));
      XorAssociates(a / 2, b / 2, c / 2);
    }
  }

  /** `h << k`. */
  function Shl(h: nat, k: nat): nat
  {
    if k == 0 then h else 2 * Shl(h, k - 1)
  }

  /** Numbers with no bit in common add without carry. */
  lemma Halves(low: nat, high: nat)
    ensures 2 * high % 2 == 0 && 2 * high / 2 == high && low == low / 2 * 2 + low % 2
  {
  }

  lemma {:induction false} XorOfDisjoint(low: nat, h: nat, k: nat)
    requires low < Pow2(k)
    ensures Xor(low, Shl(h, k)) == low + Shl(h, k)
  {
    if k > 0 {
      var high := Shl(h, k - 1);
      assert Shl(h, k) == 2 * high && Pow2(k) == 2 * Pow2(k - 1);
      hide Xor, Shl, Pow2;
      XorOfDisjoint(low / 2, h, k - 1);
      XorStep(low, 2 * high);
      Halves(low, high);
    } else {
      assert Shl(h, 0) == h && low == 0;
    }
  }

  lemma ShiftFour(x: nat, k: nat)
    ensures Shr(x, k + 4) == Shr(x / 16, k) && Shl(x, k + 4) == 16 * Shl(x, k)
  {
    assert Shr(x, k + 4) == Shr(x / 2, k + 3) == Shr(x / 2 / 2, k + 2) == Shr(x / 2 / 2 / 2, k + 1) == Shr(x / 2 / 2 / 2 / 2, k);
    assert x / 2 / 2 / 2 / 2 == x / 16;
    assert Shl(x, k + 4) == 2 * Shl(x, k + 3) == 4 * Shl(x, k + 2) == 8 * Shl(x, k + 1);
  }

  /** Shifting by a byte is multiplication and division by 256. */
  lemma ByteShift(x: nat)
    ensures Shr(x, 8) == x / 256 && Shl(x, 8) == 256 * x && Pow2(8) == 256
  {
    hide Shr, Shl, Pow2;
    NoShift(x);
    NoShift(x / 16 / 16);
    ShiftFour(x, 4);
    ShiftFour(x, 0);
    ShiftFour(x / 16, 0);
    PowerPlus4(0);
    PowerPlus4(4);
  }

  lemma NoShift(x: nat)
    ensures Shr(x, 0) == x && Shl(x, 0) == x && Pow2(0) == 1
  {
  }
}

/** The 64-bit mixer every revision fold runs its contributions through, over the
    naturals below 2^64: `x ^= x >> k` three times and `x *= C` twice between. */
module Mixer {
  import opened Bits

  const WORDS: nat := 0x1_0000_0000_0000_0000

  const FACTOR1: nat := 0xBF58476D1CE4E5B9
  const FACTOR2: nat := 0x94D049BB133111EB
  const INVERSE1: nat := 0x96DE1B173F119089
  const INVERSE2: nat := 0x319642B2D24D8EC3

  // ---- x ^= x >> k --------------------------------------------------------------------------

  function Fold(x: nat, k: nat): nat
  {
    Xor(x, Shr(x, k))
  }

  function Unfold(y: nat, k: nat): nat
    requires k > 0
  {
    if y == 0 then 0 else Xor(y, Unfold(Shr(y, k), k))
  }

  lemma {:induction false} UnfoldShifts(y: nat, k: nat)
    requires k > 0
    ensures Shr(Unfold(y, k), k) == Unfold(Shr(y, k), k)
  {
    if y != 0 {
      XorShifts(y, Unfold(Shr(y, k), k), k);
      UnfoldShifts(Shr(y, k), k);
      if Shr(y, k) == 0 {
        XorZero(Unfold(0, k));
      }
    }
  }

  lemma FoldOfUnfold(y: nat, k: nat)
    requires k > 0
    ensures Fold(Unfold(y, k), k) == y
  {
    UnfoldShifts(y, k);
    XorCancels(y, Unfold(Shr(y, k), k));
  }

  lemma {:induction false} FoldIsInjective(x: nat, z: nat, k: nat)
    requires k > 0 && Fold(x, k) == Fold(z, k)
    ensures x == z
    decreases x + z
  {
    if x + z > 0 {
      XorShifts(x, Shr(x, k), k);
      XorShifts(z, Shr(z, k), k);
      FoldIsInjective(Shr(x, k), Shr(z, k), k);
      XorCancels(x, Shr(x, k));
      XorCancels(z, Shr(z, k));
    }
  }

  lemma UnfoldOfFold(x: nat, k: nat)
    requires k > 0
    ensures Unfold(Fold(x, k), k) == x
  {
    FoldOfUnfold(Fold(x, k), k);
    FoldIsInjective(Unfold(Fold(x, k), k), x, k);
  }

  lemma FoldFits(x: nat, k: nat, bits: nat)
    requires x < Pow2(bits)
    ensures Fold(x, k) < Pow2(bits)
  {
    XorFits(x, Shr(x, k), bits);
  }

  lemma {:induction false} UnfoldFits(y: nat, k: nat, bits: nat)
    requires k > 0 && y < Pow2(bits)
    ensures Unfold(y, k) < Pow2(bits)
  {
    if y != 0 {
      UnfoldFits(Shr(y, k), k, bits);
      XorFits(y, Unfold(Shr(y, k), k), bits);
    }
  }

  // ---- x *= C -------------------------------------------------------------------------------

  function Times(x: nat, factor: nat): nat
  {
    x * factor % WORDS
  }

  /** Multiplying by a factor and then by its inverse modulo 2^64 gives the word back. */
  lemma TimesUndone(x: nat, factor: nat, inverse: nat)
    requires x < WORDS && factor * inverse % WORDS == 1
    ensures Times(Times(x, factor), inverse) == x
  {
    var q, m := x * factor / WORDS, factor * inverse / WORDS;
    assert x * factor == q * WORDS + Times(x, factor);
    assert factor * inverse == m * WORDS + 1;
    Regroup(x, factor, inverse, q, m, Times(x, factor));
    Residue(Times(x, factor) * inverse, x, x * m - q * inverse);
  }

  lemma Regroup(x: nat, factor: nat, inverse: nat, q: nat, m: nat, t: nat)
    requires x * factor == q * WORDS + t && factor * inverse == m * WORDS + 1
    ensures t * inverse == (x * m - q * inverse) * WORDS + x
  {
    calc {
      t * inverse;
      (x * factor - q * WORDS) * inverse;
      x * factor * inverse - q * WORDS * inverse;
      { assert x * factor * inverse == x * (factor * inverse); }
      x * (m * WORDS + 1) - q * WORDS * inverse;
      { assert q * WORDS * inverse == q * inverse * WORDS; }
      x * m * WORDS + x - q * inverse * WORDS;
      (x * m - q * inverse) * WORDS + x;
    }
  }

  lemma Residue(a: int, r: nat, n: int)
    requires r < WORDS && a == n * WORDS + r
    ensures a % WORDS == r
  {
  }

  // ---- The mixer ------------------------------------------------------------------------------

  predicate IsWord(x: nat)
  {
    x < WORDS
  }

  /** `mix64`. */
  function Mix64(x: nat): nat
  {
    Fold(Times(Fold(Times(Fold(x, 30), FACTOR1), 27), FACTOR2), 31)
  }

  function Unmix64(y: nat): nat
  {
    Unfold(Times(Unfold(Times(Unfold(y, 31), INVERSE2), 27), INVERSE1), 30)
  }

  lemma Constants()
    ensures Pow2(64) == WORDS
    ensures FACTOR1 * INVERSE1 % WORDS == 1 && INVERSE1 * FACTOR1 % WORDS == 1
    ensures FACTOR2 * INVERSE2 % WORDS == 1 && INVERSE2 * FACTOR2 % WORDS == 1
  {
    WordSize();
    Residue(FACTOR1 * INVERSE1, 1, 0x70c3bca78f27f46c);
    Residue(FACTOR2 * INVERSE2, 1, 0x1cd336eda85f1453);
  }

  lemma WordSize()
    ensures Pow2(64) == WORDS
  {
    PowerPlus16(0);
    PowerPlus16(16);
    PowerPlus16(32);
    PowerPlus16(48);
  }

  /** The mixer is a bijection of the 64-bit words: `Unmix64` undoes it on both sides. */
  lemma MixIsBijective(x: nat)
    requires IsWord(x)
    ensures IsWord(Mix64(x)) && IsWord(Unmix64(x))
    ensures Unmix64(Mix64(x)) == x && Mix64(Unmix64(x)) == x
  {
    Constants();
    MixRoundTrip(x);
    UnmixRoundTrip(x);
  }

  lemma MixRoundTrip(x: nat)
    requires IsWord(x)
    ensures IsWord(Mix64(x)) && Unmix64(Mix64(x)) == x
  {
    Constants();
    hide Fold, Unfold, Times;
    var a := Fold(x, 30);
    FoldFits(x, 30, 64);
    UnfoldOfFold(x, 30);
    TimesUndone(a, FACTOR1, INVERSE1);
    var b := Times(a, FACTOR1);
    TimesFits(a, FACTOR1);
    UnfoldOfFold(b, 27);
    FoldFits(b, 27, 64);
    var c := Fold(b, 27);
    TimesUndone(c, FACTOR2, INVERSE2);
    TimesFits(c, FACTOR2);
    UnfoldOfFold(Times(c, FACTOR2), 31);
    FoldFits(Times(c, FACTOR2), 31, 64);
  }

  lemma UnmixRoundTrip(y: nat)
    requires IsWord(y)
    ensures IsWord(Unmix64(y)) && Mix64(Unmix64(y)) == y
  {
    Constants();
    hide Fold, Unfold, Times;
    var d := Unfold(y, 31);
    UnfoldFits(y, 31, 64);
    FoldOfUnfold(y, 31);
    TimesUndone(d, INVERSE2, FACTOR2);
    var c := Times(d, INVERSE2);
    TimesFits(d, INVERSE2);
    FoldOfUnfold(c, 27);
    UnfoldFits(c, 27, 64);
    var b := Unfold(c, 27);
    TimesUndone(b, INVERSE1, FACTOR1);
    TimesFits(b, INVERSE1);
    FoldOfUnfold(Times(b, INVERSE1), 30);
    UnfoldFits(Times(b, INVERSE1), 30, 64);
  }

  lemma TimesFits(x: nat, factor: nat)
    ensures IsWord(Times(x, factor))
  {
  }
}

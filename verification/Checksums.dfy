/** The two checksums of a PNG stream: CRC-32 over each chunk, and Adler-32 over the
    raw scanlines. */
module Checksums {
  import opened Bits

  type Byte = b: nat | b < 256

  const WORD := 0x1_0000_0000

  // ---- CRC-32 ---------------------------------------------------------------------------------

  const POLYNOMIAL: nat := 0xEDB8_8320
  const ONES: nat := 0xFFFF_FFFF

  /** One bit of the division: shift, and subtract the polynomial if a one fell out. */
  function Step(c: nat): nat
  {
    Xor(c / 2, if c % 2 == 1 then POLYNOMIAL else 0)
  }

  function Steps(c: nat, n: nat): nat
    decreases n
  {
    if n == 0 then c else Steps(Step(c), n - 1)
  }

  /** The remainder of a byte by itself: an entry of the table of RFC 2083, section 15. */
  function TableEntry(n: Byte): nat
  {
    Steps(n, 8)
  }

  /** The register after a byte, by that section's table. */
  function Update(c: nat, b: Byte): nat
  {
    Xor(TableEntry(Xor(c, b) % 256), c / 256)
  }

  function UpdateAll(c: nat, data: seq<Byte>): nat
  {
    if data == [] then c else Update(UpdateAll(c, data[..|data| - 1]), data[|data| - 1])
  }

  function Crc(data: seq<Byte>): nat
  {
    Xor(UpdateAll(ONES, data), ONES)
  }

  /** Bit by bit: each bit is the next higher one of the register, flipped where the polynomial
      has a term when a one falls out. */
  lemma StepBits(c: nat, i: nat)
    ensures Shr(Step(c), i) % 2 == (Shr(c, i + 1) % 2 + if c % 2 == 1 then Shr(0xEDB8_8320, i) % 2 else 0) % 2
  {
    XorBits(c / 2, if c % 2 == 1 then POLYNOMIAL else 0, i);
    ShrZero(i);
    hide Xor;
  }

  lemma XorBits(a: nat, b: nat, i: nat)
    ensures Shr(Xor(a, b), i) % 2 == (Shr(a, i) % 2 + Shr(b, i) % 2) % 2
  {
    XorShifts(a, b, i);
    hide Xor, Shr;
    XorStep(Shr(a, i), Shr(b, i));
  }

  lemma {:induction false} ShrZero(i: nat)
    ensures Shr(0, i) == 0
  {
    if i > 0 {
      ShrZero(i - 1);
    }
  }

  /** The division is linear. */
  lemma StepIsLinear(a: nat, b: nat)
    ensures Step(Xor(a, b)) == Xor(Step(a), Step(b))
  {
    var p, q := if a % 2 == 1 then POLYNOMIAL else 0, if b % 2 == 1 then POLYNOMIAL else 0;
    XorStep(a, b);
    XorSelf(POLYNOMIAL);
    XorZero(POLYNOMIAL);
    assert Step(Xor(a, b)) == Xor(Xor(a / 2, b / 2), Xor(p, q));
    Interchange(a / 2, b / 2, p, q);
  }

  lemma Interchange(a: nat, b: nat, p: nat, q: nat)
    ensures Xor(Xor(a, b), Xor(p, q)) == Xor(Xor(a, p), Xor(b, q))
  {
    hide Xor;
    XorAssociates(a, b, Xor(p, q));
    XorAssociates(b, p, q);
    XorCommutes(b, p);
    XorAssociates(p, b, q);
    XorAssociates(a, p, Xor(b, q));
  }

  lemma {:induction false} StepsAreLinear(a: nat, b: nat, n: nat)
    ensures Steps(Xor(a, b), n) == Xor(Steps(a, n), Steps(b, n))
    decreases n
  {
    if n > 0 {
      StepIsLinear(a, b);
      StepsAreLinear(Step(a), Step(b), n - 1);
    }
  }

  /** A number whose low bits are clear is only shifted. */
  lemma {:induction false} StepsOfShifted(h: nat, n: nat)
    ensures Steps(Shl(h, n), n) == h
    decreases n
  {
    if n > 0 {
      XorZero(Shl(h, n - 1));
      StepsOfShifted(h, n - 1);
    }
  }

  /** Eight steps over the register are one look-up in the table. */
  lemma ByteByTable(c: nat, b: Byte)
    ensures Steps(Xor(c, b), 8) == Update(c, b)
  {
    hide Steps, Xor, Shl, Shr, Pow2;
    var x := Xor(c, b);
    var low, high := x % 256, x / 256;
    ByteShift(high);
    ByteShift(x);
    ByteShift(c);
    ByteShift(b);
    XorOfDisjoint(low, high, 8);
    StepsAreLinear(low, Shl(high, 8), 8);
    StepsOfShifted(high, 8);
    XorShifts(c, b, 8);
    XorZero(c / 256);
  }

  /** `crc32`: bit at a time. */
  method Crc32(data: seq<Byte>) returns (r: nat)
    ensures r == Crc(data) && r < WORD
  {
    hide Xor, Steps, Update;
    var crc := ONES;
    for i := 0 to |data|
      invariant crc == UpdateAll(ONES, data[..i])
    {
      assert data[..i + 1][..i] == data[..i];
      ghost var before := crc;
      crc := Xor(crc, data[i]);
      ghost var mixed := crc;
      StepsBegin(mixed);
      for bit := 0 to 8
        invariant crc == Steps(mixed, bit)
      {
        StepsAdvance(mixed, bit);
        crc := Xor(crc / 2, if crc % 2 == 1 then POLYNOMIAL else 0);
      }
      ByteByTable(before, data[i]);
    }
    assert data[..|data|] == data;
    CrcFits(data);
    r := Xor(crc, ONES);
  }

  lemma StepsBegin(c: nat)
    ensures Steps(c, 0) == c
  {
  }

  lemma {:induction false} StepsAdvance(c: nat, n: nat)
    ensures Steps(c, n + 1) == Step(Steps(c, n))
    decreases n
  {
    if n > 0 {
      StepsAdvance(Step(c), n - 1);
    }
  }

  // ---- The register stays a word, and no step loses information ---------------------------------

  lemma {:induction false} StepsFit(c: nat, n: nat)
    requires c < Pow2(32)
    ensures Steps(c, n) < Pow2(32)
    decreases n
  {
    if n > 0 {
      StepFits(c);
      hide Step, Pow2;
      StepsFit(Step(c), n - 1);
    }
  }

  lemma StepFits(c: nat)
    requires c < Pow2(32)
    ensures Step(c) < Pow2(32)
  {
    WordSize32();
    hide Pow2;
    XorFits(c / 2, if c % 2 == 1 then POLYNOMIAL else 0, 32);
  }

  lemma WordSize32()
    ensures Pow2(32) == WORD && Pow2(31) == 0x8000_0000
  {
    PowerPlus16(0);
    PowerPlus16(16);
    assert Pow2(32) == 2 * Pow2(31);
  }

  lemma {:induction false} UpdateAllFits(c: nat, data: seq<Byte>)
    requires c < Pow2(32)
    ensures UpdateAll(c, data) < Pow2(32)
  {
    if data != [] {
      var before, b := UpdateAll(c, data[..|data| - 1]), data[|data| - 1];
      UpdateAllFits(c, data[..|data| - 1]);
      WordSize32();
      XorFits(before, b, 32);
      StepsFit(Xor(before, b), 8);
      ByteByTable(before, b);
    }
  }

  lemma CrcFits(data: seq<Byte>)
    ensures Crc(data) < WORD
  {
    WordSize32();
    UpdateAllFits(ONES, data);
    XorFits(UpdateAll(ONES, data), ONES, 32);
  }

  /** The polynomial's top bit marks the steps that subtracted it. */
  lemma TopBitTells(c: nat)
    requires c < Pow2(32)
    ensures c % 2 == 1 <==> Step(c) >= Pow2(31)
  {
    WordSize32();
    if c % 2 == 1 {
      var r := Step(c);
      XorCommutes(c / 2, POLYNOMIAL);
      XorCancels(POLYNOMIAL, c / 2);
      if r < Pow2(31) {
        XorFits(r, c / 2, 31);
        assert false;
      }
    } else {
      XorZero(c / 2);
    }
  }

  lemma StepIsInjective(a: nat, b: nat)
    requires a < Pow2(32) && b < Pow2(32) && Step(a) == Step(b)
    ensures a == b
  {
    TopBitTells(a);
    TopBitTells(b);
    var p := if a % 2 == 1 then POLYNOMIAL else 0;
    XorCancels(a / 2, p);
    XorCancels(b / 2, p);
  }

  lemma {:induction false} StepsAreInjective(a: nat, b: nat, n: nat)
    requires a < Pow2(32) && b < Pow2(32) && Steps(a, n) == Steps(b, n)
    ensures a == b
    decreases n
  {
    if n > 0 {
      StepsFit(a, 1);
      StepsFit(b, 1);
      StepsBegin(Step(a));
      StepsBegin(Step(b));
      StepsAreInjective(Step(a), Step(b), n - 1);
      StepIsInjective(a, b);
    }
  }

  /** Registers that differ stay different under the same byte, and one register fed two
      bytes that differ becomes two. */
  lemma UpdateIsInjective(c: nat, d: nat, a: Byte, b: Byte)
    requires c < Pow2(32) && d < Pow2(32) && Update(c, a) == Update(d, b)
    ensures Xor(c, a) == Xor(d, b)
  {
    ByteByTable(c, a);
    ByteByTable(d, b);
    WordSize32();
    XorFits(c, a, 32);
    XorFits(d, b, 32);
    StepsAreInjective(Xor(c, a), Xor(d, b), 8);
  }

  lemma {:induction false} TailKeepsDifference(c: nat, d: nat, tail: seq<Byte>)
    requires c < Pow2(32) && d < Pow2(32) && c != d
    ensures UpdateAll(c, tail) != UpdateAll(d, tail)
  {
    if tail != [] {
      var front, b := tail[..|tail| - 1], tail[|tail| - 1];
      TailKeepsDifference(c, d, front);
      UpdateAllFits(c, front);
      UpdateAllFits(d, front);
      if UpdateAll(c, tail) == UpdateAll(d, tail) {
        UpdateIsInjective(UpdateAll(c, front), UpdateAll(d, front), b, b);
        XorCancels(UpdateAll(c, front), b);
        XorCancels(UpdateAll(d, front), b);
      }
    }
  }

  lemma {:induction false} UpdateAllOfConcat(c: nat, head: seq<Byte>, tail: seq<Byte>)
    ensures UpdateAll(c, head + tail) == UpdateAll(UpdateAll(c, head), tail)
  {
    if tail == [] {
      assert head + tail == head;
    } else {
      var front := tail[..|tail| - 1];
      assert (head + tail)[..|head + tail| - 1] == head + front;
      UpdateAllOfConcat(c, head, front);
    }
  }

  /** No change of a single byte goes unnoticed. */
  lemma OneByteChangeIsDetected(head: seq<Byte>, a: Byte, b: Byte, tail: seq<Byte>)
    requires a != b
    ensures Crc(head + [a] + tail) != Crc(head + [b] + tail)
  {
    var c := UpdateAll(ONES, head);
    WordSize32();
    UpdateAllFits(ONES, head);
    AfterByte(c, head, a, tail);
    AfterByte(c, head, b, tail);
    if Update(c, a) == Update(c, b) {
      UpdateIsInjective(c, c, a, b);
      XorCommutes(c, a);
      XorCommutes(c, b);
      XorCancels(a, c);
      XorCancels(b, c);
      assert false;
    }
    TailKeepsDifference(Update(c, a), Update(c, b), tail);
    XorCancels(UpdateAll(Update(c, a), tail), ONES);
    XorCancels(UpdateAll(Update(c, b), tail), ONES);
  }

  lemma AfterByte(c: nat, head: seq<Byte>, a: Byte, tail: seq<Byte>)
    requires c == UpdateAll(ONES, head) && c < Pow2(32)
    ensures UpdateAll(ONES, head + [a] + tail) == UpdateAll(Update(c, a), tail) && Update(c, a) < Pow2(32)
  {
    UpdateAllOfConcat(ONES, head + [a], tail);
    assert (head + [a])[..|head|] == head;
    WordSize32();
    UpdateAllFits(ONES, head + [a]);
  }

  // ---- Adler-32 -----------------------------------------------------------------------------------

  const MODULUS := 65521

  function Sum(data: seq<Byte>): nat
  {
    if data == [] then 0 else Sum(data[..|data| - 1]) + data[|data| - 1]
  }

  /** Each byte times the number of bytes from it to the end. */
  function Weighted(data: seq<Byte>): nat
  {
    if data == [] then 0 else (|data| * data[0]) + Weighted(data[1..])
  }

  /** The two sums that section 2.2 of RFC 1950 defines, in closed form. */
  function Adler(data: seq<Byte>): nat
  {
    (|data| + Weighted(data)) % MODULUS * 65536 + (1 + Sum(data)) % MODULUS
  }

  lemma AdlerFits(data: seq<Byte>)
    ensures Adler(data) < WORD
  {
  }

  /** One more byte adds every byte so far, and itself, once more. */
  lemma {:induction false} WeightedGrows(data: seq<Byte>, b: Byte)
    ensures Weighted(data + [b]) == Weighted(data) + Sum(data) + b
  {
    if data == [] {
      assert (data + [b])[1..] == [];
    } else {
      WeightedGrows(data[1..], b);
      assert (data + [b])[1..] == data[1..] + [b];
      SumOfRest(data);
      OneMore(|data|, data[0]);
    }
  }

  lemma OneMore(n: nat, d: nat)
    ensures (n + 1) * d == n * d + d
  {
  }

  lemma {:induction false} SumOfRest(data: seq<Byte>)
    requires data != []
    ensures Sum(data) == data[0] + Sum(data[1..])
  {
    if |data| > 1 {
      var front := data[..|data| - 1];
      SumOfRest(front);
      assert front[1..] == data[1..][..|data| - 2];
    }
  }

  lemma Reduce(a: nat, b: nat)
    ensures (a % MODULUS + b) % MODULUS == (a + b) % MODULUS
  {
  }

  lemma AdlerBegin()
    ensures Sum([]) == 0 && Weighted([]) == 0
  {
  }

  lemma AdlerStep(data: seq<Byte>, i: nat)
    requires i < |data|
    ensures var s1, s2 := (1 + Sum(data[..i])) % MODULUS, (i + Weighted(data[..i])) % MODULUS;
            var t1 := (s1 + data[i]) % MODULUS;
            && t1 == (1 + Sum(data[..i + 1])) % MODULUS
            && (s2 + t1) % MODULUS == (i + 1 + Weighted(data[..i + 1])) % MODULUS
  {
    hide Sum, Weighted;
    SumsGrow(data, i);
    AdlerSums(Sum(data[..i]), i + Weighted(data[..i]), data[i]);
  }

  lemma SumsGrow(data: seq<Byte>, i: nat)
    requires i < |data|
    ensures Sum(data[..i + 1]) == Sum(data[..i]) + data[i]
    ensures i + 1 + Weighted(data[..i + 1]) == i + Weighted(data[..i]) + (1 + Sum(data[..i]) + data[i])
  {
    assert data[..i + 1] == data[..i] + [data[i]];
    assert data[..i + 1][..i] == data[..i];
    WeightedGrows(data[..i], data[i]);
  }

  lemma AdlerSums(s: nat, w: nat, b: Byte)
    ensures var t1 := ((1 + s) % MODULUS + b) % MODULUS;
            && t1 == (1 + s + b) % MODULUS
            && (w % MODULUS + t1) % MODULUS == (w + (1 + s + b)) % MODULUS
  {
    Reduce(1 + s, b);
    Reduce(w, (1 + s + b) % MODULUS);
    Reduce(1 + s + b, w);
  }

  /** `adler32`: running sums, reduced at each byte. */
  method Adler32(data: seq<Byte>) returns (r: nat)
    ensures r == Adler(data) && r < WORD
  {
    hide Sum, Weighted;
    AdlerBegin();
    var s1, s2 := 1, 0;
    for i := 0 to |data|
      invariant s1 == (1 + Sum(data[..i])) % MODULUS
      invariant s2 == (i + Weighted(data[..i])) % MODULUS
    {
      AdlerStep(data, i);
      s1 := (s1 + data[i]) % MODULUS;
      s2 := (s2 + s1) % MODULUS;
    }
    assert data[..|data|] == data;
    r := s2 * 65536 + s1;
  }
}

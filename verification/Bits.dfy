/** Bitwise operations on C ints that are not negative, and the population count of l10nflist.c. */
module Bits {

  /** x & y */
  function And(x: nat, y: nat): nat {
    if x == 0 || y == 0 then 0
    else (if x % 2 == 1 && y % 2 == 1 then 1 else 0) + 2 * And(x / 2, y / 2)
  }

  /** x & ~y */
  function AndNot(x: nat, y: nat): nat {
    if x == 0 then 0
    else (if x % 2 == 1 && y % 2 == 0 then 1 else 0) + 2 * AndNot(x / 2, y / 2)
  }

  /** The number of bits that are set. */
  function BitCount(x: nat): nat {
    if x == 0 then 0 else x % 2 + BitCount(x / 2)
  }

  function Pow2(n: nat): (p: nat)
    ensures p > 0
  {
    if n == 0 then 1 else 2 * Pow2(n - 1)
  }

  /** pop: adds up bits in pairs, nibbles, bytes and at last the whole 16-bit number. */
  function Pop(x: nat): nat {
    var x1 := AndNot(x, 0x5555) / 2 + And(x, 0x5555);
    var x2 := AndNot(x1, 0x3333) / 4 + And(x1, 0x3333);
    var x3 := And(x2 / 16 + x2, 0x0f0f);
    And(x3 / 256 + x3, 0xff)
  }

  // ---- pop is the population count ----

  /** One binary place. */
  lemma OnePlace(x: nat, b: nat, y: nat, c: nat)
    requires b < 2 && c < 2
    ensures And(2 * x + b, 2 * y + c) == 2 * And(x, y) + (if b == 1 && c == 1 then 1 else 0)
    ensures AndNot(2 * x + b, 2 * y + c) == 2 * AndNot(x, y) + (if b == 1 && c == 0 then 1 else 0)
    ensures BitCount(2 * x + b) == BitCount(x) + b
  {
    var n, m := 2 * x + b, 2 * y + c;
    assert n / 2 == x && n % 2 == b && m / 2 == y && m % 2 == c;
  }

  /** A block of places whose mask is all ones or all zeros: here one place. */
  lemma Block1(x: nat, r: nat, y: nat, full: bool)
    requires r < 2
    ensures And(2 * x + r, 2 * y + if full then 1 else 0) == 2 * And(x, y) + if full then r else 0
    ensures AndNot(2 * x + r, 2 * y + if full then 1 else 0) == 2 * AndNot(x, y) + if full then 0 else r
    ensures BitCount(2 * x + r) == BitCount(x) + r
  {
    OnePlace(x, r, y, if full then 1 else 0);
  }

  lemma Block2(x: nat, r: nat, y: nat, full: bool)
    requires r < 4
    ensures And(4 * x + r, 4 * y + if full then 3 else 0) == 4 * And(x, y) + if full then r else 0
    ensures AndNot(4 * x + r, 4 * y + if full then 3 else 0) == 4 * AndNot(x, y) + if full then 0 else r
  {
    hide And, AndNot, BitCount;
    var h, l, one := r / 2, r % 2, if full then 1 else 0;
    Block1(x, h, y, full);
    Block1(2 * x + h, l, 2 * y + one, full);
    assert 2 * (2 * x + h) + l == 4 * x + r;
  }

  lemma Block4(x: nat, r: nat, y: nat, full: bool)
    requires r < 16
    ensures And(16 * x + r, 16 * y + if full then 15 else 0) == 16 * And(x, y) + if full then r else 0
  {
    hide And, AndNot, BitCount;
    var h, l, three := r / 4, r % 4, if full then 3 else 0;
    Block2(x, h, y, full);
    Block2(4 * x + h, l, 4 * y + three, full);
    assert 4 * (4 * x + h) + l == 16 * x + r;
  }

  lemma Block8(x: nat, r: nat, y: nat)
    requires r < 256
    ensures And(256 * x + r, 256 * y + 255) == 256 * And(x, y) + r
  {
    hide And, AndNot, BitCount;
    var h, l := r / 16, r % 16;
    Block4(x, h, y, true);
    Block4(16 * x + h, l, 16 * y + 15, true);
    assert 16 * (16 * x + h) + l == 256 * x + r;
  }

  function Pairs(x: nat, y: nat): nat { AndNot(x, y) / 2 + And(x, y) }

  function Nibbles(x: nat, y: nat): nat { AndNot(x, y) / 4 + And(x, y) }

  lemma PairsAre(x: nat, y: nat, z: nat)
    requires AndNot(x, y) == 2 * z
    ensures AndNot(x, y) % 2 == 0 && Pairs(x, y) == z + And(x, y)
  {
    hide And, AndNot;
  }

  lemma NibblesAre(x: nat, y: nat, z: nat)
    requires AndNot(x, y) == 4 * z
    ensures AndNot(x, y) % 4 == 0 && Nibbles(x, y) == z + And(x, y)
  {
    hide And, AndNot;
  }

  lemma PairStep(x: nat, h: nat, l: nat, y: nat)
    requires h < 2 && l < 2 && AndNot(x, y) % 2 == 0
    ensures var n, m := 4 * x + 2 * h + l, 4 * y + 1;
            AndNot(n, m) % 2 == 0 && Pairs(n, m) == 4 * Pairs(x, y) + h + l && BitCount(n) == BitCount(x) + h + l
  {
    hide And, AndNot, BitCount, Pairs;
    var z := AndNot(x, y) / 2;
    PairsAre(x, y, z);
    Block1(x, h, y, false);
    Block1(2 * x + h, l, 2 * y, true);
    var n, m := 4 * x + 2 * h + l, 4 * y + 1;
    assert 2 * (2 * x + h) + l == n && 2 * (2 * y) + 1 == m;
    PairsAre(n, m, 4 * z + h);
  }

  lemma NibbleStep(x: nat, h: nat, l: nat, y: nat)
    requires h < 4 && l < 4 && AndNot(x, y) % 4 == 0
    ensures var n, m := 16 * x + 4 * h + l, 16 * y + 3;
            AndNot(n, m) % 4 == 0 && Nibbles(n, m) == 16 * Nibbles(x, y) + h + l
  {
    hide And, AndNot, BitCount, Nibbles;
    var z := AndNot(x, y) / 4;
    NibblesAre(x, y, z);
    Block2(x, h, y, false);
    Block2(4 * x + h, l, 4 * y, true);
    var n, m := 16 * x + 4 * h + l, 16 * y + 3;
    assert 4 * (4 * x + h) + l == n && 4 * (4 * y) + 3 == m;
    NibblesAre(n, m, 16 * z + h);
  }

  predicate Bit(b: nat) { b < 2 }

  /** The pairs of one byte, given by its bits, below a number. */
  lemma PairByte(x: nat, y: nat, b0: nat, b1: nat, b2: nat, b3: nat, b4: nat, b5: nat, b6: nat, b7: nat)
    requires Bit(b0) && Bit(b1) && Bit(b2) && Bit(b3) && Bit(b4) && Bit(b5) && Bit(b6) && Bit(b7)
    requires AndNot(x, y) % 2 == 0
    ensures var r := b0 + 2 * b1 + 4 * b2 + 8 * b3 + 16 * b4 + 32 * b5 + 64 * b6 + 128 * b7;
            && BitCount(256 * x + r) == BitCount(x) + (b0 + b1) + (b2 + b3) + (b4 + b5) + (b6 + b7)
            && AndNot(256 * x + r, 256 * y + 0x55) % 2 == 0
            && Pairs(256 * x + r, 256 * y + 0x55)
               == 256 * Pairs(x, y) + (b0 + b1) + 4 * (b2 + b3) + 16 * (b4 + b5) + 64 * (b6 + b7)
  {
    hide And, AndNot, BitCount, Pairs;
    var x3 := 4 * x + 2 * b7 + b6;
    var x2 := 4 * x3 + 2 * b5 + b4;
    var x1 := 4 * x2 + 2 * b3 + b2;
    PairStep(x, b7, b6, y);
    PairStep(x3, b5, b4, 4 * y + 1);
    PairStep(x2, b3, b2, 16 * y + 5);
    PairStep(x1, b1, b0, 64 * y + 21);
  }

  lemma ByteBits(r: nat)
    returns (b0: nat, b1: nat, b2: nat, b3: nat, b4: nat, b5: nat, b6: nat, b7: nat)
    requires r < 256
    ensures Bit(b0) && Bit(b1) && Bit(b2) && Bit(b3) && Bit(b4) && Bit(b5) && Bit(b6) && Bit(b7)
    ensures r == b0 + 2 * b1 + 4 * b2 + 8 * b3 + 16 * b4 + 32 * b5 + 64 * b6 + 128 * b7
  {
    var r1 := r / 2;
    var r2 := r1 / 2;
    var r3 := r2 / 2;
    var r4 := r3 / 2;
    var r5 := r4 / 2;
    var r6 := r5 / 2;
    b0, b1, b2, b3, b4, b5, b6, b7 := r % 2, r1 % 2, r2 % 2, r3 % 2, r4 % 2, r5 % 2, r6 % 2, r6 / 2;
  }

  /** The nibbles of one byte below a number. */
  lemma NibbleByte(x: nat, d0: nat, d1: nat, d2: nat, d3: nat, y: nat)
    requires d0 <= 2 && d1 <= 2 && d2 <= 2 && d3 <= 2 && AndNot(x, y) % 4 == 0
    ensures var n, m := 256 * x + d0 + 4 * d1 + 16 * d2 + 64 * d3, 256 * y + 0x33;
            AndNot(n, m) % 4 == 0 && Nibbles(n, m) == 256 * Nibbles(x, y) + (d0 + d1) + 16 * (d2 + d3)
  {
    hide And, AndNot, Nibbles;
    NibbleStep(x, d3, d2, y);
    NibbleStep(16 * x + 4 * d3 + d2, d1, d0, 16 * y + 3);
  }

  lemma Zeros()
    ensures And(0, 0) == AndNot(0, 0) == BitCount(0) == Pairs(0, 0) == Nibbles(0, 0) == 0
  {
  }

  /** The third step: adjacent nibble counts are added, and every other sum is kept. */
  lemma AddNibbles(e0: nat, e1: nat, e2: nat, e3: nat)
    requires e0 <= 4 && e1 <= 4 && e2 <= 4 && e3 <= 4
    ensures And(256 * (16 * e3 + (e2 + e3)) + (16 * (e1 + e2) + (e0 + e1)), 0x0f0f) == e0 + e1 + 256 * (e2 + e3)
  {
    hide And;
    AndZero(e3);
    var a := 16 * e3 + (e2 + e3);
    Block4(e3, e2 + e3, 0, true);
    assert And(a, 15) == e2 + e3;
    var b := 16 * a + (e1 + e2);
    Block4(a, e1 + e2, 15, false);
    assert And(b, 240) == 16 * (e2 + e3);
    Block4(b, e0 + e1, 240, true);
    assert 16 * b + (e0 + e1) == 256 * (16 * e3 + (e2 + e3)) + (16 * (e1 + e2) + (e0 + e1));
  }

  lemma ShiftNibbles(e0: nat, e1: nat, e2: nat, e3: nat)
    requires e0 <= 4 && e1 <= 4 && e2 <= 4 && e3 <= 4
    ensures var x2 := e0 + 16 * e1 + 256 * e2 + 4096 * e3;
            x2 / 16 + x2 == 256 * (16 * e3 + (e2 + e3)) + (16 * (e1 + e2) + (e0 + e1))
  {
    var x2 := e0 + 16 * e1 + 256 * e2 + 4096 * e3;
    assert x2 == 16 * (e1 + 16 * e2 + 256 * e3) + e0;
  }

  /** The last step: the two byte counts are added. */
  lemma AddBytes(f0: nat, f1: nat)
    requires f0 <= 8 && f1 <= 8
    ensures var x3 := f0 + 256 * f1; And(x3 / 256 + x3, 0xff) == f0 + f1
  {
    hide And;
    assert (f0 + 256 * f1) / 256 == f1;
    AndZero(f1);
    Block8(f1, f0 + f1, 0);
  }

  lemma AndZero(x: nat)
    ensures And(x, 0) == 0
  {
  }

  /** The counts of the pairs lead to the count of the whole. */
  lemma PopFromPairs(x: nat, d0: nat, d1: nat, d2: nat, d3: nat, d4: nat, d5: nat, d6: nat, d7: nat)
    requires d0 <= 2 && d1 <= 2 && d2 <= 2 && d3 <= 2 && d4 <= 2 && d5 <= 2 && d6 <= 2 && d7 <= 2
    requires Pairs(x, 0x5555) == 256 * (d4 + 4 * d5 + 16 * d6 + 64 * d7) + d0 + 4 * d1 + 16 * d2 + 64 * d3
    ensures Pop(x) == d0 + d1 + d2 + d3 + d4 + d5 + d6 + d7
  {
    hide And, AndNot, BitCount, Pairs, Nibbles, Pop;
    Zeros();
    NibbleByte(0, d4, d5, d6, d7, 0);
    NibbleByte(d4 + 4 * d5 + 16 * d6 + 64 * d7, d0, d1, d2, d3, 0x33);
    AddNibbles(d0 + d1, d2 + d3, d4 + d5, d6 + d7);
    ShiftNibbles(d0 + d1, d2 + d3, d4 + d5, d6 + d7);
    AddBytes(d0 + d1 + d2 + d3, d4 + d5 + d6 + d7);
    PopStages(x);
  }

  /** pop counts the bits of every number that has at most 16. */
  lemma PopCounts(x: nat)
    requires x < 0x1_0000
    ensures Pop(x) == BitCount(x)
  {
    hide And, AndNot, BitCount, Pairs, Nibbles, Pop;
    Zeros();
    var hi, lo := x / 256, x % 256;
    var b8, b9, bA, bB, bC, bD, bE, bF := ByteBits(hi);
    var b0, b1, b2, b3, b4, b5, b6, b7 := ByteBits(lo);
    PairByte(0, 0, b8, b9, bA, bB, bC, bD, bE, bF);
    PairByte(hi, 0x55, b0, b1, b2, b3, b4, b5, b6, b7);
    PopFromPairs(x, b0 + b1, b2 + b3, b4 + b5, b6 + b7, b8 + b9, bA + bB, bC + bD, bE + bF);
  }

  lemma PopStages(x: nat)
    ensures var x2 := Nibbles(Pairs(x, 0x5555), 0x3333);
            var x3 := And(x2 / 16 + x2, 0x0f0f);
            Pop(x) == And(x3 / 256 + x3, 0xff)
  {
    hide And, AndNot;
  }
}

/** Single bits of natural numbers, least significant first. */
module Bits {

  function TestBit(x: nat, k: nat): bool
  {
    if k == 0 then x % 2 == 1 else TestBit(x / 2, k - 1)
  }

  /** x fits in n bits. */
  ghost predicate Fits(x: nat, n: nat)
  {
    if n == 0 then x == 0 else Fits(x / 2, n - 1)
  }

  /** `x | (1 << k)` */
  function SetBit(x: nat, k: nat): (r: nat)
    ensures forall j: nat :: TestBit(r, j) == (j == k || TestBit(x, j))
    ensures forall n: nat :: k < n && Fits(x, n) ==> Fits(r, n)
  {
    if k == 0 then
      var r := x / 2 * 2 + 1;
      assert r / 2 == x / 2 && r % 2 == 1;
      r
    else
      var r := x % 2 + 2 * SetBit(x / 2, k - 1);
      assert r / 2 == SetBit(x / 2, k - 1) && r % 2 == x % 2;
      r
  }

  /** `x & !(1 << k)` */
  function ClearBit(x: nat, k: nat): (r: nat)
    ensures forall j: nat :: TestBit(r, j) == (j != k && TestBit(x, j))
    ensures forall n: nat :: Fits(x, n) ==> Fits(r, n)
  {
    if k == 0 then
      var r := x / 2 * 2;
      assert r / 2 == x / 2 && r % 2 == 0;
      r
    else
      var r := x % 2 + 2 * ClearBit(x / 2, k - 1);
      assert r / 2 == ClearBit(x / 2, k - 1) && r % 2 == x % 2;
      r
  }

  /** `!x` on an n-bit word */
  function Complement(x: nat, n: nat): (r: nat)
    ensures Fits(r, n)
    ensures forall j: nat :: TestBit(r, j) == (j < n && !TestBit(x, j))
  {
    if n == 0 then
      ZeroBits();
      0
    else
      var r := 1 - x % 2 + 2 * Complement(x / 2, n - 1);
      assert r / 2 == Complement(x / 2, n - 1) && r % 2 == 1 - x % 2;
      r
  }

  lemma {:induction false} ZeroBitsAt(j: nat)
    ensures !TestBit(0, j)
  {
    if j > 0 { ZeroBitsAt(j - 1); }
  }

  lemma ZeroBits()
    ensures forall j: nat :: !TestBit(0, j)
  {
    forall j: nat ensures !TestBit(0, j) { ZeroBitsAt(j); }
  }

  /** The index of the lowest set bit. */
  function TrailingZeros(x: nat): (k: nat)
    requires x > 0
    ensures TestBit(x, k)
    ensures forall j: nat :: j < k ==> !TestBit(x, j)
  {
    if x % 2 == 1 then 0 else 1 + TrailingZeros(x / 2)
  }

  function CountOnes(x: nat): nat
  {
    if x == 0 then 0 else x % 2 + CountOnes(x / 2)
  }

  /** Two n-bit numbers with the same bits are equal. */
  lemma {:induction false} BitsDetermine(x: nat, y: nat, n: nat)
    requires Fits(x, n) && Fits(y, n)
    requires forall j: nat :: j < n ==> TestBit(x, j) == TestBit(y, j)
    ensures x == y
  {
    if n > 0 {
      assert TestBit(x, 0) == TestBit(y, 0);
      forall j: nat | j < n - 1 ensures TestBit(x / 2, j) == TestBit(y / 2, j) {
        assert TestBit(x, j + 1) == TestBit(y, j + 1);
      }
      BitsDetermine(x / 2, y / 2, n - 1);
    }
  }

  lemma {:induction false} FitsBelow(x: nat, n: nat)
    ensures Fits(x, n) <==> x < Pow2(n)
  {
    if n > 0 { FitsBelow(x / 2, n - 1); }
  }

  lemma ByteFits(x: nat)
    ensures Fits(x, 8) <==> x < 256
  {
    Pow2Eight();
    FitsBelow(x, 8);
  }

  /** The little-endian number whose bytes are bs. */
  function WordOf(bs: seq<int>): (w: nat)
    requires forall i | 0 <= i < |bs| :: 0 <= bs[i] < 256
  {
    if bs == [] then 0 else bs[0] + 256 * WordOf(bs[1..])
  }

  /** Bit j of the number b + 256 w: the low eight bits are b's. */
  lemma {:induction false} LowByteBit(b: nat, w: nat, j: nat)
    requires b < 256
    ensures TestBit(b + 256 * w, j) == if j < 8 then TestBit(b, j) else TestBit(w, j - 8)
  {
    LowBits(b, w, 8, 256, j);
  }

  lemma {:induction false} LowBits(b: nat, w: nat, n: nat, p: nat, j: nat)
    requires b < p && p == Pow2(n)
    ensures TestBit(b + p * w, j) == if j < n then TestBit(b, j) else TestBit(w, j - n)
  {
    if n > 0 {
      var h := p / 2;
      assert p == 2 * h && h == Pow2(n - 1);
      assert p * w == 2 * (h * w);
      assert (b + p * w) / 2 == b / 2 + h * w;
      assert (b + p * w) % 2 == b % 2;
      if j > 0 { LowBits(b / 2, w, n - 1, h, j - 1); }
    }
  }

  function Pow2(n: nat): (p: nat)
    ensures p > 0
  {
    if n == 0 then 1 else 2 * Pow2(n - 1)
  }

  lemma {:induction false} Pow2Add(a: nat, b: nat)
    ensures Pow2(a + b) == Pow2(a) * Pow2(b)
  {
    if a > 0 { Pow2Add(a - 1, b); }
  }

  lemma WordRange(x: nat)
    ensures Fits(x, 64) <==> x < 0x1_0000_0000_0000_0000
  {
    Pow2Eight();
    Pow2Add(8, 8);
    Pow2Add(16, 16);
    Pow2Add(32, 32);
    FitsBelow(x, 64);
  }

  lemma Pow2Eight()
    ensures Pow2(8) == 256
  {
    assert Pow2(4) == 16;
  }

  /** Bit j of a little-endian number is bit j % 8 of its byte j / 8. */
  lemma {:induction false} WordBit(bs: seq<int>, j: nat)
    requires forall i | 0 <= i < |bs| :: 0 <= bs[i] < 256
    requires j < 8 * |bs|
    ensures TestBit(WordOf(bs), j) == TestBit(bs[j / 8], j % 8)
  {
    Pow2Eight();
    LowByteBit(bs[0], WordOf(bs[1..]), j);
    if j >= 8 {
      WordBit(bs[1..], j - 8);
      assert bs[1..][(j - 8) / 8] == bs[j / 8];
    }
  }

  lemma {:induction false} FitsDouble(w: nat, b: nat, n: nat)
    requires Fits(w, n) && b < 256
    ensures Fits(b + 256 * w, 8 + n)
  {
    FitsShift(w, b, n, 8, 256);
  }

  lemma {:induction false} FitsShift(w: nat, b: nat, n: nat, m: nat, p: nat)
    requires Fits(w, n) && p == Pow2(m) && b < p
    ensures Fits(b + p * w, m + n)
  {
    if m > 0 {
      var h := Pow2(m - 1);
      assert p == 2 * h;
      HalfShift(w, b, h);
      FitsShift(w, b / 2, n, m - 1, h);
      var x := b + p * w;
      assert x / 2 == b / 2 + h * w;
    }
  }

  lemma HalfShift(w: nat, b: nat, h: nat)
    ensures (b + 2 * h * w) / 2 == b / 2 + h * w
  {
    assert 2 * h * w == 2 * (h * w);
  }

  lemma {:induction false} WordFits(bs: seq<int>)
    requires forall i | 0 <= i < |bs| :: 0 <= bs[i] < 256
    ensures Fits(WordOf(bs), 8 * |bs|)
  {
    if bs != [] {
      Pow2Eight();
      WordFits(bs[1..]);
      FitsDouble(WordOf(bs[1..]), bs[0], 8 * |bs[1..]|);
    }
  }

  /** How many of the first n bits of x are set. */
  function OnesBelow(x: nat, n: nat): nat
  {
    if n == 0 then 0 else OnesBelow(x, n - 1) + if TestBit(x, n - 1) then 1 else 0
  }

  lemma {:induction false} OnesBelowShift(x: nat, n: nat)
    ensures OnesBelow(x, n + 1) == x % 2 + OnesBelow(x / 2, n)
  {
    if n > 0 { OnesBelowShift(x, n - 1); }
  }

  /** Counting the ones of an n-bit word counts its set bits. */
  lemma {:induction false} CountOnesBelow(x: nat, n: nat)
    requires Fits(x, n)
    ensures CountOnes(x) == OnesBelow(x, n)
  {
    if n > 0 {
      OnesBelowShift(x, n - 1);
      CountOnesBelow(x / 2, n - 1);
      if x == 0 { CountOnesBelow(0, n - 1); }
    }
  }

  /** `x & ((1 << n) - 1)` */
  function LowPart(x: nat, n: nat): (r: nat)
    ensures Fits(r, n)
    ensures forall j: nat :: TestBit(r, j) == (j < n && TestBit(x, j))
  {
    if n == 0 then
      ZeroBits();
      0
    else
      var r := x % 2 + 2 * LowPart(x / 2, n - 1);
      assert r / 2 == LowPart(x / 2, n - 1) && r % 2 == x % 2;
      r
  }
}

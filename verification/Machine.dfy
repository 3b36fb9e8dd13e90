/// Bytes, 64-bit words and powers of two.
module Machine {

  type Byte = b: int | 0 <= b < 256

  const TWO_64: nat := 0x1_0000_0000_0000_0000

  type Word = w: int | 0 <= w < TWO_64

  /// 64-bit addition and subtraction wrap around.
  function Add(a: Word, b: nat): Word {
    (a + b) % TWO_64
  }

  function Sub(a: Word, b: Word): Word {
    (a - b) % TWO_64
  }

  function Pow2(n: nat): (r: nat)
    ensures r >= 1
  {
    if n == 0 then 1 else 2 * Pow2(n - 1)
  }

  lemma SixteenMore(k: nat)
    ensures Pow2(k + 16) == 0x1_0000 * Pow2(k)
  {
    assert Pow2(k + 4) == 2 * Pow2(k + 3) == 4 * Pow2(k + 2) == 8 * Pow2(k + 1);
    assert Pow2(k + 8) == 2 * Pow2(k + 7) == 4 * Pow2(k + 6) == 8 * Pow2(k + 5);
    assert Pow2(k + 12) == 2 * Pow2(k + 11) == 4 * Pow2(k + 10) == 8 * Pow2(k + 9);
    assert Pow2(k + 16) == 2 * Pow2(k + 15) == 4 * Pow2(k + 14) == 8 * Pow2(k + 13);
  }

  lemma WordWidth()
    ensures Pow2(64) == TWO_64
    ensures Pow2(62) == 0x4000_0000_0000_0000
  {
    PowersStart();
    hide Pow2;
    SixteenMore(0);
    SixteenMore(16);
    SixteenMore(32);
    SixteenMore(48);
    TwoMore(62);
  }

  lemma PowersStart()
    ensures Pow2(0) == 1
  {
  }

  lemma TwoMore(k: nat)
    ensures Pow2(k + 2) == 4 * Pow2(k)
  {
    assert Pow2(k + 2) == 2 * Pow2(k + 1);
  }

  // ----- multiples -----

  function Scale(p: nat, q: nat): nat {
    p * q
  }

  lemma ScaleTwice(half: nat, q: nat)
    ensures Scale(2 * half, q) == 2 * Scale(half, q)
  {
  }

  lemma ScaleNext(p: nat, a: nat)
    ensures Scale(p, a + 1) == Scale(p, a) + p
  {
  }

  lemma {:induction false} ScaleGap(p: nat, a: nat, b: nat)
    ensures a < b ==> Scale(p, a) + p <= Scale(p, b)
    decreases b
  {
    if a < b {
      ScaleGap(p, a, b - 1);
      ScaleNext(p, b - 1);
      hide Scale;
    }
  }

  lemma DivisionParts(n: nat, d: nat)
    requires d > 0
    ensures n == Scale(d, n / d) + n % d
  {
  }

  lemma DivisionIsUnique(n: nat, d: nat, q: nat, r: nat)
    requires n == Scale(d, q) + r && r < d
    ensures n / d == q && n % d == r
  {
    hide Scale;
    DivisionParts(n, d);
    ScaleGap(d, q, n / d);
    ScaleGap(d, n / d, q);
  }

  /// `n` is `r` more than a multiple of `d`.
  ghost predicate IsAbove(n: nat, d: nat, r: nat) {
    r < d && exists q: nat :: n == Scale(d, q) + r
  }

  lemma IsAboveIff(n: nat, d: nat, r: nat)
    requires d > 0
    ensures IsAbove(n, d, r) <==> n % d == r
  {
    hide Scale;
    DivisionParts(n, d);
    if IsAbove(n, d, r) {
      var q: nat :| n == Scale(d, q) + r;
      DivisionIsUnique(n, d, q, r);
    }
  }

  /// Doubling number and divisor doubles the remainder.
  lemma DoubleRemainder(n: nat, d: nat)
    requires d > 0
    ensures 2 * n % (2 * d) == 2 * (n % d)
    ensures (2 * n + 1) % (2 * d) == 2 * (n % d) + 1
  {
    hide Scale;
    DivisionParts(n, d);
    ScaleTwice(d, n / d);
    DivisionIsUnique(2 * n, 2 * d, n / d, 2 * (n % d));
    DivisionIsUnique(2 * n + 1, 2 * d, n / d, 2 * (n % d) + 1);
  }

  /// Digit `k` of a number in base 256, the least significant one first.
  function Digit(v: nat, k: nat): (d: nat)
    ensures d < 0x100
  {
    if k == 0 then v % 0x100 else Digit(v / 0x100, k - 1)
  }

  lemma FourDigits(b0: nat, b1: nat, b2: nat, b3: nat)
    requires b0 < 0x100 && b1 < 0x100 && b2 < 0x100 && b3 < 0x100
    ensures var v := b0 + 0x100 * b1 + 0x1_0000 * b2 + 0x100_0000 * b3;
            Digit(v, 0) == b0 && Digit(v, 1) == b1 && Digit(v, 2) == b2 && Digit(v, 3) == b3
  {
    var v3 := b3;
    var v2 := b2 + 0x100 * v3;
    var v1 := b1 + 0x100 * v2;
    var v := b0 + 0x100 * v1;
    DigitStep(b0, v1);
    DigitStep(b1, v2);
    DigitStep(b2, v3);
    DigitStep(b3, 0);
    hide Digit;
    assert Digit(v, 2) == Digit(v1, 1) == Digit(v2, 0);
    assert Digit(v, 3) == Digit(v1, 2) == Digit(v2, 1) == Digit(v3, 0);
  }

  lemma DigitStep(low: nat, high: nat)
    requires low < 0x100
    ensures Digit(low + 0x100 * high, 0) == low
    ensures forall k: nat :: Digit(low + 0x100 * high, k + 1) == Digit(high, k)
  {
    assert (low + 0x100 * high) % 0x100 == low && (low + 0x100 * high) / 0x100 == high;
  }

  // ----- 32-bit counters -----

  /// The value of a `uint32_t` counter after `i` increments from zero.
  function Small(i: nat): bv32 {
    if i == 0 then 0 else Small(i - 1) + 1
  }

  lemma IncrementAsNat(w: bv32)
    requires w < 64
    ensures (w + 1) as nat == w as nat + 1
  {
  }

  lemma ZeroAsNat(w: bv32)
    ensures w as nat == 0 <==> w == 0
  {
  }

  lemma BelowAsNat(w: bv32)
    ensures w as nat < 64 <==> w < 64
    ensures w as nat < 32 <==> w < 32
    ensures w as nat < 8 <==> w < 8
    ensures w as nat < 5 <==> w < 5
  {
  }

  lemma {:induction false} SmallAsNat(i: nat)
    requires i <= 64
    ensures Small(i) as nat == i
    ensures i < 64 <==> Small(i) < 64
    ensures i < 32 <==> Small(i) < 32
    ensures i < 8 <==> Small(i) < 8
    ensures i < 5 <==> Small(i) < 5
  {
    if i > 0 {
      SmallAsNat(i - 1);
      IncrementAsNat(Small(i - 1));
    }
    BelowAsNat(Small(i));
  }
}

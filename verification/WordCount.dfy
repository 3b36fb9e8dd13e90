/// Counting in 64-bit words: a count is zero exactly at the multiples of 2^64.
module WordCount {
  import opened Machine

  function Plus(a: bv64, b: bv64): bv64 {
    a + b
  }

  function Twice(t: bv64): bv64 {
    2 * t
  }

  /// A 64-bit counter after `k` increments.
  function CountFrom(start: bv64, k: nat): bv64 {
    if k == 0 then start else Plus(CountFrom(start, k - 1), 1)
  }

  function Doubled(m: nat, t: bv64): bv64 {
    if m == 0 then t else Doubled(m - 1, Twice(t))
  }

  lemma TwiceNext(t: bv64)
    ensures Twice(Plus(t, 1)) == Plus(Plus(Twice(t), 1), 1)
    ensures Twice(0) == 0
  {
  }

  /// Counting twice as far doubles the count.
  lemma {:induction false} CountEven(q: nat)
    ensures CountFrom(0, 2 * q) == Twice(CountFrom(0, q))
    ensures CountFrom(0, 2 * q + 1) == Plus(Twice(CountFrom(0, q)), 1)
  {
    hide Twice, Plus;
    TwiceNext(if q > 0 then CountFrom(0, q - 1) else 0);
    if q > 0 {
      CountEven(q - 1);
    }
  }

  lemma {:induction false} DoubledAdd(a: nat, b: nat, t: bv64)
    ensures Doubled(a + b, t) == Doubled(a, Doubled(b, t))
    decreases b
  {
    hide Twice;
    if b > 0 {
      DoubledAdd(a, b - 1, Twice(t));
    }
  }

  lemma {:induction false} DoubledZero(m: nat)
    ensures Doubled(m, 0) == 0
  {
    hide Twice;
    TwiceNext(0);
    if m > 0 {
      DoubledZero(m - 1);
    }
  }

  function Shift8(t: bv64): bv64 {
    t << 8
  }

  lemma EightTwice(t: bv64)
    ensures Twice(Twice(Twice(Twice(Twice(Twice(Twice(Twice(t)))))))) == Shift8(t)
  {
  }

  lemma DoubledNone(t: bv64)
    ensures Doubled(0, t) == t
  {
  }

  lemma DoubledTwo(m: nat, t: bv64)
    ensures Doubled(m + 2, t) == Doubled(m, Twice(Twice(t)))
  {
    hide Twice;
    assert Doubled(m + 2, t) == Doubled(m + 1, Twice(t));
  }

  lemma DoubledEight(t: bv64)
    ensures Doubled(8, t) == Shift8(t)
  {
    hide Twice, Shift8;
    EightTwice(t);
    var u2 := Twice(Twice(t));
    var u4 := Twice(Twice(u2));
    var u6 := Twice(Twice(u4));
    DoubledTwo(6, t);
    DoubledTwo(4, u2);
    DoubledTwo(2, u4);
    DoubledTwo(0, u6);
  }

  lemma EightShifts(t: bv64)
    ensures Shift8(Shift8(Shift8(Shift8(Shift8(Shift8(Shift8(Shift8(t)))))))) == 0
  {
  }

  /// Doubling 64 times leaves nothing.
  lemma Doubled64(t: bv64)
    ensures Doubled(64, t) == 0
  {
    hide Twice, Shift8, Doubled;
    EightShifts(t);
    var u1 := Shift8(t);
    var u2 := Shift8(u1);
    var u3 := Shift8(u2);
    var u4 := Shift8(u3);
    var u5 := Shift8(u4);
    var u6 := Shift8(u5);
    var u7 := Shift8(u6);
    DoubledEight(t);
    DoubledEight(u1);
    DoubledEight(u2);
    DoubledEight(u3);
    DoubledEight(u4);
    DoubledEight(u5);
    DoubledEight(u6);
    DoubledEight(u7);
    DoubledAdd(8, 8, t);
    DoubledAdd(8, 16, t);
    DoubledAdd(8, 24, t);
    DoubledAdd(8, 32, t);
    DoubledAdd(8, 40, t);
    DoubledAdd(8, 48, t);
    DoubledAdd(8, 56, t);
  }

  lemma SevenTwice(t: bv64)
    ensures Twice(Twice(Twice(Twice(Twice(Twice(Twice(Plus(Twice(t), 1)))))))) == (t << 8) | 0x80
  {
  }

  lemma SevenShifts(t: bv64)
    ensures Shift8(Shift8(Shift8(Shift8(Shift8(Shift8(Shift8((t << 8) | 0x80))))))) != 0
  {
  }

  lemma DoubledSeven(t: bv64)
    ensures Doubled(7, Plus(Twice(t), 1)) == (t << 8) | 0x80
  {
    hide Twice, Plus;
    SevenTwice(t);
    var u := Plus(Twice(t), 1);
    var u2 := Twice(Twice(u));
    var u4 := Twice(Twice(u2));
    DoubledTwo(5, u);
    DoubledTwo(3, u2);
    DoubledTwo(1, u4);
  }

  lemma Doubled63Odd(t: bv64)
    ensures Doubled(63, Plus(Twice(t), 1)) != 0
  {
    var u := Plus(Twice(t), 1);
    var u0: bv64 := (t << 8) | 0x80;
    DoubledSeven(t);
    SevenShifts(t);
    hide *;
    DoubledAdd(56, 7, u);
    DoubledFiftySix(u0);
  }

  lemma DoubledFiftySix(t: bv64)
    ensures Doubled(56, t) == Shift8(Shift8(Shift8(Shift8(Shift8(Shift8(Shift8(t)))))))
  {
    hide Twice, Shift8, Doubled;
    var u1 := Shift8(t);
    var u2 := Shift8(u1);
    var u3 := Shift8(u2);
    var u4 := Shift8(u3);
    var u5 := Shift8(u4);
    var u6 := Shift8(u5);
    DoubledEight(t);
    DoubledEight(u1);
    DoubledEight(u2);
    DoubledEight(u3);
    DoubledEight(u4);
    DoubledEight(u5);
    DoubledEight(u6);
    DoubledAdd(8, 8, t);
    DoubledAdd(8, 16, t);
    DoubledAdd(8, 24, t);
    DoubledAdd(8, 32, t);
    DoubledAdd(8, 40, t);
    DoubledAdd(8, 48, t);
  }

  /// An odd word stays non-zero when it is doubled less than 64 times.
  lemma OddStays(m: nat, t: bv64)
    requires m < 64
    ensures Doubled(m, Plus(Twice(t), 1)) != 0
  {
    hide *;
    var u := Plus(Twice(t), 1);
    Doubled63Odd(t);
    DoubledAdd(63 - m, m, u);
    DoubledZero(63 - m);
  }

  lemma DoubledOnce(m: nat, t: bv64)
    ensures Doubled(m, Twice(t)) == Doubled(m + 1, t)
  {
    hide Twice;
  }

  /// A count doubled `m` times is zero exactly at the multiples of 2^(64 - m).
  lemma {:induction false} CountVanishesIff(k: nat, m: nat)
    requires m <= 64
    ensures Doubled(m, CountFrom(0, k)) == 0 <==> k % Pow2(64 - m) == 0
    decreases 64 - m
  {
    hide Doubled, CountFrom, Twice, Plus;
    if m == 64 {
      Doubled64(CountFrom(0, k));
    } else {
      var q := k / 2;
      CountEven(q);
      DoubleRemainder(q, Pow2(63 - m));
      if k % 2 == 0 {
        CountVanishesIff(q, m + 1);
        DoubledOnce(m, CountFrom(0, q));
      } else {
        OddStays(m, CountFrom(0, q));
      }
    }
  }
}

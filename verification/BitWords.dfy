/// Machine words as bit strings, least significant bit first, with the shifts and
/// masks of the packed bit vectors.
module BitWords {
  import opened Machine

  type Bits = seq<bool>

  // ----- numbers and bit strings -----

  function ToNat(b: Bits): nat {
    if b == [] then 0 else (if b[0] then 1 else 0) + 2 * ToNat(b[1..])
  }

  /// The low `n` bits of `v` in two's complement.
  function FromInt(v: int, n: nat): (r: Bits)
    ensures |r| == n
    decreases n
  {
    if n == 0 then [] else [v % 2 == 1] + FromInt(v / 2, n - 1)
  }

  function Zeros(n: nat): (r: Bits)
    ensures |r| == n && forall i :: 0 <= i < n ==> !r[i]
  {
    seq(n, _ => false)
  }

  function Ones(n: nat): (r: Bits)
    ensures |r| == n && forall i :: 0 <= i < n ==> r[i]
  {
    seq(n, _ => true)
  }

  /// Digit `b` of a number in base 2, the least significant one first; those of a
  /// negative number go on as ones.
  function Binary(v: int, b: nat): bool
    decreases b
  {
    if b == 0 then v % 2 == 1 else Binary(v / 2, b - 1)
  }

  lemma {:induction false} BitIsDigit(v: int, n: nat, b: nat)
    requires b < n
    ensures FromInt(v, n)[b] == Binary(v, b)
    decreases b
  {
    if b > 0 {
      BitIsDigit(v / 2, n - 1, b - 1);
    }
  }

  lemma {:induction false} ValueRoundTrip(v: nat, n: nat)
    requires v < Pow2(n)
    ensures ToNat(FromInt(v, n)) == v
  {
    if n > 0 {
      ValueRoundTrip(v / 2, n - 1);
    }
  }

  lemma {:induction false} FromIntIsPeriodic(v: int, n: nat)
    ensures FromInt(v + Pow2(n), n) == FromInt(v, n)
    decreases n
  {
    if n > 0 {
      FromIntIsPeriodic(v / 2, n - 1);
      assert (v + 2 * Pow2(n - 1)) / 2 == v / 2 + Pow2(n - 1);
    }
  }

  /// Multiples of `2^n` do not show in `n` bits.
  lemma {:induction false} FromIntPeriods(v: int, n: nat, q: nat)
    ensures FromInt(v + Scale(Pow2(n), q), n) == FromInt(v, n)
    decreases q
  {
    hide FromInt, Pow2;
    if q > 0 {
      FromIntPeriods(v, n, q - 1);
      ScaleNext(Pow2(n), q - 1);
      FromIntIsPeriodic(v + Scale(Pow2(n), q - 1), n);
    }
  }

  lemma FromIntRemainder(v: int, n: nat)
    ensures FromInt(v % Pow2(n), n) == FromInt(v, n)
  {
    hide FromInt, Pow2;
    var p: nat := Pow2(n);
    if v >= 0 {
      DivisionParts(v, p);
      FromIntPeriods(v % p, n, v / p);
    } else {
      NegativeParts(v, p);
      FromIntPeriods(v, n, -(v / p));
    }
  }

  lemma NegativeParts(v: int, p: nat)
    requires p > 0 && v < 0
    ensures v / p <= 0 && v % p == v + Scale(p, -(v / p))
  {
  }

  lemma {:induction false} FromIntPrefix(v: int, n: nat, m: nat)
    requires n <= m
    ensures FromInt(v, m)[..n] == FromInt(v, n)
    decreases n
  {
    if n > 0 {
      FromIntPrefix(v / 2, n - 1, m - 1);
    }
  }

  /// A number below `2^n` has zeros from bit `n` on.
  lemma {:induction false} FromIntHighZeros(v: nat, n: nat, m: nat)
    requires n <= m && v < Pow2(n)
    ensures FromInt(v, m) == FromInt(v, n) + Zeros(m - n)
    decreases m
  {
    if n > 0 {
      FromIntHighZeros(v / 2, n - 1, m - 1);
    } else if m > 0 {
      FromIntHighZeros(0, 0, m - 1);
      assert Zeros(m) == [false] + Zeros(m - 1);
    }
  }

  /// A negative number not below `-2^n` has ones from bit `n` on.
  lemma {:induction false} FromIntHighOnes(v: int, n: nat, m: nat)
    requires n <= m && v < 0 <= v + Pow2(n)
    ensures FromInt(v, m) == FromInt(v, n) + Ones(m - n)
    decreases m
  {
    if n > 0 {
      FromIntHighOnes(v / 2, n - 1, m - 1);
    } else if m > 0 {
      FromIntHighOnes(-1, 0, m - 1);
      assert Ones(m) == [true] + Ones(m - 1);
    }
  }

  lemma {:induction false} ToNatZeros(n: nat)
    ensures ToNat(Zeros(n)) == 0
  {
    if n > 0 {
      ToNatZeros(n - 1);
      assert Zeros(n)[1..] == Zeros(n - 1);
    }
  }

  lemma {:induction false} ToNatPadded(b: Bits, n: nat)
    ensures ToNat(b + Zeros(n)) == ToNat(b)
  {
    if b == [] {
      assert b + Zeros(n) == Zeros(n);
      ToNatZeros(n);
    } else {
      assert (b + Zeros(n))[1..] == b[1..] + Zeros(n);
      ToNatPadded(b[1..], n);
    }
  }

  /// The top bit of an `n`-bit number, and what flipping it does.
  lemma {:induction false} TopBit(v: nat, n: nat)
    requires n >= 1 && v < Pow2(n)
    ensures FromInt(v, n)[n - 1] <==> v >= Pow2(n - 1)
  {
    if n > 1 {
      TopBit(v / 2, n - 1);
    }
  }

  lemma {:induction false} FlipTopBit(b: Bits)
    requires b != []
    ensures var top := |b| - 1;
            ToNat(b[top := !b[top]]) == if b[top] then ToNat(b) - Pow2(top) else ToNat(b) + Pow2(top)
  {
    var top := |b| - 1;
    if top > 0 {
      FlipTopBit(b[1..]);
      assert b[top := !b[top]][1..] == b[1..][top - 1 := !b[top]];
    }
  }

  lemma {:induction false} ToNatInjective(a: Bits, b: Bits)
    requires |a| == |b| && ToNat(a) == ToNat(b)
    ensures a == b
  {
    if a != [] {
      ToNatInjective(a[1..], b[1..]);
      assert a == [a[0]] + a[1..] && b == [b[0]] + b[1..];
    }
  }

  // ----- word operations, as the source writes them -----

  function Shl(w: Bits, k: nat): (r: Bits)
    ensures |r| == |w|
    ensures forall i :: 0 <= i < |w| ==> (r[i] <==> k <= i && w[i - k])
  {
    seq(|w|, i requires 0 <= i < |w| => k <= i && w[i - k])
  }

  function Shr(w: Bits, k: nat): (r: Bits)
    ensures |r| == |w|
    ensures forall i :: 0 <= i < |w| ==> (r[i] <==> i + k < |w| && w[i + k])
  {
    seq(|w|, i requires 0 <= i < |w| => i + k < |w| && w[i + k])
  }

  function And(a: Bits, b: Bits): (r: Bits)
    requires |a| == |b|
    ensures |r| == |a| && forall i :: 0 <= i < |a| ==> (r[i] <==> a[i] && b[i])
  {
    seq(|a|, i requires 0 <= i < |a| => a[i] && b[i])
  }

  function Or(a: Bits, b: Bits): (r: Bits)
    requires |a| == |b|
    ensures |r| == |a| && forall i :: 0 <= i < |a| ==> (r[i] <==> a[i] || b[i])
  {
    seq(|a|, i requires 0 <= i < |a| => a[i] || b[i])
  }

  function Not(a: Bits): (r: Bits)
    ensures |r| == |a| && forall i :: 0 <= i < |a| ==> (r[i] <==> !a[i])
  {
    seq(|a|, i requires 0 <= i < |a| => !a[i])
  }

  /// A mask of no bits shifts by the full word width. That is undefined, except for
  /// words of up to 16 bits, which are promoted to `int` first.
  predicate MaskDefined(width: nat, nbits: nat) {
    nbits <= width && (nbits > 0 || width <= 16)
  }

  lemma NonEmptyMask(width: nat, nbits: nat)
    requires 0 < nbits <= width
    ensures MaskDefined(width, nbits)
  {
  }

  function BitMaskUnsafe(width: nat, nbits: nat): (r: Bits)
    requires MaskDefined(width, nbits)
    ensures |r| == width && forall i :: 0 <= i < width ==> (r[i] <==> i < nbits)
  {
    Shr(Ones(width), width - nbits)
  }

  function BitMask(width: nat, sb: nat, nbits: nat): (r: Bits)
    requires MaskDefined(width, nbits)
    ensures |r| == width && forall i :: 0 <= i < width ==> (r[i] <==> sb <= i < sb + nbits)
  {
    Shl(BitMaskUnsafe(width, nbits), sb)
  }

  function ExtractBits(w: Bits, sb: nat, nbits: nat): (r: Bits)
    requires MaskDefined(|w|, nbits)
    ensures |r| == |w|
  {
    And(Shr(w, sb), BitMask(|w|, 0, nbits))
  }

  /// Does not mask the inserted value, like the source.
  function InsertBits(w: Bits, v: Bits, sb: nat, nbits: nat): (r: Bits)
    requires MaskDefined(|w|, nbits) && |v| == |w|
    ensures |r| == |w|
  {
    var cleared := And(w, Not(BitMask(|w|, sb, nbits)));
    Or(cleared, Shl(v, sb))
  }

  // ----- what extract and insert do -----

  /// Extraction takes the field and pads it with zeros.
  lemma ExtractIsSlice(w: Bits, sb: nat, nbits: nat)
    requires MaskDefined(|w|, nbits) && sb + nbits <= |w|
    ensures ExtractBits(w, sb, nbits) == w[sb..sb + nbits] + Zeros(|w| - nbits)
  {
  }

  /// A value that fits the field replaces exactly the field.
  lemma InsertReplaces(w: Bits, f: Bits, sb: nat)
    requires MaskDefined(|w|, |f|) && sb + |f| <= |w|
    ensures InsertBits(w, f + Zeros(|w| - |f|), sb, |f|) == w[..sb] + f + w[sb + |f|..]
  {
  }

  /// A negative value also sets every higher bit of the word.
  lemma InsertNegative(w: Bits, f: Bits, sb: nat)
    requires 0 < |f| && sb + |f| <= |w|
    ensures InsertBits(w, f + Ones(|w| - |f|), sb, |f|) == w[..sb] + f + Ones(|w| - sb - |f|)
  {
  }

  lemma InsertBitsAt(w: Bits, v: Bits, sb: nat, nbits: nat)
    requires MaskDefined(|w|, nbits) && sb + nbits <= |w| == |v|
    ensures var r := InsertBits(w, v, sb, nbits);
            forall i :: 0 <= i < |w| ==>
              (r[i] <==> if i < sb then w[i] else if i < sb + nbits then v[i - sb] else w[i] || v[i - sb])
  {
  }

  /// For any value at all: the lower bits stay, the field is the value's low bits,
  /// and the higher bits stay exactly when the value's bits beyond the field are
  /// already set there.
  lemma InsertKeepsHigherIff(w: Bits, v: Bits, sb: nat, nbits: nat)
    requires 0 < nbits && sb + nbits <= |w| == |v|
    ensures var r := InsertBits(w, v, sb, nbits);
            && r[..sb] == w[..sb] && r[sb..sb + nbits] == v[..nbits]
            && (r[sb + nbits..] == w[sb + nbits..] <==> forall i :: sb + nbits <= i < |w| && v[i - sb] ==> w[i])
  {
    hide InsertBits;
    InsertBitsAt(w, v, sb, nbits);
    SameTailIff(InsertBits(w, v, sb, nbits), w, sb + nbits);
  }

  lemma SameTailIff(a: Bits, b: Bits, from: nat)
    requires |a| == |b| && from <= |a|
    ensures a[from..] == b[from..] <==> forall i :: from <= i < |a| ==> a[i] == b[i]
  {
    assert forall i :: from <= i < |a| ==> a[from..][i - from] == a[i] && b[from..][i - from] == b[i];
  }

  // ----- sign extension -----

  /// `(val ^ msb) - msb` on a value whose bits above `nbits` are zero.
  function SignExtend(w: Bits, nbits: nat): int
    requires 0 < nbits <= |w|
  {
    ToNat(w[nbits - 1 := !w[nbits - 1]]) - Pow2(nbits - 1)
  }

  lemma FlippedSignBit(v: int, n: nat)
    requires 0 < n && 0 <= v + Pow2(n - 1) && v < Pow2(n - 1)
    ensures var b := FromInt(v, n);
            ToNat(b[n - 1 := !b[n - 1]]) - Pow2(n - 1) == v
  {
    var u: nat := if v >= 0 then v else v + Pow2(n);
    FromIntIsPeriodic(v, n);
    assert FromInt(v, n) == FromInt(u, n);
    ValueRoundTrip(u, n);
    TopBit(u, n);
    FlipTopBit(FromInt(u, n));
  }

  /// Sign extension inverts truncation to `n` bits.
  lemma SignExtendInverts(v: int, n: nat, width: nat)
    requires 0 < n <= width && 0 <= v + Pow2(n - 1) && v < Pow2(n - 1)
    ensures SignExtend(FromInt(v, n) + Zeros(width - n), n) == v
  {
    hide FromInt, ToNat, Pow2;
    var b, w := FromInt(v, n), FromInt(v, n) + Zeros(width - n);
    FlippedSignBit(v, n);
    assert w[n - 1 := !w[n - 1]] == b[n - 1 := !b[n - 1]] + Zeros(width - n);
    ToNatPadded(b[n - 1 := !b[n - 1]], width - n);
  }
}

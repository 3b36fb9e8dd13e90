/// Packed bit vectors: element `i` of `n` bits occupies bits `n*i .. n*(i+1)` of
/// the buffer, whatever word size the accesses use.
module BitVector {
  import opened BitWords
  import opened Machine

  /// Memory as words of `width` bits.
  ghost predicate IsMemory(words: seq<Bits>, width: nat) {
    forall i :: 0 <= i < |words| ==> |words[i]| == width
  }

  /// The buffer as one bit string.
  ghost function Flat(words: seq<Bits>): Bits {
    if words == [] then [] else words[0] + Flat(words[1..])
  }

  /// The number of bits in `k` words.
  function Offset(k: nat, width: nat): nat {
    k * width
  }

  lemma OffsetAdd(k: nat, c: nat, width: nat)
    ensures Offset(k + c, width) == Offset(k, width) + Offset(c, width)
    ensures Offset(0, width) == 0 && Offset(1, width) == width && Offset(2, width) == 2 * width
  {
  }

  lemma {:induction false} FlatLength(words: seq<Bits>, width: nat)
    requires IsMemory(words, width)
    ensures |Flat(words)| == Offset(|words|, width)
  {
    hide Offset;
    OffsetAdd(1, if words == [] then 0 else |words| - 1, width);
    if words != [] {
      FlatLength(words[1..], width);
    }
  }

  lemma {:induction false} FlatZeros(words: seq<Bits>, width: nat)
    requires forall i :: 0 <= i < |words| ==> words[i] == Zeros(width)
    ensures Flat(words) == Zeros(|Flat(words)|)
  {
    if words != [] {
      FlatZeros(words[1..], width);
    }
  }

  lemma {:induction false} FlatAppend(a: seq<Bits>, b: seq<Bits>)
    ensures Flat(a + b) == Flat(a) + Flat(b)
  {
    if a == [] {
      assert a + b == b;
    } else {
      assert (a + b)[1..] == a[1..] + b;
      FlatAppend(a[1..], b);
    }
  }

  lemma MiddlePart(a: Bits, b: Bits, c: Bits)
    ensures (a + b + c)[|a|..|a| + |b|] == b
  {
  }

  lemma MemoryPart(words: seq<Bits>, width: nat, lo: nat, hi: nat)
    requires IsMemory(words, width) && lo <= hi <= |words|
    ensures IsMemory(words[lo..hi], width)
  {
  }

  /// The `count` words from `at` on are a contiguous piece of the buffer.
  lemma FlatPiece(words: seq<Bits>, width: nat, at: nat, count: nat)
    requires IsMemory(words, width) && at + count <= |words|
    ensures var lo, hi := Offset(at, width), Offset(at + count, width);
            && lo <= hi <= |Flat(words)|
            && Flat(words)[lo..hi] == Flat(words[at..at + count])
            && |Flat(words[..at])| == lo && |Flat(words[at..at + count])| == hi - lo
  {
    var a, b, c := words[..at], words[at..at + count], words[at + count..];
    assert words == (a + b) + c;
    MemoryPart(words, width, 0, at);
    MemoryPart(words, width, at, at + count);
    hide Flat, IsMemory, Offset;
    FlatAppend(a + b, c);
    FlatAppend(a, b);
    FlatLength(a, width);
    FlatLength(b, width);
    OffsetAdd(at, count, width);
    MiddlePart(Flat(a), Flat(b), Flat(c));
  }

  lemma FlatOne(w: Bits)
    ensures Flat([w]) == w
  {
    assert [w][1..] == [];
  }

  lemma FlatTwo(a: Bits, b: Bits)
    ensures Flat([a, b]) == a + b
  {
    assert [a, b] == [a] + [b];
    FlatAppend([a], [b]);
    FlatOne(a);
    FlatOne(b);
  }

  lemma ReplacePiece(a: seq<Bits>, b: seq<Bits>, c: seq<Bits>, piece: seq<Bits>)
    ensures var flat, lo, hi := Flat(a + b + c), |Flat(a)|, |Flat(a)| + |Flat(b)|;
            && hi <= |flat| && Flat(a + piece + c) == flat[..lo] + Flat(piece) + flat[hi..]
  {
    FlatAppend(a + b, c);
    FlatAppend(a, b);
    FlatAppend(a + piece, c);
    FlatAppend(a, piece);
    hide Flat;
    OuterParts(Flat(a), Flat(b), Flat(c));
  }

  /// Replacing a piece of whole words replaces their bits.
  lemma ReplaceWords(a: seq<Bits>, b: seq<Bits>, c: seq<Bits>, piece: seq<Bits>, width: nat)
    requires IsMemory(a, width) && IsMemory(b, width)
    ensures var flat, lo, hi := Flat(a + b + c), Offset(|a|, width), Offset(|a| + |b|, width);
            && lo <= hi <= |flat| && Flat(a + piece + c) == flat[..lo] + Flat(piece) + flat[hi..]
  {
    hide Flat, IsMemory, Offset;
    FlatLength(a, width);
    FlatLength(b, width);
    OffsetAdd(|a|, |b|, width);
    ReplacePiece(a, b, c, piece);
  }

  lemma OuterParts(a: Bits, b: Bits, c: Bits)
    ensures (a + b + c)[..|a|] == a && (a + b + c)[|a| + |b|..] == c
  {
  }

  // ----- the packed layout -----

  /// The bits of element `i`.
  ghost function Field(flat: Bits, n: nat, i: nat): Bits
    requires n * i + n <= |flat|
  {
    flat[n * i..n * i + n]
  }

  /// The buffer with the bits at `at` replaced.
  ghost function ReplacedAt(flat: Bits, at: nat, f: Bits): Bits
    requires at + |f| <= |flat|
  {
    flat[..at] + f + flat[at + |f|..]
  }

  /// `after` is `before` with the low `n` bits of `x` at `at`, and the further bits of
  /// `x` or-ed into those behind, up to `end`.
  ghost predicate OredAt(before: Bits, after: Bits, at: nat, n: nat, x: Bits, end: nat)
    requires at + n <= end <= |before| && end - at <= |x|
  {
    && |after| == |before|
    && forall k :: 0 <= k < |before| ==>
         (after[k] <==>
          if at <= k < at + n then x[k - at] else before[k] || (at + n <= k < end && x[k - at]))
  }

  /// The bits of `x` are set already where `before` has them from `lo` to `hi`.
  ghost predicate Absorbs(before: Bits, at: nat, x: Bits, end: nat, lo: nat, hi: nat) {
    forall k: nat :: at <= k < end && lo <= k < hi && k < |before| && k - at < |x| && x[k - at] ==> before[k]
  }

  /// Without further bits the field is replaced.
  lemma OredIsReplaced(before: Bits, after: Bits, at: nat, f: Bits, x: Bits, end: nat)
    requires at + |f| <= end <= |before| && end - at <= |x| && OredAt(before, after, at, |f|, x, end)
    requires x == f + Zeros(|x| - |f|)
    ensures after == ReplacedAt(before, at, f)
  {
  }

  /// The buffer with element `i` replaced.
  ghost function WithField(flat: Bits, n: nat, i: nat, f: Bits): Bits
    requires n * i + n <= |flat| && |f| == n
  {
    ReplacedAt(flat, n * i, f)
  }

  lemma {:induction false} ElementsApart(n: nat, i: nat, j: nat)
    requires i < j
    ensures n * i + n <= n * j
    decreases j
  {
    assert n * j == n * (j - 1) + n;
    if i < j - 1 {
      ElementsApart(n, i, j - 1);
    }
  }

  /// Reading after writing: the written element, and every other one unchanged.
  lemma ReadOverWrite(flat: Bits, n: nat, i: nat, j: nat, f: Bits)
    requires n * i + n <= |flat| && n * j + n <= |flat| && |f| == n
    ensures Field(WithField(flat, n, i, f), n, j) == if i == j then f else Field(flat, n, j)
  {
    if i < j {
      ElementsApart(n, i, j);
    } else if j < i {
      ElementsApart(n, j, i);
    }
  }

  lemma Pow2Doubles(n: nat)
    requires n > 0
    ensures Pow2(n) == 2 * Pow2(n - 1)
  {
  }

  lemma PairUpdate(words: seq<Bits>, w: nat, a: Bits, b: Bits)
    requires w + 1 < |words|
    ensures words[w := a][w + 1 := b] == words[..w] + [a, b] + words[w + 2..]
  {
  }

  lemma StoreDword(words: seq<Bits>, words': seq<Bits>, width: nat, w: nat, d: Bits)
    requires IsMemory(words, width) && w + 1 < |words| && |d| == 2 * width
    requires words' == words[w := d[..width]][w + 1 := d[width..]]
    ensures IsMemory(words', width)
    ensures Offset(w, width) <= Offset(w + 2, width) <= |Flat(words)|
    ensures Flat(words') == Flat(words)[..Offset(w, width)] + d + Flat(words)[Offset(w + 2, width)..]
  {
    hide Flat, Offset;
    var a, b, c := words[..w], [words[w], words[w + 1]], words[w + 2..];
    PairUpdate(words, w, d[..width], d[width..]);
    PairUpdate(words, w, words[w], words[w + 1]);
    assert words[w := words[w]][w + 1 := words[w + 1]] == words;
    MemoryPart(words, width, 0, w);
    ReplaceWords(a, b, c, [d[..width], d[width..]], width);
    FlatTwo(d[..width], d[width..]);
    assert d[..width] + d[width..] == d;
  }

  lemma DwordPlace(words: seq<Bits>, width: nat, w: nat)
    requires IsMemory(words, width) && w + 1 < |words|
    ensures var flat, lo, end, d := Flat(words), Offset(w, width), Offset(w + 2, width), words[w] + words[w + 1];
            && lo + 2 * width == end <= |flat| && flat[lo..end] == d && |d| == 2 * width
  {
    hide Flat, Offset;
    FlatPiece(words, width, w, 2);
    assert words[w..w + 2] == [words[w], words[w + 1]];
    FlatTwo(words[w], words[w + 1]);
    OffsetAdd(w, 2, width);
  }

  /// A part of the buffer changed by or-ing a value in, seen in the whole buffer.
  lemma SplicedOr(flat: Bits, flat': Bits, lo: nat, end: nat, at: nat, d: Bits, r: Bits, b: nat, n: nat, x: Bits)
    requires lo <= end <= |flat| && flat[lo..end] == d && at == lo + b
    requires b + n <= |d| && |d| - b <= |x| && OredAt(d, r, b, n, x, |d|)
    requires flat' == flat[..lo] + r + flat[end..]
    ensures at + n <= end && OredAt(flat, flat', at, n, x, end)
  {
    assert forall k :: lo <= k < end ==> flat[k] == d[k - lo];
  }

  lemma InsertIsOr(d: Bits, x: Bits, b: nat, n: nat)
    requires 0 < n && b + n <= |d| == |x|
    ensures OredAt(d, InsertBits(d, x, b, n), b, n, x, |d|)
  {
    hide InsertBits;
    InsertBitsAt(d, x, b, n);
  }

  /// The whole effect of a double-word store.
  lemma StoreEffect(words: seq<Bits>, words': seq<Bits>, width: nat, w: nat, lo: nat, end: nat, b: nat,
      d: Bits, x: Bits, n: nat)
    requires IsMemory(words, width) && w + 1 < |words| && 0 < n < width && b < width
    requires lo == Offset(w, width) && end == Offset(w + 2, width) && d == words[w] + words[w + 1] && |x| == 2 * width
    requires var r := InsertBits(d, x, b, n);
             words' == words[w := r[..width]][w + 1 := r[width..]]
    ensures IsMemory(words', width) && lo + b + n <= end <= |Flat(words)| && end == lo + 2 * width
    ensures OredAt(Flat(words), Flat(words'), lo + b, n, x, end)
  {
    hide *;
    DwordPlace(words, width, w);
    NonEmptyMask(|d|, n);
    StoreDword(words, words', width, w, InsertBits(d, x, b, n));
    InsertIsOr(d, x, b, n);
    SplicedOr(Flat(words), Flat(words'), lo, end, lo + b, d, InsertBits(d, x, b, n), b, n, x);
  }

  predicate IsWordWidth(width: nat) {
    width == 8 || width == 16 || width == 32 || width == 64
  }

  predicate InRange(v: int, n: nat, signed: bool)
    requires n > 0
  {
    if signed then 0 <= v + Pow2(n - 1) && v < Pow2(n - 1) else 0 <= v < Pow2(n)
  }

  /// The value an element's bits stand for, in a word of `width` bits.
  function ValueOf(f: Bits, width: nat, signed: bool): int
    requires 0 < |f| <= width
  {
    var w := f + Zeros(width - |f|);
    if signed then SignExtend(w, |f|) else ToNat(w)
  }

  lemma ValueOfEncoded(v: int, n: nat, width: nat, signed: bool)
    requires 0 < n <= width && InRange(v, n, signed)
    ensures ValueOf(FromInt(v, n), width, signed) == v
  {
    if signed {
      SignExtendInverts(v, n, width);
    } else {
      ValueRoundTrip(v, n);
      ToNatPadded(FromInt(v, n), width - n);
    }
  }

  /// What `n` bits keep of a value: the one in range that differs from it by a
  /// multiple of `2^n`.
  function Wrapped(v: int, n: nat, signed: bool): int
    requires n > 0
  {
    if signed && v % Pow2(n) >= Pow2(n - 1) then v % Pow2(n) - Pow2(n) else v % Pow2(n)
  }

  lemma WrappedInRange(v: int, n: nat, signed: bool)
    requires n > 0
    ensures InRange(Wrapped(v, n, signed), n, signed)
    ensures InRange(v, n, signed) ==> Wrapped(v, n, signed) == v
  {
    Pow2Doubles(n);
    if InRange(v, n, signed) {
      SmallRemainder(v, Pow2(n));
    }
  }

  lemma SmallRemainder(v: int, p: nat)
    requires 0 <= v + p && v < p
    ensures p > 0 && v % p == if v < 0 then v + p else v
  {
  }

  /// The low bits of any value stand for the wrapped value.
  lemma ValueOfWrapped(v: int, n: nat, width: nat, signed: bool)
    requires 0 < n <= width
    ensures ValueOf(FromInt(v, n), width, signed) == Wrapped(v, n, signed)
  {
    hide FromInt, Pow2, ValueOf;
    WrappedInRange(v, n, signed);
    ValueOfEncoded(Wrapped(v, n, signed), n, width, signed);
    FromIntRemainder(v, n);
    FromIntIsPeriodic(v % Pow2(n) - Pow2(n), n);
  }

  /// Different bits stand for different values.
  lemma ValueOfInjective(a: Bits, b: Bits, width: nat, signed: bool)
    requires 0 < |a| == |b| <= width && ValueOf(a, width, signed) == ValueOf(b, width, signed)
    ensures a == b
  {
    var n, u, w := |a|, a + Zeros(width - |a|), b + Zeros(width - |b|);
    if signed {
      var u', w' := u[n - 1 := !u[n - 1]], w[n - 1 := !w[n - 1]];
      ToNatInjective(u', w');
      assert u == u'[n - 1 := !u'[n - 1]] && w == w'[n - 1 := !w'[n - 1]];
    } else {
      ToNatInjective(u, w);
    }
    assert a == u[..n] && b == w[..n];
  }

  /// The value of element `i`, for the elements the bit string holds.
  ghost function ElementAt(flat: Bits, n: nat, width: nat, signed: bool, i: nat): int
    requires 0 < n <= width
  {
    if n * i + n <= |flat| then ValueOf(Field(flat, n, i), width, signed) else 0
  }

  /// The elements that a packed bit string stands for.
  ghost function Decoded(flat: Bits, n: nat, width: nat, signed: bool, size: nat): (r: seq<int>)
    requires 0 < n <= width
    ensures |r| == size && forall i: nat :: i < size ==> r[i] == ElementAt(flat, n, width, signed, i)
  {
    seq(size, i requires 0 <= i < size => ElementAt(flat, n, width, signed, i))
  }

  lemma ElementsFit(n: nat, i: nat, size: nat)
    requires i < size
    ensures n * i + n <= n * size
  {
    ElementsApart(n, i, size);
  }

  /// Replacing one element's bits updates one element.
  lemma DecodedReplaced(flat: Bits, n: nat, width: nat, signed: bool, size: nat, i: nat, v: int)
    requires 0 < n <= width && n * size <= |flat| && i < size && InRange(v, n, signed)
    ensures n * i + n <= |flat|
    ensures Decoded(ReplacedAt(flat, n * i, FromInt(v, n)), n, width, signed, size)
            == Decoded(flat, n, width, signed, size)[i := v]
  {
    ElementsFit(n, i, size);
    var flat' := ReplacedAt(flat, n * i, FromInt(v, n));
    var r, r' := Decoded(flat, n, width, signed, size), Decoded(flat', n, width, signed, size);
    ValueOfEncoded(v, n, width, signed);
    hide ValueOf, FromInt, ReplacedAt, Field, InRange, Decoded;
    forall j: nat | j < size ensures r'[j] == r[i := v][j] {
      ElementsFit(n, j, size);
      ReadOverWrite(flat, n, i, j, FromInt(v, n));
    }
  }

  lemma OredFieldBefore(before: Bits, after: Bits, n: nat, i: nat, j: nat, x: Bits, end: nat)
    requires n * i + n <= end <= |before| && end - n * i <= |x| && n * j + n <= |before| && j < i
    requires OredAt(before, after, n * i, n, x, end)
    ensures |after| == |before| && Field(after, n, j) == Field(before, n, j)
  {
    hide *;
    var at, to := n * i, n * j;
    OredLength(before, after, at, n, x, end);
    FieldIs(before, n, j, to);
    FieldIs(after, n, j, to);
    ElementsApart(n, j, i);
    OredBefore(before, after, at, n, x, end, to, to + n);
  }

  lemma OredFieldHere(before: Bits, after: Bits, n: nat, i: nat, x: Bits, end: nat)
    requires n * i + n <= end <= |before| && end - n * i <= |x| && OredAt(before, after, n * i, n, x, end)
    ensures |after| == |before| && Field(after, n, i) == x[..n]
  {
    hide *;
    var at := n * i;
    OredLength(before, after, at, n, x, end);
    FieldIs(after, n, i, at);
    OredHere(before, after, at, n, x, end);
  }

  lemma OredFieldAfter(before: Bits, after: Bits, n: nat, i: nat, j: nat, x: Bits, end: nat)
    requires n * i + n <= end <= |before| && end - n * i <= |x| && n * j + n <= |before| && i < j
    requires OredAt(before, after, n * i, n, x, end)
    ensures |after| == |before|
    ensures Field(after, n, j) == Field(before, n, j) <==> Absorbs(before, n * i, x, end, n * j, n * j + n)
  {
    hide *;
    var at, to := n * i, n * j;
    OredLength(before, after, at, n, x, end);
    FieldIs(before, n, j, to);
    FieldIs(after, n, j, to);
    ElementsApart(n, i, j);
    OredSliceIff(before, after, at, n, x, end, to, to + n);
  }

  lemma FieldIs(flat: Bits, n: nat, j: nat, at: nat)
    requires at == n * j && at + n <= |flat|
    ensures Field(flat, n, j) == flat[at..at + n]
  {
  }

  lemma OredLength(before: Bits, after: Bits, at: nat, n: nat, x: Bits, end: nat)
    requires at + n <= end <= |before| && end - at <= |x| && OredAt(before, after, at, n, x, end)
    ensures |after| == |before|
  {
  }

  lemma OredBefore(before: Bits, after: Bits, at: nat, n: nat, x: Bits, end: nat, lo: nat, hi: nat)
    requires at + n <= end <= |before| && end - at <= |x| && OredAt(before, after, at, n, x, end)
    requires lo <= hi <= at
    ensures after[lo..hi] == before[lo..hi]
  {
  }

  /// The bits that or-ing the `width` low bits of a value in leaves, in terms of its
  /// binary digits.
  lemma OredBinary(before: Bits, after: Bits, at: nat, n: nat, v: int, width: nat, x: Bits, end: nat, p: nat)
    requires n <= width && at + n <= end <= |before| && end - at <= |x|
    requires FromInt(v, width) <= x && OredAt(before, after, at, n, x, end)
    requires at <= p < at + width && p < end
    ensures after[p] == (Binary(v, p - at) || (p >= at + n && before[p]))
  {
    BitIsDigit(v, width, p - at);
    assert x[p - at] == FromInt(v, width)[p - at];
    hide FromInt, Binary;
  }

  lemma OredHere(before: Bits, after: Bits, at: nat, n: nat, x: Bits, end: nat)
    requires at + n <= end <= |before| && end - at <= |x| && OredAt(before, after, at, n, x, end)
    ensures after[at..at + n] == x[..n]
  {
  }

  lemma OredSliceIff(before: Bits, after: Bits, at: nat, n: nat, x: Bits, end: nat, lo: nat, hi: nat)
    requires at + n <= end <= |before| && end - at <= |x| && OredAt(before, after, at, n, x, end)
    requires at + n <= lo <= hi <= |before|
    ensures after[lo..hi] == before[lo..hi] <==> Absorbs(before, at, x, end, lo, hi)
  {
    SameSliceIff(after, before, lo, hi);
  }

  lemma OredElement(before: Bits, after: Bits, n: nat, width: nat, signed: bool, i: nat, j: nat, x: Bits, end: nat)
    requires 0 < n < width && n * i + n <= end <= |before| && end - n * i <= |x| && n * j + n <= |before|
    requires OredAt(before, after, n * i, n, x, end)
    ensures var old', new' := ElementAt(before, n, width, signed, j), ElementAt(after, n, width, signed, j);
            && (j < i ==> new' == old')
            && (j == i ==> new' == ValueOf(x[..n], width, signed))
            && (j > i ==> (new' == old' <==> Absorbs(before, n * i, x, end, n * j, n * j + n)))
  {
    hide *;
    if j < i {
      OredFieldBefore(before, after, n, i, j, x, end);
    } else if j == i {
      OredFieldHere(before, after, n, i, x, end);
    } else {
      OredFieldAfter(before, after, n, i, j, x, end);
    }
    ElementIs(before, n, width, signed, j);
    ElementIs(after, n, width, signed, j);
    if ValueOf(Field(after, n, j), width, signed) == ValueOf(Field(before, n, j), width, signed) {
      ValueOfInjective(Field(after, n, j), Field(before, n, j), width, signed);
    }
  }

  lemma ElementIs(flat: Bits, n: nat, width: nat, signed: bool, i: nat)
    requires 0 < n <= width && n * i + n <= |flat|
    ensures |Field(flat, n, i)| == n
    ensures ElementAt(flat, n, width, signed, i) == ValueOf(Field(flat, n, i), width, signed)
  {
    hide ValueOf;
  }

  /// What or-ing a value in at element `i` does to the list of elements.
  lemma OredElements(before: Bits, after: Bits, n: nat, width: nat, signed: bool, size: nat, i: nat, x: Bits, end: nat)
    requires 0 < n < width && n * size <= |before| && i < size
    requires n * i + n <= end <= |before| && end - n * i <= |x| && OredAt(before, after, n * i, n, x, end)
    ensures var old', new' := Decoded(before, n, width, signed, size), Decoded(after, n, width, signed, size);
            && new'[..i + 1] == old'[..i] + [ValueOf(x[..n], width, signed)]
            && forall j: nat :: i < j < size ==>
                 (new'[j] == old'[j] <==> Absorbs(before, n * i, x, end, n * j, n * j + n))
  {
    hide ValueOf, Decoded, OredAt, Absorbs, ElementAt;
    var old', new' := Decoded(before, n, width, signed, size), Decoded(after, n, width, signed, size);
    forall j: nat | j < size
      ensures j < i ==> new'[j] == old'[j]
      ensures j == i ==> new'[j] == ValueOf(x[..n], width, signed)
      ensures j > i ==> (new'[j] == old'[j] <==> Absorbs(before, n * i, x, end, n * j, n * j + n))
    {
      ElementsFit(n, j, size);
      OredElement(before, after, n, width, signed, i, j, x, end);
    }
  }

  /// The buffer is padded to whole blocks of 16 bytes.
  function WordsPerBlock(width: nat): nat
    requires IsWordWidth(width)
  {
    if width == 8 then 16 else if width == 16 then 8 else if width == 32 then 4 else 2
  }

  function PaddedWords(bits: nat, width: nat): nat
    requires IsWordWidth(width)
  {
    (bits / 8 + 15) / 16 * WordsPerBlock(width)
  }

  lemma OffsetLiterals(q: nat)
    ensures Offset(q, 8) == 8 * q && Offset(q, 16) == 16 * q && Offset(q, 32) == 32 * q && Offset(q, 64) == 64 * q
  {
  }

  lemma BlockBits(blocks: nat, width: nat)
    requires IsWordWidth(width)
    ensures Offset(blocks * WordsPerBlock(width), width) == 128 * blocks
  {
    hide Offset;
    OffsetLiterals(blocks * 16);
    OffsetLiterals(blocks * 8);
    OffsetLiterals(blocks * 4);
    OffsetLiterals(blocks * 2);
  }

  /// The buffer holds `q` whole words when that many bits are asked for.
  lemma PaddedWordsSuffice(q: nat, width: nat)
    requires IsWordWidth(width)
    ensures PaddedWords(Offset(q, width), width) >= q
  {
    var bits := Offset(q, width);
    var blocks := (bits / 8 + 15) / 16;
    var k := blocks * WordsPerBlock(width);
    hide Offset, WordsPerBlock;
    BlockBits(blocks, width);
    assert 128 * blocks + 7 >= bits;
    if k < q {
      OffsetAdd(k, q - k, width);
      OffsetAdd(1, 0, width);
      OffsetMonotone(1, q - k, width);
    }
  }

  lemma WordPairs(q: nat, width: nat)
    ensures q * (2 * width) == Offset(2 * q, width)
  {
  }

  /// The double-word buffer: rounding up to pairs of words loses nothing.
  lemma PairedBuffer(x: nat, width: nat)
    requires IsWordWidth(width)
    ensures var bits := (x + 2 * width - 1) / (2 * width) * (2 * width);
            x <= bits <= Offset(PaddedWords(bits, width), width)
  {
    var q := (x + 2 * width - 1) / (2 * width);
    RoundedUp(x, 2 * width);
    WordPairs(q, width);
    hide Offset, PaddedWords;
    PaddedWordsSuffice(2 * q, width);
    OffsetMonotone(2 * q, PaddedWords(Offset(2 * q, width), width), width);
  }

  /// The single-word buffer.
  lemma SingleBuffer(x: nat, width: nat)
    requires IsWordWidth(width)
    ensures var bits := (x + width - 1) / width * width;
            x <= bits <= Offset(PaddedWords(bits, width), width)
  {
    var q := (x + width - 1) / width;
    RoundedUp(x, width);
    assert q * width == Offset(q, width);
    hide Offset, PaddedWords;
    PaddedWordsSuffice(q, width);
    OffsetMonotone(q, PaddedWords(Offset(q, width), width), width);
  }

  /// `total` is the least number of bits in whole blocks of 16 bytes that holds `bits`.
  ghost predicate LeastBlocks(bits: nat, total: nat) {
    total % 128 == 0 && bits <= total < bits + 128
  }

  lemma PairedBlocks(x: nat, w: nat)
    requires w == 16 || w == 32 || w == 64 || w == 128
    ensures LeastBlocks(x, 128 * (((x + w - 1) / w * w / 8 + 15) / 16))
  {
    if w == 16 {
      BlocksOf16(x);
    } else if w == 32 {
      BlocksOf32(x);
    } else if w == 64 {
      BlocksOf64(x);
    } else {
      BlocksOf128(x);
    }
  }

  lemma BlocksOf8(x: nat)
    ensures LeastBlocks(x, 128 * (((x + 7) / 8 * 8 / 8 + 15) / 16))
  {
    var q := (x + 7) / 8;
    assert x <= 8 * q < x + 8;
    assert q * 8 / 8 == q;
    var b := (q + 15) / 16;
    assert q <= 16 * b && 16 * (b - 1) < q + (if q == 0 then 1 else 0);
  }

  lemma BlocksOf16(x: nat)
    ensures LeastBlocks(x, 128 * (((x + 15) / 16 * 16 / 8 + 15) / 16))
  {
    var q := (x + 15) / 16;
    assert x <= 16 * q < x + 16;
    assert q * 16 / 8 == 2 * q;
    var b := (2 * q + 15) / 16;
    assert q <= 8 * b && 8 * (b - 1) < q + (if q == 0 then 1 else 0);
  }

  lemma BlocksOf32(x: nat)
    ensures LeastBlocks(x, 128 * (((x + 31) / 32 * 32 / 8 + 15) / 16))
  {
    var q := (x + 31) / 32;
    assert x <= 32 * q < x + 32;
    assert q * 32 / 8 == 4 * q;
    var b := (4 * q + 15) / 16;
    assert q <= 4 * b && 4 * (b - 1) < q + (if q == 0 then 1 else 0);
  }

  lemma BlocksOf64(x: nat)
    ensures LeastBlocks(x, 128 * (((x + 63) / 64 * 64 / 8 + 15) / 16))
  {
    var q := (x + 63) / 64;
    assert x <= 64 * q < x + 64;
    assert q * 64 / 8 == 8 * q;
    var b := (8 * q + 15) / 16;
    assert q <= 2 * b && 2 * (b - 1) < q + (if q == 0 then 1 else 0);
  }

  lemma BlocksOf128(x: nat)
    ensures LeastBlocks(x, 128 * (((x + 127) / 128 * 128 / 8 + 15) / 16))
  {
    var q := (x + 127) / 128;
    assert x <= 128 * q < x + 128;
    assert q * 128 / 8 == 16 * q;
    var b := (16 * q + 15) / 16;
    assert q <= b && b - 1 < q + (if q == 0 then 1 else 0);
  }

  lemma PaddedSize(bits: nat, width: nat)
    requires IsWordWidth(width)
    ensures Offset(PaddedWords(bits, width), width) == 128 * ((bits / 8 + 15) / 16)
  {
    hide Offset, WordsPerBlock;
    BlockBits((bits / 8 + 15) / 16, width);
  }

  lemma OffsetBelow(a: nat, b: nat, width: nat)
    requires Offset(a, width) < Offset(b, width)
    ensures a < b
  {
    if a >= b {
      OffsetAdd(b, a - b, width);
    }
  }

  lemma OffsetMonotone(a: nat, b: nat, width: nat)
    requires a <= b
    ensures Offset(a, width) <= Offset(b, width)
  {
    OffsetAdd(a, b - a, width);
  }

  // ----- the double-word variant -----

  class DoubleWordVector {
    const nbits: nat
    const width: nat
    /// The source computes the sign bit in an `int`, so signed elements have fewer
    /// than 32 bits.
    const signed: bool
    const size: nat
    var words: seq<Bits>

    static function BufferBits(nbits: nat, width: nat, size: nat): nat
      requires IsWordWidth(width)
    {
      (nbits * size + width + 2 * width - 1) / (2 * width) * (2 * width)
    }

    ghost predicate Valid()
      reads this
    {
      && IsWordWidth(width) && 0 < nbits < width && (signed ==> nbits < 32)
      && IsMemory(words, width)
      && |words| == PaddedWords(BufferBits(nbits, width, size), width)
    }

    constructor (nbits: nat, width: nat, signed: bool, size: nat)
      requires IsWordWidth(width) && 0 < nbits < width && (signed ==> nbits < 32)
      ensures Valid()
      ensures this.nbits == nbits && this.width == width && this.signed == signed && this.size == size
      ensures Flat(words) == Zeros(|Flat(words)|) && LeastBlocks(nbits * size + width, |Flat(words)|)
    {
      this.nbits, this.width, this.signed, this.size := nbits, width, signed, size;
      words := seq(PaddedWords(BufferBits(nbits, width, size), width), _ => Zeros(width));
      new;
      hide *;
      FlatZeros(words, width);
      FlatLength(words, width);
      BufferIsLeast(nbits, width, size);
    }

    static lemma BufferIsLeast(nbits: nat, width: nat, size: nat)
      requires IsWordWidth(width)
      ensures LeastBlocks(nbits * size + width, Offset(PaddedWords(BufferBits(nbits, width, size), width), width))
    {
      hide LeastBlocks, PaddedWords, Offset;
      PaddedSize(BufferBits(nbits, width, size), width);
      PairedBlocks(nbits * size + width, 2 * width);
    }

    function BitIdx(i: nat): nat {
      nbits * i
    }

    function WordIdx(i: nat): nat
      requires width > 0
    {
      BitIdx(i) / width
    }

    function InnerBitIdx(i: nat): (r: nat)
      requires width > 0
      ensures r < width && Offset(WordIdx(i), width) + r == BitIdx(i)
    {
      BitIdx(i) - WordIdx(i) * width
    }

    /// The end of the double word that an access to element `i` covers.
    function DwordEnd(i: nat): nat
      requires width > 0
    {
      Offset(WordIdx(i) + 2, width)
    }

    /// The buffer has room for all elements and one more word.
    lemma BufferHoldsElements()
      requires Valid()
      ensures BitIdx(size) + width <= Offset(|words|, width) == |Flat(words)|
    {
      FlatLength(words, width);
      hide Flat, PaddedWords, IsMemory, Offset;
      PairedBuffer(nbits * size + width, width);
    }

    lemma ElementBeforeEnd(i: nat)
      requires i < size
      ensures BitIdx(i) + nbits <= BitIdx(size)
    {
      ElementsApart(nbits, i, size);
    }

    /// Both words of every access are in the buffer.
    lemma AccessInBounds(i: nat)
      requires Valid() && i < size
      ensures WordIdx(i) + 1 < |words|
    {
      hide Flat, BufferBits, PaddedWords, IsMemory, Offset, BitIdx, WordIdx;
      BufferHoldsElements();
      ElementBeforeEnd(i);
      assert Offset(WordIdx(i), width) + InnerBitIdx(i) == BitIdx(i);
      OffsetAdd(WordIdx(i), 1, width);
      OffsetBelow(WordIdx(i) + 1, |words|, width);
    }

    function Get(i: nat): int
      requires Valid() && i < size
      reads this
    {
      AccessInBounds(i);
      var dword := words[WordIdx(i)] + words[WordIdx(i) + 1];
      var extracted := ExtractBits(dword, InnerBitIdx(i), nbits)[..width];
      if signed then SignExtend(extracted, nbits) else ToNat(extracted)
    }

    /// The value converted to a word, then widened to a double word.
    function Widened(v: int): (r: Bits)
      requires width > 0
      ensures |r| == 2 * width
    {
      var t := FromInt(v, width);
      t + if signed && t[width - 1] then Ones(width) else Zeros(width)
    }

    /// Element `i` lies inside the buffer and inside its double word.
    lemma ElementInBuffer(i: nat)
      requires Valid() && i < size
      ensures WordIdx(i) + 1 < |words| && |words[WordIdx(i)]| == |words[WordIdx(i) + 1]| == width
      ensures BitIdx(i) + nbits <= DwordEnd(i) <= |Flat(words)|
    {
      hide Flat, BitIdx, WordIdx, Offset, BufferBits, PaddedWords;
      AccessInBounds(i);
      OffsetAdd(WordIdx(i), 2, width);
      assert Offset(WordIdx(i), width) + InnerBitIdx(i) == BitIdx(i);
      DwordPlace(words, width, WordIdx(i));
    }

    /// The elements as a list of integers.
    ghost function Elements(): (r: seq<int>)
      requires Valid()
      reads this
      ensures |r| == size
    {
      Decoded(Flat(words), nbits, width, signed, size)
    }

    /// The value's low bits replace the element's, and its further bits, copies of the
    /// sign among them, are or-ed into the rest of the double word.
    ghost predicate Stored(before: Bits, after: Bits, i: nat, v: int)
      requires width > 0 && BitIdx(i) + nbits <= DwordEnd(i) <= |before|
    {
      && DwordEnd(i) - BitIdx(i) <= 2 * width
      && OredAt(before, after, BitIdx(i), nbits, Widened(v), DwordEnd(i))
    }

    /// The words after `set`, as the source computes them.
    ghost predicate IsUpdated(words': seq<Bits>, i: nat, v: int)
      requires Valid() && i < size
      reads this
    {
      AccessInBounds(i);
      var w := WordIdx(i);
      var r := InsertBits(words[w] + words[w + 1], Widened(v), InnerBitIdx(i), nbits);
      words' == words[w := r[..width]][w + 1 := r[width..]]
    }

    lemma UpdateFacts(words': seq<Bits>, i: nat, v: int)
      requires Valid() && i < size && IsUpdated(words', i, v)
      ensures IsWordWidth(width) && 0 < nbits < width && IsMemory(words, width) && WordIdx(i) + 1 < |words|
      ensures var w, b := WordIdx(i), InnerBitIdx(i);
              && |words[w]| == |words[w + 1]| == width && MaskDefined(2 * width, nbits) && b + nbits <= 2 * width
              && DwordEnd(i) == Offset(w + 2, width) && Offset(w, width) + b == BitIdx(i)
              && (var r := InsertBits(words[w] + words[w + 1], Widened(v), b, nbits);
                  words' == words[w := r[..width]][w + 1 := r[width..]])
    {
      hide Flat, Offset, BitIdx, WordIdx, InnerBitIdx, BufferBits, PaddedWords, InsertBits, Widened, FromInt, InRange;
      AccessInBounds(i);
    }

    lemma UpdateIsStore(words': seq<Bits>, i: nat, v: int)
      requires Valid() && i < size && IsUpdated(words', i, v)
      ensures IsMemory(words', width) && |words'| == |words|
      ensures BitIdx(i) + nbits <= DwordEnd(i) <= |Flat(words)| && Stored(Flat(words), Flat(words'), i, v)
    {
      hide *;
      UpdateFacts(words', i, v);
      var w, d, b := WordIdx(i), words[WordIdx(i)] + words[WordIdx(i) + 1], InnerBitIdx(i);
      StoreEffect(words, words', width, w, Offset(w, width), DwordEnd(i), b, d, Widened(v), nbits);
      StoredFrom(Flat(words), Flat(words'), i, v);
    }

    lemma StoredFrom(before: Bits, after: Bits, i: nat, v: int)
      requires width > 0 && BitIdx(i) + nbits <= DwordEnd(i) <= |before| && DwordEnd(i) - BitIdx(i) <= 2 * width
      requires OredAt(before, after, BitIdx(i), nbits, Widened(v), DwordEnd(i))
      ensures Stored(before, after, i, v)
    {
    }

    /// Bit `p` of the buffer after a store, in terms of the binary digits of the value:
    /// they replace the field, and beyond it are or-ed in as far as the word's width.
    lemma StoredBits(before: Bits, after: Bits, i: nat, v: int, p: nat)
      requires IsWordWidth(width) && 0 < nbits < width && BitIdx(i) + nbits <= DwordEnd(i) <= |before|
      requires Stored(before, after, i, v) && BitIdx(i) <= p < BitIdx(i) + width && p < DwordEnd(i)
      ensures |after| == |before|
      ensures after[p] == (Binary(v, p - BitIdx(i)) || (p >= BitIdx(i) + nbits && before[p]))
    {
      hide FromInt, Binary, DwordEnd, BitIdx;
      OredBinary(before, after, BitIdx(i), nbits, v, width, Widened(v), DwordEnd(i), p);
    }

    /// Further on, as far as the double word goes, the sign of a signed word is or-ed in.
    lemma StoredSign(before: Bits, after: Bits, i: nat, v: int, p: nat)
      requires IsWordWidth(width) && 0 < nbits < width && BitIdx(i) + nbits <= DwordEnd(i) <= |before|
      requires Stored(before, after, i, v) && BitIdx(i) + width <= p < DwordEnd(i)
      ensures |after| == |before|
      ensures after[p] == (before[p] || (signed && Binary(v, width - 1)))
    {
      hide FromInt, Binary, DwordEnd, BitIdx;
      BitIsDigit(v, width, width - 1);
      var x := Widened(v);
      assert x[p - BitIdx(i)] == (signed && FromInt(v, width)[width - 1]);
    }

    /// The value's bits beyond the field are set already where element `j` has bits in
    /// the double word of element `i`.
    ghost predicate KeepsLater(before: Bits, i: nat, j: nat, v: int)
      requires width > 0
    {
      Absorbs(before, BitIdx(i), Widened(v), DwordEnd(i), BitIdx(j), BitIdx(j) + nbits)
    }

    /// For any value: the elements before `i` stay, element `i` becomes what the field
    /// keeps of the value, and a later element stays exactly when the value's further
    /// bits are set in it already.
    lemma StoreOnElements(before: Bits, after: Bits, i: nat, v: int)
      requires 0 < nbits < width && i < size && nbits * size <= |before|
      requires BitIdx(i) + nbits <= DwordEnd(i) <= |before| && Stored(before, after, i, v)
      ensures var old', new' := Decoded(before, nbits, width, signed, size), Decoded(after, nbits, width, signed, size);
              && new'[..i + 1] == old'[..i] + [Wrapped(v, nbits, signed)]
              && forall j: nat :: i < j < size ==> (new'[j] == old'[j] <==> KeepsLater(before, i, j, v))
    {
      hide Decoded, FromInt, OredAt, ValueOf, Wrapped, Absorbs, DwordEnd;
      OredElements(before, after, nbits, width, signed, size, i, Widened(v), DwordEnd(i));
      FromIntPrefix(v, nbits, width);
      assert Widened(v)[..nbits] == FromInt(v, width)[..nbits];
      ValueOfWrapped(v, nbits, width, signed);
    }

    /// A value in range that is not negative updates one element of the list.
    lemma PlainStore(before: Bits, after: Bits, i: nat, v: int)
      requires IsWordWidth(width) && 0 < nbits < width && i < size && nbits * size <= |before|
      requires InRange(v, nbits, signed) && v >= 0
      requires BitIdx(i) + nbits <= DwordEnd(i) <= |before| && Stored(before, after, i, v)
      ensures Decoded(after, nbits, width, signed, size) == Decoded(before, nbits, width, signed, size)[i := v]
    {
      hide Decoded, FromInt, OredAt, InRange, DwordEnd, ReplacedAt, IsWordWidth, Widened;
      WidenedShape(v);
      OredIsReplaced(before, after, nbits * i, FromInt(v, nbits), Widened(v), DwordEnd(i));
      DecodedReplaced(before, nbits, width, signed, size, i, v);
    }

    /// Any value that the source's parameter type can hold.
    method Set(i: nat, v: int)
      requires Valid() && i < size
      modifies this
      ensures Valid() && BitIdx(i) + nbits <= DwordEnd(i) <= |old(Flat(words))|
      ensures Stored(old(Flat(words)), Flat(words), i, v)
      ensures Elements()[..i + 1] == old(Elements())[..i] + [Wrapped(v, nbits, signed)]
      ensures forall j: nat :: i < j < size ==>
        (Elements()[j] == old(Elements())[j] <==> KeepsLater(old(Flat(words)), i, j, v))
      ensures InRange(v, nbits, signed) ==> Wrapped(v, nbits, signed) == v
      ensures InRange(v, nbits, signed) && v >= 0 ==> Elements() == old(Elements())[i := v]
    {
      AccessInBounds(i);
      var w := WordIdx(i);
      var dword := words[w] + words[w + 1];
      var updated := InsertBits(dword, Widened(v), InnerBitIdx(i), nbits);
      ghost var words' := words[w := updated[..width]][w + 1 := updated[width..]];
      assert IsUpdated(words', i, v);
      hide InsertBits, Widened, WordIdx, BitIdx, InnerBitIdx, IsUpdated, Stored, KeepsLater, Flat, Decoded, DwordEnd,
        InRange, BufferBits, PaddedWords, Wrapped;
      UpdateIsStore(words', i, v);
      BufferHoldsElements();
      StoreOnElements(Flat(words), Flat(words'), i, v);
      WrappedInRange(v, nbits, signed);
      if InRange(v, nbits, signed) && v >= 0 {
        PlainStore(Flat(words), Flat(words'), i, v);
      }
      words := words[w := updated[..width]][w + 1 := updated[width..]];
    }

    /// Reading gives the element.
    lemma GetIsElement(i: nat)
      requires Valid() && i < size
      ensures Get(i) == Elements()[i]
    {
      BufferHoldsElements();
      ElementsFit(nbits, i, size);
      GetIsField(i);
    }

    /// A double-word store at element `i` finds nothing but ones in its part of
    /// element `j`.
    ghost predicate KeepsOnes(before: Bits, i: nat, j: nat)
      requires width > 0
    {
      BitIdx(j) + nbits <= |before| && OnesUpTo(before, nbits, j, DwordEnd(i))
    }

    /// A negative value stored before element `j` leaves it alone exactly when the
    /// bits of `j` in the same double word are all ones already.
    lemma NegativeSetKeepsLaterIff(before: Bits, after: Bits, i: nat, j: nat, v: int)
      requires IsWordWidth(width) && 0 < nbits < width && i < j < size && nbits * size <= |before|
      requires InRange(v, nbits, signed) && v < 0
      requires BitIdx(i) + nbits <= DwordEnd(i) <= |before| && Stored(before, after, i, v)
      ensures Decoded(after, nbits, width, signed, size)[j] == Decoded(before, nbits, width, signed, size)[j]
              <==> KeepsOnes(before, i, j)
    {
      hide DwordEnd, FromInt, Decoded, InRange, Widened, OredAt;
      WidenedShape(v);
      StoreOnElements(before, after, i, v);
      ElementsApart(nbits, i, j);
      ElementsFit(nbits, j, size);
      var x := Widened(v);
      assert forall k :: nbits <= k < 2 * width ==> x[k];
    }

    lemma FirstEnd()
      ensures width == 8 ==> DwordEnd(0) == 16
    {
    }

    lemma ElementsAre()
      requires Valid()
      ensures nbits < width && Elements() == Decoded(Flat(words), nbits, width, signed, size)
    {
    }

    /// 32 stored in the first of two 5-bit elements of a zeroed vector.
    lemma ThirtyTwoStored(before: Bits, after: Bits)
      requires nbits == 5 && width == 8 && !signed && |before| >= 16 && DwordEnd(0) == 16
      requires before == Zeros(|before|) && Stored(before, after, 0, 32)
      ensures Decoded(after, 5, 8, false, 2)[1] == 1
    {
      forall p: nat | 5 <= p < 10 ensures after[p] <==> p == 5 {
        if p < 8 {
          StoredBits(before, after, 0, 32, p);
          ThirtyTwoBits(p);
        }
      }
      hide Stored, Widened;
      OneInFive(after);
    }

    /// -1 stored in the first of two signed 4-bit elements of a byte.
    lemma MinusOneStored(before: Bits, after: Bits)
      requires nbits == 4 && width == 8 && signed && |before| >= 16 && DwordEnd(0) <= |before|
      requires Stored(before, after, 0, -1)
      ensures Decoded(after, 4, 8, true, 2)[1] == -1
    {
      FourBitMinusOne();
      WidenedShape(-1);
      hide Widened, InRange, FromInt, Decoded, ValueOf, Zeros;
      SecondNibble(before, after, Widened(-1));
    }

    /// Filling the vector in ascending order makes every read give what the field keeps
    /// of the stored value, the value itself if it is in range, although values
    /// overwrite bits of the elements after them.
    method FillAscending(vals: seq<int>)
      requires Valid() && |vals| == size
      modifies this
      ensures Valid()
      ensures forall j :: 0 <= j < size ==> Get(j) == Elements()[j] == Wrapped(vals[j], nbits, signed)
      ensures (forall j :: 0 <= j < size ==> InRange(vals[j], nbits, signed)) ==> Elements() == vals
    {
      hide InRange, Stored, Get, Wrapped;
      for i := 0 to size
        invariant Valid() && forall j :: 0 <= j < i ==> Elements()[j] == Wrapped(vals[j], nbits, signed)
      {
        ghost var before := Elements();
        Set(i, vals[i]);
        assert forall j :: 0 <= j < i + 1 ==> Elements()[j] == (before[..i] + [Wrapped(vals[i], nbits, signed)])[j];
      }
      forall j | 0 <= j < size
        ensures Get(j) == Elements()[j]
        ensures InRange(vals[j], nbits, signed) ==> Wrapped(vals[j], nbits, signed) == vals[j]
      {
        GetIsElement(j);
        WrappedInRange(vals[j], nbits, signed);
      }
    }

    /// The widened value is the field followed by copies of its sign.
    lemma WidenedShape(v: int)
      requires IsWordWidth(width) && 0 < nbits < width && InRange(v, nbits, signed)
      ensures Widened(v) == FromInt(v, nbits) + if v < 0 then Ones(2 * width - nbits) else Zeros(2 * width - nbits)
    {
      hide FromInt, Pow2;
      Pow2Doubles(nbits);
      if v < 0 {
        FromIntHighOnes(v, nbits, width);
        OnesJoin(FromInt(v, nbits), width - nbits, width);
      } else {
        FromIntHighZeros(v, nbits, width);
        ZerosJoin(FromInt(v, nbits), width - nbits, width);
      }
    }

    /// `get` reads exactly the element's bits.
    lemma GetIsField(i: nat)
      requires Valid() && i < size
      ensures BitIdx(i) + nbits <= |Flat(words)| && Get(i) == ValueOf(Field(Flat(words), nbits, i), width, signed)
    {
      hide Flat, WordIdx, Offset, SignExtend, ToNat, ExtractBits, BufferBits, PaddedWords, IsMemory, Zeros, InnerBitIdx;
      ElementInBuffer(i);
      var w, b := WordIdx(i), InnerBitIdx(i);
      DwordPlace(words, width, w);
      ExtractIsSlice(words[w] + words[w + 1], b, nbits);
      var d := words[w] + words[w + 1];
      DwordSlice(Flat(words), Offset(w, width), Offset(w + 2, width), b, nbits, d);
      CutZeros(d[b..b + nbits], 2 * width - nbits, width);
    }
  }

  lemma OnesJoin(f: Bits, a: nat, b: nat)
    ensures (f + Ones(a)) + Ones(b) == f + Ones(a + b)
    ensures a > 0 ==> (f + Ones(a))[|f| + a - 1]
  {
  }

  lemma ZerosJoin(f: Bits, a: nat, b: nat)
    ensures (f + Zeros(a)) + Zeros(b) == f + Zeros(a + b)
    ensures a > 0 ==> !(f + Zeros(a))[|f| + a - 1]
  {
  }

  lemma CutZeros(f: Bits, a: nat, width: nat)
    requires |f| <= width <= |f| + a
    ensures (f + Zeros(a))[..width] == f + Zeros(width - |f|)
  {
  }

  /// Two 5-bit elements: storing 32 in the first, which is zero in five bits, makes the
  /// second one 1.
  method OversizedSetOverwrites() returns (first: int, second: int)
    ensures first == 0 && second == 1
  {
    var v := new DoubleWordVector(5, 8, false, 2);
    v.FirstEnd();
    hide *;
    ghost var before, was := Flat(v.words), v.Elements();
    v.Set(0, 32);
    v.GetIsElement(0);
    first := v.Get(0);
    v.GetIsElement(1);
    second := v.Get(1);
    ThirtyTwoWraps();
    assert v.Elements()[0] == v.Elements()[..1][0] == (was[..0] + [Wrapped(32, 5, false)])[0];
    v.ThirtyTwoStored(before, Flat(v.words));
    v.ElementsAre();
  }

  lemma OneInFive(after: Bits)
    requires |after| >= 16 && forall p: nat :: 5 <= p < 10 ==> (after[p] <==> p == 5)
    ensures Decoded(after, 5, 8, false, 2)[1] == 1
  {
    var f := Field(after, 5, 1);
    assert f == [true] + Zeros(4);
    ToNatZeros(4);
    assert ([true] + Zeros(4))[1..] == Zeros(4);
    ToNatPadded(f, 3);
  }

  lemma ThirtyTwoWraps()
    ensures Wrapped(32, 5, false) == 0
  {
    assert Pow2(5) == 2 * Pow2(4) == 4 * Pow2(3);
  }

  lemma ThirtyTwoBits(k: nat)
    requires k < 8
    ensures Binary(32, k) <==> k == 5
  {
    assert Binary(32, 5) == Binary(16, 4) == Binary(8, 3) == Binary(4, 2) == Binary(2, 1) == Binary(1, 0);
    assert k < 5 ==> !Binary(32, k);
    assert Binary(32, 6) == Binary(16, 5) == Binary(8, 4) == Binary(4, 3) == Binary(2, 2) == Binary(1, 1);
  }

  /// Two signed 4-bit elements in one byte: storing -1 in the first turns the
  /// second from 0 into -1.
  method NegativeSetOverwrites() returns (was: int, now: int)
    ensures was == 0 && now == -1
  {
    var v := new DoubleWordVector(4, 8, true, 2);
    FourBitMinusOne();
    hide DoubleWordVector.Stored, DoubleWordVector.Get, DoubleWordVector.KeepsLater, Wrapped, InRange;
    v.Set(1, 0);
    v.GetIsElement(1);
    was := v.Get(1);
    ghost var before := Flat(v.words);
    v.Set(0, -1);
    v.GetIsElement(1);
    now := v.Get(1);
    v.MinusOneStored(before, Flat(v.words));
  }

  lemma SecondNibble(before: Bits, after: Bits, x: Bits)
    requires |before| >= 16 && x == FromInt(-1, 4) + Ones(12) && OredAt(before, after, 0, 4, x, 16)
    ensures Decoded(after, 4, 8, true, 2)[1] == -1
  {
    FourBitMinusOne();
    ValueOfEncoded(-1, 4, 8, true);
    hide ValueOf, FromInt, InRange;
    assert after[4..8] == FromInt(-1, 4);
    assert Field(after, 4, 1) == after[4..8];
  }

  lemma FourBitMinusOne()
    ensures FromInt(-1, 4) == [true, true, true, true]
    ensures InRange(0, 4, true) && InRange(-1, 4, true)
  {
    assert Pow2(3) == 8;
  }

  /// The bits of element `j` before `end` are all ones.
  ghost predicate OnesUpTo(flat: Bits, n: nat, j: nat, end: nat)
    requires n * j + n <= |flat|
  {
    forall k :: n * j <= k < n * j + n && k < end ==> flat[k]
  }

  lemma SameSliceIff(a: Bits, b: Bits, lo: nat, hi: nat)
    requires lo <= hi <= |a| == |b|
    ensures a[lo..hi] == b[lo..hi] <==> forall k :: lo <= k < hi ==> a[k] == b[k]
  {
    assert forall k :: lo <= k < hi ==> a[lo..hi][k - lo] == a[k] && b[lo..hi][k - lo] == b[k];
  }

  lemma DwordSlice(flat: Bits, lo: nat, end: nat, b: nat, n: nat, d: Bits)
    requires lo <= end <= |flat| && flat[lo..end] == d && b + n <= |d|
    ensures lo + b + n <= |flat| && flat[lo + b..lo + b + n] == d[b..b + n]
  {
    var p, q := flat[lo + b..lo + b + n], d[b..b + n];
    forall i | 0 <= i < n ensures p[i] == q[i] {
      assert d[b + i] == flat[lo..end][b + i];
    }
  }

  lemma RoundedUp(x: nat, k: nat)
    requires k > 0
    ensures (x + k - 1) / k * k >= x
  {
    var q := (x + k - 1) / k;
    assert x + k - 1 == q * k + (x + k - 1) % k;
  }
}

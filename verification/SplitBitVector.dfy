/// The split-word variant of the packed bit vector: an element that straddles two
/// words is read and written one word at a time.
module SplitBitVector {
  import opened BitWords
  import opened BitVector
  import opened Machine

  lemma StoreWord(words: seq<Bits>, w: nat, d: Bits, width: nat)
    requires IsMemory(words, width) && w < |words| && |d| == width
    ensures IsMemory(words[w := d], width)
    ensures var flat, lo, end := Flat(words), Offset(w, width), Offset(w + 1, width);
            && lo + width == end <= |flat| && flat[lo..end] == words[w]
            && Flat(words[w := d]) == flat[..lo] + d + flat[end..]
  {
    var a, b, c := words[..w], [words[w]], words[w + 1..];
    assert words[w := d] == a + [d] + c && words == a + b + c;
    assert words[w..w + 1] == b;
    MemoryPart(words, width, 0, w);
    hide Flat, Offset;
    OffsetAdd(w, 1, width);
    ReplaceWords(a, b, c, [d], width);
    FlatPiece(words, width, w, 1);
    FlatOne(words[w]);
    FlatOne(d);
  }

  lemma LowInsert(lo: Bits, hi: Bits, t: Bits, b: nat, n: nat, k: nat)
    requires |lo| == |hi| == |t| && 0 < n < |lo| && b < |lo| <= b + n && k < |lo|
    ensures InsertBits(lo + hi, t + Zeros(|t|), b, n)[k]
            == InsertBits(lo, And(t, BitMask(|t|, 0, |lo| - b)), b, |lo| - b)[k]
  {
    InsertBitsAt(lo, And(t, BitMask(|t|, 0, |lo| - b)), b, |lo| - b);
    InsertBitsAt(lo + hi, t + Zeros(|t|), b, n);
    hide InsertBits;
  }

  lemma HighInsert(lo: Bits, hi: Bits, t: Bits, b: nat, n: nat, k: nat)
    requires |lo| == |hi| == |t| && 0 < n < |lo| && b < |lo| <= b + n && k < |hi|
    requires MaskDefined(|hi|, b + n - |lo|)
    ensures InsertBits(lo + hi, t + Zeros(|t|), b, n)[|lo| + k]
            == InsertBits(hi, Shr(t, |lo| - b), 0, b + n - |lo|)[k]
  {
    InsertBitsAt(hi, Shr(t, |lo| - b), 0, b + n - |lo|);
    InsertBitsAt(lo + hi, t + Zeros(|t|), b, n);
    hide InsertBits;
  }

  /// Inserting the two parts of any value in the two words equals one insert across
  /// both.
  lemma SplitInsert(lo: Bits, hi: Bits, t: Bits, b: nat, n: nat)
    requires |lo| == |hi| == |t| && 0 < n < |lo| && b < |lo| <= b + n && MaskDefined(|hi|, b + n - |lo|)
    ensures var numLo := |lo| - b; var numHi := n - numLo;
            InsertBits(lo, And(t, BitMask(|t|, 0, numLo)), b, numLo) + InsertBits(hi, Shr(t, numLo), 0, numHi)
            == InsertBits(lo + hi, t + Zeros(|t|), b, n)
  {
    hide InsertBits, And, Shr, BitMask;
    var numLo := |lo| - b;
    var numHi := n - numLo;
    forall k: nat | k < |lo|
      ensures InsertBits(lo + hi, t + Zeros(|t|), b, n)[k]
              == InsertBits(lo, And(t, BitMask(|t|, 0, numLo)), b, numLo)[k]
      ensures InsertBits(lo + hi, t + Zeros(|t|), b, n)[|lo| + k] == InsertBits(hi, Shr(t, numLo), 0, numHi)[k]
    {
      LowInsert(lo, hi, t, b, n, k);
      HighInsert(lo, hi, t, b, n, k);
    }
    Halved(InsertBits(lo, And(t, BitMask(|t|, 0, numLo)), b, numLo), InsertBits(hi, Shr(t, numLo), 0, numHi),
           InsertBits(lo + hi, t + Zeros(|t|), b, n));
  }

  lemma Halved(a: Bits, b: Bits, r: Bits)
    requires |a| == |b| && |r| == |a| + |b|
    requires forall k: nat :: k < |a| ==> r[k] == a[k] && r[|a| + k] == b[k]
    ensures a + b == r
  {
    assert forall k: nat :: k < |b| ==> (a + b)[|a| + k] == b[k];
    forall k: nat | k < |r| ensures (a + b)[k] == r[k] {
      assert k >= |a| ==> r[|a| + (k - |a|)] == b[k - |a|];
    }
  }

  /// Reading the two parts back gives the field.
  lemma SplitExtract(lo: Bits, hi: Bits, b: nat, n: nat)
    requires |lo| == |hi| && 0 < n < |lo| && b < |lo| <= b + n && MaskDefined(|hi|, b + n - |lo|)
    ensures var numLo := |lo| - b; var numHi := n - numLo;
            Or(Shl(ExtractBits(hi, 0, numHi), numLo), Shr(lo, b)) == (lo + hi)[b..b + n] + Zeros(|lo| - n)
  {
    var numLo := |lo| - b;
    var numHi := n - numLo;
    ExtractIsSlice(hi, 0, numHi);
    hide ExtractBits;
  }

  class SplitWordVector {
    const nbits: nat
    const width: nat
    const size: nat
    var words: seq<Bits>

    static function BufferBits(nbits: nat, width: nat, size: nat): nat
      requires IsWordWidth(width)
    {
      (nbits * size + width - 1) / width * width
    }

    ghost predicate Valid()
      reads this
    {
      && IsWordWidth(width) && 0 < nbits < width
      && IsMemory(words, width)
      && |words| == PaddedWords(BufferBits(nbits, width, size), width)
    }

    constructor (nbits: nat, width: nat, size: nat)
      requires IsWordWidth(width) && 0 < nbits < width
      ensures Valid() && this.nbits == nbits && this.width == width && this.size == size
      ensures Flat(words) == Zeros(|Flat(words)|) && LeastBlocks(nbits * size, |Flat(words)|)
    {
      this.nbits, this.width, this.size := nbits, width, size;
      words := seq(PaddedWords(BufferBits(nbits, width, size), width), _ => Zeros(width));
      new;
      hide *;
      FlatZeros(words, width);
      FlatLength(words, width);
      BufferIsLeast(nbits, width, size);
    }

    static lemma BufferIsLeast(nbits: nat, width: nat, size: nat)
      requires IsWordWidth(width)
      ensures LeastBlocks(nbits * size, Offset(PaddedWords(BufferBits(nbits, width, size), width), width))
    {
      hide LeastBlocks, PaddedWords, Offset;
      PaddedSize(BufferBits(nbits, width, size), width);
      if width == 8 {
        BlocksOf8(nbits * size);
      } else {
        PairedBlocks(nbits * size, width);
      }
    }

    function LoWordIdx(i: nat): nat
      requires width > 0
    {
      nbits * i / width
    }

    function HiWordIdx(i: nat): nat
      requires width > 0
    {
      nbits * (i + 1) / width
    }

    function LoInnerBitIdx(i: nat): (r: nat)
      requires width > 0
      ensures r < width && Offset(LoWordIdx(i), width) + r == nbits * i
    {
      nbits * i - LoWordIdx(i) * width
    }

    predicate EndsInsideWord(i: nat)
      requires width > 0
    {
      nbits * (i + 1) % width != 0
    }

    /// The source's undefined cases left out: an element that ends exactly at a word
    /// boundary asks for a mask of no bits, and touches the word behind it.
    predicate Accessible(i: nat)
      requires width > 0
      reads this
    {
      EndsInsideWord(i) || (MaskDefined(width, 0) && HiWordIdx(i) < |words|)
    }

    /// Exactly at a word boundary the straddling branch asks for a mask of no bits.
    lemma ZeroWidthMaskIff(i: nat)
      requires IsWordWidth(width) && 0 < nbits < width
      ensures !EndsInsideWord(i) <==>
        LoWordIdx(i) != HiWordIdx(i) && nbits - (width - LoInnerBitIdx(i)) == 0
    {
      var start := nbits * i;
      assert nbits * (i + 1) == start + nbits;
      BoundarySpan(start, nbits, width);
    }

    lemma BufferHoldsElements()
      requires Valid()
      ensures nbits * size <= Offset(|words|, width) == |Flat(words)|
    {
      FlatLength(words, width);
      hide Flat, PaddedWords, IsMemory, Offset;
      SingleBuffer(nbits * size, width);
    }

    /// Which words an element touches, and that they are in the buffer.
    lemma WordsOfElement(i: nat)
      requires Valid() && i < size && Accessible(i)
      ensures LoWordIdx(i) <= HiWordIdx(i) < |words|
      ensures LoWordIdx(i) == HiWordIdx(i) ==> LoInnerBitIdx(i) + nbits < width
      ensures LoWordIdx(i) != HiWordIdx(i) ==>
        && HiWordIdx(i) == LoWordIdx(i) + 1 && width <= LoInnerBitIdx(i) + nbits
        && MaskDefined(width, LoInnerBitIdx(i) + nbits - width)
      ensures nbits * i + nbits <= nbits * size
    {
      BufferHoldsElements();
      ElementsApart(nbits, i, size);
      var start := nbits * i;
      assert nbits * (i + 1) == start + nbits;
      WordsOfSpan(start, nbits, width);
      if EndsInsideWord(i) {
        var hi := HiWordIdx(i);
        assert Offset(hi, width) < Offset(|words|, width);
        OffsetBelow(hi, |words|, width);
      }
    }

    /// What is left out is exactly what reaches behind the buffer or asks for a mask that
    /// is not defined.
    lemma AccessibleIff(i: nat)
      requires Valid() && i < size
      ensures Accessible(i) <==>
        && HiWordIdx(i) < |words|
        && (LoWordIdx(i) != HiWordIdx(i) ==>
              var numHi := nbits - (width - LoInnerBitIdx(i)); numHi >= 0 && MaskDefined(width, numHi))
    {
      hide LoWordIdx, HiWordIdx, MaskDefined, BufferBits, PaddedWords, IsMemory;
      ZeroWidthMaskIff(i);
      if Accessible(i) {
        WordsOfElement(i);
      }
    }

    function Get(i: nat): int
      requires Valid() && i < size && Accessible(i)
      reads this
    {
      WordsOfElement(i);
      var lo, hi, b := LoWordIdx(i), HiWordIdx(i), LoInnerBitIdx(i);
      if lo == hi then
        ToNat(ExtractBits(words[lo], b, nbits))
      else
        var numLo := width - b;
        var numHi := nbits - numLo;
        ToNat(Or(Shl(ExtractBits(words[hi], 0, numHi), numLo), Shr(words[lo], b)))
    }

    ghost function Elements(): (r: seq<int>)
      requires Valid()
      reads this
      ensures |r| == size
    {
      Decoded(Flat(words), nbits, width, false, size)
    }

    /// Reading gives the element, as in the double-word variant.
    lemma GetIsElement(i: nat)
      requires Valid() && i < size && Accessible(i)
      ensures Get(i) == Elements()[i]
    {
      hide Flat, Offset, LoWordIdx, HiWordIdx, ToNat, ExtractBits, BufferBits, PaddedWords, Or, Shl, Shr;
      WordsOfElement(i);
      BufferHoldsElements();
      var lo, hi, b := LoWordIdx(i), HiWordIdx(i), LoInnerBitIdx(i);
      if lo == hi {
        ReadInWord(words, width, lo, b, nbits);
      } else {
        ReadAcrossWords(words, width, lo, b, nbits);
      }
    }

    /// Where the further bits of a value stored at `i` end: at the end of its word, or
    /// of its two words.
    function StoreEnd(i: nat): nat
      requires width > 0
    {
      Offset(HiWordIdx(i) + 1, width)
    }

    function Widened(v: int): (r: Bits)
      ensures |r| == 2 * width
    {
      FromInt(v, width) + Zeros(width)
    }

    /// The value's low bits replace the element's, and its further bits are or-ed into
    /// the rest of the word the element ends in.
    ghost predicate Stored(before: Bits, after: Bits, i: nat, v: int)
      requires width > 0 && nbits * i + nbits <= StoreEnd(i) <= |before|
    {
      && StoreEnd(i) - nbits * i <= 2 * width
      && OredAt(before, after, nbits * i, nbits, Widened(v), StoreEnd(i))
    }

    /// Bit `p` of the buffer after a store, in terms of the binary digits of the value.
    lemma StoredBits(before: Bits, after: Bits, i: nat, v: int, p: nat)
      requires 0 < nbits < width && nbits * i + nbits <= StoreEnd(i) <= |before|
      requires Stored(before, after, i, v) && nbits * i <= p < nbits * i + width && p < StoreEnd(i)
      ensures |after| == |before|
      ensures after[p] == (Binary(v, p - nbits * i) || (p >= nbits * i + nbits && before[p]))
    {
      hide FromInt, Binary, StoreEnd;
      OredBinary(before, after, nbits * i, nbits, v, width, Widened(v), StoreEnd(i), p);
    }

    /// The value's bits beyond the field are set already where element `j` has bits
    /// before the end of the store at `i`.
    ghost predicate KeepsLater(before: Bits, i: nat, j: nat, v: int)
      requires width > 0
    {
      Absorbs(before, nbits * i, Widened(v), StoreEnd(i), nbits * j, nbits * j + nbits)
    }

    lemma StoreOnElements(before: Bits, after: Bits, i: nat, v: int)
      requires 0 < nbits < width && i < size && nbits * size <= |before|
      requires nbits * i + nbits <= StoreEnd(i) <= |before| && Stored(before, after, i, v)
      ensures var old', new' := Decoded(before, nbits, width, false, size), Decoded(after, nbits, width, false, size);
              && new'[..i + 1] == old'[..i] + [Wrapped(v, nbits, false)]
              && (forall j: nat :: i < j < size ==> (new'[j] == old'[j] <==> KeepsLater(before, i, j, v)))
              && (InRange(v, nbits, false) ==> new' == old'[i := v])
    {
      hide Decoded, FromInt, OredAt, ValueOf, Wrapped, Absorbs, StoreEnd, InRange;
      OredElements(before, after, nbits, width, false, size, i, Widened(v), StoreEnd(i));
      FromIntPrefix(v, nbits, width);
      assert Widened(v)[..nbits] == FromInt(v, width)[..nbits];
      ValueOfWrapped(v, nbits, width, false);
      if InRange(v, nbits, false) {
        PlainStore(before, after, i, v);
      }
    }

    /// A value in range has no further bits.
    lemma PlainStore(before: Bits, after: Bits, i: nat, v: int)
      requires 0 < nbits < width && i < size && nbits * size <= |before| && InRange(v, nbits, false)
      requires nbits * i + nbits <= StoreEnd(i) <= |before| && Stored(before, after, i, v)
      ensures Decoded(after, nbits, width, false, size) == Decoded(before, nbits, width, false, size)[i := v]
    {
      hide Decoded, FromInt, OredAt, StoreEnd, ReplacedAt;
      FromIntHighZeros(v, nbits, width);
      ZerosJoin(FromInt(v, nbits), width - nbits, width);
      OredIsReplaced(before, after, nbits * i, FromInt(v, nbits), Widened(v), StoreEnd(i));
      DecodedReplaced(before, nbits, width, false, size, i, v);
    }

    lemma SetFacts(i: nat)
      requires Valid() && i < size && Accessible(i)
      ensures LoWordIdx(i) <= HiWordIdx(i) < |words| && 0 < nbits < width && IsMemory(words, width)
      ensures |words[LoWordIdx(i)]| == |words[HiWordIdx(i)]| == width
      ensures LoWordIdx(i) == HiWordIdx(i) ==> LoInnerBitIdx(i) + nbits < width && MaskDefined(width, nbits)
      ensures LoWordIdx(i) != HiWordIdx(i) ==>
        && HiWordIdx(i) == LoWordIdx(i) + 1 && width <= LoInnerBitIdx(i) + nbits
        && MaskDefined(width, LoInnerBitIdx(i) + nbits - width)
      ensures StoreEnd(i) == Offset(HiWordIdx(i) + 1, width)
      ensures nbits * i + nbits <= nbits * size <= |Flat(words)|
    {
      hide Flat, Offset, BufferBits, PaddedWords, LoWordIdx, HiWordIdx, Accessible;
      WordsOfElement(i);
      BufferHoldsElements();
    }

    lemma StoredFrom(before: Bits, after: Bits, i: nat, v: int)
      requires width > 0 && nbits * i + nbits <= StoreEnd(i) <= |before| && StoreEnd(i) - nbits * i <= 2 * width
      requires OredAt(before, after, nbits * i, nbits, Widened(v), StoreEnd(i))
      ensures Stored(before, after, i, v)
    {
    }

    /// Any value that the source's parameter type can hold.
    method Set(i: nat, v: int)
      requires Valid() && i < size && Accessible(i)
      modifies this
      ensures Valid() && nbits * i + nbits <= StoreEnd(i) <= |old(Flat(words))|
      ensures Stored(old(Flat(words)), Flat(words), i, v)
      ensures Elements()[..i + 1] == old(Elements())[..i] + [Wrapped(v, nbits, false)]
      ensures forall j: nat :: i < j < size ==>
        (Elements()[j] == old(Elements())[j] <==> KeepsLater(old(Flat(words)), i, j, v))
      ensures InRange(v, nbits, false) ==> Elements() == old(Elements())[i := v]
    {
      hide Flat, Offset, BufferBits, PaddedWords, Decoded, FromInt, InRange, LoWordIdx, HiWordIdx, Accessible,
        StoreEnd, Stored, KeepsLater, OredAt, Wrapped, InsertBits, And, Shr, BitMask, IsMemory, ElementAt;
      SetFacts(i);
      var lo, hi, b, t := LoWordIdx(i), HiWordIdx(i), LoInnerBitIdx(i), FromInt(v, width);
      var updated := words;
      if lo == hi {
        StoreInWord(words, width, lo, b, nbits * i, t, nbits);
        updated := updated[lo := InsertBits(words[lo], t, b, nbits)];
      } else {
        var numLo := width - b;
        var numHi := nbits - numLo;
        var valLo := And(t, BitMask(width, 0, numLo));
        var valHi := Shr(t, numLo);
        StoreAcrossWords(words, width, lo, b, nbits * i, t, nbits);
        updated := updated[lo := InsertBits(words[lo], valLo, b, numLo)];
        updated := updated[hi := InsertBits(words[hi], valHi, 0, numHi)];
      }
      StoredFrom(Flat(words), Flat(updated), i, v);
      StoreOnElements(Flat(words), Flat(updated), i, v);
      words := updated;
    }
  }

  lemma ReadInWord(words: seq<Bits>, width: nat, w: nat, b: nat, n: nat)
    requires IsMemory(words, width) && w < |words| && 0 < n && b + n <= width
    ensures var at := Offset(w, width) + b;
            && at + n <= |Flat(words)|
            && ExtractBits(words[w], b, n) == Flat(words)[at..at + n] + Zeros(width - n)
  {
    StoreWord(words, w, words[w], width);
    ExtractIsSlice(words[w], b, n);
    hide Flat, Offset, ExtractBits, IsMemory;
    DwordSlice(Flat(words), Offset(w, width), Offset(w + 1, width), b, n, words[w]);
  }

  lemma ReadAcrossWords(words: seq<Bits>, width: nat, w: nat, b: nat, n: nat)
    requires IsMemory(words, width) && w + 1 < |words| && 0 < n < width && b < width <= b + n
    requires MaskDefined(width, b + n - width)
    ensures var at := Offset(w, width) + b; var numLo := width - b;
            && at + n <= |Flat(words)|
            && Or(Shl(ExtractBits(words[w + 1], 0, n - numLo), numLo), Shr(words[w], b))
               == Flat(words)[at..at + n] + Zeros(width - n)
  {
    DwordPlace(words, width, w);
    SplitExtract(words[w], words[w + 1], b, n);
    hide Flat, Offset, ExtractBits, IsMemory, Or, Shl, Shr;
    DwordSlice(Flat(words), Offset(w, width), Offset(w + 2, width), b, n, words[w] + words[w + 1]);
  }

  lemma StoreInWord(words: seq<Bits>, width: nat, w: nat, b: nat, at: nat, t: Bits, n: nat)
    requires IsMemory(words, width) && w < |words| && 0 < n && b + n <= width == |t| && Offset(w, width) + b == at
    ensures |words[w]| == width && MaskDefined(width, n)
    ensures var words' := words[w := InsertBits(words[w], t, b, n)]; var end := Offset(w + 1, width);
            && IsMemory(words', width) && at + n <= end <= |Flat(words)| && end - at <= width
            && OredAt(Flat(words), Flat(words'), at, n, t + Zeros(width), end)
  {
    hide Flat, Offset, InsertBits, OredAt;
    var r := InsertBits(words[w], t, b, n);
    StoreWord(words, w, r, width);
    InsertIsOr(words[w], t, b, n);
    hide IsMemory;
    LongerValue(words[w], r, b, n, t, t + Zeros(width), width);
    SplicedOr(Flat(words), Flat(words[w := r]), Offset(w, width), Offset(w + 1, width), at, words[w], r, b, n,
              t + Zeros(width));
  }

  /// Bits of the value beyond `end` do not matter.
  lemma LongerValue(before: Bits, after: Bits, at: nat, n: nat, x: Bits, y: Bits, end: nat)
    requires at + n <= end <= |before| && end - at <= |x| && x <= y && OredAt(before, after, at, n, x, end)
    ensures OredAt(before, after, at, n, y, end)
  {
  }

  lemma PairParts(r: Bits, lo: Bits, hi: Bits, width: nat)
    requires r == lo + hi && |lo| == |hi| == width
    ensures r[..width] == lo && r[width..] == hi
  {
  }

  lemma StoreAcrossWords(words: seq<Bits>, width: nat, w: nat, b: nat, at: nat, t: Bits, n: nat)
    requires IsMemory(words, width) && w + 1 < |words| && 0 < n < width == |t| && b < width <= b + n
    requires MaskDefined(width, b + n - width) && Offset(w, width) + b == at
    ensures |words[w]| == |words[w + 1]| == width
    ensures var numLo := width - b; var numHi := n - numLo;
            var lo := InsertBits(words[w], And(t, BitMask(width, 0, numLo)), b, numLo);
            var hi := InsertBits(words[w + 1], Shr(t, numLo), 0, numHi);
            var words' := words[w := lo][w + 1 := hi]; var end := Offset(w + 2, width);
            && IsMemory(words', width) && at + n <= end <= |Flat(words)| && end - at <= 2 * width
            && OredAt(Flat(words), Flat(words'), at, n, t + Zeros(width), end)
  {
    var numLo := width - b;
    var numHi := n - numLo;
    hide And, Shr, BitMask, InsertBits, Flat, Offset, OredAt;
    var lo := InsertBits(words[w], And(t, BitMask(width, 0, numLo)), b, numLo);
    var hi := InsertBits(words[w + 1], Shr(t, numLo), 0, numHi);
    SplitInsert(words[w], words[w + 1], t, b, n);
    PairParts(InsertBits(words[w] + words[w + 1], t + Zeros(width), b, n), lo, hi, width);
    StoreEffect(words, words[w := lo][w + 1 := hi], width, w, Offset(w, width), Offset(w + 2, width), b,
                words[w] + words[w + 1], t + Zeros(width), n);
  }

  /// In multiples of the word width.
  lemma SpanEnd(start: nat, n: nat, width: nat)
    requires 0 < n < width
    ensures var lo, hi := start / width, (start + n) / width;
            && lo <= hi <= lo + 1
            && start == Scale(width, lo) + start % width && start + n == Scale(width, hi) + (start + n) % width
            && (hi == lo ==> Scale(width, hi) == Scale(width, lo))
            && (hi == lo + 1 ==> Scale(width, hi) == Scale(width, lo) + width)
  {
    hide Scale;
    var lo, hi := start / width, (start + n) / width;
    DivisionParts(start, width);
    DivisionParts(start + n, width);
    ScaleGap(width, hi, lo);
    ScaleGap(width, lo + 1, hi);
    ScaleNext(width, lo);
  }

  lemma OffsetIsScale(k: nat, width: nat)
    ensures Offset(k, width) == Scale(width, k) == k * width
  {
  }

  lemma BoundarySpan(start: nat, n: nat, width: nat)
    requires 0 < n < width
    ensures var lo, hi := start / width, (start + n) / width;
            (start + n) % width == 0 <==> lo != hi && start - lo * width + n == width
  {
    hide Scale;
    SpanEnd(start, n, width);
    OffsetIsScale(start / width, width);
    hide Offset;
  }

  /// Which words a span of `n` bits touches.
  lemma WordsOfSpan(start: nat, n: nat, width: nat)
    requires 0 < n < width
    ensures var lo, hi := start / width, (start + n) / width;
            && lo <= hi <= lo + 1 && Offset(hi, width) <= start + n
            && (Offset(hi, width) == start + n <==> (start + n) % width == 0)
            && (lo == hi ==> start - Offset(lo, width) + n < width)
            && (lo != hi ==> width <= start - Offset(lo, width) + n)
            && (lo != hi ==> (width == start - Offset(lo, width) + n <==> (start + n) % width == 0))
  {
    hide Scale, Offset;
    SpanEnd(start, n, width);
    OffsetIsScale(start / width, width);
    OffsetIsScale((start + n) / width, width);
  }
}

/// Coalescing sorted pcs into aligned subregions. All arithmetic is on 64-bit
/// words and wraps around.
module Subregions {
  import opened Machine

  function Complement(a: Word): Word {
    TWO_64 - 1 - a
  }

  /// Bitwise conjunction, bit by bit.
  function BitAnd(a: nat, b: nat): (r: nat)
    ensures r <= a
  {
    if a == 0 then 0 else 2 * BitAnd(a / 2, b / 2) + (a % 2) * (b % 2)
  }

  ghost predicate IsPow2(p: Word) {
    exists k :: 0 <= k < 64 && p == Pow2(k)
  }

  function RoundDown(n: Word, pow2: Word): Word {
    BitAnd(n, Complement(Sub(pow2, 1)))
  }

  function RoundUp(n: Word, pow2: Word): Word {
    Add(RoundDown(n, pow2), pow2)
  }

  // ----- rounding by mask is rounding by division -----

  lemma {:induction false} KeepLowBits(n: nat, width: nat)
    requires n < Pow2(width)
    ensures BitAnd(n, Pow2(width) - 1) == n
  {
    if n > 0 {
      assert (Pow2(width) - 1) / 2 == Pow2(width - 1) - 1;
      KeepLowBits(n / 2, width - 1);
    }
  }

  /// Clearing the bits below 2^k leaves the largest multiple of 2^k up to `n`.
  lemma {:induction false} MaskClearsLowBits(n: nat, k: nat, width: nat) returns (q: nat)
    requires k <= width && n < Pow2(width)
    ensures Pow2(k) <= Pow2(width)
    ensures BitAnd(n, Pow2(width) - Pow2(k)) == Scale(Pow2(k), q) <= n < Scale(Pow2(k), q) + Pow2(k)
  {
    if k == 0 {
      KeepLowBits(n, width);
      q := n;
    } else {
      q := MaskClearsLowBits(n / 2, k - 1, width - 1);
      ScaleTwice(Pow2(k - 1), q);
      hide Scale;
      assert (Pow2(width) - Pow2(k)) / 2 == Pow2(width - 1) - Pow2(k - 1);
      assert (Pow2(width) - Pow2(k)) % 2 == 0;
    }
  }

  /// The number of the subregion that `n` is in.
  function Index(n: Word, p: Word): nat
    requires p > 0
  {
    n / p
  }

  lemma IndexBounds(n: Word, p: Word)
    requires p > 0
    ensures Scale(p, Index(n, p)) <= n < Scale(p, Index(n, p)) + p
  {
  }

  lemma IndexIsUnique(n: Word, p: Word, q: nat)
    requires p > 0 && Scale(p, q) <= n < Scale(p, q) + p
    ensures Index(n, p) == q
  {
    IndexBounds(n, p);
    ScaleGap(p, q, Index(n, p));
    ScaleGap(p, Index(n, p), q);
    hide Scale, Index;
  }

  lemma MaskOf(p: Word)
    requires p > 0
    ensures Complement(Sub(p, 1)) == TWO_64 - p
  {
  }

  /// The bit mask rounds down to a multiple.
  lemma RoundDownIsScale(n: Word, p: Word)
    requires IsPow2(p)
    ensures p > 0 && RoundDown(n, p) == Scale(p, Index(n, p)) <= n < RoundDown(n, p) + p
  {
    var k :| 0 <= k < 64 && p == Pow2(k);
    WordWidth();
    MaskOf(p);
    hide BitAnd, Scale, Pow2, Index, IsPow2, Sub, Complement;
    var q := MaskClearsLowBits(n, k, 64);
    IndexIsUnique(n, p, q);
  }

  lemma {:induction false} Pow2Splits(k: nat, width: nat)
    requires k <= width
    ensures Pow2(width) == Scale(Pow2(k), Pow2(width - k))
  {
    if k > 0 {
      Pow2Splits(k - 1, width - 1);
      ScaleTwice(Pow2(k - 1), Pow2(width - k));
    }
  }

  /// No subregion straddles the end of the address space.
  lemma SubregionFits(n: Word, p: Word)
    requires IsPow2(p)
    ensures p > 0 && Scale(p, Index(n, p)) + p <= TWO_64
  {
    var k :| 0 <= k < 64 && p == Pow2(k);
    Pow2Splits(k, 64);
    WordWidth();
    IndexBounds(n, p);
    var count := Pow2(64 - k);
    hide Pow2, Scale, Index, IsPow2;
    ScaleGap(p, Index(n, p), count);
    ScaleGap(p, count, Index(n, p));
  }

  // ----- coalescing subregion numbers into ranges -----

  /// The subregions `lo` to `hi`, both included.
  datatype Range = Range(lo: nat, hi: nat)

  ghost predicate Separated(rs: seq<Range>) {
    && (forall k :: 0 <= k < |rs| ==> rs[k].lo <= rs[k].hi)
    && (forall j, k :: 0 <= j < k < |rs| ==> rs[j].hi + 2 <= rs[k].lo)
  }

  ghost predicate InRange(x: nat, r: Range) {
    r.lo <= x <= r.hi
  }

  ghost predicate Filled(idx: seq<nat>, rs: seq<Range>) {
    forall k, x :: 0 <= k < |rs| && InRange(x, rs[k]) ==> x in idx
  }

  ghost predicate InSome(x: nat, rs: seq<Range>) {
    exists k :: 0 <= k < |rs| && InRange(x, rs[k])
  }

  ghost predicate AllInSome(idx: seq<nat>, rs: seq<Range>) {
    forall i :: 0 <= i < |idx| ==> InSome(idx[i], rs)
  }

  /// Some number is more than one above the number before it.
  ghost predicate HasGap(idx: seq<nat>) {
    exists i :: 0 < i < |idx| && idx[i - 1] + 2 <= idx[i]
  }

  /// The ranges hold exactly the numbers `idx`, and cannot be joined; `cur` is the
  /// last one.
  ghost predicate Coalesced(idx: seq<nat>, closed: seq<Range>, cur: Range) {
    && Separated(closed + [cur]) && Filled(idx, closed + [cur]) && AllInSome(idx, closed + [cur])
    && idx != [] && cur.hi == idx[|idx| - 1]
    && (closed == [] ==> cur.lo == idx[0])
    && (closed != [] <==> HasGap(idx))
  }

  lemma CoalesceFirst(q: nat)
    ensures Coalesced([q], [], Range(q, q))
  {
    assert InRange(q, ([] + [Range(q, q)])[0]);
  }

  lemma GapAfter(idx: seq<nat>, q: nat)
    requires idx != []
    ensures HasGap(idx + [q]) <==> HasGap(idx) || idx[|idx| - 1] + 2 <= q
  {
    if HasGap(idx) {
      var i :| 0 < i < |idx| && idx[i - 1] + 2 <= idx[i];
      assert (idx + [q])[i - 1] + 2 <= (idx + [q])[i];
    }
    if idx[|idx| - 1] + 2 <= q {
      assert (idx + [q])[|idx| - 1] + 2 <= (idx + [q])[|idx|];
    }
  }

  lemma StaysSeparated(closed: seq<Range>, cur: Range, hi: nat)
    requires Separated(closed + [cur]) && cur.lo <= hi
    ensures Separated(closed + [Range(cur.lo, hi)])
  {
    var rs, rs' := closed + [cur], closed + [Range(cur.lo, hi)];
    assert forall k :: 0 <= k < |closed| ==> rs'[k] == rs[k];
    assert rs'[|closed|].lo == rs[|closed|].lo;
  }

  lemma StaysInSome(idx: seq<nat>, closed: seq<Range>, cur: Range, hi: nat)
    requires AllInSome(idx, closed + [cur]) && cur.hi <= hi && cur.lo <= hi
    ensures AllInSome(idx + [hi], closed + [Range(cur.lo, hi)])
  {
    var rs, rs' := closed + [cur], closed + [Range(cur.lo, hi)];
    forall i | 0 <= i < |idx + [hi]|
      ensures InSome((idx + [hi])[i], rs')
    {
      if i < |idx| {
        assert InSome(idx[i], rs);
        var k :| 0 <= k < |rs| && InRange(idx[i], rs[k]);
        assert InRange(idx[i], rs'[k]);
      } else {
        assert InRange(hi, rs'[|closed|]);
      }
    }
  }

  lemma StaysFilled(idx: seq<nat>, closed: seq<Range>, cur: Range, hi: nat)
    requires Filled(idx, closed + [cur]) && (hi == cur.hi || hi == cur.hi + 1)
    ensures Filled(idx + [hi], closed + [Range(cur.lo, hi)])
  {
    var rs, rs' := closed + [cur], closed + [Range(cur.lo, hi)];
    forall k, x | 0 <= k < |rs'| && InRange(x, rs'[k])
      ensures x in idx + [hi]
    {
      assert x == hi || InRange(x, rs[k]);
    }
  }

  /// The open range grows to `q`, which is its end or next to it.
  lemma CoalesceOn(idx: seq<nat>, closed: seq<Range>, cur: Range, q: nat)
    requires Coalesced(idx, closed, cur) && (q == cur.hi || q == cur.hi + 1)
    ensures Coalesced(idx + [q], closed, Range(cur.lo, q))
  {
    assert cur.lo <= cur.hi by {
      assert cur == (closed + [cur])[|closed|];
    }
    GapAfter(idx, q);
    StaysSeparated(closed, cur, q);
    StaysInSome(idx, closed, cur, q);
    StaysFilled(idx, closed, cur, q);
    hide Separated, HasGap, AllInSome, Filled;
  }

  /// A number further on opens a new range.
  lemma CoalesceApart(idx: seq<nat>, closed: seq<Range>, cur: Range, q: nat)
    requires Coalesced(idx, closed, cur) && cur.hi + 2 <= q
    ensures Coalesced(idx + [q], closed + [cur], Range(q, q))
  {
    var rs, rs' := closed + [cur], closed + [cur] + [Range(q, q)];
    GapAfter(idx, q);
    forall i | 0 <= i < |idx + [q]|
      ensures InSome((idx + [q])[i], rs')
    {
      if i < |idx| {
        var k :| 0 <= k < |rs| && InRange(idx[i], rs[k]);
        assert InRange(idx[i], rs'[k]);
      } else {
        assert InRange(q, rs'[|rs|]);
      }
    }
    forall k, x | 0 <= k < |rs'| && InRange(x, rs'[k])
      ensures x in idx + [q]
    {
      assert x == q || InRange(x, rs[k]);
    }
    LastIsHighest(rs);
  }

  lemma LastIsHighest(rs: seq<Range>)
    requires Separated(rs) && rs != []
    ensures forall k :: 0 <= k < |rs| ==> rs[k].hi <= rs[|rs| - 1].hi
  {
  }

  // ----- the scan -----

  datatype Subregion = Subregion(base: Word, size: Word)

  datatype Outcome = Ok(regions: seq<Subregion>) | Underflow

  ghost predicate Sorted(pcs: seq<Word>) {
    forall i, j :: 0 <= i <= j < |pcs| ==> pcs[i] <= pcs[j]
  }

  /// The last subregion of the address space, whose end wraps to zero.
  ghost predicate InTop(n: Word, p: Word) {
    RoundUp(n, p) == 0
  }

  /// Some pc lies in a lower subregion than the pc before it.
  ghost predicate Descends(pcs: seq<Word>, p: Word) {
    exists i :: 0 < i < |pcs| && RoundDown(pcs[i], p) < RoundDown(pcs[i - 1], p)
  }

  /// Some pc leaves at least one whole subregion after the pc before it.
  ghost predicate LeavesGap(pcs: seq<Word>, p: Word) {
    exists i :: 0 < i < |pcs| && RoundDown(pcs[i - 1], p) + p < RoundDown(pcs[i], p)
  }

  ghost predicate Inside(a: Word, r: Subregion) {
    r.base <= a < r.base + r.size
  }

  ghost predicate InsideSome(a: Word, regions: seq<Subregion>) {
    exists k :: 0 <= k < |regions| && Inside(a, regions[k])
  }

  /// Aligned, not empty, in increasing order, a whole subregion or more apart.
  ghost predicate WellPlaced(regions: seq<Subregion>, p: Word)
    requires p > 0
  {
    && (forall k :: 0 <= k < |regions| ==>
          && regions[k].base % p == 0 && regions[k].size % p == 0
          && 0 < regions[k].size && regions[k].base + regions[k].size <= TWO_64)
    && (forall j, k :: 0 <= j < k < |regions| ==>
          regions[j].base + regions[j].size + p <= regions[k].base)
  }

  /// Every address inside shares its subregion with a pc.
  ghost predicate NoneWithoutPc(regions: seq<Subregion>, pcs: seq<Word>, p: Word) {
    forall k, a: Word :: 0 <= k < |regions| && Inside(a, regions[k]) ==> SharesSubregion(a, pcs, p)
  }

  ghost predicate SharesSubregion(a: Word, pcs: seq<Word>, p: Word) {
    exists i :: 0 <= i < |pcs| && RoundDown(pcs[i], p) == RoundDown(a, p)
  }

  ghost predicate AllInside(pcs: seq<Word>, regions: seq<Subregion>) {
    forall i :: 0 <= i < |pcs| ==> InsideSome(pcs[i], regions)
  }

  /// Regions are emitted unless all pcs lie in one stretch from address zero.
  ghost predicate EmitsLast(pcs: seq<Word>, p: Word)
    requires pcs != []
  {
    RoundDown(pcs[0], p) != 0 || LeavesGap(pcs, p)
  }

  ghost predicate IsResult(regions: seq<Subregion>, pcs: seq<Word>, p: Word)
    requires pcs != [] && p > 0
  {
    && WellPlaced(regions, p) && NoneWithoutPc(regions, pcs, p)
    && (EmitsLast(pcs, p) ==> AllInside(pcs, regions))
    && (!EmitsLast(pcs, p) ==> regions == [])
  }

  // ----- the scan in terms of subregion numbers -----

  function Indices(pcs: seq<Word>, p: Word): seq<nat>
    requires p > 0
  {
    seq(|pcs|, i requires 0 <= i < |pcs| => Index(pcs[i], p))
  }

  ghost predicate AreRegions(regions: seq<Subregion>, rs: seq<Range>, p: Word) {
    && |regions| == |rs|
    && forall k :: 0 <= k < |rs| ==> IsRegion(regions[k], rs[k], p)
  }

  ghost predicate IsRegion(r: Subregion, range: Range, p: Word) {
    r.base == Scale(p, range.lo) && r.base + r.size == Scale(p, range.hi) + p
  }

  /// How two subregions lie to each other.
  lemma Distance(a: Word, b: Word, p: Word)
    requires IsPow2(p)
    ensures p > 0 && RoundDown(a, p) + p <= TWO_64 && RoundDown(b, p) + p <= TWO_64
    ensures Index(a, p) == Index(b, p) ==> RoundDown(a, p) == RoundDown(b, p)
    ensures Index(a, p) < Index(b, p) ==> RoundDown(a, p) + p <= RoundDown(b, p)
    ensures Index(b, p) < Index(a, p) ==> RoundDown(b, p) + p <= RoundDown(a, p)
    ensures Index(a, p) + 1 == Index(b, p) ==> RoundDown(a, p) + p == RoundDown(b, p)
    ensures Index(a, p) + 2 <= Index(b, p) ==> RoundDown(a, p) + 2 * p <= RoundDown(b, p)
  {
    RoundDownIsScale(a, p);
    RoundDownIsScale(b, p);
    SubregionFits(a, p);
    SubregionFits(b, p);
    var i, j := Index(a, p), Index(b, p);
    ScaleGap(p, i, j);
    ScaleGap(p, j, i);
    ScaleNext(p, i);
    ScaleGap(p, i + 1, j);
    hide Scale, Index, RoundDown, IsPow2;
  }

  lemma EndMinusBegin(low: Word, begin: Word, p: Word)
    requires 0 < p && low + p <= TWO_64
    ensures Sub(Add(low, p), begin) == p <==> low == begin
    ensures low + p <= begin ==> Add(low, p) == low + p && Sub(begin, Add(low, p)) == begin - low - p
    ensures low + p < TWO_64 ==> Add(low, p) == low + p
    ensures Add(low, p) == 0 <==> low + p == TWO_64
  {
  }

  /// The three tests of the scan, as facts about the two subregion numbers.
  lemma ScanTests(last: Word, pc: Word, p: Word)
    requires IsPow2(p)
    ensures p > 0
    ensures Sub(RoundUp(last, p), RoundDown(pc, p)) == p <==> Index(last, p) == Index(pc, p)
    ensures Index(last, p) < Index(pc, p) ==>
      && RoundUp(last, p) <= RoundDown(pc, p)
      && (Sub(RoundDown(pc, p), RoundUp(last, p)) >= p <==> Index(last, p) + 2 <= Index(pc, p))
    ensures Index(pc, p) < Index(last, p) && !InTop(last, p) ==> RoundUp(last, p) > RoundDown(pc, p)
  {
    Distance(last, pc, p);
    EndMinusBegin(RoundDown(last, p), RoundDown(pc, p), p);
    hide Index, RoundDown, IsPow2, Add, Sub;
  }

  lemma EndMinusBase(low: Word, base: Word, p: Word)
    requires 0 < p && base <= low && low + p <= TWO_64 && (base > 0 || Add(low, p) != 0)
    ensures base + Sub(Add(low, p), base) == low + p
  {
  }

  /// The size computed for a region is exact, even when its end wraps to zero.
  lemma EmittedRegion(last: Word, cur: Range, base: Word, p: Word)
    requires IsPow2(p) && p > 0 && cur.lo <= cur.hi == Index(last, p) && base == Scale(p, cur.lo)
    requires cur.lo > 0 || !InTop(last, p)
    ensures IsRegion(Subregion(base, Sub(RoundUp(last, p), base)), cur, p)
  {
    RoundDownIsScale(last, p);
    SubregionFits(last, p);
    ScaleGap(p, cur.lo, cur.hi);
    ScaleGap(p, 0, cur.lo);
    assert RoundUp(last, p) == Add(RoundDown(last, p), p);
    hide Index, RoundDown, IsPow2, Scale, Sub, Add;
    EndMinusBase(RoundDown(last, p), base, p);
  }

  lemma RegionsGrow(regions: seq<Subregion>, rs: seq<Range>, r: Subregion, range: Range, p: Word)
    requires AreRegions(regions, rs, p) && IsRegion(r, range, p)
    ensures AreRegions(regions + [r], rs + [range], p)
  {
    hide IsRegion;
  }

  /// What the scan has established after `seen`.
  ghost predicate Scanned(seen: seq<Word>, regions: seq<Subregion>, base: Word, lastBase: Word,
                          closed: seq<Range>, cur: Range, p: Word)
    requires p > 0
  {
    && seen != [] && Coalesced(Indices(seen, p), closed, cur)
    && AreRegions(regions, closed, p) && base == Scale(p, cur.lo)
    && lastBase == (if closed == [] then 0 else regions[|regions| - 1].base)
  }

  lemma ScanFirst(pc: Word, p: Word)
    requires IsPow2(p)
    ensures p > 0 && Scanned([pc], [], RoundDown(pc, p), 0, [], Range(Index(pc, p), Index(pc, p)), p)
  {
    RoundDownIsScale(pc, p);
    CoalesceFirst(Index(pc, p));
    assert Indices([pc], p) == [Index(pc, p)];
    hide Coalesced, RoundDown, Index, Scale;
  }

  lemma IndicesAppend(seen: seq<Word>, pc: Word, p: Word)
    requires p > 0
    ensures Indices(seen + [pc], p) == Indices(seen, p) + [Index(pc, p)]
  {
  }

  lemma LastIndex(seen: seq<Word>, p: Word)
    requires p > 0 && seen != []
    ensures var idx := Indices(seen, p); |idx| == |seen| && idx[|idx| - 1] == Index(seen[|seen| - 1], p)
  {
  }

  lemma ScanOn(seen: seq<Word>, regions: seq<Subregion>, base: Word, lastBase: Word,
               closed: seq<Range>, cur: Range, p: Word, pc: Word)
    requires p > 0 && Scanned(seen, regions, base, lastBase, closed, cur, p)
    requires Index(pc, p) == Index(seen[|seen| - 1], p) || Index(pc, p) == Index(seen[|seen| - 1], p) + 1
    ensures Scanned(seen + [pc], regions, base, lastBase, closed, Range(cur.lo, Index(pc, p)), p)
  {
    hide Coalesced, Index, Scale;
    LastIndex(seen, p);
    CurIsLast(Indices(seen, p), closed, cur);
    CoalesceOn(Indices(seen, p), closed, cur, Index(pc, p));
    assert Indices(seen + [pc], p) == Indices(seen, p) + [Index(pc, p)];
  }

  lemma CurIsLast(idx: seq<nat>, closed: seq<Range>, cur: Range)
    requires Coalesced(idx, closed, cur)
    ensures idx != [] && cur.lo <= cur.hi == idx[|idx| - 1]
    ensures closed != [] ==> closed[|closed| - 1].lo + 2 <= cur.lo
    ensures closed == [] ==> cur.lo == idx[0]
    ensures closed != [] <==> HasGap(idx)
  {
    var rs := closed + [cur];
    assert rs[|closed|] == cur;
    if closed != [] {
      assert rs[|closed| - 1] == closed[|closed| - 1];
    }
  }

  lemma ScanApart(seen: seq<Word>, regions: seq<Subregion>, base: Word, lastBase: Word,
                  closed: seq<Range>, cur: Range, p: Word, pc: Word)
    requires IsPow2(p) && p > 0 && Scanned(seen, regions, base, lastBase, closed, cur, p)
    requires Index(seen[|seen| - 1], p) + 2 <= Index(pc, p)
    ensures var q := Index(pc, p);
            var size := Sub(RoundUp(seen[|seen| - 1], p), base);
            Scanned(seen + [pc], regions + [Subregion(base, size)], RoundDown(pc, p), base, closed + [cur],
                    Range(q, q), p)
  {
    hide Coalesced, Index, Scale, RoundDown, Sub, Add, IsRegion, AreRegions, Indices, IsPow2;
    var last := seen[|seen| - 1];
    LastIndex(seen, p);
    CurIsLast(Indices(seen, p), closed, cur);
    CoalesceApart(Indices(seen, p), closed, cur, Index(pc, p));
    IndicesAppend(seen, pc, p);
    Distance(last, pc, p);
    EndMinusBegin(RoundDown(last, p), RoundDown(pc, p), p);
    EmittedRegion(last, cur, base, p);
    RegionsGrow(regions, closed, Subregion(base, Sub(RoundUp(last, p), base)), cur, p);
    RoundDownIsScale(pc, p);
  }

  // ----- from ranges back to regions -----

  lemma InsideIff(a: Word, r: Subregion, range: Range, p: Word)
    requires p > 0 && IsRegion(r, range, p)
    ensures Inside(a, r) <==> InRange(Index(a, p), range)
  {
    IndexBounds(a, p);
    ScaleGap(p, Index(a, p), range.lo);
    ScaleGap(p, range.lo, Index(a, p));
    ScaleGap(p, Index(a, p), range.hi);
    ScaleGap(p, range.hi, Index(a, p));
    hide Index, Scale;
  }

  lemma ScaleAligned(p: nat, q: nat)
    requires p > 0
    ensures Scale(p, q) % p == 0
  {
    hide Scale;
    DivisionIsUnique(Scale(p, q), p, q, 0);
  }

  lemma {:induction false} GapAligned(p: nat, a: nat, b: nat)
    requires p > 0 && a <= b
    ensures (Scale(p, b) + p - Scale(p, a)) % p == 0
    ensures Scale(p, b) + p - Scale(p, a) > 0
  {
    assert Scale(p, b) + p - Scale(p, a) == Scale(p, b + 1 - a);
    ScaleAligned(p, b + 1 - a);
    ScaleGap(p, a, b);
  }

  lemma RegionPlaced(r: Subregion, range: Range, p: Word)
    requires p > 0 && IsRegion(r, range, p) && range.lo <= range.hi
    ensures r.base % p == 0 && r.size % p == 0 && r.size > 0
  {
    ScaleAligned(p, range.lo);
    GapAligned(p, range.lo, range.hi);
    hide Scale;
  }

  lemma IndexWitness(pcs: seq<Word>, x: nat, p: Word) returns (i: nat)
    requires p > 0 && x in Indices(pcs, p)
    ensures i < |pcs| && Index(pcs[i], p) == x
  {
    i :| 0 <= i < |Indices(pcs, p)| && Indices(pcs, p)[i] == x;
  }

  lemma RangesPlaced(regions: seq<Subregion>, rs: seq<Range>, pcs: seq<Word>, p: Word)
    requires IsPow2(p) && p > 0
    requires AreRegions(regions, rs, p) && Separated(rs) && Filled(Indices(pcs, p), rs)
    ensures WellPlaced(regions, p)
  {
    hide Scale, Index, IsPow2, Indices;
    forall k | 0 <= k < |regions|
      ensures regions[k].base % p == 0 && regions[k].size % p == 0
      ensures 0 < regions[k].size && regions[k].base + regions[k].size <= TWO_64
    {
      RegionPlaced(regions[k], rs[k], p);
      assert InRange(rs[k].hi, rs[k]);
      var i := IndexWitness(pcs, rs[k].hi, p);
      SubregionFits(pcs[i], p);
    }
    forall j, k | 0 <= j < k < |regions|
      ensures regions[j].base + regions[j].size + p <= regions[k].base
    {
      ScaleNext(p, rs[j].hi);
      ScaleGap(p, rs[j].hi + 1, rs[k].lo);
      assert IsRegion(regions[j], rs[j], p) && IsRegion(regions[k], rs[k], p);
    }
  }

  lemma RangesHavePcs(regions: seq<Subregion>, rs: seq<Range>, pcs: seq<Word>, p: Word)
    requires IsPow2(p) && p > 0
    requires AreRegions(regions, rs, p) && Filled(Indices(pcs, p), rs)
    ensures NoneWithoutPc(regions, pcs, p)
  {
    hide Scale, Index, IsPow2, RoundDown, IsRegion, Indices;
    forall k, a: Word | 0 <= k < |regions| && Inside(a, regions[k])
      ensures SharesSubregion(a, pcs, p)
    {
      InsideIff(a, regions[k], rs[k], p);
      var i := IndexWitness(pcs, Index(a, p), p);
      Distance(pcs[i], a, p);
    }
  }

  lemma RangesHoldPcs(regions: seq<Subregion>, rs: seq<Range>, pcs: seq<Word>, p: Word)
    requires p > 0
    requires AreRegions(regions, rs, p) && AllInSome(Indices(pcs, p), rs)
    ensures AllInside(pcs, regions)
  {
    hide Scale, Index, IsRegion;
    forall i | 0 <= i < |pcs|
      ensures InsideSome(pcs[i], regions)
    {
      assert InSome(Indices(pcs, p)[i], rs);
      var k :| 0 <= k < |rs| && InRange(Index(pcs[i], p), rs[k]);
      InsideIff(pcs[i], regions[k], rs[k], p);
    }
  }

  lemma GapsAgree(pcs: seq<Word>, p: Word)
    requires IsPow2(p) && p > 0
    ensures LeavesGap(pcs, p) <==> HasGap(Indices(pcs, p))
  {
    var idx := Indices(pcs, p);
    forall i | 0 < i < |pcs|
      ensures RoundDown(pcs[i - 1], p) + p < RoundDown(pcs[i], p) <==> idx[i - 1] + 2 <= idx[i]
    {
      Distance(pcs[i - 1], pcs[i], p);
    }
  }

  lemma FinishScan(pcs: seq<Word>, regions: seq<Subregion>, base: Word, lastBase: Word,
                   closed: seq<Range>, cur: Range, p: Word)
    requires IsPow2(p) && p > 0 && Scanned(pcs, regions, base, lastBase, closed, cur, p)
    ensures lastBase != base ==>
      IsResult(regions + [Subregion(base, Sub(RoundUp(pcs[|pcs| - 1], p), base))], pcs, p)
    ensures lastBase == base ==> IsResult(regions, pcs, p)
  {
    hide Index, Scale, RoundDown, RoundUp, Sub, IsPow2, HasGap, LeavesGap, Indices;
    var idx := Indices(pcs, p);
    LastIndex(pcs, p);
    CurIsLast(idx, closed, cur);
    GapsAgree(pcs, p);
    EmittedIff(pcs, regions, base, lastBase, closed, cur, p);
    if lastBase != base {
      var last := Subregion(base, Sub(RoundUp(pcs[|pcs| - 1], p), base));
      EmittedRegion(pcs[|pcs| - 1], cur, base, p);
      RegionsGrow(regions, closed, last, cur, p);
      hide AreRegions, IsRegion, Filled, AllInSome, Separated;
      RangesPlaced(regions + [last], closed + [cur], pcs, p);
      RangesHavePcs(regions + [last], closed + [cur], pcs, p);
      RangesHoldPcs(regions + [last], closed + [cur], pcs, p);
    }
  }

  /// The last region is left out exactly when it starts at address zero.
  lemma EmittedIff(pcs: seq<Word>, regions: seq<Subregion>, base: Word, lastBase: Word,
                   closed: seq<Range>, cur: Range, p: Word)
    requires IsPow2(p) && p > 0 && Scanned(pcs, regions, base, lastBase, closed, cur, p)
    ensures lastBase != base <==> EmitsLast(pcs, p)
    ensures lastBase != base ==> cur.lo > 0
    ensures lastBase == base ==> regions == []
  {
    var idx := Indices(pcs, p);
    CurIsLast(idx, closed, cur);
    GapsAgree(pcs, p);
    RoundDownIsScale(pcs[0], p);
    ScaleGap(p, 0, cur.lo);
    assert Scale(p, 0) == 0;
    if closed != [] {
      ScaleGap(p, closed[|closed| - 1].lo, cur.lo);
      assert IsRegion(regions[|regions| - 1], closed[|closed| - 1], p);
    }
    hide Index, Scale, RoundDown, IsPow2, HasGap, LeavesGap, Coalesced;
  }

  method SubregionsForSortedPcs(pcs: seq<Word>, subregionSize: Word) returns (r: Outcome)
    requires pcs != [] && IsPow2(subregionSize) && subregionSize > 0
    requires Sorted(pcs) || forall i :: 0 <= i < |pcs| ==> !InTop(pcs[i], subregionSize)
    ensures r.Underflow? <==> Descends(pcs, subregionSize)
    ensures r.Ok? ==> IsResult(r.regions, pcs, subregionSize)
  {
    var p := subregionSize;
    hide Index, Scale, RoundDown, RoundUp, Sub, Add, Coalesced, AreRegions, IsPow2, IsResult, Scanned, InTop, Sorted;
    ScanFirst(pcs[0], p);
    var regions := [];
    var lastPc := pcs[0];
    var thisBase := RoundDown(lastPc, p);
    var lastBase: Word := 0;
    ghost var closed, cur := [], Range(Index(lastPc, p), Index(lastPc, p));
    for i := 0 to |pcs|
      invariant lastPc == pcs[if i == 0 then 0 else i - 1]
      invariant i == 0 ==>
        regions == [] && thisBase == RoundDown(lastPc, p) && lastBase == 0 && closed == []
        && cur == Range(Index(lastPc, p), Index(lastPc, p))
      invariant i > 0 ==> Scanned(pcs[..i], regions, thisBase, lastBase, closed, cur, p)
      invariant forall j :: 0 < j < i ==> RoundDown(pcs[j - 1], p) <= RoundDown(pcs[j], p)
    {
      var pc := pcs[i];
      var lastEnd := RoundUp(lastPc, p);
      var begin := RoundDown(pc, p);
      ScanTests(lastPc, pc, p);
      Distance(lastPc, pc, p);
      assert pcs[..i + 1] == pcs[..i] + [pc];
      if Sub(lastEnd, begin) == p {
        if i == 0 {
          assert pcs[..1] == [pc];
        } else {
          ScanOn(pcs[..i], regions, thisBase, lastBase, closed, cur, p, pc);
          cur := Range(cur.lo, Index(pc, p));
        }
      } else if lastEnd > begin {
        assert RoundDown(pcs[i], p) < RoundDown(pcs[i - 1], p);
        return Underflow;
      } else {
        NeverBelow(pcs, i, p);
        if Sub(begin, lastEnd) >= p {
          ScanApart(pcs[..i], regions, thisBase, lastBase, closed, cur, p, pc);
          regions := regions + [Subregion(thisBase, Sub(lastEnd, thisBase))];
          lastBase := thisBase;
          thisBase := begin;
          closed, cur := closed + [cur], Range(Index(pc, p), Index(pc, p));
        } else {
          ScanOn(pcs[..i], regions, thisBase, lastBase, closed, cur, p, pc);
          cur := Range(cur.lo, Index(pc, p));
        }
      }
      lastPc := pc;
    }
    assert pcs[..|pcs|] == pcs;
    FinishScan(pcs, regions, thisBase, lastBase, closed, cur, p);
    if lastBase != thisBase {
      regions := regions + [Subregion(thisBase, Sub(RoundUp(lastPc, p), thisBase))];
    }
    return Ok(regions);
  }

  lemma NeverBelow(pcs: seq<Word>, i: nat, p: Word)
    requires IsPow2(p) && p > 0 && 0 < i < |pcs|
    requires Sorted(pcs) || forall k :: 0 <= k < |pcs| ==> !InTop(pcs[k], p)
    requires RoundUp(pcs[i - 1], p) <= RoundDown(pcs[i], p)
    ensures Index(pcs[i - 1], p) <= Index(pcs[i], p)
  {
    if Sorted(pcs) {
      IndexMonotone(pcs[i - 1], pcs[i], p);
    } else {
      ScanTests(pcs[i - 1], pcs[i], p);
      hide Index, RoundDown, RoundUp;
    }
  }

  lemma IndexMonotone(a: Word, b: Word, p: Word)
    requires p > 0 && a <= b
    ensures Index(a, p) <= Index(b, p)
  {
    IndexBounds(a, p);
    IndexBounds(b, p);
    ScaleGap(p, Index(b, p), Index(a, p));
    hide Index, Scale;
  }

  /// Sorted pcs never raise the underflow error, wherever they lie.
  lemma SortedNeverDescends(pcs: seq<Word>, p: Word)
    requires IsPow2(p) && p > 0 && Sorted(pcs)
    ensures !Descends(pcs, p)
  {
    forall i | 0 < i < |pcs|
      ensures RoundDown(pcs[i - 1], p) <= RoundDown(pcs[i], p)
    {
      IndexMonotone(pcs[i - 1], pcs[i], p);
      Distance(pcs[i - 1], pcs[i], p);
    }
  }

  // ----- the check of the result -----

  /// The end of a region is computed with wrap-around.
  predicate Covers(r: Subregion, pc: Word) {
    r.base <= pc < Add(r.base, r.size)
  }

  ghost predicate CoveredBySome(pc: Word, regions: seq<Subregion>) {
    exists k :: 0 <= k < |regions| && Covers(regions[k], pc)
  }

  /// Some region begins at or before the pc and ends after it, modulo 2^64.
  ghost predicate LiesInSome(pc: Word, regions: seq<Subregion>) {
    exists k :: 0 <= k < |regions| && regions[k].base <= pc
                && pc < (regions[k].base + regions[k].size) % 0x1_0000_0000_0000_0000
  }

  lemma LiesInSomeIff(pc: Word, regions: seq<Subregion>)
    ensures LiesInSome(pc, regions) <==> CoveredBySome(pc, regions)
  {
    if LiesInSome(pc, regions) {
      var k :| 0 <= k < |regions| && regions[k].base <= pc
        && pc < (regions[k].base + regions[k].size) % 0x1_0000_0000_0000_0000;
      assert Covers(regions[k], pc);
    }
    if CoveredBySome(pc, regions) {
      var k :| 0 <= k < |regions| && Covers(regions[k], pc);
      assert regions[k].base <= pc && pc < (regions[k].base + regions[k].size) % 0x1_0000_0000_0000_0000;
    }
  }

  function NotCovered(pcs: seq<Word>, r: Subregion): (left: seq<Word>)
    ensures forall pc :: pc in left <==> pc in pcs && !Covers(r, pc)
  {
    if pcs == [] then [] else
      (if Covers(r, pcs[0]) then [] else [pcs[0]]) + NotCovered(pcs[1..], r)
  }

  method VerifySubregions(regions: seq<Subregion>, pcs: seq<Word>) returns (ok: bool)
    ensures ok <==> forall i :: 0 <= i < |pcs| ==> LiesInSome(pcs[i], regions)
    ensures ok <==> forall i :: 0 <= i < |pcs| ==> CoveredBySome(pcs[i], regions)
  {
    hide LiesInSome;
    var left := pcs;
    for k := 0 to |regions|
      invariant forall pc :: pc in left <==> pc in pcs && !CoveredBySome(pc, regions[..k])
    {
      CoveredByNext(regions, k);
      left := NotCovered(left, regions[k]);
    }
    assert regions[..|regions|] == regions;
    ok := left == [];
    assert !ok ==> left[0] in left;
    forall i | 0 <= i < |pcs| ensures LiesInSome(pcs[i], regions) <==> CoveredBySome(pcs[i], regions) {
      LiesInSomeIff(pcs[i], regions);
    }
  }

  lemma CoveredByNext(regions: seq<Subregion>, k: nat)
    requires k < |regions|
    ensures forall pc: Word ::
      CoveredBySome(pc, regions[..k + 1]) <==> CoveredBySome(pc, regions[..k]) || Covers(regions[k], pc)
  {
    hide Covers;
    forall pc: Word
      ensures CoveredBySome(pc, regions[..k + 1]) <==> CoveredBySome(pc, regions[..k]) || Covers(regions[k], pc)
    {
      if CoveredBySome(pc, regions[..k]) {
        var j :| 0 <= j < k && Covers(regions[..k][j], pc);
        assert Covers(regions[..k + 1][j], pc);
      }
      if Covers(regions[k], pc) {
        assert Covers(regions[..k + 1][k], pc);
      }
      if CoveredBySome(pc, regions[..k + 1]) {
        var j :| 0 <= j < k + 1 && Covers(regions[..k + 1][j], pc);
        assert j < k ==> Covers(regions[..k][j], pc);
      }
    }
  }

  lemma TopIff(pc: Word, p: Word)
    requires IsPow2(p) && p > 0
    ensures InTop(pc, p) <==> RoundDown(pc, p) + p == TWO_64
  {
    Distance(pc, pc, p);
    EndMinusBegin(RoundDown(pc, p), RoundDown(pc, p), p);
    hide Index, RoundDown, IsPow2, Add, Sub;
  }

  /// No region's wrapped end lies above a pc of the top subregion.
  lemma TopIsNotCovered(r: Subregion, pc: Word, p: Word)
    requires IsPow2(p) && p > 0 && InTop(pc, p)
    requires r.base % p == 0 && r.size % p == 0 && r.base + r.size <= TWO_64
    ensures !Covers(r, pc)
  {
    hide Index, Scale, RoundDown, IsPow2, InTop;
    var end := r.base + r.size;
    TopIff(pc, p);
    RoundDownIsScale(pc, p);
    AlignedSum(r.base, r.size, p);
    ScaleGap(p, Index(pc, p), end / p);
    ScaleGap(p, end / p, Index(pc, p));
  }

  lemma AlignedSum(a: nat, b: nat, p: nat)
    requires p > 0 && a % p == 0 && b % p == 0
    ensures a + b == Scale(p, (a + b) / p)
  {
    var i, j := a / p, b / p;
    assert a == Scale(p, i) && b == Scale(p, j);
    assert a + b == Scale(p, i + j);
    ScaleAligned(p, i + j);
  }

  /// A region that reaches the end of the address space holds a pc of the top
  /// subregion.
  lemma EndBelowTop(regions: seq<Subregion>, k: nat, pcs: seq<Word>, p: Word)
    requires IsPow2(p) && p > 0 && WellPlaced(regions, p) && NoneWithoutPc(regions, pcs, p)
    requires k < |regions| && forall i :: 0 <= i < |pcs| ==> !InTop(pcs[i], p)
    ensures regions[k].base + regions[k].size < TWO_64
  {
    var a: Word := TWO_64 - 1;
    RoundDownIsScale(a, p);
    TopIff(a, p);
    Distance(a, a, p);
    TopIsShared(a, pcs, p);
    hide IsPow2, RoundDown, RoundUp, InTop, SharesSubregion;
    assert regions[k].base + regions[k].size == TWO_64 ==> Inside(a, regions[k]);
  }

  lemma TopIsShared(a: Word, pcs: seq<Word>, p: Word)
    ensures SharesSubregion(a, pcs, p) && InTop(a, p) ==> exists i :: 0 <= i < |pcs| && InTop(pcs[i], p)
  {
    hide RoundDown;
  }

  /// The check accepts the result of the scan exactly when its last region was
  /// emitted and no pc lies in the top subregion.
  lemma CheckAcceptsIff(regions: seq<Subregion>, pcs: seq<Word>, p: Word)
    requires pcs != [] && IsPow2(p) && p > 0 && IsResult(regions, pcs, p)
    ensures (forall i :: 0 <= i < |pcs| ==> CoveredBySome(pcs[i], regions))
            <==> EmitsLast(pcs, p) && forall i :: 0 <= i < |pcs| ==> !InTop(pcs[i], p)
  {
    hide IsPow2, RoundDown, InTop, LeavesGap;
    if EmitsLast(pcs, p) && forall i :: 0 <= i < |pcs| ==> !InTop(pcs[i], p) {
      forall i | 0 <= i < |pcs|
        ensures CoveredBySome(pcs[i], regions)
      {
        assert InsideSome(pcs[i], regions);
        var k :| 0 <= k < |regions| && Inside(pcs[i], regions[k]);
        EndBelowTop(regions, k, pcs, p);
        assert Covers(regions[k], pcs[i]);
      }
    }
    if forall i :: 0 <= i < |pcs| ==> CoveredBySome(pcs[i], regions) {
      assert CoveredBySome(pcs[0], regions);
      forall i | 0 <= i < |pcs|
        ensures !InTop(pcs[i], p)
      {
        var k :| 0 <= k < |regions| && Covers(regions[k], pcs[i]);
        if InTop(pcs[i], p) {
          TopIsNotCovered(regions[k], pcs[i], p);
        }
      }
    }
  }

  /// A single pc in the first subregion is left out of the result.
  lemma StretchFromZeroIsDropped(regions: seq<Subregion>, p: Word)
    requires IsPow2(p) && p > 0 && IsResult(regions, [0], p)
    ensures regions == [] && !CoveredBySome(0, regions)
  {
    assert RoundDown(0, p) == 0;
    assert !LeavesGap([0], p);
    hide RoundDown, IsPow2;
  }

  /// A pc in the last subregion of the address space gets a correct region, which
  /// the check rejects: the region's end wraps to zero.
  lemma TopRegionIsRejected(regions: seq<Subregion>, p: Word)
    requires IsPow2(p) && p > 0 && IsResult(regions, [TWO_64 - 1], p)
    ensures AllInside([TWO_64 - 1], regions) && !CoveredBySome(TWO_64 - 1, regions)
  {
    var top: Word := TWO_64 - 1;
    RoundDownIsScale(top, p);
    Distance(top, top, p);
    TopIff(top, p);
    hide RoundDown, RoundUp, InTop, IsPow2, Scale, Index, Covers;
    forall k | 0 <= k < |regions| ensures !Covers(regions[k], top) {
      TopIsNotCovered(regions[k], top, p);
    }
  }
}

/// Finding the changed registers: lane-wise comparison, and the bit interleaving
/// that merges the two lanes into one mask.
module ChangedMask {
  import opened Machine

  predicate Bit64(w: bv64, k: bv32)
    requires k < 64
  {
    (w >> k) & 1 == 1
  }

  predicate Bit32(w: bv32, k: bv32)
    requires k < 32
  {
    (w >> k) & 1 == 1
  }

  /// `interleave_uint64x2_with_zeros_16bit`, one lane.
  function Interleave(w0: bv64): bv64 {
    var w1 := (w0 ^ (w0 << 8)) & 0x00ff_00ff;
    var w2 := (w1 ^ (w1 << 4)) & 0x0f0f_0f0f;
    var w3 := (w2 ^ (w2 << 2)) & 0x3333_3333;
    (w3 ^ (w3 << 1)) & 0x5555_5555
  }

  /// Bit `k` of a 16-bit word moves to bit `2k`, and odd bits are zero.
  lemma InterleaveSpreads(w: bv64, k: bv32)
    requires w < 0x1_0000 && k < 16
    ensures Bit64(Interleave(w), 2 * k) == Bit64(w, k)
    ensures !Bit64(Interleave(w), 2 * k + 1)
  {
  }

  function JoinLanes(a: bv64, b: bv64): bv64 {
    a | (b << 1)
  }

  /// The low 32 bits without the unused 32nd slot.
  function DropSlot31(w: bv64): bv32 {
    ((w & 0xffff_ffff) as bv32) & !(1 << 31)
  }

  function MergeLanes(lane0: bv64, lane1: bv64): bv32 {
    DropSlot31(JoinLanes(Interleave(lane0), Interleave(lane1)))
  }

  lemma JoinBits(a: bv64, b: bv64, k: bv32)
    requires k < 16 && !Bit64(a, 2 * k + 1) && (k > 0 ==> !Bit64(b, 2 * (k - 1) + 1))
    ensures Bit64(JoinLanes(a, b), 2 * k) == Bit64(a, 2 * k)
    ensures Bit64(JoinLanes(a, b), 2 * k + 1) == Bit64(b, 2 * k)
  {
  }

  lemma DropBits(w: bv64, k: bv32)
    requires k < 16
    ensures Bit32(DropSlot31(w), 2 * k) == Bit64(w, 2 * k)
    ensures Bit32(DropSlot31(w), 2 * k + 1) == (k < 15 && Bit64(w, 2 * k + 1))
  {
  }

  lemma MergeReads(lane0: bv64, lane1: bv64, k: bv32)
    requires lane0 < 0x1_0000 && lane1 < 0x1_0000 && k < 16
    ensures Bit32(MergeLanes(lane0, lane1), 2 * k) == Bit64(lane0, k)
    ensures Bit32(MergeLanes(lane0, lane1), 2 * k + 1) == (k < 15 && Bit64(lane1, k))
  {
    hide Interleave, Bit64, Bit32, JoinLanes, DropSlot31;
    InterleaveSpreads(lane0, k);
    InterleaveSpreads(lane1, k);
    if k > 0 {
      InterleaveSpreads(lane1, k - 1);
    }
    JoinBits(Interleave(lane0), Interleave(lane1), k);
    DropBits(JoinLanes(Interleave(lane0), Interleave(lane1)), k);
  }

  /// The result of a vector comparison in one lane: all ones or all zeros.
  function AllOnesIf(d: bool): bv64 {
    if d then 0xffff_ffff_ffff_ffff else 0
  }

  /// A 128-bit register compares as two lanes, which are then joined.
  function VecNotEqual(p: bv128, q: bv128): bv64 {
    AllOnesIf(p & 0xffff_ffff_ffff_ffff != q & 0xffff_ffff_ffff_ffff) | AllOnesIf(p >> 64 != q >> 64)
  }

  lemma VecNotEqualMeaning(p: bv128, q: bv128)
    ensures VecNotEqual(p, q) == AllOnesIf(p != q)
  {
    Halves(p, q);
  }

  lemma Halves(p: bv128, q: bv128)
    ensures p == q <==> p & 0xffff_ffff_ffff_ffff == q & 0xffff_ffff_ffff_ffff && p >> 64 == q >> 64
  {
  }

  function LowBit(lane: bv64): bv64 {
    lane & 1
  }

  function OrAt(mask: bv64, bit: bv64, i: bv32): bv64
    requires i < 32
  {
    mask | (bit << i)
  }

  function AddFlag(mask: bv64, lane: bv64, i: bv32): bv64
    requires i < 32
  {
    OrAt(mask, LowBit(lane), i)
  }

  predicate ClearFrom(mask: bv64, i: bv32)
    requires i <= 64
  {
    mask >> i == 0
  }

  lemma LowBitOf(d: bool)
    ensures LowBit(AllOnesIf(d)) == if d then 1 else 0
  {
  }

  lemma OrAtStaysClear(mask: bv64, bit: bv64, i: bv32)
    requires i < 32 && ClearFrom(mask, i) && bit <= 1
    ensures ClearFrom(OrAt(mask, bit, i), i + 1)
  {
  }

  lemma OrAtHere(mask: bv64, bit: bv64, i: bv32)
    requires i < 32 && ClearFrom(mask, i) && bit <= 1
    ensures Bit64(OrAt(mask, bit, i), i) == (bit == 1)
  {
  }

  lemma OrAtBelow(mask: bv64, bit: bv64, i: bv32, k: bv32)
    requires i < 32 && k < i && bit <= 1
    ensures Bit64(OrAt(mask, bit, i), k) == Bit64(mask, k)
  {
  }

  lemma AddFlagReads(mask: bv64, d: bool, i: bv32, k: bv32)
    requires i < 32 && k <= i && ClearFrom(mask, i)
    ensures var r := AddFlag(mask, AllOnesIf(d), i);
            ClearFrom(r, i + 1) && (Bit64(r, k) <==> if k == i then d else Bit64(mask, k))
  {
    LowBitOf(d);
    hide OrAt, LowBit, AllOnesIf, Bit64, ClearFrom;
    OrAtStaysClear(mask, LowBit(AllOnesIf(d)), i);
    if k == i {
      OrAtHere(mask, LowBit(AllOnesIf(d)), i);
    } else {
      OrAtBelow(mask, LowBit(AllOnesIf(d)), i, k);
    }
  }

  // ----- masks and the registers they name -----

  ghost predicate MarksAt(mask: bv64, flags: seq<bool>, k: nat)
    requires k < 32
  {
    SmallAsNat(k);
    k < |flags| && (Bit64(mask, Small(k)) <==> flags[k])
  }

  /// `mask` has exactly the bits `k < n` set for which `flags[k]` holds.
  ghost predicate Marks(mask: bv64, flags: seq<bool>, n: nat)
    requires n <= 32
  {
    SmallAsNat(n);
    && n <= |flags| && ClearFrom(mask, Small(n))
    && forall k: nat :: k < n ==> MarksAt(mask, flags, k)
  }

  /// Adds the comparison result of place `i`.
  function WithFlag(mask: bv64, lane: bv64, i: nat): bv64
    requires i < 32
  {
    SmallAsNat(i);
    AddFlag(mask, lane, Small(i))
  }

  lemma WithFlagMarksAt(mask: bv64, flags: seq<bool>, i: nat, k: nat)
    requires i < 32 && i < |flags| && Marks(mask, flags, i) && k <= i
    ensures MarksAt(WithFlag(mask, AllOnesIf(flags[i]), i), flags, k)
  {
    hide AddFlag, AllOnesIf, Bit64, Small, ClearFrom;
    SmallAsNat(i);
    SmallAsNat(k);
    SmallOrder(k, i);
    assert k < i ==> MarksAt(mask, flags, k);
    AddFlagReads(mask, flags[i], Small(i), Small(k));
  }

  lemma WithFlagMarks(mask: bv64, flags: seq<bool>, i: nat)
    requires i < 32 && i < |flags| && Marks(mask, flags, i)
    ensures Marks(WithFlag(mask, AllOnesIf(flags[i]), i), flags, i + 1)
  {
    hide AddFlag, AllOnesIf, Bit64, ClearFrom;
    SmallAsNat(i);
    forall k: nat | k < i + 1 ensures MarksAt(WithFlag(mask, AllOnesIf(flags[i]), i), flags, k) {
      WithFlagMarksAt(mask, flags, i, k);
    }
    AddFlagReads(mask, flags[i], Small(i), Small(i));
  }

  lemma {:induction false} SmallOrder(k: nat, i: nat)
    requires k <= i < 32
    ensures Small(k) <= Small(i) && (Small(k) == Small(i) <==> k == i)
    decreases i
  {
    SmallAsNat(i);
    if k < i {
      SmallAsNat(i - 1);
      SmallOrder(k, i - 1);
    }
  }

  lemma NothingMarked(flags: seq<bool>)
    ensures Marks(0, flags, 0)
  {
  }

  // ----- the two masks of a log message -----

  /// Which of two lists of registers differ.
  ghost function Differs<T>(last: seq<T>, now: seq<T>): (r: seq<bool>)
    requires |last| == |now|
    ensures |r| == |now| && forall i :: 0 <= i < |r| ==> r[i] == (last[i] != now[i])
  {
    seq(|now|, i requires 0 <= i < |now| => last[i] != now[i])
  }

  /// `mask` says, for each of 32 places below `n`, whether the registers differ.
  ghost predicate Selects(mask: bv32, flags: seq<bool>, n: nat) {
    forall k: nat :: k < 32 ==> SelectsAt(mask, flags, n, k)
  }

  ghost predicate SelectsAt(mask: bv32, flags: seq<bool>, n: nat, k: nat)
    requires k < 32
  {
    SmallAsNat(k);
    Bit32(mask, Small(k)) <==> k < n && k < |flags| && flags[k]
  }

  /// Two 64-bit lanes at a time; the 32nd slot belongs to `v[0]` and is dropped.
  method ChangedGprs(last: seq<bv64>, now: seq<bv64>) returns (mask: bv32)
    requires |last| == |now| == 32
    ensures Selects(mask, Differs(last, now), 31)
  {
    hide WithFlag, Marks, AllOnesIf;
    ghost var even := seq(16, i requires 0 <= i < 16 => last[2 * i] != now[2 * i]);
    ghost var odd := seq(16, i requires 0 <= i < 16 => last[2 * i + 1] != now[2 * i + 1]);
    var lane0: bv64, lane1: bv64 := 0, 0;
    NothingMarked(even);
    NothingMarked(odd);
    for i := 0 to 16
      invariant Marks(lane0, even, i) && Marks(lane1, odd, i)
    {
      WithFlagMarks(lane0, even, i);
      WithFlagMarks(lane1, odd, i);
      lane0 := WithFlag(lane0, AllOnesIf(now[2 * i] != last[2 * i]), i);
      lane1 := WithFlag(lane1, AllOnesIf(now[2 * i + 1] != last[2 * i + 1]), i);
    }
    mask := MergeLanes(lane0, lane1);
    MergeSelects(lane0, lane1, even, odd, Differs(last, now));
  }

  lemma MergeSelects(lane0: bv64, lane1: bv64, even: seq<bool>, odd: seq<bool>, flags: seq<bool>)
    requires |even| == |odd| == 16 && |flags| == 32
    requires forall i :: 0 <= i < 16 ==> even[i] == flags[2 * i] && odd[i] == flags[2 * i + 1]
    requires Marks(lane0, even, 16) && Marks(lane1, odd, 16)
    ensures Selects(MergeLanes(lane0, lane1), flags, 31)
  {
    LaneInRange(lane0, even);
    LaneInRange(lane1, odd);
    forall k: nat | k < 32 ensures SelectsAt(MergeLanes(lane0, lane1), flags, 31, k) {
      MergeSelectsAt(lane0, lane1, even, odd, flags, k / 2);
      assert k == 2 * (k / 2) || k == 2 * (k / 2) + 1;
    }
  }

  lemma LaneInRange(lane: bv64, flags: seq<bool>)
    requires |flags| == 16 && Marks(lane, flags, 16)
    ensures lane < 0x1_0000
  {
    SmallSixteen();
  }

  lemma MergeSelectsAt(lane0: bv64, lane1: bv64, even: seq<bool>, odd: seq<bool>, flags: seq<bool>, k: nat)
    requires |even| == |odd| == 16 && |flags| == 32 && k < 16 && lane0 < 0x1_0000 && lane1 < 0x1_0000
    requires even[k] == flags[2 * k] && odd[k] == flags[2 * k + 1]
    requires Marks(lane0, even, 16) && Marks(lane1, odd, 16)
    ensures SelectsAt(MergeLanes(lane0, lane1), flags, 31, 2 * k)
    ensures SelectsAt(MergeLanes(lane0, lane1), flags, 31, 2 * k + 1)
  {
    hide MergeLanes, Bit64, Bit32, Small, ClearFrom;
    SmallDouble(k);
    assert MarksAt(lane0, even, k) && MarksAt(lane1, odd, k);
    MergeReads(lane0, lane1, Small(k));
  }

  lemma SixteenAsNat(w: bv32)
    ensures w as nat < 16 <==> w < 16
    ensures w as nat < 15 <==> w < 15
    ensures w as nat == 16 <==> w == 16
  {
  }

  lemma SmallSixteen()
    ensures Small(16) == 16
  {
    SmallAsNat(16);
    SixteenAsNat(Small(16));
  }

  lemma {:induction false} SmallDouble(k: nat)
    requires k < 16
    ensures Small(2 * k) == 2 * Small(k) && Small(2 * k + 1) == 2 * Small(k) + 1
    ensures Small(k) < 16 && (Small(k) < 15 <==> k < 15)
  {
    if k > 0 {
      SmallDouble(k - 1);
    }
    SmallAsNat(k);
    SixteenAsNat(Small(k));
  }

  lemma WordBit(mask: bv64, k: bv32)
    requires k < 32
    ensures Bit32((mask & 0xffff_ffff) as bv32, k) == Bit64(mask, k)
  {
  }

  lemma WordSelectsAt(mask: bv64, flags: seq<bool>, k: nat)
    requires |flags| == 32 && k < 32 && Marks(mask, flags, 32)
    ensures SelectsAt((mask & 0xffff_ffff) as bv32, flags, 32, k)
  {
    assert MarksAt(mask, flags, k);
    SmallAsNat(k);
    hide Small, Bit32, Bit64;
    WordBit(mask, Small(k));
  }

  /// The same for the vector registers: one flag each, from both halves.
  method ChangedVecs(last: seq<bv128>, now: seq<bv128>) returns (mask: bv32)
    requires |last| == |now| == 32
    ensures Selects(mask, Differs(last, now), 32)
  {
    ghost var flags := Differs(last, now);
    var flagged: bv64 := 0;
    NothingMarked(flags);
    hide Marks, WithFlag, VecNotEqual, AllOnesIf;
    for i := 0 to 32
      invariant Marks(flagged, flags, i)
    {
      VecNotEqualMeaning(now[i], last[i]);
      WithFlagMarks(flagged, flags, i);
      flagged := WithFlag(flagged, VecNotEqual(now[i], last[i]), i);
    }
    mask := (flagged & 0xffff_ffff) as bv32;
    forall k: nat | k < 32 ensures SelectsAt(mask, flags, 32, k) {
      WordSelectsAt(flagged, flags, k);
    }
  }
}

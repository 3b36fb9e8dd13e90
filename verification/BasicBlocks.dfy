/// Basic blocks of a pc trace: maximal runs of pcs four bytes apart.
module BasicBlocks {
  import opened Machine

  const TWO_32: nat := 0x1_0000_0000

  /// `sz` is a 32-bit field.
  datatype Block = Block(pc: Word, sz: nat)

  /// `k` instructions from `start` on.
  function Stretch(start: Word, k: nat): (r: seq<Word>)
    ensures |r| == k
  {
    if k == 0 then [] else Stretch(start, k - 1) + [Add(start, 4 * (k - 1))]
  }

  /// The pcs a list of blocks stands for.
  function Expand(bbs: seq<Block>): seq<Word> {
    if bbs == [] then [] else
      var last := bbs[|bbs| - 1];
      Expand(bbs[..|bbs| - 1]) + Stretch(last.pc, last.sz / 4)
  }

  /// The length of the run of consecutive pcs that ends at position `i`.
  function RunLength(pcs: seq<Word>, i: nat): (r: nat)
    requires i < |pcs|
    ensures 1 <= r <= i + 1
  {
    if i > 0 && Add(pcs[i - 1], 4) == pcs[i] then RunLength(pcs, i - 1) + 1 else 1
  }

  /// As many instructions as make a 32-bit size wrap around.
  const WRAPPING_RUN: nat := 0x4000_0000

  /// The runs among the first `n` pcs are short enough for a 32-bit size.
  ghost predicate FitUpTo(pcs: seq<Word>, n: nat)
    requires n <= |pcs|
  {
    forall i :: 0 <= i < n ==> RunLength(pcs, i) < WRAPPING_RUN
  }

  ghost predicate RunsFit(pcs: seq<Word>) {
    FitUpTo(pcs, |pcs|)
  }

  ghost predicate BlocksWellFormed(bbs: seq<Block>) {
    forall k :: 0 <= k < |bbs| ==> 0 < bbs[k].sz < TWO_32 && bbs[k].sz % 4 == 0
  }

  /// No block continues where the one before it ends.
  ghost predicate BlocksMaximal(bbs: seq<Block>) {
    forall k :: 0 < k < |bbs| ==> Add(bbs[k - 1].pc, bbs[k - 1].sz) != bbs[k].pc
  }

  lemma AddTwice(a: Word, i: nat, j: nat)
    ensures Add(Add(a, i), j) == Add(a, i + j)
  {
  }

  lemma AddThenSub(a: Word, k: nat)
    requires k < TWO_64
    ensures Sub(Add(a, k), a) == k
  {
  }

  lemma StretchEnd(start: Word, k: nat)
    requires k > 0
    ensures Add(Stretch(start, k)[k - 1], 4) == Add(start, 4 * k)
    ensures Stretch(start, k + 1) == Stretch(start, k) + [Add(start, 4 * k)]
  {
    AddTwice(start, 4 * (k - 1), 4);
  }

  lemma SubUndoesAdd(a: Word, k: nat)
    ensures Sub(Add(a, k), a) == k % TWO_64
  {
  }

  lemma FourTimes(k: nat)
    ensures 4 * k % TWO_64 % TWO_32 == 4 * (k % WRAPPING_RUN)
  {
    var whole: nat := k / WRAPPING_RUN;
    var rest: nat := k % WRAPPING_RUN;
    var high: nat := whole / TWO_32;
    var low: nat := whole % TWO_32;
    DivisionIsUnique(4 * k, TWO_64, high, TWO_32 * low + 4 * rest);
    DivisionIsUnique(TWO_32 * low + 4 * rest, TWO_32, low, 4 * rest);
  }

  /// The block size the source computes from the first and the last pc: four times
  /// the length of the run, modulo 2^32.
  lemma BlockSize(start: Word, last: Word, k: nat)
    requires k > 0 && last == Add(start, 4 * (k - 1))
    ensures Sub(Add(last, 4), start) % TWO_32 == 4 * (k % WRAPPING_RUN)
    ensures k < WRAPPING_RUN ==> Sub(Add(last, 4), start) % TWO_32 == 4 * k
  {
    hide Add, Sub;
    AddTwice(start, 4 * (k - 1), 4);
    SubUndoesAdd(start, 4 * k);
    FourTimes(k);
  }

  lemma LastIs(start: Word, k: nat)
    requires k > 0
    ensures Stretch(start, k)[k - 1] == Add(start, 4 * (k - 1))
  {
  }

  lemma ExpandAppend(bbs: seq<Block>, b: Block)
    ensures Expand(bbs + [b]) == Expand(bbs) + Stretch(b.pc, b.sz / 4)
  {
    assert (bbs + [b])[..|bbs|] == bbs;
  }

  /// The last pc differs from the start exactly when the run is longer than one.
  lemma StartIsLastIff(start: Word, k: nat)
    requires 0 < k < WRAPPING_RUN
    ensures start == Stretch(start, k)[k - 1] <==> k == 1
  {
    AddThenSub(start, 4 * (k - 1));
  }

  /// The state of the loop with `k` instructions of the current run seen.
  ghost predicate InRun(seen: seq<Word>, bbs: seq<Block>, start: Word, last: Word, k: nat) {
    && 0 < k < WRAPPING_RUN
    && BlocksWellFormed(bbs) && BlocksMaximal(bbs)
    && Expand(bbs) + Stretch(start, k) == seen
    && last == Stretch(start, k)[k - 1]
    && (bbs != [] ==> Ends(bbs) != start)
  }

  /// Where the last block ends.
  function Ends(bbs: seq<Block>): Word
    requires bbs != []
  {
    Add(bbs[|bbs| - 1].pc, bbs[|bbs| - 1].sz)
  }

  /// Emitting the block of the current run covers everything seen.
  lemma EmitBlock(seen: seq<Word>, bbs: seq<Block>, start: Word, last: Word, k: nat)
    requires InRun(seen, bbs, start, last, k)
    ensures var bbs' := bbs + [Block(start, Sub(Add(last, 4), start) % TWO_32)];
            && BlocksWellFormed(bbs') && BlocksMaximal(bbs')
            && Expand(bbs') == seen && Ends(bbs') == Add(last, 4)
  {
    hide BlocksWellFormed, BlocksMaximal, Expand, Stretch, Add, Sub, Ends;
    LastIs(start, k);
    BlockSize(start, last, k);
    StretchEnd(start, k);
    AppendBlock(bbs, start, k);
  }

  lemma AppendBlock(bbs: seq<Block>, start: Word, k: nat)
    requires 0 < k < WRAPPING_RUN && BlocksWellFormed(bbs) && BlocksMaximal(bbs)
    requires bbs != [] ==> Ends(bbs) != start
    ensures var bbs' := bbs + [Block(start, 4 * k)];
            && BlocksWellFormed(bbs') && BlocksMaximal(bbs')
            && Expand(bbs') == Expand(bbs) + Stretch(start, k) && Ends(bbs') == Add(start, 4 * k)
  {
    var b := Block(start, 4 * k);
    assert b.sz / 4 == k;
    ExpandAppend(bbs, b);
    StaysWellFormed(bbs, b);
    StaysMaximal(bbs, b);
    hide Expand, Stretch, Add, BlocksWellFormed, BlocksMaximal;
  }

  lemma StaysWellFormed(bbs: seq<Block>, b: Block)
    requires BlocksWellFormed(bbs) && 0 < b.sz < TWO_32 && b.sz % 4 == 0
    ensures BlocksWellFormed(bbs + [b])
  {
  }

  lemma StaysMaximal(bbs: seq<Block>, b: Block)
    requires BlocksMaximal(bbs) && (bbs != [] ==> Ends(bbs) != b.pc)
    ensures BlocksMaximal(bbs + [b])
  {
    hide Add;
  }

  lemma ExtendRun(seen: seq<Word>, bbs: seq<Block>, start: Word, last: Word, k: nat, pc: Word)
    requires InRun(seen, bbs, start, last, k) && Add(last, 4) == pc && k + 1 < WRAPPING_RUN
    ensures InRun(seen + [pc], bbs, start, pc, k + 1)
  {
    StretchEnd(start, k);
    hide Expand, Add, BlocksWellFormed, BlocksMaximal;
  }

  lemma StartRun(seen: seq<Word>, bbs: seq<Block>, pc: Word)
    requires BlocksWellFormed(bbs) && BlocksMaximal(bbs) && Expand(bbs) == seen
    requires bbs != [] ==> Ends(bbs) != pc
    ensures InRun(seen + [pc], bbs, pc, pc, 1)
  {
    assert Stretch(pc, 0) == [];
    assert Stretch(pc, 1) == [pc];
  }

  // ----- runs of any length -----

  /// The state of the loop after `i` pcs whatever the runs are. Once a run was too
  /// long for its size, its block stands for 2^30 pcs less at least.
  ghost predicate Counted(pcs: seq<Word>, i: nat, bbs: seq<Block>, start: Word, last: Word, k: nat) {
    && 0 < i <= |pcs| && k == RunLength(pcs, i - 1) && last == pcs[i - 1] == Add(start, 4 * (k - 1))
    && |Expand(bbs)| + k <= i
    && (FitUpTo(pcs, i) || k >= WRAPPING_RUN || |Expand(bbs)| + k + WRAPPING_RUN <= i)
  }

  /// The blocks emitted so far, and the pcs they miss.
  ghost predicate Emitted(pcs: seq<Word>, i: nat, bbs: seq<Block>) {
    i <= |pcs| && |Expand(bbs)| <= i && (FitUpTo(pcs, i) || |Expand(bbs)| + WRAPPING_RUN <= i)
  }

  lemma EmitCounted(pcs: seq<Word>, i: nat, bbs: seq<Block>, start: Word, last: Word, k: nat)
    requires Counted(pcs, i, bbs, start, last, k)
    ensures Emitted(pcs, i, bbs + [Block(start, Sub(Add(last, 4), start) % TWO_32)])
  {
    hide Expand, Stretch, RunLength, FitUpTo, Add, Sub;
    BlockSize(start, last, k);
    ExpandAppend(bbs, Block(start, 4 * (k % WRAPPING_RUN)));
  }

  lemma StartCounted(pcs: seq<Word>, i: nat, bbs: seq<Block>)
    requires Emitted(pcs, i, bbs) && i < |pcs| && (i == 0 || Add(pcs[i - 1], 4) != pcs[i])
    ensures Counted(pcs, i + 1, bbs, pcs[i], pcs[i], 1)
  {
    hide Expand;
  }

  lemma ExtendCounted(pcs: seq<Word>, i: nat, bbs: seq<Block>, start: Word, last: Word, k: nat)
    requires Counted(pcs, i, bbs, start, last, k) && i < |pcs| && Add(last, 4) == pcs[i]
    ensures Counted(pcs, i + 1, bbs, start, pcs[i], k + 1)
  {
    AddTwice(start, 4 * (k - 1), 4);
    hide Expand, Add;
  }

  /// The final pc is dropped when its run has length one, and only that, exactly
  /// when no run is so long that its size wraps around.
  method ExtractBbs(pcs: seq<Word>) returns (bbs: seq<Block>)
    requires pcs != []
    ensures Expand(bbs) == (if RunLength(pcs, |pcs| - 1) == 1 then pcs[..|pcs| - 1] else pcs) <==> RunsFit(pcs)
    ensures !RunsFit(pcs) ==> |Expand(bbs)| + 0x4000_0000 <= |pcs|
    ensures RunsFit(pcs) ==> BlocksWellFormed(bbs) && BlocksMaximal(bbs)
    ensures RunsFit(pcs) && RunLength(pcs, |pcs| - 1) == 1 && bbs != [] ==> Ends(bbs) != pcs[|pcs| - 1]
  {
    hide BlocksWellFormed, BlocksMaximal, Expand, Stretch, Add, Sub, Ends;
    bbs := [];
    var bbStart := pcs[0];
    var lastPc := Sub(pcs[0], 4);
    ghost var k := 0;
    NoBlocks();
    FirstPcContinues(pcs[0]);
    for i := 0 to |pcs|
      invariant i == 0 ==> bbs == [] && bbStart == pcs[0] && lastPc == Sub(pcs[0], 4)
      invariant i > 0 ==> Counted(pcs, i, bbs, bbStart, lastPc, k)
      invariant i > 0 && FitUpTo(pcs, i) ==> InRun(pcs[..i], bbs, bbStart, lastPc, k)
    {
      var pc := pcs[i];
      assert pcs[..i + 1] == pcs[..i] + [pc];
      if Add(lastPc, 4) != pc {
        EmitCounted(pcs, i, bbs, bbStart, lastPc, k);
        if FitUpTo(pcs, i) {
          EmitBlock(pcs[..i], bbs, bbStart, lastPc, k);
        }
        bbs := bbs + [Block(bbStart, Sub(Add(lastPc, 4), bbStart) % TWO_32)];
        StartCounted(pcs, i, bbs);
        if FitUpTo(pcs, i) {
          StartRun(pcs[..i], bbs, pc);
        }
        bbStart := pc;
        k := 1;
      } else if i == 0 {
        StartCounted(pcs, 0, []);
        StartRun([], [], pc);
        k := 1;
      } else {
        if FitUpTo(pcs, i + 1) {
          ExtendRun(pcs[..i], bbs, bbStart, lastPc, k, pc);
        }
        ExtendCounted(pcs, i, bbs, bbStart, lastPc, k);
        k := k + 1;
      }
      lastPc := pc;
    }
    assert pcs[..|pcs|] == pcs;
    if RunsFit(pcs) {
      StartIsLastIff(bbStart, k);
    }
    if bbStart != lastPc {
      EmitCounted(pcs, |pcs|, bbs, bbStart, lastPc, k);
      if RunsFit(pcs) {
        EmitBlock(pcs, bbs, bbStart, lastPc, k);
      }
      bbs := bbs + [Block(bbStart, Sub(Add(lastPc, 4), bbStart) % TWO_32)];
    } else if RunsFit(pcs) {
      OneLeft(pcs, bbs, bbStart, lastPc);
    }
  }

  lemma {:induction false} StraightRunLength(pcs: seq<Word>, start: Word, i: nat)
    requires i < |pcs| && forall j :: 0 <= j < |pcs| ==> pcs[j] == Add(start, 4 * j)
    ensures RunLength(pcs, i) == i + 1
  {
    if i > 0 {
      AddTwice(start, 4 * (i - 1), 4);
      StraightRunLength(pcs, start, i - 1);
    }
  }

  /// A straight run of 2^30 pcs is too long, and one shorter is not. With the count
  /// of `ExtractBbs`, blocks for a trace that is just that run cover none of it.
  lemma StraightRunFitsIff(pcs: seq<Word>, start: Word)
    requires pcs != [] && forall j :: 0 <= j < |pcs| ==> pcs[j] == Add(start, 4 * j)
    ensures RunsFit(pcs) <==> |pcs| < 0x4000_0000
  {
    hide Add, RunLength;
    forall i: nat | i < |pcs| ensures RunLength(pcs, i) == i + 1 {
      StraightRunLength(pcs, start, i);
    }
    assert RunLength(pcs, |pcs| - 1) == |pcs|;
  }

  /// The loop starts with the pc before the first one, so the first step continues.
  lemma FirstPcContinues(pc: Word)
    ensures Add(Sub(pc, 4), 4) == pc
  {
  }

  lemma NoBlocks()
    ensures BlocksWellFormed([]) && BlocksMaximal([]) && Expand([]) == []
  {
  }

  lemma OneLeft(seen: seq<Word>, bbs: seq<Block>, start: Word, last: Word)
    requires InRun(seen, bbs, start, last, 1)
    ensures seen != [] && Expand(bbs) == seen[..|seen| - 1] && last == seen[|seen| - 1] == start
  {
    assert Stretch(start, 0) == [];
    assert Stretch(start, 1) == [start];
  }
}

/// The pc of a replayed context. Replay sets the pc only on a branch, so on
/// straight-line code it stays behind the logged one.
module ReplayedPcs {
  import opened LogFormat
  import opened Machine
  import opened TraceFrames
  import opened TraceReader
  import opened TraceTheorems
  import opened TraceWriter
  import opened WordCount

  /// The replayed pcs: a branch brings the logged pc, any other step keeps it.
  ghost function ReplayedFrom(last: Context, pc: bv64, cs: seq<Context>): (r: seq<bv64>)
    ensures |r| == |cs|
    decreases |cs|
  {
    if cs == [] then [] else
      var u := if Branches(last, cs[0]) then cs[0].pc else pc;
      [u] + ReplayedFrom(cs[0], u, cs[1..])
  }

  lemma {:induction false} ReplayPcsOfRun(m: Bytes, f: Bytes, frames: seq<Frame>, st: WriterState, cs: seq<Context>,
      c: Context)
    requires m == f + Concat(frames) && Complete(m) && Size(m) == |f|
    requires LogFrom(frames, st, cs) && Agree(c, st.last)
    ensures Walkable(m) && PcsOf(ReplayFrom(m, c)) == ReplayedFrom(st.last, c.pc, cs)
    decreases |frames|
  {
    hide *;
    CompleteIsNotEmpty(m);
    var st' := StepOverRun(m, f, frames, st, cs);
    if frames == [] {
      EmptyRun(frames, st, cs);
      ReplayEnd(m, c);
      NothingReplayed(st.last, c.pc);
    } else {
      FromDeltaIs(frames);
      var k, n := Skip(frames), Next(m);
      DeltaUpdates(frames[k].bytes, st.last, cs[0], Concat(frames[k + 1..]), c);
      var u := Updated(c, n);
      ReplayPcsOfRun(n, frames[k].bytes, frames[k + 1..], st', cs[1..], u);
      ReplayStep(m, c);
      PcsOfCons(ReplayFrom(m, c));
      ReplayedNext(st.last, c.pc, cs);
      assert ReplayFrom(m, c)[1..] == ReplayFrom(n, u);
    }
  }

  lemma NothingReplayed(last: Context, pc: bv64)
    ensures ReplayedFrom(last, pc, []) == [] == PcsOf([])
  {
  }

  lemma ReplayedNext(last: Context, pc: bv64, cs: seq<Context>)
    requires cs != []
    ensures var u := if Branches(last, cs[0]) then cs[0].pc else pc;
            ReplayedFrom(last, pc, cs) == [u] + ReplayedFrom(cs[0], u, cs[1..])
  {
    hide Branches;
  }

  // ----- where the replayed pc comes from -----

  /// The last step at or before `i` that was not to the next instruction, or the first
  /// of all.
  ghost function LastBranch(cs: seq<Context>, i: nat): (b: nat)
    requires i < |cs|
    ensures b <= i
  {
    if i == 0 || cs[i].pc != cs[i - 1].pc + 4 then i else LastBranch(cs, i - 1)
  }

  lemma NextOrBranch(last: Context, ctx: Context)
    ensures Branches(last, ctx) <==> !IsNext(last.pc, ctx.pc)
  {
    hide Branches, IsNext;
    StepCarries(last, ctx);
  }

  lemma LastBranchNext(cs: seq<Context>, i: nat)
    requires i < |cs|
    ensures LastBranch(cs, i) == if i == 0 || !IsNext(cs[i - 1].pc, cs[i].pc) then i else LastBranch(cs, i - 1)
  {
  }

  /// Every step after the last branch is to the next instruction, and that one is not.
  lemma {:induction false} LastBranchMeaning(cs: seq<Context>, i: nat)
    requires i < |cs|
    ensures var b := LastBranch(cs, i);
            && (b > 0 ==> !IsNext(cs[b - 1].pc, cs[b].pc))
            && forall j :: b < j <= i ==> IsNext(cs[j - 1].pc, cs[j].pc)
  {
    hide LastBranch, IsNext;
    LastBranchNext(cs, i);
    if i > 0 {
      LastBranchMeaning(cs, i - 1);
    }
  }

  lemma {:induction false} ReplayedStep(last: Context, pc: bv64, cs: seq<Context>, i: nat)
    requires 0 < i < |cs|
    ensures var r := ReplayedFrom(last, pc, cs);
            r[i] == if Branches(cs[i - 1], cs[i]) then cs[i].pc else r[i - 1]
    decreases |cs|
  {
    hide Branches;
    if i > 1 {
      ReplayedStep(cs[0], if Branches(last, cs[0]) then cs[0].pc else pc, cs[1..], i - 1);
    }
  }

  lemma ReplayedFirst(cs: seq<Context>)
    requires cs != []
    ensures ReplayedFrom(cs[0], cs[0].pc, cs)[0] == cs[0].pc
  {
    hide Branches;
  }

  lemma {:induction false} ReplayedAt(cs: seq<Context>, i: nat)
    requires i < |cs|
    ensures ReplayedFrom(cs[0], cs[0].pc, cs)[i] == cs[LastBranch(cs, i)].pc
  {
    hide Branches, ReplayedFrom, LastBranch, IsNext;
    ReplayedFirst(cs);
    LastBranchNext(cs, i);
    if i > 0 {
      ReplayedAt(cs, i - 1);
      ReplayedStep(cs[0], cs[0].pc, cs, i);
      NextOrBranch(cs[i - 1], cs[i]);
    }
  }

  // ----- straight-line code -----

  function FourTimes(k: nat): bv64 {
    Twice(Twice(CountFrom(0, k)))
  }

  /// `x` is `u` bytes on from `pc`.
  predicate Ahead(pc: bv64, u: bv64, x: bv64) {
    x - pc == u
  }

  lemma FourMore(t: bv64)
    ensures Twice(Twice(Plus(t, 1))) == Twice(Twice(t)) + 4
    ensures Twice(Twice(0)) == 0
  {
  }

  lemma FourTimesNext(k: nat)
    ensures FourTimes(0) == 0 && FourTimes(k + 1) == FourTimes(k) + 4
  {
    hide Twice, Plus;
    FourMore(CountFrom(0, k));
  }

  lemma AheadNext(pc: bv64, u: bv64, x: bv64, next: bv64)
    requires Ahead(pc, u, x) && IsNext(x, next)
    ensures Ahead(pc, u + 4, next)
  {
  }

  lemma AheadNothing(pc: bv64)
    ensures Ahead(pc, 0, pc)
  {
  }

  lemma NoDifference(pc: bv64, x: bv64)
    ensures x - pc == 0 <==> x == pc
  {
  }

  lemma AheadReturnsIff(pc: bv64, u: bv64, x: bv64)
    requires Ahead(pc, u, x)
    ensures x == pc <==> u == 0
  {
    NoDifference(pc, x);
  }

  /// Steps to the next instruction add up.
  lemma {:induction false} StraightRun(cs: seq<Context>, b: nat, i: nat)
    requires b <= i < |cs| && forall j :: b < j <= i ==> IsNext(cs[j - 1].pc, cs[j].pc)
    ensures Ahead(cs[b].pc, FourTimes(i - b), cs[i].pc)
    decreases i
  {
    hide FourTimes, Ahead, IsNext;
    FourTimesNext(if i > b then i - b - 1 else 0);
    if i > b {
      StraightRun(cs, b, i - 1);
      assert IsNext(cs[i - 1].pc, cs[i].pc);
      AheadNext(cs[b].pc, FourTimes(i - b - 1), cs[i - 1].pc, cs[i].pc);
    } else {
      AheadNothing(cs[b].pc);
    }
  }

  /// Four times a count is zero exactly at the multiples of 2^62.
  lemma FourTimesVanishesIff(k: nat)
    ensures FourTimes(k) == 0 <==> k % 0x4000_0000_0000_0000 == 0
  {
    hide CountFrom, Pow2, Doubled, Twice;
    WordWidth();
    CountVanishesIff(k, 2);
    DoubledTwo(0, CountFrom(0, k));
    DoubledNone(Twice(Twice(CountFrom(0, k))));
  }

  /// The pcs replayed from a written log.
  lemma ReplayedPcsOfLog(frames: seq<Frame>, cs: seq<Context>)
    requires IsLogOf(frames, cs)
    ensures var buf := Concat(frames);
            && Walkable(buf) && IsSync(buf) && Complete(buf)
            && PcsOf(ReplayFrom(buf, SyncContext(buf))) == ReplayedFrom(cs[0], cs[0].pc, cs)
  {
    hide IsSync, Complete, Size, LogFrom, Walkable, ReplayFrom, SyncBytes;
    StartsWithSync(frames, cs);
    BufferStart(frames, cs);
    ReplayPcsOfRun(Concat(frames), SyncBytes(0, cs[0]), frames[1..], WriterState(cs[0], 0, 0), cs, cs[0]);
  }

  /// Over a whole run, the replayed pc of context `i` is the pc of the last step at
  /// or before it that was not to the next instruction. It is the logged pc exactly when context `i` is
  /// that step, or a multiple of 2^62 steps after it.
  lemma ReplayedPc(frames: seq<Frame>, cs: seq<Context>, i: nat)
    requires IsLogOf(frames, cs) && i < |cs|
    ensures var buf := Concat(frames);
            && Walkable(buf) && IsSync(buf) && Complete(buf)
            && |ReplayFrom(buf, SyncContext(buf))| == |cs|
            && IsReplayedPc(ReplayFrom(buf, SyncContext(buf))[i].pc, cs, i)
  {
    hide *;
    LogIsNotEmpty(frames, cs);
    ReplayedPcsOfLog(frames, cs);
    var us := ReplayFrom(Concat(frames), SyncContext(Concat(frames)));
    assert PcsOf(us)[i] == us[i].pc;
    ReplayedAt(cs, i);
    BranchOrBehind(cs, i);
  }

  ghost predicate IsReplayedPc(pc: bv64, cs: seq<Context>, i: nat)
    requires i < |cs|
  {
    var b := LastBranch(cs, i);
    && pc == cs[b].pc
    && (pc == cs[i].pc <==> (i - b) % 0x4000_0000_0000_0000 == 0)
  }

  lemma LogIsNotEmpty(frames: seq<Frame>, cs: seq<Context>)
    requires IsLogOf(frames, cs)
    ensures cs != []
  {
    hide LogFrom;
  }

  lemma BranchOrBehind(cs: seq<Context>, i: nat)
    requires i < |cs|
    ensures IsReplayedPc(cs[LastBranch(cs, i)].pc, cs, i)
  {
    hide Ahead, FourTimes, LastBranch, IsNext;
    var b := LastBranch(cs, i);
    LastBranchMeaning(cs, i);
    StraightRun(cs, b, i);
    AheadReturnsIff(cs[b].pc, FourTimes(i - b), cs[i].pc);
    FourTimesVanishesIff(i - b);
  }
}

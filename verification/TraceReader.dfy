/// Reading a thread's log back: the iterators, and what they yield for a buffer
/// that the writer produced.
module TraceReader {
  import opened HeaderBits
  import opened LogFormat
  import opened TraceFrames
  import opened TraceWriter

  // ----- the iterator step, on the rest of the buffer -----

  /// The iterator at the front of `m` can advance: its message is complete, and a
  /// sync frame that follows is complete and not followed by another.
  predicate CanStep(m: Bytes) {
    && Complete(m)
    && var m1 := m[Size(m)..];
       m1 == [] ||
       (Complete(m1) && (IsSync(m1) ==>
          var m2 := m1[Size(m1)..];
          m2 == [] || (Complete(m2) && !IsSync(m2))))
  }

  function Next(m: Bytes): (r: Bytes)
    requires CanStep(m)
    ensures |r| < |m|
    ensures r == [] || (Complete(r) && !IsSync(r))
  {
    var m1 := m[Size(m)..];
    if m1 != [] && IsSync(m1) then m1[Size(m1)..] else m1
  }

  predicate Walkable(m: Bytes)
    decreases |m|
  {
    m == [] || (CanStep(m) && Walkable(Next(m)))
  }

  /// The pc after moving to message `n`.
  function StepPc(n: Bytes, pc: bv64): bv64
    requires Complete(n) && !IsSync(n)
  {
    if PcBranched(GprHeader(n)) then Pc(n) else pc + 4
  }

  /// The pcs yielded from the message at the front of `m` on.
  ghost function PcsFrom(m: Bytes, pc: bv64): seq<bv64>
    requires Walkable(m)
    decreases |m|
  {
    if m == [] then [] else
      var n := Next(m);
      [pc] + if n == [] then [] else PcsFrom(n, StepPc(n, pc))
  }

  /// The contexts obtained by applying the messages after the one at the front.
  ghost function ReplayFrom(m: Bytes, c: Context): seq<Context>
    requires Walkable(m)
    decreases |m|
  {
    if m == [] || Next(m) == [] then [] else
      var u := Updated(c, Next(m));
      [u] + ReplayFrom(Next(m), u)
  }

  /// What one step finds in a walkable buffer.
  lemma WalkableStep(m: Bytes)
    requires Walkable(m) && m != []
    ensures CanStep(m) && |m| >= 8 && Complete(m) && Size(m) <= |m| && Walkable(Next(m))
    ensures var m1 := m[Size(m)..];
            m1 != [] ==>
              && |m1| >= 8 && Complete(m1) && Size(m1) <= |m1|
              && Next(m) == if IsSync(m1) then m1[Size(m1)..] else m1
    ensures m[Size(m)..] == [] ==> Next(m) == []
    ensures Next(m) == [] || (Complete(Next(m)) && !IsSync(Next(m)))
  {
    hide IsSync, Size;
  }

  class PcIterator {
    const buf: Bytes
    var at: nat
    var pc: bv64

    ghost predicate Valid()
      reads this
    {
      at <= |buf| && Walkable(buf[at..])
    }

    constructor (buf: Bytes, pc: bv64)
      requires Walkable(buf)
      ensures Valid() && this.buf == buf && at == 0 && this.pc == pc
    {
      this.buf, at, this.pc := buf, 0, pc;
      new;
      assert buf[0..] == buf;
    }

    /// The source also looks at the header when the end is reached; that read is
    /// guarded here.
    method Advance()
      requires Valid() && at < |buf|
      modifies this
      ensures Valid() && buf[at..] == Next(old(buf[at..]))
      ensures pc == if at < |buf| then StepPc(buf[at..], old(pc)) else old(pc)
    {
      hide Walkable, CanStep, Next, StepPc, Complete, IsSync, Size;
      ghost var m := buf[at..];
      WalkableStep(m);
      at := at + Size(buf[at..]);
      assert buf[at..] == m[Size(m)..];
      if at != |buf| && IsSync(buf[at..]) {
        ghost var m1 := buf[at..];
        at := at + Size(buf[at..]);
        assert buf[at..] == m1[Size(m1)..];
      }
      if at < |buf| {
        pc := StepPc(buf[at..], pc);
      }
    }
  }

  method ExtractPcs(buf: Bytes) returns (pcs: seq<bv64>)
    requires buf != [] && Walkable(buf) && IsSync(buf)
    ensures pcs == PcsFrom(buf, SyncContext(buf).pc)
  {
    hide Complete, IsSync, Size, CanStep, Next, StepPc, Walkable, PcsFrom, SyncContext;
    pcs := [];
    WalkableStep(buf);
    ghost var all := PcsFrom(buf, SyncContext(buf).pc);
    var i := new PcIterator(buf, SyncContext(buf).pc);
    assert buf[0..] == buf;
    assert pcs + all == all;
    while i.at != |buf|
      invariant i.buf == buf && i.Valid()
      invariant pcs + PcsFrom(buf[i.at..], i.pc) == all
      decreases |buf| - i.at
    {
      ghost var m, pc := buf[i.at..], i.pc;
      PcsUnfold(m, pc);
      pcs := pcs + [i.pc];
      i.Advance();
      PcsAtEnd(buf[i.at..], i.pc);
    }
    PcsAtEnd(buf[i.at..], i.pc);
  }

  lemma PcsUnfold(m: Bytes, pc: bv64)
    requires Walkable(m) && m != []
    ensures CanStep(m) && Walkable(Next(m))
    ensures PcsFrom(m, pc) == [pc] + if Next(m) == [] then [] else PcsFrom(Next(m), StepPc(Next(m), pc))
  {
    hide CanStep, Next, StepPc;
  }

  lemma PcsAtEnd(m: Bytes, pc: bv64)
    requires Walkable(m)
    ensures m == [] ==> PcsFrom(m, pc) == []
  {
  }

  // ----- one step over a written run -----

  ghost function PcsOf(cs: seq<Context>): (r: seq<bv64>)
    ensures |r| == |cs| && forall i :: 0 <= i < |r| ==> r[i] == cs[i].pc
  {
    seq(|cs|, i requires 0 <= i < |cs| => cs[i].pc)
  }

  /// The index of the next delta: 1 after a sync frame, else 0.
  function Skip(frames: seq<Frame>): nat
    requires frames != []
  {
    if frames[0].Sync? then 1 else 0
  }

  /// The next delta message of a run, and the run after it.
  lemma RunHead(frames: seq<Frame>, st: WriterState, cs: seq<Context>) returns (st': WriterState)
    requires frames != [] && LogFrom(frames, st, cs)
    ensures var k := Skip(frames);
      && k < |frames| && frames[k].Delta? && cs != [] && frames[k].ctx == cs[0]
      && IsDelta(frames[k].bytes, st.last, cs[0])
      && st'.last == cs[0] && LogFrom(frames[k + 1..], st', cs[1..])
  {
    hide IsDelta, SyncBytes;
    var k := Skip(frames);
    var mid := if k == 1 then AfterFrame(st, frames[0]) else st;
    if k == 1 {
      assert frames[1..][0] == frames[1] && frames[1..][1..] == frames[2..];
    }
    st' := AfterFrame(mid, frames[k]);
  }

  /// The buffer from the next delta message on.
  ghost function FromDelta(frames: seq<Frame>): Bytes
    requires frames != [] && Skip(frames) < |frames|
  {
    frames[Skip(frames)].bytes + Concat(frames[Skip(frames) + 1..])
  }

  lemma RunBytes(frames: seq<Frame>, st: WriterState, cs: seq<Context>)
    requires frames != [] && LogFrom(frames, st, cs)
    ensures Skip(frames) < |frames|
    ensures Concat(frames) == (if Skip(frames) == 1 then SyncBytes(st.num, st.last) else []) + FromDelta(frames)
  {
    hide IsDelta, SyncBytes;
    if Skip(frames) == 1 {
      assert frames[1..][0] == frames[1] && frames[1..][1..] == frames[2..];
      assert Concat(frames[1..]) == FromDelta(frames);
    }
  }

  lemma StepToDelta(m: Bytes, f: Bytes, n: Bytes)
    requires m == f + n && Complete(m) && Size(m) == |f| && n != [] && Complete(n) && !IsSync(n)
    ensures CanStep(m) && Next(m) == n
  {
    hide Complete, IsSync, Size;
    assert m[|f|..] == n;
  }

  lemma StepOverSync(m: Bytes, f: Bytes, s: Bytes, n: Bytes)
    requires m == f + (s + n) && Complete(m) && Size(m) == |f|
    requires Complete(s + n) && IsSync(s + n) && Size(s + n) == |s|
    requires n != [] && Complete(n) && !IsSync(n)
    ensures CanStep(m) && Next(m) == n
  {
    hide Complete, IsSync, Size;
    assert m[|f|..] == s + n && (s + n)[|s|..] == n;
  }

  lemma StepToEnd(m: Bytes)
    requires Complete(m) && Size(m) == |m|
    ensures CanStep(m) && Next(m) == []
  {
    hide Complete, IsSync, Size;
    assert m[|m|..] == [];
  }

  /// From frame `f`, the iterator moves to the next delta message of the run.
  lemma StepOverRun(m: Bytes, f: Bytes, frames: seq<Frame>, st: WriterState,
      cs: seq<Context>) returns (st': WriterState)
    requires m == f + Concat(frames) && Complete(m) && Size(m) == |f|
    requires LogFrom(frames, st, cs)
    ensures CanStep(m)
    ensures frames == [] ==> Next(m) == []
    ensures frames != [] ==>
      var k := Skip(frames);
      && k < |frames| && cs != [] && IsDelta(frames[k].bytes, st.last, cs[0])
      && Next(m) == FromDelta(frames) != [] && Size(Next(m)) == |frames[k].bytes|
      && st'.last == cs[0] && LogFrom(frames[k + 1..], st', cs[1..])
  {
    hide IsDelta, SyncBytes, Size, Complete, IsSync, LogFrom, Concat, CanStep, Next, Skip, FromDelta;
    st' := st;
    if frames == [] {
      NoFrames();
      assert m == f;
      StepToEnd(m);
      return;
    }
    st' := RunHead(frames, st, cs);
    RunBytes(frames, st, cs);
    FromDeltaIs(frames);
    SkipIsSmall(frames);
    var k, n := Skip(frames), FromDelta(frames);
    DeltaSize(frames[k].bytes, st.last, cs[0], Concat(frames[k + 1..]));
    CompleteIsNotEmpty(n);
    if k == 1 {
      SyncReads(st.num, st.last, n);
      StepOverSync(m, f, SyncBytes(st.num, st.last), n);
    } else {
      assert [] + n == n;
      StepToDelta(m, f, n);
    }
  }

  lemma NoFrames()
    ensures Concat([]) == []
  {
  }

  lemma SkipIsSmall(frames: seq<Frame>)
    requires frames != []
    ensures Skip(frames) <= 1
  {
  }

  // ----- what the readers yield for a written run -----

  /// The pc steps to the logged one, whether or not it is a branch.
  lemma DeltaStepsPc(f: Bytes, last: Context, ctx: Context, rest: Bytes)
    requires IsDelta(f, last, ctx)
    ensures Complete(f + rest) && !IsSync(f + rest)
    ensures StepPc(f + rest, last.pc) == ctx.pc
  {
    hide IsDelta, Complete, IsSync, Pc, PcBranched;
    DeltaPcSp(f, last, ctx, rest);
  }

  lemma WalkStep(m: Bytes, pc: bv64)
    requires CanStep(m) && m != [] && Next(m) != [] && Walkable(Next(m))
    ensures Walkable(m)
    ensures PcsFrom(m, pc) == [pc] + PcsFrom(Next(m), StepPc(Next(m), pc))
  {
    hide CanStep, Next, StepPc;
  }

  /// From frame `f`, the pcs yielded are the one before and all that were logged.
  lemma {:induction false} PcsOfRun(m: Bytes, f: Bytes, frames: seq<Frame>, st: WriterState, cs: seq<Context>)
    requires m == f + Concat(frames) && Complete(m) && Size(m) == |f|
    requires LogFrom(frames, st, cs)
    ensures Walkable(m) && PcsFrom(m, st.last.pc) == [st.last.pc] + PcsOf(cs)
    decreases |frames|
  {
    hide *;
    CompleteIsNotEmpty(m);
    var st' := StepOverRun(m, f, frames, st, cs);
    if frames == [] {
      EmptyRun(frames, st, cs);
      WalkEnd(m, st.last.pc);
    } else {
      var k, n := Skip(frames), Next(m);
      DeltaStepsPc(frames[k].bytes, st.last, cs[0], Concat(frames[k + 1..]));
      FromDeltaIs(frames);
      PcsOfRun(n, frames[k].bytes, frames[k + 1..], st', cs[1..]);
      WalkStep(m, st.last.pc);
      PcsOfCons(cs);
    }
  }

  lemma PcsOfCons(cs: seq<Context>)
    requires cs != []
    ensures PcsOf(cs) == [cs[0].pc] + PcsOf(cs[1..])
  {
  }

  lemma FromDeltaIs(frames: seq<Frame>)
    requires frames != [] && Skip(frames) < |frames|
    ensures FromDelta(frames) == frames[Skip(frames)].bytes + Concat(frames[Skip(frames) + 1..])
  {
  }

  lemma EmptyRun(frames: seq<Frame>, st: WriterState, cs: seq<Context>)
    requires LogFrom(frames, st, cs) && frames == []
    ensures cs == [] && PcsOf(cs) == []
  {
  }

  lemma WalkEnd(m: Bytes, pc: bv64)
    requires CanStep(m) && m != [] && Next(m) == []
    ensures Walkable(m) && PcsFrom(m, pc) == [pc]
  {
  }
}

/// Whole-run results: what any log written for a list of contexts contains, and
/// what the readers get back from it.
module TraceTheorems {
  import opened ChangedMask
  import opened LogFormat
  import opened TraceFrames
  import opened TraceWriter
  import opened TraceReader
  import opened WordCount

  /// `frames` is the complete log of the contexts `cs`.
  ghost predicate IsLogOf(frames: seq<Frame>, cs: seq<Context>) {
    cs != [] && LogFrom(frames, StartState(cs[0]), cs)
  }

  /// Every step of the run changes few enough registers.
  ghost predicate AllEncodable(cs: seq<Context>) {
    forall i :: 0 < i < |cs| ==> Encodable(cs[i - 1], cs[i])
  }

  lemma FirstIsEncodable(c: Context)
    ensures Encodable(c, c)
  {
    UnchangedRegs(c.x);
    UnchangedRegs(c.v);
  }

  lemma {:induction false} NoneChanged(flags: seq<bool>, n: nat)
    requires n <= |flags| && forall i :: 0 <= i < |flags| ==> !flags[i]
    ensures ChangedUpTo(flags, n) == []
  {
    if n > 0 {
      NoneChanged(flags, n - 1);
    }
  }

  lemma UnchangedRegs<T>(s: seq<T>)
    ensures ChangedRegs(s, s) == []
  {
    NoneChanged(Differs(s, s), |s|);
  }

  /// `TraceLog::log` for each context of one thread in turn: the run is logged in
  /// full unless a step changes too many registers, which aborts.
  method LogAll(cs: seq<Context>) returns (ok: bool, t: ThreadContext)
    requires cs != []
    ensures ok <==> AllEncodable(cs)
    ensures ok ==> t.Valid() && t.logged == cs && IsLogOf(t.frames, cs) && t.logBuf == Concat(t.frames)
  {
    hide Encodable, LogFrom;
    ok := true;
    t := new ThreadContext();
    t.CopyContext(cs[0]);
    for i := 0 to |cs|
      invariant t.Valid() && t.first == cs[0] && t.logged == cs[..i] && fresh(t)
      invariant i == 0 ==> t.last == cs[0]
      invariant i > 0 ==> t.last == cs[i - 1]
      invariant forall j :: 0 < j < i ==> Encodable(cs[j - 1], cs[j])
    {
      FirstIsEncodable(cs[0]);
      ok := t.WriteLogMsg(cs[i]);
      if !ok {
        return;
      }
      assert cs[..i + 1] == cs[..i] + [cs[i]];
    }
    assert cs[..|cs|] == cs;
    ok := true;
  }

  // ----- the log starts with a sync frame -----

  lemma StartsWithSync(frames: seq<Frame>, cs: seq<Context>)
    requires IsLogOf(frames, cs)
    ensures |frames| >= 2 && frames[0] == Sync(SyncBytes(0, cs[0]), 0, cs[0])
    ensures Concat(frames) == SyncBytes(0, cs[0]) + Concat(frames[1..])
    ensures LogFrom(frames[1..], WriterState(cs[0], 0, 0), cs)
  {
  }

  lemma BufferStart(frames: seq<Frame>, cs: seq<Context>)
    requires IsLogOf(frames, cs)
    ensures var buf := Concat(frames);
            && IsSync(buf) && Complete(buf) && Size(buf) == 928
            && SyncContext(buf) == cs[0] && SyncNumInst(buf) == 0
  {
    StartsWithSync(frames, cs);
    SyncReads(0, cs[0], Concat(frames[1..]));
  }

  /// Extracting pcs from a written log yields the first pc, and then the pc of
  /// every logged context: the walk starts on the sync frame itself.
  lemma ExtractedPcs(frames: seq<Frame>, cs: seq<Context>)
    requires IsLogOf(frames, cs)
    ensures var buf := Concat(frames);
            && buf != [] && Walkable(buf) && IsSync(buf)
            && PcsFrom(buf, SyncContext(buf).pc) == [cs[0].pc] + PcsOf(cs)
  {
    hide IsSync, Complete, Size, LogFrom, Walkable, PcsFrom, SyncBytes;
    StartsWithSync(frames, cs);
    BufferStart(frames, cs);
    PcsOfRun(Concat(frames), SyncBytes(0, cs[0]), frames[1..], WriterState(cs[0], 0, 0), cs);
  }

  /// Logging a run and extracting its pcs again, end to end.
  method LogThenExtract(cs: seq<Context>) returns (ok: bool, pcs: seq<bv64>)
    requires cs != []
    ensures ok <==> AllEncodable(cs)
    ensures ok ==> pcs == [cs[0].pc] + PcsOf(cs)
  {
    pcs := [];
    var t;
    ok, t := LogAll(cs);
    if ok {
      ExtractedPcs(t.frames, cs);
      hide *;
      pcs := ExtractPcs(t.logBuf);
    }
  }

  // ----- replaying contexts -----

  lemma ReplayStep(m: Bytes, c: Context)
    requires CanStep(m) && m != [] && Next(m) != [] && Walkable(Next(m))
    ensures Walkable(m)
    ensures ReplayFrom(m, c) == [Updated(c, Next(m))] + ReplayFrom(Next(m), Updated(c, Next(m)))
  {
    hide CanStep, Next, Updated;
  }

  /// The replayed contexts agree with the logged ones; the flags never move.
  ghost predicate AllAgree(us: seq<Context>, cs: seq<Context>, nzcv: bv64) {
    |us| == |cs| && forall i :: 0 <= i < |us| ==> Agree(us[i], cs[i]) && us[i].nzcv == nzcv
  }

  lemma {:induction false} ReplayOfRun(m: Bytes, f: Bytes, frames: seq<Frame>, st: WriterState,
      cs: seq<Context>, c: Context)
    requires m == f + Concat(frames) && Complete(m) && Size(m) == |f|
    requires LogFrom(frames, st, cs) && Agree(c, st.last)
    ensures Walkable(m) && AllAgree(ReplayFrom(m, c), cs, c.nzcv)
    decreases |frames|
  {
    hide *;
    CompleteIsNotEmpty(m);
    var st' := StepOverRun(m, f, frames, st, cs);
    if frames == [] {
      EmptyRun(frames, st, cs);
      ReplayEnd(m, c);
    } else {
      FromDeltaIs(frames);
      var k, n := Skip(frames), Next(m);
      DeltaUpdates(frames[k].bytes, st.last, cs[0], Concat(frames[k + 1..]), c);
      var u := Updated(c, n);
      ReplayOfRun(n, frames[k].bytes, frames[k + 1..], st', cs[1..], u);
      ReplayStep(m, c);
      AgreeCons(u, ReplayFrom(n, u), cs, c.nzcv);
    }
  }

  lemma ReplayEnd(m: Bytes, c: Context)
    requires CanStep(m) && m != [] && Next(m) == []
    ensures Walkable(m) && ReplayFrom(m, c) == [] && AllAgree(ReplayFrom(m, c), [], c.nzcv)
  {
    hide CanStep, Next;
  }

  lemma AgreeCons(u: Context, us: seq<Context>, cs: seq<Context>, nzcv: bv64)
    requires cs != [] && Agree(u, cs[0]) && u.nzcv == nzcv && AllAgree(us, cs[1..], nzcv)
    ensures AllAgree([u] + us, cs, nzcv)
  {
    hide Agree;
  }

  /// Applying the decoded messages one after the other, from the context in the
  /// first sync frame, reproduces sp, every x register, fp, lr and every vector
  /// register of every logged context.
  lemma ReplayedContexts(frames: seq<Frame>, cs: seq<Context>)
    requires IsLogOf(frames, cs)
    ensures var buf := Concat(frames);
            && Walkable(buf) && IsSync(buf) && Complete(buf)
            && AllAgree(ReplayFrom(buf, SyncContext(buf)), cs, cs[0].nzcv)
  {
    hide IsSync, Complete, Size, LogFrom, Walkable, ReplayFrom, SyncBytes;
    StartsWithSync(frames, cs);
    BufferStart(frames, cs);
    ReplayOfRun(Concat(frames), SyncBytes(0, cs[0]), frames[1..], WriterState(cs[0], 0, 0), cs, cs[0]);
  }

  /// The first frame of a run, and the run after it.
  lemma RunTail(frames: seq<Frame>, st: WriterState, cs: seq<Context>) returns (st1: WriterState, rest: seq<Context>)
    requires frames != [] && LogFrom(frames, st, cs)
    ensures LogFrom(frames[1..], st1, rest) && st1 == AfterFrame(st, frames[0])
    ensures match frames[0]
      case Sync(_, num, _) => st.sz >= SYNC_EVERY && num == st.num && |frames| > 1 && frames[1].Delta?
      case Delta(bytes, ctx) => st.sz < SYNC_EVERY && st1.sz < SYNC_EVERY + SIZE_MAX
  {
    hide IsDelta, SyncBytes;
    st1, rest := AfterFrame(st, frames[0]), if frames[0].Sync? then cs else cs[1..];
    if frames[0].Delta? {
      AfterDelta(st, frames[0]);
    }
  }

  lemma AfterDelta(st: WriterState, f: Frame)
    requires f.Delta? && IsDelta(f.bytes, st.last, f.ctx) && st.sz < SYNC_EVERY
    ensures AfterFrame(st, f).sz < SYNC_EVERY + SIZE_MAX
  {
    DeltaSize(f.bytes, st.last, f.ctx, []);
    assert f.bytes + [] == f.bytes;
  }

  // ----- framing -----

  /// Hopping by `size()`: the messages found from the front of `m` on.
  ghost function Hops(m: Bytes): seq<Bytes>
    decreases |m|
  {
    if m == [] || !Complete(m) then [] else [m[..Size(m)]] + Hops(m[Size(m)..])
  }

  ghost function BytesOf(frames: seq<Frame>): seq<Bytes> {
    if frames == [] then [] else [frames[0].bytes] + BytesOf(frames[1..])
  }

  lemma FrameAtFront(frames: seq<Frame>, st: WriterState, cs: seq<Context>)
    requires frames != [] && LogFrom(frames, st, cs)
    ensures var m := Concat(frames);
            && Complete(m) && Size(m) == |frames[0].bytes| && (IsSync(m) <==> frames[0].Sync?)
            && m[..Size(m)] == frames[0].bytes && m[Size(m)..] == Concat(frames[1..])
            && (frames[0].Delta? ==> Size(m) <= SIZE_MAX)
  {
    hide Complete, Size, IsSync, IsDelta, SyncBytes;
    var rest := Concat(frames[1..]);
    if frames[0].Sync? {
      SyncReads(st.num, st.last, rest);
    } else {
      DeltaSize(frames[0].bytes, st.last, frames[0].ctx, rest);
    }
  }

  lemma HopOnce(m: Bytes, f: Bytes, rest: Bytes)
    requires Complete(m) && m[..Size(m)] == f && m[Size(m)..] == rest
    ensures Hops(m) == [f] + Hops(rest)
  {
    CompleteIsNotEmpty(m);
    hide Complete, Size;
  }

  /// Hopping visits exactly the frames that were written; a delta message is
  /// never taken for a sync frame.
  lemma {:induction false} HopsAreFrames(frames: seq<Frame>, st: WriterState, cs: seq<Context>)
    requires LogFrom(frames, st, cs)
    ensures Hops(Concat(frames)) == BytesOf(frames)
    decreases |frames|
  {
    hide LogFrom, Complete, Size, IsSync;
    if frames != [] {
      var st1, rest := RunTail(frames, st, cs);
      HopsAreFrames(frames[1..], st1, rest);
      FrameAtFront(frames, st, cs);
      HopOnce(Concat(frames), frames[0].bytes, Concat(frames[1..]));
    }
  }

  // ----- sync frames -----

  lemma {:induction false} CountShift(start: bv64, n: nat)
    ensures CountFrom(start + 1, n) == CountFrom(start, n + 1)
  {
    if n > 0 {
      CountShift(start, n - 1);
    }
  }

  /// Any tail of a run is a run, from the state the writer had there.
  lemma {:induction false} TailOfRun(before: seq<Frame>, tail: seq<Frame>, st: WriterState, cs: seq<Context>)
      returns (st': WriterState, cs': seq<Context>)
    requires LogFrom(before + tail, st, cs)
    ensures LogFrom(tail, st', cs')
    ensures st'.num == CountFrom(st.num, Deltas(before))
    ensures before == [] ==> st' == st
    ensures before != [] && before[|before| - 1].Sync? ==> st'.sz == 0
    decreases |before|
  {
    hide LogFrom, Deltas, CountFrom;
    if before == [] {
      assert before + tail == tail;
      NoDeltas(st.num, before);
      return st, cs;
    }
    var st1, rest := RunTail(before + tail, st, cs);
    assert (before + tail)[1..] == before[1..] + tail;
    st', cs' := TailOfRun(before[1..], tail, st1, rest);
    CountFirst(before, st.num);
  }

  lemma NoDeltas(start: bv64, frames: seq<Frame>)
    requires frames == []
    ensures CountFrom(start, Deltas(frames)) == start
  {
  }

  lemma CountFirst(frames: seq<Frame>, start: bv64)
    requires frames != []
    ensures CountFrom(start, Deltas(frames))
            == CountFrom(if frames[0].Delta? then start + 1 else start, Deltas(frames[1..]))
  {
    CountShift(start, Deltas(frames[1..]));
  }

  /// Every sync frame carries the number of messages before it and is followed by
  /// a message.
  lemma SyncFrameIsFollowed(before: seq<Frame>, sync: Frame, after: seq<Frame>, cs: seq<Context>)
    requires IsLogOf(before + ([sync] + after), cs) && sync.Sync?
    ensures sync.num == CountFrom(0, Deltas(before))
    ensures after != [] && after[0].Delta?
  {
    hide LogFrom, CountFrom, Deltas;
    var st, rest := TailOfRun(before, [sync] + after, StartState(cs[0]), cs);
    var _, _ := RunTail([sync] + after, st, rest);
  }

  ghost predicate AllDelta(frames: seq<Frame>) {
    forall f :: f in frames ==> f.Delta?
  }

  lemma {:induction false} DeltaStretch(stretch: seq<Frame>, after: seq<Frame>, st: WriterState, cs: seq<Context>)
    requires LogFrom(stretch + after, st, cs) && AllDelta(stretch) && st.sz < SYNC_EVERY + SIZE_MAX
    ensures st.sz + |Concat(stretch)| < SYNC_EVERY + SIZE_MAX
    ensures after != [] && after[0].Sync? ==> st.sz + |Concat(stretch)| >= SYNC_EVERY
    decreases |stretch|
  {
    hide LogFrom;
    if stretch + after != [] {
      var st1, rest := RunTail(stretch + after, st, cs);
      if stretch != [] {
        assert stretch[0] in stretch && (stretch + after)[0] == stretch[0];
        assert (stretch + after)[1..] == stretch[1..] + after;
        DeltaStretch(stretch[1..], after, st1, rest);
      }
    }
  }

  /// Between two sync frames, and after the last one, there are fewer than 144 message
  /// bytes over a megabyte; between two there is at least a megabyte.
  lemma SyncSpacing(before: seq<Frame>, stretch: seq<Frame>, after: seq<Frame>, cs: seq<Context>)
    requires IsLogOf(before + (stretch + after), cs) && AllDelta(stretch)
    requires before != [] && before[|before| - 1].Sync?
    ensures |Concat(stretch)| < 0x10_0000 + 144
    ensures after != [] && after[0].Sync? ==> |Concat(stretch)| >= 0x10_0000
  {
    hide LogFrom;
    var st, rest := TailOfRun(before, stretch + after, StartState(cs[0]), cs);
    DeltaStretch(stretch, after, st, rest);
  }
}

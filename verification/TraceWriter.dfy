/// The per-thread log writer: delta messages with a sync frame every megabyte.
module TraceWriter {
  import opened HeaderBits
  import opened ChangedMask
  import opened LogFormat
  import opened Machine
  import opened MessageBytes
  import opened TraceFrames

  const SYNC_EVERY: nat := 1024 * 1024

  // ----- the frames of a whole run -----

  datatype Frame = Sync(bytes: Bytes, num: bv64, ctx: Context) | Delta(bytes: Bytes, ctx: Context)

  ghost function Concat(frames: seq<Frame>): (r: Bytes) {
    if frames == [] then [] else frames[0].bytes + Concat(frames[1..])
  }

  /// What the writer remembers between messages.
  datatype WriterState = WriterState(last: Context, num: bv64, sz: nat)

  /// A fresh thread context, created from the first logged context.
  function StartState(first: Context): WriterState {
    WriterState(first, 0, SYNC_EVERY + 1)
  }

  ghost function AfterFrame(st: WriterState, f: Frame): WriterState {
    match f
    case Sync(_, _, _) => st.(sz := 0)
    case Delta(bytes, ctx) => WriterState(ctx, st.num + 1, st.sz + |bytes|)
  }

  ghost function AfterFrames(st: WriterState, frames: seq<Frame>): WriterState
    decreases |frames|
  {
    if frames == [] then st else AfterFrames(AfterFrame(st, frames[0]), frames[1..])
  }

  /// `frames` is what the writer produces from state `st` for the contexts `cs`:
  /// one delta per context, and a sync frame, followed by a delta, exactly when
  /// enough message bytes have gone by.
  ghost predicate LogFrom(frames: seq<Frame>, st: WriterState, cs: seq<Context>)
    decreases |frames|
  {
    if frames == [] then cs == [] else
      && (match frames[0]
          case Sync(bytes, num, ctx) =>
            && st.sz >= SYNC_EVERY && num == st.num && ctx == st.last && bytes == SyncBytes(num, ctx)
            && |frames| > 1 && frames[1].Delta?
            && LogFrom(frames[1..], AfterFrame(st, frames[0]), cs)
          case Delta(bytes, ctx) =>
            && st.sz < SYNC_EVERY && cs != [] && ctx == cs[0] && IsDelta(bytes, st.last, ctx)
            && LogFrom(frames[1..], AfterFrame(st, frames[0]), cs[1..]))
  }

  lemma {:induction false} ConcatAppend(a: seq<Frame>, b: seq<Frame>)
    ensures Concat(a + b) == Concat(a) + Concat(b)
  {
    if a == [] {
      assert a + b == b;
    } else {
      assert (a + b)[1..] == a[1..] + b;
      ConcatAppend(a[1..], b);
    }
  }

  /// The first frame fits the writer's state and the contexts to be logged.
  ghost predicate CanFollow(frames: seq<Frame>, st: WriterState, cs: seq<Context>)
    requires frames != []
  {
    match frames[0]
    case Sync(bytes, num, ctx) =>
      && st.sz >= SYNC_EVERY && num == st.num && ctx == st.last && bytes == SyncBytes(num, ctx)
      && |frames| > 1 && frames[1].Delta?
    case Delta(bytes, ctx) =>
      && st.sz < SYNC_EVERY && cs != [] && ctx == cs[0] && IsDelta(bytes, st.last, ctx)
  }

  ghost function Remaining(f: Frame, cs: seq<Context>): seq<Context> {
    if f.Sync? || cs == [] then cs else cs[1..]
  }

  lemma LogFirst(frames: seq<Frame>, st: WriterState, cs: seq<Context>)
    requires frames != []
    ensures LogFrom(frames, st, cs) <==>
      CanFollow(frames, st, cs) && LogFrom(frames[1..], AfterFrame(st, frames[0]), Remaining(frames[0], cs))
  {
    hide IsDelta, SyncBytes;
  }

  lemma AfterFirst(st: WriterState, frames: seq<Frame>)
    requires frames != []
    ensures AfterFrames(st, frames) == AfterFrames(AfterFrame(st, frames[0]), frames[1..])
  {
  }

  lemma NothingAfter(st: WriterState, frames: seq<Frame>, cs: seq<Context>)
    requires frames == []
    ensures AfterFrames(st, frames) == st && (LogFrom(frames, st, cs) <==> cs == [])
  {
  }

  lemma FollowsLonger(a: seq<Frame>, b: seq<Frame>, st: WriterState, cs: seq<Context>, ds: seq<Context>)
    requires a != [] && CanFollow(a, st, cs)
    ensures CanFollow(a + b, st, cs + ds) && Remaining(a[0], cs + ds) == Remaining(a[0], cs) + ds
  {
    hide IsDelta, SyncBytes;
    assert a[0].Delta? ==> (cs + ds)[1..] == cs[1..] + ds;
  }

  /// Runs compose.
  lemma {:induction false} LogAppend(a: seq<Frame>, st: WriterState, cs: seq<Context>, b: seq<Frame>, ds: seq<Context>)
    requires LogFrom(a, st, cs) && LogFrom(b, AfterFrames(st, a), ds)
    ensures LogFrom(a + b, st, cs + ds)
    ensures AfterFrames(st, a + b) == AfterFrames(AfterFrames(st, a), b)
    decreases |a|
  {
    hide LogFrom, AfterFrames, AfterFrame, CanFollow;
    if a == [] {
      NothingAfter(st, a, cs);
      assert a + b == b && cs + ds == ds;
    } else {
      var st' := AfterFrame(st, a[0]);
      LogFirst(a, st, cs);
      LogFirst(a + b, st, cs + ds);
      AfterFirst(st, a);
      AfterFirst(st, a + b);
      assert (a + b)[1..] == a[1..] + b;
      LogAppend(a[1..], st', Remaining(a[0], cs), b, ds);
      FollowsLonger(a, b, st, cs, ds);
    }
  }

  // ----- counting and emitting changed registers -----

  /// `std::popcount`: the number of set bits below `n`.
  function PopCount(mask: bv32, n: nat): nat
    requires n <= 32
  {
    if n == 0 then 0 else
      SmallAsNat(n - 1);
      PopCount(mask, n - 1) + if Bit32(mask, Small(n - 1)) then 1 else 0
  }

  lemma {:induction false} PopCountIsLength(mask: bv32, flags: seq<bool>, limit: nat, n: nat)
    requires n <= limit <= 32 && limit <= |flags| && Selects(mask, flags, limit)
    ensures PopCount(mask, n) == |ChangedUpTo(flags, n)|
  {
    if n > 0 {
      PopCountIsLength(mask, flags, limit, n - 1);
      assert SelectsAt(mask, flags, limit, n - 1);
    }
  }

  lemma TopBitClear(mask: bv32, flags: seq<bool>)
    requires Selects(mask, flags, 31)
    ensures PopCount(mask, 32) == PopCount(mask, 31)
  {
    assert SelectsAt(mask, flags, 31, 31);
  }

  lemma {:induction false} ChangedPrefix(a: seq<bool>, b: seq<bool>, n: nat)
    requires n <= |a| && n <= |b| && a[..n] == b[..n]
    ensures ChangedUpTo(a, n) == ChangedUpTo(b, n)
  {
    if n > 0 {
      assert a[..n - 1] == a[..n][..n - 1] && b[..n - 1] == b[..n][..n - 1];
      assert a[n - 1] == a[..n][n - 1] == b[..n][n - 1];
      ChangedPrefix(a, b, n - 1);
    }
  }

  method EmitGprs(x: seq<bv64>, mask: bv32, header: bv32, ghost flags: seq<bool>) returns (h: bv32, out: Bytes)
    requires |x| == 31 <= |flags| && Selects(mask, flags, 31)
    requires |ChangedUpTo(flags, 31)| <= NUM_CHANGED_MAX && Names(header, [])
    ensures Names(h, ChangedUpTo(flags, 31)) && SameFlags(header, h)
    ensures h as nat == header as nat + RegsNumber(ChangedUpTo(flags, 31))
    ensures out == All64(Pick(x, ChangedUpTo(flags, 31)))
  {
    h, out := header, [];
    var idx := 0;
    ghost var regs: seq<nat> := [];
    assert SameFlags(header, h);
    hide Names, SameFlags, Bit32, WithReg, ChangedUpTo, All64, All128, Pick, Small, Selects, RegsNumber;
    for i := 0 to 31
      invariant regs == ChangedUpTo(flags, i) && idx == |regs|
      invariant Names(h, regs) && SameFlags(header, h)
      invariant out == All64(Pick(x, regs))
    {
      SmallAsNat(i);
      NextChanged(mask, flags, 31, i);
      if Bit32(mask, Small(i)) {
        AppendReg(h, regs, i);
        KeepFlags(header, h, idx, i);
        PickAppend64(x, regs, i);
        out := out + Bytes64(x[i]);
        h := WithReg(h, idx, i);
        idx := idx + 1;
        regs := regs + [i];
      }
    }
    NamingAddsNumber(header, h, regs);
  }

  /// The mask bit of place `i` decides whether `i` is the next changed register.
  lemma NextChanged(mask: bv32, flags: seq<bool>, limit: nat, i: nat)
    requires i < limit <= 32 && limit <= |flags| && Selects(mask, flags, limit)
    ensures Small(i) < 32
    ensures ChangedUpTo(flags, i + 1) == ChangedUpTo(flags, i) + if Bit32(mask, Small(i)) then [i] else []
    ensures |ChangedUpTo(flags, i + 1)| <= |ChangedUpTo(flags, limit)|
  {
    SmallAsNat(i);
    assert SelectsAt(mask, flags, limit, i);
    ChangedGrows(flags, i + 1, limit);
  }

  lemma {:induction false} ChangedGrows(flags: seq<bool>, n: nat, m: nat)
    requires n <= m <= |flags|
    ensures |ChangedUpTo(flags, n)| <= |ChangedUpTo(flags, m)|
    decreases m
  {
    if n < m {
      ChangedGrows(flags, n, m - 1);
    }
  }

  lemma KeepFlags(header: bv32, h: bv32, idx: nat, reg: nat)
    requires SameFlags(header, h) && idx < 5 && reg < 32
    ensures SameFlags(header, WithReg(h, idx, reg))
  {
    hide WithReg, NumChanged, PcBranched, SpChanged, SyncBit, SpareBit;
    WithRegKeepsFlags(h, idx, reg);
  }

  lemma PickAppend64(x: seq<bv64>, regs: seq<nat>, i: nat)
    requires i < |x| && forall j :: 0 <= j < |regs| ==> regs[j] < |x|
    ensures All64(Pick(x, regs + [i])) == All64(Pick(x, regs)) + Bytes64(x[i])
  {
    var p := Pick(x, regs + [i]);
    assert p[..|regs|] == Pick(x, regs);
  }

  lemma PickAppend128(v: seq<bv128>, regs: seq<nat>, i: nat)
    requires i < |v| && forall j :: 0 <= j < |regs| ==> regs[j] < |v|
    ensures All128(Pick(v, regs + [i])) == All128(Pick(v, regs)) + Bytes128(v[i])
  {
    var p := Pick(v, regs + [i]);
    assert p[..|regs|] == Pick(v, regs);
  }

  method EmitVecs(v: seq<bv128>, mask: bv32, header: bv32, ghost flags: seq<bool>) returns (h: bv32, out: Bytes)
    requires |v| == 32 == |flags| && Selects(mask, flags, 32)
    requires |ChangedUpTo(flags, 32)| <= NUM_CHANGED_MAX && Names(header, [])
    ensures Names(h, ChangedUpTo(flags, 32)) && SameFlags(header, h)
    ensures h as nat == header as nat + RegsNumber(ChangedUpTo(flags, 32))
    ensures out == All128(Pick(v, ChangedUpTo(flags, 32)))
  {
    h, out := header, [];
    var idx := 0;
    ghost var regs: seq<nat> := [];
    assert SameFlags(header, h);
    hide Names, SameFlags, Bit32, WithReg, ChangedUpTo, All64, All128, Pick, Small, Selects, RegsNumber;
    for i := 0 to 32
      invariant regs == ChangedUpTo(flags, i) && idx == |regs|
      invariant Names(h, regs) && SameFlags(header, h)
      invariant out == All128(Pick(v, regs))
    {
      SmallAsNat(i);
      NextChanged(mask, flags, 32, i);
      if Bit32(mask, Small(i)) {
        AppendReg(h, regs, i);
        KeepFlags(header, h, idx, i);
        PickAppend128(v, regs, i);
        out := out + Bytes128(v[i]);
        h := WithReg(h, idx, i);
        idx := idx + 1;
        regs := regs + [i];
      }
    }
    NamingAddsNumber(header, h, regs);
  }

  // ----- one message -----

  /// The 32 slots compared as pairs of words: the last one is half of v0.
  function Slots(c: Context): (r: seq<bv64>)
    ensures |r| == 32 && r[..31] == c.x
  {
    c.x + [(c.v[0] & 0xffff_ffff_ffff_ffff) as bv64]
  }

  lemma SlotsChange(last: Context, ctx: Context)
    ensures ChangedUpTo(Differs(Slots(last), Slots(ctx)), 31) == ChangedRegs(last.x, ctx.x)
  {
    var a, b := Differs(Slots(last), Slots(ctx)), Differs(last.x, ctx.x);
    assert forall i :: 0 <= i < 31 ==> Slots(last)[i] == Slots(last)[..31][i] && Slots(ctx)[i] == Slots(ctx)[..31][i];
    assert a[..31] == b[..31];
    ChangedPrefix(a, b, 31);
  }

  /// The masks of the changed registers, and how many they are.
  method FindChanges(last: Context, ctx: Context) returns (xDiff: bv32, vDiff: bv32, numGpr: nat, numVec: nat)
    ensures Selects(xDiff, Differs(Slots(last), Slots(ctx)), 31) && Selects(vDiff, Differs(last.v, ctx.v), 32)
    ensures ChangedUpTo(Differs(Slots(last), Slots(ctx)), 31) == ChangedRegs(last.x, ctx.x)
    ensures numGpr == |ChangedRegs(last.x, ctx.x)| && numVec == |ChangedRegs(last.v, ctx.v)|
  {
    hide Selects, ChangedUpTo, Differs, PopCount;
    xDiff := ChangedGprs(Slots(last), Slots(ctx));
    vDiff := ChangedVecs(last.v, ctx.v);
    numGpr := PopCount(xDiff, 32);
    numVec := PopCount(vDiff, 32);
    ghost var xFlags, vFlags := Differs(Slots(last), Slots(ctx)), Differs(last.v, ctx.v);
    TopBitClear(xDiff, xFlags);
    PopCountIsLength(xDiff, xFlags, 31, 31);
    PopCountIsLength(vDiff, vFlags, 32, 32);
    SlotsChange(last, ctx);
  }

  lemma FixedIs(last: Context, ctx: Context)
    ensures FixedPart(last, ctx) == (if Branches(last, ctx) then Bytes64(ctx.pc) else [])
                                    + (if MovesSp(last, ctx) then Bytes64(ctx.sp) else [])
    ensures Encodable(last, ctx) <==> |ChangedRegs(last.x, ctx.x)| <= 5 && |ChangedRegs(last.v, ctx.v)| <= 5
    ensures ChangedUpTo(Differs(last.v, ctx.v), 32) == ChangedRegs(last.v, ctx.v) && NUM_CHANGED_MAX == 5
  {
    hide Bytes64, Branches, MovesSp, ChangedUpTo, Differs;
  }

  /// The message bytes, or failure when the source's assertion on the number of
  /// changed registers aborts.
  method EncodeMessage(last: Context, ctx: Context) returns (ok: bool, msg: Bytes)
    ensures ok <==> |ChangedRegs(last.x, ctx.x)| <= 5 && |ChangedRegs(last.v, ctx.v)| <= 5
    ensures ok <==> Encodable(last, ctx)
    ensures ok ==> IsDelta(msg, last, ctx) && IsMessage(msg, last, ctx)
  {
    hide *;
    var branched, moved := Branches(last, ctx), MovesSp(last, ctx);
    var fixed := (if branched then Bytes64(ctx.pc) else []) + (if moved then Bytes64(ctx.sp) else []);
    FixedIs(last, ctx);
    BothSame(last, ctx);
    var xDiff, vDiff, numGpr, numVec := FindChanges(last, ctx);
    if numGpr > NUM_CHANGED_MAX || numVec > NUM_CHANGED_MAX {
      return false, [];
    }
    var gprStart, vecStart := StartHeader(branched, moved, Small(numGpr)), StartHeader(false, false, Small(numVec));
    StartNames(branched, moved, numGpr);
    StartNames(false, false, numVec);
    var gprHeader, gprBytes := EmitGprs(ctx.x, xDiff, gprStart, Differs(Slots(last), Slots(ctx)));
    HeaderComplete(gprStart, gprHeader, branched, moved, ChangedRegs(last.x, ctx.x));
    var vecHeader, vecBytes := EmitVecs(ctx.v, vDiff, vecStart, Differs(last.v, ctx.v));
    HeaderComplete(vecStart, vecHeader, false, false, ChangedRegs(last.v, ctx.v));
    msg := Bytes32(gprHeader) + Bytes32(vecHeader) + fixed + gprBytes + vecBytes;
    ok := true;
    MessageIsDelta(last, ctx, gprHeader, vecHeader, msg);
    DeltaIsMessage(msg, last, ctx);
  }

  lemma HeaderComplete(start: bv32, h: bv32, branched: bool, moved: bool, regs: seq<nat>)
    requires NumChanged(start) as nat == |regs| && PcBranched(start) == branched && SpChanged(start) == moved
    requires !SyncBit(start) && !SpareBit(start) && Names(h, regs) && SameFlags(start, h)
    ensures HeaderSays(h, branched, moved, regs)
  {
  }

  lemma MessageIsDelta(last: Context, ctx: Context, gprHeader: bv32, vecHeader: bv32, msg: Bytes)
    requires Encodable(last, ctx)
    requires HeaderSays(gprHeader, Branches(last, ctx), MovesSp(last, ctx), ChangedRegs(last.x, ctx.x))
    requires HeaderSays(vecHeader, false, false, ChangedRegs(last.v, ctx.v))
    requires msg == Bytes32(gprHeader) + Bytes32(vecHeader) + FixedPart(last, ctx)
      + All64(Pick(ctx.x, ChangedRegs(last.x, ctx.x))) + All128(Pick(ctx.v, ChangedRegs(last.v, ctx.v)))
    ensures IsDelta(msg, last, ctx)
  {
    hide HeaderSays, All64, All128, Bytes32, From32, FixedPart;
    assert msg[0..4] == Bytes32(gprHeader) && msg[4..8] == Bytes32(vecHeader);
    RoundTrip32(gprHeader);
    RoundTrip32(vecHeader);
    assert msg[8..] == FixedPart(last, ctx)
      + All64(Pick(ctx.x, ChangedRegs(last.x, ctx.x))) + All128(Pick(ctx.v, ChangedRegs(last.v, ctx.v)));
  }

  /// One message from state `st`, with its sync frame when one is due, is a run.
  ghost function Chunk(st: WriterState, msg: Bytes, ctx: Context): (r: seq<Frame>) {
    (if st.sz >= SYNC_EVERY then [Sync(SyncBytes(st.num, st.last), st.num, st.last)] else []) + [Delta(msg, ctx)]
  }

  lemma DeltaIsRun(st: WriterState, msg: Bytes, ctx: Context)
    requires st.sz < SYNC_EVERY && IsDelta(msg, st.last, ctx)
    ensures LogFrom([Delta(msg, ctx)], st, [ctx]) && Concat([Delta(msg, ctx)]) == msg
    ensures AfterFrames(st, [Delta(msg, ctx)]) == WriterState(ctx, st.num + 1, st.sz + |msg|)
  {
    hide IsDelta;
    var delta := [Delta(msg, ctx)];
    assert delta[1..] == [] && [ctx][1..] == [];
    assert Concat(delta) == msg + Concat(delta[1..]);
    assert AfterFrames(st, delta) == AfterFrames(AfterFrame(st, delta[0]), delta[1..]);
  }

  lemma ChunkIsRun(st: WriterState, msg: Bytes, ctx: Context)
    requires IsDelta(msg, st.last, ctx)
    ensures LogFrom(Chunk(st, msg, ctx), st, [ctx])
    ensures AfterFrames(st, Chunk(st, msg, ctx))
            == WriterState(ctx, st.num + 1, (if st.sz >= SYNC_EVERY then 0 else st.sz) + |msg|)
    ensures Concat(Chunk(st, msg, ctx))
            == (if st.sz >= SYNC_EVERY then SyncBytes(st.num, st.last) else []) + msg
  {
    hide IsDelta, SyncBytes;
    var chunk := Chunk(st, msg, ctx);
    if st.sz >= SYNC_EVERY {
      var st' := AfterFrame(st, chunk[0]);
      DeltaIsRun(st', msg, ctx);
      assert chunk[1..] == [Delta(msg, ctx)];
    } else {
      DeltaIsRun(st, msg, ctx);
      assert chunk == [Delta(msg, ctx)];
    }
  }

  /// `buf` is the concatenation of the frames of a run over `cs`, after which the
  /// writer is in state `st`.
  ghost predicate IsWritten(buf: Bytes, frames: seq<Frame>, start: WriterState, st: WriterState, cs: seq<Context>) {
    buf == Concat(frames) && LogFrom(frames, start, cs) && st == AfterFrames(start, frames)
  }

  lemma NothingWritten(start: WriterState)
    ensures IsWritten([], [], start, start, [])
  {
  }

  /// The sync frame that is due in state `st`, if any.
  ghost function SyncDue(st: WriterState): Bytes {
    if st.sz >= SYNC_EVERY then SyncBytes(st.num, st.last) else []
  }

  function SizeKept(st: WriterState): nat {
    if st.sz >= SYNC_EVERY then 0 else st.sz
  }

  function Incremented(n: bv64): bv64 {
    n + 1
  }

  function AfterMessage(st: WriterState, msg: Bytes, ctx: Context): WriterState {
    WriterState(ctx, Incremented(st.num), SizeKept(st) + |msg|)
  }

  lemma AfterMessageIs(st: WriterState, msg: Bytes, ctx: Context)
    ensures AfterMessage(st, msg, ctx) == WriterState(ctx, Incremented(st.num), SizeKept(st) + |msg|)
  {
  }

  /// A written run with one more message is a written run.
  lemma RunGrows(buf: Bytes, frames: seq<Frame>, start: WriterState, st: WriterState, cs: seq<Context>, msg: Bytes,
      ctx: Context)
    requires IsWritten(buf, frames, start, st, cs) && IsDelta(msg, st.last, ctx)
    ensures IsWritten((buf + SyncDue(st)) + msg, frames + Chunk(st, msg, ctx), start, AfterMessage(st, msg, ctx),
                      cs + [ctx])
    ensures buf <= (buf + SyncDue(st)) + msg
  {
    hide IsDelta, SyncBytes, LogFrom, AfterFrames, Concat, Chunk;
    ChunkIsRun(st, msg, ctx);
    ConcatAppend(frames, Chunk(st, msg, ctx));
    LogAppend(frames, start, cs, Chunk(st, msg, ctx), [ctx]);
    JoinBytes(buf, SyncDue(st), msg);
  }

  lemma JoinBytes(a: Bytes, b: Bytes, c: Bytes)
    ensures (a + b) + c == a + (b + c) && a <= (a + b) + c
  {
  }

  // ----- counting messages -----

  ghost function Deltas(frames: seq<Frame>): (r: nat)
    ensures r <= |frames|
  {
    if frames == [] then 0 else Deltas(frames[1..]) + if frames[0].Delta? then 1 else 0
  }

  lemma {:induction false} DeltasAppend(a: seq<Frame>, b: seq<Frame>)
    ensures Deltas(a + b) == Deltas(a) + Deltas(b)
  {
    if a == [] {
      assert a + b == b;
    } else {
      assert (a + b)[1..] == a[1..] + b;
      DeltasAppend(a[1..], b);
    }
  }

  /// A sync frame, or a delta message from some context.
  ghost predicate IsFrame(f: Frame) {
    match f
    case Sync(bytes, num, ctx) => bytes == SyncBytes(num, ctx)
    case Delta(bytes, ctx) => exists last: Context :: IsDelta(bytes, last, ctx)
  }

  ghost predicate AllFrames(frames: seq<Frame>) {
    forall i :: 0 <= i < |frames| ==> IsFrame(frames[i])
  }

  lemma OneDelta(f: Frame)
    ensures Deltas([f]) == if f.Delta? then 1 else 0
  {
    assert [f][1..] == [];
  }

  lemma ChunkFrames(st: WriterState, msg: Bytes, ctx: Context)
    requires IsDelta(msg, st.last, ctx)
    ensures AllFrames(Chunk(st, msg, ctx)) && Deltas(Chunk(st, msg, ctx)) == 1
  {
    hide IsDelta, SyncBytes, Deltas;
    var sync, delta := Sync(SyncBytes(st.num, st.last), st.num, st.last), Delta(msg, ctx);
    OneDelta(sync);
    OneDelta(delta);
    DeltasAppend([sync], [delta]);
    assert IsFrame(delta) && IsFrame(sync);
    assert [] + [delta] == [delta];
  }

  /// Appending a message, with a sync frame when one is due, to any frames.
  lemma FramesGrow(buf: Bytes, frames: seq<Frame>, st: WriterState, msg: Bytes, ctx: Context)
    requires IsDelta(msg, st.last, ctx)
    ensures Deltas(frames + Chunk(st, msg, ctx)) == Deltas(frames) + 1
    ensures AllFrames(frames) ==> AllFrames(frames + Chunk(st, msg, ctx))
    ensures buf == Concat(frames) ==> (buf + SyncDue(st)) + msg == Concat(frames + Chunk(st, msg, ctx))
    ensures buf <= (buf + SyncDue(st)) + msg
  {
    hide IsDelta, SyncBytes, Deltas, Concat, Chunk, IsFrame;
    ChunkFrames(st, msg, ctx);
    ChunkIsRun(st, msg, ctx);
    DeltasAppend(frames, Chunk(st, msg, ctx));
    ConcatAppend(frames, Chunk(st, msg, ctx));
    JoinBytes(buf, SyncDue(st), msg);
  }

  // ----- the writer object -----

  function ZeroContext(): Context {
    CpuContext(0, 0, 0, seq(31, _ => 0), seq(32, _ => 0))
  }

  class ThreadContext {
    var logBuf: Bytes
    var last: Context
    var numInst: bv64
    var szSinceLastSync: nat
    ghost var first: Context
    ghost var frames: seq<Frame>
    ghost var logged: seq<Context>

    ghost function State(): WriterState
      reads this
    {
      WriterState(last, numInst, szSinceLastSync)
    }

    /// The buffer is the concatenation of the frames of a run over `logged`.
    ghost predicate Valid()
      reads this
    {
      IsWritten(logBuf, frames, StartState(first), State(), logged)
    }

    /// Nothing written yet.
    ghost predicate IsFresh()
      reads this
    {
      && logBuf == [] && numInst == 0 && szSinceLastSync == SYNC_EVERY + 1
      && frames == [] && logged == []
    }

    /// The buffer is made of frames, whoever they were written for.
    ghost predicate Framed()
      reads this
    {
      logBuf == Concat(frames) && AllFrames(frames)
    }

    constructor ()
      ensures IsFresh() && Framed() && last == ZeroContext()
    {
      logBuf, last, numInst, szSinceLastSync := [], ZeroContext(), 0, SYNC_EVERY + 1;
      first, frames, logged := ZeroContext(), [], [];
    }

    /// `TraceLog::log` copies the first context of a thread before writing it.
    method CopyContext(context: Context)
      modifies this`last, this`first
      ensures last == context
      ensures old(IsFresh()) ==> Valid() && first == context
    {
      last := context;
      first := context;
      NothingWritten(StartState(context));
    }

    lemma SyncInParts(buf: Bytes, num: bv64, ctx: Context)
      ensures ((buf + All64(SYNC_HEADER)) + Bytes64(num)) + ContextBytes(ctx) == buf + SyncBytes(num, ctx)
    {
      hide All64, Bytes64, ContextBytes;
    }

    method WriteSync()
      modifies this`logBuf, this`szSinceLastSync
      ensures logBuf == old(logBuf) + SyncBytes(numInst, last) && szSinceLastSync == 0
    {
      hide *;
      SyncInParts(logBuf, numInst, last);
      logBuf := logBuf + All64(SYNC_HEADER);
      logBuf := logBuf + Bytes64(numInst);
      logBuf := logBuf + ContextBytes(last);
      szSinceLastSync := 0;
    }

    method SyncWhenDue()
      modifies this`logBuf, this`szSinceLastSync
      ensures logBuf == old(logBuf) + SyncDue(old(State())) && szSinceLastSync == SizeKept(old(State()))
    {
      hide SyncBytes;
      if szSinceLastSync >= SYNC_EVERY {
        WriteSync();
      } else {
        assert logBuf == logBuf + [];
      }
    }

    lemma StateIs()
      ensures State() == WriterState(last, numInst, szSinceLastSync)
      ensures Valid() <==> IsWritten(logBuf, frames, StartState(first), State(), logged)
      ensures Framed() <==> logBuf == Concat(frames) && AllFrames(frames)
    {
      hide IsWritten, AllFrames;
    }

    /// Appends one message, after a sync frame when one is due.
    method WriteLogMsg(ctx: Context) returns (ok: bool)
      modifies this
      ensures ok <==> Encodable(old(last), ctx)
      ensures ok ==> last == ctx && first == old(first) && logged == old(logged) + [ctx]
      ensures ok ==> old(logBuf) <= logBuf && Deltas(frames) == old(Deltas(frames)) + 1
      ensures ok && old(Framed()) ==> Framed()
      ensures ok && old(Valid()) ==> Valid()
    {
      hide *;
      ghost var buf, before := logBuf, State();
      StateIs();
      SyncWhenDue();
      var msg;
      ok, msg := EncodeMessage(last, ctx);
      if !ok {
        return;
      }
      logBuf := logBuf + msg;
      szSinceLastSync := szSinceLastSync + |msg|;
      last := ctx;
      numInst := Incremented(numInst);
      FramesGrow(buf, frames, before, msg, ctx);
      AfterMessageIs(before, msg, ctx);
      if IsWritten(buf, frames, StartState(first), before, logged) {
        RunGrows(buf, frames, StartState(first), before, logged, msg, ctx);
      }
      frames := frames + Chunk(before, msg, ctx);
      logged := logged + [ctx];
      StateIs();
    }
  }
}

/// What the writer's frames say, and that they read back as what was logged.
module TraceFrames {
  import opened HeaderBits
  import opened ChangedMask
  import opened LogFormat

  // ----- the registers that changed -----

  /// The places below `n` whose flag is set, in order.
  ghost function ChangedUpTo(flags: seq<bool>, n: nat): (r: seq<nat>)
    requires n <= |flags|
    ensures |r| <= n && forall j :: 0 <= j < |r| ==> r[j] < n
    ensures forall i: nat :: i < n ==> (flags[i] <==> i in r)
  {
    if n == 0 then [] else ChangedUpTo(flags, n - 1) + if flags[n - 1] then [n - 1] else []
  }

  ghost function ChangedRegs<T>(last: seq<T>, now: seq<T>): (r: seq<nat>)
    requires |last| == |now|
    ensures forall j :: 0 <= j < |r| ==> r[j] < |now|
    ensures forall i: nat :: i < |now| ==> (last[i] != now[i] <==> i in r)
  {
    ChangedUpTo(Differs(last, now), |now|)
  }

  /// The values of the given registers.
  ghost function Pick<T>(s: seq<T>, idx: seq<nat>): (r: seq<T>)
    requires forall j :: 0 <= j < |idx| ==> idx[j] < |s|
    ensures |r| == |idx| && forall j :: 0 <= j < |r| ==> r[j] == s[idx[j]]
  {
    seq(|idx|, j requires 0 <= j < |idx| => s[idx[j]])
  }

  // ----- frames -----

  /// At most five x registers and five vector registers changed.
  ghost predicate Encodable(last: Context, ctx: Context) {
    && |ChangedRegs(last.x, ctx.x)| <= NUM_CHANGED_MAX
    && |ChangedRegs(last.v, ctx.v)| <= NUM_CHANGED_MAX
  }

  /// The pc is not that of the next instruction, in 64-bit arithmetic.
  predicate IsElsewhere(from: bv64, to: bv64) {
    to - from != 4
  }

  predicate IsMoved(from: bv64, to: bv64) {
    to - from != 0
  }

  /// `to` is four bytes on from `from`.
  ghost predicate IsNext(from: bv64, to: bv64) {
    to == from + 4
  }

  lemma ElsewhereIff(from: bv64, to: bv64)
    ensures IsElsewhere(from, to) <==> !IsNext(from, to)
  {
  }

  lemma MovedIff(from: bv64, to: bv64)
    ensures IsMoved(from, to) <==> to != from
  {
  }

  predicate Branches(last: Context, ctx: Context) {
    IsElsewhere(last.pc, ctx.pc)
  }

  predicate MovesSp(last: Context, ctx: Context) {
    IsMoved(last.sp, ctx.sp)
  }

  /// The step is not to the next instruction.
  ghost predicate Jumps(last: Context, ctx: Context) {
    !IsNext(last.pc, ctx.pc)
  }

  ghost predicate MovesStack(last: Context, ctx: Context) {
    ctx.sp != last.sp
  }

  /// A step carries a pc exactly when it is not to the next instruction, and an sp
  /// exactly when that is another one.
  lemma StepCarries(last: Context, ctx: Context)
    ensures Branches(last, ctx) <==> Jumps(last, ctx)
    ensures MovesSp(last, ctx) <==> MovesStack(last, ctx)
  {
    hide IsElsewhere, IsMoved, IsNext;
    ElsewhereIff(last.pc, ctx.pc);
    MovedIff(last.sp, ctx.sp);
  }

  ghost function FixedPart(last: Context, ctx: Context): Bytes {
    (if Branches(last, ctx) then Bytes64(ctx.pc) else [])
    + (if MovesSp(last, ctx) then Bytes64(ctx.sp) else [])
  }

  /// `f` is a delta message that takes `last` to `ctx`.
  ghost predicate IsDelta(f: Bytes, last: Context, ctx: Context) {
    var gprs, vecs := ChangedRegs(last.x, ctx.x), ChangedRegs(last.v, ctx.v);
    && Encodable(last, ctx) && |f| >= 8
    && HeaderSays(Read32(f, 0), Branches(last, ctx), MovesSp(last, ctx), gprs)
    && HeaderSays(Read32(f, 4), false, false, vecs)
    && f[8..] == FixedPart(last, ctx) + All64(Pick(ctx.x, gprs)) + All128(Pick(ctx.v, vecs))
  }

  ghost function SyncBytes(num: bv64, ctx: Context): (r: Bytes)
    ensures |r| == SIZE_FULL_CONTEXT
  {
    All64(SYNC_HEADER) + Bytes64(num) + ContextBytes(ctx)
  }

  // ----- reading a sync frame -----

  lemma SyncHeaderHasSyncBit(m: Bytes)
    requires Holds(m, 0, All64(SYNC_HEADER))
    ensures SyncBit(GprHeader(m))
  {
    assert SYNC_HEADER[0] == 0x0800_0000;
    All64At(SYNC_HEADER, 0);
    HoldsPart(m, 0, All64(SYNC_HEADER), 0, 8);
    assert m[0..4] == m[0..8][..4];
    assert m[0..4] == [0, 0, 0, 8];
  }

  lemma SyncReads(num: bv64, ctx: Context, rest: Bytes)
    ensures var m := SyncBytes(num, ctx) + rest;
            && IsSync(m) && Complete(m) && Size(m) == SIZE_FULL_CONTEXT
            && SyncContext(m) == ctx && SyncNumInst(m) == num
  {
    var m := SyncBytes(num, ctx) + rest;
    assert m[0..136] == All64(SYNC_HEADER);
    assert m[136..144] == Bytes64(num);
    assert m[144..928] == ContextBytes(ctx);
    SyncHeaderHasSyncBit(m);
    ReadBytes64(m, 136, num);
    ContextRoundTrip(m, 144, ctx);
  }

  // ----- reading a delta message -----

  lemma DeltaHeaders(f: Bytes, last: Context, ctx: Context, rest: Bytes)
    requires IsDelta(f, last, ctx)
    ensures var m := f + rest;
            && |f| >= 8 && GprHeader(m) == Read32(f, 0) && VecHeader(m) == Read32(f, 4)
            && HeaderSays(GprHeader(m), Branches(last, ctx), MovesSp(last, ctx), ChangedRegs(last.x, ctx.x))
            && HeaderSays(VecHeader(m), false, false, ChangedRegs(last.v, ctx.v))
  {
    hide From32, HeaderSays, FixedPart, Encodable, ChangedRegs, Pick, All64, All128;
    var m := f + rest;
    assert m[0..4] == f[0..4] && m[4..8] == f[4..8];
  }

  /// A delta message is as long as its parts.
  lemma DeltaLength(f: Bytes, last: Context, ctx: Context)
    requires IsDelta(f, last, ctx)
    ensures |ChangedRegs(last.x, ctx.x)| <= NUM_CHANGED_MAX && |ChangedRegs(last.v, ctx.v)| <= NUM_CHANGED_MAX
    ensures |FixedPart(last, ctx)| == FlagCount(Branches(last, ctx), MovesSp(last, ctx)) * 8
    ensures |f| == 8 + |FixedPart(last, ctx)| + 8 * |ChangedRegs(last.x, ctx.x)| + 16 * |ChangedRegs(last.v, ctx.v)|
    ensures |f| <= SIZE_MAX
  {
    hide HeaderSays, ChangedRegs, Branches, MovesSp, All64, All128, Bytes64, Read32;
    assert |f| == 8 + |f[8..]|;
  }

  /// A message whose headers count and name existing registers is complete once it
  /// has that many bytes.
  lemma HeadersGiveSize(m: Bytes, branched: bool, spChanged: bool, gprs: seq<nat>, vecs: seq<nat>)
    requires |m| >= 8 && HeaderSays(GprHeader(m), branched, spChanged, gprs)
    requires HeaderSays(VecHeader(m), false, false, vecs)
    ensures !IsSync(m) && Size(m) == 8 + FlagCount(branched, spChanged) * 8 + 8 * |gprs| + 16 * |vecs|
    ensures (PcBranched(GprHeader(m)) <==> branched) && (SpChanged(GprHeader(m)) <==> spChanged)
    ensures NumFixed(m) == FlagCount(branched, spChanged) && NumGpr(m) == |gprs| && NumVec(m) == |vecs|
    ensures Names(GprHeader(m), gprs) && Names(VecHeader(m), vecs)
  {
    hide GprHeader, VecHeader, NumChanged, PcBranched, SpChanged, SyncBit, SpareBit, Names, FlagCount;
  }

  lemma NamedIsComplete(m: Bytes, gprs: seq<nat>, vecs: seq<nat>)
    requires |m| >= 8 && Size(m) <= |m| && !IsSync(m) && NumGpr(m) == |gprs| && NumVec(m) == |vecs|
    requires Names(GprHeader(m), gprs) && Names(VecHeader(m), vecs)
    requires |gprs| <= NUM_CHANGED_MAX && |vecs| <= NUM_CHANGED_MAX
    requires (forall j :: 0 <= j < |gprs| ==> gprs[j] < 31) && (forall j :: 0 <= j < |vecs| ==> vecs[j] < 32)
    ensures Complete(m)
  {
    hide Size, IsSync, NumGpr, NumVec, GprHeader, VecHeader, Reg;
  }

  lemma DeltaShape(f: Bytes, last: Context, ctx: Context, rest: Bytes)
    requires IsDelta(f, last, ctx)
    ensures |last.x| == |ctx.x| == 31 && |last.v| == |ctx.v| == 32 && |f + rest| >= 8
  {
    hide HeaderSays, FixedPart, All64, All128, Encodable, ChangedRegs;
  }

  lemma DeltaSize(f: Bytes, last: Context, ctx: Context, rest: Bytes)
    requires IsDelta(f, last, ctx)
    ensures var m := f + rest;
            && GprHeader(m) == Read32(f, 0) && VecHeader(m) == Read32(f, 4)
            && !IsSync(m) && Size(m) == |f| <= SIZE_MAX && Complete(m)
  {
    hide *;
    DeltaShape(f, last, ctx, rest);
    var m, gprs, vecs := f + rest, ChangedRegs(last.x, ctx.x), ChangedRegs(last.v, ctx.v);
    DeltaHeaders(f, last, ctx, rest);
    DeltaLength(f, last, ctx);
    HeadersGiveSize(m, Branches(last, ctx), MovesSp(last, ctx), gprs, vecs);
    NamedIsComplete(m, gprs, vecs);
  }

  /// Where the parts of a delta message are.
  lemma DeltaParts(f: Bytes, last: Context, ctx: Context, rest: Bytes)
    requires IsDelta(f, last, ctx)
    ensures var m := f + rest;
            var gprs, vecs := ChangedRegs(last.x, ctx.x), ChangedRegs(last.v, ctx.v);
            var fixed := |FixedPart(last, ctx)|;
            && Holds(m, 8, FixedPart(last, ctx))
            && Holds(m, 8 + fixed, All64(Pick(ctx.x, gprs)))
            && Holds(m, 8 + fixed + 8 * |gprs|, All128(Pick(ctx.v, vecs)))
  {
    hide HeaderSays, FixedPart, All64, All128, Encodable, ChangedRegs, Pick, Holds, Read32;
    var gprs, vecs := ChangedRegs(last.x, ctx.x), ChangedRegs(last.v, ctx.v);
    ThreeParts(f, rest, FixedPart(last, ctx), All64(Pick(ctx.x, gprs)), All128(Pick(ctx.v, vecs)));
  }

  lemma ThreeParts(f: Bytes, rest: Bytes, a: Bytes, b: Bytes, c: Bytes)
    requires |f| >= 8 && f[8..] == a + b + c
    ensures Holds(f + rest, 8, a) && Holds(f + rest, 8 + |a|, b) && Holds(f + rest, 8 + |a| + |b|, c)
  {
    var m := f + rest;
    assert m == f[..8] + (a + b + c) + rest;
  }

  lemma FixedReads(m: Bytes, last: Context, ctx: Context)
    requires Holds(m, 8, FixedPart(last, ctx))
    ensures Branches(last, ctx) ==> |m| >= 16 && Read64(m, 8) == ctx.pc
    ensures MovesSp(last, ctx) ==>
      var at := 8 + FlagCount(Branches(last, ctx), false) * 8;
      |m| >= at + 8 && Read64(m, at) == ctx.sp
  {
    var branched, moved := Branches(last, ctx), MovesSp(last, ctx);
    var fixed := FixedPart(last, ctx);
    hide Bytes64, Read64, Holds;
    if branched {
      assert fixed[0..8] == Bytes64(ctx.pc);
      HoldsPart(m, 8, fixed, 0, 8);
      ReadBytes64(m, 8, ctx.pc);
    }
    if moved {
      var at := |fixed| - 8;
      assert fixed[at..at + 8] == Bytes64(ctx.sp);
      HoldsPart(m, 8, fixed, at, at + 8);
      ReadBytes64(m, 8 + at, ctx.sp);
    }
  }

  lemma DeltaFlags(f: Bytes, last: Context, ctx: Context, rest: Bytes)
    requires IsDelta(f, last, ctx)
    ensures var m := f + rest;
            && Complete(m) && !IsSync(m)
            && (PcBranched(GprHeader(m)) <==> Branches(last, ctx))
            && (SpChanged(GprHeader(m)) <==> MovesSp(last, ctx))
            && NumFixed(m) * 8 == |FixedPart(last, ctx)|
  {
    hide *;
    DeltaShape(f, last, ctx, rest);
    DeltaSize(f, last, ctx, rest);
    DeltaHeaders(f, last, ctx, rest);
    DeltaLength(f, last, ctx);
    HeadersGiveSize(f + rest, Branches(last, ctx), MovesSp(last, ctx),
                    ChangedRegs(last.x, ctx.x), ChangedRegs(last.v, ctx.v));
  }

  lemma PcSpAt(m: Bytes)
    requires Complete(m) && !IsSync(m)
    ensures PcBranched(GprHeader(m)) ==> |m| >= 16 && Pc(m) == Read64(m, 8)
    ensures SpChanged(GprHeader(m)) ==>
      var at := 8 + FlagCount(PcBranched(GprHeader(m)), false) * 8;
      |m| >= at + 8 && Sp(m) == Read64(m, at)
  {
    hide IsSync, GprHeader, PcBranched, SpChanged, NumGpr, NumVec, Reg, Read64;
  }

  lemma DeltaPcSp(f: Bytes, last: Context, ctx: Context, rest: Bytes)
    requires IsDelta(f, last, ctx)
    ensures var m := f + rest;
            && Complete(m) && !IsSync(m)
            && (PcBranched(GprHeader(m)) <==> Branches(last, ctx))
            && (SpChanged(GprHeader(m)) <==> MovesSp(last, ctx))
            && (PcBranched(GprHeader(m)) ==> Pc(m) == ctx.pc)
            && (SpChanged(GprHeader(m)) ==> Sp(m) == ctx.sp)
  {
    hide *;
    DeltaFlags(f, last, ctx, rest);
    DeltaParts(f, last, ctx, rest);
    FixedReads(f + rest, last, ctx);
    PcSpAt(f + rest);
  }

  lemma DeltaNames(f: Bytes, last: Context, ctx: Context, rest: Bytes)
    requires IsDelta(f, last, ctx)
    ensures var m := f + rest;
            var gprs, vecs := ChangedRegs(last.x, ctx.x), ChangedRegs(last.v, ctx.v);
            && Complete(m) && !IsSync(m) && NumGpr(m) == |gprs| && NumVec(m) == |vecs|
            && Names(GprHeader(m), gprs) && Names(VecHeader(m), vecs)
            && NumFixed(m) * 8 == |FixedPart(last, ctx)|
  {
    hide *;
    DeltaShape(f, last, ctx, rest);
    DeltaFlags(f, last, ctx, rest);
    DeltaHeaders(f, last, ctx, rest);
    HeadersGiveSize(f + rest, Branches(last, ctx), MovesSp(last, ctx),
                    ChangedRegs(last.x, ctx.x), ChangedRegs(last.v, ctx.v));
  }

  lemma GprsRead(m: Bytes, at: nat, vals: seq<bv64>)
    requires Complete(m) && !IsSync(m) && NumGpr(m) == |vals| && at == 8 + NumFixed(m) * 8
    requires Holds(m, at, All64(vals))
    ensures forall j: nat :: j < |vals| ==> Gpr(m, j) == vals[j]
  {
    hide Complete, IsSync, NumFixed, NumGpr, Read64, Holds, All64;
    forall j: nat | j < |vals| ensures Gpr(m, j) == vals[j] {
      ReadWords(m, at, vals, j);
    }
  }

  lemma VecsRead(m: Bytes, at: nat, vals: seq<bv128>)
    requires Complete(m) && !IsSync(m) && NumVec(m) == |vals| && at == 8 + NumFixed(m) * 8 + NumGpr(m) * 8
    requires Holds(m, at, All128(vals))
    ensures forall j: nat :: j < |vals| ==> Vec(m, j) == vals[j]
  {
    hide Complete, IsSync, NumFixed, NumGpr, NumVec, Read128, Holds, All128;
    forall j: nat | j < |vals| ensures Vec(m, j) == vals[j] {
      ReadWide(m, at, vals, j);
    }
  }

  lemma {:induction false} PatchedGprsAre(m: Bytes, x: seq<bv64>, now: seq<bv64>, regs: seq<nat>, n: nat)
    requires Complete(m) && !IsSync(m) && |x| == |now| == 31 && NumGpr(m) == |regs| && n <= |regs|
    requires Names(GprHeader(m), regs) && forall j :: 0 <= j < |regs| ==> regs[j] < 31
    requires forall j: nat :: j < |regs| ==> Gpr(m, j) == now[regs[j]]
    ensures forall i: nat :: i < 31 ==> PatchedGprs(m, x, n)[i] == if i in regs[..n] then now[i] else x[i]
  {
    hide Complete, IsSync, Reg, Gpr, NumGpr;
    if n > 0 {
      PatchedGprsAre(m, x, now, regs, n - 1);
      assert regs[..n] == regs[..n - 1] + [regs[n - 1]];
      assert PatchedGprs(m, x, n) == PatchedGprs(m, x, n - 1)[regs[n - 1] := now[regs[n - 1]]];
    }
  }

  lemma {:induction false} PatchedVecsAre(m: Bytes, v: seq<bv128>, now: seq<bv128>, regs: seq<nat>, n: nat)
    requires Complete(m) && !IsSync(m) && |v| == |now| == 32 && NumVec(m) == |regs| && n <= |regs|
    requires Names(VecHeader(m), regs) && forall j :: 0 <= j < |regs| ==> regs[j] < 32
    requires forall j: nat :: j < |regs| ==> Vec(m, j) == now[regs[j]]
    ensures forall i: nat :: i < 32 ==> PatchedVecs(m, v, n)[i] == if i in regs[..n] then now[i] else v[i]
  {
    hide Complete, IsSync, Reg, Vec, NumVec;
    if n > 0 {
      PatchedVecsAre(m, v, now, regs, n - 1);
      assert regs[..n] == regs[..n - 1] + [regs[n - 1]];
      assert PatchedVecs(m, v, n) == PatchedVecs(m, v, n - 1)[regs[n - 1] := now[regs[n - 1]]];
    }
  }

  /// Registers that were patched, or did not change, are up to date.
  lemma SameRegs<T>(last: seq<T>, now: seq<T>, r: seq<T>, regs: seq<nat>)
    requires |last| == |now| == |r|
    requires forall i: nat :: i < |now| ==> (last[i] != now[i] <==> i in regs)
    requires forall i: nat :: i < |now| ==> r[i] == if i in regs then now[i] else last[i]
    ensures r == now
  {
  }

  /// The parts of a context that delta messages carry in full.
  ghost predicate Agree(a: Context, b: Context) {
    a.sp == b.sp && a.x == b.x && a.v == b.v
  }

  lemma PatchingGprsRestores(m: Bytes, last: seq<bv64>, now: seq<bv64>, regs: seq<nat>)
    requires Complete(m) && !IsSync(m) && |last| == |now| == 31 && NumGpr(m) == |regs|
    requires Names(GprHeader(m), regs) && regs == ChangedRegs(last, now)
    requires forall j: nat :: j < |regs| ==> Gpr(m, j) == Pick(now, regs)[j]
    ensures PatchedGprs(m, last, NumGpr(m)) == now
  {
    hide Complete, IsSync, Names, NumGpr, Gpr, ChangedRegs;
    PatchedGprsAre(m, last, now, regs, |regs|);
    assert regs[..|regs|] == regs;
    SameRegs(last, now, PatchedGprs(m, last, |regs|), regs);
  }

  lemma PatchingVecsRestores(m: Bytes, last: seq<bv128>, now: seq<bv128>, regs: seq<nat>)
    requires Complete(m) && !IsSync(m) && |last| == |now| == 32 && NumVec(m) == |regs|
    requires Names(VecHeader(m), regs) && regs == ChangedRegs(last, now)
    requires forall j: nat :: j < |regs| ==> Vec(m, j) == Pick(now, regs)[j]
    ensures PatchedVecs(m, last, NumVec(m)) == now
  {
    hide Complete, IsSync, Names, NumVec, Vec, ChangedRegs;
    PatchedVecsAre(m, last, now, regs, |regs|);
    assert regs[..|regs|] == regs;
    SameRegs(last, now, PatchedVecs(m, last, |regs|), regs);
  }

  lemma DeltaPatchesGprs(f: Bytes, last: Context, ctx: Context, rest: Bytes)
    requires IsDelta(f, last, ctx)
    ensures var m := f + rest;
            Complete(m) && !IsSync(m) && PatchedGprs(m, last.x, NumGpr(m)) == ctx.x
  {
    hide *;
    DeltaShape(f, last, ctx, rest);
    var m, regs := f + rest, ChangedRegs(last.x, ctx.x);
    DeltaNames(f, last, ctx, rest);
    DeltaParts(f, last, ctx, rest);
    GprsRead(m, 8 + |FixedPart(last, ctx)|, Pick(ctx.x, regs));
    PatchingGprsRestores(m, last.x, ctx.x, regs);
  }

  lemma DeltaReadsVecs(f: Bytes, last: Context, ctx: Context, rest: Bytes)
    requires IsDelta(f, last, ctx)
    ensures var m, vals := f + rest, Pick(ctx.v, ChangedRegs(last.v, ctx.v));
            && Complete(m) && !IsSync(m) && NumVec(m) == |vals|
            && forall j: nat :: j < |vals| ==> Vec(m, j) == vals[j]
  {
    hide *;
    DeltaShape(f, last, ctx, rest);
    DeltaNames(f, last, ctx, rest);
    DeltaParts(f, last, ctx, rest);
    VecsRead(f + rest, 8 + |FixedPart(last, ctx)| + 8 * |ChangedRegs(last.x, ctx.x)|,
             Pick(ctx.v, ChangedRegs(last.v, ctx.v)));
  }

  lemma DeltaPatchesVecs(f: Bytes, last: Context, ctx: Context, rest: Bytes)
    requires IsDelta(f, last, ctx)
    ensures var m := f + rest;
            Complete(m) && !IsSync(m) && PatchedVecs(m, last.v, NumVec(m)) == ctx.v
  {
    hide *;
    DeltaShape(f, last, ctx, rest);
    var m, regs := f + rest, ChangedRegs(last.v, ctx.v);
    DeltaNames(f, last, ctx, rest);
    DeltaReadsVecs(f, last, ctx, rest);
    PatchingVecsRestores(m, last.v, ctx.v, regs);
  }

  /// Applied to any context that agrees with `last`, a delta message gives one
  /// that agrees with `ctx`. The pc is only set on a branch, and nzcv never.
  lemma DeltaUpdates(f: Bytes, last: Context, ctx: Context, rest: Bytes, c: Context)
    requires IsDelta(f, last, ctx) && Agree(c, last)
    ensures Complete(f + rest)
    ensures var u := Updated(c, f + rest);
            && Agree(u, ctx) && u.nzcv == c.nzcv
            && u.pc == if Branches(last, ctx) then ctx.pc else c.pc
  {
    hide MovesSp, Branches, IsDelta, Complete, IsSync, NumGpr, NumVec, Pc, Sp, GprHeader, PcBranched, SpChanged;
    DeltaPcSp(f, last, ctx, rest);
    DeltaPatchesGprs(f, last, ctx, rest);
    DeltaPatchesVecs(f, last, ctx, rest);
    StepCarries(last, ctx);
  }
}

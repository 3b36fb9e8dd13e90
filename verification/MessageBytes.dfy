/// What is in a log byte by byte, as numbers, without the accessors of the code.
module MessageBytes {
  import opened HeaderBits
  import opened LogFormat
  import opened Machine
  import opened TraceFrames

  // ----- digits decide the bytes -----

  lemma ValueIsByte(a: bv8, b: bv8)
    requires Value(a) == Value(b)
    ensures a == b
  {
  }

  lemma WordBytes(m: Bytes, at: nat, w: bv64)
    requires Digits64(m, at, w)
    ensures at + 8 <= |m| && m[at..at + 8] == Bytes64(w)
  {
    hide Bytes64, Value, Digit;
    forall k | 0 <= k < 8 ensures m[at + k] == Bytes64(w)[k] {
      Bytes64Digit(w, k);
      ValueIsByte(m[at + k], Bytes64(w)[k]);
    }
  }

  lemma WideBytes(m: Bytes, at: nat, w: bv128)
    requires Digits128(m, at, w)
    ensures at + 16 <= |m| && m[at..at + 16] == Bytes128(w)
  {
    hide Bytes128, Value, Digit;
    forall k | 0 <= k < 16 ensures m[at + k] == Bytes128(w)[k] {
      Bytes128Digit(w, k);
      ValueIsByte(m[at + k], Bytes128(w)[k]);
    }
  }

  lemma HoldsNext(m: Bytes, at: nat, a: Bytes, b: Bytes)
    requires Holds(m, at, a) && at + |a| + |b| <= |m| && m[at + |a|..at + |a| + |b|] == b
    ensures Holds(m, at, a + b)
  {
    assert m[at..at + |a + b|] == m[at..at + |a|] + m[at + |a|..at + |a| + |b|];
  }

  lemma {:induction false} ArrayBytes(m: Bytes, at: nat, ws: seq<bv64>)
    requires at <= |m| && forall i :: 0 <= i < |ws| ==> Digits64(m, at + 8 * i, ws[i])
    ensures Holds(m, at, All64(ws))
  {
    hide Bytes64, Digits64;
    if ws != [] {
      var last := |ws| - 1;
      ArrayBytes(m, at, ws[..last]);
      assert Digits64(m, at + 8 * last, ws[last]);
      WordBytes(m, at + 8 * last, ws[last]);
      HoldsNext(m, at, All64(ws[..last]), Bytes64(ws[last]));
    }
  }

  lemma {:induction false} WideArrayBytes(m: Bytes, at: nat, ws: seq<bv128>)
    requires at <= |m| && forall i :: 0 <= i < |ws| ==> Digits128(m, at + 16 * i, ws[i])
    ensures Holds(m, at, All128(ws))
  {
    hide Bytes128, Digits128;
    if ws != [] {
      var last := |ws| - 1;
      WideArrayBytes(m, at, ws[..last]);
      assert Digits128(m, at + 16 * last, ws[last]);
      WideBytes(m, at + 16 * last, ws[last]);
      HoldsNext(m, at, All128(ws[..last]), Bytes128(ws[last]));
    }
  }

  // ----- sync frames -----

  /// The source's `memcmp`: a sync frame is told by the digits of 17 words.
  lemma SyncIff(m: Bytes)
    requires |m| >= 8
    ensures IsSync(m) <==> |m| >= 136 && forall i :: 0 <= i < 17 ==> Digits64(m, 8 * i, SYNC_HEADER[i])
  {
    hide Digits64, All64, SyncBit, GprHeader;
    if IsSync(m) {
      assert Holds(m, 0, All64(SYNC_HEADER));
      forall i: nat | i < 17 ensures Digits64(m, 8 * i, SYNC_HEADER[i]) {
        AllDigits64(m, 0, SYNC_HEADER, i);
      }
    } else if |m| >= 136 && forall i :: 0 <= i < 17 ==> Digits64(m, 8 * i, SYNC_HEADER[i]) {
      ArrayBytes(m, 0, SYNC_HEADER);
      SyncHeaderHasSyncBit(m);
    }
  }

  /// The 928 bytes of a sync frame: the header's words, the number of instructions,
  /// and the context.
  lemma SyncDigits(num: bv64, ctx: Context)
    ensures var m := SyncBytes(num, ctx);
            && |m| == 928
            && (forall i :: 0 <= i < 17 ==> Digits64(m, 8 * i, SYNC_HEADER[i]))
            && Digits64(m, 136, num)
            && Digits64(m, 144, ctx.pc) && Digits64(m, 152, ctx.sp) && Digits64(m, 160, ctx.nzcv)
            && (forall i :: 0 <= i < 31 ==> Digits64(m, 168 + 8 * i, ctx.x[i]))
            && (forall i :: 0 <= i < 32 ==> Digits128(m, 416 + 16 * i, ctx.v[i]))
  {
    hide Digits64, Digits128, ContextBytes, All64, Bytes64, Read64;
    var m := SyncBytes(num, ctx);
    assert m[0..136] == All64(SYNC_HEADER) && m[136..144] == Bytes64(num) && m[144..928] == ContextBytes(ctx);
    forall i: nat | i < 17 ensures Digits64(m, 8 * i, SYNC_HEADER[i]) {
      AllDigits64(m, 0, SYNC_HEADER, i);
    }
    ReadBytes64(m, 136, num);
    Read64Digits(m, 136);
    ContextDigits(m, 144, ctx);
  }

  /// Applying a sync frame gives the context that it was written with.
  lemma UpdatedBySync(c: Context, num: bv64, ctx: Context, rest: Bytes)
    ensures var m := SyncBytes(num, ctx) + rest;
            Complete(m) && Updated(c, m) == ctx
  {
    hide Complete, IsSync, SyncContext, SyncBytes;
    SyncReads(num, ctx, rest);
  }

  // ----- delta messages -----

  /// The 64-bit words of a message: the pc unless it is that of the next instruction,
  /// the sp if it is another one, and the changed general registers.
  ghost function MessageWords(last: Context, ctx: Context): seq<bv64> {
    (if Jumps(last, ctx) then [ctx.pc] else []) + (if MovesStack(last, ctx) then [ctx.sp] else [])
    + Pick(ctx.x, ChangedRegs(last.x, ctx.x))
  }

  /// The digits of the words, and of the wide words after them, fill the rest of `f`.
  ghost predicate BodyDigits(f: Bytes, words: seq<bv64>, wides: seq<bv128>) {
    && |f| == 8 + 8 * |words| + 16 * |wides|
    && (forall i :: 0 <= i < |words| ==> Digits64(f, 8 + 8 * i, words[i]))
    && (forall j :: 0 <= j < |wides| ==> Digits128(f, 8 + 8 * |words| + 16 * j, wides[j]))
  }

  /// `msg` has the two headers and the words of the step from `last` to `ctx`.
  ghost predicate IsMessage(msg: Bytes, last: Context, ctx: Context) {
    var gprs, vecs := ChangedRegs(last.x, ctx.x), ChangedRegs(last.v, ctx.v);
    var words := MessageWords(last, ctx);
    && |gprs| <= 5 && |vecs| <= 5 && |msg| >= 8
    && LittleEndian(msg[..4]) == HeaderNumber(Jumps(last, ctx), MovesStack(last, ctx), gprs)
    && LittleEndian(msg[4..8]) == HeaderNumber(false, false, vecs)
    && BodyDigits(msg, words, Pick(ctx.v, vecs))
  }

  ghost predicate Ascending(r: seq<nat>) {
    forall i, j :: 0 <= i < j < |r| ==> r[i] < r[j]
  }

  lemma AscendsFurther(r: seq<nat>, last: nat)
    requires Ascending(r) && forall i :: 0 <= i < |r| ==> r[i] < last
    ensures Ascending(r + [last])
  {
  }

  lemma ChangedNext(flags: seq<bool>, n: nat)
    requires 0 < n <= |flags|
    ensures ChangedUpTo(flags, n) == ChangedUpTo(flags, n - 1) + [n - 1]
            || ChangedUpTo(flags, n) == ChangedUpTo(flags, n - 1)
    ensures var before := ChangedUpTo(flags, n - 1); forall i :: 0 <= i < |before| ==> before[i] < n - 1
  {
    assert ChangedUpTo(flags, n - 1) + [] == ChangedUpTo(flags, n - 1);
  }

  lemma NoneAscend(flags: seq<bool>)
    ensures Ascending(ChangedUpTo(flags, 0))
  {
  }

  /// The changed registers are listed in ascending order, each once.
  lemma {:induction false} ChangedAscending(flags: seq<bool>, n: nat)
    requires n <= |flags|
    ensures Ascending(ChangedUpTo(flags, n))
  {
    hide *;
    if n > 0 {
      ChangedAscending(flags, n - 1);
      ChangedNext(flags, n);
      AscendsFurther(ChangedUpTo(flags, n - 1), n - 1);
    } else {
      NoneAscend(flags);
    }
  }

  lemma {:induction false} JoinedArrays(a: seq<bv64>, b: seq<bv64>)
    ensures All64(a + b) == All64(a) + All64(b)
  {
    hide Bytes64;
    if b == [] {
      assert a + b == a;
    } else {
      var last := |b| - 1;
      JoinedArrays(a, b[..last]);
      assert (a + b)[..|a + b| - 1] == a + b[..last];
    }
  }

  lemma OneWord(w: bv64)
    ensures All64([w]) == Bytes64(w) && All64([]) == []
  {
    hide Bytes64;
    assert [w][..0] == [];
  }

  /// The bytes after the headers, as two arrays.
  lemma BodyBytes(last: Context, ctx: Context)
    ensures FixedPart(last, ctx) + All64(Pick(ctx.x, ChangedRegs(last.x, ctx.x))) == All64(MessageWords(last, ctx))
  {
    hide Bytes64, All64, Branches, MovesSp, Jumps, MovesStack, Pick, ChangedRegs;
    StepCarries(last, ctx);
    OneWord(ctx.pc);
    OneWord(ctx.sp);
    var pc, sp := if Jumps(last, ctx) then [ctx.pc] else [], if MovesStack(last, ctx) then [ctx.sp] else [];
    JoinedArrays(pc, sp);
    JoinedArrays(pc + sp, Pick(ctx.x, ChangedRegs(last.x, ctx.x)));
  }

  /// The headers of a delta message are the numbers of its flags and registers.
  lemma HeaderBytes(f: Bytes, last: Context, ctx: Context)
    requires |f| >= 8 && Encodable(last, ctx)
    ensures HeaderSays(Read32(f, 0), Branches(last, ctx), MovesSp(last, ctx), ChangedRegs(last.x, ctx.x))
            <==> LittleEndian(f[..4]) == HeaderNumber(Jumps(last, ctx), MovesStack(last, ctx),
                                                      ChangedRegs(last.x, ctx.x))
    ensures HeaderSays(Read32(f, 4), false, false, ChangedRegs(last.v, ctx.v))
            <==> LittleEndian(f[4..8]) == HeaderNumber(false, false, ChangedRegs(last.v, ctx.v))
  {
    hide HeaderSays, HeaderNumber, Branches, MovesSp, Jumps, MovesStack, ChangedRegs, From32, LittleEndian;
    StepCarries(last, ctx);
    From32Number(f[0..4]);
    From32Number(f[4..8]);
    HeaderSaysIff(Read32(f, 0), Branches(last, ctx), MovesSp(last, ctx), ChangedRegs(last.x, ctx.x));
    HeaderSaysIff(Read32(f, 4), false, false, ChangedRegs(last.v, ctx.v));
  }

  lemma BodyHolds(f: Bytes, a: Bytes, b: Bytes)
    requires |f| >= 8
    ensures f[8..] == a + b <==> |f| == 8 + |a| + |b| && Holds(f, 8, a) && Holds(f, 8 + |a|, b)
  {
    if f[8..] == a + b {
      assert f == f[..8] + (a + b);
    }
    if |f| == 8 + |a| + |b| && Holds(f, 8, a) && Holds(f, 8 + |a|, b) {
      assert f[8..] == f[8..8 + |a|] + f[8 + |a|..];
    }
  }

  lemma ArrayIff(m: Bytes, at: nat, ws: seq<bv64>)
    requires at <= |m|
    ensures Holds(m, at, All64(ws)) <==> forall i :: 0 <= i < |ws| ==> Digits64(m, at + 8 * i, ws[i])
  {
    hide Holds, All64, Digits64;
    if Holds(m, at, All64(ws)) {
      forall i: nat | i < |ws| ensures Digits64(m, at + 8 * i, ws[i]) {
        AllDigits64(m, at, ws, i);
      }
    } else if forall i :: 0 <= i < |ws| ==> Digits64(m, at + 8 * i, ws[i]) {
      ArrayBytes(m, at, ws);
    }
  }

  lemma WideArrayIff(m: Bytes, at: nat, ws: seq<bv128>)
    requires at <= |m|
    ensures Holds(m, at, All128(ws)) <==> forall i :: 0 <= i < |ws| ==> Digits128(m, at + 16 * i, ws[i])
  {
    hide Holds, All128, Digits128;
    if Holds(m, at, All128(ws)) {
      forall i: nat | i < |ws| ensures Digits128(m, at + 16 * i, ws[i]) {
        AllDigits128(m, at, ws, i);
      }
    } else if forall i :: 0 <= i < |ws| ==> Digits128(m, at + 16 * i, ws[i]) {
      WideArrayBytes(m, at, ws);
    }
  }

  lemma BodyIff(f: Bytes, words: seq<bv64>, wides: seq<bv128>)
    requires |f| >= 8
    ensures f[8..] == All64(words) + All128(wides) <==> BodyDigits(f, words, wides)
  {
    hide Digits64, Digits128, All64, All128, Holds;
    BodyHolds(f, All64(words), All128(wides));
    if |f| == 8 + 8 * |words| + 16 * |wides| {
      ArrayIff(f, 8, words);
      WideArrayIff(f, 8 + 8 * |words|, wides);
    }
  }

  lemma DeltaHasBytes(f: Bytes, last: Context, ctx: Context)
    requires IsDelta(f, last, ctx)
    ensures IsMessage(f, last, ctx)
  {
    hide HeaderSays, HeaderNumber, ChangedRegs, LittleEndian, BodyDigits, All64, All128, FixedPart, MessageWords,
      Read32, Branches, MovesSp, Jumps, MovesStack, Pick;
    HeaderBytes(f, last, ctx);
    BodyIsMessage(f, last, ctx);
  }

  lemma BytesAreDelta(f: Bytes, last: Context, ctx: Context)
    requires IsMessage(f, last, ctx)
    ensures IsDelta(f, last, ctx)
  {
    hide HeaderSays, HeaderNumber, ChangedRegs, LittleEndian, BodyDigits, All64, All128, FixedPart, MessageWords,
      Read32, Branches, MovesSp, Jumps, MovesStack, Pick;
    HeaderBytes(f, last, ctx);
    BodyIsMessage(f, last, ctx);
  }

  /// The messages that the writer may produce for a step are exactly those bytes.
  lemma DeltaIsMessage(f: Bytes, last: Context, ctx: Context)
    ensures IsDelta(f, last, ctx) <==> IsMessage(f, last, ctx)
  {
    hide *;
    if IsDelta(f, last, ctx) {
      DeltaHasBytes(f, last, ctx);
    } else if IsMessage(f, last, ctx) {
      BytesAreDelta(f, last, ctx);
    }
  }

  lemma BodyIsMessage(f: Bytes, last: Context, ctx: Context)
    requires |f| >= 8
    ensures var gprs, vecs := Pick(ctx.x, ChangedRegs(last.x, ctx.x)), Pick(ctx.v, ChangedRegs(last.v, ctx.v));
            f[8..] == FixedPart(last, ctx) + All64(gprs) + All128(vecs)
            <==> BodyDigits(f, MessageWords(last, ctx), vecs)
  {
    hide *;
    BothSame(ctx, last);
    BodyBytes(last, ctx);
    BodyIff(f, MessageWords(last, ctx), Pick(ctx.v, ChangedRegs(last.v, ctx.v)));
  }

  lemma BothSame(last: Context, ctx: Context)
    ensures |last.x| == |ctx.x| == 31 && |last.v| == |ctx.v| == 32
  {
  }

  lemma DeltaJumps(f: Bytes, last: Context, ctx: Context)
    requires IsDelta(f, last, ctx)
    ensures |f| >= 8
    ensures (PcBranched(GprHeader(f)) <==> Jumps(last, ctx)) && (SpChanged(GprHeader(f)) <==> MovesStack(last, ctx))
  {
    hide *;
    DeltaFlags(f, last, ctx, []);
    assert f + [] == f;
    StepCarries(last, ctx);
    CompleteIsNotEmpty(f);
  }

  /// The flags of a message, in terms of the two contexts.
  lemma DeltaCarries(f: Bytes, last: Context, ctx: Context)
    requires IsDelta(f, last, ctx)
    ensures |f| >= 8
    ensures PcBranched(GprHeader(f)) <==> ctx.pc != last.pc + 4
    ensures SpChanged(GprHeader(f)) <==> ctx.sp != last.sp
  {
    hide *;
    DeltaJumps(f, last, ctx);
    JumpsMeans(last, ctx);
  }

  lemma JumpsMeans(last: Context, ctx: Context)
    ensures Jumps(last, ctx) <==> ctx.pc != last.pc + 4
    ensures MovesStack(last, ctx) <==> ctx.sp != last.sp
  {
    hide IsNext;
    IsNextMeans(last.pc, ctx.pc);
  }

  lemma IsNextMeans(from: bv64, to: bv64)
    ensures IsNext(from, to) <==> to == from + 4
  {
  }

  // ----- reading any message -----

  /// No later place below `n` names the same register.
  ghost predicate IsLastOf(regs: seq<nat>, j: nat, n: nat)
    requires j < n <= |regs|
  {
    forall i :: j < i < n ==> regs[i] != regs[j]
  }

  lemma {:induction false} PatchedKeeps(m: Bytes, x: seq<bv64>, regs: seq<nat>, n: nat, r: nat)
    requires Complete(m) && !IsSync(m) && |x| == 31 && NumGpr(m) == |regs| && n <= |regs| && r < 31
    requires Names(GprHeader(m), regs) && r !in regs[..n]
    ensures PatchedGprs(m, x, n)[r] == x[r]
  {
    hide Complete, IsSync, Reg, Gpr, NumGpr;
    if n > 0 {
      assert regs[..n] == regs[..n - 1] + [regs[n - 1]];
      PatchedKeeps(m, x, regs, n - 1, r);
    }
  }

  lemma {:induction false} PatchedLast(m: Bytes, x: seq<bv64>, regs: seq<nat>, n: nat, j: nat)
    requires Complete(m) && !IsSync(m) && |x| == 31 && NumGpr(m) == |regs| && j < n <= |regs|
    requires Names(GprHeader(m), regs) && regs[j] < 31 && IsLastOf(regs, j, n)
    ensures PatchedGprs(m, x, n)[regs[j]] == Gpr(m, j)
  {
    hide Complete, IsSync, Reg, Gpr, NumGpr;
    if j < n - 1 {
      PatchedLast(m, x, regs, n - 1, j);
    }
  }

  lemma {:induction false} PatchedVecKeeps(m: Bytes, v: seq<bv128>, regs: seq<nat>, n: nat, r: nat)
    requires Complete(m) && !IsSync(m) && |v| == 32 && NumVec(m) == |regs| && n <= |regs| && r < 32
    requires Names(VecHeader(m), regs) && r !in regs[..n]
    ensures PatchedVecs(m, v, n)[r] == v[r]
  {
    hide Complete, IsSync, Reg, Vec, NumVec;
    if n > 0 {
      assert regs[..n] == regs[..n - 1] + [regs[n - 1]];
      PatchedVecKeeps(m, v, regs, n - 1, r);
    }
  }

  lemma {:induction false} PatchedVecLast(m: Bytes, v: seq<bv128>, regs: seq<nat>, n: nat, j: nat)
    requires Complete(m) && !IsSync(m) && |v| == 32 && NumVec(m) == |regs| && j < n <= |regs|
    requires Names(VecHeader(m), regs) && regs[j] < 32 && IsLastOf(regs, j, n)
    ensures PatchedVecs(m, v, n)[regs[j]] == Vec(m, j)
  {
    hide Complete, IsSync, Reg, Vec, NumVec;
    if j < n - 1 {
      PatchedVecLast(m, v, regs, n - 1, j);
    }
  }

  /// What the two headers of a message say, as numbers.
  ghost predicate HeadersAre(m: Bytes, branched: bool, moved: bool, gprs: seq<nat>, vecs: seq<nat>) {
    && |gprs| <= 5 && |vecs| <= 5
    && (forall j :: 0 <= j < |gprs| ==> gprs[j] < 31) && (forall j :: 0 <= j < |vecs| ==> vecs[j] < 32)
    && |m| >= 8 + 8 * FlagCount(branched, moved) + 8 * |gprs| + 16 * |vecs|
    && LittleEndian(m[..4]) == HeaderNumber(branched, moved, gprs)
    && LittleEndian(m[4..8]) == HeaderNumber(false, false, vecs)
  }

  lemma HeadersRead(m: Bytes, branched: bool, moved: bool, gprs: seq<nat>, vecs: seq<nat>)
    requires HeadersAre(m, branched, moved, gprs, vecs)
    ensures Complete(m) && !IsSync(m) && NumGpr(m) == |gprs| && NumVec(m) == |vecs|
    ensures Size(m) == 8 + 8 * FlagCount(branched, moved) + 8 * |gprs| + 16 * |vecs|
    ensures NumFixed(m) == FlagCount(branched, moved)
    ensures (PcBranched(GprHeader(m)) <==> branched) && (SpChanged(GprHeader(m)) <==> moved)
    ensures Names(GprHeader(m), gprs) && Names(VecHeader(m), vecs)
  {
    hide HeaderSays, HeaderNumber, LittleEndian, From32, Complete, Size, IsSync, NumGpr, NumVec, NumFixed, Names,
      PcBranched, SpChanged, FlagCount;
    From32Number(m[0..4]);
    From32Number(m[4..8]);
    HeaderSaysIff(Read32(m, 0), branched, moved, gprs);
    HeaderSaysIff(Read32(m, 4), false, false, vecs);
    HeadersGiveSize(m, branched, moved, gprs, vecs);
    NamedIsComplete(m, gprs, vecs);
  }

  /// The registers named by `regs` have the digits found from `at` on, the others stay.
  /// Of several changes to one register the last counts.
  ghost predicate GprsUpdated(m: Bytes, at: nat, x: seq<bv64>, u: seq<bv64>, regs: seq<nat>) {
    && |u| == |x| == 31 && (forall j :: 0 <= j < |regs| ==> regs[j] < 31)
    && (forall r :: 0 <= r < 31 && r !in regs ==> u[r] == x[r])
    && (forall j :: 0 <= j < |regs| && IsLastOf(regs, j, |regs|) ==> Digits64(m, at + 8 * j, u[regs[j]]))
  }

  ghost predicate VecsUpdated(m: Bytes, at: nat, v: seq<bv128>, u: seq<bv128>, regs: seq<nat>) {
    && |u| == |v| == 32 && (forall j :: 0 <= j < |regs| ==> regs[j] < 32)
    && (forall r :: 0 <= r < 32 && r !in regs ==> u[r] == v[r])
    && (forall j :: 0 <= j < |regs| && IsLastOf(regs, j, |regs|) ==> Digits128(m, at + 16 * j, u[regs[j]]))
  }

  /// `u` is `c` with the words of the message `m` in the places its headers name.
  ghost predicate IsUpdate(m: Bytes, c: Context, u: Context, branched: bool, moved: bool, gprs: seq<nat>,
      vecs: seq<nat>)
  {
    var at := 8 + 8 * FlagCount(branched, moved);
    && (if branched then Digits64(m, 8, u.pc) else u.pc == c.pc)
    && (if moved then Digits64(m, if branched then 16 else 8, u.sp) else u.sp == c.sp)
    && u.nzcv == c.nzcv
    && GprsUpdated(m, at, c.x, u.x, gprs) && VecsUpdated(m, at + 8 * |gprs|, c.v, u.v, vecs)
  }

  lemma GprDigits(m: Bytes, j: nat, at: nat)
    requires Complete(m) && !IsSync(m) && j < NumGpr(m) && |m| >= 8 && at == 8 + 8 * NumFixed(m) + 8 * j
    ensures Digits64(m, at, Gpr(m, j))
  {
    hide IsSync, NumFixed, NumGpr, NumVec, Reg, Digits64, Read64, GprHeader, VecHeader;
    Read64Digits(m, at);
  }

  lemma VecDigits(m: Bytes, j: nat, at: nat)
    requires Complete(m) && !IsSync(m) && j < NumVec(m)
    requires |m| >= 8 && at == 8 + 8 * NumFixed(m) + 8 * NumGpr(m) + 16 * j
    ensures Digits128(m, at, Vec(m, j))
  {
    hide IsSync, NumFixed, NumGpr, NumVec, Reg, Digits128, Read128, GprHeader, VecHeader;
    Read128Digits(m, at);
  }

  lemma ChangedGpr(m: Bytes, x: seq<bv64>, regs: seq<nat>, j: nat, at: nat)
    requires Complete(m) && !IsSync(m) && |x| == 31 && NumGpr(m) == |regs| && Names(GprHeader(m), regs)
    requires j < |regs| && regs[j] < 31 && IsLastOf(regs, j, |regs|)
    requires |m| >= 8 && at == 8 + 8 * NumFixed(m) + 8 * j
    ensures Digits64(m, at, PatchedGprs(m, x, |regs|)[regs[j]])
  {
    hide *;
    PatchedLast(m, x, regs, |regs|, j);
    GprDigits(m, j, at);
  }

  lemma UpdatedGprs(m: Bytes, x: seq<bv64>, regs: seq<nat>)
    requires Complete(m) && !IsSync(m) && |x| == 31 && NumGpr(m) == |regs| && Names(GprHeader(m), regs)
    requires forall j :: 0 <= j < |regs| ==> regs[j] < 31
    ensures |m| >= 8 && GprsUpdated(m, 8 + 8 * NumFixed(m), x, PatchedGprs(m, x, |regs|), regs)
  {
    hide Complete, IsSync, NumGpr, NumVec, NumFixed, Names, Digits64, GprHeader, PatchedGprs;
    CompleteIsNotEmpty(m);
    assert regs[..|regs|] == regs;
    var at, u := 8 + 8 * NumFixed(m), PatchedGprs(m, x, |regs|);
    forall r: nat | r < 31 && r !in regs ensures u[r] == x[r] {
      PatchedKeeps(m, x, regs, |regs|, r);
    }
    forall j: nat | j < |regs| && IsLastOf(regs, j, |regs|) ensures Digits64(m, at + 8 * j, u[regs[j]]) {
      ChangedGpr(m, x, regs, j, at + 8 * j);
    }
  }

  lemma ChangedVec(m: Bytes, v: seq<bv128>, regs: seq<nat>, j: nat, at: nat)
    requires Complete(m) && !IsSync(m) && |v| == 32 && NumVec(m) == |regs| && Names(VecHeader(m), regs)
    requires j < |regs| && regs[j] < 32 && IsLastOf(regs, j, |regs|)
    requires |m| >= 8 && at == 8 + 8 * NumFixed(m) + 8 * NumGpr(m) + 16 * j
    ensures Digits128(m, at, PatchedVecs(m, v, |regs|)[regs[j]])
  {
    hide *;
    PatchedVecLast(m, v, regs, |regs|, j);
    VecDigits(m, j, at);
  }

  lemma UpdatedVecs(m: Bytes, v: seq<bv128>, regs: seq<nat>)
    requires Complete(m) && !IsSync(m) && |v| == 32 && NumVec(m) == |regs| && Names(VecHeader(m), regs)
    requires forall j :: 0 <= j < |regs| ==> regs[j] < 32
    ensures |m| >= 8 && VecsUpdated(m, 8 + 8 * NumFixed(m) + 8 * NumGpr(m), v, PatchedVecs(m, v, |regs|), regs)
  {
    hide Complete, IsSync, NumGpr, NumVec, NumFixed, Names, Digits128, VecHeader, PatchedVecs;
    CompleteIsNotEmpty(m);
    assert regs[..|regs|] == regs;
    var at, u := 8 + 8 * NumFixed(m) + 8 * NumGpr(m), PatchedVecs(m, v, |regs|);
    forall r: nat | r < 32 && r !in regs ensures u[r] == v[r] {
      PatchedVecKeeps(m, v, regs, |regs|, r);
    }
    forall j: nat | j < |regs| && IsLastOf(regs, j, |regs|) ensures Digits128(m, at + 16 * j, u[regs[j]]) {
      ChangedVec(m, v, regs, j, at + 16 * j);
    }
  }

  lemma UpdatedPcSp(m: Bytes)
    requires Complete(m) && !IsSync(m)
    ensures PcBranched(GprHeader(m)) ==> Digits64(m, 8, Pc(m))
    ensures SpChanged(GprHeader(m)) ==> Digits64(m, if PcBranched(GprHeader(m)) then 16 else 8, Sp(m))
  {
    hide Complete, IsSync, GprHeader, PcBranched, SpChanged, Digits64, Read64, Pc, Sp;
    CompleteIsNotEmpty(m);
    PcSpAt(m);
    if PcBranched(GprHeader(m)) {
      Read64Digits(m, 8);
    }
    if SpChanged(GprHeader(m)) {
      Read64Digits(m, if PcBranched(GprHeader(m)) then 16 else 8);
    }
  }

  /// Any message, written here or not, is applied as its bytes say.
  lemma UpdatedFromBytes(c: Context, m: Bytes, branched: bool, moved: bool, gprs: seq<nat>, vecs: seq<nat>)
    requires HeadersAre(m, branched, moved, gprs, vecs)
    ensures Complete(m) && !IsSync(m) && IsUpdate(m, c, Updated(c, m), branched, moved, gprs, vecs)
  {
    hide *;
    HeadersRead(m, branched, moved, gprs, vecs);
    SmallRegs(m, branched, moved, gprs, vecs);
    BothSame(c, c);
    UpdatedPcSp(m);
    UpdatedGprs(m, c.x, gprs);
    UpdatedVecs(m, c.v, vecs);
    UpdatedParts(c, m);
    PartsAreUpdate(m, c, Updated(c, m), branched, moved, gprs, vecs);
  }

  lemma SmallRegs(m: Bytes, branched: bool, moved: bool, gprs: seq<nat>, vecs: seq<nat>)
    requires HeadersAre(m, branched, moved, gprs, vecs)
    ensures (forall j :: 0 <= j < |gprs| ==> gprs[j] < 31) && (forall j :: 0 <= j < |vecs| ==> vecs[j] < 32)
  {
  }

  lemma UpdatedParts(c: Context, m: Bytes)
    requires Complete(m) && !IsSync(m)
    ensures |m| >= 8
    ensures var u := Updated(c, m);
            && |c.x| == 31 && |c.v| == 32 && |u.x| == 31 && |u.v| == 32
            && u.pc == (if PcBranched(GprHeader(m)) then Pc(m) else c.pc)
            && u.sp == (if SpChanged(GprHeader(m)) then Sp(m) else c.sp) && u.nzcv == c.nzcv
            && u.x == PatchedGprs(m, c.x, NumGpr(m)) && u.v == PatchedVecs(m, c.v, NumVec(m))
  {
    hide IsSync, PcBranched, SpChanged, NumGpr, NumVec, GprHeader, VecHeader, Reg;
  }

  lemma PartsAreUpdate(m: Bytes, c: Context, u: Context, branched: bool, moved: bool, gprs: seq<nat>, vecs: seq<nat>)
    requires u.nzcv == c.nzcv
    requires if branched then Digits64(m, 8, u.pc) else u.pc == c.pc
    requires if moved then Digits64(m, if branched then 16 else 8, u.sp) else u.sp == c.sp
    requires GprsUpdated(m, 8 + 8 * FlagCount(branched, moved), c.x, u.x, gprs)
    requires VecsUpdated(m, 8 + 8 * FlagCount(branched, moved) + 8 * |gprs|, c.v, u.v, vecs)
    ensures IsUpdate(m, c, u, branched, moved, gprs, vecs)
  {
    hide Digits64, FlagCount, GprsUpdated, VecsUpdated;
  }
}

/// The log of all threads: `TraceLog` keeps one writer per thread in a growing
/// perfect-hash map, and writes through the references that the map returns.
module ThreadLogs {
  import opened LogFormat
  import opened TraceFrames
  import opened TraceWriter
  import opened TraceReader
  import opened TraceTheorems
  import opened Permutation
  import opened PerfectHash
  import opened PerfectMap
  import opened PairedKeys

  // ----- counting the messages of a buffer -----

  /// The delta messages met when hopping by `size()` from the front of `m`.
  ghost function MessagesIn(m: Bytes): nat
    decreases |m|
  {
    if m == [] || !Complete(m) then 0 else MessagesIn(m[Size(m)..]) + if IsSync(m) then 0 else 1
  }

  lemma FrameReads(f: Frame, rest: Bytes)
    requires IsFrame(f)
    ensures var m := f.bytes + rest;
            Complete(m) && Size(m) == |f.bytes| && (IsSync(m) <==> f.Sync?)
  {
    hide Complete, Size, IsSync, IsDelta, SyncBytes;
    match f
    case Sync(bytes, num, ctx) => SyncReads(num, ctx, rest);
    case Delta(bytes, ctx) =>
      var last: Context :| IsDelta(bytes, last, ctx);
      DeltaSize(bytes, last, ctx, rest);
  }

  lemma CountFront(m: Bytes, f: Bytes, rest: Bytes)
    requires m == f + rest && Complete(m) && Size(m) == |f|
    ensures MessagesIn(m) == MessagesIn(rest) + if IsSync(m) then 0 else 1
  {
    CompleteIsNotEmpty(m);
    hide Complete, Size, IsSync;
    assert m[|f|..] == rest;
  }

  lemma {:induction false} MessagesOfFrames(frames: seq<Frame>)
    requires AllFrames(frames)
    ensures MessagesIn(Concat(frames)) == Deltas(frames)
  {
    hide Complete, Size, IsSync, IsFrame;
    if frames != [] {
      MessagesOfFrames(frames[1..]);
      FrameReads(frames[0], Concat(frames[1..]));
      CountFront(Concat(frames), frames[0].bytes, Concat(frames[1..]));
      hide MessagesIn;
    }
  }

  lemma {:induction false} LogCounts(frames: seq<Frame>, st: WriterState, cs: seq<Context>)
    requires LogFrom(frames, st, cs)
    ensures AllFrames(frames) && Deltas(frames) == |cs|
    decreases |frames|
  {
    hide IsDelta, SyncBytes;
    if frames != [] {
      LogCounts(frames[1..], AfterFrame(st, frames[0]), if frames[0].Sync? then cs else cs[1..]);
      assert IsFrame(frames[0]);
    }
  }

  /// `buf` is the complete log of the contexts `cs`.
  ghost predicate IsLogBuffer(buf: Bytes, cs: seq<Context>) {
    exists frames :: IsLogOf(frames, cs) && buf == Concat(frames)
  }

  /// A log has one message for every context.
  lemma LogBufferCounts(buf: Bytes, cs: seq<Context>)
    requires IsLogBuffer(buf, cs)
    ensures MessagesIn(buf) == |cs|
  {
    hide IsLogOf, LogFrom;
    var frames :| IsLogOf(frames, cs) && buf == Concat(frames);
    IsLogFrom(frames, cs);
    LogCounts(frames, StartState(cs[0]), cs);
    MessagesOfFrames(frames);
  }

  /// What the readers get back from such a buffer.
  lemma LogBufferReads(buf: Bytes, cs: seq<Context>)
    requires IsLogBuffer(buf, cs)
    ensures cs != [] && buf != [] && Walkable(buf) && IsSync(buf) && Complete(buf)
    ensures PcsFrom(buf, SyncContext(buf).pc) == [cs[0].pc] + PcsOf(cs)
    ensures AllAgree(ReplayFrom(buf, SyncContext(buf)), cs, cs[0].nzcv)
  {
    hide IsLogOf, LogFrom, Concat, Walkable, PcsFrom, ReplayFrom, IsSync, Complete, AllAgree, PcsOf;
    var frames :| IsLogOf(frames, cs) && buf == Concat(frames);
    IsLogFrom(frames, cs);
    ExtractedPcs(frames, cs);
    ReplayedContexts(frames, cs);
  }

  lemma IsLogFrom(frames: seq<Frame>, cs: seq<Context>)
    requires IsLogOf(frames, cs)
    ensures cs != [] && LogFrom(frames, StartState(cs[0]), cs)
  {
  }

  // ----- the writers of all threads, as values -----

  /// What a thread's writer holds: its buffer and the run that it comes from.
  datatype Writer = Writer(buf: Bytes, frames: seq<Frame>, first: Context, state: WriterState, logged: seq<Context>)

  ghost function View(t: ThreadContext): Writer
    reads t
  {
    Writer(t.logBuf, t.frames, t.first, t.State(), t.logged)
  }

  ghost predicate Framed(w: Writer) {
    w.buf == Concat(w.frames) && AllFrames(w.frames)
  }

  ghost predicate Consistent(w: Writer) {
    IsWritten(w.buf, w.frames, StartState(w.first), w.state, w.logged)
  }

  /// The writer has logged exactly the contexts `cs`.
  ghost predicate HasLogged(w: Writer, cs: seq<Context>) {
    Consistent(w) && w.logged == cs && cs != [] && w.first == cs[0] && w.state.last == cs[|cs| - 1]
  }

  /// One message more.
  ghost predicate Wrote(w: Writer, ctx: Context, w': Writer) {
    && w'.first == w.first && w'.state.last == ctx && w'.logged == w.logged + [ctx]
    && Deltas(w'.frames) == Deltas(w.frames) + 1
    && (Framed(w) ==> Framed(w')) && (Consistent(w) ==> Consistent(w'))
  }

  lemma WroteFrames(w: Writer, ctx: Context, w': Writer)
    requires Wrote(w, ctx, w')
    ensures Deltas(w'.frames) == Deltas(w.frames) + 1 && (Framed(w) ==> Framed(w'))
  {
    hide Framed, Deltas, Consistent;
  }

  lemma NoMessage(w: Writer)
    requires w.frames == []
    ensures Deltas(w.frames) == 0
  {
  }

  lemma HasLoggedMore(w: Writer, cs: seq<Context>, ctx: Context, w': Writer)
    requires HasLogged(w, cs) && Wrote(w, ctx, w')
    ensures HasLogged(w', cs + [ctx])
  {
    hide Consistent, Framed, Deltas;
  }

  lemma HasLoggedFirst(w: Writer, ctx: Context, w': Writer)
    requires Consistent(w) && w.logged == [] && w.first == ctx && Wrote(w, ctx, w')
    ensures HasLogged(w', [ctx])
  {
    hide Consistent, Framed, Deltas;
    assert w.logged + [ctx] == [ctx];
  }

  lemma LoggedIsLog(w: Writer, cs: seq<Context>)
    requires HasLogged(w, cs)
    ensures IsLogBuffer(w.buf, cs)
  {
    hide LogFrom, AfterFrames, Concat;
    assert IsLogOf(w.frames, cs);
  }

  lemma MiscountIsNoLog(w: Writer, cs: seq<Context>)
    requires Framed(w) && Deltas(w.frames) != |cs|
    ensures !IsLogBuffer(w.buf, cs)
  {
    MessagesOfFrames(w.frames);
    hide Framed, Deltas, IsLogBuffer;
    if IsLogBuffer(w.buf, cs) {
      LogBufferCounts(w.buf, cs);
    }
  }

  /// The slot of the newest key is exchanged with its position.
  ghost predicate Exchanges(p: seq<nat>) {
    var n := |p| - 1;
    n >= 0 && p[n] < |p| && p[p[n]] == n
  }

  /// `inserts` has the slots of all keys after each insertion.
  ghost predicate AllExchange(inserts: seq<seq<nat>>) {
    forall k :: 0 <= k < |inserts| ==> Exchanges(inserts[k])
  }

  /// As long as every insertion exchanges slot and position, every thread has its own
  /// log; once one does not, some thread has too few or too many messages.
  ghost predicate Sound<K>(ws: map<K, Writer>, own: map<K, seq<Context>>, inserts: seq<seq<nat>>) {
    && ws.Keys == own.Keys && (forall k :: k in ws ==> Framed(ws[k]))
    && (if AllExchange(inserts)
        then forall k :: k in ws ==> HasLogged(ws[k], own[k])
        else exists k :: k in ws && Deltas(ws[k].frames) != |own[k]|)
  }

  /// Every thread's buffer is the log of its own contexts if and only if each insertion
  /// of a thread exchanged slot and position.
  lemma OwnLogsIffExchanged<K>(ws: map<K, Writer>, own: map<K, seq<Context>>, inserts: seq<seq<nat>>)
    requires Sound(ws, own, inserts)
    ensures (forall k :: k in ws ==> IsLogBuffer(ws[k].buf, own[k])) <==> AllExchange(inserts)
  {
    hide HasLogged, IsLogBuffer, AllExchange, Framed, Deltas;
    if AllExchange(inserts) {
      forall k | k in ws ensures IsLogBuffer(ws[k].buf, own[k]) {
        LoggedIsLog(ws[k], own[k]);
      }
    } else {
      var k :| k in ws && Deltas(ws[k].frames) != |own[k]|;
      MiscountIsNoLog(ws[k], own[k]);
    }
  }

  lemma NothingLogged<K>()
    ensures Sound<K>(map[], map[], [])
  {
  }

  /// A thread that is found writes one message of its own.
  lemma KnownThreadWrites<K>(ws: map<K, Writer>, own: map<K, seq<Context>>, inserts: seq<seq<nat>>, thread: K,
      ctx: Context, w: Writer)
    requires Sound(ws, own, inserts) && thread in ws && Wrote(ws[thread], ctx, w)
    ensures Sound(ws[thread := w], own[thread := own[thread] + [ctx]], inserts)
  {
    hide HasLogged, AllExchange, Framed, Deltas, Consistent, Wrote;
    WroteFrames(ws[thread], ctx, w);
    if AllExchange(inserts) {
      HasLoggedMore(ws[thread], own[thread], ctx, w);
    } else {
      var k :| k in ws && Deltas(ws[k].frames) != |own[k]|;
      assert k in ws[thread := w];
    }
  }

  /// A new thread whose entry is at the slot that is looked up writes to it.
  lemma NewThreadWrites<K>(ws: map<K, Writer>, own: map<K, seq<Context>>, inserts: seq<seq<nat>>, thread: K,
      ctx: Context, p: seq<nat>, copied: Writer, w: Writer)
    requires Sound(ws, own, inserts) && thread !in ws && Exchanges(p)
    requires Framed(copied) && Consistent(copied) && copied.logged == [] && copied.first == ctx
    requires Wrote(copied, ctx, w)
    ensures Sound(ws[thread := w], own[thread := [ctx]], inserts + [p])
  {
    hide HasLogged, AllExchange, Framed, Deltas, Consistent, Exchanges, Wrote;
    HasLoggedFirst(copied, ctx, w);
    WroteFrames(copied, ctx, w);
    MoreInserts(inserts, p);
    if !AllExchange(inserts) {
      var k :| k in ws && Deltas(ws[k].frames) != |own[k]|;
      assert k in ws[thread := w];
    }
  }

  lemma MoreInserts(inserts: seq<seq<nat>>, p: seq<nat>)
    ensures AllExchange(inserts + [p]) <==> AllExchange(inserts) && Exchanges(p)
  {
    hide Exchanges;
    var more := inserts + [p];
    assert more[|inserts|] == p && forall k :: 0 <= k < |inserts| ==> more[k] == inserts[k];
  }

  /// A new thread that is given the entry of another one writes there, and leaves its
  /// own without a message.
  lemma NewThreadMisses<K>(ws: map<K, Writer>, own: map<K, seq<Context>>, inserts: seq<seq<nat>>, thread: K,
      ctx: Context, p: seq<nat>, fresh': Writer, other: K, copied: Writer, w: Writer)
    requires Sound(ws, own, inserts) && thread !in ws && !Exchanges(p) && other in ws
    requires Framed(fresh') && fresh'.frames == []
    requires Framed(copied) && Wrote(copied, ctx, w)
    ensures Sound(ws[thread := fresh'][other := w], own[thread := [ctx]], inserts + [p])
  {
    hide HasLogged, AllExchange, Framed, Deltas, Consistent, Exchanges, Wrote;
    MoreInserts(inserts, p);
    WroteFrames(copied, ctx, w);
    NoMessage(fresh');
    var ws', own' := ws[thread := fresh'][other := w], own[thread := [ctx]];
    assert thread in ws' && Deltas(ws'[thread].frames) != |own'[thread]|;
  }

  /// A new thread's first message, wherever the map sends it.
  lemma NewThreadLogs<K>(ws: map<K, Writer>, own: map<K, seq<Context>>, inserts: seq<seq<nat>>, thread: K,
      ctx: Context, p: seq<nat>, fresh': Writer, at: K, copied: Writer, w: Writer)
    requires Sound(ws, own, inserts) && thread !in ws && at in ws[thread := fresh']
    requires at == thread <==> Exchanges(p)
    requires Framed(fresh') && fresh'.frames == []
    requires Framed(ws[thread := fresh'][at]) ==> Framed(copied)
    requires at == thread ==> Consistent(copied) && copied.logged == [] && copied.first == ctx
    requires Wrote(copied, ctx, w)
    ensures Sound(ws[thread := fresh'][at := w], own[thread := [ctx]], inserts + [p])
  {
    hide Sound, HasLogged, AllExchange, Framed, Deltas, Consistent, Exchanges, Wrote;
    if at == thread {
      NewThreadWrites(ws, own, inserts, thread, ctx, p, copied, w);
      assert ws[thread := fresh'][at := w] == ws[thread := w];
    } else {
      SoundIsFramed(ws, own, inserts, at);
      NewThreadMisses(ws, own, inserts, thread, ctx, p, fresh', at, copied, w);
    }
  }

  lemma SoundIsFramed<K>(ws: map<K, Writer>, own: map<K, seq<Context>>, inserts: seq<seq<nat>>, key: K)
    requires Sound(ws, own, inserts) && key in ws
    ensures Framed(ws[key]) && ws.Keys == own.Keys
  {
  }

  /// The context comes close enough to the last one of its thread.
  ghost predicate CanFollowLast<K>(own: map<K, seq<Context>>, thread: K, ctx: Context) {
    thread in own && own[thread] != [] && Encodable(own[thread][|own[thread]| - 1], ctx)
  }

  lemma LastLogged<K>(ws: map<K, Writer>, own: map<K, seq<Context>>, inserts: seq<seq<nat>>, thread: K, ctx: Context)
    requires Sound(ws, own, inserts) && thread in ws
    ensures AllExchange(inserts) ==> (CanFollowLast(own, thread, ctx) <==> Encodable(ws[thread].state.last, ctx))
  {
    hide AllExchange, Framed, Deltas, Consistent, Encodable;
  }

  // ----- the table of writers -----

  /// No two threads share a writer.
  ghost predicate DistinctWriters(table: map<nat, ThreadContext>) {
    forall j, k :: j in table && k in table && table[j] == table[k] ==> j == k
  }

  ghost function Views(table: map<nat, ThreadContext>): map<nat, Writer>
    reads table.Values
  {
    map k | k in table :: View(table[k])
  }

  lemma ViewOf(table: map<nat, ThreadContext>, key: nat)
    requires key in table
    ensures Views(table).Keys == table.Keys && Views(table)[key] == View(table[key])
  {
  }

  method WriteEntry(ghost table: map<nat, ThreadContext>, ghost key: nat, writer: ThreadContext, ctx: Context)
    returns (ok: bool)
    requires DistinctWriters(table) && key in table && table[key] == writer
    modifies writer
    ensures ok <==> Encodable(old(writer.last), ctx)
    ensures ok ==> Wrote(old(View(writer)), ctx, View(writer))
    ensures Views(table) == old(Views(table))[key := View(writer)]
  {
    hide Encodable, Deltas, AllFrames, Concat, IsWritten;
    ok := writer.WriteLogMsg(ctx);
  }

  /// Copying the first context of a thread and writing it, whoever the writer is.
  method StartEntry(ghost table: map<nat, ThreadContext>, ghost key: nat, writer: ThreadContext, ctx: Context)
    returns (ghost copied: Writer)
    requires DistinctWriters(table) && key in table && table[key] == writer
    modifies writer
    ensures Framed(old(View(writer))) ==> Framed(copied)
    ensures old(writer.IsFresh()) ==> Consistent(copied) && copied.logged == [] && copied.first == ctx
    ensures Wrote(copied, ctx, View(writer))
    ensures Views(table) == old(Views(table))[key := View(writer)]
  {
    hide Encodable, Deltas, AllFrames, Concat, IsWritten;
    writer.CopyContext(ctx);
    copied := View(writer);
    FirstIsEncodable(ctx);
    var ok := writer.WriteLogMsg(ctx);
  }

  lemma EntryIsInTable(entries: seq<Entry<nat, ThreadContext>>, slot: nat)
    requires Injective(KeysOf(entries)) && slot < |entries|
    ensures entries[slot].key in MapOf(entries) && MapOf(entries)[entries[slot].key] == entries[slot].val
  {
    EntryInMap(entries, slot);
  }

  /// The keys are rearranged like their entries.
  lemma RebuiltKeys(hash: Hasher<nat>, salts: seq<int>, all: seq<Entry<nat, ThreadContext>>,
      now: seq<Entry<nat, ThreadContext>>)
    requires Rebuilt(hash, salts, all, now)
    ensures IsMinimalPerfect(hash, salts, KeysOf(all)) && IsPermutation(PerfectHash.Slots(hash, salts, KeysOf(all)))
    ensures KeysOf(now) == Gather(KeysOf(all), PerfectHash.Slots(hash, salts, KeysOf(all)))
  {
    var p := PerfectHash.Slots(hash, salts, KeysOf(all));
    assert IsPermutation(p);
    hide IsMinimalPerfect, Slot;
    assert now == Gather(all, p);
  }

  lemma KeyAppended(entries: seq<Entry<nat, ThreadContext>>, e: Entry<nat, ThreadContext>)
    ensures KeysOf(entries + [e]) == KeysOf(entries) + [e.key]
  {
  }

  ghost function SlotsWith(hash: Hasher<nat>, salts: seq<int>, keys: seq<nat>, key: nat): seq<nat> {
    if IsMinimalPerfect(hash, salts, keys + [key]) then PerfectHash.Slots(hash, salts, keys + [key]) else []
  }

  /// A successful build for one more key, and the keys after their rearrangement.
  ghost predicate KeyInserted(hash: Hasher<nat>, salts: seq<int>, before: seq<nat>, key: nat, now: seq<nat>) {
    var all, p := before + [key], SlotsWith(hash, salts, before, key);
    && IsMinimalPerfect(hash, salts, all) && Greedy(hash, all, salts)
    && IsPermutation(p) && now == Gather(all, p)
  }

  datatype LogResult = Logged | TooManyRegisters | NotInserted(why: BuildResult)

  class TraceLog {
    const threads: MphMap<nat, ThreadContext>
    var numInst: bv64
    /// The contexts logged by each thread.
    ghost var own: map<nat, seq<Context>>
    /// The slots of all keys after each insertion.
    ghost var inserts: seq<seq<nat>>

    ghost function Table(): map<nat, ThreadContext>
      reads threads
    {
      if Injective(KeysOf(threads.keyVals)) then MapOf(threads.keyVals) else map[]
    }

    ghost predicate Valid()
      reads this, threads, threads.mph, Table().Values
    {
      threads.Valid() && DistinctWriters(Table()) && Sound(Views(Table()), own, inserts)
    }

    constructor (hash: Hasher<nat>)
      ensures fresh(threads) && fresh(threads.mph) && threads.mph.hash == hash && threads.keyVals == []
      ensures Valid() && own == map[] && inserts == [] && Table() == map[] && numInst == 0
    {
      threads := new MphMap(hash);
      numInst, own, inserts := 0, map[], [];
      new;
      NothingLogged<nat>();
      assert Views(Table()) == map[];
    }

    lemma ValidParts()
      requires Valid()
      ensures threads.Valid() && DistinctWriters(Table()) && Sound(Views(Table()), own, inserts)
      ensures Table() == MapOf(threads.keyVals) && Views(Table()).Keys == Table().Keys == own.Keys
    {
    }

    lemma ValidFrom(table: map<nat, ThreadContext>, ws: map<nat, Writer>)
      requires threads.Valid() && Table() == table && DistinctWriters(table)
      requires Views(table) == ws && Sound(ws, own, inserts)
      ensures Valid()
    {
    }

    lemma InsertFacts(was: seq<Entry<nat, ThreadContext>>, e: Entry<nat, ThreadContext>, slot: nat)
      requires threads.AfterInsert(was, e, slot) && Injective(KeysOf(was))
      ensures slot < |threads.keyVals| && Injective(KeysOf(threads.keyVals)) && threads.Valid()
      ensures e.key !in MapOf(was) && Table() == MapOf(threads.keyVals) == MapOf(was)[e.key := e.val]
      ensures KeyInserted(threads.mph.hash, threads.mph.salts, KeysOf(was), e.key, KeysOf(threads.keyVals))
      ensures threads.keyVals[slot].key == e.key
              <==> Exchanges(SlotsWith(threads.mph.hash, threads.mph.salts, KeysOf(was), e.key))
    {
      KeyAppended(was, e);
      RebuiltKeys(threads.mph.hash, threads.mph.salts, was + [e], threads.keyVals);
      hide MapOf, Greedy, IsMinimalPerfect, Slot;
    }

    /// The writer of a thread whose entry is reached.
    method FindWriter(thread: nat, attempts: nat) returns (writer: ThreadContext)
      requires Valid() && |threads.keyVals| <= INT32_MAX && attempts < INT32_MAX
      requires Reaches(threads.mph.hash, threads.mph.salts, threads.keyVals, thread)
      modifies threads, threads.mph
      ensures threads.keyVals == old(threads.keyVals) && unchanged(threads.mph) && threads.Valid()
      ensures Table() == old(Table()) && thread in Table() && Table()[thread] == writer
    {
      hide *;
      ValidParts();
      var unused := new ThreadContext();
      var r := threads.Index(thread, unused, attempts);
      EntryIsInTable(threads.keyVals, r.slot);
      writer := threads.keyVals[r.slot].val;
    }

    /// A thread whose entry is reached writes to it.
    method LogKnown(thread: nat, ctx: Context, attempts: nat) returns (res: LogResult)
      requires Valid() && |threads.keyVals| <= INT32_MAX && attempts < INT32_MAX
      requires Reaches(threads.mph.hash, threads.mph.salts, threads.keyVals, thread)
      modifies this, threads, threads.mph, Table().Values
      ensures threads.keyVals == old(threads.keyVals) && unchanged(threads.mph) && thread in old(own)
      ensures Table() == old(Table()) && (res == Logged || res == TooManyRegisters)
      ensures res == Logged ==> Valid() && inserts == old(inserts) && numInst == Incremented(old(numInst))
      ensures res == Logged ==> own == old(own)[thread := old(own)[thread] + [ctx]]
      ensures AllExchange(old(inserts)) ==> (res == Logged <==> CanFollowLast(old(own), thread, ctx))
    {
      hide *;
      ValidParts();
      ghost var table, ws := Table(), Views(Table());
      var writer := FindWriter(thread, attempts);
      assert Views(table) == ws;
      var ok := WriteMore(thread, writer, ctx);
      res := if ok then Logged else TooManyRegisters;
    }

    /// The next message of a thread goes to its own writer.
    method WriteMore(ghost thread: nat, writer: ThreadContext, ctx: Context) returns (ok: bool)
      requires threads.Valid() && thread in Table() && Table()[thread] == writer
      requires DistinctWriters(Table()) && Sound(Views(Table()), own, inserts)
      modifies this, writer
      ensures thread in old(own)
      ensures AllExchange(old(inserts)) ==> (ok <==> CanFollowLast(old(own), thread, ctx))
      ensures ok ==> Valid() && inserts == old(inserts) && own == old(own)[thread := old(own)[thread] + [ctx]]
      ensures ok ==> numInst == Incremented(old(numInst))
    {
      hide *;
      ghost var table, ws := Table(), Views(Table());
      ViewOf(table, thread);
      SoundIsFramed(ws, own, inserts, thread);
      LastLogged(ws, own, inserts, thread, ctx);
      ViewLast(writer);
      ok := WriteEntry(table, thread, writer, ctx);
      if ok {
        KnownThreadWrites(ws, own, inserts, thread, ctx, View(writer));
        numInst := Incremented(numInst);
        own := own[thread := own[thread] + [ctx]];
        ValidFrom(table, ws[thread := View(writer)]);
      }
    }

    /// Adds a writer for a thread that is not reached and looks it up again: the map
    /// returns the writer of thread `at`, which is the new one exactly when its slot
    /// and position are exchanged.
    method InsertWriter(thread: nat, attempts: nat)
      returns (res: MapResult, writer: ThreadContext, ghost at: nat, ghost added: ThreadContext)
      requires Valid() && |threads.keyVals| <= INT32_MAX && attempts < INT32_MAX
      requires !Reaches(threads.mph.hash, threads.mph.salts, threads.keyVals, thread)
      modifies threads, threads.mph
      ensures !res.Found? && res != Aborted(Built)
      ensures res == Aborted(DuplicateKeys) <==> thread in old(Table())
      ensures res == Aborted(TimedOut) ==> Stuck(threads.mph.hash, KeysOf(old(threads.keyVals)) + [thread], attempts)
      ensures fresh(added) && added.IsFresh() && added.Framed()
      ensures res.Inserted? ==> threads.Valid() && thread !in old(Table()) && Table() == old(Table())[thread := added]
      ensures res.Inserted? ==> at in Table() && Table()[at] == writer
      ensures res.Inserted? ==>
        var before := KeysOf(old(threads.keyVals));
        && KeyInserted(threads.mph.hash, threads.mph.salts, before, thread, KeysOf(threads.keyVals))
        && (at == thread <==> Exchanges(SlotsWith(threads.mph.hash, threads.mph.salts, before, thread)))
    {
      hide *;
      ValidParts();
      var t := new ThreadContext();
      res := threads.TryEmplace(thread, t, attempts);
      KeyAppended(old(threads.keyVals), Entry(thread, t));
      writer, added, at := t, t, thread;
      if res.Inserted? {
        InsertFacts(old(threads.keyVals), Entry(thread, t), res.slot);
        EntryIsInTable(threads.keyVals, res.slot);
        writer, at := threads.keyVals[res.slot].val, threads.keyVals[res.slot].key;
      }
    }

    /// A thread that is not reached gets an entry, and the first context is written to
    /// the entry that the map returns.
    method LogNew(thread: nat, ctx: Context, attempts: nat) returns (res: LogResult)
      requires Valid() && |threads.keyVals| <= INT32_MAX && attempts < INT32_MAX
      requires !Reaches(threads.mph.hash, threads.mph.salts, threads.keyVals, thread)
      modifies this, threads, threads.mph, Table().Values
      ensures res != TooManyRegisters && res != NotInserted(Built)
      ensures res == NotInserted(DuplicateKeys) <==> thread in old(Table())
      ensures res == NotInserted(TimedOut) ==>
        Stuck(threads.mph.hash, KeysOf(old(threads.keyVals)) + [thread], attempts)
      ensures res == Logged ==> Valid() && thread !in old(own) && own == old(own)[thread := [ctx]]
      ensures res == Logged ==> numInst == Incremented(old(numInst))
      ensures res == Logged ==>
        var before := KeysOf(old(threads.keyVals));
        var p := SlotsWith(threads.mph.hash, threads.mph.salts, before, thread);
        && KeyInserted(threads.mph.hash, threads.mph.salts, before, thread, KeysOf(threads.keyVals))
        && inserts == old(inserts) + [p] && thread in Table()
        && (!Exchanges(p) ==> Table()[thread].logBuf == [])
      ensures res == Logged ==> thread in Table() && fresh(Table()[thread])
      ensures res == Logged ==> Table() == old(Table())[thread := Table()[thread]]
    {
      hide *;
      ValidParts();
      ghost var was, ws, before := Table(), Views(Table()), KeysOf(threads.keyVals);
      var r, writer; ghost var at, added;
      r, writer, at, added := InsertWriter(thread, attempts);
      if r.Aborted? {
        return NotInserted(r.why);
      }
      assert Views(was) == ws;
      WriteFirst(was, thread, added, at, writer, ctx, SlotsWith(threads.mph.hash, threads.mph.salts, before, thread));
      res := Logged;
    }

    /// The first message of a new thread goes to the writer that the map returned.
    method WriteFirst(ghost was: map<nat, ThreadContext>, ghost thread: nat, ghost added: ThreadContext, ghost at: nat,
        writer: ThreadContext, ctx: Context, ghost p: seq<nat>)
      requires threads.Valid() && Table() == was[thread := added] && thread !in was && added !in was.Values
      requires DistinctWriters(was) && Sound(Views(was), own, inserts)
      requires added.IsFresh() && added.Framed() && at in Table() && Table()[at] == writer
      requires at == thread <==> Exchanges(p)
      modifies this, writer
      ensures Valid() && own == old(own)[thread := [ctx]] && inserts == old(inserts) + [p]
      ensures numInst == Incremented(old(numInst))
      ensures !Exchanges(p) ==> added.logBuf == []
    {
      hide *;
      ghost var table, ws, new', views := Table(), Views(was), View(added), Views(Table());
      FreshView(added);
      AddedView(was, thread, added);
      AddedIsDistinct(was, thread, added);
      ViewOf(table, at);
      ViewOf(table, thread);
      OtherWriter(table, thread, at);
      ghost var copied := StartEntry(table, at, writer, ctx);
      NewThreadLogs(ws, own, inserts, thread, ctx, p, new', at, copied, View(writer));
      numInst := Incremented(numInst);
      own, inserts := own[thread := [ctx]], inserts + [p];
      ValidFrom(table, views[at := View(writer)]);
    }

    /// Logs one context of a thread.
    method Log(thread: nat, ctx: Context, attempts: nat) returns (res: LogResult)
      requires Valid() && |threads.keyVals| <= INT32_MAX && attempts < INT32_MAX
      modifies this, threads, threads.mph, Table().Values
      ensures res == Logged ==> Valid() && own == WithContext(old(own), thread, ctx)
      ensures res == Logged ==> numInst == Incremented(old(numInst))
      ensures res == Logged && thread in old(own) ==>
        threads.keyVals == old(threads.keyVals) && unchanged(threads.mph) && inserts == old(inserts)
      ensures res == Logged && thread !in old(own) ==>
        var before := KeysOf(old(threads.keyVals));
        var p := SlotsWith(threads.mph.hash, threads.mph.salts, before, thread);
        && KeyInserted(threads.mph.hash, threads.mph.salts, before, thread, KeysOf(threads.keyVals))
        && inserts == old(inserts) + [p] && thread in Table()
        && (!Exchanges(p) ==> Table()[thread].logBuf == [])
      ensures res == Logged ==> fresh(Table().Values - old(Table().Values))
      ensures res == NotInserted(DuplicateKeys) <==>
        old(thread in own && !Reaches(threads.mph.hash, threads.mph.salts, threads.keyVals, thread))
      ensures res == NotInserted(TimedOut) ==>
        thread !in old(own) && Stuck(threads.mph.hash, KeysOf(old(threads.keyVals)) + [thread], attempts)
      ensures res == TooManyRegisters ==> thread in old(own)
      ensures res == TooManyRegisters && AllExchange(old(inserts)) ==> !CanFollowLast(old(own), thread, ctx)
      ensures res != NotInserted(Built)
    {
      hide *;
      ValidParts();
      ghost var table, ws := Table(), Views(Table());
      var present := threads.Contains(thread);
      assert Views(table) == ws;
      ValidFrom(table, ws);
      if !present {
        res := LogNew(thread, ctx, attempts);
        if res == Logged {
          AddedValue(table, thread, Table()[thread]);
        }
        AddedContext(old(own), thread, ctx);
      } else {
        res := LogKnown(thread, ctx, attempts);
        AddedContext(old(own), thread, ctx);
      }
    }
  }

  ghost function WithContext(own: map<nat, seq<Context>>, thread: nat, ctx: Context): map<nat, seq<Context>> {
    own[thread := (if thread in own then own[thread] else []) + [ctx]]
  }

  lemma AddedContext(own: map<nat, seq<Context>>, thread: nat, ctx: Context)
    ensures thread !in own ==> WithContext(own, thread, ctx) == own[thread := [ctx]]
    ensures thread in own ==> WithContext(own, thread, ctx) == own[thread := own[thread] + [ctx]]
  {
    assert [] + [ctx] == [ctx];
  }

  lemma AddedValue(table: map<nat, ThreadContext>, key: nat, t: ThreadContext)
    ensures table[key := t].Values <= table.Values + {t}
  {
  }

  lemma OtherWriter(table: map<nat, ThreadContext>, j: nat, k: nat)
    requires DistinctWriters(table) && j in table && k in table
    ensures table[j] == table[k] ==> j == k
  {
  }

  lemma ViewLast(t: ThreadContext)
    ensures View(t).state.last == t.last && View(t).buf == t.logBuf
  {
  }

  lemma FreshView(t: ThreadContext)
    requires t.IsFresh() && t.Framed()
    ensures Framed(View(t)) && View(t).frames == [] && t.logBuf == []
  {
  }

  lemma AddedView(was: map<nat, ThreadContext>, key: nat, t: ThreadContext)
    requires key !in was
    ensures Views(was[key := t]) == Views(was)[key := View(t)] && key !in Views(was)
  {
    hide View;
  }

  lemma AddedIsDistinct(was: map<nat, ThreadContext>, key: nat, t: ThreadContext)
    requires DistinctWriters(was) && t !in was.Values
    ensures DistinctWriters(was[key := t])
  {
  }

  // ----- whole runs -----

  /// The contexts that one thread logs in a run.
  ghost function ContextsOf(run: seq<(nat, Context)>, thread: nat): seq<Context> {
    if run == [] then [] else
      var last := run[|run| - 1];
      ContextsOf(run[..|run| - 1], thread) + if last.0 == thread then [last.1] else []
  }

  /// `own` has the contexts of every thread of the run.
  ghost predicate OwnOf(own: map<nat, seq<Context>>, run: seq<(nat, Context)>) {
    && (forall k: nat :: k in own <==> ContextsOf(run, k) != [])
    && (forall k :: k in own ==> own[k] == ContextsOf(run, k))
  }

  lemma OwnGrows(own: map<nat, seq<Context>>, run: seq<(nat, Context)>, thread: nat, ctx: Context)
    requires OwnOf(own, run)
    ensures OwnOf(WithContext(own, thread, ctx), run + [(thread, ctx)])
  {
    var more := run + [(thread, ctx)];
    assert more[..|run|] == run && more[|run|] == (thread, ctx);
    forall k: nat
      ensures ContextsOf(more, k) == ContextsOf(run, k) + if k == thread then [ctx] else []
    {
    }
    hide ContextsOf;
  }

  /// Insertion number `k` has the slots of `k + 1` keys.
  ghost predicate InsertsGrow(inserts: seq<seq<nat>>) {
    forall k :: 0 <= k < |inserts| ==> |inserts[k]| == k + 1 && IsPermutation(inserts[k])
  }

  lemma KeysGrow(hash: Hasher<nat>, salts: seq<int>, before: seq<nat>, key: nat, now: seq<nat>, inserts: seq<seq<nat>>)
    requires KeyInserted(hash, salts, before, key, now) && InsertsGrow(inserts) && |inserts| == |before|
    ensures InsertsGrow(inserts + [SlotsWith(hash, salts, before, key)]) && |now| == |before| + 1
  {
    hide IsMinimalPerfect, Greedy, IsPermutation;
  }

  lemma TwoInsertsExchange(inserts: seq<seq<nat>>)
    requires InsertsGrow(inserts) && |inserts| <= 2
    ensures AllExchange(inserts)
  {
  }

  /// The log after a run.
  ghost predicate Follows(log: TraceLog, run: seq<(nat, Context)>)
    reads log, log.threads, log.threads.mph, log.Table().Values
  {
    && log.Valid() && OwnOf(log.own, run) && InsertsGrow(log.inserts)
    && |log.own| == |log.inserts| == |log.threads.keyVals| <= |run|
  }

  method LogNext(log: TraceLog, ghost run: seq<(nat, Context)>, thread: nat, ctx: Context, attempts: nat)
    returns (res: LogResult)
    requires Follows(log, run) && |run| < INT32_MAX && attempts < INT32_MAX
    modifies log, log.threads, log.threads.mph, log.Table().Values
    ensures res == Logged ==> Follows(log, run + [(thread, ctx)])
    ensures res == Logged ==> fresh(log.Table().Values - old(log.Table().Values))
  {
    hide OwnOf, InsertsGrow, TraceLog.Valid, TraceLog.Table, WithContext, KeyInserted, SlotsWith, KeysOf, Reaches,
      Stuck, AllExchange, Exchanges, CanFollowLast;
    ghost var own, keys, inserts := log.own, KeysOf(log.threads.keyVals), log.inserts;
    res := log.Log(thread, ctx, attempts);
    if res == Logged {
      OwnGrows(own, run, thread, ctx);
      OwnSize(own, thread, ctx);
      if thread !in own {
        KeysGrow(log.threads.mph.hash, log.threads.mph.salts, keys, thread, KeysOf(log.threads.keyVals), inserts);
      }
    }
  }

  /// `TraceLog::log` for the contexts of several threads, in the order of the run.
  /// Every thread ends with the log of its own contexts exactly when all insertions
  /// exchanged slot and position, as they do for up to two threads.
  method LogRun(run: seq<(nat, Context)>, hash: Hasher<nat>, attempts: nat) returns (res: LogResult, log: TraceLog)
    requires |run| <= INT32_MAX && attempts < INT32_MAX
    ensures res == Logged ==> log.Valid() && OwnOf(log.own, run) && log.Table().Keys == log.own.Keys
    ensures res == Logged ==>
      ((forall k :: k in log.Table() ==> IsLogBuffer(log.Table()[k].logBuf, ContextsOf(run, k)))
       <==> AllExchange(log.inserts))
    ensures res == Logged && |log.own| <= 2 ==> AllExchange(log.inserts)
  {
    hide *;
    log := new TraceLog(hash);
    res := Logged;
    NothingFollows(log);
    ghost var mine: set<ThreadContext> := {};
    for i := 0 to |run|
      invariant Follows(log, run[..i]) && res == Logged
      invariant fresh(log) && fresh(log.threads) && fresh(log.threads.mph)
      invariant fresh(mine) && log.Table().Values <= mine
    {
      ghost var was := log.Table().Values;
      label before:
      res := LogNext(log, run[..i], run[i].0, run[i].1, attempts);
      if res != Logged {
        return;
      }
      ghost var added := log.Table().Values - was;
      assert fresh@before(added);
      mine := mine + added;
      assert run[..i + 1] == run[..i] + [(run[i].0, run[i].1)];
    }
    assert run[..|run|] == run;
    EndOfRun(log, run);
  }

  lemma OwnSize(own: map<nat, seq<Context>>, thread: nat, ctx: Context)
    ensures |WithContext(own, thread, ctx)| == |own| + if thread in own then 0 else 1
  {
    var now := WithContext(own, thread, ctx);
    assert now.Keys == own.Keys + {thread};
    assert |now| == |now.Keys| && |own| == |own.Keys|;
  }

  lemma EndOfRun(log: TraceLog, run: seq<(nat, Context)>)
    requires Follows(log, run)
    ensures log.Valid() && OwnOf(log.own, run) && log.Table().Keys == log.own.Keys
    ensures (forall k :: k in log.Table() ==> IsLogBuffer(log.Table()[k].logBuf, ContextsOf(run, k)))
            <==> AllExchange(log.inserts)
    ensures |log.own| <= 2 ==> AllExchange(log.inserts)
  {
    hide *;
    FollowsParts(log, run);
    log.ValidParts();
    var table, ws := log.Table(), Views(log.Table());
    OwnLogsIffExchanged(ws, log.own, log.inserts);
    forall k | k in table
      ensures k in ws && ws[k].buf == table[k].logBuf && log.own[k] == ContextsOf(run, k)
    {
      ViewOf(table, k);
      ViewLast(table[k]);
      OwnedBy(log.own, run, k);
    }
    if |log.inserts| <= 2 {
      TwoInsertsExchange(log.inserts);
    }
  }

  lemma FollowsParts(log: TraceLog, run: seq<(nat, Context)>)
    requires Follows(log, run)
    ensures log.Valid() && OwnOf(log.own, run) && InsertsGrow(log.inserts) && |log.own| == |log.inserts|
  {
  }

  lemma OwnedBy(own: map<nat, seq<Context>>, run: seq<(nat, Context)>, thread: nat)
    requires OwnOf(own, run) && thread in own
    ensures own[thread] == ContextsOf(run, thread)
  {
  }

  lemma NothingFollows(log: TraceLog)
    requires log.Valid() && log.own == map[] && log.inserts == [] && log.threads.keyVals == []
    ensures Follows(log, [])
  {
  }

  // ----- three threads -----

  lemma FirstThread(hash: Hasher<nat>, salts: seq<int>, before: seq<nat>, now: seq<nat>)
    requires KeyInserted(hash, salts, before, 0, now) && before == []
    ensures SlotsWith(hash, salts, before, 0) == [0] && now == [0]
  {
    hide Greedy, Slot;
    assert before + [0] == [0];
  }

  lemma SecondThread(hash: Hasher<nat>, salts: seq<int>, before: seq<nat>, now: seq<nat>)
    requires Pairs(hash, 4) && KeyInserted(hash, salts, before, 1, now) && before == [0]
    ensures SlotsWith(hash, salts, before, 1) == [0, 1] && now == [0, 1]
  {
    SlotsAreShifted(hash, 4, before + [1], salts);
    hide Greedy, Slot, Pairs;
  }

  lemma ThirdThread(hash: Hasher<nat>, salts: seq<int>, before: seq<nat>, now: seq<nat>)
    requires Pairs(hash, 4) && KeyInserted(hash, salts, before, 2, now) && before == [0, 1]
    ensures SlotsWith(hash, salts, before, 2) == [1, 2, 0] && now == [1, 2, 0]
    ensures !Exchanges(SlotsWith(hash, salts, before, 2))
  {
    hide Greedy, Slot, Pairs, IsPermutation;
    SlotsAreShifted(hash, 4, before + [2], salts);
    RotatedSlots(SlotsWith(hash, salts, before, 2), before + [2], now);
  }

  lemma RotatedSlots(p: seq<nat>, keys: seq<nat>, now: seq<nat>)
    requires IsPermutation(p) && |p| == 3 && p[0] == 1 && p[1] == 2 && p[2] == 0
    requires keys == [0, 1, 2] && now == Gather(keys, p)
    ensures p == now == [1, 2, 0] && !Exchanges(p)
  {
  }

  lemma NoneReached(hash: Hasher<nat>, salts: seq<int>, before: seq<nat>, entries: seq<Entry<nat, ThreadContext>>)
    requires Pairs(hash, 4) && before == [0, 1] && |salts| == |entries| && AllSlotsInRange(salts)
    requires KeyInserted(hash, salts, before, 2, KeysOf(entries))
    ensures forall k: nat :: k < 3 ==> !Reaches(hash, salts, entries, k)
  {
    ThirdThread(hash, salts, before, KeysOf(entries));
    SlotsAreShifted(hash, 4, before + [2], salts);
    hide Greedy, Slot, Pairs;
    assert KeysOf(entries)[0] == entries[0].key && KeysOf(entries)[1] == entries[1].key;
    assert KeysOf(entries)[2] == entries[2].key;
  }

  /// A new thread logs its first message where the search for salts cannot get stuck.
  method LogUnstuck(log: TraceLog, thread: nat, ctx: Context, attempts: nat, ghost keys: seq<nat>)
    requires log.Valid() && KeysOf(log.threads.keyVals) == keys && |keys| <= INT32_MAX && attempts < INT32_MAX
    requires thread !in log.own && !Stuck(log.threads.mph.hash, keys + [thread], attempts)
    modifies log, log.threads, log.threads.mph, log.Table().Values
    ensures log.Valid() && log.own == old(log.own)[thread := [ctx]]
    ensures fresh(log.Table().Values - old(log.Table().Values))
    ensures KeyInserted(log.threads.mph.hash, log.threads.mph.salts, keys, thread, KeysOf(log.threads.keyVals))
    ensures var p := SlotsWith(log.threads.mph.hash, log.threads.mph.salts, keys, thread);
            && log.inserts == old(log.inserts) + [p] && thread in log.Table()
            && (!Exchanges(p) ==> log.Table()[thread].logBuf == [])
  {
    hide *;
    AddedContext(log.own, thread, ctx);
    var res := log.Log(thread, ctx, attempts);
    ResultCases(res);
  }

  lemma ResultCases(res: LogResult)
    ensures res == Logged || res == TooManyRegisters || res == NotInserted(Built) || res == NotInserted(DuplicateKeys)
            || res == NotInserted(TimedOut)
  {
    assert res.NotInserted? ==> res.why.Built? || res.why.DuplicateKeys? || res.why.TimedOut?;
  }

  lemma KeysLength(entries: seq<Entry<nat, ThreadContext>>)
    ensures |KeysOf(entries)| == |entries|
    ensures entries == [] ==> KeysOf(entries) == []
  {
  }

  lemma ThreeUnstuck(hash: Hasher<nat>, none: seq<nat>, one: seq<nat>, two: seq<nat>, attempts: nat)
    requires Pairs(hash, 4) && attempts > 0 && none == [] && one == [0] && two == [0, 1]
    ensures !Stuck(hash, none + [0], attempts) && !Stuck(hash, one + [1], attempts) && !Stuck(hash, two + [2], attempts)
  {
    assert none + [0] == [0];
    OneKeyNeverStuck(hash, 0, attempts);
    NeverStuck(hash, 4, one + [1], attempts);
    NeverStuck(hash, 4, two + [2], attempts);
    hide Stuck, Pairs;
  }

  /// One message each by three threads, with slots that rotate on the third insertion:
  /// the third thread's message goes to another buffer and its own stays empty. None of
  /// the three is reached any more, so the next message of any of them aborts.
  method ThreeThreads(hash: Hasher<nat>, c0: Context, c1: Context, c2: Context, attempts: nat) returns (log: TraceLog)
    requires Pairs(hash, 4) && 0 < attempts < INT32_MAX
    ensures log.Valid() && log.own == map[0 := [c0], 1 := [c1], 2 := [c2]]
    ensures log.inserts == [[0], [0, 1], [1, 2, 0]] && !AllExchange(log.inserts)
    ensures 2 in log.Table() && log.Table()[2].logBuf == []
    ensures |log.threads.mph.salts| == |log.threads.keyVals| && AllSlotsInRange(log.threads.mph.salts)
    ensures forall k: nat :: k < 3 ==> !Reaches(log.threads.mph.hash, log.threads.mph.salts, log.threads.keyVals, k)
  {
    hide *;
    log := new TraceLog(hash);
    ghost var none, one, two: seq<nat> := [], [0], [0, 1];
    ThreeUnstuck(hash, none, one, two, attempts);
    KeysLength(log.threads.keyVals);
    LogUnstuck(log, 0, c0, attempts, none);
    FirstThread(hash, log.threads.mph.salts, none, KeysOf(log.threads.keyVals));
    LogUnstuck(log, 1, c1, attempts, one);
    SecondThread(hash, log.threads.mph.salts, one, KeysOf(log.threads.keyVals));
    LogUnstuck(log, 2, c2, attempts, two);
    ThirdThread(hash, log.threads.mph.salts, two, KeysOf(log.threads.keyVals));
    log.ValidParts();
    ValidSalts(log.threads);
    NoneReached(hash, log.threads.mph.salts, two, log.threads.keyVals);
    RotationIsSpoiled(log.inserts);
  }

  lemma RotationIsSpoiled(inserts: seq<seq<nat>>)
    requires |inserts| == 3 && !Exchanges(inserts[2])
    ensures !AllExchange(inserts)
  {
  }

  lemma ValidSalts(m: MphMap<nat, ThreadContext>)
    requires m.Valid()
    ensures |m.mph.salts| == |m.keyVals| && AllSlotsInRange(m.mph.salts)
  {
  }
}

/// Waiting for `n` pool tasks with an atomic counter: every interleaving of the
/// workers, which decrement and then notify, and the one thread that waits.
module TaskWait {

  /// A task is queued, has run its block, has decremented, has notified.
  datatype Worker = Queued | BlockDone | Released | Notified

  /// The waiting thread: pushing tasks, about to load the counter, testing the
  /// loaded value, calling the atomic wait with it, asleep in it, or returned.
  datatype Waiter = Pushing | Loading | Testing(cur: nat) | Checking(cur: nat) | Asleep(cur: nat) | Returned

  datatype State = State(count: int, pushed: nat, workers: seq<Worker>, waiter: Waiter)

  datatype Action = Push | RunBlock(i: nat) | Decrement(i: nat) | Notify(i: nat) | Advance | SpuriousWake

  function Init(n: nat): State {
    State(n, 0, seq(n, _ => Queued), if n == 0 then Loading else Pushing)
  }

  predicate Enabled(s: State, a: Action) {
    match a
    case Push => s.waiter.Pushing? && s.pushed < |s.workers|
    case RunBlock(i) => i < |s.workers| && i < s.pushed && s.workers[i].Queued?
    case Decrement(i) => i < |s.workers| && s.workers[i].BlockDone?
    case Notify(i) => i < |s.workers| && s.workers[i].Released?
    case Advance => !s.waiter.Pushing? && !s.waiter.Asleep? && !s.waiter.Returned? && s.count >= 0
    case SpuriousWake => s.waiter.Asleep?
  }

  /// `release` is two steps: the atomic subtraction and the notification. An
  /// atomic wait goes to sleep only if the counter still has the loaded value, and
  /// checks again whenever it is woken.
  function Step(s: State, a: Action): State
    requires Enabled(s, a)
  {
    match a
    case Push =>
      s.(pushed := s.pushed + 1, waiter := if s.pushed + 1 == |s.workers| then Loading else Pushing)
    case RunBlock(i) => s.(workers := s.workers[i := BlockDone])
    case Decrement(i) => s.(workers := s.workers[i := Released], count := s.count - 1)
    case Notify(i) => s.(workers := s.workers[i := Notified], waiter := Woken(s.waiter))
    case Advance => s.(waiter := Moved(s.waiter, s.count))
    case SpuriousWake => s.(waiter := Woken(s.waiter))
  }

  function Woken(w: Waiter): Waiter {
    if w.Asleep? then Checking(w.cur) else w
  }

  function Moved(w: Waiter, count: nat): Waiter
    requires !w.Pushing? && !w.Asleep? && !w.Returned?
  {
    match w
    case Loading => Testing(count)
    case Testing(cur) => if cur != 0 then Checking(cur) else Returned
    case Checking(cur) => if count == cur then Asleep(cur) else Loading
  }

  // ----- the invariant -----

  function HasReleased(w: Worker): bool {
    w.Released? || w.Notified?
  }

  function CountReleased(ws: seq<Worker>): (r: nat)
    ensures r <= |ws|
  {
    if ws == [] then 0 else CountReleased(ws[1..]) + if HasReleased(ws[0]) then 1 else 0
  }

  lemma {:induction false} CountAfterUpdate(ws: seq<Worker>, i: nat, w: Worker)
    requires i < |ws|
    ensures CountReleased(ws[i := w])
            == CountReleased(ws) - (if HasReleased(ws[i]) then 1 else 0) + (if HasReleased(w) then 1 else 0)
  {
    if i > 0 {
      assert ws[i := w][1..] == ws[1..][i - 1 := w];
      CountAfterUpdate(ws[1..], i - 1, w);
    } else {
      assert ws[i := w][1..] == ws[1..];
    }
  }

  lemma {:induction false} FullCountMeansAll(ws: seq<Worker>, i: nat)
    requires CountReleased(ws) == |ws| && i < |ws|
    ensures HasReleased(ws[i])
  {
    if i > 0 {
      FullCountMeansAll(ws[1..], i - 1);
    }
  }

  lemma {:induction false} AllMeansFullCount(ws: seq<Worker>)
    requires forall i :: 0 <= i < |ws| ==> HasReleased(ws[i])
    ensures CountReleased(ws) == |ws|
  {
    if ws != [] {
      AllMeansFullCount(ws[1..]);
    }
  }

  /// A notification is still to come.
  ghost predicate NotifyPending(s: State) {
    exists i :: 0 <= i < |s.workers| && s.workers[i].Released?
  }

  /// The counter is the number of tasks minus the decrements done; a loaded value
  /// is never below it; and a sleeper whose value is out of date will be notified.
  ghost predicate Inv(s: State) {
    && s.count == |s.workers| - CountReleased(s.workers)
    && s.pushed <= |s.workers|
    && (s.waiter.Pushing? <==> s.pushed < |s.workers|)
    && (forall i :: 0 <= i < |s.workers| && !s.workers[i].Queued? ==> i < s.pushed)
    && (s.waiter.Testing? || s.waiter.Checking? || s.waiter.Asleep? ==> s.waiter.cur >= s.count)
    && (s.waiter.Checking? || s.waiter.Asleep? ==> s.waiter.cur != 0)
    && (s.waiter.Asleep? ==> s.count == s.waiter.cur || NotifyPending(s))
    && (s.waiter.Returned? ==> s.count == 0)
  }

  lemma {:induction false} NoneReleased(n: nat)
    ensures CountReleased(seq(n, _ => Queued)) == 0
  {
    if n > 0 {
      assert seq<Worker>(n, _ => Queued)[1..] == seq(n - 1, _ => Queued);
      NoneReleased(n - 1);
    }
  }

  lemma InvInit(n: nat)
    ensures Inv(Init(n))
  {
    NoneReleased(n);
  }

  lemma InvStep(s: State, a: Action)
    requires Inv(s) && Enabled(s, a)
    ensures Inv(Step(s, a))
  {
    var s' := Step(s, a);
    match a
    case RunBlock(i) =>
      CountAfterUpdate(s.workers, i, BlockDone);
      StillPending(s, s', i);
    case Decrement(i) =>
      CountAfterUpdate(s.workers, i, Released);
      assert s'.workers[i].Released?;
    case Notify(i) =>
      CountAfterUpdate(s.workers, i, Notified);
    case _ =>
      assert s'.workers == s.workers;
  }

  lemma StillPending(s: State, s': State, i: nat)
    requires i < |s.workers| && s.workers[i].Queued? && s'.workers == s.workers[i := BlockDone]
    ensures NotifyPending(s) ==> NotifyPending(s')
  {
    if NotifyPending(s) {
      var k :| 0 <= k < |s.workers| && s.workers[k].Released?;
      assert s'.workers[k].Released?;
    }
  }

  // ----- runs -----

  ghost predicate IsRun(n: nat, run: seq<State>, actions: seq<Action>) {
    && |run| == |actions| + 1 && run[0] == Init(n)
    && forall k :: 0 <= k < |actions| ==> Enabled(run[k], actions[k]) && run[k + 1] == Step(run[k], actions[k])
  }

  lemma {:induction false} InvAlways(n: nat, run: seq<State>, actions: seq<Action>, k: nat)
    requires IsRun(n, run, actions) && k < |run|
    ensures Inv(run[k]) && |run[k].workers| == n
  {
    if k == 0 {
      InvInit(n);
    } else {
      InvAlways(n, run, actions, k - 1);
      InvStep(run[k - 1], actions[k - 1]);
    }
  }

  /// Safety: in every run, the wait returns only when every block has run and
  /// every decrement is done.
  lemma ReturnsOnlyWhenDone(n: nat, run: seq<State>, actions: seq<Action>, k: nat)
    requires IsRun(n, run, actions) && k < |run| && run[k].waiter.Returned?
    ensures run[k].count == 0
    ensures |run[k].workers| == n && forall i :: 0 <= i < n ==> HasReleased(run[k].workers[i])
  {
    InvAlways(n, run, actions, k);
    forall i | 0 <= i < n
      ensures HasReleased(run[k].workers[i])
    {
      FullCountMeansAll(run[k].workers, i);
    }
  }

  /// No lost wake-up: once every worker has notified, the waiter is not asleep.
  lemma NeverLeftAsleep(n: nat, run: seq<State>, actions: seq<Action>, k: nat)
    requires IsRun(n, run, actions) && k < |run|
    requires forall i :: 0 <= i < |run[k].workers| ==> run[k].workers[i].Notified?
    ensures !run[k].waiter.Asleep?
  {
    InvAlways(n, run, actions, k);
    AllMeansFullCount(run[k].workers);
  }

  /// No deadlock: until the wait has returned, some thread can take a step of its
  /// own, without a spurious wake-up.
  lemma SomeStepEnabled(s: State) returns (a: Action)
    requires Inv(s) && !s.waiter.Returned?
    ensures Enabled(s, a) && !a.SpuriousWake?
  {
    if s.waiter.Pushing? {
      return Push;
    }
    if !s.waiter.Asleep? {
      return Advance;
    }
    if i :| 0 <= i < |s.workers| && !s.workers[i].Notified? {
      return if s.workers[i].Queued? then RunBlock(i) else if s.workers[i].BlockDone? then Decrement(i) else Notify(i);
    }
    AllMeansFullCount(s.workers);
    assert false;
  }

  // ----- termination -----

  function WorkLeft(w: Worker): nat {
    match w case Queued => 3 case BlockDone => 2 case Released => 1 case Notified => 0
  }

  function TotalWork(ws: seq<Worker>): nat {
    if ws == [] then 0 else TotalWork(ws[1..]) + WorkLeft(ws[0])
  }

  lemma {:induction false} WorkAfterUpdate(ws: seq<Worker>, i: nat, w: Worker)
    requires i < |ws|
    ensures TotalWork(ws[i := w]) == TotalWork(ws) - WorkLeft(ws[i]) + WorkLeft(w)
  {
    if i > 0 {
      assert ws[i := w][1..] == ws[1..][i - 1 := w];
      WorkAfterUpdate(ws[1..], i - 1, w);
    } else {
      assert ws[i := w][1..] == ws[1..];
    }
  }

  function WaiterRank(w: Waiter, count: int): nat {
    match w
    case Pushing => 6
    case Loading => 5
    case Testing(cur) => if cur == count then 4 else 7
    case Checking(cur) => if cur == count then 3 else 6
    case Asleep(_) => 2
    case Returned => 0
  }

  function Measure(s: State): int {
    10 * TotalWork(s.workers) + 10 * (|s.workers| - s.pushed) + WaiterRank(s.waiter, s.count)
  }

  /// Every step but a spurious wake-up brings the run closer to its end; a spurious
  /// one sets it back by at most four steps.
  lemma MeasureDecreases(s: State, a: Action)
    requires Inv(s) && Enabled(s, a)
    ensures 0 <= Measure(Step(s, a)) < Measure(s) + if a.SpuriousWake? then 5 else 0
  {
    match a
    case RunBlock(i) => WorkAfterUpdate(s.workers, i, BlockDone);
    case Decrement(i) => WorkAfterUpdate(s.workers, i, Released);
    case Notify(i) => WorkAfterUpdate(s.workers, i, Notified);
    case _ =>
  }

  function SpuriousWakes(actions: seq<Action>): nat {
    if actions == [] then 0 else
      var last := |actions| - 1;
      SpuriousWakes(actions[..last]) + if actions[last].SpuriousWake? then 1 else 0
  }

  lemma {:induction false} MeasureBoundsRun(n: nat, run: seq<State>, actions: seq<Action>, k: nat)
    requires IsRun(n, run, actions) && k < |run|
    ensures 0 <= Measure(run[k]) && Measure(run[k]) + k <= Measure(Init(n)) + 5 * SpuriousWakes(actions[..k])
  {
    hide Inv;
    InvAlways(n, run, actions, k);
    if k > 0 {
      MeasureBoundsRun(n, run, actions, k - 1);
      InvAlways(n, run, actions, k - 1);
      MeasureDecreases(run[k - 1], actions[k - 1]);
      assert actions[..k][..k - 1] == actions[..k - 1];
    } else {
      InvInit(n);
      MeasureFromStart(run[0]);
    }
  }

  lemma {:induction false} MeasureFromStart(s: State)
    requires s.pushed <= |s.workers|
    ensures 0 <= Measure(s)
  {
  }

  lemma {:induction false} InitialWork(n: nat)
    ensures TotalWork(seq(n, _ => Queued)) == 3 * n
  {
    if n > 0 {
      assert seq<Worker>(n, _ => Queued)[1..] == seq(n - 1, _ => Queued);
      InitialWork(n - 1);
    }
  }

  /// Liveness: a run with `c` spurious wake-ups has at most 40 n + 6 + 5 c steps, and
  /// a run that cannot go on without another one has returned from the wait.
  lemma WaitTerminates(n: nat, run: seq<State>, actions: seq<Action>)
    requires IsRun(n, run, actions)
    ensures |actions| <= 40 * n + 6 + 5 * SpuriousWakes(actions)
    ensures (forall a: Action :: !a.SpuriousWake? ==> !Enabled(run[|actions|], a)) ==> run[|actions|].waiter.Returned?
  {
    MeasureBoundsRun(n, run, actions, |actions|);
    assert actions[..|actions|] == actions;
    InitialWork(n);
    var last := run[|actions|];
    InvAlways(n, run, actions, |actions|);
    if !last.waiter.Returned? {
      var a := SomeStepEnabled(last);
    }
  }
}

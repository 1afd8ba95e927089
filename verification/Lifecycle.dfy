/** Start and stop of the projection workers, in every interleaving of the hooks and the goroutines. */
module Lifecycle {
  /** What the hook finds: a bus, an inbox, a retention cleaner. */
  datatype Config = Config(bus: bool, inbox: bool, cleaner: bool)

  /** `Spawning` is the moment between starting the consumer and deciding about the cleaner. */
  datatype Phase = Fresh | Spawning | Started | NoBus | NoInbox

  datatype Goroutine = Unborn | Alive | Done

  datatype Stop = NotCalled | Waiting | Stopped

  datatype State = State(
    phase: Phase, consumer: Goroutine, cleaner: Goroutine, waitCount: int, hasCancel: bool, cancelled: bool, stop: Stop,
    consumed: nat, cleaned: nat)

  datatype Step =
    | StartConsumer
    | StartCleaner
    | Consume
    | ConsumerReturns
    | Clean
    | CleanerReturns
    | CallStop
    | StopReturns

  const INITIAL := State(Fresh, Unborn, Unborn, 0, false, false, NotCalled, 0, 0)

  /**
   * One step; a step that is not possible changes nothing. The consumer may return at any time, for
   * an error of the bus or for the cancelled context; the cleaner returns only once it sees the cancel.
   */
  function Next(c: Config, s: State, step: Step): State {
    match step
    case StartConsumer =>
      if s.phase != Fresh || s.stop != NotCalled then s
      else if !c.bus then s.(phase := NoBus)
      else if !c.inbox then s.(phase := NoInbox)
      else s.(phase := Spawning, hasCancel := true, waitCount := s.waitCount + 1, consumer := Alive)
    case StartCleaner =>
      if s.phase != Spawning then s
      else if !c.cleaner then s.(phase := Started)
      else s.(phase := Started, waitCount := s.waitCount + 1, cleaner := Alive)
    case Consume => if s.consumer == Alive then s.(consumed := s.consumed + 1) else s
    case ConsumerReturns => if s.consumer == Alive then s.(consumer := Done, waitCount := s.waitCount - 1) else s
    case Clean => if s.cleaner == Alive then s.(cleaned := s.cleaned + 1) else s
    case CleanerReturns =>
      if s.cleaner == Alive && s.cancelled then s.(cleaner := Done, waitCount := s.waitCount - 1) else s
    case CallStop =>
      if s.phase == Spawning || s.stop != NotCalled then s
      else s.(cancelled := s.hasCancel || s.cancelled, stop := Waiting)
    case StopReturns => if s.stop == Waiting && s.waitCount == 0 then s.(stop := Stopped) else s
  }

  function Exec(c: Config, s: State, steps: seq<Step>): State
    decreases |steps|
  {
    if steps == [] then s else Exec(c, Next(c, s, steps[0]), steps[1..])
  }

  function Live(g: Goroutine): int { if g == Alive then 1 else 0 }

  predicate Inv(c: Config, s: State) {
    && s.waitCount == Live(s.consumer) + Live(s.cleaner)
    && (s.hasCancel <==> s.phase == Spawning || s.phase == Started)
    && (s.hasCancel ==> c.bus && c.inbox)
    && (s.consumer != Unborn ==> s.hasCancel)
    && (s.cleaner != Unborn ==> s.phase == Started && c.cleaner)
    && (s.stop != NotCalled ==> s.phase != Spawning && (s.hasCancel ==> s.cancelled))
    && (s.stop == Stopped ==> s.consumer != Alive && s.cleaner != Alive)
  }

  lemma {:induction false} RunKeeps(c: Config, s: State, steps: seq<Step>)
    requires Inv(c, s)
    ensures Inv(c, Exec(c, s, steps))
    decreases |steps|
  {
    if steps != [] { RunKeeps(c, Next(c, s, steps[0]), steps[1..]); }
  }

  predicate Accounted(c: Config, s: State) {
    && s.waitCount == Live(s.consumer) + Live(s.cleaner)
    && (!c.bus || !c.inbox ==> s.consumer == Unborn && s.cleaner == Unborn && s.waitCount == 0)
  }

  lemma InvAccounts(c: Config, s: State)
    requires Inv(c, s)
    ensures Accounted(c, s)
    ensures s.stop == Stopped ==> s.waitCount == 0
  {
  }

  /** In every interleaving the wait count is the number of live workers; without bus or inbox there are none. */
  lemma CountIsLiveWorkers(c: Config, steps: seq<Step>)
    ensures Accounted(c, Exec(c, INITIAL, steps))
  {
    RunKeeps(c, INITIAL, steps);
    InvAccounts(c, Exec(c, INITIAL, steps));
  }

  lemma {:induction false} NothingAfterStop(c: Config, s: State, more: seq<Step>)
    requires Inv(c, s) && s.stop == Stopped
    ensures var t := Exec(c, s, more); t.stop == Stopped && t.consumed == s.consumed && t.cleaned == s.cleaned
    decreases |more|
  {
    if more != [] {
      RunKeeps(c, s, [more[0]]);
      assert Exec(c, s, [more[0]]) == Exec(c, Next(c, s, more[0]), []);
      NothingAfterStop(c, Next(c, s, more[0]), more[1..]);
    }
  }

  /** Once the stop hook has returned, no interleaving lets the consumer or the cleaner do anything more. */
  lemma StopIsFinal(c: Config, steps: seq<Step>, more: seq<Step>)
    requires Exec(c, INITIAL, steps).stop == Stopped
    ensures Exec(c, Exec(c, INITIAL, steps), more).consumed == Exec(c, INITIAL, steps).consumed
    ensures Exec(c, Exec(c, INITIAL, steps), more).cleaned == Exec(c, INITIAL, steps).cleaned
    ensures Exec(c, Exec(c, INITIAL, steps), more).waitCount == 0
  {
    var s := Exec(c, INITIAL, steps);
    RunKeeps(c, INITIAL, steps);
    NothingAfterStop(c, s, more);
    RunKeeps(c, s, more);
    InvAccounts(c, Exec(c, s, more));
  }

  lemma WorkersSeeTheCancel(c: Config, s: State)
    requires Inv(c, s) && s.stop == Waiting
    ensures Next(c, Next(c, Next(c, s, ConsumerReturns), CleanerReturns), StopReturns).stop == Stopped
  {
    var t := Next(c, s, ConsumerReturns);
    assert t.consumer != Alive && (t.cleaner == Alive ==> t.cancelled) && t.stop == Waiting;
    var u := Next(c, t, CleanerReturns);
    assert u.waitCount == 0;
  }

  /** The stop hook is never stuck: once called, it returns as soon as the workers have seen the cancel. */
  lemma StopCanReturn(c: Config, steps: seq<Step>)
    requires Exec(c, INITIAL, steps).stop == Waiting
    ensures Exec(c, Exec(c, INITIAL, steps), [ConsumerReturns, CleanerReturns, StopReturns]).stop == Stopped
  {
    hide Next;
    var s := Exec(c, INITIAL, steps);
    RunKeeps(c, INITIAL, steps);
    WorkersSeeTheCancel(c, s);
    ThreeSteps(c, s);
  }

  lemma ThreeSteps(c: Config, s: State)
    ensures Exec(c, s, [ConsumerReturns, CleanerReturns, StopReturns])
         == Next(c, Next(c, Next(c, s, ConsumerReturns), CleanerReturns), StopReturns)
  {
    hide Next;
    var a := Next(c, s, ConsumerReturns);
    var b := Next(c, a, CleanerReturns);
    var z := [StopReturns];
    assert [CleanerReturns, StopReturns][1..] == z
      && [ConsumerReturns, CleanerReturns, StopReturns][1..] == [CleanerReturns] + z;
    assert Exec(c, b, z) == Exec(c, Next(c, b, StopReturns), z[1..]);
    assert Exec(c, a, [CleanerReturns] + z) == Exec(c, b, z);
  }

  // ---------------------------------------------------------------- starting

  /** The start hook has returned an error. */
  predicate StartFailed(s: State) { s.phase == NoInbox }

  /**
   * The start hook of a fresh service brings the consumer to life exactly when there are a bus and an inbox,
   * and the cleaner exactly when there is one as well. It fails exactly when there is a bus without an inbox.
   */
  lemma StartExactly(c: Config, steps: seq<Step>)
    requires Exec(c, INITIAL, steps).phase == Fresh && Exec(c, INITIAL, steps).stop == NotCalled
    ensures var s := Exec(c, INITIAL, steps); var t := Exec(c, s, [StartConsumer, StartCleaner]);
      && (t.consumer == Alive <==> c.bus && c.inbox)
      && (t.cleaner == Alive <==> c.bus && c.inbox && c.cleaner)
      && (StartFailed(t) <==> c.bus && !c.inbox)
      && t.waitCount == (if c.bus && c.inbox then 1 + (if c.cleaner then 1 else 0) else 0)
  {
    hide Exec, Next, Inv;
    assert Inv(c, INITIAL) by { InitialKeeps(c); }
    RunKeeps(c, INITIAL, steps);
    FreshStart(c, Exec(c, INITIAL, steps));
    TwoSteps(c, Exec(c, INITIAL, steps), StartConsumer, StartCleaner);
  }

  lemma InitialKeeps(c: Config)
    ensures Inv(c, INITIAL)
  {
  }

  lemma TwoSteps(c: Config, s: State, first: Step, second: Step)
    ensures Exec(c, s, [first, second]) == Next(c, Next(c, s, first), second)
  {
    hide Next;
    assert [first, second][1..] == [second];
    OneStep(c, Next(c, s, first), second);
  }

  lemma OneStep(c: Config, s: State, step: Step)
    ensures Exec(c, s, [step]) == Next(c, s, step)
  {
    hide Next;
    assert Exec(c, s, [step]) == Exec(c, Next(c, s, step), []);
  }

  lemma FreshStart(c: Config, s: State)
    requires Inv(c, s) && s.phase == Fresh && s.stop == NotCalled
    ensures var t := Next(c, Next(c, s, StartConsumer), StartCleaner);
      && (t.consumer == Alive <==> c.bus && c.inbox)
      && (t.cleaner == Alive <==> c.bus && c.inbox && c.cleaner)
      && (StartFailed(t) <==> c.bus && !c.inbox)
      && t.waitCount == (if c.bus && c.inbox then 1 + (if c.cleaner then 1 else 0) else 0)
  {
    assert s.consumer == Unborn && s.cleaner == Unborn && s.waitCount == 0;
  }

  function Occurrences(steps: seq<Step>, step: Step): nat {
    if steps == [] then 0 else (if steps[0] == step then 1 else 0) + Occurrences(steps[1..], step)
  }

  /** Until the service is stopped a started cleaner keeps cleaning, and a consumer consumes until it returns. */
  lemma {:induction false} WorkersKeepWorking(c: Config, s: State, more: seq<Step>)
    requires Inv(c, s) && !s.cancelled && CallStop !in more
    ensures var t := Exec(c, s, more);
      && !t.cancelled
      && (s.cleaner == Alive ==> t.cleaner == Alive && t.cleaned == s.cleaned + Occurrences(more, Clean))
      && (s.consumer == Alive && ConsumerReturns !in more ==>
            t.consumer == Alive && t.consumed == s.consumed + Occurrences(more, Consume))
    decreases |more|
  {
    if more != [] {
      var next := Next(c, s, more[0]);
      RunKeeps(c, s, [more[0]]);
      assert Exec(c, s, [more[0]]) == Exec(c, next, []);
      WorkersKeepWorking(c, next, more[1..]);
    }
  }

  /** Stopping a started service cancels both workers; without a worker there is nothing to cancel. */
  lemma StopCancels(c: Config, steps: seq<Step>)
    requires Exec(c, INITIAL, steps).stop == NotCalled && Exec(c, INITIAL, steps).phase != Spawning
    ensures var s := Exec(c, INITIAL, steps); var t := Exec(c, s, [CallStop]);
      t.stop == Waiting && (t.cancelled <==> s.phase == Started)
  {
    var s := Exec(c, INITIAL, steps);
    RunKeeps(c, INITIAL, steps);
    NeverCancelledBefore(c, steps);
    StopStep(c, s);
    hide Next, Inv;
    OneStep(c, s, CallStop);
  }

  lemma StopStep(c: Config, s: State)
    requires Inv(c, s) && s.stop == NotCalled && s.phase != Spawning && !s.cancelled
    ensures var t := Next(c, s, CallStop); t.stop == Waiting && (t.cancelled <==> s.phase == Started)
  {
  }

  lemma NeverCancelledBefore(c: Config, steps: seq<Step>)
    requires Exec(c, INITIAL, steps).stop == NotCalled
    ensures !Exec(c, INITIAL, steps).cancelled
  {
    NotStoppedNotCancelled(c, INITIAL, steps);
  }

  lemma {:induction false} NotStoppedNotCancelled(c: Config, s: State, steps: seq<Step>)
    requires s.cancelled ==> s.stop != NotCalled
    ensures var t := Exec(c, s, steps); t.cancelled ==> t.stop != NotCalled
    decreases |steps|
  {
    if steps != [] { NotStoppedNotCancelled(c, Next(c, s, steps[0]), steps[1..]); }
  }
}

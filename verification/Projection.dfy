/**
 * All runs of the projection writes: any number of workers (the event consumer, batch calls, other
 * replicas) send their batches item by item to one index, are cut off, crash and start again, while
 * requests already sent may reach the store again at any later time.
 */
module Projection {
  import opened Results
  import opened Documents
  import opened Store

  datatype Worker = Worker(ops: seq<Op>, next: nat)

  datatype State = State(index: Index, submitted: set<Op>, sent: set<Op>, acked: set<Op>, workers: map<nat, Worker>)

  datatype Step =
    | Begin(worker: nat, ops: seq<Op>)
    | Request(worker: nat, delivery: Delivery)
    | Try(worker: nat, delivery: Delivery)
    | Stray(op: Op)
    | Crash(worker: nat)

  const EMPTY := State(map[], {}, {}, {}, map[])

  function SetOf(ops: seq<Op>): (r: set<Op>)
    ensures forall op :: op in r <==> op in ops
  {
    set op <- ops
  }

  lemma SetOfSnoc(base: set<Op>, ops: seq<Op>, op: Op)
    ensures base + SetOf(ops + [op]) == base + SetOf(ops) + {op}
  {
  }

  /** What validation lets through to the engine. */
  predicate WellFormed(op: Op) {
    match op
    case Upsert(d) => Stored(d)
    case Delete(k, v) => CompleteKey(k, v)
  }

  /** A batch call carries upserts only or deletes only. */
  predicate IsBatch(ops: seq<Op>) {
    && 1 <= |ops| <= MAX_BATCH
    && (forall op <- ops :: WellFormed(op))
    && ((forall op <- ops :: op.Upsert?) || (forall op <- ops :: op.Delete?))
  }

  /**
   * One step; a step that is not possible in `s` changes nothing. `Try` is a try of the store's client
   * that it will repeat by itself, so that the worker does not learn of it.
   */
  function Next(s: State, step: Step): State {
    match step
    case Begin(w, ops) =>
      if w in s.workers || !IsBatch(ops) then s
      else s.(submitted := s.submitted + SetOf(ops), workers := s.workers[w := Worker(ops, 0)])
    case Request(w, d) =>
      if w !in s.workers || !Honest(d) || s.workers[w].next >= |s.workers[w].ops| then s
      else
        var ops, i := s.workers[w].ops, s.workers[w].next;
        var t := s.(index := AfterDelivery(s.index, ops[i], d), sent := s.sent + {ops[i]});
        if Reaction(ops[i], ReplyTo(s.index, ops[i], d)) != None then t.(workers := s.workers - {w})
        else t.(acked := s.acked + {ops[i]},
                workers := if i + 1 == |ops| then s.workers - {w} else s.workers[w := Worker(ops, i + 1)])
    case Try(w, d) =>
      if w !in s.workers || !Honest(d) || s.workers[w].next >= |s.workers[w].ops| then s
      else
        var op := s.workers[w].ops[s.workers[w].next];
        s.(index := AfterDelivery(s.index, op, d), sent := s.sent + {op})
    case Stray(op) =>
      if op in s.sent then s.(index := Write(s.index, op)) else s
    case Crash(w) =>
      s.(workers := s.workers - {w})
  }

  function Exec(s: State, steps: seq<Step>): State {
    if steps == [] then s else Next(Exec(s, steps[..|steps| - 1]), steps[|steps| - 1])
  }

  lemma {:induction false} ExecAppend(s: State, a: seq<Step>, b: seq<Step>)
    ensures Exec(s, a + b) == Exec(Exec(s, a), b)
  {
    if b == [] {
      assert a + b == a;
    } else {
      var front, last := b[..|b| - 1], b[|b| - 1];
      assert (a + b)[..|a + b| - 1] == a + front;
      ExecAppend(s, a, front);
    }
  }

  lemma NoSteps(s: State)
    ensures Exec(s, []) == s
  {
  }

  lemma ExecCons(s: State, step: Step, rest: seq<Step>)
    ensures Exec(s, [step] + rest) == Exec(Next(s, step), rest)
  {
    assert [step][..0] == [];
    assert Exec(s, [step]) == Next(Exec(s, []), step);
    ExecAppend(s, [step], rest);
  }

  // ---------------------------------------------------------------- what every step keeps

  predicate FromSent(index: Index, sent: set<Op>, id: string)
    requires id in index
  {
    exists op <- sent :: Key(op) == id && EntryOf(op) == index[id]
  }

  predicate Settled(index: Index, op: Op) {
    Key(op) in index && Version(op) <= index[Key(op)].version
  }

  ghost predicate Inv(s: State) {
    && s.acked <= s.sent <= s.submitted
    && (forall op <- s.submitted :: WellFormed(op))
    && (forall id <- s.index :: FromSent(s.index, s.sent, id))
    && (forall op <- s.acked :: Settled(s.index, op))
    && (forall w <- s.workers :: s.workers[w].next < |s.workers[w].ops|)
    && (forall w <- s.workers :: forall op <- s.workers[w].ops :: op in s.submitted)
  }

  /** `t` has every record of `s`, at the same or a larger version, and forgets no operation. */
  ghost predicate Advances(s: State, t: State) {
    && s.submitted <= t.submitted && s.sent <= t.sent && s.acked <= t.acked
    && (forall id <- s.index :: id in t.index && s.index[id].version <= t.index[id].version)
  }

  lemma WriteKeeps(s: State, op: Op, t: State)
    requires Inv(s) && op in s.submitted
    requires t == s.(index := Write(s.index, op), sent := s.sent + {op})
    ensures Inv(t) && Advances(s, t) && Settled(t.index, op)
  {
    hide WellFormed;
    forall id <- t.index ensures FromSent(t.index, t.sent, id) {
      if id in s.index && t.index[id] == s.index[id] {
        assert FromSent(s.index, s.sent, id);
      } else {
        assert op in t.sent && Key(op) == id && EntryOf(op) == t.index[id];
      }
    }
  }

  lemma SentKeeps(s: State, op: Op, d: Delivery, t: State)
    requires Inv(s) && op in s.submitted
    requires t == s.(index := AfterDelivery(s.index, op, d), sent := s.sent + {op})
    ensures Inv(t) && Advances(s, t)
    ensures d.Answered? ==> Settled(t.index, op)
  {
    if Lands(d) {
      WriteKeeps(s, op, t);
    } else {
      forall id <- t.index ensures FromSent(t.index, t.sent, id) { assert FromSent(s.index, s.sent, id); }
    }
  }

  lemma RequestKeeps(s: State, w: nat, d: Delivery)
    requires Inv(s) && w in s.workers && Honest(d)
    ensures var t := Next(s, Request(w, d)); Inv(t) && Advances(s, t)
  {
    var t := Next(s, Request(w, d));
    var ops, i := s.workers[w].ops, s.workers[w].next;
    var u := s.(index := AfterDelivery(s.index, ops[i], d), sent := s.sent + {ops[i]});
    assert ops[i] in s.submitted;
    SentKeeps(s, ops[i], d, u);
    GoingOnMeansDecided(s.index, ops[i], d);
    hide AfterDelivery, Reaction, ReplyTo, FromSent, Settled, WellFormed;
  }

  lemma StepKeeps(s: State, step: Step)
    requires Inv(s)
    ensures Inv(Next(s, step)) && Advances(s, Next(s, step))
  {
    var t := Next(s, step);
    match step
    case Begin(w, ops) =>
    case Request(w, d) =>
      if w in s.workers && Honest(d) { RequestKeeps(s, w, d); }
    case Try(w, d) =>
      if w in s.workers && Honest(d) { SentKeeps(s, s.workers[w].ops[s.workers[w].next], d, t); }
    case Stray(op) =>
      if op in s.sent {
        assert s.sent + {op} == s.sent;
        WriteKeeps(s, op, t);
      }
    case Crash(w) =>
  }

  lemma {:induction false} RunKeeps(s: State, steps: seq<Step>)
    requires Inv(s)
    ensures Inv(Exec(s, steps)) && Advances(s, Exec(s, steps))
  {
    if steps != [] {
      RunKeeps(s, steps[..|steps| - 1]);
      StepKeeps(Exec(s, steps[..|steps| - 1]), steps[|steps| - 1]);
    }
  }

  /**
   * In every run: entries are operations that were sent, acknowledged operations are settled, and
   * nothing goes back.
   */
  lemma EveryRunIsSound(steps: seq<Step>, more: seq<Step>)
    ensures Inv(Exec(EMPTY, steps)) && Advances(Exec(EMPTY, steps), Exec(EMPTY, steps + more))
  {
    RunKeeps(EMPTY, steps);
    RunKeeps(Exec(EMPTY, steps), more);
    ExecAppend(EMPTY, steps, more);
  }

  predicate UniqueVersions(ops: set<Op>) {
    forall a <- ops, b <- ops :: Key(a) == Key(b) && Version(a) == Version(b) ==> EntryOf(a) == EntryOf(b)
  }

  /** An upsert and a delete of one key under one version. */
  predicate Tie(up: Op, del: Op) {
    up.Upsert? && del.Delete? && Key(up) == Key(del) && Version(up) == Version(del)
  }

  ghost predicate AnyTie(ops: set<Op>) {
    exists up <- ops, del <- ops :: Tie(up, del)
  }

  /** In `s` a document is deleted, and in `t` one is live under the same id and version. */
  predicate BackAtItsVersion(s: State, t: State, id: string) {
    && id in s.index && s.index[id].content.Tombstone?
    && id in t.index && t.index[id].content.Live? && t.index[id].version == s.index[id].version
  }

  lemma BackMeansTie(steps: seq<Step>, more: seq<Step>, id: string)
    requires BackAtItsVersion(Exec(EMPTY, steps), Exec(EMPTY, steps + more), id)
    ensures AnyTie(Exec(EMPTY, steps + more).submitted)
  {
    hide Exec, Next, WellFormed;
    var s, t := Exec(EMPTY, steps), Exec(EMPTY, steps + more);
    EveryRunIsSound(steps, more);
    RunKeeps(EMPTY, steps + more);
    assert FromSent(s.index, s.sent, id) && FromSent(t.index, t.sent, id);
    var del :| del in s.sent && Key(del) == id && EntryOf(del) == s.index[id];
    var up :| up in t.sent && Key(up) == id && EntryOf(up) == t.index[id];
    assert Tie(up, del) && del in t.submitted && up in t.submitted;
  }

  /**
   * A deleted document comes back only through a newer upsert, or through one of the version of a
   * delete of its key.
   */
  lemma NoResurrection(steps: seq<Step>, more: seq<Step>, id: string)
    requires id in Exec(EMPTY, steps).index && Exec(EMPTY, steps).index[id].content.Tombstone?
    ensures var s, t := Exec(EMPTY, steps), Exec(EMPTY, steps + more);
      && id in t.index && s.index[id].version <= t.index[id].version
      && (t.index[id].content.Live? && !AnyTie(t.submitted) ==> s.index[id].version < t.index[id].version)
  {
    hide Exec, Next;
    EveryRunIsSound(steps, more);
    if BackAtItsVersion(Exec(EMPTY, steps), Exec(EMPTY, steps + more), id) { BackMeansTie(steps, more, id); }
  }

  // ---------------------------------------------------------------- convergence

  predicate IsTop(op: Op, ops: set<Op>) {
    op in ops && forall other <- ops :: Key(other) == Key(op) ==> Version(other) <= Version(op)
  }

  /** No key has two different largest-version operations. */
  predicate TopsAgree(ops: set<Op>) {
    forall a <- ops, b <- ops :: Key(a) == Key(b) && IsTop(a, ops) && IsTop(b, ops) ==> EntryOf(a) == EntryOf(b)
  }

  /** The index holds exactly the keys of `ops`, each with its largest-version operation. */
  predicate IsLatest(index: Index, ops: set<Op>) {
    && index.Keys == (set op <- ops :: Key(op))
    && (forall op <- ops :: IsTop(op, ops) ==> index[Key(op)] == EntryOf(op))
  }

  predicate HasTop(some: set<Op>, ops: set<Op>, op: Op) {
    exists top <- some :: Key(top) == Key(op) && IsTop(top, ops)
  }

  /** For each of `ops`, `some` has a largest-version operation on its key. */
  ghost predicate HasTops(some: set<Op>, ops: set<Op>) {
    forall op {:trigger HasTop(some, ops, op)} | op in ops :: HasTop(some, ops, op)
  }

  lemma TopAmong(some: set<Op>, ops: set<Op>, op: Op) returns (top: Op)
    requires HasTops(some, ops) && op in ops
    ensures top in some && Key(top) == Key(op) && IsTop(top, ops)
  {
    hide IsTop;
    assert HasTop(some, ops, op);
    top :| top in some && Key(top) == Key(op) && IsTop(top, ops);
  }

  /** More operations among fewer still have the tops. */
  lemma TopsWithin(some: set<Op>, more: set<Op>, fewer: set<Op>, ops: set<Op>)
    requires some <= more && some <= fewer <= ops && HasTops(some, ops)
    ensures HasTops(more, fewer)
  {
    hide HasTops;
    forall op <- fewer ensures HasTop(more, fewer, op) { var top := TopAmong(some, ops, op); }
    assert HasTops(more, fewer) by { AllHaveTops(more, fewer); }
  }

  lemma AllHaveTops(some: set<Op>, ops: set<Op>)
    requires forall op <- ops :: HasTop(some, ops, op)
    ensures HasTops(some, ops)
  {
    hide HasTop;
  }

  /** Of every submitted key, a largest-version operation was acknowledged at least once. */
  ghost predicate TopsAcknowledged(s: State) { HasTops(s.acked, s.submitted) }

  lemma TopOf(ops: set<Op>, op: Op) returns (top: Op)
    requires op in ops
    ensures Key(top) == Key(op) && IsTop(top, ops)
    decreases |ops|
  {
    if higher :| higher in ops && Key(higher) == Key(op) && Version(higher) > Version(op) {
      top := TopOf(ops - {op}, higher);
      assert forall other <- ops :: other == op || other in ops - {op};
    } else {
      top := op;
    }
  }

  lemma AllMeansTops(s: State)
    requires s.acked == s.submitted
    ensures TopsAcknowledged(s)
  {
    forall op <- s.submitted ensures HasTop(s.acked, s.submitted, op) { var top := TopOf(s.submitted, op); }
  }

  lemma Origin(s: State, id: string) returns (op: Op)
    requires Inv(s) && id in s.index
    ensures op in s.submitted && Key(op) == id && EntryOf(op) == s.index[id]
  {
    hide WellFormed;
    assert FromSent(s.index, s.sent, id);
    op :| op in s.sent && Key(op) == id && EntryOf(op) == s.index[id];
  }

  lemma AcknowledgedIsSettled(s: State, op: Op)
    requires Inv(s) && op in s.acked
    ensures Settled(s.index, op)
  {
    hide WellFormed;
  }

  /** Once the tops are acknowledged, each entry is a largest-version operation of its key. */
  lemma StoredIsTop(s: State, id: string) returns (op: Op)
    requires Inv(s) && TopsAcknowledged(s) && id in s.index
    ensures IsTop(op, s.submitted) && Key(op) == id && s.index[id] == EntryOf(op)
  {
    hide Inv, HasTops;
    op := Origin(s, id);
    var top := TopAmong(s.acked, s.submitted, op);
    AcknowledgedIsSettled(s, top);
  }

  lemma StoredKeys(s: State, id: string)
    requires Inv(s) && TopsAcknowledged(s)
    ensures id in s.index <==> exists op <- s.submitted :: Key(op) == id
  {
    hide Inv, HasTops;
    if id in s.index { var op := Origin(s, id); }
    if op :| op in s.submitted && Key(op) == id {
      var top := TopAmong(s.acked, s.submitted, op);
      AcknowledgedIsSettled(s, top);
    }
  }

  /**
   * Every run in which of each submitted key a largest-version operation was acknowledged ends in the
   * latest index; older operations may have failed for good.
   */
  lemma Convergence(steps: seq<Step>)
    requires TopsAcknowledged(Exec(EMPTY, steps)) && TopsAgree(Exec(EMPTY, steps).submitted)
    ensures IsLatest(Exec(EMPTY, steps).index, Exec(EMPTY, steps).submitted)
  {
    hide Exec, Next, Inv, TopsAcknowledged;
    var s := Exec(EMPTY, steps);
    RunKeeps(EMPTY, steps);
    forall id ensures id in s.index <==> id in set op <- s.submitted :: Key(op) { StoredKeys(s, id); }
    forall op <- s.submitted | IsTop(op, s.submitted) ensures s.index[Key(op)] == EntryOf(op) {
      var stored := StoredIsTop(s, Key(op));
    }
  }

  /** There is one latest index. */
  lemma LatestIsUnique(a: Index, b: Index, ops: set<Op>)
    requires IsLatest(a, ops) && IsLatest(b, ops)
    ensures a == b
  {
    forall id <- a ensures id in b && a[id] == b[id] {
      var op :| op in ops && Key(op) == id;
      var top := TopOf(ops, op);
    }
  }

  /**
   * Operations among which all tops of `ops` are agree on their tops when `ops` does, and have the same
   * latest index.
   */
  lemma LatestWithin(index: Index, some: set<Op>, ops: set<Op>)
    requires some <= ops && HasTops(some, ops) && TopsAgree(ops)
    ensures TopsAgree(some) && HasTops(some, some)
    ensures IsLatest(index, some) ==> IsLatest(index, ops)
  {
    hide HasTops;
    forall op <- some | IsTop(op, some) ensures IsTop(op, ops) { var top := TopAmong(some, ops, op); }
    TopsWithin(some, some, some, ops);
    if IsLatest(index, some) {
      forall op <- ops ensures Key(op) in index.Keys { var top := TopAmong(some, ops, op); }
      forall op <- ops | IsTop(op, ops) ensures index[Key(op)] == EntryOf(op) { var top := TopAmong(some, ops, op); }
    }
  }

  // ---------------------------------------------------------------- batches and replays as runs

  lemma PutRemove(workers: map<nat, Worker>, w: nat, worker: Worker)
    requires w !in workers
    ensures workers[w := worker] - {w} == workers
  {
  }

  function Requests(w: nat, net: nat -> Delivery, from: nat, count: nat): seq<Step>
    decreases count
  {
    if count == 0 then [] else [Request(w, net(from))] + Requests(w, net, from + 1, count - 1)
  }

  /** A batch call that meets no other writer is a run of one worker, with the same index and the same progress. */
  lemma BatchIsARun(s: State, w: nat, ops: seq<Op>, net: nat -> Delivery)
    requires w !in s.workers && IsBatch(ops) && forall i: nat :: Honest(net(i))
    ensures var b := RunBatch(s.index, ops, net, 0); var t := Exec(s, [Begin(w, ops)] + Requests(w, net, 0, |ops|));
      && t.index == b.index && w !in t.workers
      && b.done <= |ops| && t.acked == s.acked + SetOf(ops[..b.done])
      && t.submitted == s.submitted + SetOf(ops)
  {
    hide Exec, RunBatch, Reaction, AfterDelivery, Requests, SetOf, Next;
    BeginBatch(s, w, ops);
    ExecCons(s, Begin(w, ops), Requests(w, net, 0, |ops|));
    RestOfBatch(Next(s, Begin(w, ops)), w, ops, net, 0);
    var done := RunBatch(s.index, ops, net, 0).done;
    assert ops[0..done] == ops[..done];
  }

  lemma BeginBatch(s: State, w: nat, ops: seq<Op>)
    requires w !in s.workers && IsBatch(ops)
    ensures var t := Next(s, Begin(w, ops));
      && w in t.workers && t.workers[w] == Worker(ops, 0) && t.workers - {w} == s.workers
      && t.index == s.index && t.acked == s.acked && t.submitted == s.submitted + SetOf(ops)
  {
    hide SetOf;
    PutRemove(s.workers, w, Worker(ops, 0));
  }

  lemma {:induction false} RestOfBatch(s: State, w: nat, ops: seq<Op>, net: nat -> Delivery, i: nat)
    requires i < |ops| && w in s.workers && s.workers[w] == Worker(ops, i)
    requires forall k: nat :: Honest(net(k))
    ensures i <= RunBatch(s.index, ops, net, i).done <= |ops|
    ensures var b := RunBatch(s.index, ops, net, i); var t := Exec(s, Requests(w, net, i, |ops| - i));
      && t.index == b.index && t.workers == s.workers - {w} && t.submitted == s.submitted
      && t.acked == s.acked + SetOf(ops[i..b.done])
    decreases |ops| - i
  {
    hide Exec, Reaction, ReplyTo, AfterDelivery;
    DoneBound(s.index, ops, net, i);
    var t := Next(s, Request(w, net(i)));
    ExecCons(s, Request(w, net(i)), Requests(w, net, i + 1, |ops| - i - 1));
    var done := RunBatch(s.index, ops, net, i).done;
    if w !in t.workers {
      IdleRequests(t, w, net, i + 1, |ops| - i - 1);
      if done > i { assert done == i + 1 && ops[i..done] == [ops[i]]; } else { assert ops[i..done] == []; }
    } else {
      RestOfBatch(t, w, ops, net, i + 1);
      assert ops[i..done] == [ops[i]] + ops[i + 1..done];
      assert t.workers - {w} == s.workers - {w};
    }
  }

  lemma IdleRequest(s: State, w: nat, d: Delivery)
    requires w !in s.workers
    ensures Next(s, Request(w, d)) == s
  {
  }

  lemma {:induction false} IdleRequests(s: State, w: nat, net: nat -> Delivery, from: nat, count: nat)
    requires w !in s.workers
    ensures Exec(s, Requests(w, net, from, count)) == s
    decreases count
  {
    hide Next, Exec;
    if count == 0 {
      NoSteps(s);
    } else {
      IdleRequest(s, w, net(from));
      ExecCons(s, Request(w, net(from)), Requests(w, net, from + 1, count - 1));
      IdleRequests(s, w, net, from + 1, count - 1);
    }
  }

  /** One worker replaying operations one by one, every request answered. */
  function Replay(w: nat, ops: seq<Op>): seq<Step> {
    if ops == [] then []
    else Replay(w, ops[..|ops| - 1]) + [Begin(w, [ops[|ops| - 1]]), Request(w, Answered)]
  }

  lemma {:induction false} ReplayRun(s: State, w: nat, ops: seq<Op>)
    requires w !in s.workers && forall op <- ops :: WellFormed(op)
    ensures var all := SetOf(ops);
      Exec(s, Replay(w, ops)) == State(WriteAll(s.index, ops), s.submitted + all, s.sent + all, s.acked + all,
        s.workers)
  {
    if ops == [] {
    } else {
      hide Exec, WriteAll, Write, SetOf;
      var front, last := ops[..|ops| - 1], ops[|ops| - 1];
      assert ops == front + [last];
      ReplayRun(s, w, front);
      WriteAllSnoc(s.index, front, last);
      ExecAppend(s, Replay(w, front), [Begin(w, [last]), Request(w, Answered)]);
      ReplayOne(Exec(s, Replay(w, front)), w, last);
      SetOfSnoc(s.submitted, front, last);
      SetOfSnoc(s.sent, front, last);
      SetOfSnoc(s.acked, front, last);
    }
  }

  lemma ReplayOne(s: State, w: nat, op: Op)
    requires w !in s.workers && WellFormed(op)
    ensures Exec(s, [Begin(w, [op]), Request(w, Answered)]) ==
      State(Write(s.index, op), s.submitted + {op}, s.sent + {op}, s.acked + {op}, s.workers)
  {
    hide Reaction, ReplyTo, Write;
    var t := Next(s, Begin(w, [op]));
    assert SetOf([op]) == {op};
    GoingOnMeansDecided(t.index, op, Answered);
    PutRemove(s.workers, w, Worker([op], 0));
    ExecCons(s, Begin(w, [op]), [Request(w, Answered)]);
    ExecCons(t, Request(w, Answered), []);
  }

  ghost function Listed(ops: set<Op>): (list: seq<Op>)
    ensures SetOf(list) == ops
    decreases |ops|
  {
    if ops == {} then []
    else
      var op :| op in ops;
      var rest := Listed(ops - {op});
      assert SetOf(rest + [op]) == SetOf(rest) + {op};
      rest + [op]
  }

  /** From every reachable state a replay of all submitted operations reaches the latest index. */
  lemma ReplayRepairs(steps: seq<Step>, w: nat)
    requires w !in Exec(EMPTY, steps).workers && TopsAgree(Exec(EMPTY, steps).submitted)
    ensures var s := Exec(EMPTY, steps); var t := Exec(EMPTY, steps + Replay(w, Listed(s.submitted)));
      t.submitted == s.submitted && IsLatest(t.index, s.submitted)
  {
    hide Exec, Replay, TopsAgree, IsLatest, WriteAll, WellFormed;
    var s := Exec(EMPTY, steps);
    RunKeeps(EMPTY, steps);
    var list := Listed(s.submitted);
    ReplayRun(s, w, list);
    ExecAppend(EMPTY, steps, Replay(w, list));
    assert s.submitted + s.submitted == s.submitted && s.acked + s.submitted == s.submitted;
    AllMeansTops(Exec(EMPTY, steps + Replay(w, list)));
    Convergence(steps + Replay(w, list));
  }

  // ---------------------------------------------------------------- exactly when all runs agree

  ghost predicate Completes(steps: seq<Step>, ops: set<Op>) {
    Exec(EMPTY, steps).submitted == ops && Exec(EMPTY, steps).acked == ops
  }

  ghost predicate Confluent(ops: set<Op>) {
    forall a, b | Completes(a, ops) && Completes(b, ops) :: Exec(EMPTY, a).index == Exec(EMPTY, b).index
  }

  lemma ReplayFromEmpty(list: seq<Op>)
    requires forall op <- list :: WellFormed(op)
    ensures var t := Exec(EMPTY, Replay(0, list));
      t.index == WriteAll(map[], list) && t.submitted == t.acked == SetOf(list)
  {
    hide Exec, WriteAll, SetOf, Replay;
    ReplayRun(EMPTY, 0, list);
    assert {} + SetOf(list) == SetOf(list);
  }

  /** The run that replays everything and `op` once more ends with `op` at its key if it is a largest-version one. */
  lemma LastTopWins(ops: set<Op>, op: Op)
    requires (forall o <- ops :: WellFormed(o)) && IsTop(op, ops)
    ensures var steps := Replay(0, Listed(ops) + [op]);
      Completes(steps, ops) && Key(op) in Exec(EMPTY, steps).index && Exec(EMPTY, steps).index[Key(op)] == EntryOf(op)
  {
    var front := Listed(ops);
    var list := front + [op];
    assert forall o <- front :: o in SetOf(front);
    ReplayFromEmpty(list);
    assert SetOf(list) == ops;
    hide Exec;
    var w := Winner(front, Key(op));
    assert w.Some? ==> w.value in front;
    assert list[..|list| - 1] == front;
    WinnerIsStored(map[], list, Key(op));
  }

  /**
   * All complete runs of a set of operations end in the same index exactly when no key has two
   * different largest-version operations: with a tie, `external_gte` lets whichever came last win.
   */
  lemma ConfluentExactly(ops: set<Op>)
    requires forall op <- ops :: WellFormed(op)
    ensures Confluent(ops) <==> TopsAgree(ops)
  {
    if TopsAgree(ops) {
      forall a, b | Completes(a, ops) && Completes(b, ops) ensures Exec(EMPTY, a).index == Exec(EMPTY, b).index {
        AllMeansTops(Exec(EMPTY, a));
        AllMeansTops(Exec(EMPTY, b));
        Convergence(a);
        Convergence(b);
        LatestIsUnique(Exec(EMPTY, a).index, Exec(EMPTY, b).index, ops);
      }
    } else {
      var a, b :| a in ops && b in ops && Key(a) == Key(b) && IsTop(a, ops) && IsTop(b, ops)
        && EntryOf(a) != EntryOf(b);
      LastTopWins(ops, a);
      LastTopWins(ops, b);
      assert Completes(Replay(0, Listed(ops) + [a]), ops) && Completes(Replay(0, Listed(ops) + [b]), ops);
    }
  }

  /** Some run within these operations brings a document back at the version it was deleted at. */
  ghost predicate Resurrects(ops: set<Op>) {
    exists steps, more, id ::
      Exec(EMPTY, steps + more).submitted <= ops && BackAtItsVersion(Exec(EMPTY, steps), Exec(EMPTY, steps + more), id)
  }

  lemma ReplayTwo(first: Op, second: Op)
    ensures Replay(0, [first, second]) == Replay(0, [first]) + [Begin(0, [second]), Request(0, Answered)]
  {
    assert [first, second][..1] == [first];
  }

  lemma TieResurrects(ops: set<Op>, up: Op, del: Op)
    requires up in ops && del in ops && Tie(up, del) && WellFormed(up) && WellFormed(del)
    ensures Resurrects(ops)
  {
    hide Exec, WellFormed, Replay;
    var steps, all := Replay(0, [del]), Replay(0, [del, up]);
    var more := [Begin(0, [up]), Request(0, Answered)];
    ReplayTwo(del, up);
    ReplayFromEmpty([del]);
    ReplayFromEmpty([del, up]);
    assert [del][..0] == [] && [del, up][..1] == [del];
    assert WriteAll(map[], []) == map[] && WriteAll(map[], [del]) == Write(map[], del);
    assert WriteAll(map[], [del, up]) == Write(Write(map[], del), up);
    assert BackAtItsVersion(Exec(EMPTY, steps), Exec(EMPTY, steps + more), Key(del));
  }

  /** A deletion can be undone at its own version exactly when an upsert and a delete of one key share a version. */
  lemma ResurrectionExactly(ops: set<Op>)
    requires forall op <- ops :: WellFormed(op)
    ensures Resurrects(ops) <==> AnyTie(ops)
  {
    if up, del :| up in ops && del in ops && Tie(up, del) { TieResurrects(ops, up, del); }
    if Resurrects(ops) {
      var steps, more, id :| Exec(EMPTY, steps + more).submitted <= ops
        && BackAtItsVersion(Exec(EMPTY, steps), Exec(EMPTY, steps + more), id);
      BackMeansTie(steps, more, id);
    }
  }

  /**
   * Two operations meet at one entry exactly when they are about one source record, if one of them has
   * an unambiguous key or neither has a separator in its leading parts.
   */
  lemma EntriesAreSourceRecords(steps: seq<Step>, a: Op, b: Op)
    requires a in Exec(EMPTY, steps).submitted && b in Exec(EMPTY, steps).submitted
    requires !Ambiguous(SourceOf(a)) || !Ambiguous(SourceOf(b)) || (ColonFree(SourceOf(a)) && ColonFree(SourceOf(b)))
    ensures Key(a) == Key(b) <==> SourceOf(a) == SourceOf(b)
  {
    hide Exec, CanonicalID, Ambiguous, Next;
    RunKeeps(EMPTY, steps);
    assert WellFormed(a) && WellFormed(b);
    if Key(a) == Key(b) {
      if !Ambiguous(SourceOf(a)) {
        UnambiguousIsAlone(SourceOf(a), SourceOf(b));
      } else if !Ambiguous(SourceOf(b)) {
        UnambiguousIsAlone(SourceOf(b), SourceOf(a));
      } else {
        CanonicalIDInjective(SourceOf(a), SourceOf(b));
      }
    }
  }

  function SourceOf(op: Op): SourceKey {
    match op
    case Upsert(d) => d.source
    case Delete(k, _) => k
  }

  /** Every live document of every reachable index was accepted by validation and lies under its own id. */
  lemma LiveIsStored(steps: seq<Step>, id: string)
    requires HasLive(Exec(EMPTY, steps).index, id)
    ensures var d := Exec(EMPTY, steps).index[id].content.document; Stored(d) && d.id == id
  {
    RunKeeps(EMPTY, steps);
    assert FromSent(Exec(EMPTY, steps).index, Exec(EMPTY, steps).sent, id);
  }
}

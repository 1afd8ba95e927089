/** A client that retries a whole batch while requests of earlier attempts may still reach the store. */
module BatchRetry {
  import opened Store
  import opened Projection

  /** Nothing sent yet, over an index that other writers have left behind. */
  function From(index: Index): State { State(index, {}, {}, {}, map[]) }

  predicate BeginsOnly(step: Step, ops: seq<Op>) { step.Begin? ==> step.ops == ops }

  /**
   * Attempts of one batch, overlapping or not, cut off anywhere, with duplicates before, during, between
   * and after them, until every operation has been acknowledged.
   */
  ghost predicate Retried(index: Index, ops: seq<Op>, steps: seq<Step>) {
    && (forall step <- steps :: BeginsOnly(step, ops))
    && Exec(From(index), steps).acked == SetOf(ops)
  }

  function Uninterrupted(index: Index, ops: seq<Op>): Index { RunBatch(index, ops, i => Answered, 0).index }

  ghost predicate RetrySafe(ops: seq<Op>) {
    forall index, steps | Retried(index, ops, steps) :: Exec(From(index), steps).index == Uninterrupted(index, ops)
  }

  // ---------------------------------------------------------------- what a run has landed

  /** `landed` is what the run has written, in order: at least what was acknowledged, at most what was sent. */
  ghost predicate Traces(index: Index, s: State, landed: seq<Op>) {
    && s.index == WriteAll(index, landed)
    && s.acked <= SetOf(landed) <= s.sent <= s.submitted
    && (forall w <- s.workers :: s.workers[w].next < |s.workers[w].ops|)
    && (forall w <- s.workers :: forall op <- s.workers[w].ops :: op in s.submitted)
  }

  lemma LandsOne(index: Index, s: State, landed: seq<Op>, op: Op, d: Delivery, t: State) returns (landed': seq<Op>)
    requires Traces(index, s, landed) && op in s.submitted
    requires t == s.(index := AfterDelivery(s.index, op, d), sent := s.sent + {op})
    ensures Traces(index, t, landed') && SetOf(landed) <= SetOf(landed') && (Lands(d) ==> op in landed')
  {
    hide WriteAll, Write;
    landed' := if Lands(d) then landed + [op] else landed;
    WriteAllSnoc(index, landed, op);
  }

  lemma LandsStep(index: Index, s: State, landed: seq<Op>, step: Step) returns (landed': seq<Op>)
    requires Traces(index, s, landed)
    ensures Traces(index, Next(s, step), landed')
  {
    hide WriteAll, Write, AfterDelivery, ReplyTo, Reaction, WellFormed;
    landed' := landed;
    match step
    case Begin(w, ops) =>
    case Request(w, d) =>
      if w in s.workers && Honest(d) {
        var op := s.workers[w].ops[s.workers[w].next];
        GoingOnMeansDecided(s.index, op, d);
        landed' := LandsOne(index, s, landed, op, d, s.(index := AfterDelivery(s.index, op, d), sent := s.sent + {op}));
      }
    case Try(w, d) =>
      if w in s.workers && Honest(d) {
        landed' := LandsOne(index, s, landed, s.workers[w].ops[s.workers[w].next], d, Next(s, step));
      }
    case Stray(op) =>
      if op in s.sent {
        WriteAllSnoc(index, landed, op);
        landed' := landed + [op];
      }
    case Crash(w) =>
  }

  lemma {:induction false} LandedBy(index: Index, steps: seq<Step>) returns (landed: seq<Op>)
    ensures Traces(index, Exec(From(index), steps), landed)
  {
    hide Next;
    if steps == [] {
      landed := [];
    } else {
      landed := LandedBy(index, steps[..|steps| - 1]);
      landed := LandsStep(index, Exec(From(index), steps[..|steps| - 1]), landed, steps[|steps| - 1]);
    }
  }

  lemma {:induction false} OnlySubmits(index: Index, ops: seq<Op>, steps: seq<Step>)
    requires forall step <- steps :: BeginsOnly(step, ops)
    ensures Exec(From(index), steps).submitted <= SetOf(ops)
  {
    if steps != [] {
      assert BeginsOnly(steps[|steps| - 1], ops);
      OnlySubmits(index, ops, steps[..|steps| - 1]);
    }
  }

  /**
   * Two sequences of the same operations write the same index when no key has two different tops,
   * whatever their order.
   */
  lemma SameOperations(index: Index, a: seq<Op>, b: seq<Op>)
    requires SetOf(a) == SetOf(b) && TopsAgree(SetOf(a))
    ensures WriteAll(index, a) == WriteAll(index, b)
  {
    var left, right := WriteAll(index, a), WriteAll(index, b);
    forall id: string ensures (id in left <==> id in right) && (id in left ==> left[id] == right[id]) {
      WinnerIsStored(index, a, id);
      WinnerIsStored(index, b, id);
      SameWinner(a, b, id);
    }
    assert left.Keys == right.Keys;
  }

  lemma SameWinner(a: seq<Op>, b: seq<Op>, id: string)
    requires SetOf(a) == SetOf(b) && TopsAgree(SetOf(a))
    ensures Winner(a, id).Some? <==> Winner(b, id).Some?
    ensures Winner(a, id).Some? ==> EntryOf(Winner(a, id).value) == EntryOf(Winner(b, id).value)
  {
    var v, w := Winner(a, id), Winner(b, id);
    if v.Some? { assert v.value in SetOf(b) && v.value in b; }
    if w.Some? { assert w.value in SetOf(a) && w.value in a; }
    if v.Some? && w.Some? {
      assert forall op <- SetOf(a) :: op in a && op in b;
      assert IsTop(v.value, SetOf(a)) && IsTop(w.value, SetOf(a));
    }
  }

  lemma UninterruptedWritesAll(index: Index, ops: seq<Op>)
    ensures Uninterrupted(index, ops) == WriteAll(index, ops)
    ensures RunBatch(index, ops, i => Answered, 0).done == |ops|
  {
    AllAnswered(index, ops, i => Answered, 0);
    DoneBound(index, ops, i => Answered, 0);
    BatchWritesAPrefix(index, ops, i => Answered);
  }

  // ---------------------------------------------------------------- exactly when retrying is safe

  lemma AgreeingBatchIsRetrySafe(ops: seq<Op>)
    requires TopsAgree(SetOf(ops))
    ensures RetrySafe(ops)
  {
    hide TopsAgree, WriteAll, RunBatch, Uninterrupted;
    forall index, steps | Retried(index, ops, steps)
      ensures Exec(From(index), steps).index == Uninterrupted(index, ops)
    {
      var landed := LandedBy(index, steps);
      OnlySubmits(index, ops, steps);
      assert SetOf(landed) == SetOf(ops);
      SameOperations(index, landed, ops);
      UninterruptedWritesAll(index, ops);
    }
  }

  lemma {:induction false} RequestsBeginNothing(w: nat, net: nat -> Delivery, from: nat, count: nat, ops: seq<Op>)
    ensures forall step <- Requests(w, net, from, count) :: BeginsOnly(step, ops)
    decreases count
  {
    if count > 0 { RequestsBeginNothing(w, net, from + 1, count - 1, ops); }
  }

  /** One attempt that succeeds, after which a duplicate of its request for `late` reaches the store. */
  function LateRun(ops: seq<Op>, late: Op): seq<Step> {
    [Begin(0, ops)] + Requests(0, i => Answered, 0, |ops|) + [Stray(late)]
  }

  lemma OneAttempt(ops: seq<Op>)
    requires IsBatch(ops)
    ensures var t := Exec(EMPTY, [Begin(0, ops)] + Requests(0, i => Answered, 0, |ops|));
      t.index == WriteAll(map[], ops) && t.acked == SetOf(ops) && SetOf(ops) <= t.sent
  {
    hide Exec, Requests, WriteAll, RunBatch, IsBatch;
    BatchIsARun(EMPTY, 0, ops, i => Answered);
    UninterruptedWritesAll(map[], ops);
    RunKeeps(EMPTY, [Begin(0, ops)] + Requests(0, i => Answered, 0, |ops|));
    assert ops[..|ops|] == ops;
  }

  lemma LateDuplicate(ops: seq<Op>, late: Op)
    requires IsBatch(ops) && late in ops
    ensures Retried(map[], ops, LateRun(ops, late))
    ensures Exec(From(map[]), LateRun(ops, late)).index == Write(WriteAll(map[], ops), late)
  {
    hide Requests, WriteAll, Write, IsBatch, Exec;
    var attempt := [Begin(0, ops)] + Requests(0, i => Answered, 0, |ops|);
    OneAttempt(ops);
    RequestsBeginNothing(0, i => Answered, 0, |ops|, ops);
    ExecSnoc(EMPTY, attempt, Stray(late));
    assert late in SetOf(ops);
  }

  lemma ExecSnoc(s: State, steps: seq<Step>, step: Step)
    ensures Exec(s, steps + [step]) == Next(Exec(s, steps), step)
  {
    assert (steps + [step])[..|steps + [step]| - 1] == steps;
  }

  lemma RetrySafeBatchAgrees(ops: seq<Op>)
    requires IsBatch(ops) && RetrySafe(ops)
    ensures TopsAgree(SetOf(ops))
  {
    hide IsBatch, LateRun, Retried, WriteAll, Uninterrupted, Exec;
    forall a <- SetOf(ops), b <- SetOf(ops) | Key(a) == Key(b) && IsTop(a, SetOf(ops)) && IsTop(b, SetOf(ops))
      ensures EntryOf(a) == EntryOf(b)
    {
      TopIsStored(ops, a);
      TopIsStored(ops, b);
    }
  }

  /** If a late duplicate changes nothing, a largest-version operation is the stored one. */
  lemma TopIsStored(ops: seq<Op>, op: Op)
    requires IsBatch(ops) && RetrySafe(ops) && IsTop(op, SetOf(ops))
    ensures var all := WriteAll(map[], ops); Key(op) in all && all[Key(op)] == EntryOf(op)
  {
    hide IsBatch, LateRun, Retried, WriteAll, Uninterrupted, Exec;
    LateDuplicate(ops, op);
    UninterruptedWritesAll(map[], ops);
    WinnerIsStored(map[], ops, Key(op));
    var w := Winner(ops, Key(op));
    assert w.Some? && w.value in SetOf(ops);
    assert Version(w.value) == Version(op);
  }

  /**
   * Retrying a batch ends in the index of one uninterrupted run, whatever late duplicates do, exactly
   * when no key of the batch has two different largest-version operations.
   */
  lemma RetrySafeExactly(ops: seq<Op>)
    requires IsBatch(ops)
    ensures RetrySafe(ops) <==> TopsAgree(SetOf(ops))
  {
    hide *;
    if TopsAgree(SetOf(ops)) { AgreeingBatchIsRetrySafe(ops); }
    if RetrySafe(ops) { RetrySafeBatchAgrees(ops); }
  }
}

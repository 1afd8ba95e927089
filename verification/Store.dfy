/** The versioned index and what one write, one batch and any sequence of writes does to it. */
module Store {
  import opened Results
  import opened Documents

  datatype Content = Live(document: Document) | Tombstone

  datatype Entry = Entry(version: int, content: Content)

  type Index = map<string, Entry>

  datatype Op = Upsert(document: Document) | Delete(key: SourceKey, version: int)

  function Key(op: Op): string {
    match op
    case Upsert(d) => d.id
    case Delete(k, _) => CanonicalID(k)
  }

  function Version(op: Op): int {
    match op
    case Upsert(d) => d.sourceVersion
    case Delete(_, v) => v
  }

  function EntryOf(op: Op): Entry {
    Entry(Version(op), match op case Upsert(d) => Live(d) case Delete(_, _) => Tombstone)
  }

  /** Two operations the store cannot tell apart. */
  predicate SameEffect(a: Op, b: Op) { Key(a) == Key(b) && EntryOf(a) == EntryOf(b) }

  // ---------------------------------------------------------------- one write

  /** `version_type=external_gte`: no recorded version, or the incoming one is at least as large. */
  predicate Accepted(index: Index, op: Op) {
    Key(op) in index ==> Version(op) >= index[Key(op)].version
  }

  function Write(index: Index, op: Op): Index {
    if Accepted(index, op) then index[Key(op) := EntryOf(op)] else index
  }

  predicate HasLive(index: Index, id: string) { id in index && index[id].content.Live? }

  /** The store's answer: 409 on a stale version; a delete that finds no live document answers 404. */
  function StatusOf(index: Index, op: Op): int {
    if !Accepted(index, op) then 409
    else match op
      case Upsert(_) => if HasLive(index, Key(op)) then 200 else 201
      case Delete(_, _) => if HasLive(index, Key(op)) then 200 else 404
  }

  /**
   * What can become of one request: `Refused` is an answer of a node or proxy that applied nothing,
   * though an earlier try of the store's client may have `landed`.
   */
  datatype Delivery = Lost | LandedUnanswered | Answered | Refused(status: int, landed: bool)

  datatype Reply = TransportFailure | Replied(status: int)

  predicate Success(status: int) { 200 <= status < 300 }

  /** A refusal never looks like an answer that records the operation. */
  predicate Honest(d: Delivery) {
    d.Refused? ==> !Success(d.status) && d.status != 404 && d.status != 409
  }

  predicate Lands(d: Delivery) { d.Answered? || d.LandedUnanswered? || (d.Refused? && d.landed) }

  function AfterDelivery(index: Index, op: Op, d: Delivery): Index {
    if Lands(d) then Write(index, op) else index
  }

  function ReplyTo(index: Index, op: Op, d: Delivery): Reply {
    match d
    case Lost => TransportFailure
    case LandedUnanswered => TransportFailure
    case Answered => Replied(StatusOf(index, op))
    case Refused(status, _) => Replied(status)
  }

  /** The error classes of `doJSON`. */
  function StatusError(reply: Reply): Option<Error> {
    match reply
    case TransportFailure => Some(Unavailable)
    case Replied(status) =>
      if status == 404 then Some(NotFound)
      else if !Success(status) then Some(StoreStatus(status))
      else None
  }

  /** Whether the batch loop goes on after this reply, or the error it stops with. */
  function Reaction(op: Op, reply: Reply): Option<Error> {
    var err := StatusError(reply);
    if err == Some(StoreStatus(409)) || (op.Delete? && err == Some(NotFound)) then None else err
  }

  /** Going on means the store has decided about the operation; stopping on an answer means a refusal. */
  lemma GoingOnMeansDecided(index: Index, op: Op, d: Delivery)
    requires Honest(d)
    ensures Reaction(op, ReplyTo(index, op, d)) == None <==> d.Answered?
    ensures Reaction(op, ReplyTo(index, op, d)) == None ==>
      var after := AfterDelivery(index, op, d);
      Key(op) in after && after[Key(op)].version >= Version(op)
    ensures Reaction(op, ReplyTo(index, op, d)) != None ==>
      Reaction(op, ReplyTo(index, op, d)) == Some(if d.Refused? then StoreStatus(d.status) else Unavailable)
  {
  }

  /** The index after some tries of one request by the store's client. */
  function AfterTries(index: Index, op: Op, tries: seq<Delivery>): Index {
    if tries == [] then index else AfterDelivery(AfterTries(index, op, tries[..|tries| - 1]), op, tries[|tries| - 1])
  }

  /** Several tries seen as one request: it ends as the last one, and landed if any of them did. */
  function AsOne(tries: seq<Delivery>): Delivery
    requires tries != []
  {
    var last := tries[|tries| - 1];
    if forall d <- tries :: !Lands(d) then last
    else match last
      case Lost => LandedUnanswered
      case Refused(status, _) => Refused(status, true)
      case _ => last
  }

  lemma {:induction false} TriesWriteOnce(index: Index, op: Op, tries: seq<Delivery>)
    ensures AfterTries(index, op, tries) == if exists d <- tries :: Lands(d) then Write(index, op) else index
  {
    if tries != [] {
      var front, last := tries[..|tries| - 1], tries[|tries| - 1];
      assert tries == front + [last];
      TriesWriteOnce(index, op, front);
    }
  }

  /** The store's client may try a request several times by itself; the batch loop cannot tell that from one request. */
  lemma TriesAreOneRequest(index: Index, op: Op, tries: seq<Delivery>)
    requires tries != [] && forall d <- tries :: Honest(d)
    ensures Honest(AsOne(tries))
    ensures AfterTries(index, op, tries) == AfterDelivery(index, op, AsOne(tries))
    ensures Reaction(op, ReplyTo(AfterTries(index, op, tries[..|tries| - 1]), op, tries[|tries| - 1]))
         == Reaction(op, ReplyTo(index, op, AsOne(tries)))
  {
    var last := tries[|tries| - 1];
    assert last in tries;
    TriesWriteOnce(index, op, tries);
    GoingOnMeansDecided(AfterTries(index, op, tries[..|tries| - 1]), op, last);
    GoingOnMeansDecided(index, op, AsOne(tries));
    hide Write, AfterTries, Reaction, ReplyTo, StatusOf;
  }

  // ---------------------------------------------------------------- one batch

  datatype Batch = Batch(index: Index, error: Option<Error>, done: nat)

  /** The batch from item `i` on: stops at the first reply that is not a success. */
  function RunBatch(index: Index, ops: seq<Op>, net: nat -> Delivery, i: nat): Batch
    requires i <= |ops|
    decreases |ops| - i
  {
    if i == |ops| then Batch(index, None, i)
    else
      var after := AfterDelivery(index, ops[i], net(i));
      var err := Reaction(ops[i], ReplyTo(index, ops[i], net(i)));
      if err != None then Batch(after, err, i) else RunBatch(after, ops, net, i + 1)
  }

  function WriteAll(index: Index, ops: seq<Op>): Index {
    if ops == [] then index else Write(WriteAll(index, ops[..|ops| - 1]), ops[|ops| - 1])
  }

  lemma WriteAllSnoc(index: Index, ops: seq<Op>, op: Op)
    ensures WriteAll(index, ops + [op]) == Write(WriteAll(index, ops), op)
  {
    assert (ops + [op])[..|ops + [op]| - 1] == ops;
  }

  lemma {:induction false} WriteAllAppend(index: Index, a: seq<Op>, b: seq<Op>)
    ensures WriteAll(index, a + b) == WriteAll(WriteAll(index, a), b)
  {
    if b == [] {
      assert a + b == a;
    } else {
      var front, last := b[..|b| - 1], b[|b| - 1];
      assert b == front + [last] && a + b == (a + front) + [last];
      WriteAllAppend(index, a, front);
      WriteAllSnoc(index, a + front, last);
    }
  }

  /**
   * The operations of a batch attempt that reached the store: those before the stop, and maybe the one
   * it stopped at.
   */
  function Landed(index: Index, ops: seq<Op>, net: nat -> Delivery): seq<Op> {
    var b := RunBatch(index, ops, net, 0);
    DoneBound(index, ops, net, 0);
    if b.error != None && b.done < |ops| && Lands(net(b.done)) then ops[..b.done + 1] else ops[..b.done]
  }

  lemma {:induction false} DoneBound(index: Index, ops: seq<Op>, net: nat -> Delivery, i: nat)
    requires i <= |ops|
    ensures var b := RunBatch(index, ops, net, i); i <= b.done <= |ops| && (b.error == None <==> b.done == |ops|)
    decreases |ops| - i
  {
    if i < |ops| && Reaction(ops[i], ReplyTo(index, ops[i], net(i))) == None {
      DoneBound(AfterDelivery(index, ops[i], net(i)), ops, net, i + 1);
    }
  }

  /** A batch attempt is some prefix of its operations written in order; all of them when it reports success. */
  lemma BatchWritesAPrefix(index: Index, ops: seq<Op>, net: nat -> Delivery)
    requires forall i: nat :: Honest(net(i))
    ensures RunBatch(index, ops, net, 0).index == WriteAll(index, Landed(index, ops, net))
    ensures Landed(index, ops, net) <= ops
    ensures RunBatch(index, ops, net, 0).error == None ==> Landed(index, ops, net) == ops
  {
    DoneBound(index, ops, net, 0);
    PrefixFrom(index, index, ops, net, 0);
  }

  lemma {:induction false} PrefixFrom(start: Index, index: Index, ops: seq<Op>, net: nat -> Delivery, i: nat)
    requires i <= |ops| && index == WriteAll(start, ops[..i])
    requires forall i: nat :: Honest(net(i))
    ensures var b := RunBatch(index, ops, net, i);
      b.done <= |ops| &&
      var landed := if b.error != None && b.done < |ops| && Lands(net(b.done)) then b.done + 1 else b.done;
      b.index == WriteAll(start, ops[..landed])
    decreases |ops| - i
  {
    hide WriteAll, Write, StatusOf, Reaction;
    if i < |ops| {
      assert ops[..i + 1] == ops[..i] + [ops[i]];
      WriteAllSnoc(start, ops[..i], ops[i]);
      GoingOnMeansDecided(index, ops[i], net(i));
      if net(i).Answered? { PrefixFrom(start, AfterDelivery(index, ops[i], net(i)), ops, net, i + 1); }
    }
  }

  // ---------------------------------------------------------------- any sequence of writes

  /** The last of the largest-version operations on `id`: the winner among `ops`, looked up without an index. */
  function Winner(ops: seq<Op>, id: string): (w: Option<Op>)
    ensures w.Some? ==> w.value in ops && Key(w.value) == id
    ensures w.None? ==> forall op <- ops :: Key(op) != id
    ensures w.Some? ==> forall op <- ops :: Key(op) == id ==> Version(op) <= Version(w.value)
  {
    if ops == [] then None
    else
      var front, last := ops[..|ops| - 1], ops[|ops| - 1];
      assert ops == front + [last];
      var w := Winner(front, id);
      if Key(last) == id && (w.None? || Version(last) >= Version(w.value)) then Some(last) else w
  }

  /** After any writes in any order, an entry is the winner's unless the old entry has a larger version. */
  lemma {:induction false} WinnerIsStored(index: Index, ops: seq<Op>, id: string)
    ensures var after := WriteAll(index, ops); var w := Winner(ops, id);
      if w.Some? && (id in index ==> Version(w.value) >= index[id].version)
      then id in after && after[id] == EntryOf(w.value)
      else (id in after <==> id in index) && (id in index ==> after[id] == index[id])
  {
    if ops != [] {
      WinnerIsStored(index, ops[..|ops| - 1], id);
    }
  }

  /** The winner of a sequence that ends in all of `ops` is the winner of `ops`. */
  lemma {:induction false} WinnerOfSuffix(before: seq<Op>, ops: seq<Op>, id: string)
    ensures var w := Winner(ops, id); var all := Winner(before + ops, id); var b := Winner(before, id);
      all == if w.Some? && (b.None? || Version(w.value) >= Version(b.value)) then w else b
  {
    if ops == [] {
      assert before + ops == before;
    } else {
      var front, last := ops[..|ops| - 1], ops[|ops| - 1];
      assert ops == front + [last] && before + ops == (before + front) + [last];
      assert (before + ops)[..|before + ops| - 1] == before + front;
      WinnerOfSuffix(before, front, id);
    }
  }

  /** Writes repeated before a complete run of the batch leave no trace, whatever they overwrote. */
  lemma RepeatsLeaveNoTrace(index: Index, repeats: seq<Op>, ops: seq<Op>)
    requires forall op <- repeats :: op in ops
    ensures WriteAll(index, repeats + ops) == WriteAll(index, ops)
  {
    var a, b := WriteAll(index, repeats + ops), WriteAll(index, ops);
    forall id: string ensures (id in a <==> id in b) && (id in a ==> a[id] == b[id]) {
      WinnerIsStored(index, repeats + ops, id);
      WinnerIsStored(index, ops, id);
      WinnerOfSuffix(repeats, ops, id);
      var r, w := Winner(repeats, id), Winner(ops, id);
      if r.Some? { assert r.value in ops; }
    }
    assert a.Keys == b.Keys;
  }

  /** Everything a client that retries the whole batch has landed in the attempts so far. */
  function AttemptsLanded(index: Index, ops: seq<Op>, nets: seq<nat -> Delivery>): seq<Op>
    decreases |nets|
  {
    if nets == [] then []
    else
      var first := Landed(index, ops, nets[0]);
      first + AttemptsLanded(RunBatch(index, ops, nets[0], 0).index, ops, nets[1..])
  }

  function RetryBatch(index: Index, ops: seq<Op>, nets: seq<nat -> Delivery>): Index
    decreases |nets|
  {
    if nets == [] then index else RetryBatch(RunBatch(index, ops, nets[0], 0).index, ops, nets[1..])
  }

  lemma {:induction false} AttemptsAreWrites(index: Index, ops: seq<Op>, nets: seq<nat -> Delivery>)
    requires forall k, i: nat :: 0 <= k < |nets| ==> Honest(nets[k](i))
    ensures RetryBatch(index, ops, nets) == WriteAll(index, AttemptsLanded(index, ops, nets))
    ensures forall op <- AttemptsLanded(index, ops, nets) :: op in ops
    decreases |nets|
  {
    if nets != [] {
      BatchWritesAPrefix(index, ops, nets[0]);
      var next := RunBatch(index, ops, nets[0], 0).index;
      AttemptsAreWrites(next, ops, nets[1..]);
      WriteAllAppend(index, Landed(index, ops, nets[0]), AttemptsLanded(next, ops, nets[1..]));
    }
  }

  /**
   * A batch stopped by errors any number of times, each time anywhere and possibly after the write it
   * reports as failed, and finally run to the end, leaves the index of one uninterrupted run, as long
   * as no request of an earlier attempt reaches the store once more.
   */
  lemma BatchRetrySafe(index: Index, ops: seq<Op>, failed: seq<nat -> Delivery>, final: nat -> Delivery)
    requires forall k, i: nat :: 0 <= k < |failed| ==> Honest(failed[k](i))
    requires forall i: nat :: Honest(final(i))
    requires RunBatch(RetryBatch(index, ops, failed), ops, final, 0).error == None
    ensures RunBatch(RetryBatch(index, ops, failed), ops, final, 0).index
      == RunBatch(index, ops, i => Answered, 0).index
    ensures RunBatch(index, ops, i => Answered, 0).error == None
  {
    var repeats := AttemptsLanded(index, ops, failed);
    AttemptsAreWrites(index, ops, failed);
    BatchWritesAPrefix(RetryBatch(index, ops, failed), ops, final);
    WriteAllAppend(index, repeats, ops);
    RepeatsLeaveNoTrace(index, repeats, ops);
    AllAnswered(index, ops, i => Answered, 0);
    BatchWritesAPrefix(index, ops, i => Answered);
  }

  lemma {:induction false} AllAnswered(index: Index, ops: seq<Op>, net: nat -> Delivery, i: nat)
    requires i <= |ops| && forall k: nat :: net(k).Answered?
    ensures RunBatch(index, ops, net, i).error == None
    decreases |ops| - i
  {
    if i < |ops| {
      GoingOnMeansDecided(index, ops[i], net(i));
      AllAnswered(AfterDelivery(index, ops[i], net(i)), ops, net, i + 1);
    }
  }

  lemma {:induction false} BatchErrors(index: Index, ops: seq<Op>, net: nat -> Delivery, i: nat)
    requires i <= |ops|
    ensures RunBatch(index, ops, net, i).error != Some(InvalidArgument)
    decreases |ops| - i
  {
    if i < |ops| && Reaction(ops[i], ReplyTo(index, ops[i], net(i))) == None {
      BatchErrors(AfterDelivery(index, ops[i], net(i)), ops, net, i + 1);
    }
  }

  /** A version at least this large is recorded under the id. */
  predicate RecordedAt(index: Index, id: string, version: int) { id in index && index[id].version >= version }

  /** Every write of a sequence is recorded in the end, at its own version or a larger one. */
  lemma AllRecorded(index: Index, ops: seq<Op>)
    ensures forall op <- ops :: RecordedAt(WriteAll(index, ops), Key(op), Version(op))
  {
    forall op <- ops ensures RecordedAt(WriteAll(index, ops), Key(op), Version(op)) {
      WinnerIsStored(index, ops, Key(op));
    }
  }

  /**
   * A batch call writes its first `n` operations in order, all of them when it reports no error, which it
   * does when every request is answered.
   */
  lemma BatchExactly(index: Index, ops: seq<Op>, net: nat -> Delivery) returns (n: nat)
    requires forall i: nat :: Honest(net(i))
    ensures var b := RunBatch(index, ops, net, 0);
      && n <= |ops| && b.index == WriteAll(index, ops[..n]) && b.error != Some(InvalidArgument)
      && (b.error == None ==> n == |ops|)
      && (b.error == None ==> forall k :: 0 <= k < |ops| ==> RecordedAt(b.index, Key(ops[k]), Version(ops[k])))
      && ((forall i: nat :: net(i) == Answered) ==> b.error == None)
  {
    hide RunBatch, WriteAll, Landed;
    BatchErrors(index, ops, net, 0);
    BatchWritesAPrefix(index, ops, net);
    n := |Landed(index, ops, net)|;
    assert Landed(index, ops, net) == ops[..n];
    if forall i: nat :: net(i) == Answered { AllAnswered(index, ops, net, 0); }
    AllRecorded(index, ops);
    assert forall k :: 0 <= k < |ops| ==> ops[k] in ops;
  }

  /** A 404 from something that recorded no tombstone is taken as success, and an older upsert then comes back. */
  lemma UnrecordedDeleteResurrects(document: Document, version: int)
    requires document.id == CanonicalID(document.source) && 0 < document.sourceVersion < version
    ensures var op := Delete(document.source, version); var d := Refused(404, false);
      Reaction(op, ReplyTo(map[], op, d)) == None && !Honest(d) &&
      HasLive(Write(AfterDelivery(map[], op, d), Upsert(document)), document.id)
  {
  }
}

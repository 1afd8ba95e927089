/** The event consumer: at-least-once delivery, the inbox in front of the index writes, and what the inbox may skip. */
module Consumer {
  import opened Results
  import opened Documents
  import opened Store
  import opened SearchStore
  import opened SearchService
  import opened Projection

  const UPSERTED := "platform.search.document.upserted.v1"
  const DELETED := "platform.search.document.deleted.v1"

  /** A payload read as one message type: unreadable, or a message whose document may be missing. */
  datatype Decoded<+T> = Garbage | Message(document: Option<T>)

  datatype Payload = Payload(asUpsert: Decoded<Document>, asDelete: Decoded<DocumentKey>)

  datatype Envelope = Envelope(schemaVersion: int, eventId: string, eventType: string, tenantId: string,
    payload: Payload)

  // ---------------------------------------------------------------- what an event means

  /** The one index operation an event stands for; none when the consumer has to reject it. */
  function EventOp(e: Envelope): Option<Op> {
    if e.schemaVersion != 1 then None
    else if e.eventType == UPSERTED && e.payload.asUpsert.Message? && Sound(e.payload.asUpsert.document)
      && e.payload.asUpsert.document.value.source.tenantId == e.tenantId
    then Some(Op.Upsert(Canonical(e.payload.asUpsert.document.value)))
    else if e.eventType == DELETED && e.payload.asDelete.Message? && SoundKey(e.payload.asDelete.document)
      && e.payload.asDelete.document.value.source.tenantId == e.tenantId
    then
      var k := e.payload.asDelete.document.value;
      Some(Op.Delete(k.source, k.sourceVersion))
    else None
  }

  /** Delivering an event without the inbox: an accepted one is one write request, a rejected one is an error. */
  function Apply(index: Index, e: Envelope, d: Delivery): Index {
    match EventOp(e)
    case None => index
    case Some(op) => AfterDelivery(index, op, d)
  }

  predicate Succeeds(index: Index, e: Envelope, d: Delivery) {
    EventOp(e).Some? && Reaction(EventOp(e).value, ReplyTo(index, EventOp(e).value, d)) == None
  }

  datatype View = View(index: Index, completed: set<string>)

  /**
   * Delivering an event through the inbox, which records it when the handler succeeded and the
   * transaction committed.
   */
  function Handle(s: View, e: Envelope, d: Delivery, commits: bool): View {
    if e.schemaVersion != 1 || e.eventId in s.completed then s
    else
      var recorded := Succeeds(s.index, e, d) && commits;
      View(Apply(s.index, e, d), if recorded then s.completed + {e.eventId} else s.completed)
  }

  // ---------------------------------------------------------------- what an event does

  /** A readable upsert event with a document of the envelope's own tenant that validation admits. */
  predicate CarriesDocument(e: Envelope, d: Document) {
    && e.schemaVersion == 1 && e.eventType == "platform.search.document.upserted.v1"
    && e.payload.asUpsert == Message(Some(d)) && d.source.tenantId == e.tenantId && Acceptable(d)
  }

  /** A readable delete event with a complete key of the envelope's own tenant. */
  predicate CarriesKey(e: Envelope, k: DocumentKey) {
    && e.schemaVersion == 1 && e.eventType == "platform.search.document.deleted.v1"
    && e.payload.asDelete == Message(Some(k)) && k.source.tenantId == e.tenantId
    && NoEmptyPart(k.source) && k.sourceVersion > 0
  }

  ghost predicate Usable(e: Envelope) { (exists d :: CarriesDocument(e, d)) || (exists k :: CarriesKey(e, k)) }

  /** `after` is `before` with this entry under the id, unless a newer one is there already. */
  predicate Puts(before: Index, id: string, entry: Entry, after: Index) {
    after == if id in before && before[id].version > entry.version then before else before[id := entry]
  }

  function LiveEntry(d: Document): Entry { Entry(d.sourceVersion, Live(d.(id := CanonicalID(d.source)))) }

  lemma DocumentMeans(index: Index, e: Envelope, doc: Document)
    requires CarriesDocument(e, doc)
    ensures EventOp(e).Some?
    ensures Puts(index, CanonicalID(doc.source), LiveEntry(doc), Write(index, EventOp(e).value))
    ensures Succeeds(index, e, Answered)
  {
    hide CanonicalID, Acceptable;
    assert Sound(e.payload.asUpsert.document);
    GoingOnMeansDecided(index, EventOp(e).value, Answered);
  }

  lemma KeyMeans(index: Index, e: Envelope, k: DocumentKey)
    requires CarriesKey(e, k)
    ensures EventOp(e).Some?
    ensures Puts(index, CanonicalID(k.source), Entry(k.sourceVersion, Tombstone), Write(index, EventOp(e).value))
    ensures Succeeds(index, e, Answered)
  {
    hide CanonicalID, NoEmptyPart;
    assert SoundKey(e.payload.asDelete.document);
    GoingOnMeansDecided(index, EventOp(e).value, Answered);
  }

  /** The consumer takes exactly the usable events. */
  lemma UsableExactly(e: Envelope)
    ensures EventOp(e).Some? <==> Usable(e)
  {
    hide CanonicalID, Acceptable, NoEmptyPart;
    if d :| CarriesDocument(e, d) { DocumentMeans(map[], e, d); }
    if k :| CarriesKey(e, k) { KeyMeans(map[], e, k); }
    if EventOp(e).Some? {
      if e.eventType == UPSERTED {
        assert CarriesDocument(e, e.payload.asUpsert.document.value);
      } else {
        assert CarriesKey(e, e.payload.asDelete.document.value);
      }
    }
  }

  /**
   * An answered upsert event that is not recorded yet leaves its document live under the canonical id, at
   * its version or behind a newer entry; it succeeds, and is recorded if the transaction commits.
   */
  lemma DocumentIsWritten(s: View, e: Envelope, doc: Document, commits: bool)
    requires CarriesDocument(e, doc) && e.eventId !in s.completed
    ensures var t := Handle(s, e, Answered, commits); var id := CanonicalID(doc.source);
      && Puts(s.index, id, Entry(doc.sourceVersion, Live(doc.(id := id))), t.index)
      && RecordedAt(t.index, id, doc.sourceVersion)
      && t.completed == s.completed + (if commits then {e.eventId} else {})
      && Succeeds(s.index, e, Answered)
  {
    hide CanonicalID, Acceptable, EventOp, Write, Succeeds;
    DocumentMeans(s.index, e, doc);
  }

  /** An answered delete event that is not recorded yet leaves a tombstone of its version, or a newer entry. */
  lemma KeyIsDeleted(s: View, e: Envelope, k: DocumentKey, commits: bool)
    requires CarriesKey(e, k) && e.eventId !in s.completed
    ensures var t := Handle(s, e, Answered, commits); var id := CanonicalID(k.source);
      && Puts(s.index, id, Entry(k.sourceVersion, Tombstone), t.index)
      && RecordedAt(t.index, id, k.sourceVersion)
      && t.completed == s.completed + (if commits then {e.eventId} else {})
      && Succeeds(s.index, e, Answered)
  {
    hide CanonicalID, NoEmptyPart, EventOp, Write, Succeeds;
    KeyMeans(s.index, e, k);
  }

  /**
   * Whatever becomes of the request: an event changes the index exactly as its answered write would or not
   * at all, it succeeds exactly when it is usable and answered, and it is recorded exactly when it succeeds
   * and the transaction commits. A recorded or an unusable one changes nothing.
   */
  lemma HandledExactly(s: View, e: Envelope, d: Delivery, commits: bool)
    requires Honest(d)
    ensures var t := Handle(s, e, d, commits);
      && (Succeeds(s.index, e, d) <==> Usable(e) && d == Answered)
      && (e.eventId in s.completed || !Usable(e) ==> t == s)
      && (t.index == if Lands(d) then Handle(s, e, Answered, commits).index else s.index)
      && (t.completed == if e.eventId !in s.completed && Usable(e) && d == Answered && commits
                         then s.completed + {e.eventId} else s.completed)
  {
    UsableExactly(e);
    if EventOp(e).Some? { GoingOnMeansDecided(s.index, EventOp(e).value, d); }
    assert EventOp(e).Some? ==> e.schemaVersion == 1;
    hide Usable, EventOp, Reaction, ReplyTo, Write;
  }

  /** What the handler does with an event, without the inbox. */
  lemma AppliedExactly(index: Index, e: Envelope, d: Delivery)
    ensures Honest(d) ==> (Succeeds(index, e, d) <==> Usable(e) && d == Answered)
    ensures !Usable(e) ==> Apply(index, e, d) == index && !Succeeds(index, e, d)
    ensures forall doc :: CarriesDocument(e, doc) && d == Answered ==>
      Puts(index, CanonicalID(doc.source), LiveEntry(doc), Apply(index, e, d))
    ensures forall k :: CarriesKey(e, k) && d == Answered ==>
      Puts(index, CanonicalID(k.source), Entry(k.sourceVersion, Tombstone), Apply(index, e, d))
  {
    UsableExactly(e);
    if EventOp(e).Some? && Honest(d) { GoingOnMeansDecided(index, EventOp(e).value, d); }
    hide Usable, EventOp, Reaction, ReplyTo, Write, CarriesDocument, CarriesKey, Puts;
    forall doc | CarriesDocument(e, doc) && d == Answered
      ensures Puts(index, CanonicalID(doc.source), LiveEntry(doc), Apply(index, e, d))
    {
      DocumentMeans(index, e, doc);
    }
    forall k | CarriesKey(e, k) && d == Answered
      ensures Puts(index, CanonicalID(k.source), Entry(k.sourceVersion, Tombstone), Apply(index, e, d))
    {
      KeyMeans(index, e, k);
    }
  }

  /** The one document of an upsert event, sent as a batch of one. */
  lemma DocumentAlone(index: Index, e: Envelope, document: Option<Document>, d: Delivery)
    requires e.schemaVersion == 1 && e.eventType == UPSERTED && e.payload.asUpsert == Message(document)
    requires document.Some? && document.value.source.tenantId == e.tenantId
    ensures var b := UpsertOutcome(index, [document], i => d);
      b.index == Apply(index, e, d) && (b.error == None <==> Succeeds(index, e, d))
  {
    if Sound(document) {
      assert Upserts(Cleared([document])) == [EventOp(e).value];
      OneItem(index, EventOp(e).value, d);
    } else {
      assert !Sound([document][0]);
    }
  }

  lemma KeyAlone(index: Index, e: Envelope, key: Option<DocumentKey>, d: Delivery)
    requires e.schemaVersion == 1 && e.eventType == DELETED && e.payload.asDelete == Message(key)
    requires key.Some? && key.value.source.tenantId == e.tenantId
    ensures var b := DeleteOutcome(index, [key], i => d);
      b.index == Apply(index, e, d) && (b.error == None <==> Succeeds(index, e, d))
  {
    assert UPSERTED[25] != DELETED[25];
    if SoundKey(key) {
      assert Deletes(Plain([key])) == [EventOp(e).value];
      OneItem(index, EventOp(e).value, d);
    } else {
      assert !SoundKey([key][0]);
    }
  }

  lemma OneItem(index: Index, op: Op, d: Delivery)
    ensures var b := RunBatch(index, [op], i => d, 0);
      b.index == AfterDelivery(index, op, d) && b.error == Reaction(op, ReplyTo(index, op, d))
  {
    var after := AfterDelivery(index, op, d);
    assert RunBatch(after, [op], i => d, 1) == Batch(after, None, 1);
  }

  class EventConsumer {
    const service: Service
    /** The event ids the inbox has recorded as handled. */
    var completed: set<string>

    constructor (service: Service)
      ensures this.service == service && completed == {}
    {
      this.service, completed := service, {};
    }

    method ApplySearchEvent(e: Envelope, d: Delivery) returns (err: Option<Error>)
      requires e.schemaVersion == 1
      modifies service.engine`index
      ensures service.engine.index == Apply(old(service.engine.index), e, d)
      ensures err == None <==> Succeeds(old(service.engine.index), e, d)
      ensures Honest(d) ==> (err == None <==> Usable(e) && d == Answered)
      ensures !Usable(e) ==> service.engine.index == old(service.engine.index)
      ensures forall doc :: CarriesDocument(e, doc) && d == Answered ==>
        Puts(old(service.engine.index), CanonicalID(doc.source), LiveEntry(doc), service.engine.index)
      ensures forall k :: CarriesKey(e, k) && d == Answered ==>
        Puts(old(service.engine.index), CanonicalID(k.source), Entry(k.sourceVersion, Tombstone), service.engine.index)
    {
      AppliedExactly(service.engine.index, e, d);
      if e.eventType == UPSERTED {
        if e.payload.asUpsert.Garbage? { return Some(Rejected); }
        var document := e.payload.asUpsert.document;
        if document.None? || e.tenantId != document.value.source.tenantId { return Some(Rejected); }
        var documents := new Option<Document>[1](_ => document);
        assert documents[..] == [document];
        DocumentAlone(service.engine.index, e, document, d);
        hide UpsertOutcome, Apply, Succeeds, Upserted, AllUpserted, Usable, CarriesDocument, CarriesKey, Puts;
        err := service.BatchUpsert(documents, i => d);
      } else if e.eventType == DELETED {
        if e.payload.asDelete.Garbage? { return Some(Rejected); }
        var key := e.payload.asDelete.document;
        if key.None? || e.tenantId != key.value.source.tenantId { return Some(Rejected); }
        KeyAlone(service.engine.index, e, key, d);
        hide DeleteOutcome, Apply, Succeeds, Deleted, AllDeleted, Usable, CarriesDocument, CarriesKey, Puts;
        err := service.BatchDelete([key], i => d);
      } else {
        return Some(Rejected);
      }
    }

    /** `commits` is whether the inbox transaction around a successful handler commits. */
    method Receive(e: Envelope, d: Delivery, commits: bool) returns (err: Option<Error>)
      modifies service.engine`index, this`completed
      ensures View(service.engine.index, completed) == Handle(old(View(service.engine.index, completed)), e, d, commits)
      ensures err == None <==> (e.schemaVersion == 1 &&
        (e.eventId in old(completed) || (Succeeds(old(service.engine.index), e, d) && commits)))
    {
      if e.schemaVersion != 1 { return Some(Rejected); }
      if e.eventId in completed { return None; }
      err := ApplySearchEvent(e, d);
      if err != None { return err; }
      if !commits { return Some(Unavailable); }
      completed := completed + {e.eventId};
    }

    /** The retention cleaner drops any recorded ids. */
    method Purge(ids: set<string>)
      modifies this`completed
      ensures completed == old(completed) - ids
    {
      completed := completed - ids;
    }
  }

  // ---------------------------------------------------------------- runs of the consumer

  /** A delivery, a purge of recorded ids, or a write of some other writer. */
  datatype Happening =
    | Deliver(event: Envelope, delivery: Delivery, commits: bool)
    | Purge(ids: set<string>)
    | Other(op: Op)

  function After(s: View, h: Happening): View {
    match h
    case Deliver(e, d, commits) => Handle(s, e, d, commits)
    case Purge(ids) => s.(completed := s.completed - ids)
    case Other(op) => s.(index := Write(s.index, op))
  }

  function WithInbox(s: View, run: seq<Happening>): View {
    if run == [] then s else After(WithInbox(s, run[..|run| - 1]), run[|run| - 1])
  }

  /** The same run with every delivered event applied and no inbox at all. */
  function Directly(index: Index, run: seq<Happening>): Index {
    if run == [] then index
    else
      var before := Directly(index, run[..|run| - 1]);
      match run[|run| - 1]
      case Deliver(e, d, _) => Apply(before, e, d)
      case Purge(_) => before
      case Other(op) => Write(before, op)
  }

  /**
   * All operations of the run are among `ops`, accepted events with one id have the effect that `named`
   * has for it, refusals are honest.
   */
  predicate Described(h: Happening, ops: set<Op>, named: map<string, Op>) {
    match h
    case Deliver(e, d, _) =>
      Honest(d) && (EventOp(e).Some? ==>
        EventOp(e).value in ops && e.eventId in named && SameEffect(named[e.eventId], EventOp(e).value))
    case Purge(_) => true
    case Other(op) => op in ops
  }

  /** Whatever the inbox has recorded is settled in the index. */
  predicate Recorded(s: View, ops: set<Op>, named: map<string, Op>) {
    && (forall id <- s.completed :: id in named && Settled(s.index, named[id]))
    && (forall id <- s.index :: FromSent(s.index, ops, id))
  }

  /** Writing again what is settled changes nothing, when no other operation shares its version. */
  lemma SettledIsStable(index: Index, ops: set<Op>, op: Op)
    requires op in ops && UniqueVersions(ops) && Settled(index, op)
    requires forall id <- index :: FromSent(index, ops, id)
    ensures Write(index, op) == index
  {
    assert FromSent(index, ops, Key(op));
  }

  lemma WriteKeepsRecord(s: View, ops: set<Op>, named: map<string, Op>, op: Op)
    requires Recorded(s, ops, named) && op in ops
    ensures Recorded(s.(index := Write(s.index, op)), ops, named)
    ensures Settled(Write(s.index, op), op)
  {
    var after := Write(s.index, op);
    forall id <- after ensures FromSent(after, ops, id) {
      if id in s.index && after[id] == s.index[id] {
        assert FromSent(s.index, ops, id);
      } else {
        assert op in ops && Key(op) == id && EntryOf(op) == after[id];
      }
    }
    forall id <- s.completed ensures Settled(after, named[id]) {
      assert Settled(s.index, named[id]);
    }
  }

  lemma HandleKeepsRecord(s: View, ops: set<Op>, named: map<string, Op>, e: Envelope, d: Delivery, commits: bool)
    requires Recorded(s, ops, named) && Described(Deliver(e, d, commits), ops, named)
    ensures Recorded(Handle(s, e, d, commits), ops, named)
  {
    if e.schemaVersion == 1 && e.eventId !in s.completed && EventOp(e).Some? {
      var op := EventOp(e).value;
      GoingOnMeansDecided(s.index, op, d);
      if Lands(d) { WriteKeepsRecord(s, ops, named, op); }
    }
  }

  /**
   * The inbox is invisible in the index: whatever it skips and whatever is purged in between, the
   * index is at all times the one that applying every delivered event would give.
   */
  lemma {:induction false} InboxTransparent(run: seq<Happening>, ops: set<Op>, named: map<string, Op>)
    requires UniqueVersions(ops) && forall h <- run :: Described(h, ops, named)
    ensures WithInbox(View(map[], {}), run).index == Directly(map[], run)
    ensures Recorded(WithInbox(View(map[], {}), run), ops, named)
  {
    if run != [] {
      var front, last := run[..|run| - 1], run[|run| - 1];
      assert run == front + [last];
      InboxTransparent(front, ops, named);
      var t := WithInbox(View(map[], {}), front);
      assert Described(last, ops, named);
      match last
      case Deliver(e, d, commits) =>
        HandleKeepsRecord(t, ops, named, e, d, commits);
        if e.eventId in t.completed && EventOp(e).Some? && Lands(d) {
          assert Settled(t.index, named[e.eventId]);
          SettledIsStable(t.index, ops, EventOp(e).value);
        }
      case Purge(_) =>
      case Other(op) => WriteKeepsRecord(t, ops, named, op);
    }
  }

  /**
   * Without unique versions the inbox shows: after a tie, a redelivery it skips would have written the
   * first event back.
   */
  lemma InboxVisibleOnTies(a: Envelope, b: Envelope)
    requires EventOp(a).Some? && EventOp(b).Some? && a.eventId != b.eventId
    requires Key(EventOp(a).value) == Key(EventOp(b).value) && Version(EventOp(a).value) == Version(EventOp(b).value)
    requires EntryOf(EventOp(a).value) != EntryOf(EventOp(b).value)
    ensures var run := [Deliver(a, Answered, true), Deliver(b, Answered, true), Deliver(a, Answered, true)];
      WithInbox(View(map[], {}), run).index != Directly(map[], run)
  {
    var da, db := Deliver(a, Answered, true), Deliver(b, Answered, true);
    var x, y := EventOp(a).value, EventOp(b).value;
    GoingOnMeansDecided(map[], x, Answered);
    var afterA := Write(map[], x);
    GoingOnMeansDecided(afterA, y, Answered);
    var start := View(map[], {});
    assert [da, db, da][..2] == [da, db] && [da, db][..1] == [da] && [da][..0] == [];
    assert WithInbox(start, []) == start && Directly(map[], []) == map[];
    assert WithInbox(start, [da]) == View(afterA, {a.eventId});
    assert Directly(map[], [da]) == afterA;
    hide EventOp, Write;
    assert WithInbox(start, [da, db]) == View(Write(afterA, y), {a.eventId} + {b.eventId});
    assert Directly(map[], [da, db]) == Write(afterA, y);
    assert WithInbox(start, [da, db, da]) == View(Write(afterA, y), {a.eventId} + {b.eventId});
    assert Directly(map[], [da, db, da]) == Write(Write(afterA, y), x);
    TieOverwrites(x, y);
  }

  lemma TieOverwrites(x: Op, y: Op)
    requires Key(x) == Key(y) && Version(x) == Version(y) && EntryOf(x) != EntryOf(y)
    ensures Write(Write(Write(map[], x), y), x) != Write(Write(map[], x), y)
  {
    assert Write(Write(map[], x), y)[Key(x)] == EntryOf(y);
    assert Write(Write(Write(map[], x), y), x)[Key(x)] == EntryOf(x);
  }

  /** A run that only delivers events of `events` and purges. */
  predicate Among(h: Happening, events: set<Envelope>) {
    match h
    case Deliver(e, d, _) => e in events && Honest(d)
    case Purge(_) => true
    case Other(_) => false
  }

  function OpsOf(events: set<Envelope>): set<Op> {
    set e <- events | EventOp(e).Some? :: EventOp(e).value
  }

  ghost predicate Transparent(events: set<Envelope>) {
    forall run: seq<Happening> | (forall h <- run :: Among(h, events)) ::
      WithInbox(View(map[], {}), run).index == Directly(map[], run)
  }

  /** Each id of an accepted event is bound to an operation with the effect of that event. */
  ghost predicate Binds(named: map<string, Op>, events: set<Envelope>) {
    forall e <- events | EventOp(e).Some? :: e.eventId in named && SameEffect(named[e.eventId], EventOp(e).value)
  }

  /** Accepted events with one id do the same to the index. */
  ghost predicate IdsNameOneEffect(events: set<Envelope>) {
    forall a <- events, b <- events ::
      a.eventId == b.eventId && EventOp(a).Some? && EventOp(b).Some? ==> SameEffect(EventOp(a).value, EventOp(b).value)
  }

  lemma Binding(events: set<Envelope>) returns (named: map<string, Op>)
    requires IdsNameOneEffect(events)
    ensures Binds(named, events)
  {
    hide EventOp, SameEffect;
    var accepted := set e <- events | EventOp(e).Some?;
    var ids := set e <- accepted :: e.eventId;
    named := map id <- ids :: (var e :| e in accepted && e.eventId == id; EventOp(e).value);
    forall e <- events | EventOp(e).Some?
      ensures e.eventId in named && SameEffect(named[e.eventId], EventOp(e).value)
    {
      assert e in accepted && e.eventId in ids;
    }
  }

  lemma AmongIsDescribed(h: Happening, events: set<Envelope>, named: map<string, Op>)
    requires Among(h, events) && Binds(named, events)
    ensures Described(h, OpsOf(events), named)
  {
    hide EventOp, SameEffect;
  }

  lemma UniqueIsTransparent(events: set<Envelope>)
    requires IdsNameOneEffect(events) && UniqueVersions(OpsOf(events))
    ensures Transparent(events)
  {
    hide EventOp, WithInbox, Directly, After, Described, Binds, OpsOf, UniqueVersions;
    var named := Binding(events);
    forall run: seq<Happening> | (forall h <- run :: Among(h, events))
      ensures WithInbox(View(map[], {}), run).index == Directly(map[], run)
    {
      forall h <- run ensures Described(h, OpsOf(events), named) { AmongIsDescribed(h, events, named); }
      InboxTransparent(run, OpsOf(events), named);
    }
  }

  /** Two events with one id and different effects: the inbox skips the second, which would have been written. */
  lemma InboxVisibleOnSharedId(a: Envelope, b: Envelope)
    requires EventOp(a).Some? && EventOp(b).Some? && a.eventId == b.eventId
    requires !SameEffect(EventOp(a).value, EventOp(b).value)
    requires Key(EventOp(a).value) == Key(EventOp(b).value) ==> Version(EventOp(b).value) >= Version(EventOp(a).value)
    ensures var run := [Deliver(a, Answered, true), Deliver(b, Answered, true)];
      WithInbox(View(map[], {}), run).index != Directly(map[], run)
  {
    var da, db := Deliver(a, Answered, true), Deliver(b, Answered, true);
    var x, y := EventOp(a).value, EventOp(b).value;
    GoingOnMeansDecided(map[], x, Answered);
    var start, afterA := View(map[], {}), Write(map[], x);
    assert [da, db][..1] == [da] && [da][..0] == [];
    assert WithInbox(start, []) == start && Directly(map[], []) == map[];
    assert WithInbox(start, [da]) == View(afterA, {a.eventId});
    assert Directly(map[], [da]) == afterA;
    assert Write(afterA, y)[Key(y)] == EntryOf(y);
    hide EventOp, Write;
    assert WithInbox(start, [da, db]) == View(afterA, {a.eventId});
    assert Directly(map[], [da, db]) == Write(afterA, y);
    SkippedShows(x, y);
  }

  lemma SkippedShows(x: Op, y: Op)
    requires !SameEffect(x, y) && (Key(x) == Key(y) ==> Version(y) >= Version(x))
    ensures Write(Write(map[], x), y) != Write(map[], x)
  {
    assert Write(Write(map[], x), y)[Key(y)] == EntryOf(y);
  }

  lemma TransparentNamesOneEffect(events: set<Envelope>)
    requires Transparent(events)
    ensures IdsNameOneEffect(events)
  {
    hide EventOp, WithInbox, Directly, After;
    forall a <- events, b <- events
      | a.eventId == b.eventId && EventOp(a).Some? && EventOp(b).Some?
        && !SameEffect(EventOp(a).value, EventOp(b).value)
      ensures false
    {
      assert forall h <- [Deliver(a, Answered, true), Deliver(b, Answered, true)] :: Among(h, events);
      assert forall h <- [Deliver(b, Answered, true), Deliver(a, Answered, true)] :: Among(h, events);
      if Version(EventOp(b).value) >= Version(EventOp(a).value) {
        InboxVisibleOnSharedId(a, b);
      } else {
        InboxVisibleOnSharedId(b, a);
      }
    }
  }

  lemma TransparentIsUnique(events: set<Envelope>)
    requires Transparent(events)
    ensures UniqueVersions(OpsOf(events))
  {
    hide EventOp, WithInbox, Directly, After;
    TransparentNamesOneEffect(events);
    var ops := OpsOf(events);
    forall x <- ops, y <- ops | Key(x) == Key(y) && Version(x) == Version(y) ensures EntryOf(x) == EntryOf(y) {
      if EntryOf(x) != EntryOf(y) {
        var a :| a in events && EventOp(a) == Some(x);
        var b :| b in events && EventOp(b) == Some(y);
        assert forall h <- [Deliver(a, Answered, true), Deliver(b, Answered, true), Deliver(a, Answered, true)] ::
          Among(h, events);
        InboxVisibleOnTies(a, b);
      }
    }
  }

  /**
   * The inbox is invisible in every run over some events exactly when accepted events with one id have
   * one effect and no two have different effects on one key under one version.
   */
  lemma InboxTransparentExactly(events: set<Envelope>)
    ensures Transparent(events) <==> IdsNameOneEffect(events) && UniqueVersions(OpsOf(events))
  {
    hide *;
    if IdsNameOneEffect(events) && UniqueVersions(OpsOf(events)) { UniqueIsTransparent(events); }
    if Transparent(events) {
      TransparentNamesOneEffect(events);
      TransparentIsUnique(events);
    }
  }

  /** An event of another schema, type or tenant, or without a usable document, leaves index and inbox as they are. */
  lemma RejectedChangesNothing(s: View, e: Envelope, d: Delivery, commits: bool)
    requires || e.schemaVersion != 1
             || (e.eventType != UPSERTED && e.eventType != DELETED)
             || (e.eventType == UPSERTED && (e.payload.asUpsert.Garbage? || e.payload.asUpsert.document.None? ||
                                             e.payload.asUpsert.document.value.source.tenantId != e.tenantId))
             || (e.eventType == DELETED && (e.payload.asDelete.Garbage? || e.payload.asDelete.document.None? ||
                                            e.payload.asDelete.document.value.source.tenantId != e.tenantId))
    ensures Handle(s, e, d, commits) == s && !Succeeds(s.index, e, d)
  {
  }

  // ---------------------------------------------------------------- consumer runs are projection runs

  /** The projection steps of one happening: an event that reaches the handler is a batch of one. */
  function Steps(s: View, h: Happening): seq<Step> {
    match h
    case Deliver(e, d, _) =>
      if EventOp(e).Some? && e.eventId !in s.completed then [Begin(0, [EventOp(e).value])] + Requests(0, i => d, 0, 1)
        else []
    case Purge(_) => []
    case Other(op) => [Begin(0, [op])] + Requests(0, i => Answered, 0, 1)
  }

  function AsRun(s: View, run: seq<Happening>): seq<Step> {
    if run == [] then []
    else AsRun(s, run[..|run| - 1]) + Steps(WithInbox(s, run[..|run| - 1]), run[|run| - 1])
  }

  lemma SingleStep(s: Projection.State, op: Op, d: Delivery)
    requires 0 !in s.workers && WellFormed(op) && Honest(d)
    ensures var t := Exec(s, [Begin(0, [op])] + Requests(0, i => d, 0, 1));
      t.index == AfterDelivery(s.index, op, d) && 0 !in t.workers
      && t.submitted == s.submitted + {op} && t.acked == s.acked + if d.Answered? then {op} else {}
  {
    hide Exec, Next, Requests;
    BatchIsARun(s, 0, [op], i => d);
    OneItem(s.index, op, d);
    DoneBound(s.index, [op], i => d, 0);
    GoingOnMeansDecided(s.index, op, d);
    assert SetOf([op]) == {op} && SetOf([]) == {};
    var done := RunBatch(s.index, [op], i => d, 0).done;
    if d.Answered? { assert [op][..done] == [op]; } else { assert [op][..done] == []; }
  }

  /** What the consumer takes from an event is an operation validation lets through. */
  lemma EventOpIsWellFormed(e: Envelope)
    requires EventOp(e).Some?
    ensures WellFormed(EventOp(e).value)
  {
    if EventOp(e).value.Upsert? { SameVisibility(e.payload.asUpsert.document.value); }
  }

  /**
   * The operation the store has decided about in this happening: an answered delivery, unless skipped,
   * or another write.
   */
  function DecidedBy(s: View, h: Happening): set<Op> {
    match h
    case Deliver(e, d, _) =>
      if EventOp(e).Some? && e.eventId !in s.completed && d.Answered? then {EventOp(e).value} else {}
    case Purge(_) => {}
    case Other(op) => {op}
  }

  /** All the run has decided, whether or not the inbox recorded it, and whether or not it was purged since. */
  function Decided(s: View, run: seq<Happening>): set<Op> {
    if run == [] then {}
    else Decided(s, run[..|run| - 1]) + DecidedBy(WithInbox(s, run[..|run| - 1]), run[|run| - 1])
  }

  /**
   * The projection is where the consumer is: same index, worker 0 free, decided operations
   * acknowledged, recorded ones decided.
   */
  ghost predicate Follows(t: Projection.State, s: View, decided: set<Op>, ops: set<Op>, named: map<string, Op>) {
    && t.index == s.index && 0 !in t.workers && t.submitted <= ops && t.acked == decided
    && forall id <- s.completed :: id in named && Covered(decided, named[id])
  }

  /** An operation with this effect is among those decided. */
  predicate Covered(decided: set<Op>, op: Op) { exists d <- decided :: SameEffect(d, op) }

  /** Other writers, too, send only what validation lets through. */
  predicate Lawful(h: Happening) { h.Other? ==> WellFormed(h.op) }

  lemma DeliveryFollows(t: Projection.State, s: View, decided: set<Op>, h: Happening, ops: set<Op>,
                        named: map<string, Op>)
    requires Follows(t, s, decided, ops, named) && Described(h, ops, named)
    requires h.Deliver? && EventOp(h.event).Some? && h.event.eventId !in s.completed
    ensures Follows(Exec(t, Steps(s, h)), After(s, h), decided + DecidedBy(s, h), ops, named)
  {
    hide Exec, Next, Requests, WellFormed;
    var op := EventOp(h.event).value;
    EventOpIsWellFormed(h.event);
    assert op in decided + {op};
    SingleStep(t, op, h.delivery);
    GoingOnMeansDecided(s.index, op, h.delivery);
    var u := Exec(t, Steps(s, h));
    assert u.submitted == t.submitted + {op};
  }

  lemma HappeningFollows(t: Projection.State, s: View, decided: set<Op>, h: Happening, ops: set<Op>,
                         named: map<string, Op>)
    requires Follows(t, s, decided, ops, named) && Described(h, ops, named) && Lawful(h)
    ensures Follows(Exec(t, Steps(s, h)), After(s, h), decided + DecidedBy(s, h), ops, named)
  {
    assert Exec(t, []) == t && decided + {} == decided;
    hide Exec, Next, Requests;
    match h
    case Deliver(e, d, commits) =>
      if EventOp(e).Some? && e.eventId !in s.completed { DeliveryFollows(t, s, decided, h, ops, named); }
    case Purge(_) =>
    case Other(op) => SingleStep(t, op, Answered);
  }

  /**
   * Whatever the consumer does is a run of the projection that acknowledges exactly what was decided,
   * recorded events included.
   */
  lemma {:induction false} ConsumerRunIsARun(run: seq<Happening>, ops: set<Op>, named: map<string, Op>)
    requires forall h <- run :: Described(h, ops, named) && Lawful(h)
    ensures var start := View(map[], {});
      Follows(Exec(EMPTY, AsRun(start, run)), WithInbox(start, run), Decided(start, run), ops, named)
  {
    if run == [] {
    } else {
      hide Exec, Next, Steps, After, DecidedBy;
      var start := View(map[], {});
      var front, last := run[..|run| - 1], run[|run| - 1];
      assert run == front + [last];
      ConsumerRunIsARun(front, ops, named);
      HappeningFollows(Exec(EMPTY, AsRun(start, front)), WithInbox(start, front), Decided(start, front), last, ops,
        named);
      ExecAppend(EMPTY, AsRun(start, front), Steps(WithInbox(start, front), last));
    }
  }

  /**
   * Once the store has decided about a largest-version operation of every key at some time, whatever was
   * skipped, left uncommitted or purged, the index holds the latest operation of every key.
   */
  lemma ConsumerConverges(run: seq<Happening>, ops: set<Op>, named: map<string, Op>)
    requires forall h <- run :: Described(h, ops, named) && Lawful(h)
    requires HasTops(Decided(View(map[], {}), run), ops) && TopsAgree(ops)
    ensures IsLatest(WithInbox(View(map[], {}), run).index, ops)
  {
    hide Exec, AsRun, WithInbox, Decided, IsLatest, TopsAgree, HasTops, WellFormed;
    var steps := AsRun(View(map[], {}), run);
    ConsumerRunIsARun(run, ops, named);
    Projection.RunKeeps(EMPTY, steps);
    var t := Exec(EMPTY, steps);
    assert t.acked <= t.submitted <= ops;
    TopsWithin(t.acked, t.submitted, ops, ops);
    TopsWithin(t.acked, t.acked, t.submitted, ops);
    LatestWithin(t.index, t.submitted, ops);
    Convergence(steps);
  }

  /** Recording implies deciding, and purging takes nothing back. */
  lemma RecordedIsDecided(run: seq<Happening>, ids: set<string>, ops: set<Op>, named: map<string, Op>)
    requires forall h <- run :: Described(h, ops, named) && Lawful(h)
    ensures var start := View(map[], {});
      && (forall id <- WithInbox(start, run).completed :: id in named && Covered(Decided(start, run), named[id]))
      && Decided(start, run + [Purge(ids)]) == Decided(start, run)
  {
    ConsumerRunIsARun(run, ops, named);
    assert (run + [Purge(ids)])[..|run|] == run;
  }

  /**
   * A purge costs nothing but the recorded ids: the index stays, every other id stays recorded, and a
   * usable event with a purged id is written, and recorded, like a first delivery.
   */
  lemma PurgedIsNew(s: View, run: seq<Happening>, ids: set<string>, e: Envelope, commits: bool)
    requires e.eventId in ids
    ensures var before, after := WithInbox(s, run), WithInbox(s, run + [Purge(ids)]);
      var again := WithInbox(s, run + [Purge(ids), Deliver(e, Answered, commits)]);
      && after.index == before.index
      && (forall id :: id in after.completed <==> id in before.completed && id !in ids)
      && (Usable(e) ==> (e.eventId in again.completed <==> commits))
      && (forall doc :: CarriesDocument(e, doc) ==>
            Puts(before.index, CanonicalID(doc.source), LiveEntry(doc), again.index))
      && (forall k :: CarriesKey(e, k) ==>
            Puts(before.index, CanonicalID(k.source), Entry(k.sourceVersion, Tombstone), again.index))
  {
    hide Apply, Succeeds, Usable, Puts, Acceptable, NoEmptyPart, CanonicalID, LiveEntry, EventOp;
    var purged := run + [Purge(ids)];
    var after := WithInbox(s, purged);
    var last := Deliver(e, Answered, commits);
    assert purged[..|run|] == run;
    assert (run + [Purge(ids), last])[..|purged|] == purged;
    HandledExactly(after, e, Answered, commits);
    AppliedExactly(after.index, e, Answered);
  }
}

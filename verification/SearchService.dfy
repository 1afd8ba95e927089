/** The application service: validation, application grants and scoping in front of the engine. */
module SearchService {
  import opened Results
  import opened Text
  import opened Ordered
  import opened Documents
  import opened Store
  import opened Query
  import opened SearchStore
  import Projection

  const MAX_APPLICATIONS := 100

  // ---------------------------------------------------------------- application grants

  /** The application service's answer: it may fail, and an application without a decision is not granted. */
  datatype AccessAnswer = Failed | Decisions(granted: map<string, bool>)

  type Checker = (string, seq<string>) -> AccessAnswer

  predicate Grant(granted: map<string, bool>, application: string) {
    application in granted && granted[application]
  }

  predicate AllGranted(granted: map<string, bool>, applications: seq<string>) {
    forall a <- applications :: Grant(granted, a)
  }

  lemma AllGrantedByIndex(granted: map<string, bool>, applications: seq<string>)
    ensures AllGranted(granted, applications) <==>
      forall k :: 0 <= k < |applications| ==> Grant(granted, applications[k])
  {
  }

  /** The requested applications with blanks cut away, each at its first occurrence. */
  function Applications(values: seq<string>): seq<string> { Dedup(Map(TrimSpace, values)) }

  predicate HasBlank(values: seq<string>) { "" in Map(TrimSpace, values) }

  lemma ApplicationsSnoc(values: seq<string>, value: string)
    ensures var so, a := Applications(values), TrimSpace(value);
      Applications(values + [value]) == if a in so then so else so + [a]
    ensures HasBlank(values + [value]) <==> HasBlank(values) || TrimSpace(value) == ""
  {
    hide TrimSpace;
    assert Map(TrimSpace, values + [value]) == Map(TrimSpace, values) + [TrimSpace(value)];
    DedupSnoc(Map(TrimSpace, values), TrimSpace(value));
  }

  lemma NoApplications()
    ensures Applications([]) == [] && !HasBlank([])
  {
  }

  lemma BlankStays(values: seq<string>, i: nat)
    requires i < |values| && TrimSpace(values[i]) == ""
    ensures HasBlank(values)
  {
    assert Map(TrimSpace, values)[i] == "";
  }

  /** The access decision for a list of requested applications. */
  function Authorized(check: Checker, tenantId: string, values: seq<string>): Result<seq<string>> {
    if |values| > MAX_APPLICATIONS || HasBlank(values) then Err(InvalidArgument)
    else
      var wanted := Applications(values);
      if wanted == [] then Ok([])
      else match check(TrimSpace(tenantId), wanted)
        case Failed => Err(Unavailable)
        case Decisions(granted) => if AllGranted(granted, wanted) then Ok(wanted) else Err(Forbidden)
  }

  /** The outcomes of the access decision, one by one. */
  lemma AuthorizedCases(check: Checker, tenantId: string, values: seq<string>)
    ensures |values| > MAX_APPLICATIONS || HasBlank(values) ==>
      Authorized(check, tenantId, values) == Err(InvalidArgument)
    ensures var wanted := Applications(values); |values| <= MAX_APPLICATIONS && !HasBlank(values) ==>
      Authorized(check, tenantId, values) ==
        if wanted == [] then Ok([])
        else if check(TrimSpace(tenantId), wanted).Failed? then Err(Unavailable)
        else if AllGranted(check(TrimSpace(tenantId), wanted).granted, wanted) then Ok(wanted) else Err(Forbidden)
  {
    hide TrimSpace, Applications, HasBlank, AllGranted;
  }

  /** Asking again for what was granted gives the same list: it is trimmed, without duplicates and granted. */
  lemma AuthorizedTwice(check: Checker, tenantId: string, values: seq<string>)
    requires Authorized(check, tenantId, values).Ok?
    ensures Authorized(check, tenantId, Authorized(check, tenantId, values).value)
      == Authorized(check, tenantId, values)
  {
    hide TrimSpace;
    var wanted := Authorized(check, tenantId, values).value;
    forall i | 0 <= i < |wanted| ensures TrimSpace(wanted[i]) == wanted[i] {
      var trimmed := Map(TrimSpace, values);
      assert wanted[i] in trimmed;
      var k :| 0 <= k < |trimmed| && trimmed[k] == wanted[i];
      TrimTwice(values[k]);
    }
    assert Map(TrimSpace, wanted) == wanted;
    DedupFixed(wanted);
  }

  lemma TrimTwice(s: string)
    ensures TrimSpace(TrimSpace(s)) == TrimSpace(s)
  {
  }

  /** What a granted list is: the trimmed request in first-occurrence order, at most 100 long, all of it granted. */
  lemma GrantedListExactly(check: Checker, tenantId: string, values: seq<string>)
    requires Authorized(check, tenantId, values).Ok?
    ensures var r := Authorized(check, tenantId, values).value; var trimmed := Map(TrimSpace, values);
      && Distinct(r) && |r| <= MAX_APPLICATIONS && "" !in r
      && (forall a :: a in r <==> a in trimmed)
      && (forall i, j :: 0 <= i < j < |r| ==> FirstIndex(trimmed, r[i]) < FirstIndex(trimmed, r[j]))
      && (r != [] ==> var answer := check(TrimSpace(tenantId), r);
          answer.Decisions? && AllGranted(answer.granted, r))
  {
    hide TrimSpace;
    var r := Authorized(check, tenantId, values).value;
    var trimmed := Map(TrimSpace, values);
    forall i, j | 0 <= i < j < |r| ensures FirstIndex(trimmed, r[i]) < FirstIndex(trimmed, r[j]) {
      DedupOrder(trimmed, i, j);
    }
  }

  // ---------------------------------------------------------------- requests

  /** A request as it is passed by reference: the service overwrites the application list and the page. */
  class SearchRequest {
    var tenantId: string
    var query: string
    var documentTypes: seq<string>
    var applicationIds: seq<string>
    var filters: map<string, Option<seq<string>>>
    var sort: Sort
    var page: uint32
    var pageSize: uint32
    var facetFields: seq<string>

    constructor (r: Request)
      ensures Value() == r
    {
      tenantId, query, documentTypes, applicationIds := r.tenantId, r.query, r.documentTypes, r.applicationIds;
      filters, sort, page, pageSize, facetFields := r.filters, r.sort, r.page, r.pageSize, r.facetFields;
    }

    function Value(): Request
      reads this
    {
      Request(tenantId, query, documentTypes, applicationIds, filters, sort, page, pageSize, facetFields)
    }
  }

  class SuggestRequest {
    var tenantId: string
    var prefix: string
    var documentTypes: seq<string>
    var applicationIds: seq<string>
    var limit: uint32

    constructor (s: SuggestQuery)
      ensures Value() == s
    {
      tenantId, prefix, documentTypes, applicationIds, limit :=
        s.tenantId, s.prefix, s.documentTypes, s.applicationIds, s.limit;
    }

    function Value(): SuggestQuery
      reads this
    {
      SuggestQuery(tenantId, prefix, documentTypes, applicationIds, limit)
    }
  }

  /** The page and page size a request is run with: 1 and 20 by default, at most 100 per page. */
  function Paged(r: Request): (p: Request)
    ensures p.page >= 1 && 1 <= p.pageSize <= 100
    ensures r.page >= 1 && 1 <= r.pageSize <= 100 ==> p == r
  {
    r.(page := if r.page == 0 then 1 else r.page,
       pageSize := if r.pageSize == 0 then 20 else if r.pageSize > 100 then 100 else r.pageSize)
  }

  function Limited(s: SuggestQuery): SuggestQuery {
    s.(limit := if s.limit == 0 then 10 else if s.limit > 50 then 50 else s.limit)
  }

  /** What a search that passes the checks runs with. */
  function Scoped(r: Request, applications: seq<string>): Request { Paged(r.(applicationIds := applications)) }

  // ---------------------------------------------------------------- outcomes

  function SearchOutcome(index: Index, check: Checker, r: Option<Request>, visibility: seq<string>, world: World,
      reply: Reply): Result<Response> {
    if r.None? || TrimSpace(r.value.tenantId) == "" then Err(InvalidArgument)
    else match Authorized(check, r.value.tenantId, r.value.applicationIds)
      case Err(e) => Err(e)
      case Ok(applications) =>
        SearchResult(index, Scoped(r.value, applications), Normalized(r.value.tenantId, visibility), world, reply)
  }

  function SuggestOutcome(index: Index, check: Checker, s: Option<SuggestQuery>, visibility: seq<string>, world: World,
      reply: Reply): Result<seq<Suggestion>> {
    if s.None? || TrimSpace(s.value.tenantId) == "" || TrimSpace(s.value.prefix) == "" then Err(InvalidArgument)
    else match Authorized(check, s.value.tenantId, s.value.applicationIds)
      case Err(e) => Err(e)
      case Ok(applications) =>
        var q := Limited(s.value.(applicationIds := applications));
        match SearchResult(index, AsRequest(q), Normalized(q.tenantId, visibility), world, reply)
        case Err(e) => Err(e)
        case Ok(response) => Ok(Map(AsSuggestion, response.hits))
  }

  function GetOutcome(index: Index, check: Checker, tenantId: string, id: string, visibility: seq<string>,
      world: World, reply: Reply): Result<Document> {
    if TrimSpace(tenantId) == "" || TrimSpace(id) == "" then Err(InvalidArgument)
    else match GetResult(index, tenantId, id, Normalized(tenantId, visibility), world, reply)
      case Err(e) => Err(e)
      case Ok(d) =>
        if d.applicationId == "" then Ok(d)
        else match Authorized(check, tenantId, [d.applicationId])
          case Err(e) => Err(e)
          case Ok(_) => Ok(d)
  }

  // ---------------------------------------------------------------- batches

  predicate Sound(d: Option<Document>) { d.Some? && Acceptable(d.value) }

  function Canonical(d: Document): Document { d.(id := CanonicalID(d.source)) }

  /** The index of the first document that validation rejects, or the length when there is none. */
  function FirstBad(documents: seq<Option<Document>>): (n: nat)
    ensures n <= |documents| && (forall k :: 0 <= k < n ==> Sound(documents[k]))
    ensures n < |documents| ==> !Sound(documents[n])
  {
    if documents == [] || !Sound(documents[0]) then 0 else 1 + FirstBad(documents[1..])
  }

  /** The batch after validation: every document before the first bad one has been given its canonical id. */
  function Renamed(documents: seq<Option<Document>>): (r: seq<Option<Document>>)
    ensures |r| == |documents|
  {
    var n := FirstBad(documents);
    seq(|documents|, k requires 0 <= k < |documents| =>
      if k < n then Some(Canonical(documents[k].value)) else documents[k])
  }

  predicate ValidBatch(documents: seq<Option<Document>>) {
    1 <= |documents| <= MAX_BATCH && forall k :: 0 <= k < |documents| ==> Sound(documents[k])
  }

  function Cleared(documents: seq<Option<Document>>): (r: seq<Document>)
    requires forall k :: 0 <= k < |documents| ==> Sound(documents[k])
    ensures |r| == |documents|
  {
    seq(|documents|, k requires 0 <= k < |documents| =>
      assert Sound(documents[k]); Canonical(documents[k].value))
  }

  function UpsertOutcome(index: Index, documents: seq<Option<Document>>, net: nat -> Delivery): Batch {
    if ValidBatch(documents) then RunBatch(index, Upserts(Cleared(documents)), net, 0)
    else Batch(index, Some(InvalidArgument), 0)
  }

  predicate SoundKey(k: Option<DocumentKey>) { k.Some? && CompleteKey(k.value.source, k.value.sourceVersion) }

  predicate ValidKeys(keys: seq<Option<DocumentKey>>) {
    1 <= |keys| <= MAX_BATCH && forall k :: 0 <= k < |keys| ==> SoundKey(keys[k])
  }

  function Plain(keys: seq<Option<DocumentKey>>): (r: seq<DocumentKey>)
    requires forall k :: 0 <= k < |keys| ==> SoundKey(keys[k])
    ensures |r| == |keys|
  {
    seq(|keys|, i requires 0 <= i < |keys| =>
      assert SoundKey(keys[i]); keys[i].value)
  }

  function DeleteOutcome(index: Index, keys: seq<Option<DocumentKey>>, net: nat -> Delivery): Batch {
    if ValidKeys(keys) then RunBatch(index, Deletes(Plain(keys)), net, 0)
    else Batch(index, Some(InvalidArgument), 0)
  }

  /**
   * What validation passes on is a batch the projection runs are made of: stored under canonical ids,
   * visible lawfully.
   */
  lemma ClearedIsBatch(documents: seq<Option<Document>>)
    requires ValidBatch(documents)
    ensures Projection.IsBatch(Upserts(Cleared(documents)))
  {
    var docs := Cleared(documents);
    forall k | 0 <= k < |docs| ensures Stored(docs[k]) {
      assert Sound(documents[k]);
      SameVisibility(documents[k].value);
    }
  }

  lemma SameVisibility(d: Document)
    requires ValidVisibility(d)
    ensures ValidVisibility(Canonical(d))
  {
    forall t <- d.visibilityTokens ensures ValidToken(Canonical(d), t) {
      assert ValidToken(d, t);
    }
  }

  lemma PlainIsBatch(keys: seq<Option<DocumentKey>>)
    requires ValidKeys(keys)
    ensures Projection.IsBatch(Deletes(Plain(keys)))
  {
    forall i | 0 <= i < |keys| ensures CompleteKey(Plain(keys)[i].source, Plain(keys)[i].sourceVersion) {
      assert SoundKey(keys[i]);
    }
  }

  /** One write for every document of the call, in order: the document under its canonical id. */
  predicate WritesOf(ops: seq<Op>, documents: seq<Option<Document>>) {
    |ops| == |documents| && forall k :: 0 <= k < |ops| ==>
      (documents[k].Some? && ops[k] == Op.Upsert(documents[k].value.(id := CanonicalID(documents[k].value.source))))
  }

  /** One deletion for every key of the call, in order. */
  predicate DeletesOf(ops: seq<Op>, keys: seq<Option<DocumentKey>>) {
    |ops| == |keys| && forall k :: 0 <= k < |ops| ==>
      (keys[k].Some? && ops[k] == Op.Delete(keys[k].value.source, keys[k].value.sourceVersion))
  }

  /** Every document of the call is recorded under its canonical id, at its own version or a larger one. */
  predicate AllUpserted(index: Index, documents: seq<Option<Document>>) {
    forall k :: 0 <= k < |documents| ==>
      (documents[k].Some?
       && RecordedAt(index, CanonicalID(documents[k].value.source), documents[k].value.sourceVersion))
  }

  predicate AllDeleted(index: Index, keys: seq<Option<DocumentKey>>) {
    forall k :: 0 <= k < |keys| ==>
      (keys[k].Some? && RecordedAt(index, CanonicalID(keys[k].value.source), keys[k].value.sourceVersion))
  }

  /** The first `n` of one write per document, in order, lead from one index to the other. */
  ghost predicate Upserted(before: Index, documents: seq<Option<Document>>, n: nat, after: Index) {
    exists ops :: WritesOf(ops, documents) && n <= |ops| && after == WriteAll(before, ops[..n])
  }

  ghost predicate Deleted(before: Index, keys: seq<Option<DocumentKey>>, n: nat, after: Index) {
    exists ops :: DeletesOf(ops, keys) && n <= |ops| && after == WriteAll(before, ops[..n])
  }

  /** The caller's document gets its canonical id exactly when it and all before it are acceptable. */
  lemma RenamedExactly(documents: seq<Option<Document>>, k: nat)
    requires k < |documents|
    ensures Renamed(documents)[k] ==
      if forall j :: 0 <= j <= k ==> documents[j].Some? && Acceptable(documents[j].value)
      then Some(documents[k].value.(id := CanonicalID(documents[k].value.source))) else documents[k]
  {
    hide Acceptable, CanonicalID;
    var n := FirstBad(documents);
    if k < n {
      forall j | 0 <= j <= k ensures documents[j].Some? && Acceptable(documents[j].value) {
        assert Sound(documents[j]);
      }
    }
  }

  /**
   * A batch call is refused, and changes nothing, exactly when it carries no document, more than 500 or an
   * unacceptable one. Otherwise it writes its documents in order under their canonical ids: all of them when
   * it reports no error, which it does when every request is answered, and the first ones when it does.
   */
  lemma UpsertsAllExactly(index: Index, documents: seq<Option<Document>>, net: nat -> Delivery)
    requires forall i: nat :: Honest(net(i))
    ensures var b := UpsertOutcome(index, documents, net);
      var accepted := 1 <= |documents| <= 500 &&
        forall k :: 0 <= k < |documents| ==> documents[k].Some? && Acceptable(documents[k].value);
      && (b.error == Some(InvalidArgument) <==> !accepted)
      && (!accepted ==> b.index == index)
      && (accepted ==> exists n :: Upserted(index, documents, n, b.index))
      && (accepted && (forall i: nat :: net(i) == Answered) ==> b.error == None)
      && (b.error == None ==> Upserted(index, documents, |documents|, b.index) && AllUpserted(b.index, documents))
  {
    if ValidBatch(documents) {
      var ops := Upserts(Cleared(documents));
      forall k | 0 <= k < |documents| ensures documents[k].Some? &&
        ops[k] == Op.Upsert(documents[k].value.(id := CanonicalID(documents[k].value.source)))
      {
        assert Sound(documents[k]);
      }
      hide Acceptable, CanonicalID, RunBatch, WriteAll, Honest;
      assert WritesOf(ops, documents);
      var n := BatchExactly(index, ops, net);
      assert Upserted(index, documents, n, RunBatch(index, ops, net, 0).index);
    } else {
      assert !(1 <= |documents| <= 500 && forall k :: 0 <= k < |documents| ==> Sound(documents[k]));
    }
  }

  /** The same for keys: refused exactly when one is missing or incomplete, otherwise deleted one after the other. */
  lemma DeletesAllExactly(index: Index, keys: seq<Option<DocumentKey>>, net: nat -> Delivery)
    requires forall i: nat :: Honest(net(i))
    ensures var b := DeleteOutcome(index, keys, net);
      var accepted := 1 <= |keys| <= 500 &&
        forall k :: 0 <= k < |keys| ==>
          (keys[k].Some? && NoEmptyPart(keys[k].value.source) && keys[k].value.sourceVersion > 0);
      && (b.error == Some(InvalidArgument) <==> !accepted)
      && (!accepted ==> b.index == index)
      && (accepted ==> exists n :: Deleted(index, keys, n, b.index))
      && (accepted && (forall i: nat :: net(i) == Answered) ==> b.error == None)
      && (b.error == None ==> Deleted(index, keys, |keys|, b.index) && AllDeleted(b.index, keys))
  {
    if ValidKeys(keys) {
      var ops := Deletes(Plain(keys));
      forall k | 0 <= k < |keys| ensures keys[k].Some? &&
        ops[k] == Op.Delete(keys[k].value.source, keys[k].value.sourceVersion)
        && NoEmptyPart(keys[k].value.source) && keys[k].value.sourceVersion > 0
      {
        assert SoundKey(keys[k]);
      }
      hide NoEmptyPart, CanonicalID, RunBatch, WriteAll, Honest;
      assert DeletesOf(ops, keys);
      var n := BatchExactly(index, ops, net);
      assert Deleted(index, keys, n, RunBatch(index, ops, net, 0).index);
    } else {
      assert !(1 <= |keys| <= 500 && forall k :: 0 <= k < |keys| ==> SoundKey(keys[k]));
    }
  }

  // ---------------------------------------------------------------- the service

  /** One more search was sent, and it lets through nothing but what these tokens may see and the request selects. */
  ghost predicate AskedOnce(before: seq<Body>, after: seq<Body>, request: Request, tokens: seq<string>) {
    |after| == |before| + 1 && before < after && Sends(after[|before|], request, tokens)
  }

  class Service {
    const engine: Engine
    const check: Checker

    constructor (engine: Engine, check: Checker)
      ensures this.engine == engine && this.check == check
    {
      this.engine, this.check := engine, check;
    }

    method AuthorizeApplications(tenantId: string, values: seq<string>) returns (r: Result<seq<string>>)
      ensures r == Authorized(check, tenantId, values)
    {
      hide TrimSpace, Applications, HasBlank, AllGranted, Authorized;
      AuthorizedCases(check, tenantId, values);
      if |values| > MAX_APPLICATIONS { return Err(InvalidArgument); }
      var result: seq<string>, seen: set<string> := [], {};
      NoApplications();
      assert values[..0] == [];
      for i := 0 to |values|
        invariant result == Applications(values[..i]) && (forall a :: a in seen <==> a in result)
        invariant !HasBlank(values[..i])
      {
        var applicationId := TrimSpace(values[i]);
        assert values[..i + 1] == values[..i] + [values[i]];
        ApplicationsSnoc(values[..i], values[i]);
        if applicationId == "" {
          BlankStays(values, i);
          return Err(InvalidArgument);
        }
        if applicationId in seen { continue; }
        seen := seen + {applicationId};
        result := result + [applicationId];
      }
      assert values[..|values|] == values;
      if |result| == 0 { return Ok(result); }
      var decisions := check(TrimSpace(tenantId), result);
      if decisions.Failed? { return Err(Unavailable); }
      AllGrantedByIndex(decisions.granted, result);
      for i := 0 to |result|
        invariant forall k :: 0 <= k < i ==> Grant(decisions.granted, result[k])
      {
        if !(result[i] in decisions.granted && decisions.granted[result[i]]) {
          assert !Grant(decisions.granted, result[i]);
          return Err(Forbidden);
        }
      }
      return Ok(result);
    }

    method NormalizePage(request: SearchRequest)
      modifies request`page, request`pageSize
      ensures request.Value() == Paged(old(request.Value()))
    {
      if request.page == 0 { request.page := 1; }
      if request.pageSize == 0 { request.pageSize := 20; }
      if request.pageSize > 100 { request.pageSize := 100; }
    }

    /** The engine is asked, and the request overwritten, only after every check has passed. */
    method Search(request: SearchRequest?, visibility: seq<string>, order: seq<string>, world: World, reply: Reply)
      returns (r: Result<Response>)
      requires request != null ==> forall field :: field in order <==> field in request.filters
      modifies engine`searches, (if request == null then {} else {request})
      ensures r == SearchOutcome(engine.index, check, if request == null then None
        else Some(old(request.Value())), visibility, world, reply)
      ensures engine.searches == old(engine.searches) <==>
        request == null || TrimSpace(old(request.tenantId)) == ""
          || Authorized(check, old(request.tenantId), old(request.applicationIds)).Err?
      ensures request != null && engine.searches == old(engine.searches) ==> request.Value() == old(request.Value())
      ensures request != null && engine.searches != old(engine.searches) ==>
        (request.Value() == Scoped(old(request.Value()),
          Authorized(check, old(request.tenantId), old(request.applicationIds)).value))
      ensures request != null && engine.searches != old(engine.searches) ==>
        AskedOnce(old(engine.searches), engine.searches, request.Value(), Normalized(request.tenantId, visibility))
    {
      hide TrimSpace, Authorized, Normalized, Sends, SearchResult;
      if request == null || TrimSpace(request.tenantId) == "" { return Err(InvalidArgument); }
      var applications := AuthorizeApplications(request.tenantId, request.applicationIds);
      if applications.Err? { return Err(applications.error); }
      request.applicationIds := applications.value;
      NormalizePage(request);
      var tokens := NormalizeVisibility(request.tenantId, visibility);
      r := engine.Search(request.Value(), tokens, order, world, reply);
    }

    method Suggest(request: SuggestRequest?, visibility: seq<string>, world: World, reply: Reply)
      returns (r: Result<seq<Suggestion>>)
      modifies engine`searches, (if request == null then {} else {request})
      ensures r == SuggestOutcome(engine.index, check, if request == null then None
        else Some(old(request.Value())), visibility, world, reply)
      ensures engine.searches == old(engine.searches) <==>
        request == null || TrimSpace(old(request.tenantId)) == "" || TrimSpace(old(request.prefix)) == "" ||
        Authorized(check, old(request.tenantId), old(request.applicationIds)).Err?
      ensures request != null && engine.searches == old(engine.searches) ==> request.Value() == old(request.Value())
      ensures request != null && engine.searches != old(engine.searches) ==>
        (request.Value() == Limited(old(request.Value()).(
           applicationIds := Authorized(check, old(request.tenantId), old(request.applicationIds)).value)))
      ensures request != null && engine.searches != old(engine.searches) ==>
        AskedOnce(old(engine.searches), engine.searches, AsRequest(request.Value()),
          Normalized(request.tenantId, visibility))
    {
      hide TrimSpace, Authorized, Normalized, Sends, SearchResult;
      if request == null || TrimSpace(request.tenantId) == "" || TrimSpace(request.prefix) == "" {
        return Err(InvalidArgument);
      }
      var applications := AuthorizeApplications(request.tenantId, request.applicationIds);
      if applications.Err? { return Err(applications.error); }
      request.applicationIds := applications.value;
      if request.limit == 0 { request.limit := 10; }
      if request.limit > 50 { request.limit := 50; }
      var tokens := NormalizeVisibility(request.tenantId, visibility);
      r := engine.Suggest(request.Value(), tokens, world, reply);
    }

    method Get(tenantId: string, id: string, visibility: seq<string>, world: World, reply: Reply)
      returns (r: Result<Document>)
      modifies engine`searches
      ensures r == GetOutcome(engine.index, check, tenantId, id, visibility, world, reply)
      ensures if TrimSpace(tenantId) == "" || TrimSpace(id) == "" then engine.searches == old(engine.searches)
        else AskedOnce(old(engine.searches), engine.searches, Lookup(tenantId, id), Normalized(tenantId, visibility))
    {
      if TrimSpace(tenantId) == "" || TrimSpace(id) == "" { return Err(InvalidArgument); }
      var tokens := NormalizeVisibility(tenantId, visibility);
      var document := engine.Get(tenantId, id, tokens, world, reply);
      if document.Err? { return document; }
      if document.value.applicationId != "" {
        var applications := AuthorizeApplications(tenantId, [document.value.applicationId]);
        if applications.Err? { return Err(applications.error); }
      }
      return document;
    }

    /** The ids are written into the caller's documents one by one, before a later document may be rejected. */
    method BatchUpsert(documents: array<Option<Document>>, net: nat -> Delivery) returns (err: Option<Error>)
      modifies documents, engine`index
      ensures var b := UpsertOutcome(old(engine.index), old(documents[..]), net);
        engine.index == b.index && err == b.error
      ensures (forall i: nat :: Honest(net(i))) && err == None ==>
        (Upserted(old(engine.index), old(documents[..]), documents.Length, engine.index)
         && AllUpserted(engine.index, old(documents[..])))
      ensures documents[..] == if 1 <= documents.Length <= MAX_BATCH then Renamed(old(documents[..]))
        else old(documents[..])
    {
      hide ValidVisibility, CompleteKey, CanonicalID, RunBatch, FirstBad, Upserted, AllUpserted, Honest;
      if documents.Length == 0 || documents.Length > MAX_BATCH { return Some(InvalidArgument); }
      ghost var was := documents[..];
      assert was == old(documents[..]);
      ghost var bad := FirstBad(was);
      for i := 0 to documents.Length
        invariant i <= bad && engine.index == old(engine.index)
        invariant forall k :: 0 <= k < i ==> documents[k] == Some(Canonical(was[k].value))
        invariant forall k :: i <= k < documents.Length ==> documents[k] == was[k]
      {
        var document := documents[i];
        if document.None? || !CompleteKey(document.value.source, document.value.sourceVersion) ||
           document.value.visibilityTokens == []
        {
          assert !Sound(was[i]) && bad == i && was[i] in was;
          assert documents[..] == Renamed(was);
          return Some(InvalidArgument);
        }
        var invalid := ValidateVisibility(document.value);
        if invalid != None {
          assert !Sound(was[i]) && bad == i && was[i] in was;
          assert documents[..] == Renamed(was);
          return invalid;
        }
        assert Sound(was[i]);
        documents[i] := Some(document.value.(id := CanonicalID(document.value.source)));
      }
      assert forall k :: 0 <= k < |was| ==> Sound(was[k]);
      assert documents[..] == Renamed(was);
      var named := documents[..];
      var batch := seq(|named|, k requires 0 <= k < |named| && named[k].Some? => named[k].value);
      assert batch == Cleared(was);
      err := engine.Upsert(batch, net);
      if forall i: nat :: Honest(net(i)) { UpsertsAllExactly(old(engine.index), was, net); }
    }

    method BatchDelete(keys: seq<Option<DocumentKey>>, net: nat -> Delivery) returns (err: Option<Error>)
      modifies engine`index
      ensures var b := DeleteOutcome(old(engine.index), keys, net); engine.index == b.index && err == b.error
      ensures (forall i: nat :: Honest(net(i))) && err == None ==>
        Deleted(old(engine.index), keys, |keys|, engine.index) && AllDeleted(engine.index, keys)
    {
      if |keys| == 0 || |keys| > MAX_BATCH { return Some(InvalidArgument); }
      for i := 0 to |keys|
        invariant forall k :: 0 <= k < i ==> SoundKey(keys[k])
      {
        if keys[i].None? || !CompleteKey(keys[i].value.source, keys[i].value.sourceVersion) {
          assert !SoundKey(keys[i]) && keys[i] in keys;
          return Some(InvalidArgument);
        }
      }
      err := engine.Delete(Plain(keys), net);
      if forall i: nat :: Honest(net(i)) { DeletesAllExactly(old(engine.index), keys, net); }
    }
  }
}

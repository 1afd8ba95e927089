/** What reads can return from any index the projection can reach. */
module ReadSafety {
  import opened Results
  import opened Text
  import opened Ordered
  import opened Documents
  import opened Store
  import opened Projection
  import opened Query
  import opened SearchStore
  import opened SearchService
  import opened Paging
  import Consumer

  ghost predicate Reachable(index: Index) {
    exists steps :: Exec(EMPTY, steps).index == index
  }

  /** Every batch call on a reachable index, whatever becomes of its requests, leads to a reachable index. */
  lemma BatchesStayReachable(index: Index, documents: seq<Option<Document>>, keys: seq<Option<DocumentKey>>,
      net: nat -> Delivery)
    requires Reachable(index) && forall i: nat :: Honest(net(i))
    ensures Reachable(UpsertOutcome(index, documents, net).index)
    ensures Reachable(DeleteOutcome(index, keys, net).index)
  {
    if ValidBatch(documents) {
      ClearedIsBatch(documents);
      RunStaysReachable(index, Upserts(Cleared(documents)), net);
    }
    if ValidKeys(keys) {
      PlainIsBatch(keys);
      RunStaysReachable(index, Deletes(Plain(keys)), net);
    }
  }

  /** A reachable index is reachable with worker 0 free: it may have crashed. */
  lemma FreeWorker(index: Index) returns (steps: seq<Step>)
    requires Reachable(index)
    ensures Exec(EMPTY, steps).index == index && 0 !in Exec(EMPTY, steps).workers
  {
    hide Exec;
    var before :| Exec(EMPTY, before).index == index;
    steps := before + [Crash(0)];
    ExecAppend(EMPTY, before, [Crash(0)]);
    ExecCons(Exec(EMPTY, before), Crash(0), []);
    assert [Crash(0)] + [] == [Crash(0)];
    NoSteps(Next(Exec(EMPTY, before), Crash(0)));
  }

  lemma RunStaysReachable(index: Index, ops: seq<Op>, net: nat -> Delivery)
    requires Reachable(index) && IsBatch(ops) && forall i: nat :: Honest(net(i))
    ensures Reachable(RunBatch(index, ops, net, 0).index)
  {
    hide Exec, Next, RunBatch, Requests, IsBatch, Honest;
    var steps := FreeWorker(index);
    var batch := [Begin(0, ops)] + Requests(0, net, 0, |ops|);
    BatchIsARun(Exec(EMPTY, steps), 0, ops, net);
    ExecAppend(EMPTY, steps, batch);
    assert Exec(EMPTY, steps + batch).index == RunBatch(index, ops, net, 0).index;
  }

  /** So does every run of the event consumer. */
  lemma ConsumerStaysReachable(run: seq<Consumer.Happening>, ops: set<Op>, named: map<string, Op>)
    requires forall h <- run :: Consumer.Described(h, ops, named) && Consumer.Lawful(h)
    ensures Reachable(Consumer.WithInbox(Consumer.View(map[], {}), run).index)
  {
    Consumer.ConsumerRunIsARun(run, ops, named);
  }

  /** A live document a caller with these tokens may see, as validation accepted it. */
  ghost predicate MaySee(index: Index, tenantId: string, tokens: seq<string>, d: Document) {
    && HasLive(index, d.id) && index[d.id].content.document == d
    && Stored(d) && InScope(tenantId, tokens, d)
    && (d.permissionCode != "" ==> exists t <- d.visibilityTokens :: t in tokens && t != Broad(tenantId))
  }

  /** Every live document in scope is one the caller may see; a protected one never through the tenant-wide token. */
  lemma ScopeIsSafe(index: Index, tenantId: string, tokens: seq<string>, id: string)
    requires Reachable(index) && HasLive(index, id) && InScope(tenantId, tokens, index[id].content.document)
    ensures MaySee(index, tenantId, tokens, index[id].content.document)
  {
    var steps :| Exec(EMPTY, steps).index == index;
    LiveIsStored(steps, id);
    var d := index[id].content.document;
    var t :| t in d.visibilityTokens && t in tokens;
    if d.permissionCode != "" { ProtectedIsNotBroad(d); }
  }

  lemma HitsAreSafe(index: Index, request: Request, tokens: seq<string>, world: World)
    requires Reachable(index)
    ensures forall d <- Hits(index, world.ranking, Wanted(request, tokens, world.text)) ::
      MaySee(index, request.tenantId, tokens, d) && Selected(request, d)
  {
    forall d <- Hits(index, world.ranking, Wanted(request, tokens, world.text))
      ensures MaySee(index, request.tenantId, tokens, d) && Selected(request, d)
    {
      var id :| id in world.ranking && HasLive(index, id) && index[id].content.document == d;
      assert Wanted(request, tokens, world.text)(d);
      ScopeIsSafe(index, request.tenantId, tokens, id);
    }
  }

  /**
   * The full list a search pages through: the live documents in scope that the request and its text
   * select, no more and no fewer.
   */
  lemma FoundExactly(index: Index, request: Request, tokens: seq<string>, world: World, d: Document)
    requires Ranks(world.ranking, index)
    ensures d in Hits(index, world.ranking, Wanted(request, tokens, world.text)) <==>
      && (exists id <- index :: HasLive(index, id) && index[id].content.document == d)
      && InScope(request.tenantId, tokens, d) && Selected(request, d) && TextMatches(request, world.text, d)
  {
    var wanted := Wanted(request, tokens, world.text);
    if id :| id in index && HasLive(index, id) && index[id].content.document == d && wanted(d) {
      HitsComplete(index, world.ranking, wanted, id);
    }
    if d in Hits(index, world.ranking, wanted) {
      var id :| id in world.ranking && HasLive(index, id) && index[id].content.document == d;
      assert id in index && wanted(d);
    }
  }

  /** A page, its total and its facets hold nothing but what the caller may see. */
  lemma AnswerIsSafe(index: Index, request: Request, tokens: seq<string>, world: World)
    requires Reachable(index)
    ensures var response := Answer(index, request, tokens, world);
      && (forall d <- response.hits :: MaySee(index, request.tenantId, tokens, d))
      && (forall field <- response.facets :: forall v <- response.facets[field] ::
            exists d :: MaySee(index, request.tenantId, tokens, d) && v in FieldValues(d, field))
      && response.total >= |response.hits| && |response.hits| <= request.pageSize
  {
    HitsAreSafe(index, request, tokens, world);
    hide Hits, Wanted, MaySee, FieldValues, Offset, Selected;
    var found := Hits(index, world.ranking, Wanted(request, tokens, world.text));
    var response := Answer(index, request, tokens, world);
    forall field <- response.facets, v <- response.facets[field]
      ensures exists d :: MaySee(index, request.tenantId, tokens, d) && v in FieldValues(d, field)
    {
      assert v in Values(found, field);
      var d :| d in found && v in FieldValues(d, field);
      assert MaySee(index, request.tenantId, tokens, d);
    }
  }

  /**
   * Whatever text, filters, facets, sort and page a search asks for, every hit and every facet value
   * comes from a document of the requested tenant that shares one of the caller's normalised tokens.
   */
  lemma SearchIsSafe(index: Index, check: Checker, r: Request, visibility: seq<string>, world: World, reply: Reply)
    requires Reachable(index)
    ensures var outcome := SearchOutcome(index, check, Some(r), visibility, world, reply);
      var tokens := Normalized(r.tenantId, visibility);
      outcome.Ok? ==>
        && (forall d <- outcome.value.hits :: MaySee(index, r.tenantId, tokens, d))
        && (forall field <- outcome.value.facets :: forall v <- outcome.value.facets[field] ::
              exists d :: MaySee(index, r.tenantId, tokens, d) && v in FieldValues(d, field))
        && outcome.value.total >= |outcome.value.hits| && |outcome.value.hits| <= 100
  {
    hide Normalized, Authorized, Answer, MaySee, FieldValues, TrimSpace, Reachable;
    if SearchOutcome(index, check, Some(r), visibility, world, reply).Ok? {
      var scoped := Scoped(r, Authorized(check, r.tenantId, r.applicationIds).value);
      AnswerIsSafe(index, scoped, Normalized(r.tenantId, visibility), world);
    }
  }

  /** Every suggestion is drawn from a document the caller may see. */
  lemma SuggestIsSafe(index: Index, check: Checker, s: SuggestQuery, visibility: seq<string>, world: World,
                      reply: Reply)
    requires Reachable(index)
    ensures var outcome := SuggestOutcome(index, check, Some(s), visibility, world, reply);
      outcome.Ok? ==> forall item <- outcome.value ::
        exists d :: MaySee(index, s.tenantId, Normalized(s.tenantId, visibility), d) && item == AsSuggestion(d)
  {
    hide Normalized, Authorized, Answer, MaySee, TrimSpace, Reachable, AsSuggestion;
    var outcome := SuggestOutcome(index, check, Some(s), visibility, world, reply);
    if outcome.Ok? {
      var tokens := Normalized(s.tenantId, visibility);
      var q := Limited(s.(applicationIds := Authorized(check, s.tenantId, s.applicationIds).value));
      AnswerIsSafe(index, AsRequest(q), tokens, world);
      var hits := Answer(index, AsRequest(q), tokens, world).hits;
      assert outcome.value == Map(AsSuggestion, hits);
      forall item <- outcome.value
        ensures exists d :: MaySee(index, s.tenantId, tokens, d) && item == AsSuggestion(d)
      {
        var i :| 0 <= i < |hits| && outcome.value[i] == item;
        assert hits[i] in hits && item == AsSuggestion(hits[i]);
        assert MaySee(index, s.tenantId, tokens, hits[i]);
      }
    }
  }

  /** A caller whose only token is the tenant-wide one is never shown a document with a permission code. */
  lemma TenantWideCallerSeesNothingProtected(index: Index, tenantId: string, visibility: seq<string>, d: Document)
    requires forall v <- visibility :: TrimSpace(v) == "" || TrimSpace(v) == Broad(tenantId)
    requires MaySee(index, tenantId, Normalized(tenantId, visibility), d)
    ensures d.permissionCode == ""
  {
    if d.permissionCode != "" {
      var t :| t in d.visibilityTokens && t in Normalized(tenantId, visibility) && t != Broad(tenantId);
      NormalizedExactly(tenantId, visibility, t);
    }
  }

  // ---------------------------------------------------------------- lookup by id

  lemma LookupSelects(tenantId: string, id: string, d: Document)
    ensures Selected(Lookup(tenantId, id), d) <==> OneOf([id], d.id)
  {
    var r := Lookup(tenantId, id);
    assert Effective(r, "id");
    assert AnyOf([id], FieldValues(d, "id")) <==> OneOf([id], d.id);
    assert r.filters.Keys == {"id"};
    assert FilterHolds(r, "id", d) <==> OneOf([id], d.id);
  }

  /** The one document a lookup can find: the live one under that id, if the caller may see it. */
  predicate Visible(index: Index, tenantId: string, id: string, tokens: seq<string>) {
    HasLive(index, id) && InScope(tenantId, tokens, index[id].content.document)
  }

  lemma LookupFinds(index: Index, tenantId: string, id: string, tokens: seq<string>, world: World)
    requires Reachable(index) && Ranks(world.ranking, index)
    ensures var found := Hits(index, world.ranking, Wanted(Lookup(tenantId, id), tokens, world.text));
      if Visible(index, tenantId, id, tokens) then found != [] && found[0] == index[id].content.document
      else found == []
  {
    var request := Lookup(tenantId, id);
    var wanted := Wanted(request, tokens, world.text);
    var found := Hits(index, world.ranking, wanted);
    assert TrimSpace("") == "";
    hide TrimSpace, Hits;
    if Visible(index, tenantId, id, tokens) {
      var d := index[id].content.document;
      ScopeIsSafe(index, tenantId, tokens, id);
      NamedById(index, id);
      CanonicalShape(d.source);
      LookupSelects(tenantId, id, d);
      HitsComplete(index, world.ranking, wanted, id);
    }
    if found != [] {
      var d := found[0];
      assert d in found && wanted(d);
      LookupSelects(tenantId, id, d);
      var key :| key in world.ranking && HasLive(index, key) && index[key].content.document == d;
      NamedById(index, key);
      assert key == id;
    }
  }

  lemma NamedById(index: Index, id: string)
    requires Reachable(index) && HasLive(index, id)
    ensures index[id].content.document.id == id && Stored(index[id].content.document)
  {
    var steps :| Exec(EMPTY, steps).index == index;
    LiveIsStored(steps, id);
  }

  /**
   * A lookup that the store answers returns the live document stored under the requested id when the
   * caller may see it, and not-found exactly when there is no such document.
   */
  lemma LookupExactly(index: Index, tenantId: string, id: string, tokens: seq<string>, world: World, reply: Reply)
    requires Reachable(index) && Ranks(world.ranking, index) && StatusError(reply) == None
    ensures GetResult(index, tenantId, id, tokens, world, reply) ==
      if Visible(index, tenantId, id, tokens) then Ok(index[id].content.document) else Err(NotFound)
  {
    LookupFinds(index, tenantId, id, tokens, world);
    assert Offset(1, 1) == 0;
    hide Hits, Wanted, Offset;
  }

  /** The document's application, if it has one, is granted. */
  predicate Released(check: Checker, tenantId: string, d: Document) {
    d.applicationId != "" ==> Authorized(check, tenantId, [d.applicationId]).Ok?
  }

  /** The service's lookup: named, visible and with its application granted, or an error that says which failed. */
  lemma GetExactly(index: Index, check: Checker, tenantId: string, id: string, visibility: seq<string>, world: World,
      reply: Reply)
    requires Reachable(index) && Ranks(world.ranking, index) && StatusError(reply) == None
    ensures var r := GetOutcome(index, check, tenantId, id, visibility, world, reply);
      var visible := Visible(index, tenantId, id, Normalized(tenantId, visibility));
      && (TrimSpace(tenantId) == "" || TrimSpace(id) == "" ==> r == Err(InvalidArgument))
      && (TrimSpace(tenantId) != "" && TrimSpace(id) != "" ==>
            && (r == Err(NotFound) <==> !visible)
            && (r.Ok? <==> visible && Released(check, tenantId, index[id].content.document))
            && (r.Ok? ==> (r.value == index[id].content.document && r.value.id == id
                           && MaySee(index, tenantId, Normalized(tenantId, visibility), r.value))))
  {
    hide TrimSpace, Normalized;
    LookupExactly(index, tenantId, id, Normalized(tenantId, visibility), world, reply);
    if Visible(index, tenantId, id, Normalized(tenantId, visibility)) {
      ScopeIsSafe(index, tenantId, Normalized(tenantId, visibility), id);
      NamedById(index, id);
      OneApplication(check, tenantId, index[id].content.document.applicationId);
    }
  }

  lemma OneApplication(check: Checker, tenantId: string, application: string)
    ensures Authorized(check, tenantId, [application]) != Err(NotFound)
  {
    hide TrimSpace, Applications, HasBlank;
  }

  // ---------------------------------------------------------------- pages of a search

  lemma {:induction false} HitsAreDistinct(index: Index, ranking: seq<string>, accept: Document -> bool)
    requires Reachable(index) && Distinct(ranking)
    ensures Distinct(Hits(index, ranking, accept))
  {
    if ranking != [] {
      var front, last := ranking[..|ranking| - 1], ranking[|ranking| - 1];
      assert ranking == front + [last];
      HitsAreDistinct(index, front, accept);
      if HasLive(index, last) {
        NamedById(index, last);
        var earlier := Hits(index, front, accept);
        forall i | 0 <= i < |earlier| ensures earlier[i] != index[last].content.document {
          var d := earlier[i];
          assert d in earlier;
          var id :| id in front && HasLive(index, id) && index[id].content.document == d;
          NamedById(index, id);
        }
      }
    }
  }

  /** The hits of the answers to pages 1 to `pages` of one request, one page after the other. */
  function Served(index: Index, check: Checker, r: Request, visibility: seq<string>, world: World, reply: Reply,
                  pages: uint32): seq<Document> {
    if pages == 0 then []
    else
      Served(index, check, r, visibility, world, reply, pages - 1) +
      match SearchOutcome(index, check, Some(r.(page := pages)), visibility, world, reply)
      case Ok(response) => response.hits
      case Err(_) => []
  }

  /** What a search that passes the checks runs with, whatever page it asks for. */
  function RunAs(check: Checker, r: Request): Request
    requires Authorized(check, r.tenantId, r.applicationIds).Ok?
  {
    Scoped(r, Authorized(check, r.tenantId, r.applicationIds).value)
  }

  /** All documents a search is entitled to, in ranking order. */
  function AllWanted(index: Index, check: Checker, r: Request, visibility: seq<string>, world: World): seq<Document>
    requires Authorized(check, r.tenantId, r.applicationIds).Ok?
  {
    Hits(index, world.ranking, Wanted(RunAs(check, r), Normalized(r.tenantId, visibility), world.text))
  }

  /** The answer to page `page` is that window of the one list, and reports its length. */
  lemma PageIsWindow(index: Index, check: Checker, r: Request, visibility: seq<string>, world: World, reply: Reply,
      page: uint32)
    requires SearchOutcome(index, check, Some(r), visibility, world, reply).Ok? && page >= 1
    ensures var response := SearchOutcome(index, check, Some(r.(page := page)), visibility, world, reply);
      var all, size := AllWanted(index, check, r, visibility, world), Paged(r).pageSize;
      response.Ok? && response.value.hits == Window(all, Offset(page, size), size)
      && response.value.total == |all| && response.value.pageSize == size
  {
    hide Normalized, Authorized, Hits, TrimSpace, InScope, Selected, TextMatches, Offset, Window;
    var tokens := Normalized(r.tenantId, visibility);
    var asked, scoped := RunAs(check, r.(page := page)), RunAs(check, r);
    forall d: Document ensures Wanted(asked, tokens, world.text)(d) == Wanted(scoped, tokens, world.text)(d) {
      SameSelection(asked, scoped, tokens, world.text, d);
    }
    HitsSame(index, world.ranking, Wanted(asked, tokens, world.text), Wanted(scoped, tokens, world.text));
  }

  lemma SameSelection(a: Request, b: Request, tokens: seq<string>, text: (string, Document) -> bool, d: Document)
    requires a == b.(page := a.page)
    ensures Wanted(a, tokens, text)(d) == Wanted(b, tokens, text)(d)
  {
    assert forall field <- a.filters :: FilterHolds(a, field, d) == FilterHolds(b, field, d);
  }

  lemma {:induction false} ServedIsPages(
      index: Index, check: Checker, r: Request, visibility: seq<string>, world: World, reply: Reply, pages: uint32)
    requires SearchOutcome(index, check, Some(r), visibility, world, reply).Ok?
    ensures Served(index, check, r, visibility, world, reply, pages)
         == Pages(AllWanted(index, check, r, visibility, world), Paged(r).pageSize, pages)
  {
    hide AllWanted, SearchOutcome, Offset, Window, Paged;
    AuthorizedOutcome(index, check, r, visibility, world, reply);
    if pages > 0 {
      ServedIsPages(index, check, r, visibility, world, reply, pages - 1);
      PageIsWindow(index, check, r, visibility, world, reply, pages);
    }
  }

  lemma AuthorizedOutcome(index: Index, check: Checker, r: Request, visibility: seq<string>, world: World, reply: Reply)
    requires SearchOutcome(index, check, Some(r), visibility, world, reply).Ok?
    ensures Authorized(check, r.tenantId, r.applicationIds).Ok?
  {
    hide Authorized;
  }

  /**
   * The hits of all pages of a search of a reachable index, one page after the other, are every wanted
   * document once and in order exactly when the last page starts below 2^32.
   */
  lemma SearchPagesTile(index: Index, check: Checker, r: Request, visibility: seq<string>, world: World, reply: Reply)
    requires Reachable(index) && Ranks(world.ranking, index)
    ensures var outcome, size := SearchOutcome(index, check, Some(r), visibility, world, reply), Paged(r).pageSize;
      outcome.Ok? ==>
        Authorized(check, r.tenantId, r.applicationIds).Ok? &&
        var last := PageCount(outcome.value.total, size);
        last < TWO32 ==>
          (Served(index, check, r, visibility, world, reply, last) == AllWanted(index, check, r, visibility, world) <==>
           (last - 1) * size < TWO32)
  {
    hide Hits, Wanted, PageCount, Pages, Served, Paged, SearchOutcome, Normalized, Authorized, RunAs, Reachable;
    if SearchOutcome(index, check, Some(r), visibility, world, reply).Ok? {
      AuthorizedOutcome(index, check, r, visibility, world, reply);
      var all := AllWanted(index, check, r, visibility, world);
      TotalIsAll(index, check, r, visibility, world, reply);
      HitsAreDistinct(index, world.ranking, Wanted(RunAs(check, r), Normalized(r.tenantId, visibility), world.text));
      if PageCount(|all|, Paged(r).pageSize) < TWO32 {
        ServedIsPages(index, check, r, visibility, world, reply, PageCount(|all|, Paged(r).pageSize));
        PagesTileExactly(all, Paged(r).pageSize);
      }
    }
  }

  lemma TotalIsAll(index: Index, check: Checker, r: Request, visibility: seq<string>, world: World, reply: Reply)
    requires SearchOutcome(index, check, Some(r), visibility, world, reply).Ok?
    ensures Authorized(check, r.tenantId, r.applicationIds).Ok?
    ensures SearchOutcome(index, check, Some(r), visibility, world, reply).value.total
         == |AllWanted(index, check, r, visibility, world)|
  {
    hide Normalized, Authorized, Hits, Wanted, TrimSpace, Window, Offset;
  }

  // ---------------------------------------------------------------- hits and application grants

  /** A search that lists applications returns only documents of applications the verifier granted to it. */
  lemma HitsAreGranted(index: Index, check: Checker, r: Request, visibility: seq<string>, world: World, reply: Reply)
    ensures var outcome := SearchOutcome(index, check, Some(r), visibility, world, reply);
      var answer := check(TrimSpace(r.tenantId), Applications(r.applicationIds));
      outcome.Ok? && r.applicationIds != [] ==>
        answer.Decisions? && forall d <- outcome.value.hits :: Grant(answer.granted, d.applicationId)
  {
    hide TrimSpace, Authorized, Normalized, Applications, Hits, Wanted, HasBlank, Offset;
    var outcome := SearchOutcome(index, check, Some(r), visibility, world, reply);
    if outcome.Ok? && r.applicationIds != [] {
      AuthorizedOutcome(index, check, r, visibility, world, reply);
      GrantedByAnswer(check, r.tenantId, r.applicationIds);
      var applications := Applications(r.applicationIds);
      var granted := check(TrimSpace(r.tenantId), applications).granted;
      var tokens := Normalized(r.tenantId, visibility);
      var found := Hits(index, world.ranking, Wanted(RunAs(check, r), tokens, world.text));
      forall d <- outcome.value.hits ensures Grant(granted, d.applicationId) {
        assert d in found;
        WantedIsListed(RunAs(check, r), tokens, world.text, d);
      }
    }
  }

  lemma GrantedByAnswer(check: Checker, tenantId: string, values: seq<string>)
    requires Authorized(check, tenantId, values).Ok? && values != []
    ensures Authorized(check, tenantId, values).value == Applications(values) && Applications(values) != []
    ensures var answer := check(TrimSpace(tenantId), Applications(values));
      answer.Decisions? && forall a <- Applications(values) :: Grant(answer.granted, a)
  {
    assert Map(TrimSpace, values)[0] in Applications(values);
    hide TrimSpace, Applications, HasBlank;
  }

  lemma WantedIsListed(request: Request, tokens: seq<string>, text: (string, Document) -> bool, d: Document)
    requires Wanted(request, tokens, text)(d) && request.applicationIds != []
    ensures d.applicationId in request.applicationIds
  {
    assert Selected(request, d);
  }

  /** Looking up a document that a search has shown succeeds exactly when its application, if any, is granted. */
  lemma LookupOfHit(index: Index, check: Checker, r: Request, visibility: seq<string>, world: World, reply: Reply,
                    d: Document)
    requires Reachable(index) && Ranks(world.ranking, index)
    ensures var found := SearchOutcome(index, check, Some(r), visibility, world, reply);
      found.Ok? && d in found.value.hits ==>
        (GetOutcome(index, check, r.tenantId, d.id, visibility, world, reply).Ok? <==> Released(check, r.tenantId, d))
  {
    hide Reachable, GetOutcome, Normalized, Authorized, TrimSpace, CanonicalID, Answer;
    var found := SearchOutcome(index, check, Some(r), visibility, world, reply);
    if found.Ok? && d in found.value.hits {
      SearchIsSafe(index, check, r, visibility, world, reply);
      assert MaySee(index, r.tenantId, Normalized(r.tenantId, visibility), d);
      CanonicalShape(d.source);
      assert ':' in d.id;
      TrimmedIdIsNotBlank(d.id);
      GetExactly(index, check, r.tenantId, d.id, visibility, world, reply);
    }
  }

  lemma TrimmedIdIsNotBlank(id: string)
    requires ':' in id
    ensures TrimSpace(id) != ""
  {
    TrimKeepsSome(id, IsSpace, ':');
  }

  lemma OnlyHit(d: Document, request: Request, tokens: seq<string>, world: World)
    requires Stored(d) && InScope(request.tenantId, tokens, d) && Selected(request, d)
    requires TextMatches(request, world.text, d)
    requires world.ranking == [d.id] && request.page == 1 && request.pageSize >= 1
    ensures Answer(map[d.id := Entry(d.sourceVersion, Live(d))], request, tokens, world).hits == [d]
  {
    hide TrimSpace, CanonicalID, Selected, InScope, Stored;
    var index: Index := map[d.id := Entry(d.sourceVersion, Live(d))];
    var wanted := Wanted(request, tokens, world.text);
    assert wanted(d);
    assert [d.id][..0] == [];
    assert Hits(index, [], wanted) == [];
    assert Hits(index, [d.id], wanted) == [d];
    assert Offset(1, request.pageSize) == 0;
  }

  /** A search without listed applications asks the verifier nothing: its outcome does not depend on it. */
  lemma NoListNoCheck(index: Index, a: Checker, b: Checker, r: Request, visibility: seq<string>, world: World,
                      reply: Reply)
    requires r.applicationIds == []
    ensures SearchOutcome(index, a, Some(r), visibility, world, reply)
         == SearchOutcome(index, b, Some(r), visibility, world, reply)
  {
    NoApplications();
    hide Applications, HasBlank, TrimSpace, Normalized, SearchResult;
    AuthorizedCases(a, r.tenantId, []);
    AuthorizedCases(b, r.tenantId, []);
  }

  /** The request with one application named in its filters instead of its list. */
  function ByFilter(r: Request, application: string): Request {
    r.(applicationIds := [], filters := r.filters["applicationId" := Some([application])])
  }

  lemma ByFilterSelects(r: Request, application: string, d: Document)
    requires application != ""
    ensures Selected(ByFilter(r, application), d) <==>
      d.applicationId == application && Selected(r.(applicationIds := [], filters := r.filters - {"applicationId"}), d)
  {
    var named, rest := ByFilter(r, application), r.(applicationIds := [], filters := r.filters - {"applicationId"});
    assert AnyOf([application], FieldValues(d, "applicationId")) <==> d.applicationId == application by {
      assert application in [application];
    }
    assert FilterHolds(named, "applicationId", d) <==> d.applicationId == application;
    hide FieldValues, AllowedFilter;
    assert named.filters.Keys == rest.filters.Keys + {"applicationId"};
    forall field <- rest.filters ensures FilterHolds(named, field, d) == FilterHolds(rest, field, d) {
      assert named.filters[field] == rest.filters[field];
    }
  }

  /**
   * Naming an application in the filters finds exactly its documents among the others the request wants,
   * whatever the verifier would have said about it.
   */
  lemma FilteredApplicationIsUnchecked(index: Index, a: Checker, b: Checker, r: Request, application: string,
                                       visibility: seq<string>, world: World, reply: Reply)
    requires application != ""
    ensures var outcome := SearchOutcome(index, a, Some(ByFilter(r, application)), visibility, world, reply);
      && outcome == SearchOutcome(index, b, Some(ByFilter(r, application)), visibility, world, reply)
      && (outcome.Ok? ==> forall d <- outcome.value.hits :: d.applicationId == application)
  {
    hide SearchOutcome, Normalized, Authorized, ByFilter, RunAs, Wanted;
    var named := ByFilter(r, application);
    FilterStays(a, r, application);
    NoListNoCheck(index, a, b, named, visibility, world, reply);
    var outcome := SearchOutcome(index, a, Some(named), visibility, world, reply);
    if outcome.Ok? {
      AuthorizedOutcome(index, a, named, visibility, world, reply);
      FoundAmongWanted(index, a, named, visibility, world, reply);
      forall d <- outcome.value.hits ensures d.applicationId == application {
        WantedByFilter(RunAs(a, named), application, Normalized(named.tenantId, visibility), world.text, d);
      }
    }
  }

  lemma FilterStays(check: Checker, r: Request, application: string)
    ensures var named := ByFilter(r, application);
      && named.applicationIds == [] && named.tenantId == r.tenantId
      && Authorized(check, named.tenantId, []) == Ok([])
      && RunAs(check, named) == ByFilter(RunAs(check, named), application)
  {
    hide Authorized, Applications, HasBlank;
    NoApplications();
    AuthorizedCases(check, r.tenantId, []);
  }

  lemma WantedByFilter(request: Request, application: string, tokens: seq<string>, text: (string, Document) -> bool,
                       d: Document)
    requires application != "" && request == ByFilter(request, application) && Wanted(request, tokens, text)(d)
    ensures d.applicationId == application
  {
    ByFilterSelects(request, application, d);
  }

  /** Every hit satisfies what the search wants. */
  lemma FoundAmongWanted(index: Index, check: Checker, r: Request, visibility: seq<string>, world: World, reply: Reply)
    requires Authorized(check, r.tenantId, r.applicationIds).Ok?
    ensures var outcome := SearchOutcome(index, check, Some(r), visibility, world, reply);
      outcome.Ok? ==> forall d <- outcome.value.hits ::
        Wanted(RunAs(check, r), Normalized(r.tenantId, visibility), world.text)(d)
  {
    hide TrimSpace, Authorized, Normalized, Hits, Wanted, Offset;
    var outcome := SearchOutcome(index, check, Some(r), visibility, world, reply);
    if outcome.Ok? {
      var found := Hits(index, world.ranking, Wanted(RunAs(check, r), Normalized(r.tenantId, visibility), world.text));
      assert forall d <- outcome.value.hits :: d in found;
    }
  }

  /**
   * For every stored document with an application and every first-page request without a list that
   * selects it, made by a caller who shares a token, there is a reachable index and a verifier such that
   * the search returns the document and its lookup is refused.
   */
  lemma SearchShowsWhatLookupRefuses(d: Document, r: Request, visibility: seq<string>)
    requires Stored(d) && d.applicationId != "" && TrimSpace(d.source.tenantId) != ""
    requires r.tenantId == d.source.tenantId && r.applicationIds == [] && r.page <= 1 && Selected(r, d)
    requires Shares(d, Normalized(r.tenantId, visibility))
    ensures var index: Index := map[d.id := Entry(d.sourceVersion, Live(d))];
      var check: Checker := (_, _) => Decisions(map[]);
      var world := World([d.id], (_, _) => true);
      var found := SearchOutcome(index, check, Some(r), visibility, world, Replied(200));
      && Reachable(index) && found.Ok? && d in found.value.hits
      && GetOutcome(index, check, r.tenantId, d.id, visibility, world, Replied(200)).Err?
  {
    var index: Index, check: Checker := map[d.id := Entry(d.sourceVersion, Live(d))], (_, _) => Decisions(map[]);
    var world := World([d.id], (_, _) => true);
    ShownAlone(d, r, visibility, check, world);
    NeverGranted(check, d.source.tenantId, d.applicationId);
    hide Reachable, Normalized, Authorized, TrimSpace, CanonicalID, Answer, Stored, GetOutcome, SearchOutcome;
    assert Ranks(world.ranking, index);
    LookupOfHit(index, check, r, visibility, world, Replied(200), d);
  }

  /** The index of one stored document is reachable, and a first-page search that wants the document shows it. */
  lemma ShownAlone(d: Document, r: Request, visibility: seq<string>, check: Checker, world: World)
    requires Stored(d) && TrimSpace(r.tenantId) != ""
    requires r.applicationIds == [] && r.page <= 1 && Selected(r, d)
    requires InScope(r.tenantId, Normalized(r.tenantId, visibility), d) && TextMatches(r, world.text, d)
    requires world.ranking == [d.id]
    ensures var index: Index := map[d.id := Entry(d.sourceVersion, Live(d))];
      var found := SearchOutcome(index, check, Some(r), visibility, world, Replied(200));
      Reachable(index) && found.Ok? && d in found.value.hits
  {
    var index: Index := map[d.id := Entry(d.sourceVersion, Live(d))];
    var tokens, scoped := Normalized(r.tenantId, visibility), Scoped(r, []);
    OneUpsertReachable(d);
    NoApplications();
    hide Applications, HasBlank, Normalized, TrimSpace, CanonicalID, Stored, Selected, InScope, Reachable, Answer;
    AuthorizedCases(check, r.tenantId, []);
    assert Selected(scoped, d) by { ScopedSelects(r, d); }
    OnlyHit(d, scoped, tokens, world);
    assert SearchOutcome(index, check, Some(r), visibility, world, Replied(200))
        == Ok(Answer(index, scoped, tokens, world));
  }

  lemma ScopedSelects(r: Request, d: Document)
    requires r.applicationIds == [] && Selected(r, d)
    ensures Selected(Scoped(r, []), d)
  {
    assert forall field <- r.filters :: FilterHolds(r, field, d) == FilterHolds(Scoped(r, []), field, d);
  }

  lemma ValidTokenNonEmpty(d: Document, token: string)
    requires ValidVisibility(d) && token in d.visibilityTokens
    ensures token != ""
  {
    assert ValidToken(d, token);
  }

  lemma NeverGranted(check: Checker, tenantId: string, application: string)
    requires forall t, a :: check(t, a) == Decisions(map[])
    ensures Authorized(check, tenantId, [application]).Err?
  {
    AuthorizedCases(check, tenantId, [application]);
    assert Map(TrimSpace, [application])[0] in Applications([application]);
    var a := Applications([application]);
    assert !Grant(map[], a[0]) && a[0] in a;
  }

  lemma OneUpsertReachable(d: Document)
    requires Stored(d)
    ensures Reachable(map[d.id := Entry(d.sourceVersion, Live(d))])
  {
    var op := Op.Upsert(d);
    assert WellFormed(op);
    hide Exec, WellFormed, Stored, CanonicalID;
    ReplayFromEmpty([op]);
    assert [op][..0] == [];
    assert WriteAll(map[], []) == map[];
    assert WriteAll(map[], [op]) == map[d.id := Entry(d.sourceVersion, Live(d))];
  }
}

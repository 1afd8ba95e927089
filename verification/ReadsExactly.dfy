/** What each read answers, on the fields of the request and the stored documents and in the source's own numbers. */
module ReadsExactly {
  import opened Results
  import opened Text
  import opened Ordered
  import opened Documents
  import opened Store
  import opened Query
  import opened SearchStore
  import opened SearchService

  // ---------------------------------------------------------------- access to applications

  predicate Malformed(values: seq<string>) { |values| > 100 || exists v <- values :: TrimSpace(v) == "" }

  predicate GrantedTo(answer: AccessAnswer, application: string) {
    answer.Decisions? && application in answer.granted && answer.granted[application]
  }

  lemma MalformedExactly(values: seq<string>)
    ensures Malformed(values) <==> |values| > MAX_APPLICATIONS || HasBlank(values)
  {
    hide TrimSpace;
    TrimmedValues(values, "");
  }

  lemma ApplicationsExactly(values: seq<string>)
    ensures Applications(values) == Dedup(Map(TrimSpace, values))
    ensures Applications(values) == [] <==> values == []
    ensures forall a :: a in Applications(values) <==> exists v <- values :: TrimSpace(v) == a
  {
    hide TrimSpace;
    if values != [] { assert Map(TrimSpace, values)[0] in Applications(values); }
    forall a ensures a in Applications(values) <==> exists v <- values :: TrimSpace(v) == a {
      TrimmedValues(values, a);
    }
  }

  /**
   * Up to 100 applications may be requested and none may be blank. An empty request asks nothing. Any other
   * one is granted exactly when the verifier answers with a positive decision on each of them, and the
   * refusal says whether it failed or denied.
   */
  lemma AccessExactly(check: Checker, tenantId: string, values: seq<string>)
    ensures var r := Authorized(check, tenantId, values); var wanted := Dedup(Map(TrimSpace, values));
      var answer := check(TrimSpace(tenantId), wanted);
      && (r == Err(InvalidArgument) <==> Malformed(values))
      && (r.Ok? <==> !Malformed(values) && (values == [] || forall v <- values :: GrantedTo(answer, TrimSpace(v))))
      && (r.Ok? ==> r.value == wanted)
      && (r == Err(Unavailable) <==> !Malformed(values) && values != [] && answer.Failed?)
      && (r == Err(Forbidden) <==> !Malformed(values) && values != [] && !answer.Failed? && r.Err?)
      && (r.Err? ==> r.error == InvalidArgument || r.error == Unavailable || r.error == Forbidden)
  {
    AuthorizedCases(check, tenantId, values);
    MalformedExactly(values);
    ApplicationsExactly(values);
    hide TrimSpace, HasBlank, Applications, Malformed, Authorized;
    var answer := check(TrimSpace(tenantId), Applications(values));
    if !answer.Failed? && AllGranted(answer.granted, Applications(values)) {
      forall v <- values ensures GrantedTo(answer, TrimSpace(v)) { assert TrimSpace(v) in Applications(values); }
    }
  }

  // ---------------------------------------------------------------- searches

  /** A page asked for, or the first one. */
  function PageOf(page: uint32): uint32 { if page == 0 then 1 else page }

  /** The size asked for up to a limit, or a default. */
  function SizeOf(size: uint32, default: uint32, limit: uint32): uint32 {
    if size == 0 then default else if size > limit then limit else size
  }

  /** What a search finds: in the tenant, sharing a token, with the text unless it is blank, and as restricted. */
  ghost predicate Sought(r: Request, tokens: seq<string>, text: (string, Document) -> bool, d: Document) {
    && d.source.tenantId == r.tenantId && (exists t <- d.visibilityTokens :: t in tokens)
    && (TrimSpace(r.query) == "" || text(r.query, d))
    && Restricted(r.documentTypes, r.applicationIds, r.filters, d)
  }

  lemma WantedExactly(r: Request, tokens: seq<string>, text: (string, Document) -> bool, d: Document)
    requires r.tenantId != ""
    ensures Wanted(r, tokens, text)(d) <==> Sought(r, tokens, text, d)
  {
    SelectedExactly(r, d);
    hide Selected, Restricted, TrimSpace;
  }

  predicate FacetField(field: string) {
    field in {"id", "sourceService", "documentType", "applicationId", "permissionCode"} ||
    ("attributes." <= field && ByteLength(field) <= 128)
  }

  /** The part of a list behind `from`, no longer than `size`. */
  predicate IsWindow(found: seq<Document>, from: nat, size: nat, hits: seq<Document>) {
    && (forall i :: 0 <= i < |hits| ==> from + i < |found| && hits[i] == found[from + i])
    && |hits| == if from >= |found| then 0 else if |found| - from < size then |found| - from else size
  }

  /** The facets of the allowed fields asked for: each value found, with the number of found documents that have it. */
  ghost predicate CountsExactly(found: seq<Document>, fields: seq<string>, facets: map<string, map<string, nat>>) {
    && (forall field :: field in facets <==> field in fields && FacetField(field))
    && (forall field <- facets :: forall v ::
          && (v in facets[field] <==> exists d <- found :: v in FieldValues(d, field))
          && (v in facets[field] ==> facets[field][v] == |PlacesWith(found, field, v)|))
  }

  /** One page of what is sought, in ranking order, with the number of all that is and its facets. */
  ghost predicate Serves(index: Index, world: World, sought: Document -> bool, fields: seq<string>, from: nat,
                         size: nat, response: Response) {
    exists found ::
      && RankedExactly(index, world.ranking, sought, found)
      && response.total == |found| && IsWindow(found, from, size, response.hits)
      && CountsExactly(found, fields, response.facets)
  }

  lemma BucketsCount(found: seq<Document>, field: string)
    ensures forall v :: v in Buckets(found, field) <==> exists d <- found :: v in FieldValues(d, field)
    ensures forall v <- Buckets(found, field) :: Buckets(found, field)[v] == |PlacesWith(found, field, v)|
  {
    hide FieldValues, WithValue, PlacesWith;
    forall v <- Buckets(found, field) ensures Buckets(found, field)[v] == |PlacesWith(found, field, v)| {
      WithValueCounts(found, field, v);
    }
  }

  lemma FacetFieldExactly(field: string)
    ensures AllowedFilter(field) <==> FacetField(field)
  {
    AllowedExactly(field);
    hide AllowedFilter;
  }

  lemma WindowExactly(found: seq<Document>, from: nat, size: nat)
    ensures IsWindow(found, from, size, Window(found, from, size))
  {
  }

  lemma FacetsCount(found: seq<Document>, fields: seq<string>, facets: map<string, map<string, nat>>)
    requires facets == map field | field in fields && AllowedFilter(field) :: Buckets(found, field)
    ensures CountsExactly(found, fields, facets)
  {
    hide AllowedFilter, FacetField, Buckets, FieldValues, PlacesWith;
    forall field ensures AllowedFilter(field) <==> FacetField(field) { FacetFieldExactly(field); }
    forall field <- facets
      ensures forall v :: v in facets[field] <==> exists d <- found :: v in FieldValues(d, field)
      ensures forall v <- facets[field] :: facets[field][v] == |PlacesWith(found, field, v)|
    {
      BucketsCount(found, field);
    }
  }

  /** The parts of an answer, over the list of all that is wanted. */
  lemma AnswerParts(index: Index, r: Request, tokens: seq<string>, world: World)
    requires r.page >= 1
    ensures var found := Hits(index, world.ranking, Wanted(r, tokens, world.text));
      var response := Answer(index, r, tokens, world);
      && response.page == r.page && response.pageSize == r.pageSize && response.total == |found|
      && IsWindow(found, (r.page - 1) * r.pageSize % 0x1_0000_0000, r.pageSize, response.hits)
      && CountsExactly(found, r.facetFields, response.facets)
  {
    hide Wanted, Hits, AllowedFilter, IsWindow, Window, Buckets, CountsExactly;
    var found := Hits(index, world.ranking, Wanted(r, tokens, world.text));
    WindowExactly(found, Offset(r.page, r.pageSize), r.pageSize);
    FacetsCount(found, r.facetFields, Answer(index, r, tokens, world).facets);
  }

  lemma AnswerServes(index: Index, r: Request, asked: Request, tokens: seq<string>, world: World)
    requires r == asked.(page := r.page, pageSize := r.pageSize) && r.tenantId != "" && r.page >= 1
    ensures Serves(index, world, d => Sought(asked, tokens, world.text, d), r.facetFields,
      (r.page - 1) * r.pageSize % 0x1_0000_0000, r.pageSize, Answer(index, r, tokens, world))
    ensures var response := Answer(index, r, tokens, world);
      response.page == r.page && response.pageSize == r.pageSize
  {
    var wanted, sought := Wanted(r, tokens, world.text), d => Sought(asked, tokens, world.text, d);
    forall d: Document ensures wanted(d) == sought(d) { WantedExactly(r, tokens, world.text, d); }
    hide Wanted, Sought, Hits, RankedExactly, IsWindow, CountsExactly, Answer;
    HitsAreRanked(index, world.ranking, wanted, sought);
    AnswerParts(index, r, tokens, world);
  }

  /** The first page by default and 20 documents per page, never more than 100. */
  lemma PagedExactly(r: Request)
    ensures Paged(r) == r.(page := PageOf(r.page), pageSize := SizeOf(r.pageSize, 20, 100))
  {
  }

  /** A search that succeeds is the answer to the request with the trimmed list and the normalised page. */
  lemma SearchRunsAs(index: Index, check: Checker, r: Request, visibility: seq<string>, world: World, reply: Reply)
    ensures var outcome := SearchOutcome(index, check, Some(r), visibility, world, reply);
      var asked := r.(applicationIds := Dedup(Map(TrimSpace, r.applicationIds)));
      outcome.Ok? ==>
        r.tenantId != "" && outcome.value == Answer(index, Paged(asked), Normalized(r.tenantId, visibility), world)
  {
    AccessExactly(check, r.tenantId, r.applicationIds);
    assert TrimSpace("") == "";
    hide TrimSpace, Authorized, Normalized, Answer, Paged, Malformed;
  }

  /**
   * A search that succeeds answers with a page of the live documents of the tenant that share a token, match
   * the text and meet every restriction, in ranking order; with their number; and with the value counts of
   * the facets asked for, over all of them. A page is 20 documents unless another size up to 100 is asked for.
   */
  lemma SearchExactly(index: Index, check: Checker, r: Request, visibility: seq<string>, world: World, reply: Reply)
    ensures var outcome := SearchOutcome(index, check, Some(r), visibility, world, reply);
      var asked := r.(applicationIds := Dedup(Map(TrimSpace, r.applicationIds)));
      outcome.Ok? ==>
        && outcome.value.page == PageOf(r.page) && outcome.value.pageSize == SizeOf(r.pageSize, 20, 100)
        && Serves(index, world, d => Sought(asked, Normalized(r.tenantId, visibility), world.text, d), r.facetFields,
             (PageOf(r.page) - 1) * SizeOf(r.pageSize, 20, 100) % 0x1_0000_0000, SizeOf(r.pageSize, 20, 100),
             outcome.value)
  {
    hide SearchOutcome, Normalized, Serves, Answer, Sought, TrimSpace, Dedup, Map, Paged;
    if SearchOutcome(index, check, Some(r), visibility, world, reply).Ok? {
      var asked := r.(applicationIds := Dedup(Map(TrimSpace, r.applicationIds)));
      SearchRunsAs(index, check, r, visibility, world, reply);
      PagedExactly(asked);
      AnswerServes(index, Paged(asked), asked, Normalized(r.tenantId, visibility), world);
    }
  }

  // ---------------------------------------------------------------- suggestions

  /**
   * What is suggested: in the tenant, sharing a token, matching the prefix, of a listed type if types are
   * listed, and of a listed application that the verifier granted if applications are.
   */
  ghost predicate Suggestible(s: SuggestQuery, tokens: seq<string>, answer: AccessAnswer,
                              text: (string, Document) -> bool, d: Document) {
    && d.source.tenantId == s.tenantId && (exists t <- d.visibilityTokens :: t in tokens)
    && text(s.prefix, d)
    && (s.documentTypes != [] ==> d.source.documentType != "" && d.source.documentType in s.documentTypes)
    && (s.applicationIds != [] ==>
          (exists v <- s.applicationIds :: TrimSpace(v) == d.applicationId) && GrantedTo(answer, d.applicationId))
  }

  /** The search that a suggestion call with this list comes to. */
  function Prefixed(s: SuggestQuery): Request {
    AsRequest(Limited(s.(applicationIds := Dedup(Map(TrimSpace, s.applicationIds)))))
  }

  lemma Unfiltered(types: seq<string>, applications: seq<string>, d: Document)
    ensures Restricted(types, applications, map[], d) <==>
      && (types != [] ==> d.source.documentType != "" && d.source.documentType in types)
      && (applications != [] ==> d.applicationId != "" && d.applicationId in applications)
  {
  }

  lemma SoughtForSuggestion(s: SuggestQuery, tokens: seq<string>, answer: AccessAnswer,
                            text: (string, Document) -> bool, d: Document)
    requires TrimSpace(s.prefix) != "" && !Malformed(s.applicationIds)
    requires s.applicationIds == [] || forall v <- s.applicationIds :: GrantedTo(answer, TrimSpace(v))
    ensures Sought(Prefixed(s), tokens, text, d) <==> Suggestible(s, tokens, answer, text, d)
  {
    ApplicationsExactly(s.applicationIds);
    hide TrimSpace, Applications, GrantedTo, Restricted;
    Unfiltered(s.documentTypes, Dedup(Map(TrimSpace, s.applicationIds)), d);
    if v :| v in s.applicationIds && TrimSpace(v) == d.applicationId { assert d.applicationId != ""; }
  }

  lemma PrefixedPage(s: SuggestQuery)
    ensures var r := Prefixed(s);
      && r.tenantId == s.tenantId && r.page == 1 && (r.page - 1) * r.pageSize % 0x1_0000_0000 == 0
      && r.pageSize == if s.limit == 0 then 10 else if s.limit > 50 then 50 else s.limit
  {
  }

  /** A suggestion call that succeeds is the mapped answer to that search. */
  lemma SuggestRunsAs(index: Index, check: Checker, s: SuggestQuery, visibility: seq<string>, world: World,
                      reply: Reply)
    ensures var outcome := SuggestOutcome(index, check, Some(s), visibility, world, reply);
      var answer := check(TrimSpace(s.tenantId), Dedup(Map(TrimSpace, s.applicationIds)));
      outcome.Ok? ==>
        && s.tenantId != "" && TrimSpace(s.prefix) != "" && !Malformed(s.applicationIds)
        && (s.applicationIds == [] || forall v <- s.applicationIds :: GrantedTo(answer, TrimSpace(v)))
        && var hits := Answer(index, Prefixed(s), Normalized(s.tenantId, visibility), world).hits;
           outcome.value == Map(AsSuggestion, hits)
  {
    AccessExactly(check, s.tenantId, s.applicationIds);
    assert TrimSpace("") == "";
    hide TrimSpace, Authorized, Normalized, Answer, Malformed, GrantedTo;
  }

  predicate SuggestsFirst(found: seq<Document>, n: nat, suggestions: seq<Suggestion>) {
    && |suggestions| == (if |found| < n then |found| else n)
    && (forall i :: 0 <= i < |suggestions| ==>
          (suggestions[i] ==
           Suggestion(found[i].title, found[i].source.documentType, found[i].source.sourceId, found[i].url)))
  }

  /** The first `n` of what is suggestible, in ranking order. */
  ghost predicate Suggests(index: Index, ranking: seq<string>, suggestible: Document -> bool, n: nat,
                           suggestions: seq<Suggestion>) {
    exists found :: RankedExactly(index, ranking, suggestible, found) && SuggestsFirst(found, n, suggestions)
  }

  lemma MappedWindow(found: seq<Document>, n: nat, hits: seq<Document>)
    requires IsWindow(found, 0, n, hits)
    ensures SuggestsFirst(found, n, Map(AsSuggestion, hits))
  {
  }

  lemma SuggestAnswer(index: Index, s: SuggestQuery, tokens: seq<string>, answer: AccessAnswer, world: World)
    requires s.tenantId != "" && TrimSpace(s.prefix) != "" && !Malformed(s.applicationIds)
    requires s.applicationIds == [] || forall v <- s.applicationIds :: GrantedTo(answer, TrimSpace(v))
    ensures Suggests(index, world.ranking, d => Suggestible(s, tokens, answer, world.text, d),
      if s.limit == 0 then 10 else if s.limit > 50 then 50 else s.limit,
      Map(AsSuggestion, Answer(index, Prefixed(s), tokens, world).hits))
  {
    var r := Prefixed(s);
    PrefixedPage(s);
    hide Prefixed;
    AnswerServes(index, r, r, tokens, world);
    var sought := d => Sought(r, tokens, world.text, d);
    var suggestible := d => Suggestible(s, tokens, answer, world.text, d);
    forall d: Document ensures sought(d) == suggestible(d) { SoughtForSuggestion(s, tokens, answer, world.text, d); }
    hide Sought, Suggestible, Answer, CountsExactly, GrantedTo, TrimSpace, Malformed;
    var response := Answer(index, r, tokens, world);
    var found :| RankedExactly(index, world.ranking, sought, found) && IsWindow(found, 0, r.pageSize, response.hits);
    RankedSame(index, world.ranking, sought, suggestible, found);
    MappedWindow(found, r.pageSize, response.hits);
  }

  lemma RankedSame(index: Index, ranking: seq<string>, p: Document -> bool, q: Document -> bool, found: seq<Document>)
    requires RankedExactly(index, ranking, p, found) && forall d :: p(d) == q(d)
    ensures RankedExactly(index, ranking, q, found)
  {
    var places :| AtPlaces(index, ranking, p, found, places);
    assert forall k: nat :: FindsAt(index, ranking, p, k) == FindsAt(index, ranking, q, k);
    assert AtPlaces(index, ranking, q, found, places);
  }

  /**
   * A suggestion call that succeeds suggests the first live documents, in ranking order, of those in the
   * tenant that share a token, match the prefix, and are of a listed type and a listed and granted
   * application, if any is listed: 10 of them, unless another number up to 50 is asked for.
   */
  lemma SuggestExactly(index: Index, check: Checker, s: SuggestQuery, visibility: seq<string>, world: World,
                       reply: Reply)
    ensures var outcome := SuggestOutcome(index, check, Some(s), visibility, world, reply);
      var answer := check(TrimSpace(s.tenantId), Dedup(Map(TrimSpace, s.applicationIds)));
      outcome.Ok? ==>
        Suggests(index, world.ranking,
          d => Suggestible(s, Normalized(s.tenantId, visibility), answer, world.text, d),
          if s.limit == 0 then 10 else if s.limit > 50 then 50 else s.limit, outcome.value)
  {
    SuggestRunsAs(index, check, s, visibility, world, reply);
    var answer := check(TrimSpace(s.tenantId), Dedup(Map(TrimSpace, s.applicationIds)));
    hide SuggestOutcome, Normalized, Answer, Suggestible, TrimSpace, Dedup, Map, Malformed, GrantedTo, Prefixed,
      Suggests;
    if SuggestOutcome(index, check, Some(s), visibility, world, reply).Ok? {
      SuggestAnswer(index, s, Normalized(s.tenantId, visibility), answer, world);
    }
  }

  // ---------------------------------------------------------------- filters without effect

  /** A filter on any other field, or without values, changes nothing at all. */
  lemma IgnoredFilter(index: Index, check: Checker, r: Request, field: string, values: Option<seq<string>>,
                      visibility: seq<string>, world: World, reply: Reply)
    requires field !in r.filters && (!FacetField(field) || values == None || values == Some([]))
    ensures SearchOutcome(index, check, Some(r.(filters := r.filters[field := values])), visibility, world, reply)
         == SearchOutcome(index, check, Some(r), visibility, world, reply)
  {
    hide TrimSpace, Authorized, Normalized, Hits, Wanted, Window, Offset, Buckets;
    var access, tokens := Authorized(check, r.tenantId, r.applicationIds), Normalized(r.tenantId, visibility);
    if access.Ok? {
      var a, b := Scoped(r.(filters := r.filters[field := values]), access.value), Scoped(r, access.value);
      forall d: Document ensures Wanted(a, tokens, world.text)(d) == Wanted(b, tokens, world.text)(d) {
        IgnoredByWanted(a, b, field, values, tokens, world.text, d);
      }
      HitsSame(index, world.ranking, Wanted(a, tokens, world.text), Wanted(b, tokens, world.text));
      assert Answer(index, a, tokens, world) == Answer(index, b, tokens, world);
    }
  }

  lemma IgnoredByWanted(a: Request, b: Request, field: string, values: Option<seq<string>>, tokens: seq<string>,
                        text: (string, Document) -> bool, d: Document)
    requires a == b.(filters := b.filters[field := values]) && field !in b.filters
    requires !FacetField(field) || values == None || values == Some([])
    ensures Wanted(a, tokens, text)(d) == Wanted(b, tokens, text)(d)
  {
    FacetFieldExactly(field);
    hide FacetField, AllowedFilter, FieldValues, TrimSpace;
    assert FilterHolds(a, field, d);
    forall f <- b.filters ensures FilterHolds(a, f, d) == FilterHolds(b, f, d) {
      assert a.filters[f] == b.filters[f];
    }
    assert forall f <- a.filters :: f == field || f in b.filters;
  }

  // ---------------------------------------------------------------- failures of the store

  /** What a read comes to when the store fails it: unavailable, not-found on a 404, else the store's status. */
  predicate FailsAs<T(==)>(reply: Reply, r: Result<T>) {
    match reply
    case TransportFailure => r == Err(Unavailable)
    case Replied(status) =>
      if status == 404 then r == Err(NotFound)
      else 200 <= status < 300 || r == Err(StoreStatus(status))
  }

  predicate StoreServes(reply: Reply) { reply.Replied? && 200 <= reply.status < 300 }

  /** A search succeeds exactly when it names a tenant, its applications are granted and the store serves it. */
  lemma SearchSucceedsExactly(index: Index, check: Checker, r: Request, visibility: seq<string>, world: World,
                              reply: Reply)
    ensures var outcome := SearchOutcome(index, check, Some(r), visibility, world, reply);
      var access := Authorized(check, r.tenantId, r.applicationIds);
      && (outcome.Ok? <==> TrimSpace(r.tenantId) != "" && access.Ok? && StoreServes(reply))
      && (TrimSpace(r.tenantId) == "" ==> outcome == Err(InvalidArgument))
      && (TrimSpace(r.tenantId) != "" && access.Err? ==> outcome == Err(access.error))
      && (TrimSpace(r.tenantId) != "" && access.Ok? ==> FailsAs(reply, outcome))
  {
    hide TrimSpace, Authorized, Normalized, Answer;
  }

  lemma SuggestSucceedsExactly(index: Index, check: Checker, s: SuggestQuery, visibility: seq<string>, world: World,
                               reply: Reply)
    ensures var outcome := SuggestOutcome(index, check, Some(s), visibility, world, reply);
      var access := Authorized(check, s.tenantId, s.applicationIds);
      var named := TrimSpace(s.tenantId) != "" && TrimSpace(s.prefix) != "";
      && (outcome.Ok? <==> named && access.Ok? && StoreServes(reply))
      && (!named ==> outcome == Err(InvalidArgument))
      && (named && access.Err? ==> outcome == Err(access.error))
      && (named && access.Ok? ==> FailsAs(reply, outcome))
  {
    hide TrimSpace, Authorized, Normalized, Answer;
  }

  /** While the store fails, a lookup is not-found only if the store itself answered 404. */
  lemma LookupFailsExactly(index: Index, check: Checker, tenantId: string, id: string, visibility: seq<string>,
                           world: World, reply: Reply)
    ensures var outcome := GetOutcome(index, check, tenantId, id, visibility, world, reply);
      var named := TrimSpace(tenantId) != "" && TrimSpace(id) != "";
      && (outcome.Ok? ==> named && StoreServes(reply))
      && (!named ==> outcome == Err(InvalidArgument))
      && (named ==> FailsAs(reply, outcome))
      && (outcome == Err(NotFound) ==> StoreServes(reply) || reply == Replied(404))
  {
    hide TrimSpace, Authorized, Normalized, Answer;
  }
}

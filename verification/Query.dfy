/** The bool query a search request is compiled to, and what it selects. */
module Query {
  import opened Results
  import opened Text
  import opened Ordered
  import opened Documents
  import opened Store

  const TWO32 := 0x1_0000_0000

  type uint32 = x: int | 0 <= x < TWO32

  datatype Sort = Relevance | UpdatedAtDesc | UpdatedAtAsc

  /** A filter's values may be absent: a nil pointer in the request's map. */
  datatype Request = Request(
    tenantId: string, query: string, documentTypes: seq<string>, applicationIds: seq<string>,
    filters: map<string, Option<seq<string>>>, sort: Sort, page: uint32, pageSize: uint32, facetFields: seq<string>)

  datatype Clause = Term(field: string, value: string) | Terms(field: string, values: seq<string>)

  datatype Must = MatchAll | MultiMatch(query: string)

  datatype Body = Body(from: int, size: int, must: Must, filter: seq<Clause>, sort: Option<string>, facets: set<string>)

  // ---------------------------------------------------------------- what a body selects

  /** An empty string is not written to the stored JSON, so the field is missing. */
  function Present(value: string): set<string> { if value == "" then {} else {value} }

  const ATTRIBUTES := "attributes."

  /** The terms a document is indexed under in one field. */
  function FieldValues(d: Document, field: string): set<string> {
    match field
    case "id" => Present(d.id)
    case "tenantId" => Present(d.source.tenantId)
    case "sourceService" => Present(d.source.sourceService)
    case "documentType" => Present(d.source.documentType)
    case "sourceId" => Present(d.source.sourceId)
    case "applicationId" => Present(d.applicationId)
    case "permissionCode" => Present(d.permissionCode)
    case "visibilityTokens" => set t <- d.visibilityTokens
    case _ =>
      if HasPrefix(field, ATTRIBUTES) && field[|ATTRIBUTES|..] in d.attributes
      then {d.attributes[field[|ATTRIBUTES|..]]} else {}
  }

  predicate AnyOf(values: seq<string>, terms: set<string>) { exists v <- values :: v in terms }

  predicate Accepts(c: Clause, d: Document) {
    match c
    case Term(field, value) => value in FieldValues(d, field)
    case Terms(field, values) => AnyOf(values, FieldValues(d, field))
  }

  predicate AcceptsAll(filter: seq<Clause>, d: Document) {
    forall c <- filter :: Accepts(c, d)
  }

  predicate TextAccepts(must: Must, text: (string, Document) -> bool, d: Document) {
    must.MatchAll? || text(must.query, d)
  }

  // ---------------------------------------------------------------- what a request asks for

  predicate AllowedFilter(field: string) {
    match field
    case "id" => true
    case "sourceService" => true
    case "documentType" => true
    case "applicationId" => true
    case "permissionCode" => true
    case _ => HasPrefix(field, ATTRIBUTES) && ByteLength(field) <= 128
  }

  /** The documents a caller may see at all: those of the tenant that carry one of the caller's tokens. */
  predicate InScope(tenantId: string, tokens: seq<string>, d: Document) {
    tenantId != "" && d.source.tenantId == tenantId && Shares(d, tokens)
  }

  predicate OneOf(values: seq<string>, value: string) { value != "" && value in values }

  /** A filter counts when its field is allowed and it lists values. */
  predicate Effective(request: Request, field: string) {
    field in request.filters && AllowedFilter(field) && request.filters[field].Some?
      && request.filters[field].value != []
  }

  predicate FilterHolds(request: Request, field: string, d: Document) {
    Effective(request, field) ==> AnyOf(request.filters[field].value, FieldValues(d, field))
  }

  /** The request's own restrictions, each read off the document. */
  predicate Selected(request: Request, d: Document) {
    && (request.documentTypes != [] ==> OneOf(request.documentTypes, d.source.documentType))
    && (request.applicationIds != [] ==> OneOf(request.applicationIds, d.applicationId))
    && (forall field <- request.filters :: FilterHolds(request, field, d))
  }

  type Filters = map<string, Option<seq<string>>>

  /** The filters name this field with these values. */
  predicate Names(filters: Filters, field: string, values: seq<string>) {
    field in filters && filters[field] == Some(values) && values != []
  }

  /**
   * What a request restricts, on the fields of the document: its lists, a filter on one of five names, and
   * a filter on an attribute with a name of at most 128 bytes. Any other filter restricts nothing.
   */
  ghost predicate Restricted(types: seq<string>, applications: seq<string>, filters: Filters, d: Document) {
    && (types != [] ==> d.source.documentType != "" && d.source.documentType in types)
    && (applications != [] ==> d.applicationId != "" && d.applicationId in applications)
    && (forall vs :: Names(filters, "id", vs) ==> d.id != "" && d.id in vs)
    && (forall vs :: Names(filters, "sourceService", vs) ==>
          d.source.sourceService != "" && d.source.sourceService in vs)
    && (forall vs :: Names(filters, "documentType", vs) ==>
          d.source.documentType != "" && d.source.documentType in vs)
    && (forall vs :: Names(filters, "applicationId", vs) ==> d.applicationId != "" && d.applicationId in vs)
    && (forall vs :: Names(filters, "permissionCode", vs) ==> d.permissionCode != "" && d.permissionCode in vs)
    && (forall name, vs :: Names(filters, "attributes." + name, vs) && ByteLength("attributes." + name) <= 128 ==>
          name in d.attributes && d.attributes[name] in vs)
  }

  /** `uint32` arithmetic, which wraps. */
  function Offset(page: uint32, size: uint32): uint32 {
    ((page - 1) % TWO32 * size) % TWO32
  }

  lemma FilterNames(r: Request, field: string, d: Document)
    requires field in r.filters
    ensures FilterHolds(r, field, d) <==>
      (AllowedFilter(field) ==> forall vs :: Names(r.filters, field, vs) ==> AnyOf(vs, FieldValues(d, field)))
  {
    hide AllowedFilter, AnyOf, FieldValues;
    if Effective(r, field) { assert Names(r.filters, field, r.filters[field].value); }
  }

  lemma NamedField(field: string, value: string, vs: seq<string>, d: Document)
    requires FieldValues(d, field) == Present(value)
    ensures AnyOf(vs, FieldValues(d, field)) <==> value != "" && value in vs
  {
  }

  lemma AttributeField(name: string, vs: seq<string>, d: Document)
    ensures var field := "attributes." + name;
      && (AllowedFilter(field) <==> ByteLength(field) <= 128)
      && (AnyOf(vs, FieldValues(d, field)) <==> name in d.attributes && d.attributes[name] in vs)
  {
    var field := "attributes." + name;
    assert field[|ATTRIBUTES|..] == name && field[0] == 'a' && field[1] == 't';
    assert field != "id" && field != "tenantId" && field != "sourceService" && field != "documentType";
    assert field != "sourceId" && field != "applicationId" && field != "permissionCode" && field != "visibilityTokens";
  }

  /** A filter on a field with one value, if there is such a filter. */
  lemma NamedFilter(r: Request, field: string, value: string, d: Document)
    requires AllowedFilter(field) && FieldValues(d, field) == Present(value)
    ensures (field in r.filters ==> FilterHolds(r, field, d)) <==>
      forall vs :: Names(r.filters, field, vs) ==> value != "" && value in vs
  {
    hide FieldValues, Effective, AnyOf;
    forall vs ensures AnyOf(vs, FieldValues(d, field)) <==> value != "" && value in vs {
      NamedField(field, value, vs, d);
    }
    if field in r.filters { FilterNames(r, field, d); }
  }

  lemma AttributeFilter(r: Request, name: string, d: Document)
    ensures var field := "attributes." + name;
      (field in r.filters ==> FilterHolds(r, field, d)) <==>
      forall vs :: Names(r.filters, field, vs) && ByteLength(field) <= 128 ==>
        name in d.attributes && d.attributes[name] in vs
  {
    var field := "attributes." + name;
    hide FieldValues, AllowedFilter, AnyOf, ByteLength, Effective;
    forall vs ensures AnyOf(vs, FieldValues(d, field)) <==> name in d.attributes && d.attributes[name] in vs {
      AttributeField(name, vs, d);
    }
    AttributeField(name, [], d);
    if field in r.filters { FilterNames(r, field, d); }
  }

  const NAMED := ["id", "sourceService", "documentType", "applicationId", "permissionCode"]

  lemma AllowedExactly(field: string)
    ensures AllowedFilter(field) <==>
      field in NAMED || (HasPrefix(field, "attributes.") && ByteLength(field) <= 128)
    ensures HasPrefix(field, "attributes.") ==> field == "attributes." + field[|ATTRIBUTES|..]
  {
  }

  /** What the request selects, read off the fields of request and document. */
  lemma SelectedExactly(r: Request, d: Document)
    ensures Selected(r, d) <==> Restricted(r.documentTypes, r.applicationIds, r.filters, d)
  {
    NamedFilter(r, "id", d.id, d);
    NamedFilter(r, "sourceService", d.source.sourceService, d);
    NamedFilter(r, "documentType", d.source.documentType, d);
    NamedFilter(r, "applicationId", d.applicationId, d);
    NamedFilter(r, "permissionCode", d.permissionCode, d);
    hide AllowedFilter, FieldValues, ByteLength, FilterHolds, Names;
    forall name ensures var field := "attributes." + name;
      (field in r.filters ==> FilterHolds(r, field, d)) <==>
      forall vs :: Names(r.filters, field, vs) && ByteLength(field) <= 128 ==>
        name in d.attributes && d.attributes[name] in vs
    {
      AttributeFilter(r, name, d);
    }
    if Restricted(r.documentTypes, r.applicationIds, r.filters, d) {
      forall field <- r.filters ensures FilterHolds(r, field, d) { RestrictedHolds(r, field, d); }
    }
  }

  lemma RestrictedHolds(r: Request, field: string, d: Document)
    requires Restricted(r.documentTypes, r.applicationIds, r.filters, d) && field in r.filters
    ensures FilterHolds(r, field, d)
  {
    AllowedExactly(field);
    FilterNames(r, field, d);
    hide AllowedFilter, FilterHolds, ByteLength;
    if HasPrefix(field, "attributes.") { AttributeFilter(r, field[|ATTRIBUTES|..], d); }
  }

  // ---------------------------------------------------------------- compilation

  /** The two fixed clauses and the two list clauses. */
  predicate FixedPart(request: Request, visibility: seq<string>, d: Document) {
    && InScope(request.tenantId, visibility, d)
    && (request.documentTypes != [] ==> OneOf(request.documentTypes, d.source.documentType))
    && (request.applicationIds != [] ==> OneOf(request.applicationIds, d.applicationId))
  }

  lemma AcceptsSnoc(filter: seq<Clause>, c: Clause, d: Document)
    ensures AcceptsAll(filter + [c], d) <==> AcceptsAll(filter, d) && Accepts(c, d)
  {
    if AcceptsAll(filter + [c], d) {
      assert c in filter + [c];
      forall x <- filter ensures Accepts(x, d) { assert x in filter + [c]; }
    }
  }

  lemma ListClause(d: Document, field: string, values: seq<string>, value: string)
    requires FieldValues(d, field) == Present(value)
    ensures Accepts(Terms(field, values), d) <==> OneOf(values, value)
  {
  }

  method FixedClauses(request: Request, visibility: seq<string>) returns (filters: seq<Clause>)
    ensures forall d :: AcceptsAll(filters, d) <==> FixedPart(request, visibility, d)
  {
    filters := [Term("tenantId", request.tenantId), Terms("visibilityTokens", visibility)];
    ghost var scope := filters;
    forall d ensures AcceptsAll(scope, d) <==> InScope(request.tenantId, visibility, d) {
      assert scope[0] in scope && scope[1] in scope;
      assert Accepts(scope[1], d) <==> AnyOf(visibility, set t <- d.visibilityTokens);
    }
    ghost var types := Terms("documentType", request.documentTypes);
    ghost var applications := Terms("applicationId", request.applicationIds);
    if |request.documentTypes| > 0 {
      filters := filters + [Terms("documentType", request.documentTypes)];
    }
    ghost var typed := filters;
    if |request.applicationIds| > 0 {
      filters := filters + [Terms("applicationId", request.applicationIds)];
    }
    forall d ensures AcceptsAll(filters, d) <==> FixedPart(request, visibility, d) {
      AcceptsSnoc(scope, types, d);
      AcceptsSnoc(typed, applications, d);
      ListClause(d, "documentType", request.documentTypes, d.source.documentType);
      ListClause(d, "applicationId", request.applicationIds, d.applicationId);
    }
  }

  /**
   * Compiles a request for a caller's tokens, walking the filter map in the order `order`. The filter
   * part accepts a document exactly when it is in the caller's scope and the request selects it.
   */
  method BuildSearchQuery(request: Request, visibility: seq<string>, order: seq<string>) returns (body: Body)
    requires forall field :: field in order <==> field in request.filters
    ensures forall d :: AcceptsAll(body.filter, d) <==> InScope(request.tenantId, visibility, d) && Selected(request, d)
    ensures body.must == if TrimSpace(request.query) == "" then MatchAll else MultiMatch(request.query)
    ensures body.from == Offset(request.page, request.pageSize) && body.size == request.pageSize
    ensures body.sort == (match request.sort
                          case Relevance => None
                          case UpdatedAtDesc => Some("desc")
                          case UpdatedAtAsc => Some("asc"))
    ensures forall field :: field in body.facets <==> field in request.facetFields && AllowedFilter(field)
  {
    var filters := FixedClauses(request, visibility);
    for i := 0 to |order|
      invariant forall d :: AcceptsAll(filters, d) <==>
        FixedPart(request, visibility, d) && forall field <- order[..i] :: FilterHolds(request, field, d)
    {
      var field := order[i];
      var values := request.filters[field];
      ghost var before := filters;
      if AllowedFilter(field) && values != None && |values.value| > 0 {
        filters := filters + [Terms(field, values.value)];
      }
      forall d ensures AcceptsAll(filters, d) <==>
          FixedPart(request, visibility, d) && forall f <- order[..i + 1] :: FilterHolds(request, f, d)
      {
        if Effective(request, field) { AcceptsSnoc(before, Terms(field, values.value), d); }
        assert AcceptsAll(filters, d) <==> AcceptsAll(before, d) && FilterHolds(request, field, d);
        assert order[..i + 1] == order[..i] + [field];
      }
    }
    assert order[..|order|] == order;
    var must := MatchAll;
    if TrimSpace(request.query) != "" { must := MultiMatch(request.query); }
    var from: int := ((request.page - 1) % TWO32 * request.pageSize) % TWO32;
    var sort := None;
    if request.sort == UpdatedAtDesc { sort := Some("desc"); }
    if request.sort == UpdatedAtAsc { sort := Some("asc"); }
    var facets := {};
    for i := 0 to |request.facetFields|
      invariant forall field :: field in facets <==> field in request.facetFields[..i] && AllowedFilter(field)
    {
      if AllowedFilter(request.facetFields[i]) { facets := facets + {request.facetFields[i]}; }
    }
    body := Body(from, request.pageSize, must, filters, sort, facets);
  }

  // ---------------------------------------------------------------- what the store answers

  /** What the store decides by itself: the order it ranks documents in, and which match a text. */
  datatype World = World(ranking: seq<string>, text: (string, Document) -> bool)

  /** The ranking lists every live document once. */
  ghost predicate Ranks(ranking: seq<string>, index: Index) {
    Distinct(ranking) && forall id <- index :: HasLive(index, id) ==> id in ranking
  }

  /** The live documents that `accept` lets through, in ranking order. */
  function Hits(index: Index, ranking: seq<string>, accept: Document -> bool): (hits: seq<Document>)
    ensures forall d <- hits :: accept(d)
    ensures forall d <- hits :: exists id <- ranking :: HasLive(index, id) && index[id].content.document == d
  {
    if ranking == [] then []
    else
      var last := ranking[|ranking| - 1];
      assert ranking == ranking[..|ranking| - 1] + [last];
      var front := Hits(index, ranking[..|ranking| - 1], accept);
      if HasLive(index, last) && accept(index[last].content.document)
      then front + [index[last].content.document] else front
  }

  lemma {:induction false} HitsComplete(index: Index, ranking: seq<string>, accept: Document -> bool, id: string)
    requires id in ranking && HasLive(index, id) && accept(index[id].content.document)
    ensures index[id].content.document in Hits(index, ranking, accept)
  {
    var front, last := ranking[..|ranking| - 1], ranking[|ranking| - 1];
    assert ranking == front + [last];
    if id != last { HitsComplete(index, front, accept, id); }
  }

  lemma {:induction false} HitsSame(index: Index, ranking: seq<string>, p: Document -> bool, q: Document -> bool)
    requires forall d :: p(d) == q(d)
    ensures Hits(index, ranking, p) == Hits(index, ranking, q)
  {
    if ranking != [] { HitsSame(index, ranking[..|ranking| - 1], p, q); }
  }

  predicate FindsAt(index: Index, ranking: seq<string>, accept: Document -> bool, k: nat) {
    k < |ranking| && HasLive(index, ranking[k]) && accept(index[ranking[k]].content.document)
  }

  /** `found` are the documents at these places of the ranking: all live ones that `accept` lets through, in order. */
  ghost predicate AtPlaces(index: Index, ranking: seq<string>, accept: Document -> bool, found: seq<Document>,
                           places: seq<nat>) {
    && |places| == |found|
    && (forall i, j :: 0 <= i < j < |places| ==> places[i] < places[j])
    && (forall k: nat :: k in places <==> FindsAt(index, ranking, accept, k))
    && (forall i :: 0 <= i < |places| ==>
          (FindsAt(index, ranking, accept, places[i]) && found[i] == index[ranking[places[i]]].content.document))
  }

  /** `found` are the live documents that `accept` lets through, no more, no fewer, in the order of the ranking. */
  ghost predicate RankedExactly(index: Index, ranking: seq<string>, accept: Document -> bool, found: seq<Document>) {
    exists places :: AtPlaces(index, ranking, accept, found, places)
  }

  lemma FindsBefore(index: Index, ranking: seq<string>, accept: Document -> bool, k: nat)
    requires ranking != [] && k != |ranking| - 1
    ensures FindsAt(index, ranking[..|ranking| - 1], accept, k) <==> FindsAt(index, ranking, accept, k)
  {
  }

  lemma NoPlaces(index: Index, accept: Document -> bool)
    ensures AtPlaces(index, [], accept, [], [])
  {
  }

  lemma PlacesSnoc(index: Index, ranking: seq<string>, accept: Document -> bool, found: seq<Document>,
                   before: seq<nat>)
    requires ranking != [] && AtPlaces(index, ranking[..|ranking| - 1], accept, found, before)
    ensures var n := |ranking| - 1;
      if FindsAt(index, ranking, accept, n)
      then AtPlaces(index, ranking, accept, found + [index[ranking[n]].content.document], before + [n])
      else AtPlaces(index, ranking, accept, found, before)
  {
    var n := |ranking| - 1;
    assert forall k :: k in before ==> k < n;
    forall i | 0 <= i < |before| ensures before[i] < n { assert before[i] in before; }
    forall k: nat | k != n ensures k in before <==> FindsAt(index, ranking, accept, k) {
      FindsBefore(index, ranking, accept, k);
    }
    assert n !in before;
    hide HasLive;
  }

  lemma {:induction false} HitsAtPlaces(index: Index, ranking: seq<string>, accept: Document -> bool)
    returns (places: seq<nat>)
    ensures AtPlaces(index, ranking, accept, Hits(index, ranking, accept), places)
  {
    hide AtPlaces;
    if ranking == [] {
      places := [];
      NoPlaces(index, accept);
    } else {
      var n := |ranking| - 1;
      places := HitsAtPlaces(index, ranking[..n], accept);
      PlacesSnoc(index, ranking, accept, Hits(index, ranking[..n], accept), places);
      if FindsAt(index, ranking, accept, n) { places := places + [n]; }
    }
  }

  lemma HitsAreRanked(index: Index, ranking: seq<string>, p: Document -> bool, q: Document -> bool)
    requires forall d :: p(d) == q(d)
    ensures RankedExactly(index, ranking, q, Hits(index, ranking, p))
  {
    HitsSame(index, ranking, p, q);
    var places := HitsAtPlaces(index, ranking, q);
  }

  function WithValue(hits: seq<Document>, field: string, value: string): nat {
    if hits == [] then 0
    else
      var front, last := hits[..|hits| - 1], hits[|hits| - 1];
      WithValue(front, field, value) + if value in FieldValues(last, field) then 1 else 0
  }

  /** The places of a list at which a document has this value. */
  function PlacesWith(hits: seq<Document>, field: string, value: string): set<nat> {
    set i: nat | i < |hits| && value in FieldValues(hits[i], field)
  }

  lemma {:induction false} WithValueCounts(hits: seq<Document>, field: string, value: string)
    ensures WithValue(hits, field, value) == |PlacesWith(hits, field, value)|
  {
    hide FieldValues;
    if hits != [] {
      var n := |hits| - 1;
      WithValueCounts(hits[..n], field, value);
      var before, here := PlacesWith(hits[..n], field, value), if value in FieldValues(hits[n], field) then {n} else {};
      assert PlacesWith(hits, field, value) == before + here;
    }
  }

  function Values(hits: seq<Document>, field: string): set<string> {
    set d <- hits, v <- FieldValues(d, field) :: v
  }

  /** The buckets of one facet: each value found and the number of found documents that have it. */
  function Buckets(hits: seq<Document>, field: string): map<string, nat> {
    map v <- Values(hits, field) :: WithValue(hits, field, v)
  }

  function Window(hits: seq<Document>, from: nat, size: nat): seq<Document> {
    if from >= |hits| then [] else if from + size <= |hits| then hits[from..from + size] else hits[from..]
  }

  datatype Response = Response(
    hits: seq<Document>, total: nat, page: int, pageSize: int, facets: map<string, map<string, nat>>)

  function BodyAccepts(body: Body, text: (string, Document) -> bool): Document -> bool {
    d => AcceptsAll(body.filter, d) && TextAccepts(body.must, text, d)
  }

  predicate TextMatches(request: Request, text: (string, Document) -> bool, d: Document) {
    TrimSpace(request.query) == "" || text(request.query, d)
  }

  /** What a caller with these tokens is entitled to find with this request. */
  function Wanted(request: Request, visibility: seq<string>, text: (string, Document) -> bool): Document -> bool {
    d => InScope(request.tenantId, visibility, d) && Selected(request, d) && TextMatches(request, text, d)
  }

  /** A body that filters for scope and selection and carries the request's text finds the wanted documents. */
  lemma BodyFinds(index: Index, body: Body, request: Request, visibility: seq<string>, world: World)
    requires forall d ::
      AcceptsAll(body.filter, d) <==> InScope(request.tenantId, visibility, d) && Selected(request, d)
    requires body.must == if TrimSpace(request.query) == "" then MatchAll else MultiMatch(request.query)
    ensures Hits(index, world.ranking, BodyAccepts(body, world.text)) ==
      Hits(index, world.ranking, Wanted(request, visibility, world.text))
  {
    hide AcceptsAll, InScope, Selected, Hits;
    HitsSame(index, world.ranking, BodyAccepts(body, world.text), Wanted(request, visibility, world.text));
  }

  /** The page of wanted documents, their number, and the facets over all of them. */
  function Answer(index: Index, request: Request, visibility: seq<string>, world: World): Response {
    var found := Hits(index, world.ranking, Wanted(request, visibility, world.text));
    Response(Window(found, Offset(request.page, request.pageSize), request.pageSize), |found|,
             request.page, request.pageSize,
             map field | field in request.facetFields && AllowedFilter(field) :: Buckets(found, field))
  }
}

/** The OpenSearch engine: batch loops over the versioned index, and the three kinds of read. */
module SearchStore {
  import Ordered
  import opened Results
  import opened Documents
  import opened Store
  import opened Query

  datatype DocumentKey = DocumentKey(source: SourceKey, sourceVersion: int)

  datatype SuggestQuery = SuggestQuery(
    tenantId: string, prefix: string, documentTypes: seq<string>, applicationIds: seq<string>, limit: uint32)

  datatype Suggestion = Suggestion(text: string, documentType: string, sourceId: string, url: string)

  function Upserts(documents: seq<Document>): (ops: seq<Op>)
    ensures |ops| == |documents|
  {
    seq(|documents|, i requires 0 <= i < |documents| => Op.Upsert(documents[i]))
  }

  function Deletes(keys: seq<DocumentKey>): (ops: seq<Op>)
    ensures |ops| == |keys|
  {
    seq(|keys|, i requires 0 <= i < |keys| => Op.Delete(keys[i].source, keys[i].sourceVersion))
  }

  /** The search a suggestion runs: its prefix as the text, one page of `limit` documents. */
  function AsRequest(s: SuggestQuery): Request {
    Request(s.tenantId, s.prefix, s.documentTypes, s.applicationIds, map[], Relevance, 1, s.limit, [])
  }

  /** The search a lookup by id runs. */
  function Lookup(tenantId: string, id: string): Request {
    Request(tenantId, "", [], [], map["id" := Some([id])], Relevance, 1, 1, [])
  }

  function AsSuggestion(d: Document): Suggestion {
    Suggestion(d.title, d.source.documentType, d.source.sourceId, d.url)
  }

  function SearchResult(index: Index, request: Request, visibility: seq<string>, world: World,
                        reply: Reply): Result<Response> {
    match StatusError(reply)
    case Some(e) => Err(e)
    case None => Ok(Answer(index, request, visibility, world))
  }

  function GetResult(index: Index, tenantId: string, id: string, visibility: seq<string>, world: World,
      reply: Reply): Result<Document> {
    match SearchResult(index, Lookup(tenantId, id), visibility, world, reply)
    case Err(e) => Err(e)
    case Ok(r) => if r.hits == [] then Err(NotFound) else Ok(r.hits[0])
  }

  /** The body sent to the store lets through nothing but what the caller may see and the request selects. */
  ghost predicate Sends(body: Body, request: Request, visibility: seq<string>) {
    forall d :: AcceptsAll(body.filter, d) <==> InScope(request.tenantId, visibility, d) && Selected(request, d)
  }

  class Engine {
    var index: Index
    /** Every search body sent to the store so far. */
    var searches: seq<Body>

    constructor ()
      ensures index == map[] && searches == []
    {
      index, searches := map[], [];
    }

    /** One write request and what comes back from it. */
    method Perform(op: Op, d: Delivery) returns (reply: Reply)
      modifies this`index
      ensures index == AfterDelivery(old(index), op, d)
      ensures reply == ReplyTo(old(index), op, d)
    {
      match d {
        case Lost => reply := TransportFailure;
        case Refused(status, landed) =>
          if landed && StatusOf(index, op) != 409 { index := index[Key(op) := EntryOf(op)]; }
          reply := Replied(status);
        case _ =>
          var status := StatusOf(index, op);
          if status != 409 { index := index[Key(op) := EntryOf(op)]; }
          reply := if d.Answered? then Replied(status) else TransportFailure;
      }
    }

    /** `net(i)` is what becomes of the i-th request. */
    method Upsert(documents: seq<Document>, net: nat -> Delivery) returns (err: Option<Error>)
      modifies this`index
      ensures var b := RunBatch(old(index), Upserts(documents), net, 0); index == b.index && err == b.error
    {
      ghost var ops := Upserts(documents);
      for i := 0 to |documents|
        invariant RunBatch(index, ops, net, i) == RunBatch(old(index), ops, net, 0)
      {
        var reply := Perform(Op.Upsert(documents[i]), net(i));
        var e := StatusError(reply);
        if e != None {
          if e == Some(StoreStatus(409)) { continue; }
          return e;
        }
      }
      return None;
    }

    method Delete(keys: seq<DocumentKey>, net: nat -> Delivery) returns (err: Option<Error>)
      modifies this`index
      ensures var b := RunBatch(old(index), Deletes(keys), net, 0); index == b.index && err == b.error
    {
      ghost var ops := Deletes(keys);
      for i := 0 to |keys|
        invariant RunBatch(index, ops, net, i) == RunBatch(old(index), ops, net, 0)
      {
        var reply := Perform(Op.Delete(keys[i].source, keys[i].sourceVersion), net(i));
        var e := StatusError(reply);
        if e != None && e != Some(NotFound) {
          if e == Some(StoreStatus(409)) { continue; }
          return e;
        }
      }
      return None;
    }

    /** `order` is the iteration order of the request's filter map. */
    method Search(request: Request, visibility: seq<string>, order: seq<string>, world: World, reply: Reply)
      returns (r: Result<Response>)
      requires forall field :: field in order <==> field in request.filters
      modifies this`searches
      ensures |searches| == |old(searches)| + 1 && old(searches) < searches
      ensures Sends(searches[|old(searches)|], request, visibility)
      ensures r == SearchResult(index, request, visibility, world, reply)
    {
      var body := BuildSearchQuery(request, visibility, order);
      searches := searches + [body];
      var err := StatusError(reply);
      if err != None { return Err(err.value); }
      var found := Hits(index, world.ranking, BodyAccepts(body, world.text));
      BodyFinds(index, body, request, visibility, world);
      var page := Window(found, body.from, body.size);
      var hits := [];
      for i := 0 to |page|
        invariant hits == page[..i]
      {
        hits := hits + [page[i]];
      }
      assert page[..|page|] == page;
      var facets := map field <- body.facets :: Buckets(found, field);
      assert facets == Answer(index, request, visibility, world).facets;
      return Ok(Response(hits, |found|, request.page, request.pageSize, facets));
    }

    method Suggest(query: SuggestQuery, visibility: seq<string>, world: World, reply: Reply)
      returns (r: Result<seq<Suggestion>>)
      modifies this`searches
      ensures |searches| == |old(searches)| + 1 && old(searches) < searches
      ensures Sends(searches[|old(searches)|], AsRequest(query), visibility)
      ensures match SearchResult(index, AsRequest(query), visibility, world, reply)
        case Err(e) => r == Err(e)
        case Ok(response) => r == Ok(Ordered.Map(AsSuggestion, response.hits))
    {
      var found := Search(AsRequest(query), visibility, [], world, reply);
      if found.Err? { return Err(found.error); }
      var hits := found.value.hits;
      var suggestions := [];
      for i := 0 to |hits|
        invariant suggestions == Ordered.Map(AsSuggestion, hits[..i])
      {
        suggestions := suggestions + [AsSuggestion(hits[i])];
      }
      assert hits[..|hits|] == hits;
      return Ok(suggestions);
    }

    method Get(tenantId: string, id: string, visibility: seq<string>, world: World, reply: Reply)
      returns (r: Result<Document>)
      modifies this`searches
      ensures |searches| == |old(searches)| + 1 && old(searches) < searches
      ensures Sends(searches[|old(searches)|], Lookup(tenantId, id), visibility)
      ensures r == GetResult(index, tenantId, id, visibility, world, reply)
    {
      var found := Search(Lookup(tenantId, id), visibility, ["id"], world, reply);
      if found.Err? { return Err(found.error); }
      if |found.value.hits| == 0 { return Err(NotFound); }
      return Ok(found.value.hits[0]);
    }
  }
}

/** Which stored documents any caller of the service can ever be shown. */
module Callers {
  import opened Results
  import opened Text
  import opened Documents
  import opened Store
  import opened Query
  import opened SearchStore
  import opened SearchService
  import opened Transports
  import opened Resolver
  import opened ReadSafety

  const SERVICE_ACCOUNT := "service-account:"

  // ---------------------------------------------------------------- the tokens callers come with

  ghost predicate FromResolver(tenantId: string, values: seq<string>) {
    exists p, server :: Resolve(p, tenantId, server).0 == Tokens(values)
  }

  ghost predicate FromTransport(tenantId: string, values: seq<string>) {
    exists p :: HttpVisibility(p, tenantId) == Ok(values) || GrpcVisibility(p, tenantId) == Ok(values)
  }

  /** Some caller, on either transport, with or without a resolver, comes with these tokens. */
  ghost predicate Issued(tenantId: string, values: seq<string>) {
    FromResolver(tenantId, values) || FromTransport(tenantId, values)
  }

  /** A user, membership or role token, by its first letter. */
  predicate Personal(value: string) { value != "" && (value[0] == 'u' || value[0] == 'm' || value[0] == 'r') }

  predicate AllPersonal(values: seq<string>) { forall v <- values :: Personal(v) }

  lemma WalkIsPersonal(server: Server, base: seq<string>)
    requires AllPersonal(base) && WalkPages(server, base).0.Tokens?
    ensures AllPersonal(WalkPages(server, base).0.tokens)
  {
    hide WalkPages;
    AnyServerIsBounded(server, base);
    var values := WalkPages(server, base).0.tokens;
    forall v <- values ensures Personal(v) {
      var i :| 0 <= i < |values| && values[i] == v;
      if i < |base| {
        assert base[i] == v;
      } else {
        assert values[|base|..][i - |base|] == v;
        SeenIsPersonal(server, WalkPages(server, base).1, v);
      }
    }
  }

  lemma SeenIsPersonal(server: Server, n: nat, token: string)
    requires SeenActive(server, n, token)
    ensures Personal(token)
  {
  }

  lemma IssuedIsPersonal(tenantId: string, values: seq<string>)
    requires Issued(tenantId, values)
    ensures AllPersonal(values)
  {
    hide WalkPages;
    if FromResolver(tenantId, values) {
      var p, server :| Resolve(p, tenantId, server).0 == Tokens(values);
      var own := OwnTokens(p.value);
      if server.Some? && p.value.membershipId != "" { WalkIsPersonal(server.value, own); }
    }
  }

  /** No caller searches with a token of a service account. */
  lemma NoServiceAccounts(tenantId: string, values: seq<string>, token: string)
    ensures Issued(tenantId, values) && token in Normalized(tenantId, values) ==>
      !HasPrefix(token, SERVICE_ACCOUNT) && Trimmed(token)
  {
    hide Issued;
    if Issued(tenantId, values) && token in Normalized(tenantId, values) {
      IssuedIsPersonal(tenantId, values);
      NormalizedExactly(tenantId, values, token);
      if token != Broad(tenantId) {
        var v :| v in values && TrimSpace(v) == token;
        TrimKeepsHead(v, IsSpace);
      }
    }
  }

  // ---------------------------------------------------------------- being shown a document

  predicate Grantable(token: string) { Trimmed(token) && !HasPrefix(token, SERVICE_ACCOUNT) }

  ghost predicate SearchShows(index: Index, check: Checker, r: Request, visibility: seq<string>, world: World,
                              reply: Reply, d: Document) {
    var outcome := SearchOutcome(index, check, Some(r), visibility, world, reply);
    Reachable(index) && outcome.Ok? && d in outcome.value.hits
  }

  ghost predicate GetGives(index: Index, check: Checker, tenantId: string, id: string, visibility: seq<string>,
                           world: World, reply: Reply, d: Document) {
    Reachable(index) && GetOutcome(index, check, tenantId, id, visibility, world, reply) == Ok(d)
  }

  /** A caller with these tokens, asking for this tenant, is shown the document by some read of some reachable index. */
  ghost predicate ShownTo(tenantId: string, values: seq<string>, d: Document) {
    || (exists index, check, r, world, reply ::
          SearchShows(index, check, r, values, world, reply, d) && r.tenantId == tenantId)
    || (exists index, check, id, world, reply :: GetGives(index, check, tenantId, id, values, world, reply, d))
  }

  ghost predicate ShownToSomeone(d: Document) {
    exists tenantId, values :: Issued(tenantId, values) && ShownTo(tenantId, values, d)
  }

  lemma GetIsSafe(index: Index, check: Checker, tenantId: string, id: string, values: seq<string>, world: World,
                  reply: Reply, d: Document)
    requires GetGives(index, check, tenantId, id, values, world, reply, d)
    ensures TrimSpace(tenantId) != "" && MaySee(index, tenantId, Normalized(tenantId, values), d)
  {
    hide TrimSpace, Normalized, Authorized, Answer, MaySee, Reachable;
    AnswerIsSafe(index, Lookup(tenantId, id), Normalized(tenantId, values), world);
  }

  lemma ShownIsInScope(tenantId: string, values: seq<string>, d: Document)
    requires ShownTo(tenantId, values, d)
    ensures TrimSpace(tenantId) != "" && InScope(tenantId, Normalized(tenantId, values), d)
  {
    hide TrimSpace, Normalized, Authorized, Answer, Reachable, GetGives;
    if index, check, r, world, reply :|
      SearchShows(index, check, r, values, world, reply, d) && r.tenantId == tenantId
    {
      SearchIsSafe(index, check, r, values, world, reply);
      assert MaySee(index, tenantId, Normalized(tenantId, values), d);
    } else {
      var index, check, id, world, reply :| GetGives(index, check, tenantId, id, values, world, reply, d);
      GetIsSafe(index, check, tenantId, id, values, world, reply, d);
    }
  }

  /** For every token that validation admits and no service account has, there is a caller who searches with it. */
  lemma CallerWith(document: Document, token: string) returns (values: seq<string>)
    requires ValidToken(document, token) && Grantable(token)
    ensures Issued(document.source.tenantId, values)
    ensures token in Normalized(document.source.tenantId, values)
  {
    var tenantId := document.source.tenantId;
    if token == Broad(tenantId) {
      values := OwnTokens(Principal("", "", ""));
      assert Resolve(Some(Principal("", "", "")), tenantId, None).0 == Tokens(values);
    } else {
      var k :| 0 <= k < |PREFIXES| && Extends(token, PREFIXES[k]);
      assert token == PREFIXES[k] + token[|PREFIXES[k]|..];
      values := HolderOf(tenantId, k, token[|PREFIXES[k]|..]);
      var i :| 0 <= i < |values| && values[i] == token;
      assert TrimSpace(values[i]) == token;
    }
    NormalizedExactly(tenantId, values, token);
  }

  lemma HolderOf(tenantId: string, k: nat, name: string) returns (values: seq<string>)
    requires k < 3 && name != ""
    ensures Issued(tenantId, values) && PREFIXES[k] + name in values
  {
    if k == 0 {
      var p := Principal(name, "", "");
      values := OwnTokens(p);
      assert Resolve(Some(p), tenantId, None).0 == Tokens(values);
      assert values[0] == PREFIXES[0] + name;
    } else if k == 1 {
      var p := Principal("", "", name);
      values := OwnTokens(p);
      assert Resolve(Some(p), tenantId, None).0 == Tokens(values);
      assert values[1] == PREFIXES[1] + name;
    } else {
      values := RoleHolder(tenantId, name);
    }
  }

  lemma OneRole(role: string)
    requires role != ""
    ensures RoleTokens([Binding(role, "active")]) == [RoleToken(role)]
  {
    RoleTokensSnoc([], Binding(role, "active"));
    assert [] + [Binding(role, "active")] == [Binding(role, "active")];
    assert Roles([]) == [] && RoleTokens([]) == [];
  }

  lemma RoleHolder(tenantId: string, role: string) returns (values: seq<string>)
    requires role != ""
    ensures Issued(tenantId, values) && PREFIXES[2] + role in values
  {
    hide WalkPages, RoleTokens;
    var p, b := Principal("", "", "m"), Binding(role, "active");
    values := OwnTokens(p) + [RoleToken(role)];
    OneRole(role);
    StableListExactly([b], OwnTokens(p));
    assert Resolve(Some(p), tenantId, Some(Stable([b]))).0 == Tokens(values);
    assert values[|OwnTokens(p)|] == PREFIXES[2] + role;
  }

  /** The first page of everything in a tenant. */
  function Everything(tenantId: string): Request {
    Request(tenantId, "", [], [], map[], UpdatedAtDesc, 1, 20, [])
  }

  /**
   * Some caller can be shown a stored document, by a search or a lookup of some reachable index, exactly
   * when its tenant is not blank and one of its tokens is stored trimmed and is not a service account's.
   */
  lemma ShownExactly(d: Document)
    requires Stored(d)
    ensures ShownToSomeone(d) <==>
      TrimSpace(d.source.tenantId) != "" && exists t <- d.visibilityTokens :: Grantable(t)
  {
    hide TrimSpace, Normalized, Issued, ShownTo, CanonicalID;
    if ShownToSomeone(d) {
      var tenantId, values :| Issued(tenantId, values) && ShownTo(tenantId, values, d);
      ShownIsInScope(tenantId, values, d);
      var t :| t in d.visibilityTokens && t in Normalized(tenantId, values);
      NoServiceAccounts(tenantId, values, t);
    }
    if TrimSpace(d.source.tenantId) != "" {
      if t :| t in d.visibilityTokens && Grantable(t) { HolderIsShown(d, t); }
    }
  }

  lemma EverythingSelects(d: Document)
    ensures Selected(Everything(d.source.tenantId), d)
  {
  }

  lemma ShownBySearch(index: Index, check: Checker, r: Request, values: seq<string>, world: World, reply: Reply,
      d: Document)
    requires Issued(r.tenantId, values) && SearchShows(index, check, r, values, world, reply, d)
    ensures ShownToSomeone(d)
  {
    hide Issued, SearchShows;
    assert ShownTo(r.tenantId, values, d);
  }

  lemma HolderIsShown(d: Document, t: string)
    requires Stored(d) && TrimSpace(d.source.tenantId) != "" && t in d.visibilityTokens && Grantable(t)
    ensures ShownToSomeone(d)
  {
    assert ValidToken(d, t) && d.source.tenantId != "";
    assert TrimSpace("") == "";
    hide TrimSpace, Normalized, Issued, CanonicalID, Reachable, SearchOutcome, Stored, Selected, ShownToSomeone,
      ValidToken;
    var r, world := Everything(d.source.tenantId), World([d.id], (_, _) => true);
    var check: Checker := (_, _) => Failed;
    var values := CallerWith(d, t);
    EverythingSelects(d);
    ShownAlone(d, r, values, check, world);
    var index: Index := map[d.id := Entry(d.sourceVersion, Live(d))];
    ShownBySearch(index, check, r, values, world, Replied(200), d);
  }

  // ---------------------------------------------------------------- documents validation admits in vain

  /** A document visible to service accounts only is stored, and shown to nobody. */
  lemma ServiceAccountDocument(d: Document, name: string)
    requires Stored(d) && name != "" && Trimmed(SERVICE_ACCOUNT + name)
    ensures var hidden := d.(visibilityTokens := [SERVICE_ACCOUNT + name]); Stored(hidden) && !ShownToSomeone(hidden)
  {
    var token := SERVICE_ACCOUNT + name;
    var hidden := d.(visibilityTokens := [token]);
    assert Extends(token, PREFIXES[3]);
    hide TrimSpace, CanonicalID, ShownToSomeone;
    assert token != Broad(d.source.tenantId) by { assert token[0] == 's'; }
    assert ValidToken(hidden, token);
    ShownExactly(hidden);
  }

  /** So is a document of a tenant whose name is blank: every read refuses that tenant. */
  lemma BlankTenantDocument(name: string)
    requires name != "" && Trimmed("user:" + name)
    ensures var source := SourceKey(" ", "s", "k", "1");
      var hidden := Document(CanonicalID(source), source, "", "", "", "", "", ["user:" + name], map[], 1);
      Stored(hidden) && !ShownToSomeone(hidden)
  {
    var source := SourceKey(" ", "s", "k", "1");
    var hidden := Document(CanonicalID(source), source, "", "", "", "", "", ["user:" + name], map[], 1);
    assert TrimSpace(" ") == "" by { assert " "[1..] == ""; }
    assert Extends("user:" + name, PREFIXES[0]);
    hide TrimSpace, CanonicalID, ShownToSomeone;
    assert ValidToken(hidden, "user:" + name);
    ShownExactly(hidden);
  }

  /** And so is one whose only token has blanks around it. */
  lemma PaddedDocument(d: Document, token: string)
    requires Stored(d) && token in d.visibilityTokens && Trimmed(token)
    ensures var hidden := d.(visibilityTokens := [[' '] + token]); Stored(hidden) && !ShownToSomeone(hidden)
  {
    UnreachableDocument(d, token);
    var hidden := d.(visibilityTokens := [[' '] + token]);
    if t :| t in hidden.visibilityTokens && Trimmed(t) {
      hide TrimSpace, Normalized;
      ReachableExactly(hidden);
      assert false;
    }
    hide TrimSpace, ShownToSomeone;
    ShownExactly(hidden);
  }
}

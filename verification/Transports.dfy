/** The caller tokens of the two transports when no role resolver is configured. */
module Transports {
  import opened Results
  import opened Text
  import opened Documents
  import opened Query

  datatype Principal = Principal(id: string, tenantId: string, membershipId: string)

  /** The principal belongs to another tenant than the one asked for. */
  predicate Foreign(p: Principal, tenantId: string) { p.tenantId != "" && p.tenantId != tenantId }

  function OwnTokens(p: Principal): seq<string> {
    ["user:" + p.id] + if p.membershipId != "" then ["membership:" + p.membershipId] else []
  }

  function HttpVisibility(principal: Option<Principal>, tenantId: string): Result<seq<string>> {
    if principal.None? then Ok([])
    else if Foreign(principal.value, tenantId) then Err(Forbidden)
    else Ok(OwnTokens(principal.value))
  }

  function GrpcVisibility(principal: Option<Principal>, tenantId: string): Result<seq<string>> {
    if principal.None? || principal.value.id == "" then Ok([])
    else if Foreign(principal.value, tenantId) then Err(Forbidden)
    else Ok(OwnTokens(principal.value))
  }

  /** What a caller with these tokens can see of the stored documents; the service refuses a blank tenant. */
  predicate InView(tenantId: string, tokens: seq<string>, d: Document) {
    TrimSpace(tenantId) != "" && Stored(d) && InScope(tenantId, Normalized(tenantId, tokens), d)
  }

  /** Both deny for the same reason, or both let the caller see the same stored documents. */
  ghost predicate SameView(a: Result<seq<string>>, b: Result<seq<string>>, tenantId: string) {
    match (a, b)
    case (Err(e), Err(f)) => e == f
    case (Ok(v), Ok(w)) => forall d :: InView(tenantId, v, d) <==> InView(tenantId, w, d)
    case _ => false
  }

  predicate AllBlank(s: string) { forall c <- s :: IsSpace(c) }

  /** The token a prefix and an id trim to: the prefix stays, blanks behind the id go. */
  lemma {:induction false} TrimRightAfter(head: string, s: string)
    requires head != [] && !IsSpace(head[|head| - 1])
    ensures TrimRight(head + s, IsSpace) == head + TrimRight(s, IsSpace)
  {
    if s == [] {
      assert head + s == head;
    } else if IsSpace(s[|s| - 1]) {
      assert (head + s)[..|head + s| - 1] == head + s[..|s| - 1];
      TrimRightAfter(head, s[..|s| - 1]);
    }
  }

  lemma {:induction false} TrimRightBlank(s: string)
    ensures TrimRight(s, IsSpace) == [] <==> AllBlank(s)
  {
    if s != [] {
      TrimRightBlank(s[..|s| - 1]);
      assert s == s[..|s| - 1] + [s[|s| - 1]];
    }
  }

  lemma PrefixedToken(prefix: string, s: string)
    requires |prefix| >= 2 && !IsSpace(prefix[0]) && prefix[|prefix| - 1] == ':'
    ensures TrimSpace(prefix + s) == prefix + TrimRight(s, IsSpace)
  {
    TrimKeepsHead(prefix + s, IsSpace);
    TrimRightAfter(prefix, s);
  }

  /** No stored document carries a bare prefix as a usable token. */
  lemma BarePrefixMatchesNothing(d: Document, token: string)
    requires Stored(d) && (token == "user:" || token == "membership:")
    ensures token !in d.visibilityTokens
  {
    if token in d.visibilityTokens {
      assert TrimSpace(token) == token by { assert !IsSpace(token[0]) && !IsSpace(token[|token| - 1]); }
      assert ValidToken(d, token);
      assert token != Broad(d.source.tenantId) by { assert token[0] != 't'; }
      assert Grants(token);
      NoProperPrefix(token);
      assert false;
    }
  }

  lemma NoProperPrefix(token: string)
    requires token == "user:" || token == "membership:"
    ensures !Grants(token)
  {
    assert PREFIXES[0][0] == 'u' && PREFIXES[1][0] == 'm' && PREFIXES[2][0] == 'r' && PREFIXES[3][0] == 's';
    assert |PREFIXES[0]| == 5 && |PREFIXES[1]| == 11;
  }

  /** Tokens that trim to a bare prefix add nothing to what a caller sees. */
  lemma BareTokensAddNothing(tenantId: string, values: seq<string>, d: Document)
    requires Stored(d)
    requires forall v <- values :: TrimSpace(v) == "user:" || TrimSpace(v) == "membership:"
    ensures Shares(d, Normalized(tenantId, values)) <==> Shares(d, Normalized(tenantId, []))
  {
    forall t <- d.visibilityTokens ensures t in Normalized(tenantId, values) <==> t in Normalized(tenantId, []) {
      NormalizedExactly(tenantId, values, t);
      NormalizedExactly(tenantId, [], t);
      if v :| v in values && TrimSpace(v) == t { BarePrefixMatchesNothing(d, t); }
    }
  }

  /** A document of this tenant that only this membership can see. */
  function MembersOnly(tenantId: string, token: string): Document {
    var source := SourceKey(tenantId, "s", "k", "1");
    Document(CanonicalID(source), source, "", "", "", "", "", [token], map[], 1)
  }

  lemma MembersOnlyIsStored(tenantId: string, token: string)
    requires tenantId != "" && Extends(token, PREFIXES[1]) && TrimSpace(token) == token
    ensures Stored(MembersOnly(tenantId, token))
  {
    var d := MembersOnly(tenantId, token);
    hide CanonicalID, TrimSpace;
    assert ValidToken(d, token);
  }

  /** The membership token brings a document of the tenant into view that the tenant-wide token alone does not. */
  lemma MembershipWitness(tenantId: string, id: string, membershipId: string)
    requires TrimSpace(tenantId) != "" && !AllBlank(membershipId)
    ensures var d := MembersOnly(tenantId, "membership:" + TrimRight(membershipId, IsSpace));
      InView(tenantId, ["user:" + id, "membership:" + membershipId], d) && !InView(tenantId, [], d)
  {
    var token := "membership:" + TrimRight(membershipId, IsSpace);
    var tokens := ["user:" + id, "membership:" + membershipId];
    PrefixedToken("membership:", membershipId);
    TrimRightBlank(membershipId);
    assert TrimSpace(token) == token;
    assert TrimSpace("") == "";
    assert token[0] == 'm';
    MembersOnlyIsStored(tenantId, token);
    hide Stored, TrimSpace, Normalized;
    assert tokens[1] in tokens && token in [token];
    NormalizedExactly(tenantId, tokens, token);
    NormalizedExactly(tenantId, [], token);
  }

  /** Tokens that trim to a bare prefix do not change the view. */
  lemma BareTokensSameView(tenantId: string, values: seq<string>)
    requires forall v <- values :: TrimSpace(v) == "user:" || TrimSpace(v) == "membership:"
    ensures SameView(Ok(values), Ok([]), tenantId)
  {
    hide TrimSpace, Normalized, Stored;
    forall d | Stored(d) ensures InView(tenantId, values, d) <==> InView(tenantId, [], d) {
      BareTokensAddNothing(tenantId, values, d);
    }
  }

  /**
   * Without a resolver the two transports give the same view exactly when there is no principal, or it
   * has an id, or it belongs to no other tenant and either the tenant asked for or its membership is blank.
   */
  lemma TransportsAgreeExactly(principal: Option<Principal>, tenantId: string)
    ensures SameView(HttpVisibility(principal, tenantId), GrpcVisibility(principal, tenantId), tenantId) <==>
      principal.None? || principal.value.id != "" ||
      (!Foreign(principal.value, tenantId) && (TrimSpace(tenantId) == "" || AllBlank(principal.value.membershipId)))
  {
    if principal.Some? && principal.value.id == "" && !Foreign(principal.value, tenantId) {
      var m := principal.value.membershipId;
      var tokens := OwnTokens(principal.value);
      PrefixedToken("user:", "");
      PrefixedToken("membership:", m);
      TrimRightBlank(m);
      assert TrimSpace("user:" + "") == "user:";
      hide TrimSpace, InView;
      if AllBlank(m) {
        BareTokensSameView(tenantId, tokens);
      } else if TrimSpace(tenantId) != "" {
        MembershipWitness(tenantId, "", m);
      } else {
        NothingInView(tenantId, tokens);
      }
    }
  }

  lemma NothingInView(tenantId: string, tokens: seq<string>)
    requires TrimSpace(tenantId) == ""
    ensures SameView(Ok(tokens), Ok([]), tenantId)
  {
  }

  /** A document that a caller holding this token is to see: stored in the tenant and shared with the token. */
  predicate SharedWith(tenantId: string, d: Document, token: string) {
    TrimSpace(tenantId) != "" && Stored(d) && d.source.tenantId == tenantId && token in d.visibilityTokens
  }

  /** The view of a list of tokens: what is shared with the whole tenant or with one of them. */
  lemma ViewExactly(tenantId: string, values: seq<string>, d: Document)
    ensures InView(tenantId, values, d) <==>
      SharedWith(tenantId, d, "tenant:" + tenantId + ":*")
      || exists v <- values :: SharedWith(tenantId, d, TrimSpace(v))
  {
    hide TrimSpace, CanonicalID, Normalized;
    assert TrimSpace(tenantId) != "" ==> tenantId != "" by { BlankIsBlank(); }
    if Stored(d) {
      forall t <- d.visibilityTokens
        ensures t in Normalized(tenantId, values) <==> t == Broad(tenantId) || exists v <- values :: TrimSpace(v) == t
      {
        assert ValidToken(d, t);
        StoredTokenIsNotEmpty(d, t);
        NormalizedExactly(tenantId, values, t);
      }
    }
  }

  lemma BlankIsBlank()
    ensures TrimSpace("") == ""
  {
  }

  lemma StoredTokenIsNotEmpty(d: Document, token: string)
    requires ValidToken(d, token)
    ensures token != ""
  {
  }

  /**
   * Both transports refuse a principal of another tenant, gRPC only one with an id, and admit every other
   * one. An admitted caller sees what is shared with the tenant, the user or the membership, and no more;
   * one without an id, on gRPC, sees what is shared with the tenant.
   */
  lemma AdmittedExactly(p: Principal, tenantId: string, d: Document)
    ensures var http, grpc := HttpVisibility(Some(p), tenantId), GrpcVisibility(Some(p), tenantId);
      var own := SharedWith(tenantId, d, TrimSpace("user:" + p.id)) ||
        (p.membershipId != "" && SharedWith(tenantId, d, TrimSpace("membership:" + p.membershipId)));
      var all := SharedWith(tenantId, d, "tenant:" + tenantId + ":*");
      && (p.tenantId != "" && p.tenantId != tenantId ==>
            http == Err(Forbidden) && (if p.id == "" then grpc == Ok([]) else grpc == Err(Forbidden)))
      && (p.tenantId == "" || p.tenantId == tenantId ==> http.Ok? && grpc.Ok?)
      && (http.Ok? ==> (InView(tenantId, http.value, d) <==> all || own))
      && (grpc.Ok? ==> (InView(tenantId, grpc.value, d) <==> all || (p.id != "" && own)))
  {
    hide TrimSpace, InView, SharedWith;
    ViewExactly(tenantId, OwnTokens(p), d);
    ViewExactly(tenantId, [], d);
    var tokens := OwnTokens(p);
    assert tokens[0] == "user:" + p.id && (p.membershipId != "" ==> tokens[1] == "membership:" + p.membershipId);
  }
}

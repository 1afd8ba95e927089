/** The paginated resolution of a caller's roles. */
module Resolver {
  import opened Results
  import opened Ordered
  import opened Transports

  const PAGE_SIZE := 100
  const MAX_PAGES := 100

  datatype Binding = Binding(roleId: string, status: string)

  /** What the authorization service answers to one page request; the page information may be missing. */
  datatype PageAnswer = ListFailed | Page(bindings: seq<Binding>, total: Option<nat>)

  type Server = nat -> PageAnswer

  datatype Outcome = Tokens(tokens: seq<string>) | MissingPrincipal | ForeignTenant | ListError | TooManyBindings

  predicate Active(b: Binding) { b.status == "active" && b.roleId != "" }

  function RoleOf(b: Binding): string { b.roleId }

  function RoleToken(role: string): string { "role:" + role }

  /** The distinct active roles of a list of bindings, first seen first. */
  function Roles(bindings: seq<Binding>): seq<string> { Dedup(Map(RoleOf, Filter(Active, bindings))) }

  function RoleTokens(bindings: seq<Binding>): seq<string> { Map(RoleToken, Roles(bindings)) }

  // ---------------------------------------------------------------- reference

  /** The server ends the walk at this page: it fails, or this is the last page, or the page is empty. */
  predicate Ends(server: Server, page: nat) {
    match server(page)
    case ListFailed => true
    case Page(bindings, total) => total.None? || page * PAGE_SIZE >= total.value || bindings == []
  }

  /** The first page from `page` on at which the walk ends; one past the limit when it does not end. */
  function EndPage(server: Server, page: nat): (n: nat)
    requires 1 <= page <= MAX_PAGES + 1
    ensures page <= n <= MAX_PAGES + 1 && (n <= MAX_PAGES ==> Ends(server, n))
    ensures forall k :: page <= k < n ==> !Ends(server, k)
    decreases MAX_PAGES + 1 - page
  {
    if page > MAX_PAGES || Ends(server, page) then page else EndPage(server, page + 1)
  }

  /** The bindings of pages 1 to `n`, one page after the other. */
  function Listed(server: Server, n: nat): seq<Binding> {
    if n == 0 then [] else Listed(server, n - 1) + if server(n).Page? then server(n).bindings else []
  }

  function WalkPages(server: Server, base: seq<string>): (Outcome, nat) {
    var n := EndPage(server, 1);
    if n > MAX_PAGES then (TooManyBindings, MAX_PAGES)
    else if server(n).ListFailed? then (ListError, n)
    else (Tokens(base + RoleTokens(Listed(server, n))), n)
  }

  /** The outcome for a caller and the number of list calls made. */
  function Resolve(identity: Option<Principal>, tenantId: string, server: Option<Server>): (Outcome, nat) {
    if identity.None? then (MissingPrincipal, 0)
    else if Foreign(identity.value, tenantId) then (ForeignTenant, 0)
    else if server.None? || identity.value.membershipId == "" then (Tokens(OwnTokens(identity.value)), 0)
    else WalkPages(server.value, OwnTokens(identity.value))
  }

  // ---------------------------------------------------------------- the walk

  lemma RolesSnoc(bindings: seq<Binding>, b: Binding)
    ensures var so := Roles(bindings);
      Roles(bindings + [b]) == if Active(b) && b.roleId !in so then so + [b.roleId] else so
  {
    var active := Filter(Active, bindings);
    FilterSnoc(Active, bindings, b);
    hide Filter, Dedup;
    if Active(b) {
      assert Map(RoleOf, active + [b]) == Map(RoleOf, active) + [b.roleId];
      DedupSnoc(Map(RoleOf, active), b.roleId);
    }
  }

  /** Some active binding with the one role stands before all with the other. */
  predicate ShownBefore(bindings: seq<Binding>, role: string, other: string) {
    exists k :: 0 <= k < |bindings| && bindings[k] == Binding(role, "active") && NotUpTo(bindings, k, other)
  }

  predicate NotUpTo(bindings: seq<Binding>, k: int, role: string) {
    forall l :: 0 <= l <= k && l < |bindings| ==> bindings[l] != Binding(role, "active")
  }

  lemma StaysBefore(bindings: seq<Binding>, b: Binding, role: string, other: string)
    requires ShownBefore(bindings, role, other)
    ensures ShownBefore(bindings + [b], role, other)
  {
    var k :| 0 <= k < |bindings| && bindings[k] == Binding(role, "active") && NotUpTo(bindings, k, other);
    assert (bindings + [b])[k] == bindings[k] && NotUpTo(bindings + [b], k, other);
  }

  lemma ComesBeforeNew(bindings: seq<Binding>, b: Binding, role: string, other: string)
    requires Binding(role, "active") in bindings && Binding(other, "active") !in bindings
    ensures ShownBefore(bindings + [b], role, other)
  {
    var k :| 0 <= k < |bindings| && bindings[k] == Binding(role, "active");
    assert (bindings + [b])[k] == bindings[k] && NotUpTo(bindings + [b], k, other);
  }

  lemma RolesExactly(bindings: seq<Binding>)
    ensures Distinct(Roles(bindings))
    ensures forall role :: role in Roles(bindings) <==> role != "" && Binding(role, "active") in bindings
  {
    var active := Filter(Active, bindings);
    var named := Map(RoleOf, active);
    forall role ensures role in named <==> role != "" && Binding(role, "active") in bindings {
      if role in named {
        var i :| 0 <= i < |named| && named[i] == role;
        assert active[i] in active && active[i] == Binding(role, "active");
      }
      if role != "" && Binding(role, "active") in bindings {
        assert Binding(role, "active") in active;
        var i :| 0 <= i < |active| && active[i] == Binding(role, "active");
        assert named[i] == role;
      }
    }
  }

  /** The distinct active roles come out in the order in which they were first shown. */
  lemma {:induction false} FirstShownFirst(bindings: seq<Binding>)
    ensures var roles := Roles(bindings);
      forall i, j :: 0 <= i < j < |roles| ==> ShownBefore(bindings, roles[i], roles[j])
  {
    if bindings != [] {
      var n := |bindings| - 1;
      var front, last := bindings[..n], bindings[n];
      assert bindings == front + [last];
      FirstShownFirst(front);
      RolesExactly(front);
      RolesSnoc(front, last);
      hide Roles, ShownBefore;
      var before, roles := Roles(front), Roles(bindings);
      forall i, j | 0 <= i < j < |roles| ensures ShownBefore(bindings, roles[i], roles[j]) {
        if j < |before| {
          StaysBefore(front, last, roles[i], roles[j]);
        } else {
          assert before[i] in before;
          ComesBeforeNew(front, last, roles[i], roles[j]);
        }
      }
    }
  }

  lemma RoleTokensSnoc(bindings: seq<Binding>, b: Binding)
    ensures Roles(bindings + [b]) ==
      if Active(b) && b.roleId !in Roles(bindings) then Roles(bindings) + [b.roleId] else Roles(bindings)
    ensures RoleTokens(bindings + [b]) ==
      if Active(b) && b.roleId !in Roles(bindings) then RoleTokens(bindings) + [RoleToken(b.roleId)]
        else RoleTokens(bindings)
  {
    RolesSnoc(bindings, b);
    hide Roles;
    assert Map(RoleToken, Roles(bindings) + [b.roleId]) == Map(RoleToken, Roles(bindings)) + [RoleToken(b.roleId)];
  }

  lemma NothingListed(server: Server)
    ensures Listed(server, 0) == [] && Roles([]) == [] && RoleTokens([]) == []
  {
  }

  /** The inner loop: the roles of one page that have not been seen yet. */
  method AddRoles(ghost before: seq<Binding>, ghost base: seq<string>, bindings: seq<Binding>, tokens: seq<string>,
      seen: set<string>)
    returns (tokens': seq<string>, seen': set<string>)
    requires tokens == base + RoleTokens(before)
    requires forall role :: role in seen <==> role in Roles(before)
    ensures tokens' == base + RoleTokens(before + bindings)
    ensures forall role :: role in seen' <==> role in Roles(before + bindings)
  {
    hide Roles, RoleTokens;
    tokens', seen' := tokens, seen;
    assert before + bindings[..0] == before;
    for i := 0 to |bindings|
      invariant tokens' == base + RoleTokens(before + bindings[..i])
      invariant forall role :: role in seen' <==> role in Roles(before + bindings[..i])
    {
      var binding := bindings[i];
      RoleTokensSnoc(before + bindings[..i], binding);
      assert before + bindings[..i + 1] == before + bindings[..i] + [binding];
      if binding.status != "active" || binding.roleId == "" { continue; }
      if binding.roleId in seen' { continue; }
      seen' := seen' + {binding.roleId};
      tokens' := tokens' + ["role:" + binding.roleId];
    }
    assert bindings[..|bindings|] == bindings;
  }

  /** The walk that has come to this page ends here or goes on with the next one. */
  lemma PageStep(server: Server, base: seq<string>, page: nat)
    requires 1 <= page <= MAX_PAGES && EndPage(server, page) == EndPage(server, 1)
    ensures var end := if server(page).ListFailed? then ListError else Tokens(base + RoleTokens(Listed(server, page)));
      Ends(server, page) ==> WalkPages(server, base) == (end, page)
    ensures !Ends(server, page) ==> EndPage(server, page + 1) == EndPage(server, 1)
  {
    hide RoleTokens;
  }

  lemma AllPagesGoOn(server: Server, base: seq<string>)
    requires EndPage(server, MAX_PAGES + 1) == EndPage(server, 1)
    ensures WalkPages(server, base) == (TooManyBindings, MAX_PAGES)
  {
  }

  lemma ListedNext(server: Server, page: nat)
    requires page >= 1 && server(page).Page?
    ensures Listed(server, page) == Listed(server, page - 1) + server(page).bindings
  {
  }

  method VisibilityTokens(identity: Option<Principal>, tenantId: string, server: Option<Server>)
    returns (r: Outcome, calls: nat)
    ensures (r, calls) == Resolve(identity, tenantId, server)
    ensures ResolvesTo(identity, tenantId, server, r, calls)
  {
    ResolvedExactly(identity, tenantId, server);
    hide ResolvesTo, Roles, RoleTokens, EndPage, WalkPages, Listed;
    calls := 0;
    if identity.None? { return MissingPrincipal, 0; }
    if identity.value.tenantId != "" && identity.value.tenantId != tenantId { return ForeignTenant, 0; }
    var tokens := ["user:" + identity.value.id];
    if identity.value.membershipId != "" { tokens := tokens + ["membership:" + identity.value.membershipId]; }
    ghost var base := tokens;
    assert base == OwnTokens(identity.value);
    if server.None? || identity.value.membershipId == "" { return Tokens(tokens), 0; }
    NothingListed(server.value);
    hide OwnTokens;
    var seen: set<string> := {};
    for page := 1 to MAX_PAGES + 1
      invariant calls == page - 1
      invariant EndPage(server.value, page) == EndPage(server.value, 1)
      invariant tokens == base + RoleTokens(Listed(server.value, page - 1))
      invariant forall role :: role in seen <==> role in Roles(Listed(server.value, page - 1))
    {
      PageStep(server.value, base, page);
      var response := server.value(page);
      calls := calls + 1;
      if response.ListFailed? { return ListError, calls; }
      ListedNext(server.value, page);
      tokens, seen := AddRoles(Listed(server.value, page - 1), base, response.bindings, tokens, seen);
      if response.total.None? || page * PAGE_SIZE >= response.total.value || |response.bindings| == 0 {
        return Tokens(tokens), calls;
      }
    }
    AllPagesGoOn(server.value, base);
    return TooManyBindings, calls;
  }

  // ---------------------------------------------------------------- any server

  /** The token is that of a role some answer up to page `n` showed as active. */
  ghost predicate SeenActive(server: Server, n: nat, token: string) {
    exists page: nat, b :: 1 <= page <= n && server(page).Page? && b in server(page).bindings
      && Active(b) && token == RoleToken(b.roleId)
  }

  /** Against any server: at most 100 calls, and nothing is added to the caller's own tokens but roles seen active. */
  lemma AnyServerIsBounded(server: Server, base: seq<string>)
    ensures var (outcome, calls) := WalkPages(server, base);
      && 1 <= calls <= MAX_PAGES
      && (outcome.Tokens? ==> base <= outcome.tokens)
      && (outcome.Tokens? ==> forall t <- outcome.tokens[|base|..] :: SeenActive(server, calls, t))
  {
    var (outcome, n) := WalkPages(server, base);
    if outcome.Tokens? {
      assert outcome.tokens[|base|..] == RoleTokens(Listed(server, n));
      forall t <- RoleTokens(Listed(server, n)) ensures SeenActive(server, n, t) {
        ListedRole(server, n, t);
      }
    }
  }

  lemma ListedRole(server: Server, n: nat, token: string)
    requires token in RoleTokens(Listed(server, n))
    ensures SeenActive(server, n, token)
  {
    var listed := Listed(server, n);
    var i :| 0 <= i < |Roles(listed)| && token == RoleToken(Roles(listed)[i]);
    var named := Map(RoleOf, Filter(Active, listed));
    assert Roles(listed)[i] in named;
    var j :| 0 <= j < |named| && named[j] == Roles(listed)[i];
    var b := Filter(Active, listed)[j];
    assert b in Filter(Active, listed);
    ListedOnSomePage(server, n, b);
  }

  lemma {:induction false} ListedOnSomePage(server: Server, n: nat, b: Binding)
    requires b in Listed(server, n)
    ensures exists page :: 1 <= page <= n && server(page).Page? && b in server(page).bindings
  {
    if !(server(n).Page? && b in server(n).bindings) { ListedOnSomePage(server, n - 1, b); }
  }

  /** The answer lets the walk go on: it shows bindings, and says that there are more than the pages so far hold. */
  predicate LetsGoOn(answer: PageAnswer, page: nat) {
    answer.Page? && answer.bindings != [] && answer.total.Some? && page * 100 < answer.total.value
  }

  /** An answer that has no page information, is empty, or reaches its total. */
  predicate IsLast(answer: PageAnswer, page: nat) {
    answer.Page? && (answer.bindings == [] || answer.total.None? || page * 100 >= answer.total.value)
  }

  /** All pages before this one let the walk go on. */
  ghost predicate GoesTo(server: Server, page: nat) {
    1 <= page && forall k: nat :: 1 <= k < page ==> LetsGoOn(server(k), k)
  }

  /** Pages 1 to `n` show a binding with this role that is active. */
  ghost predicate ShowsActive(server: Server, n: nat, role: string) {
    role != "" && exists page ::
      (1 <= page <= n && server(page).Page? && Binding(role, "active") in server(page).bindings)
  }

  lemma ShownExactly(server: Server, n: nat, role: string)
    ensures role in Roles(Listed(server, n)) <==> ShowsActive(server, n, role)
  {
    var b := Binding(role, "active");
    RolesExactly(Listed(server, n));
    if b in Listed(server, n) { ListedOnSomePage(server, n, b); }
    if ShowsActive(server, n, role) {
      var page :| 1 <= page <= n && server(page).Page? && b in server(page).bindings;
      OnPageIsListed(server, page, n, b);
    }
  }

  lemma {:induction false} OnPageIsListed(server: Server, page: nat, n: nat, b: Binding)
    requires 1 <= page <= n && server(page).Page? && b in server(page).bindings
    ensures b in Listed(server, n)
  {
    if page < n { OnPageIsListed(server, page, n - 1, b); }
  }

  lemma EndsExactly(server: Server)
    ensures forall n: nat :: n >= 1 ==> (Ends(server, n) <==> !LetsGoOn(server(n), n))
    ensures forall n: nat :: n >= 1 ==> (Ends(server, n) <==> server(n).ListFailed? || IsLast(server(n), n))
  {
  }

  /**
   * The walk asks page after page as long as the answers let it, 100 at most. It returns tokens exactly when
   * the first answer that does not is a last page, and fails exactly when that request failed or when 100
   * pages all let it go on. The tokens are the caller's own ones and one for each role that the pages asked
   * for show as active.
   */
  ghost predicate Walked(server: Server, own: seq<string>, outcome: Outcome, calls: nat) {
    && 1 <= calls <= 100 && GoesTo(server, calls)
    && (forall n: nat :: 1 <= n <= 100 && GoesTo(server, n) && !LetsGoOn(server(n), n) ==> calls == n)
    && (outcome.Tokens? <==> IsLast(server(calls), calls))
    && (outcome == ListError <==> server(calls).ListFailed?)
    && (outcome == TooManyBindings <==> calls == 100 && LetsGoOn(server(100), 100))
    && (outcome.Tokens? || outcome == ListError || outcome == TooManyBindings)
    && (outcome.Tokens? ==>
          exists roles :: outcome.tokens == own + Map((role: string) => "role:" + role, roles)
            && Distinct(roles) && forall role :: role in roles <==> ShowsActive(server, calls, role))
  }

  lemma WalkExactly(server: Server, base: seq<string>)
    ensures Walked(server, base, WalkPages(server, base).0, WalkPages(server, base).1)
  {
    var (outcome, calls) := WalkPages(server, base);
    EndsExactly(server);
    hide Ends, Roles, ShowsActive;
    if outcome.Tokens? {
      var roles := Roles(Listed(server, calls));
      forall role ensures role in roles <==> ShowsActive(server, calls, role) { ShownExactly(server, calls, role); }
      assert Map(RoleToken, roles) == Map((role: string) => "role:" + role, roles);
      RolesExactly(Listed(server, calls));
    }
  }

  /**
   * A request without a principal or for another tenant than the principal's gets no tokens and asks nothing.
   * A caller of the tenant gets the own tokens, followed by those of the walk when there is a server to ask
   * and a membership to ask about.
   */
  ghost predicate ResolvesTo(identity: Option<Principal>, tenantId: string, server: Option<Server>, outcome: Outcome,
                             calls: nat) {
    && (identity.None? ==> outcome == MissingPrincipal && calls == 0)
    && (identity.Some? ==>
          var p := identity.value;
          var own := ["user:" + p.id] + if p.membershipId == "" then [] else ["membership:" + p.membershipId];
          if p.tenantId != "" && p.tenantId != tenantId then outcome == ForeignTenant && calls == 0
          else if server.None? || p.membershipId == "" then outcome == Tokens(own) && calls == 0
          else Walked(server.value, own, outcome, calls))
  }

  lemma ResolvedExactly(identity: Option<Principal>, tenantId: string, server: Option<Server>)
    ensures var (outcome, calls) := Resolve(identity, tenantId, server);
      ResolvesTo(identity, tenantId, server, outcome, calls)
  {
    hide WalkPages, Walked;
    if identity.Some? && server.Some? { WalkExactly(server.value, OwnTokens(identity.value)); }
  }

  // ---------------------------------------------------------------- a stable list

  function Min(a: nat, b: nat): nat { if a <= b then a else b }

  /** A server that pages through one unchanging list and reports its length. */
  function Stable(all: seq<Binding>): Server {
    (page: nat) => Page(PageOf(all, page), Some(|all|))
  }

  function PageOf(all: seq<Binding>, page: nat): seq<Binding> {
    if page == 0 then [] else all[Min((page - 1) * PAGE_SIZE, |all|)..Min(page * PAGE_SIZE, |all|)]
  }

  lemma {:induction false} ListedIsPrefix(all: seq<Binding>, n: nat)
    ensures Listed(Stable(all), n) == all[..Min(n * PAGE_SIZE, |all|)]
  {
    if n > 0 {
      ListedIsPrefix(all, n - 1);
      assert Stable(all)(n).bindings == PageOf(all, n);
    }
  }

  /** The number of calls a list of `n` bindings takes. */
  function CallsFor(n: nat): nat { if n == 0 then 1 else (n + PAGE_SIZE - 1) / PAGE_SIZE }

  /**
   * Against an unchanging list the walk returns the caller's own tokens followed by every distinct
   * active role exactly when the list has at most 10000 bindings, and fails, never truncates, otherwise.
   */
  lemma StableListExactly(all: seq<Binding>, base: seq<string>)
    ensures WalkPages(Stable(all), base) ==
      if |all| <= 10000 then (Tokens(base + RoleTokens(all)), CallsFor(|all|)) else (TooManyBindings, 100)
  {
    var server := Stable(all);
    hide RoleTokens;
    forall page | 1 <= page ensures Ends(server, page) <==> page * PAGE_SIZE >= |all| {
      assert server(page) == Page(PageOf(all, page), Some(|all|));
    }
    var n := EndPage(server, 1);
    if |all| > 10000 {
      assert n > MAX_PAGES;
    } else {
      var last := CallsFor(|all|);
      assert Ends(server, last) && last <= MAX_PAGES;
      assert n == last;
      ListedIsPrefix(all, n);
      assert all[..|all|] == all;
      assert server(n).Page?;
    }
  }
}

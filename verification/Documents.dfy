/** Search documents, their canonical identity and the visibility rules they are stored under. */
module Documents {
  import opened Results
  import opened Text
  import opened Ordered

  /** The record of the owning service that a projection document stands for. */
  datatype SourceKey = SourceKey(tenantId: string, sourceService: string, documentType: string, sourceId: string)

  datatype Document = Document(
    id: string, source: SourceKey, applicationId: string, title: string, url: string, text: string,
    permissionCode: string, visibilityTokens: seq<string>, attributes: map<string, string>, sourceVersion: int)

  /** The most documents one batch call may carry. */
  const MAX_BATCH := 500

  // ---------------------------------------------------------------- canonical identity

  function CanonicalID(key: SourceKey): string {
    Join([key.tenantId, key.sourceService, key.documentType, key.sourceId], ":")
  }

  /** The three leading parts hold no separator; the source id may. */
  predicate ColonFree(key: SourceKey) {
    ':' !in key.tenantId && ':' !in key.sourceService && ':' !in key.documentType
  }

  /** What stands before and after the first `c`. */
  function Cut(s: string, c: char): (r: (string, string))
    requires Count(s, c) > 0
    ensures s == r.0 + [c] + r.1 && c !in r.0
    ensures Count(r.1, c) == Count(s, c) - 1
  {
    if s[0] == c then ([], s[1..])
    else
      var rest := Cut(s[1..], c);
      ([s[0]] + rest.0, rest.1)
  }

  /** Reads an id back, taking the first three separators as the boundaries. */
  function ReadId(id: string): SourceKey
    requires Count(id, ':') >= 3
  {
    var tenant := Cut(id, ':');
    var service := Cut(tenant.1, ':');
    var kind := Cut(service.1, ':');
    SourceKey(tenant.0, service.0, kind.0, kind.1)
  }

  lemma CanonicalShape(key: SourceKey)
    ensures CanonicalID(key) ==
      key.tenantId + [':'] + (key.sourceService + [':'] + (key.documentType + [':'] + key.sourceId))
    ensures Count(CanonicalID(key), ':') >= 3
  {
    var a, b, c, d := key.tenantId, key.sourceService, key.documentType, key.sourceId;
    var cd := c + [':'] + d;
    var bcd := b + [':'] + cd;
    assert [c] + [d] == [c, d] && [b] + [c, d] == [b, c, d] && [a] + [b, c, d] == [a, b, c, d];
    JoinCons(c, [d], ":");
    JoinCons(b, [c, d], ":");
    JoinCons(a, [b, c, d], ":");
    CountAround(c, ':', d);
    CountAround(b, ':', cd);
    CountAround(a, ':', bcd);
  }

  lemma CutIsUnique(before: string, c: char, after: string)
    requires c !in before
    ensures Count(before + [c] + after, c) > 0
    ensures Cut(before + [c] + after, c) == (before, after)
  {
    var s := before + [c] + after;
    CountZero(s, c);
    assert s[|before|] == c;
    var r := Cut(s, c);
    assert forall i :: 0 <= i < |before| ==> s[i] == before[i] && s[i] != c;
    assert forall i :: 0 <= i < |r.0| ==> s[i] == r.0[i] && s[i] != c;
    assert s[|r.0|] == c;
    assert |r.0| == |before|;
    assert r.0 == s[..|before|] == before;
    assert r.1 == s[|before| + 1..] == after;
  }

  /** Every id with three separators is the canonical id of the key read from it. */
  lemma CanonicalOfRead(id: string)
    requires Count(id, ':') >= 3
    ensures CanonicalID(ReadId(id)) == id && ColonFree(ReadId(id))
  {
    CanonicalShape(ReadId(id));
  }

  /** Reading an id back recovers the key exactly when its leading parts hold no separator. */
  lemma ReadOfCanonical(key: SourceKey)
    ensures Count(CanonicalID(key), ':') >= 3
    ensures ReadId(CanonicalID(key)) == key <==> ColonFree(key)
  {
    CanonicalShape(key);
    CanonicalOfRead(CanonicalID(key));
    if ColonFree(key) {
      var kind := key.documentType + [':'] + key.sourceId;
      var service := key.sourceService + [':'] + kind;
      CutIsUnique(key.tenantId, ':', service);
      CutIsUnique(key.sourceService, ':', kind);
      CutIsUnique(key.documentType, ':', key.sourceId);
    }
  }

  /** On separator-free keys the canonical id names the source record and nothing else. */
  lemma CanonicalIDInjective(a: SourceKey, b: SourceKey)
    requires ColonFree(a) && ColonFree(b)
    ensures CanonicalID(a) == CanonicalID(b) <==> a == b
  {
    ReadOfCanonical(a);
    ReadOfCanonical(b);
  }

  /** Where the three separators of a key's id stand, and what stands between them. */
  lemma IdParts(key: SourceKey) returns (p: nat, q: nat, r: nat)
    ensures var id := CanonicalID(key);
      && p == |key.tenantId| && q == p + 1 + |key.sourceService| && r == q + 1 + |key.documentType|
      && |id| == r + 1 + |key.sourceId|
      && id[..p] == key.tenantId && id[p] == ':' && id[p + 1..q] == key.sourceService && id[q] == ':'
      && id[q + 1..r] == key.documentType && id[r] == ':' && id[r + 1..] == key.sourceId
  {
    hide CanonicalID;
    CanonicalShape(key);
    p := |key.tenantId|;
    q := p + 1 + |key.sourceService|;
    r := q + 1 + |key.documentType|;
  }

  /** Two keys under one id are the same key if their separators stand at the same places. */
  lemma SamePlaces(a: SourceKey, b: SourceKey)
    requires CanonicalID(a) == CanonicalID(b)
    requires |a.tenantId| == |b.tenantId| && |a.sourceService| == |b.sourceService|
      && |a.documentType| == |b.documentType|
    ensures a == b
  {
    hide CanonicalID;
    var _, _, _ := IdParts(a);
    var _, _, _ := IdParts(b);
  }

  predicate NoEmptyPart(key: SourceKey) {
    key.tenantId != "" && key.sourceService != "" && key.documentType != "" && key.sourceId != ""
  }

  predicate AnyColon(key: SourceKey) { !ColonFree(key) || ':' in key.sourceId }

  lemma SeparatorCount(key: SourceKey)
    ensures Count(CanonicalID(key), ':') == 3 <==> !AnyColon(key)
  {
    CanonicalShape(key);
    hide CanonicalID;
    var a, b, c, d := key.tenantId, key.sourceService, key.documentType, key.sourceId;
    CountAround(c, ':', d);
    CountAround(b, ':', c + [':'] + d);
    CountAround(a, ':', b + [':'] + (c + [':'] + d));
    CountZero(a, ':');
    CountZero(b, ':');
    CountZero(c, ':');
    CountZero(d, ':');
  }

  lemma SplitAt(s: string, i: nat)
    requires i < |s| && s[i] == ':'
    ensures s == s[..i] + [':'] + s[i + 1..]
  {
  }

  /**
   * The first separator of the id moved into the tenant: another key with the same id, complete if
   * nothing gets empty.
   */
  lemma MoveTenant(key: SourceKey, i: nat) returns (other: SourceKey)
    requires i < |key.tenantId| && key.tenantId[i] == ':'
    ensures other != key && CanonicalID(other) == CanonicalID(key)
    ensures NoEmptyPart(key) && i > 0 ==> NoEmptyPart(other)
  {
    hide CanonicalID;
    var a, b, c, d := key.tenantId, key.sourceService, key.documentType, key.sourceId;
    other := SourceKey(a[..i], a[i + 1..] + [':'] + b, c, d);
    SplitAt(a, i);
    CanonicalShape(key);
    CanonicalShape(other);
    var rest := c + [':'] + d;
    assert (a[..i] + [':'] + a[i + 1..]) + [':'] + (b + [':'] + rest)
        == a[..i] + [':'] + ((a[i + 1..] + [':'] + b) + [':'] + rest);
  }

  lemma MoveService(key: SourceKey, i: nat) returns (other: SourceKey)
    requires i < |key.sourceService| && key.sourceService[i] == ':'
    ensures other != key && CanonicalID(other) == CanonicalID(key)
    ensures NoEmptyPart(key) && |key.sourceService| > 1 ==> NoEmptyPart(other)
  {
    hide CanonicalID;
    var a, b, c, d := key.tenantId, key.sourceService, key.documentType, key.sourceId;
    var rest := c + [':'] + d;
    SplitAt(b, i);
    CanonicalShape(key);
    if i > 0 {
      other := SourceKey(a, b[..i], b[i + 1..] + [':'] + c, d);
      CanonicalShape(other);
      assert (b[..i] + [':'] + b[i + 1..]) + [':'] + rest == b[..i] + [':'] + ((b[i + 1..] + [':'] + c) + [':'] + d);
    } else {
      other := SourceKey(a + [':'], b[1..], c, d);
      CanonicalShape(other);
      assert a + [':'] + (b + [':'] + rest) == (a + [':']) + [':'] + (b[1..] + [':'] + rest);
    }
  }

  lemma MoveType(key: SourceKey, i: nat) returns (other: SourceKey)
    requires i < |key.documentType| && key.documentType[i] == ':'
    ensures other != key && CanonicalID(other) == CanonicalID(key)
    ensures NoEmptyPart(key) && |key.documentType| > 1 ==> NoEmptyPart(other)
  {
    hide CanonicalID;
    var a, b, c, d := key.tenantId, key.sourceService, key.documentType, key.sourceId;
    SplitAt(c, i);
    CanonicalShape(key);
    if i > 0 {
      other := SourceKey(a, b, c[..i], c[i + 1..] + [':'] + d);
      CanonicalShape(other);
      assert (c[..i] + [':'] + c[i + 1..]) + [':'] + d == c[..i] + [':'] + (c[i + 1..] + [':'] + d);
    } else {
      other := SourceKey(a, b + [':'], c[1..], d);
      CanonicalShape(other);
      assert b + [':'] + (c + [':'] + d) == (b + [':']) + [':'] + (c[1..] + [':'] + d);
    }
  }

  lemma MoveSource(key: SourceKey, i: nat) returns (other: SourceKey)
    requires i < |key.sourceId| && key.sourceId[i] == ':'
    ensures other != key && CanonicalID(other) == CanonicalID(key)
    ensures NoEmptyPart(key) && i < |key.sourceId| - 1 ==> NoEmptyPart(other)
  {
    hide CanonicalID;
    var a, b, c, d := key.tenantId, key.sourceService, key.documentType, key.sourceId;
    other := SourceKey(a, b, c + [':'] + d[..i], d[i + 1..]);
    SplitAt(d, i);
    CanonicalShape(key);
    CanonicalShape(other);
    assert c + [':'] + (d[..i] + [':'] + d[i + 1..]) == (c + [':'] + d[..i]) + [':'] + d[i + 1..];
  }

  lemma ColonCollides(key: SourceKey) returns (other: SourceKey)
    requires AnyColon(key)
    ensures other != key && CanonicalID(other) == CanonicalID(key)
  {
    hide CanonicalID;
    if i :| 0 <= i < |key.tenantId| && key.tenantId[i] == ':' {
      other := MoveTenant(key, i);
    } else if i :| 0 <= i < |key.sourceService| && key.sourceService[i] == ':' {
      other := MoveService(key, i);
    } else if i :| 0 <= i < |key.documentType| && key.documentType[i] == ':' {
      other := MoveType(key, i);
    } else {
      var i :| 0 <= i < |key.sourceId| && key.sourceId[i] == ':';
      other := MoveSource(key, i);
    }
  }

  /** Some other key has the same id exactly when some part of the key, the source id included, holds a separator. */
  lemma CollisionExactly(key: SourceKey)
    ensures (exists other :: other != key && CanonicalID(other) == CanonicalID(key)) <==> AnyColon(key)
  {
    hide CanonicalID;
    if AnyColon(key) {
      var other := ColonCollides(key);
    } else {
      forall other | CanonicalID(other) == CanonicalID(key) ensures other == key {
        SeparatorCount(other);
        SeparatorCount(key);
        CanonicalIDInjective(other, key);
      }
    }
  }

  // ---------------------------------------------------------------- collisions among complete keys

  /** A separator that can be moved without leaving a part empty. */
  predicate Ambiguous(key: SourceKey) {
    || (exists i :: 0 < i < |key.tenantId| && key.tenantId[i] == ':')
    || (':' in key.sourceService && |key.sourceService| > 1)
    || (':' in key.documentType && |key.documentType| > 1)
    || (exists i :: 0 <= i < |key.sourceId| - 1 && key.sourceId[i] == ':')
  }

  /** One complete key under the id of another, if that one is ambiguous. */
  lemma AmbiguousCollides(key: SourceKey) returns (other: SourceKey)
    requires NoEmptyPart(key) && Ambiguous(key)
    ensures NoEmptyPart(other) && other != key && CanonicalID(other) == CanonicalID(key)
  {
    hide CanonicalID;
    if i :| 0 < i < |key.tenantId| && key.tenantId[i] == ':' {
      other := MoveTenant(key, i);
    } else if ':' in key.sourceService && |key.sourceService| > 1 {
      var i :| 0 <= i < |key.sourceService| && key.sourceService[i] == ':';
      other := MoveService(key, i);
    } else if ':' in key.documentType && |key.documentType| > 1 {
      var i :| 0 <= i < |key.documentType| && key.documentType[i] == ':';
      other := MoveType(key, i);
    } else {
      var i :| 0 <= i < |key.sourceId| - 1 && key.sourceId[i] == ':';
      other := MoveSource(key, i);
    }
  }

  /** Where separators can stand in the id of a complete key that is not ambiguous. */
  lemma FewPlaces(key: SourceKey, i: nat)
    requires NoEmptyPart(key) && !Ambiguous(key) && i < |CanonicalID(key)| && CanonicalID(key)[i] == ':'
    ensures var p := |key.tenantId|; var q := p + 1 + |key.sourceService|; var r := q + 1 + |key.documentType|;
      i == 0 || i == p || (i == p + 1 && q == p + 2) || i == q || (i == q + 1 && r == q + 2) || i == r
        || i == |CanonicalID(key)| - 1
  {
    hide CanonicalID;
    var p, q, r := IdParts(key);
    var id := CanonicalID(key);
    if i < p {
      assert key.tenantId[i] == id[i];
    } else if p < i < q {
      assert key.sourceService[i - p - 1] == id[i];
    } else if q < i < r {
      assert key.documentType[i - q - 1] == id[i];
    } else if r < i {
      assert key.sourceId[i - r - 1] == id[i];
    }
  }

  lemma UnambiguousIsAlone(key: SourceKey, other: SourceKey)
    requires NoEmptyPart(key) && NoEmptyPart(other) && !Ambiguous(key) && CanonicalID(key) == CanonicalID(other)
    ensures key == other
  {
    hide CanonicalID, Ambiguous;
    var p, q, r := IdParts(key);
    var p', q', r' := IdParts(other);
    FewPlaces(key, p');
    FewPlaces(key, q');
    FewPlaces(key, r');
    SamePlaces(key, other);
  }

  /**
   * Among complete keys, the only ones validation admits, an id stands for one source record exactly
   * when the key is not ambiguous.
   */
  lemma CompleteCollisionExactly(key: SourceKey)
    requires NoEmptyPart(key)
    ensures (exists other :: NoEmptyPart(other) && other != key && CanonicalID(other) == CanonicalID(key)) <==>
      Ambiguous(key)
  {
    if Ambiguous(key) {
      var other := AmbiguousCollides(key);
    } else {
      forall other | NoEmptyPart(other) && CanonicalID(other) == CanonicalID(key) ensures other == key {
        UnambiguousIsAlone(key, other);
      }
    }
  }

  /** Two complete keys of two tenants end up under one id, whatever the parts are. */
  lemma CrossTenantCollision(a: string, b: string, c: string, d: string, e: string)
    requires a != "" && b != "" && c != "" && d != "" && e != ""
    ensures var x, y := SourceKey(a + [':'] + b, c, d, e), SourceKey(a, b, c, d + [':'] + e);
      NoEmptyPart(x) && NoEmptyPart(y) && x.tenantId != y.tenantId && CanonicalID(x) == CanonicalID(y)
  {
    CanonicalShape(SourceKey(a + [':'] + b, c, d, e));
    CanonicalShape(SourceKey(a, b, c, d + [':'] + e));
    hide CanonicalID;
    assert (a + [':'] + b) + [':'] + (c + [':'] + (d + [':'] + e))
      == a + [':'] + (b + [':'] + (c + [':'] + (d + [':'] + e)));
  }

  // ---------------------------------------------------------------- visibility of stored documents

  const PREFIXES: seq<string> := ["user:", "membership:", "role:", "service-account:"]

  function Broad(tenantId: string): string { "tenant:" + tenantId + ":*" }

  /** A token naming a principal: a known prefix with something after it. */
  predicate Grants(token: string) {
    exists k :: 0 <= k < |PREFIXES| && Extends(token, PREFIXES[k])
  }

  predicate Extends(token: string, prefix: string) { HasPrefix(token, prefix) && |token| > |prefix| }

  /** What one visibility token of a document has to satisfy, blanks around it ignored. */
  predicate ValidToken(document: Document, token: string) {
    var t := TrimSpace(token);
    var broad := Broad(document.source.tenantId);
    (t == broad || Grants(t)) && (document.permissionCode != "" ==> t != broad)
  }

  predicate ValidVisibility(document: Document) {
    forall t <- document.visibilityTokens :: ValidToken(document, t)
  }

  predicate CompleteKey(key: SourceKey, version: int) {
    NoEmptyPart(key) && version > 0
  }

  /** What a document must satisfy to be accepted for indexing. */
  predicate Acceptable(document: Document) {
    && CompleteKey(document.source, document.sourceVersion)
    && document.visibilityTokens != []
    && ValidVisibility(document)
  }

  /** A document as it is stored: acceptable, and under its canonical id. */
  predicate Stored(document: Document) {
    Acceptable(document) && document.id == CanonicalID(document.source)
  }

  /** A token of the tenant as a whole, or one that names a user, membership, role or service account. */
  predicate NamesSomeone(token: string) {
    || ("user:" <= token && token != "user:")
    || ("membership:" <= token && token != "membership:")
    || ("role:" <= token && token != "role:")
    || ("service-account:" <= token && token != "service-account:")
  }

  lemma GrantsExactly(token: string)
    ensures Grants(token) <==> NamesSomeone(token)
  {
    if "user:" <= token && token != "user:" { assert Extends(token, PREFIXES[0]); }
    if "membership:" <= token && token != "membership:" { assert Extends(token, PREFIXES[1]); }
    if "role:" <= token && token != "role:" { assert Extends(token, PREFIXES[2]); }
    if "service-account:" <= token && token != "service-account:" { assert Extends(token, PREFIXES[3]); }
  }

  /** Which documents validation admits, field by field. */
  lemma AcceptableExactly(d: Document)
    ensures Acceptable(d) <==>
      && d.source.tenantId != "" && d.source.sourceService != ""
      && d.source.documentType != "" && d.source.sourceId != ""
      && d.sourceVersion > 0 && d.visibilityTokens != []
      && forall v <- d.visibilityTokens ::
           (TrimSpace(v) == "tenant:" + d.source.tenantId + ":*" && d.permissionCode == "")
           || NamesSomeone(TrimSpace(v))
  {
    forall v: string ensures ValidToken(d, v) <==>
      (TrimSpace(v) == "tenant:" + d.source.tenantId + ":*" && d.permissionCode == "") || NamesSomeone(TrimSpace(v))
    {
      GrantsExactly(TrimSpace(v));
      assert NamesSomeone(TrimSpace(v)) ==> TrimSpace(v) != Broad(d.source.tenantId);
    }
    hide TrimSpace, Grants, NamesSomeone, ValidToken;
  }

  method ValidateVisibility(document: Document) returns (err: Option<Error>)
    ensures err == if ValidVisibility(document) then None else Some(InvalidArgument)
  {
    var broad := "tenant:" + document.source.tenantId + ":*";
    for i := 0 to |document.visibilityTokens|
      invariant forall k :: 0 <= k < i ==> ValidToken(document, document.visibilityTokens[k])
    {
      var token := TrimSpace(document.visibilityTokens[i]);
      var valid := token == broad;
      for j := 0 to |PREFIXES|
        invariant valid == (token == broad || exists k :: 0 <= k < j && Extends(token, PREFIXES[k]))
      {
        valid := valid || (HasPrefix(token, PREFIXES[j]) && |token| > |PREFIXES[j]|);
      }
      if !valid || (document.permissionCode != "" && token == broad) {
        assert !ValidToken(document, document.visibilityTokens[i]);
        return Some(InvalidArgument);
      }
    }
    return None;
  }

  // ---------------------------------------------------------------- visibility of callers

  predicate NonBlank(s: string) { s != "" }

  /** The tenant-wide token followed by the caller's distinct non-blank tokens, trimmed, first seen first. */
  function Normalized(tenantId: string, values: seq<string>): seq<string> {
    Dedup([Broad(tenantId)] + Filter(NonBlank, Map(TrimSpace, values)))
  }

  lemma NormalizedSnoc(tenantId: string, values: seq<string>, value: string)
    ensures var so := Normalized(tenantId, values); var t := TrimSpace(value);
      Normalized(tenantId, values + [value]) == if t == "" || t in so then so else so + [t]
  {
    var t := TrimSpace(value);
    var kept := Filter(NonBlank, Map(TrimSpace, values));
    assert Map(TrimSpace, values + [value]) == Map(TrimSpace, values) + [t];
    FilterSnoc(NonBlank, Map(TrimSpace, values), t);
    assert [Broad(tenantId)] + (kept + [t]) == [Broad(tenantId)] + kept + [t];
    DedupSnoc([Broad(tenantId)] + kept, t);
  }

  lemma NormalizedNil(tenantId: string)
    ensures Normalized(tenantId, []) == [Broad(tenantId)]
  {
    DedupFixed([Broad(tenantId)]);
    assert [Broad(tenantId)] + Filter(NonBlank, Map(TrimSpace, [])) == [Broad(tenantId)];
  }

  method NormalizeVisibility(tenantId: string, values: seq<string>) returns (result: seq<string>)
    ensures result == Normalized(tenantId, values)
  {
    hide Normalized;
    result := [Broad(tenantId)];
    var seen := {result[0]};
    NormalizedNil(tenantId);
    for i := 0 to |values|
      invariant result == Normalized(tenantId, values[..i])
      invariant forall t :: t in seen <==> t in result
    {
      NormalizedSnoc(tenantId, values[..i], values[i]);
      assert values[..i + 1] == values[..i] + [values[i]];
      var value := TrimSpace(values[i]);
      if value == "" { continue; }
      if value in seen { continue; }
      seen := seen + {value};
      result := result + [value];
    }
    assert values[..|values|] == values;
  }

  lemma BroadIsTrimmed(tenantId: string)
    ensures TrimSpace(Broad(tenantId)) == Broad(tenantId)
  {
    var b := Broad(tenantId);
    assert b[0] == 't' && b[|b| - 1] == '*';
  }

  /** Exactly which tokens a caller searches with. */
  lemma NormalizedExactly(tenantId: string, values: seq<string>, token: string)
    ensures token in Normalized(tenantId, values) <==>
      token == Broad(tenantId) || (token != "" && exists v <- values :: TrimSpace(v) == token)
    ensures token in Normalized(tenantId, values) ==> TrimSpace(token) == token
  {
    BroadIsTrimmed(tenantId);
    TrimmedValues(values, token);
    if token in Map(TrimSpace, values) {
      var v :| v in values && TrimSpace(v) == token;
    }
    assert token in Normalized(tenantId, values) <==>
      token in [Broad(tenantId)] + Filter(NonBlank, Map(TrimSpace, values));
  }

  lemma TrimmedValues(values: seq<string>, token: string)
    ensures token in Map(TrimSpace, values) <==> exists v <- values :: TrimSpace(v) == token
  {
    var trimmed := Map(TrimSpace, values);
    if token in trimmed {
      var i :| 0 <= i < |trimmed| && trimmed[i] == token;
      assert values[i] in values && TrimSpace(values[i]) == token;
    }
    if v :| v in values && TrimSpace(v) == token {
      var i :| 0 <= i < |values| && values[i] == v;
      assert trimmed[i] == token;
    }
  }

  /** Normalising twice is normalising once. */
  lemma NormalizedIdempotent(tenantId: string, values: seq<string>)
    ensures Normalized(tenantId, Normalized(tenantId, values)) == Normalized(tenantId, values)
  {
    hide TrimSpace;
    var once := Normalized(tenantId, values);
    var broad := Broad(tenantId);
    forall token <- once ensures TrimSpace(token) == token && NonBlank(token) {
      NormalizedExactly(tenantId, values, token);
    }
    DedupExtends([broad], Filter(NonBlank, Map(TrimSpace, values)));
    DedupFixed([broad]);
    assert once[0] == broad;
    NormalIsFixed(tenantId, once);
  }

  lemma NormalIsFixed(tenantId: string, once: seq<string>)
    requires Distinct(once) && once != [] && once[0] == Broad(tenantId)
    requires forall token <- once :: TrimSpace(token) == token && NonBlank(token)
    ensures Normalized(tenantId, once) == once
  {
    hide TrimSpace;
    assert Map(TrimSpace, once) == once;
    FilterAll(once);
    assert once == [Broad(tenantId)] + once[1..];
    DedupHeadTwice(Broad(tenantId), once[1..]);
    DedupFixed(once);
  }

  lemma {:induction false} FilterAll(s: seq<string>)
    requires forall x <- s :: NonBlank(x)
    ensures Filter(NonBlank, s) == s
  {
    if s != [] {
      assert s == s[..|s| - 1] + [s[|s| - 1]];
      FilterAll(s[..|s| - 1]);
    }
  }

  lemma {:induction false} DedupHeadTwice(x: string, s: seq<string>)
    ensures Dedup([x] + ([x] + s)) == Dedup([x] + s)
  {
    if s == [] {
      assert [x] + ([x] + s) == [x] + [x] && [x] + s == [x];
      DedupSnoc([x], x);
    } else {
      var front, last := s[..|s| - 1], s[|s| - 1];
      DedupHeadTwice(x, front);
      assert [x] + ([x] + s) == ([x] + ([x] + front)) + [last];
      assert [x] + s == ([x] + front) + [last];
      DedupSnoc([x] + ([x] + front), last);
      DedupSnoc([x] + front, last);
    }
  }

  /** The stored tokens and the caller's tokens have one in common, compared as they stand. */
  predicate Shares(document: Document, tokens: seq<string>) {
    exists t <- document.visibilityTokens :: t in tokens
  }

  lemma PaddedTokenMatchesNobody(token: string, tenantId: string, values: seq<string>)
    requires TrimSpace(token) != token
    ensures token !in Normalized(tenantId, values)
  {
    NormalizedExactly(tenantId, values, token);
  }

  predicate Trimmed(token: string) { TrimSpace(token) == token }

  /**
   * Validation trims a token, storage does not: some list of tokens reaches a stored document exactly when
   * one of its tokens is stored without blanks around it.
   */
  lemma ReachableExactly(document: Document)
    requires Stored(document)
    ensures (exists values :: Shares(document, Normalized(document.source.tenantId, values))) <==>
      exists t <- document.visibilityTokens :: Trimmed(t)
  {
    var tenantId := document.source.tenantId;
    if t :| t in document.visibilityTokens && Trimmed(t) {
      assert ValidToken(document, t);
      NormalizedExactly(tenantId, [t], t);
      assert TrimSpace([t][0]) == t;
      assert Shares(document, Normalized(tenantId, [t]));
    }
    if values :| Shares(document, Normalized(tenantId, values)) {
      var t :| t in document.visibilityTokens && t in Normalized(tenantId, values);
      if !Trimmed(t) { PaddedTokenMatchesNobody(t, tenantId, values); }
    }
  }

  /** Validation admits a document that no list of tokens reaches: blanks around its one token, whatever that grants. */
  lemma UnreachableDocument(document: Document, token: string)
    requires Stored(document) && token in document.visibilityTokens && Trimmed(token)
    ensures var hidden := document.(visibilityTokens := [[' '] + token]);
      Stored(hidden) && forall values :: !Shares(hidden, Normalized(document.source.tenantId, values))
  {
    var padded := [' '] + token;
    var hidden := document.(visibilityTokens := [padded]);
    assert padded + [] == padded;
    TrimPadded([' '], token, [], IsSpace);
    assert ValidToken(document, token);
    hide TrimSpace, CanonicalID;
    assert forall t <- hidden.visibilityTokens :: t == padded;
    assert ValidToken(hidden, padded);
    assert !Trimmed(padded) by { assert |token| != |padded|; }
    ReachableExactly(hidden);
  }

  /** A permission-protected document is never stored under its tenant-wide token. */
  lemma ProtectedIsNotBroad(document: Document)
    requires ValidVisibility(document) && document.permissionCode != ""
    ensures Broad(document.source.tenantId) !in document.visibilityTokens
    ensures !Shares(document, Normalized(document.source.tenantId, []))
  {
    BroadIsTrimmed(document.source.tenantId);
    forall t <- document.visibilityTokens ensures t !in Normalized(document.source.tenantId, []) {
      NormalizedExactly(document.source.tenantId, [], t);
    }
  }
}

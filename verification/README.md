# Search projection and scoped reads

A Dafny model of the search service's core: a versioned document index that is written by batch calls and by an
at-least-once event consumer, and read through queries scoped to a tenant and to the caller's visibility tokens.
Around it stand the parts those two depend on: role resolution, the retry loops of the outbound clients, the list
syntax of the configuration and the life cycle of the projection workers.

`dafny verify dfyconfig.toml` checks everything.

## How the model is laid out

| file | what it holds |
|---|---|
| `Store.dfy` | one versioned write, one batch against an unreliable store, retries of a whole batch |
| `Projection.dfy` | all runs of any number of writers: interleaved, cut off, crashed, with late duplicates of requests |
| `BatchRetry.dfy` | a client that retries a whole batch while earlier requests may still arrive |
| `Consumer.dfy` | the event consumer with its inbox, and that its runs are runs of the projection |
| `Documents.dfy` | canonical ids, visibility rules for stored documents, normalisation of caller tokens |
| `Query.dfy`, `SearchStore.dfy`, `SearchService.dfy` | query compilation with a meaning over documents, the engine, the service |
| `ReadsExactly.dfy` | what each read answers and when it fails, on the fields of requests and documents |
| `ReadSafety.dfy`, `Paging.dfy` | what reads return from every reachable index, and how pages tile the result |
| `Callers.dfy` | which stored documents any caller can be shown |
| `Transports.dfy`, `Resolver.dfy` | the callers' tokens, without and with the role resolver |
| `Retry.dfy`, `Backoff.dfy` | the HTTP and the gRPC retry loop, and their two ways of computing the delay |
| `ListHook.dfy`, `Lifecycle.dfy` | the string-to-list hook of the configuration; starting and stopping the workers |
| `Text.dfy`, `Ordered.dfy`, `Arithmetic.dfy`, `Results.dfy` | strings, order-preserving de-duplication, multiplication, results and errors |

Objects the service changes in place are classes (the engine, the service, its requests, the event consumer) and the
arrays it rewrites are arrays; each of their methods is proved equal to a specification function, and the theorems are
about those functions. The projection as a whole is a state machine over values, because many writers share one index.

## What is assumed of the outside

- **The store** accepts a write exactly when the key has no recorded version or the incoming version is at least the
  recorded one (`external_gte`). A delete of an absent key records a tombstone and answers 404. Tombstones are kept for
  ever; OpenSearch's own removal of old tombstones is abstracted away.
- **An answer that applied nothing** (of a proxy or an overloaded node) is never a success, 404 or 409. The code takes
  404 on a delete and 409 as success; `Store.UnrecordedDeleteResurrects` shows what a 404 without a tombstone would do.
- **The network** may lose a request, or its answer after the write has landed; a request once sent may reach the store
  again at any later time. The store's client tries a request up to twice more by itself
  (internal/searchstore/opensearch.go:40); in a run each such try is a step of its own, of which the writer does not
  learn, and any number of them is allowed.
- **The inbox** skips an event only when its handler succeeded earlier and that transaction committed; the retention
  cleaner may drop any recorded ids at any time.
- **Ranking** is one fixed order over the live documents, and **text matching** an arbitrary predicate of query text and
  document. The application verifier, the role service, the HTTP and gRPC peers and the path matcher are arbitrary
  functions.

## What came out differently than one might expect

- Convergence needs less than unique versions per key: only the *largest* version of a key must be unambiguous, and
  acknowledged, and all complete runs agree exactly then (`Projection.ConfluentExactly`). The same condition on the
  batch alone is exactly what retrying a whole batch needs when duplicates of earlier requests may arrive late
  (`BatchRetry.RetrySafeExactly`); if none does, retrying needs no condition (`Store.BatchRetrySafe`). The inbox, on the
  other hand, is invisible exactly under full uniqueness, of versions and of what an event id stands for
  (`Consumer.InboxTransparentExactly`).
- An id belongs to one complete source key exactly when no separator in it can be moved: a colon in the tenant, service,
  type or source id lets another record, possibly of another tenant, use the same entry
  (`Documents.CompleteCollisionExactly`, `Documents.CrossTenantCollision`).
- Validation admits documents that no caller is ever shown. A stored document can be shown to somebody exactly when its
  tenant is not blank and one of its tokens is stored trimmed and is not a service account's (`Callers.ShownExactly`):
  validation trims tokens but stores them as they came, tests the tenant only for the empty string, and accepts
  service-account tokens, which no transport and no resolver path hands on. Each of the three hides a document; none
  shows one.
- Application grants are asked for when a search lists applications and when a document is looked up. A search without a
  list asks nothing (`ReadSafety.NoListNoCheck`), returns documents whose lookup is refused
  (`ReadSafety.SearchShowsWhatLookupRefuses`), and can name one application in its filters instead
  (`ReadSafety.FilteredApplicationIsUnchecked`).
- The 32-bit page offset first wraps on page 42949674 at 100 per page, which shows results from offset 4 on
  (`Paging.FirstWrappingPage`).
- A response that comes together with an error on the last allowed attempt is neither closed nor returned by the HTTP
  loop (`Retry.BodiesBalanceExactly`). `net/http` documents that such a body is already closed, so nothing leaks.
- The configuration bounds allow initial backoffs at which the shifted delay overflows to a negative one, from 2^60 ns
  with five attempts (`Backoff.ShiftScheduleExactly`, `Backoff.FirstWrappingBackoff`). Such a timer fires at once, so the
  total wait stays within its bounds under every valid policy (`Backoff.TotalWaitBounded`).
- Without a role resolver the two transports differ, in a tenant that is not blank, for a principal without an id that
  has a membership, and in any tenant for one without an id that belongs to another tenant
  (`Transports.TransportsAgreeExactly`).

## Model

| member | source | states |
|---|---|---|
| Projection.Convergence | internal/searchstore/opensearch.go:179-210 | every run in which of each submitted key a largest-version operation was acknowledged, older ones failing for good if they will, ends with exactly the submitted keys, each holding its largest-version operation, live or tombstone |
| Projection.LatestIsUnique | internal/search/service.go:28-29 | there is one latest index of a set of operations |
| Projection.ConfluentExactly | internal/searchstore/opensearch.go:185-200 | all complete runs of a set of operations end in the same index if and only if no key has two different largest-version operations |
| Projection.LastTopWins | internal/searchstore/opensearch.go:185-200 | for any largest-version operation there is a complete run that ends with it, so a tie is decided by arrival order |
| Projection.EveryRunIsSound | internal/search/service.go:28-29 | after every run, however continued: entries are sent operations, acknowledged ones are covered by the recorded version, and no recorded version or acknowledgement is ever lost |
| Projection.StepKeeps | internal/searchstore/opensearch.go:179-210 | each begin, request, hidden try of the store's client, stray duplicate and crash keeps that invariant and moves every version only upwards |
| Projection.NoResurrection | internal/search/service.go:28-29 | a tombstone is only ever followed by versions at least as large, and by a live document only at a strictly larger one unless an upsert and a delete of one key share a version |
| Projection.ResurrectionExactly | internal/searchstore/opensearch.go:185-200 | some run within a set of operations brings a document back at the very version it was deleted at if and only if an upsert and a delete of one key in the set share a version |
| Projection.BatchIsARun | internal/searchstore/opensearch.go:179-210 | one batch call, whatever becomes of each request, is a run of one worker with the same index and the same acknowledged prefix |
| Projection.ReplayRepairs | internal/searchstore/opensearch.go:179-210 | from every reachable state, replaying all submitted operations reaches the latest index |
| Projection.EntriesAreSourceRecords | internal/searchstore/opensearch.go:185-200 | an upsert's stored id and a delete's recomputed id meet at one entry exactly when both are about the same source record, if one of the two keys is unambiguous or both are colon-free in their leading parts |
| Projection.LiveIsStored | internal/search/service.go:150-163 | every live document of every reachable index passed validation and lies under its own canonical id |
| Store.GoingOnMeansDecided | internal/searchstore/opensearch.go:186-207 | the batch loop goes on exactly when the store answered, and then a version at least as large is recorded; otherwise it stops with the store's status or as unavailable |
| Store.BatchWritesAPrefix | internal/searchstore/opensearch.go:179-210 | a batch attempt is some prefix of its operations written in order, and the whole batch when it reports success |
| Store.BatchExactly | internal/searchstore/opensearch.go:179-210 | a batch writes its first operations in order; all of them, each recorded at its version or a larger one, when it reports no error, and it reports none when every request is answered |
| Store.WinnerIsStored | internal/search/service.go:28-29 | after any writes in any order an entry is that of the last largest-version operation on its key, unless the old entry is newer |
| Store.BatchRetrySafe | internal/searchstore/opensearch.go:179-210 | a batch stopped anywhere any number of times, also after a write whose answer was lost, and finally completed leaves the index of one uninterrupted run, provided no request of an earlier attempt arrives late |
| BatchRetry.RetrySafeExactly | internal/searchstore/opensearch.go:179-210 | over every starting index and every history of attempts of one batch, overlapping or not, with late duplicates anywhere, the completed batch leaves the index of one uninterrupted run if and only if no key of the batch has two different largest-version operations |
| BatchRetry.SameOperations | internal/searchstore/opensearch.go:185-200 | writing the same operations in any two orders and with any repetitions gives the same index when tops agree |
| Store.TriesAreOneRequest | internal/searchstore/opensearch.go:40 | the store client's own retries of a request are, for the index and for the batch loop, one request that landed if any try did and ended as the last one |
| Store.UnrecordedDeleteResurrects | internal/searchstore/opensearch.go:201 | a 404 taken as success without a recorded tombstone lets an older upsert come back |
| SearchStore.Engine.Perform | internal/searchstore/opensearch.go:212-255 | one request changes the index and yields the reply as the versioned store decides, for every fate of the request |
| SearchStore.Engine.Upsert | internal/searchstore/opensearch.go:179-195 | the loop equals the batch specification: it goes on after success and 409 and stops at everything else |
| SearchStore.Engine.Delete | internal/searchstore/opensearch.go:197-210 | the same for deletes, where 404 is a success as well |
| SearchStore.Engine.Search | internal/searchstore/opensearch.go:107-151 | sends one body that filters exactly for scope and selection, and returns the page, total and facets of the documents the caller is entitled to, or the store's error |
| SearchStore.Engine.Suggest | internal/searchstore/opensearch.go:153-165 | suggestions are those of the first page of the prefix search with its types, applications and limit, in order |
| SearchStore.Engine.Get | internal/searchstore/opensearch.go:167-177 | a lookup is a search for the id; no hit is not-found |
| Query.FixedClauses | internal/searchstore/opensearch.go:265-271 | the fixed clauses accept a document exactly when its tenant matches, it shares a token, and type and application are among those listed, if any |
| Query.BuildSearchQuery | internal/searchstore/opensearch.go:264-298 | for every request, token list, document and iteration order of the filter map, the compiled filter accepts exactly the documents in scope that satisfy every effective filter; must, offset, size, sort and facets are those of the request |
| Query.SelectedExactly | internal/searchstore/opensearch.go:264-307 | a request selects a document if and only if its type and application are listed, if any are, and every filter with values on the id, source service, document type, application or permission code, or on an attribute whose field name has at most 128 bytes, names the value of the document; no other filter selects anything |
| Documents.CanonicalShape | internal/search/service.go:184-186 | the id is the four parts with a colon between them and holds at least three colons |
| Documents.ReadOfCanonical | internal/search/service.go:184-186 | splitting an id at its first three colons gives back the source key if and only if the three leading parts hold no colon |
| Documents.CanonicalIDInjective | internal/search/service.go:184-186 | on keys with colon-free leading parts, equal ids mean equal keys; source ids may hold colons |
| Documents.CollisionExactly | internal/search/service.go:184-186 | some other key has the same id if and only if some part of the key, the source id included, holds a colon |
| Documents.CompleteCollisionExactly | internal/search/service.go:155-193 | among the complete keys validation admits, another one has the same id if and only if the tenant has a colon not at its start, or the service or type has a colon and another character, or the source id has a colon before its last character |
| Documents.CrossTenantCollision | internal/search/service.go:184-186 | for any five non-empty strings, two complete keys of two tenants with one id |
| Documents.AcceptableExactly | internal/search/service.go:150-182 | validation admits exactly the documents with four non-empty parts, a positive version and some tokens, each of which, trimmed, names a user, membership, role or service account or is the tenant-wide one, the latter not together with a permission code |
| Documents.ValidateVisibility | internal/search/service.go:166-182 | a document is rejected exactly when some trimmed token is neither the tenant-wide one nor a known prefix with something after it, or is the tenant-wide one on a permission-protected document |
| Documents.ProtectedIsNotBroad | internal/search/service.go:177-179 | a validated document with a permission code shares nothing with a caller that has only the tenant-wide token |
| Documents.NormalizeVisibility | internal/search/service.go:212-227 | the loop over the seen-map equals de-duplicating the tenant-wide token followed by the trimmed non-blank tokens |
| Documents.NormalizedExactly | internal/search/service.go:212-227 | a token is searched with if and only if it is the tenant-wide one or a non-blank caller token after trimming |
| Documents.NormalizedIdempotent | internal/search/service.go:212-227 | normalising twice is normalising once |
| SearchService.GrantedListExactly | internal/search/service.go:118-148 | a granted application list is trimmed, blank-free, duplicate-free, in first-occurrence order, set-equal to the trimmed request, at most 100 long and wholly granted |
| SearchService.AuthorizedTwice | internal/search/service.go:118-148 | authorising a granted list again gives the same list |
| SearchService.Service.AuthorizeApplications | internal/search/service.go:118-148 | the loop refuses oversize and blank requests, verifier failures, missing decisions and denials, and otherwise returns the granted list |
| ReadsExactly.AccessExactly | internal/search/service.go:118-148 | up to 100 applications, none blank, are granted exactly when there is none or the verifier answers with a positive decision on each trimmed one; the list handed on is the distinct trimmed one, and the error says whether the request was malformed, the verifier failed or access was denied |
| SearchService.Paged | internal/search/service.go:200-210 | page at least 1, page size 1 to 100, requests already in range unchanged |
| ReadsExactly.PagedExactly | internal/search/service.go:200-210 | page 1 and 20 per page by default, more than 100 per page cut to 100, everything else of the request unchanged |
| SearchService.Service.NormalizePage | internal/search/service.go:200-210 | overwrites page and page size of the request in place with those values and nothing else |
| SearchService.Service.Search | internal/search/service.go:71-82 | the engine is asked, and the request overwritten, if and only if all checks pass; then exactly one body is sent, scoped to the tenant and the normalised tokens |
| SearchService.Service.Suggest | internal/search/service.go:84-100 | the same for suggestions, with the limit between 1 and 50 |
| SearchService.Service.Get | internal/search/service.go:102-116 | a lookup scoped to the tenant and the normalised tokens, whose document is released only if its application is granted |
| SearchService.Service.BatchUpsert | internal/search/service.go:150-164 | an invalid batch changes no index entry; a valid one is the engine batch under canonical ids; the caller's documents before the first rejected one are renamed in place either way; without an error every document of the call has been written, in order, and is recorded |
| SearchService.Service.BatchDelete | internal/search/service.go:188-198 | an invalid list of keys changes nothing; a valid one is the engine batch; without an error every key of the call has been deleted, in order, and is recorded |
| SearchService.UpsertsAllExactly | internal/search/service.go:150-164 | a call is refused, changing nothing, exactly when it carries no document, more than 500, or one that is missing or unacceptable; otherwise the index is that of the first documents written in order under their canonical ids, of all of them when there is no error, which is so when every request is answered; then every document is recorded at its version or a larger one |
| SearchService.DeletesAllExactly | internal/search/service.go:188-198 | the same for the keys of a delete call, refused exactly when one is missing or incomplete |
| SearchService.RenamedExactly | internal/search/service.go:154-162 | a document of the caller gets its canonical id exactly when it and all before it are acceptable |
| SearchService.ClearedIsBatch | internal/search/service.go:154-163 | what upsert validation passes on are documents with lawful visibility under their canonical ids |
| SearchService.PlainIsBatch | internal/search/service.go:192-197 | what delete validation passes on are complete keys |
| ReadSafety.BatchesStayReachable | internal/search/service.go:150-198 | every upsert or delete call on a reachable index leads to a reachable index |
| ReadSafety.ConsumerStaysReachable | internal/app/search_projection.go:66-72 | so does every run of the event consumer |
| ReadSafety.HitsAreSafe | internal/searchstore/opensearch.go:264-281 | in every reachable index each hit is a validated live document in the caller's scope, a protected one through a token other than the tenant-wide one |
| ReadSafety.AnswerIsSafe | internal/searchstore/opensearch.go:107-151 | every hit and every facet value of a response comes from a document the caller may see, and the page is no longer than its size |
| ReadSafety.FoundExactly | internal/searchstore/opensearch.go:264-298 | a search pages through exactly the live documents in scope that the request and its text select |
| ReadsExactly.SearchExactly | internal/searchstore/opensearch.go:107-151 | a search that succeeds returns that page of exactly the live documents of the tenant that share a normalised token, match the text unless it is blank and meet the lists and filters, in ranking order, with their number, the page size in numbers, and for exactly the allowed facet fields each value found with the number of found documents that have it |
| ReadsExactly.SuggestExactly | internal/search/service.go:84-100 | a call that succeeds suggests, by title, type, source id and url, the first 10 documents, or as many up to 50 as asked for, in ranking order, of exactly the live ones of the tenant that share a token, match the prefix and are of a listed type and of a listed and granted application, if any is listed |
| ReadsExactly.IgnoredFilter | internal/searchstore/opensearch.go:272-276 | a filter on any other field, or without values, leaves the outcome of every search as it is |
| ReadsExactly.SearchSucceedsExactly | internal/search/service.go:71-82 | a search succeeds exactly with a tenant that is not blank, granted applications and a 2xx answer; otherwise the error is, in this order, invalid, that of the grants, unavailable without an answer, not-found on a 404, or the status of the store |
| ReadsExactly.SuggestSucceedsExactly | internal/search/service.go:84-100 | the same for suggestions, whose prefix must not be blank either |
| ReadsExactly.LookupFailsExactly | internal/searchstore/opensearch.go:212-255 | a lookup fails as the store does, and is not-found while the store fails only if the store answered 404 |
| ReadSafety.SearchIsSafe | internal/search/service.go:71-82 | whatever text, filters, facets, sort and page are asked for, all hits and all facet values come from documents the caller may see |
| ReadSafety.SuggestIsSafe | internal/search/service.go:84-100 | every suggestion is drawn from a document the caller may see |
| ReadSafety.TenantWideCallerSeesNothingProtected | internal/search/service.go:177-179 | what a caller with only the tenant-wide token sees has no permission code |
| ReadSafety.LookupExactly | internal/searchstore/opensearch.go:167-177 | an answered lookup returns that document, or not-found exactly when there is none the caller may see |
| ReadSafety.GetExactly | internal/search/service.go:102-116 | the service's lookup: success exactly for a visible document whose application is granted, with the id that was asked for; not-found exactly when none is visible |
| ReadSafety.HitsAreDistinct | internal/searchstore/opensearch.go:132-142 | in every reachable index no document is found twice |
| ReadSafety.SearchPagesTile | internal/search/service.go:71-82 | the hits that Search returns for pages 1 to the last, one after the other, are every wanted document once and in order if and only if the last page starts below 2^32 |
| Callers.NoServiceAccounts | internal/searchauth/resolver.go:41-63 | whatever either transport or the resolver hands on, no caller searches with a service-account token, and every token searched with is trimmed |
| Callers.ShownExactly | internal/search/service.go:166-182 | some caller, on either transport and with or without the resolver, can be shown a stored document by a search or lookup of some reachable index if and only if its tenant is not blank and one of its tokens is stored trimmed and is not a service account's |
| Callers.ServiceAccountDocument | internal/search/service.go:171 | validation admits documents visible to service accounts only, which nobody is shown |
| Callers.BlankTenantDocument | internal/search/service.go:155 | validation admits documents of a blank tenant, which nobody is shown because every read refuses that tenant |
| Callers.PaddedDocument | internal/search/service.go:169 | validation admits documents whose only token has blanks around it, which nobody is shown |
| ReadSafety.PageIsWindow | internal/search/service.go:200-210 | the answer to any page of a search is that window of one list, whose length it reports, with the normalised page size |
| ReadSafety.HitsAreGranted | internal/search/service.go:75-81 | with a non-empty application list, every hit's application was granted by the verifier's answer for this request |
| ReadSafety.LookupOfHit | internal/search/service.go:102-116 | looking up a document that a search has shown succeeds if and only if its application, if any, is granted |
| ReadSafety.SearchShowsWhatLookupRefuses | internal/search/service.go:75-81 | for every stored document with an application in a tenant that is not blank, every first-page request without a list that selects it and every caller sharing a token, there are a reachable index and a verifier with which Search returns it and Get refuses it |
| ReadSafety.NoListNoCheck | internal/search/service.go:75-81 | the outcome of a search without a list is the same for every two verifiers |
| ReadSafety.FilteredApplicationIsUnchecked | internal/searchstore/opensearch.go:272-302 | naming one application in the filters instead of the list returns only its documents, whatever the verifier would have said |
| ReadSafety.ByFilterSelects | internal/searchstore/opensearch.go:272-302 | such a filter selects exactly the documents of that application among those the rest of the request selects |
| Paging.OffsetExactly | internal/searchstore/opensearch.go:281 | the 32-bit offset is (page-1)*size if and only if that fits 32 bits |
| Paging.FirstPagesAreExact | internal/searchstore/opensearch.go:281 | no allowed page size wraps up to page 42949673 |
| Paging.FirstWrappingPage | internal/searchstore/opensearch.go:281 | page 42949674 at 100 per page has offset 4 |
| Paging.PagesTileExactly | internal/searchstore/opensearch.go:281 | the pages of a list without duplicates, one after the other, are the list if and only if the last page starts below 2^32 |
| Consumer.EventConsumer.ApplySearchEvent | internal/app/search_projection.go:105-128 | an answered event with an acceptable document, or a complete key, of its own tenant leaves that document live, or a tombstone, under the canonical id at its version unless a newer entry is there; the call succeeds exactly for usable answered events; an unusable one changes nothing |
| Consumer.EventConsumer.Receive | internal/app/search_projection.go:66-72 | the handler runs only for events of schema version 1 that are not recorded, and records them only after success and commit |
| Consumer.RejectedChangesNothing | internal/app/search_projection.go:105-128 | a wrong schema version, event type, tenant or a missing document leaves index and inbox unchanged and is an error |
| Consumer.DocumentIsWritten | internal/app/search_projection.go:107-115 | an answered upsert event, not recorded yet, of schema 1, type "platform.search.document.upserted.v1" and with an acceptable document of its tenant puts the live document under its canonical id unless a newer entry is there, succeeds, and is recorded exactly if the transaction commits |
| Consumer.KeyIsDeleted | internal/app/search_projection.go:116-124 | the same for type "platform.search.document.deleted.v1" and a complete key, with a tombstone |
| Consumer.HandledExactly | internal/app/search_projection.go:66-72 | whatever becomes of the request, an event succeeds exactly when usable and answered, is recorded exactly when it also commits, and changes the index exactly when its request lands; recorded and unusable events change nothing |
| Consumer.UsableExactly | internal/app/search_projection.go:105-128 | the events the consumer takes are exactly those two kinds |
| Consumer.EventOpIsWellFormed | internal/app/search_projection.go:105-128 | the operation of an accepted event is one that batch validation lets through |
| Consumer.InboxTransparent | internal/app/search_projection.go:66-72 | at every point of every run, with any skips, purges and other writers, the index is the one of applying every delivered event directly |
| Consumer.InboxVisibleOnTies | internal/app/search_projection.go:66-72 | two different events with one key and one version give a run in which the inbox changes the final index |
| Consumer.InboxVisibleOnSharedId | internal/app/search_projection.go:66-72 | two accepted events with one id and different effects give a run in which the inbox changes the final index |
| Consumer.InboxTransparentExactly | internal/app/search_projection.go:66-72 | over any set of events the inbox is invisible in all runs if and only if accepted events with one id have one effect and no two have different effects on one key under one version |
| Consumer.ConsumerRunIsARun | internal/app/search_projection.go:66-72 | every run of the consumer is a run of the projection that acknowledges exactly the operations the store decided about, including every recorded one |
| Consumer.ConsumerConverges | internal/app/search_projection.go:66-72 | once the store has decided about a largest-version operation of every key at some time, whatever was skipped, left uncommitted or purged, the index holds the latest operation of every key |
| Consumer.RecordedIsDecided | internal/app/search_projection.go:66-72 | for every recorded id an operation of its effect was decided, and purging records takes no decision back |
| Consumer.PurgedIsNew | internal/app/search_projection.go:66-101 | after any run a purge leaves the index and every other recorded id alone, and a usable answered event with a purged id is then written like a first delivery and recorded exactly if the transaction commits |
| Transports.TransportsAgreeExactly | internal/transport/grpc/server.go:194-205 | without a resolver HTTP and gRPC give every caller the same denials and the same view of the stored documents of the tenant if and only if there is no principal, it has an id, or it is of no other tenant and either the tenant asked for or its membership is blank |
| Transports.BareTokensAddNothing | internal/transport/http/search_handler.go:197-208 | tokens that trim to a bare "user:" or "membership:" match no stored document |
| Transports.MembershipWitness | internal/transport/http/search_handler.go:204-208 | in every tenant that is not blank, a storable document of it that a membership token brings into view and the tenant-wide token alone does not |
| Transports.AdmittedExactly | internal/transport/http/search_handler.go:197-208 | both transports refuse a principal of another tenant, gRPC only one with an id, and admit every other; an admitted caller sees exactly the stored documents shared with the tenant, with the user token or with the membership token, trimmed, and on gRPC without an id those shared with the tenant |
| Resolver.VisibilityTokens | internal/searchauth/resolver.go:33-71 | the page loop with its seen-map equals the reference walk, including the number of calls, and resolves as the next row says |
| Resolver.ResolvedExactly | internal/searchauth/resolver.go:33-71 | no principal or a principal of another tenant gives an error without a call, no membership or no server the own tokens without a call; otherwise pages are asked for while each is answered, not empty and below its total, 100 at most; tokens come back exactly when the first other answer is a last page, and are the own ones followed by one for each distinct role shown active on the pages asked for; the result is an error exactly when that request failed or 100 pages all let the walk go on |
| Resolver.FirstShownFirst | internal/searchauth/resolver.go:54-66 | the distinct active roles stand in the order in which they were first shown |
| Resolver.AnyServerIsBounded | internal/searchauth/resolver.go:49-70 | against any server between 1 and 100 calls are made, and every token after the caller's own is the role token of a binding seen active in some answer |
| Resolver.StableListExactly | internal/searchauth/resolver.go:49-70 | against an unchanging list of n bindings the result is all distinct active roles in first-occurrence order after max(1, ceil(n/100)) calls if n is at most 10000, and an error after 100 calls otherwise |
| Retry.DoWithRetry | internal/outbound/http.go:92-133 | the loop equals the specification of its result, its number of requests and the bodies it closes in order |
| Retry.BodiesBalanceExactly | internal/outbound/http.go:115-125 | every response obtained is closed exactly once, or returned and not closed, if and only if it is not so that all attempts before the last allowed one are to be repeated and uncancelled and the last yields an error together with a response |
| Retry.FailsExactly | internal/outbound/http.go:119-121 | the call fails with the last error exactly when the last allowed attempt is reached and errs |
| Retry.UnclosedBody | internal/outbound/http.go:119-121 | a call whose only attempt yields both leaves that response |
| Retry.RetriesAreBounded | internal/outbound/http.go:98-133 | between one and MaxAttempts requests, more than one only for a method idempotent by section 9.2.2 of RFC 9110 or with an idempotency key, stopping at the first settled outcome, never falling out of the loop |
| Retry.RetriesExactly | internal/outbound/http.go:98-143 | for GET, HEAD, OPTIONS, PUT, DELETE or with a key, more than j requests are sent, j below the allowed number, if and only if the first j all erred or were answered 429, 502, 503 or 504 and their waits elapsed; any other verb is sent once; anything else is returned at once, the last allowed attempt returns its response or error, and a cut-short wait ends the call with its cause |
| Retry.UnsendableIsNotSent | internal/outbound/http.go:92-104 | with an attempt allowed, a request is sent exactly when its path is relative and it can be built; otherwise the call fails without one |
| Retry.Execute | internal/outbound/http.go:50-90 | the breaker lets the result through unchanged, takes handed-out retryable statuses and errors as failures, and leaves calls the caller cancelled uncounted |
| Retry.RetryGrpcMethod | internal/grpcclient/client.go:103-113 | retries are allowed exactly with an idempotency key or a matching pattern |
| Retry.RetryInterceptor | internal/grpcclient/client.go:81-101 | the interceptor loop equals the specification of its result and number of calls |
| Retry.GrpcIsBounded | internal/grpcclient/client.go:86-99 | at most MaxAttempts calls, all but the last transient; a transient error is returned only when the attempts are used up |
| Retry.GrpcRetriesExactly | internal/grpcclient/client.go:86-99 | more than j calls are made, j below the allowed number, if and only if the first j were all unavailable or resource-exhausted and their waits elapsed; any other code and the last allowed call are handed out as they are |
| Backoff.ShiftScheduleExactly | internal/grpcclient/client.go:115-119 | under a valid policy every shifted delay is min(Initial*2^(k-1), Max) if and only if the last doubling fits 63 bits |
| Backoff.SmallBackoffsNeverWrap | internal/grpcclient/client.go:115-119 | that holds for every allowed policy with Initial below 2^60 ns |
| Backoff.WrittenOut | internal/grpcclient/client.go:115-119 | the delays of the up to four waits are the wrapped or converted 1, 2, 4 and 8 times the initial backoff, capped |
| Backoff.FirstWrappingBackoff | internal/config/config.go:650-652 | at 2^60 ns with five attempts, which validation admits, the fourth delay is negative |
| Backoff.DelaysInRangeExactly | internal/grpcclient/client.go:115-119 | under a valid policy all delays lie between Initial and Max if and only if the last doubling fits 63 bits |
| Backoff.DelaysAreMonotone | internal/grpcclient/client.go:115-119 | then the delays waited never shrink |
| Backoff.TotalWaitBounded | internal/grpcclient/client.go:115-128 | under every valid policy, wrapping or not, the time spent waiting for n attempts is at most (2^(n-1)-1)*Initial and (n-1)*Max |
| Backoff.FloatIsNearest | internal/outbound/http.go:154 | the conversion to a 64-bit float misses by at most half a last place |
| Backoff.RoundingKeepsPowers | internal/outbound/http.go:154 | the conversion does not carry a duration across a multiple of 2^60 |
| Backoff.SchedulesAgreeExactly | internal/outbound/http.go:153-157 | for every valid policy and any result of an overflowing conversion, the floating-point and the shifted schedule agree at every attempt if and only if: there is no wait; or neither last doubling leaves 63 bits and Initial converts exactly or rounds up and is the cap; or only the converted one does, the overflow result capped is Initial, and Initial is the cap if there are earlier waits; or Initial converts as before, both last doublings stay below 2^64 and the overflow result is the wrapped last doubling |
| Backoff.SmallSchedulesAgree | internal/outbound/http.go:153-157 | the schedules agree for every allowed policy with Initial at most 2^53 ns |
| Backoff.LoopsWaitAlike | internal/grpcclient/client.go:87-98 | under one policy with Initial at most 2^53 ns, both loops make as many attempts and wait as long, for any outcomes that are final for both or for neither |
| ListHook.StringToStringSlice | internal/config/config.go:327-338 | the hook equals the reference parser on every string |
| ListHook.TrimItems | internal/config/config.go:335-337 | the loop rewrites every part in place |
| ListHook.RoundTripExactly | internal/config/config.go:321-340 | printing a list as bracketed quoted elements and parsing it returns the list if and only if no element holds a comma or starts or ends with a quote; blanks and empty elements survive |
| ListHook.BareRoundTripExactly | internal/config/config.go:321-340 | a list written with commas only, without brackets and without blanks around, is read back if and only if its text is not empty and no element holds a comma or has a quote or blank at an end |
| ListHook.CommaSeparated | internal/config/config.go:333-337 | "a,b" is the list of a and b |
| ListHook.QuotesAreCut | internal/config/config.go:336 | a pair of quotes of either kind around an element is cut away |
| ListHook.NoElements | internal/config/config.go:327-332 | blanks, with or without brackets around them, are the empty list |
| Lifecycle.RunKeeps | internal/app/search_projection.go:51-103 | every step of the hooks and goroutines keeps the wait count equal to the live workers and a called stop coupled to the cancel |
| Lifecycle.CountIsLiveWorkers | internal/app/search_projection.go:51-103 | in every interleaving the wait count is the number of live workers, which is zero without bus or inbox |
| Lifecycle.StopIsFinal | internal/app/search_projection.go:96-102 | once the stop hook has returned, no continuation lets the consumer or the cleaner do anything more |
| Lifecycle.StopCanReturn | internal/app/search_projection.go:96-102 | a called stop hook can always return after the workers have seen the cancel |
| Lifecycle.StartExactly | internal/app/search_projection.go:51-95 | starting brings the consumer to life exactly with bus and inbox, the cleaner exactly if there is one as well, and fails exactly with a bus and no inbox |
| Lifecycle.WorkersKeepWorking | internal/app/search_projection.go:61-93 | until the service is stopped the cleaner lives and every cleaning counts, and so does the consumer until it returns |
| Lifecycle.StopCancels | internal/app/search_projection.go:96-102 | stopping cancels exactly when workers were started |

## Left out

- JSON and protobuf encoding, undecodable answers of the store, and event payload decoding beyond "readable or not".
- Relevance scores, highlighting, analysers, the refresh delay, the keyword length limit and the store's result-window limit.
- The facet limit of 50 buckets and the suffix that facet names carry on the wire.
- Index creation and confirmation, and the store's ping.
- Document fields that no modelled operation looks at (summary, content, keywords, timestamps).
- One document pointer appearing twice in a batch: the array holds values, so such aliasing is not represented.
- The transports' copying into response objects, sort names and error texts.
- The resolver-backed path of the two transports, which both hand on what the resolver returns.
- Forwarding of the caller's authorization header, credentials, TLS and token verification.
- Pattern matching of method names, which is an arbitrary predicate here.
- Reading the request path as a URL, headers, the request body and draining a body before it is closed.
- The circuit breakers' own state and the timeout, metadata and metrics interceptors.
- Real time: a wait either elapses or ends with the context, and a deadline is only a cause for that.
- Configuration loading and all checks of it besides the retry bounds; the hook's test of source and target types.
- Databases, migrations, middleware, metrics, logging, health checks and dependency injection.
- SearchStore.Engine.Search: the store's ranking and text matching are inputs, so nothing is said about their quality.
- Lifecycle.StopCanReturn: says that the stop hook is never stuck, not that the scheduler lets the workers run.

# Device admission: a verified model

This project models the device admission service and proves what its parts promise together. The
service keeps, per tenant, a collection of authentication sets in MongoDB; a second service,
devauth, holds its own view of the same sets. A request reads a record, calls devauth, and writes or
deletes, in an order that depends on the request, with nothing locking between the steps.

| file | models |
|---|---|
| `Model.dfy`, `Wrappers.dfy` | records, statuses, errors and their wrapping, how a store operation can fail |
| `Documents.dfy` | what the document database does: `omitempty`, query by example, `$set`, upsert, remove |
| `Records.dfy` | the store as a plain map, and the meaning of each operation on it |
| `Ordering.dfy` | sorting by id |
| `DataStore.dfy` | the store as a class over a mutable collection, refined to the map |
| `Migration.dfy` | migration 1.1.0, a cursor loop that rewrites what it reads |
| `Client.dfy` | requests to devauth: URL templates and the reading of replies |
| `Protocol.dfy` | the two-service protocol as a transition system with every interleaving, dropped requests and lost acknowledgements |
| `Scripts.dfy` | what each request leaves behind when its steps run in a row, from any state |
| `Safety.dfy` | what holds in every interleaving |
| `Serial.dfy` | what more holds where requests do not overlap, one set or identity at a time, and exactly what overlap breaks |
| `Tenants.dfy` | one service for many tenants: databases by name, one pool of requests, one devauth |
| `DevAdm.dfy` | the application layer, each request proved equal to the protocol's run of it |
| `HttpUtils.dfy`, `Paging.dfy` | query parameters, links, 64-bit paging arithmetic, following `next` links |
| `Handlers.dfy` | the HTTP handlers: gates and status codes |
| `Routing.dfy` | generation of OPTIONS routes |

How the layers meet: the handlers are proved on the application class, the application class on the
store class and on the protocol (`DevAdms.DevAdm.AcceptDeviceAuth` ends in the very store that
`Protocol.Run` gives for its script), the store class on the map of `Records`, and the protocol uses
that same map. `Protocol.Apply` is total and an action that does not fit changes nothing, so
quantifying over all sequences of actions is quantifying over all interleavings.

## Findings

- **An accept that overlaps a delete brings back a partial record.** The upsert of a status change
  writes id, device id and status even when the record is gone
  (`Serial.OverlapLeavesPartialRecord`); in one step, this is the only way a record loses its
  description (`Serial.PartialRecordIff`). While the requests on one set do not overlap, whatever
  happens elsewhere, its record is complete (`Serial.RecordsAreComplete`).
- **The services can end up disagreeing** on a decided set: by two overlapping decisions although
  every step succeeds (`Serial.OverlapBreaksAgreement`), by a management delete during an accept
  (`Serial.OverlappingDeleteDisagrees`), by a decision dropped between acknowledgement and write
  (`Serial.DroppedDecisionDisagrees`), or by one that devauth applies although its reply is lost
  (`Serial.UnseenDecisionDisagrees`). In every interleaving, they agree exactly when the last call
  that took effect on the decided entry left the decided status there (`Serial.ServicesAgreeIff`);
  for overlapping status changes alone, exactly when the last write and the last acknowledgement are
  of requests that ask for the same status (`Serial.OverlappingDecisionsAgreeIff`). While the
  requests on one set do not overlap and its acknowledged changes are written down, they agree on it
  (`Serial.ServicesAgree`).
- **Two overlapping preauthorizations can share an identity** (`Serial.OverlapSharesIdentity`). The
  step that does it is characterised by `Serial.DuplicateIdentityIff`; while preauthorizations of one
  identity do not overlap, it is preauthorized at most once (`Serial.IdentitiesAreUnique`).
- **The driver keeps 32 bits of a skip count.** The handler's own 64-bit arithmetic never wraps, but
  the vendored driver truncates, so page 2^24 + 1 of 256 rows shows the first page again
  (`Paging.WrappedSkipShowsFirstPage`). `Paging.PageIsItsStretchIff` says exactly which pages are
  right, and `Paging.LinksEnumerateTheListing` exactly which listings the links enumerate: those
  whose last page begins below row 2^31.
- **A removal by device that fails is answered 204**, because the store drops the error
  (`DataStores.DataStore.DeleteDeviceAuthByDevice`, `Handlers.DeleteDevicesHandler`).
- **The migration fails on a document with a foreign device id** (neither empty nor the id) if its
  cursor returns that document again with its old content: the upsert finds nothing, and either the
  index refuses the second document or building the index fails on it. `Migration.Up` succeeds
  exactly when nothing fails from outside and this does not happen; no cursor can make it happen
  exactly when no document has a foreign device id (`Migration.NoCursorMissesIff`), as before 1.1.0
  and after any interrupted run (`Migration.StaysClean`).

Device ids come from request bodies and may hold slashes and even the URL template's own patterns.
Still no two stored sets share a devauth URL (`Safety.StoredSetsHaveTheirOwnUrls`), because
authentication set ids are path parameters or generated and so hold no slash.

The documentation differs from the code in two places, and the model follows the code:
`docs/management_api.yml:275-279` lists the source states of a status change, but the code accepts
or rejects from any state; `docs/management_api.yml:47-53` gives 10 as the default page size, the
code uses 20.

## Assumptions

Writes to one document are atomic; the unique index on `id` exists (for the migration it may or may
not); a replaced document keeps its place; the database refuses a negative skip count. `$set` without
fields, which the database refuses, is sent by no caller; the model lets it change nothing. Attribute
maps are compared as maps. Go's `int` has 64 bits. A cursor that reads while the migration writes
returns each document as it is or as it was when the migration began. Decoded request bodies,
devauth's replies, store failures, generated ids and the time are parameters.

## Model

| member | source | states |
|---|---|---|
| Safety.StepKeepsInv | devadm/devadm.go:88-289 | Every step of every request keeps the invariant: device ids never empty in store and captured records, decisions backed by the history, descriptions whole, preauthorized records as inserted. |
| Safety.DecisionsWereAcknowledged | devadm/devadm.go:136-233 | In every interleaving with dropped requests, a rejected record follows a devauth acknowledgement of exactly its device id, id and `rejected`; an accepted one follows such an acknowledgement or an internal accept that read it as preauthorized. |
| Safety.EventMeans | devadm/devadm.go:209-227 | What each history event stands for: an acknowledgement is a 204 reply to that very call and changed devauth accordingly; an insertion added a new record; a read saw the stored record. |
| Safety.DescriptionsAreWhole | store/mongo/datastore_mongo.go:193-246 | Identity data, key, attributes and time of a record come whole from one submission or preauthorization of its id or are all empty; every stored id was once submitted or preauthorized; a preauthorized record is exactly what was inserted. |
| Safety.StatusWritesFollowReads | devadm/devadm.go:209-227 | Before the upsert of a status change, the record had been read from the store and devauth had acknowledged that status, for the device id that was read, to this very request. |
| Safety.ServicesChangeInOrder | devadm/devadm.go:119-134 | A management delete removes a record only after devauth acknowledged the deletion of that very set to that very request; devauth is told of a preauthorization only after that very record was inserted, and changes only by its replies. |
| Safety.WhatAddsAnId | store/mongo/datastore_mongo.go:225-291 | Only a submission, an insertion or a status upsert can add an id; the strict update never does. |
| Safety.NeverReentersPreauthorized | devadm/devadm.go:136-161 | With new generated ids, which a later submission may reuse, a set that has left preauthorized never is preauthorized again, whatever overlaps. |
| Safety.LeavesPreauthorizedForGood | devadm/devadm.go:136-161 | The same from the empty store: once stored and later found not preauthorized, a set stays so through any further interleaving. |
| Safety.PreauthorizedStaysAsInserted | devadm/devadm.go:251-277 | A set that is preauthorized at two points of a run has not changed in any field between them. |
| Serial.RecordsAreComplete | devadm/devadm.go:209-233 | While the requests on one set do not overlap, whatever happens to other sets, is dropped or fails, its record has every required field and a known status. |
| Serial.IdentitiesAreUnique | devadm/devadm.go:251-277 | While preauthorizations of one identity do not overlap, in every interleaving at most one preauthorized record has it. |
| Serial.SerialStoresAreGood | devadm/devadm.go:251-277 | Without any overlap every reachable store has complete records with known statuses and at most one preauthorized record per identity, even with dropped requests and failing replies. |
| Serial.ServicesAgree | devadm/devadm.go:163-233 | While the requests on one set do not overlap and its acknowledged changes are written down, whatever happens to other sets, devauth holds the stored status whenever the set was last decided through the management API and no acknowledged change is still to be written. |
| Serial.PartialRecordIff | devadm/devadm.go:222-227 | In one step, a record loses its description exactly when the upsert of a status change finds it gone. |
| Serial.OverlapLeavesPartialRecord | devadm/devadm.go:209-233 | From any quiescent state, an accept that overlaps a removal leaves an accepted record without description. |
| Serial.DuplicateIdentityIff | devadm/devadm.go:251-277 | In one step, an identity becomes preauthorized twice exactly when an insertion goes ahead although the identity has become preauthorized since its query. |
| Serial.OverlapSharesIdentity | devadm/devadm.go:251-277 | From any quiescent state and for any identity the store does not have, two preauthorizations that both query before either inserts leave two preauthorized records with it. |
| Serial.OverlappingDecisionsAgreeIff | devadm/devadm.go:209-233 | For any number of overlapping status changes of one set among any other requests, the services agree on it afterwards exactly when the last write and the last acknowledgement are of requests that ask for the same status. |
| Serial.ServicesAgreeIff | devadm/devadm.go:163-233 | In every interleaving, with drops, deletions, submissions and unseen devauth changes: devauth and the store agree on a set last decided through the management API exactly when the last call on the decided entry that took effect left the decided status there. |
| Serial.AgreesAfterDecisionIff | devadm/devadm.go:163-233 | The same from any state that keeps the invariant, falling back on devauth's entry as it was. |
| Serial.DroppedDecisionDisagrees | devadm/devadm.go:217-227 | A decision for the other status that is acknowledged and dropped before its write parts the services. |
| Serial.UnseenDecisionDisagrees | devadm/devadm.go:217-220 | So does one that devauth applies although its reply is lost. |
| Serial.OverlappingDeleteDisagrees | devadm/devadm.go:119-134 | A management delete during an accept can leave an accepted record that devauth does not know. |
| Serial.OverlapBreaksAgreement | devadm/devadm.go:209-241 | From any quiescent state, an accept and a reject that write in the order opposite to their acknowledgements leave the store accepting what devauth rejects, every step having succeeded. |
| Protocol.HistoryIsReal | devadm/devadm.go:88-289 | Every event of the history was emitted by the action at some position, in the state the run had reached there. |
| Protocol.BeginsAndIsRefused | devadm/devadm.go:217-220 | A status change that devauth does not acknowledge leaves the store and the requests in flight as they were, and devauth too unless it applied the change unseen. |
| Tenants.TenantNameRoundTrip | vendor/github.com/mendersoftware/go-lib-micro/store/utils.go:25-62 | The database is `deviceadm` for the empty tenant and `deviceadm-` with its name for any other; the name reads back as the tenant, so different tenants have different databases. |
| Tenants.TenantsDoNotInterfere | store/mongo/datastore_mongo.go:112-291 | In one service with one pool of requests, a tenant's store and requests end as if only the steps had run that arrive for it or continue requests that did, by the labels of the arrivals; so all that holds of the protocol's stores holds of every tenant's. |
| Tenants.StepStaysInside | store/mongo/datastore_mongo.go:112-291 | A step for one tenant changes that tenant's store and requests as the protocol says and no other tenant's. |
| Tenants.OneStepRequestStaysInside | store/mongo/datastore_mongo.go:225-246 | A submission or removal acts on the store of the tenant it arrives for and on nothing else. |
| Tenants.NewRequestKeepsItsTenant | devadm/devadm.go:209-215 | A longer request enters the pool with the tenant it arrives for, having read that tenant's store. |
| Tenants.LaterStepStaysWithItsRequest | devadm/devadm.go:217-232 | A later step acts on the store and request of the tenant stored with that request. |
| Scripts.StatusRuns | devadm/devadm.go:209-233 | A whole status change, whatever else is in flight: store, devauth, history and decided sets change exactly as reply and write allow, only the status of the record changes, and the request is gone. |
| Scripts.StatusIsAnswered | devadm/devadm.go:217-220 | Its call, whatever has happened since the read: devauth takes the captured status if it acknowledges or applies it, and only an acknowledged request goes on. |
| Scripts.StatusEnds | devadm/devadm.go:222-227 | Its upsert, whatever it finds by then: device id and status overwritten, or a record made of these alone. |
| Scripts.PreAcceptRuns | devadm/devadm.go:136-161 | A whole internal accept, from any state: accepts exactly a preauthorized record, tells devauth nothing, and is gone. |
| Scripts.PreAcceptEnds | devadm/devadm.go:152-155 | Its strict update, whatever it finds by then: any record there becomes accepted, none is made. |
| Scripts.SubmitRuns | devadm/devadm.go:88-97 | A submission with every required field replaces the record, as pending; any other changes nothing. |
| Scripts.RemoveByDeviceRuns | store/mongo/datastore_mongo.go:173-189 | A removal by device keeps every record of other devices, and the decided sets among them decided. |
| Scripts.DeleteRuns | devadm/devadm.go:119-134 | A whole management delete, from any state: devauth's entry and the record go exactly as reply and removal allow, and the request is gone. |
| Scripts.PreauthRuns | devadm/devadm.go:251-289 | A whole preauthorization, devauth's reply included, from any state: inserts exactly when the identity is free, the write works and the id is new; devauth then holds the new set as preauthorized exactly when it took the call; the request is gone. |
| DevAdms.DevAdm.SubmitDeviceAuth | devadm/devadm.go:88-97 | The stored record is overlaid with the submission and its time; equals the protocol's submission. |
| DevAdms.DevAdm.DeleteDeviceAuth | devadm/devadm.go:107-117 | Deletes exactly this id; not-found exactly when it was absent, other failures never look like it. |
| DevAdms.DevAdm.PropagateDeviceAuthUpdate | devadm/devadm.go:163-180 | Sends one PUT to the set's status URL, unless that does not parse; succeeds exactly on 204; a refusal stays a usage error, nothing becomes not-found. |
| DevAdms.DevAdm.UpdateDeviceAuthStatus | devadm/devadm.go:209-233 | The store changes only after devauth's 204, and then only device id and status; exact conditions for success, not-found and refusal. |
| DevAdms.DevAdm.AcceptDeviceAuth | devadm/devadm.go:235-237 | Sends exactly one PUT with `accepted` for a set that is read, and ends in the store of the protocol's run: only the status changed, exactly when read, devauth's 204 and write all happened. |
| DevAdms.DevAdm.RejectDeviceAuth | devadm/devadm.go:239-241 | The same for `rejected`. |
| DevAdms.DevAdm.AcceptDevicePreAuth | devadm/devadm.go:136-161 | Succeeds exactly for a stored preauthorized record whose update works; separate errors for absent and for not preauthorized; ends in the store of the protocol's run. |
| DevAdms.DevAdm.PropagateDeviceAuthDeletion | devadm/devadm.go:182-207 | One DELETE to the stored set's URL if the set is stored and the URL parses; success exactly on 204, not-found exactly when the set is absent. |
| DevAdms.DevAdm.DeleteDeviceAuthPropagate | devadm/devadm.go:119-134 | Sends exactly one DELETE for a set that is read; the record is deleted exactly when that was answered 204 and the removal happened; ends in the store of the protocol's run. |
| DevAdms.DevAdm.DeleteDeviceData | devadm/devadm.go:243-245 | Removes exactly the records of a device id, or those a failing removal got to, as the protocol's removal does; not-found exactly when nothing matched. |
| DevAdms.DevAdm.PreauthorizeDevice | devadm/devadm.go:251-277 | Conflict exactly when the identity query finds a record; exactly one POST, with the inserted ids, identity and key, exactly after a successful insertion; a failed propagation leaves the record. |
| Handlers.UpdateDeviceStatusHandler | api/http/api_devadm.go:283-326 | Exact conditions for 400, 404 (the first read missed), 422 (devauth refused with an error that parses) and 200 (devauth and store both succeeded); the one status told to devauth, stored and answered; the store after any answer. |
| Handlers.AcceptPreauthorizedHandler | api/http/api_devadm.go:328-361 | Exact conditions for 400, 404, 409 and 200, the body answered, and the store after any answer. |
| Handlers.PostDevicesHandler | api/http/api_devadm.go:143-164 | Exact conditions for 400, 409 and 201, what is sent to devauth; after any answer, exactly the new preauthorized record was added, or nothing if refused before the insertion or the insertion failed. |
| Handlers.SubmitDeviceHandler | api/http/api_devadm.go:186-205 | 400 exactly for unacceptable records, 204 exactly when the store also acknowledged; after any answer, the record is stored as pending under the path's id with every field replaced, unless refused or failed before the write. |
| Handlers.ParseDevice | api/http/api_devadm.go:207-247 | Lets a record through exactly when id, device id, identity, key and attributes are non-empty; the path gives the id. |
| Handlers.ParseAuthSet | model/authset.go:24-53 | Accepts exactly bodies with identity, key and a non-empty decoded attribute map. |
| Handlers.DeleteDevicesHandler | api/http/api_devadm.go:166-184 | An empty device id is answered 400 and never reaches the store; otherwise 204 and exactly the other devices' records remain, and those a failing removal did not get to, which is also answered 204. |
| Handlers.DeleteDeviceHandler | api/http/api_devadm.go:375-389 | 204 exactly when the store worked, whether the record was there or not; the record is gone unless the removal failed before it happened. |
| Handlers.DeleteDeviceManagementHandler | api/http/api_devadm.go:391-405 | 204 exactly when the set was absent or both services deleted it; what is sent to devauth; after any answer a record has disappeared only after devauth's 204. |
| Handlers.GetDevicesHandler | api/http/api_devadm.go:94-141 | 400 exactly as the parameter gates say, 500 exactly on a failing query; otherwise the page's stretch of the sorted listing, with a `next` link exactly if it goes on, `prev` exactly after page 1 and `first` always, each asking for its page with the request's page size, filter and other values. |
| DataStores.DataStore.GetDeviceAuths | store/mongo/datastore_mongo.go:112-132 | The window of the filtered listing in id order; fails on a skip count whose low 32 bits are negative. |
| DataStores.DataStore.GetDeviceAuth | store/mongo/datastore_mongo.go:134-153 | The map's record; not-found exactly when the map has none. |
| DataStores.DataStore.DeleteDeviceAuth | store/mongo/datastore_mongo.go:155-171 | The map loses exactly this id. |
| DataStores.DataStore.DeleteDeviceAuthByDevice | store/mongo/datastore_mongo.go:173-189 | Keeps exactly the documents that do not match, in order, and those a removal failing half-way did not get to; an empty device id matches everything; not-found exactly when nothing was removed; a failure is not reported. |
| DataStores.DataStore.GenDeviceAuthUpdate | store/mongo/datastore_mongo.go:193-222 | Every non-empty field but the id. |
| DataStores.DataStore.PutDeviceAuth | store/mongo/datastore_mongo.go:225-246 | Refines `Put` on the map; keeps ids unique. |
| DataStores.DataStore.UpdateDeviceAuth | store/mongo/datastore_mongo.go:248-270 | Refines `Update` on the map; not-found exactly when the id is absent. |
| DataStores.DataStore.InsertDeviceAuth | store/mongo/datastore_mongo.go:272-291 | Writes the generated ids into its argument, also when it fails, and adds that record exactly when the id is free. |
| DataStores.DataStore.GetDeviceAuthsByIdentityData | store/mongo/datastore_mongo.go:377-390 | Returns exactly the stored records with this identity data, or all for empty data. |
| DataStores.PutRefines | store/mongo/datastore_mongo.go:225-246 | `Upsert` with `$set` on a uniquely indexed collection is `Put` on the map it stands for. |
| DataStores.UpdateRefines | store/mongo/datastore_mongo.go:248-270 | `Update` with `$set` is the guarded put on the map. |
| DataStores.DeleteRefines | store/mongo/datastore_mongo.go:155-171 | Removing the first match of an id is deletion from the map. |
| DataStores.DeleteByDeviceRefines | store/mongo/datastore_mongo.go:173-189 | Removal by example, finished or not, keeps exactly the records of other devices and the spared ones. |
| DataStores.IdentityQueryExact | store/mongo/datastore_mongo.go:377-390 | The identity query equals the plain predicate on the map. |
| DataStores.ListingExact | store/mongo/datastore_mongo.go:118-126 | The listing holds exactly the records that pass the filter, in strictly increasing order of id. |
| DataStores.ListingDetermined | store/mongo/datastore_mongo.go:126-126 | The listing depends on the map only, not on the order of documents. |
| Ordering.LessIs | store/mongo/datastore_mongo.go:126-126 | The order of ids is ascending: the first difference decides, and a front comes first. |
| Documents.QueryByExample | store/mongo/datastore_mongo.go:118-126 | A marshalled example selects exactly the records that carry each of its non-empty fields. |
| Documents.WithoutKeepsOrder | store/mongo/datastore_mongo.go:177-179 | What a removal leaves keeps its order, and what it leaves and removes is the whole collection. |
| Records.PutsCompose | store/mongo/datastore_mongo.go:193-246 | Two puts on one id are one put of the overlaid updates. |
| Records.PutIdempotent | store/mongo/datastore_mongo.go:225-246 | Repeating a put changes nothing. |
| Records.PutsCommute | store/mongo/datastore_mongo.go:225-246 | Puts on different ids commute. |
| Records.UpdateIsGuardedPut | store/mongo/datastore_mongo.go:248-270 | A strict update is a put where the id is present and nothing otherwise: it never adds an id, and a put adds only its own. |
| Migration.Up | store/mongo/migration_1_1_0.go:35-66 | For any collection with unique ids, index present or not, any cursor with repeats and stale copies: an error on any failing upsert, cursor close or index build, otherwise success exactly when no visit misses; on success exactly the visited records are migrated, and after visits to all of them the collection is the fully migrated map; a miss is refused by the index or repeats an id. |
| Migration.SelectorFindsIff | store/mongo/migration_1_1_0.go:45-51 | The selector finds the document it was read from exactly when the copy's device id is empty or the present one; otherwise it finds nothing. |
| Migration.RepeatInsertsIff | store/mongo/migration_1_1_0.go:45-51 | Rewriting a document again by its old content adds a second document exactly when its device id was neither empty nor the id. |
| Migration.NoCursorMissesIff | store/mongo/migration_1_1_0.go:40-51 | No cursor, however stale, can miss exactly when no document carries a foreign device id. |
| Migration.StaysClean | store/mongo/migration_1_1_0.go:35-66 | An interrupted run leaves a collection on which again no cursor can miss. |
| Migration.NextVisit | store/mongo/migration_1_1_0.go:45-51 | One iteration migrates the visited record in place unless it misses; a miss is refused by the index or repeats an id, and repeated ids stay. |
| Migration.RestartComposes | store/mongo/migration_1_1_0.go:35-66 | A run after an interrupted run is one run over both lists of visits. |
| Migration.Confluent | store/mongo/migration_1_1_0.go:35-66 | Whatever was visited before or after and in whatever order, a complete cursor ends in the same collection, every device id equal to the id. |
| Migration.MigratedStore | store/mongo/migration_1_1_0.go:45-51 | Seen as a map, a complete migration sets each device id to the id and does no more. |
| Migration.RestartMigratesStore | store/mongo/migration_1_1_0.go:35-66 | After any interrupted run, a complete one leaves each of the original records with its id as device id and does no more. |
| Client.UrlsAreExact | client/deviceauth/client_deviceauth.go:32-40 | The templates become base, device id and auth id in their places even when an id contains a pattern. |
| Client.SameUrlIff | client/deviceauth/client_deviceauth.go:197-202 | Two sets share a status URL, or a deletion URL, exactly when their ids around the separator spell the same text. |
| Client.UrlsAreInjective | client/deviceauth/client_deviceauth.go:197-202 | Different pairs of ids have different URLs, whatever the device ids hold, as long as authentication set ids hold no slash; or the other way round. |
| Safety.SplitParam | vendor/github.com/ant0ine/go-json-rest/rest/trie/impl.go:17-23 | A path parameter is the longest slash- and dot-free front of the path. |
| Safety.StoredIdsHoldNoSlash | api/http/api_devadm.go:217-221 | In every interleaving, a stored id is a path parameter or generated and holds no slash. |
| Safety.StoredSetsHaveTheirOwnUrls | client/deviceauth/client_deviceauth.go:154-202 | In every interleaving, no two stored sets share a status URL or a deletion URL, whatever their device ids hold. |
| Client.UpdateDevice | client/deviceauth/client_deviceauth.go:72-115 | The PUT that is sent if its URL parses; success exactly on 204, a usage error exactly on 422 with a parsable API error. |
| Client.PreauthorizeDevice | client/deviceauth/client_deviceauth.go:117-152 | The POST that is sent if its URL parses; success exactly on 201. |
| Client.DeleteDeviceAuthSet | client/deviceauth/client_deviceauth.go:154-183 | The DELETE that is sent if its URL parses; success exactly on 204. |
| Paging.LinksEnumerateTheListing | api/http/api_devadm.go:94-141 | From page 1 of an unchanging store, following the `next` links that the handler writes comes to an answer without one, after at most as many requests as there are matches (or one), with exactly the records of the asked status and device id in strictly increasing order of id; it does so exactly when the last page begins below row 2^31, and otherwise rows are missing. |
| Paging.FollowIsTheRest | api/http/api_devadm.go:116-140 | From any page within the driver's reach, the links end with exactly the rest of the listing, exactly when its last page is within reach. |
| Paging.PageIsItsStretchIff | api/http/api_devadm.go:116-135 | A page shows its stretch of the listing and has a `next` link exactly when the listing goes on, if and only if the skipped rows are below 2^31 or the wrapped count is past the end too. |
| Paging.LinkAsksForItsPage | utils/http.go:114-152 | Reparsed, a link asks for its page with the same page size and filter, and for nothing if the page does not fit 32 bits. |
| Paging.PageLinksBelong | utils/http.go:128-145 | The links made for a page are a `next`, `prev` and `first` as the page allows, each asking for its page and keeping all other values. |
| Paging.AskOfIs | api/http/api_devadm.go:98-114 | A listing request is understood exactly when page and page size are absent or within bounds and the status is absent or known; it then asks for the query's page, page size, device id and status, 1 and 20 being the defaults. |
| Paging.ArithmeticIsExact | api/http/api_devadm.go:117-118 | For everything that parses, the handler's 64-bit skip and limit are exact and the limit is at least 2. |
| Paging.SkipIsExactIff | vendor/gopkg.in/mgo.v2/session.go:2695-2700 | The driver keeps a skip count exactly when it is below 2^31. |
| Paging.WrappedSkipShowsFirstPage | vendor/gopkg.in/mgo.v2/session.go:2695-2700 | A page that skips 2^32 rows is answered like the first page, which is wrong exactly for non-empty listings. |
| HttpUtils.MakePageLinkHdrs | utils/http.go:128-145 | Each link carries the request's own query with its own page, although all are made from one mutated map. |
| HttpUtils.MakeLink | utils/http.go:147-152 | Sets page and page size in the shared map and links to what it then holds. |
| HttpUtils.LinksByRelation | utils/http.go:128-145 | A `next` link exactly when there is a next page, a `prev` link exactly after page 1, always `first`, and no other. |
| HttpUtils.LastSegmentEndsThePath | utils/http.go:131-132 | A link's resource holds no slash and is what follows the path's last slash, or the whole path. |
| HttpUtils.LinkRoundTrip | utils/http.go:114-152 | A link's query reads back as its page and page size, all values of every other name unchanged and no name added; it is refused exactly when the page does not fit 32 bits. |
| HttpUtils.PrintParse | utils/http.go:84-87 | A printed number parses back to itself exactly when it fits 32 bits. |
| HttpUtils.ParsedUIntIs | utils/http.go:73-94 | Refuses exactly a missing required value and one that is not a decimal number of 32 bits within the bounds; gives the default or the number. |
| HttpUtils.ParseQueryParmStr | utils/http.go:96-111 | Refuses exactly a missing required value and a present one outside the allowed list. |
| HttpUtils.ParsePagination | utils/http.go:114-126 | Accepts exactly absent or decimal values from 1 to 2^32 - 1 and to 500; absent ones are 1 and 20. |
| Routing.AutogenOptionsRoutes | api/http/routing.go:41-64 | Keeps the routes as a prefix and appends exactly one OPTIONS route, listing the path's methods in order, for each path without one and for no other. |
| Routing.MethodsAreInOrder | api/http/routing.go:44-52 | A path's methods are those of its routes, in their order. |
| Routing.NothingLacksOptions | api/http/routing.go:41-64 | Afterwards every path answers OPTIONS. |
| Routing.Idempotent | api/http/routing.go:41-64 | A second application adds nothing. |
| Routing.SameUpToOrder | api/http/routing.go:54-63 | Two applications to the same routes differ at most in the order of what they append. |

## Left out

- HTTP serving, middleware, logging, configuration, the command line and the version string: plumbing around libraries.
- The read-only handlers for one record and one status, tenant provisioning and the unused URL builder: they would only add easy members.
- Database sessions, dialing, BSON encoding and the order of attribute fields in selectors; attribute maps are compared as maps.
- The migration library and the choice of the tenants to migrate; only the names of tenant databases are modelled.
- JSON decoding, struct validation, percent-encoding and the text of a Link header; their results are parameters or structured values.
- Error message texts; whether an error is wrapped is modelled.
- Whether a URL parses is a parameter, not computed from the ids in it.
- Timeouts as real time, the Authorization header, devauth's internals and its changes of its own accord.
- A claim that the attributes stored with a submission equal its decoded identity data: decoding fills a map that the body may already have filled.
- DataStores.DataStore.GetDeviceAuths: limits of 2^31 or more and the driver's special cases for 1 and for negative limits are not modelled; the only caller passes 2 to 501.
- Serial.ServicesAgree: assumes that a change acknowledged by devauth is then written down; what happens otherwise is Serial.ServicesAgreeIff.

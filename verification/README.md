# Verification model of the runer notes API

This project models, in Dafny 4.11, the three parts of the notes API whose
correctness is a matter of whole runs rather than of single functions, and proves
what they keep.

* **Note store and sync** (`internal/notes`). Two tables, notes and tombstones,
  each keyed by note id alone, changed by upsert, trash, restore, purge and
  tombstone expiry; and the paginated full and delta sync by which offline-first
  clients read them. One cursor drives two streams with different keys: notes by
  `updated_at`, tombstones by `deleted_at`.
* **Token lifecycle** (`internal/auth`, `internal/utils/jwt.go`). Magic link,
  atomic consumption, refresh token, access tokens, revocation.
* **Two parsers** (`internal/config/config.go`). Allowed origins and the request
  body limit.

`dafny verify dfyconfig.toml` checks the whole project.

## Modules

| module | content |
|---|---|
| `Keyset` | keys, sorting, and one keyset query (filter, sort, take) |
| `NotesModel` | the tables as values, the row mutations as atomic steps, runs, the store invariant |
| `SyncModel` | unpaged and paged queries, the two halves of `GetNotesSince`, the next cursor |
| `Pagination`, `TombDelivery` | traversals over key sets: completeness of notes, page counts, which tombstones arrive |
| `SyncPaging` | the same for the rows of a quiescent store |
| `SyncRun` | a client and the store interleaved call by call: which notes have reached the client at each point of a traversal |
| `SyncConverge` | the same with deletions: exactly when a delta converges, and what the next one recovers |
| `SyncQuiescent` | a delta during which nothing is written: the exact condition of convergence |
| `SyncHazards` | what happens to a note or tombstone behind the cursor, or to a client without the assumptions, with concrete runs |
| `StoreRuns` | purge conservation, deltas as diffs, tombstone expiry |
| `ServiceModel`, `ServiceRuns` | the service as atomic requests: optimistic locking, quota, isolation of users |
| `ServiceLaws` | what each request answers and writes, told from the tables alone |
| `UpsertSteps` | upserts as separate repository calls with any number in flight |
| `NotesRepo`, `NotesServices` | repository, service and list handler as classes that update in place, proved against the functions above |
| `AuthModel`, `AuthRuns` | token tables, the calls of login, refresh and logout interleaved, whole-run safety |
| `AuthServices` | auth repository and service as classes |
| `ConfigParsers` | the two parsers |

Lemmas on key sets (`Pagination`, `TombDelivery`) carry the inductions; the lemmas
of `SyncPaging` restate them for the tables. The classes change their tables in
place, and each method's `ensures` equates the whole new state with a
specification function of the old one; every whole-run lemma is about those
functions.

## Assumptions

* Every repository call is one atomic step. Writes to the notes tables take
  strictly increasing, positive instants, and commit in that order. The instant of
  a write is a parameter of the step.
* Note ids and user ids are numbers; the order of ids is the order of the database.
* The zero instant stands for "no cursor", as `time.Time{}` does, and is never
  stored.
* The client is environment: it keeps a last-writer-wins replica on `updated_at`
  and `deleted_at`. Convergence assumes that it takes its next `since` from no later
  than the first read of its last full traversal, or the instant its last completed
  delta started that skipped no tombstone of a note it showed (`SyncConverge.Allowed`
  also admits somewhat later ones). `server_time` is read after the queries and is
  therefore not a safe `since`; `SyncHazards.ServerTimeLoses` is a run in which it
  loses a note. Tombstones are kept for as long as a client may still ask for them: no
  expiry cut-off lies past that instant. A client that was away for longer counts as
  one that has never synced and starts with a full traversal of the store it finds.
  The traversal invariant of `SyncRun` assumes none of this.
* The auth clock does not run backwards and durations are not negative. Hashing is
  injective on issued tokens, so a token is its hash; random tokens are parameters,
  and a collision is refused by the unique index. Signed claims cannot be forged.
* Codecs are idealised: a cursor travels as the key it encodes, a signed access
  token as its claims. `exp` is a NumericDate in whole seconds, rejected from that
  instant on (section 4.1.4 of RFC 7519).

## Where the code differs from what is said of it

* A comment in `internal/notes/notesService.go:89-92` has both collections advance
  together across pages. They do not: the cursor taken from the last note can pass
  tombstones that a full tombstone page has not returned. `SyncPaging.TombOmittedIff`
  and `SyncPaging.DeliveryCompleteIff` say exactly when, and
  `SyncHazards.OmissionHappens` gives a store on which it happens. The client may go on
  showing a purged note (`SyncHazards.SkippedStaysShown`).
* A page is two queries. With a cursor taken from a tombstone, a note committed
  between them can fall behind the cursor (`SyncHazards.OvertakingHappens`), and this
  traversal misses it (`SyncHazards.OvertakenLost`). The next delta delivers it
  (`SyncConverge.NextDeltaRecovers`).
* So a sync does not always converge. `SyncConverge.ReplicaConverges` assumes nothing
  against either defect and says exactly when it does; `SyncConverge.RoomyConverges` and
  `SyncQuiescent.QuiescentIff` are the cases of large pages and of no writes.
* The conflict check and the write of an upsert are separate calls. Two requests that
  name the current version and both check before either writes are both accepted, and
  one update is lost (`UpsertSteps.LostUpdate`); `UpsertSteps.SplitLockingIff` says
  exactly when.
* Expiring tombstones also removes the key that would have rolled back a second
  purge of the same id. Expiry is invisible to clients that sync from a later instant
  exactly in runs without such a purge (`StoreRuns.ExpireStepInvisibleIff`);
  `SyncHazards.ExpiryShows` is a run with one.
* Restoring a trashed note, and a versioned upsert of an absent id, bypass the quota
  (`ServiceRuns.LiveCountStep`, and `ServiceRuns.BypassesHappen` for a run); the upsert
  without a version that re-creates an id that is purged between its look-up and its
  write does too, in the split model.
* The repository's README speaks of `MarkMagicLinkTokenAsUsed` and of an
  `updated_at` field in the upsert request. The code has one conditional update of
  `used_at` and a `base_version` field. The code is modelled.
* Logging out twice moves `revoked_at` forward. The session lifetime bound is
  therefore stated with the first revocation, which the model records as history.

## Model

| member | source | states |
|---|---|---|
| `SyncConverge.ReplicaConverges` | internal/notes/notesService.go:69-127 | after any interleaving of writes with a client's full and delta traversals, whatever their pages miss or skip, a completed delta leaves exactly the user's notes iff every note of the window was written by the last note read and is not among those the pages overtook, and no tombstone of a note now gone is among those they skipped; if none was skipped, the replica has converged up to the basis of the next delta |
| `SyncConverge.DeltaConvergesIff` | internal/notes/notesService.go:77-104 | the same equivalence for a delta from any world that keeps the client invariant |
| `SyncConverge.DeltaEnds` | internal/notes/notesService.go:77-104 | note by note: which rows the replica has at the end of a delta, and which notes it shows that are gone |
| `SyncConverge.NextDeltaRecovers` | internal/notes/notesService.go:77-104 | whatever its pages and earlier ones overtook or skipped, a completed delta has every note written by the instant it started; if its pages skipped no tombstone of a note shown, it shows nothing that is gone and the next may start from that instant |
| `SyncConverge.RoomyConverges` | internal/notes/notesService.go:69-127 | if each page of a delta has room for the tombstones up to its last note, the delta shows nothing that is gone and has every note written up to an instant no earlier than its start, whatever earlier traversals did |
| `SyncConverge.RoomySkipsNothing` | internal/notes/notesService.go:93-101 | pages with such room skip nothing, whatever is written meanwhile |
| `SyncQuiescent.QuiescentIff` | internal/notes/notesService.go:77-104 | a delta that meets no writes leaves exactly the user's notes iff no page skips the tombstone of a note the client still shows |
| `SyncQuiescent.QuiescentConverges` | internal/notes/notesHandler.go:113-133 | the run of calls that reads all its pages ends with that replica, and with exactly the user's notes whenever each page of notes has room for the tombstones it spans |
| `SyncQuiescent.QuiescentRun` | internal/notes/notesHandler.go:113-133 | following the cursor until it is null, with no writes, absorbs exactly the pages of the traversal |
| `SyncRun.TraversalInvariant` | internal/notes/notesHandler.go:113-133 | for any `since`, expiry and skipped tombstones: between two pages, a current note of the window up to the cursor is in the replica in its current version iff no page has overtaken it; a full traversal overtakes none |
| `SyncRun.TraversalCompletes` | internal/notes/notesHandler.go:113-133 | when there is no further page, a current note of the window is in the replica iff it was written by the last note read and no page has overtaken it |
| `SyncRun.NoteCursorOvertakesNothing` | internal/notes/notesHandler.go:119-121 | a cursor taken from a note overtakes nothing |
| `SyncRun.RunKeepsNotes` | internal/notes/notesService.go:69-127 | every run with increasing write instants keeps the invariant of notes |
| `SyncRun.WriteMovesPast` | internal/notes/notesRepository.go:78-141 | a write leaves a row as it was or moves its key strictly past every cursor already issued |
| `SyncConverge.WriteKeeps` | internal/notes/notesRepository.go:78-161 | any committed write of any user keeps the invariant of a client in the middle of a sync |
| `SyncConverge.ReadNotesKeeps` | internal/notes/notesService.go:77-87 | the note query of a page keeps it |
| `SyncConverge.ReadTombsKeeps` | internal/notes/notesService.go:89-104 | the tombstone query, delivery and next cursor keep it |
| `SyncConverge.RunKeeps` | internal/notes/notesService.go:69-127 | so does every allowed run |
| `SyncConverge.PageIsSafe` | internal/notes/notesService.go:97-101 | a delta page with room for the tombstones it spans skips nothing; one with notes, with no write between its reads, or with at most `limit` tombstones left overtakes nothing |
| `SyncRun.NotesHalfRows` | internal/notes/notesRepository.go:55-65 | the note half returns current rows of the user beyond the cursor, and all of them up to the last one returned |
| `SyncRun.TombsHalfRows` | internal/notes/notesRepository.go:184-194 | the same for the tombstone half |
| `SyncPaging.PagedRefinesUnpaged` | internal/notes/notesRepository.go:21-65 | for every limit, the pages of a full or delta traversal concatenate to the rows of the unpaged query, each once, by updated_at and then by note id |
| `SyncPaging.HasMoreAdvances` | internal/notes/notesHandler.go:113-133 | more pages exist iff there is a cursor, and it is strictly greater than the previous one |
| `SyncPaging.DeltaLength` | internal/notes/notesService.go:77-104 | a delta traversal takes at most max(1, ceil(N/limit) + ceil(T/limit)) pages |
| `SyncPaging.FullLength` | internal/notes/notesService.go:106-126 | a full traversal takes exactly max(1, ceil(N/limit)) pages |
| `SyncPaging.FullTombs` | internal/notes/notesService.go:117-124 | a full traversal returns every tombstone of the user exactly once, all of them on its first page, whatever the limit |
| `SyncPaging.FullPage` | internal/notes/notesService.go:106-126 | a first page of a full sync lists all tombstones of the user, a later one none, and whether there is more is told by the notes alone |
| `SyncPaging.TombOmittedIff` | internal/notes/notesService.go:89-101 | a delta omits a tombstone iff some page with notes truncates its tombstones before it and ends its notes at or past it |
| `SyncPaging.DeliveryCompleteIff` | internal/notes/notesService.go:89-101 | every tombstone is delivered iff no page of notes spans more than `limit` tombstones; in particular if at most `limit` postdate `since` |
| `Pagination.NextAdvances` | internal/notes/notesHandler.go:113-133 | on key sets: hasMore, cursor, strict progress and strictly fewer rows left are one and the same |
| `Pagination.ProbeIsPage` | internal/notes/notesService.go:79-87 | the limit+1 probe finds the first `limit` rows and whether more exist |
| `Pagination.NotesComplete` | internal/notes/notesService.go:77-127 | whatever tombstones do to the cursor, the note pages concatenate to the sorted window |
| `Pagination.PageCountBound` | internal/notes/notesService.go:77-104 | the page bound from any cursor |
| `Pagination.PageCountAttained` | internal/notes/notesHandler.go:116-125 | the bound is attained when more than a page of tombstones postdates all notes |
| `TombDelivery.OmittedIffSkipped` | internal/notes/notesHandler.go:116-125 | on key sets and from any cursor: omitted iff skipped by a page |
| `TombDelivery.CompleteIffRoom` | internal/notes/notesHandler.go:116-125 | delivery is complete iff each page of notes leaves room for the tombstones it spans |
| `Keyset.PageCut` | internal/notes/notesRepository.go:34-37 | a page is exactly the least rows beyond the cursor |
| `Keyset.PageRest` | internal/notes/notesRepository.go:58-61 | resuming after the last row leaves exactly the other rows in the same order |
| `SyncHazards.ExpiryShows` | internal/notes/notesRepository.go:145-161 | from the empty store, a run in which expiring a tombstone shows to a delta from the cut-off |
| `SyncHazards.TwoPurgesReached` | internal/notes/notesRepository.go:78-161 | five writes from the empty store lead to the store of `SyncHazards.OmissionHappens` |
| `SyncHazards.OmissionHappens` | internal/notes/notesService.go:93-101 | a store and a page size for which a delta never returns a tombstone |
| `SyncHazards.OvertakingHappens` | internal/notes/notesService.go:79-93 | from the empty store, an allowed run in which a note committed between a page's reads falls behind the next cursor |
| `SyncHazards.OvertakenLost` | internal/notes/notesHandler.go:121-125 | such a note stays missing to the end of the traversal, whatever follows |
| `SyncHazards.SkippedStaysShown` | internal/notes/notesHandler.go:116-121 | a client that shows a note whose tombstone a page skips goes on showing the purged note, whatever follows in that traversal |
| `SyncHazards.ServerTimeLoses` | internal/notes/notesHandler.go:135-141 | after a first sync with a note committed between its two queries, a delta from its server_time ends without that note |
| `SyncHazards.LateSinceLoses` | internal/notes/notesHandler.go:135-141 | a note the client lacks stays missing through a delta whose `since` is no earlier than its updated_at |
| `NotesModel.FromEmpty` | internal/notes/notesRepository.go:78-161 | in every store reachable from the empty one timestamps are sane, and an id in both tables has a note newer than its tombstone |
| `NotesModel.ReachableInv` | internal/notes/notesRepository.go:78-161 | every run from a store with these properties keeps them |
| `StoreRuns.PurgeConserves` | internal/notes/notesRepository.go:145-161 | a purge moves exactly one row of its caller to the tombstones, or changes nothing and says why |
| `StoreRuns.TablesStayDisjoint` | internal/notes/notesRepository.go:145-161 | the tables share no id in runs that upsert no purged id |
| `StoreRuns.DeltaIsDiff` | internal/notes/notesRepository.go:43-49 | notes updated since t and tombstones since t turn a user's rows of a store at t into the rows of any later store, also when ids are purged and re-created and older tombstones expire |
| `StoreRuns.ExpiryInvisibleIff` | internal/notes/notesRepository.go:204-207 | expiring tombstones older than a cut-off changes no delta page from that cut-off on, along a run, iff no purge of the run meets an expired tombstone |
| `StoreRuns.ExpireStepInvisibleIff` | internal/notes/notesRepository.go:204-207 | the same of one expiry anywhere in a run from the empty store, against the run without it |
| `StoreRuns.TwinSamePages` | internal/notes/notesRepository.go:184-194 | stores that differ in tombstones older than the cut-off have the same delta pages |
| `StoreRuns.CollisionShows` | internal/notes/notesRepository.go:159 | a purge that an expired tombstone would have rolled back shows in the next delta |
| `ServiceRuns.ExactOverwrite` | internal/notes/notesService.go:148-156 | a successful versioned upsert overwrites exactly the version it named |
| `ServiceRuns.AtMostOneSave` | internal/notes/notesService.go:148-156 | of two atomic versioned upserts of a note that name the same base, with any requests between them, at most one succeeds |
| `ServiceRuns.ConflictRetry` | internal/notes/notesService.go:154-156 | a conflict changes nothing and carries the current row; pushing again with its updated_at succeeds if nothing touched the note meanwhile |
| `ServiceRuns.LiveCountStep` | internal/notes/notesService.go:157-215 | exactly admitted creates, restores of trashed notes and versioned upserts of absent ids raise a live count, by one |
| `ServiceRuns.QuotaRun` | internal/notes/notesService.go:191-215 | over a sequential run the live count stays within max(initial, limit) plus the number of bypasses |
| `ServiceRuns.QuotaPassedIff` | internal/notes/notesService.go:205-212 | a request takes a free user past max(previous count, limit) iff it is a bypass at or above the limit |
| `ServiceRuns.BypassesHappen` | internal/notes/notesService.go:148-156 | from the empty store, a run in which a restore and then a versioned upsert of an absent id take a free user past the limit |
| `ServiceRuns.UpsertKeepsTrashed` | internal/notes/notesRepository.go:78-91 | an upsert changes payload and updated_at of an existing note and nothing else |
| `ServiceLaws.WriteThenRead` | internal/notes/notesService.go:174-188 | a saved upsert stores and answers what was sent, at the instant of the write, for its user; a later look-up and a delta from any earlier instant have that row; it is reported as created iff it had no version and the id was free; an upsert that is not saved changes nothing |
| `ServiceLaws.UpsertAnswer` | internal/notes/notesService.go:148-182 | the exact condition of each of the five answers to an upsert |
| `ServiceLaws.PaidNeverRefused` | internal/notes/notesService.go:200-203 | a user on another plan than the free one is never refused for the number of notes |
| `ServiceLaws.TrashAnswer` | internal/notes/notesRepository.go:105-120 | a trash is done iff the user has the note, which keeps its content and is trashed now |
| `ServiceLaws.RestoreAnswer` | internal/notes/notesService.go:223-228 | a restore answers with the row it leaves: the note as it was, live, updated now |
| `ServiceLaws.TrashThenRestore` | internal/notes/notesRepository.go:105-141 | trashing and restoring a live note gives it back with a later updated_at |
| `ServiceLaws.PurgeAnswer` | internal/notes/notesRepository.go:145-161 | the exact condition of each answer to a purge; a purged note is gone and its tombstone is in every delta from an earlier instant |
| `ServiceLaws.ExpireAnswer` | internal/notes/notesRepository.go:204-207 | an expiry removes exactly the tombstones older than its cut-off |
| `ServiceLaws.FindAnswer` | internal/notes/notesRepository.go:67-76 | a look-up finds a note iff it is there and the user's, trashed or not |
| `ServiceRuns.OthersNeverTouch` | internal/notes/notesRepository.go:67-161 | whatever ids they use, other users' requests never change a user's rows, tombstones or live count |
| `ServiceRuns.NonInterference` | internal/notes/notesRepository.go:67-161 | with disjoint ids, deleting all other users' requests from a run leaves a user's rows, live count and responses as they were |
| `ServiceRuns.UserAlone` | internal/notes/notesService.go:69-127 | and every page of every sync |
| `UpsertSteps.AloneIsAtomic` | internal/notes/notesService.go:145-189 | the calls of one upsert with nothing in between are the atomic request |
| `UpsertSteps.PotentialStep` | internal/notes/notesService.go:194-215 | no step takes live notes plus admitted creates past limit + k - 1 other than by a bypass |
| `UpsertSteps.ConcurrentQuota` | internal/notes/notesService.go:164-180 | in any interleaving with at most k creates between count and insert, live notes stay within max(initial, limit + k - 1) plus bypasses |
| `UpsertSteps.QuotaFromRest` | internal/notes/notesService.go:164-180 | without bypasses and starting at rest: max(initial, limit + k - 1), and max(initial, limit) for k = 1 |
| `UpsertSteps.TwoCreatesOvershoot` | internal/notes/notesService.go:205-214 | two creates that both count before either writes do overshoot by one |
| `UpsertSteps.BoundAttained` | internal/notes/notesService.go:205-214 | for every k, k creates that all count before any inserts attain limit + k - 1 |
| `UpsertSteps.BoundAttainedFromStart` | internal/notes/notesService.go:145-189 | a run from the very start that attains it: with a limit of one note, k requests at once leave k notes |
| `UpsertSteps.SplitLockingIff` | internal/notes/notesService.go:150-182 | a versioned upsert overwrites a row newer than its base iff it is not the row it checked, iff something else wrote that row between its check and its write |
| `UpsertSteps.LostUpdate` | internal/notes/notesService.go:150-182 | two upserts naming the current version that both check before either writes are both accepted, and one payload is lost |
| `UpsertSteps.SplitLocking` | internal/notes/notesService.go:150-182 | the first half for any base: a row newer than it was written by something else between the check and the write |
| `NotesRepo.NotesRepository.FindAll` | internal/notes/notesRepository.go:21-27 | lists every note of the user once |
| `NotesRepo.NotesRepository.FindAllPaginated` | internal/notes/notesRepository.go:31-41 | at most `limit` notes of the user beyond the cursor in strictly ascending key order, leaving one out only when full and only after all of them; a zero time adds no clause |
| `NotesRepo.NotesRepository.FindUpdatedSince` | internal/notes/notesRepository.go:43-49 | lists every note of the user updated after `since` once |
| `NotesRepo.NotesRepository.FindUpdatedSincePaginated` | internal/notes/notesRepository.go:55-65 | the same of the notes updated after `since` |
| `NotesRepo.NotesPageIff` | internal/notes/notesRepository.go:31-65 | exactly one list is such a page of notes, and it is the one the sync lemmas are about |
| `NotesRepo.TombsPageIff` | internal/notes/notesRepository.go:184-194 | the same of tombstones |
| `NotesRepo.NotesRepository.FindByID` | internal/notes/notesRepository.go:67-76 | the row, if it belongs to the user |
| `NotesRepo.NotesRepository.Upsert` | internal/notes/notesRepository.go:78-101 | inserts a new live row with the payload, updates payload and updated_at of the caller's row alone, or refuses another user's row |
| `NotesRepo.NotesRepository.Trash` | internal/notes/notesRepository.go:105-120 | sets both timestamps of the caller's row, or refuses |
| `NotesRepo.NotesRepository.Restore` | internal/notes/notesRepository.go:124-141 | clears trashed_at of the caller's row, or refuses |
| `NotesRepo.NotesRepository.Purge` | internal/notes/notesRepository.go:145-161 | one transaction, rolled back by an existing tombstone key |
| `NotesRepo.NotesRepository.CountLiveNotes` | internal/notes/notesRepository.go:166-170 | counts the user's untrashed notes |
| `NotesRepo.NotesRepository.FindTombstonesSince` | internal/notes/notesRepository.go:172-178 | lists every tombstone of the user after `since` once |
| `NotesRepo.NotesRepository.FindTombstonesSincePaginated` | internal/notes/notesRepository.go:184-194 | the same of the tombstones after `since` |
| `NotesRepo.NotesRepository.FindAllTombstones` | internal/notes/notesRepository.go:196-202 | lists every tombstone of the user once |
| `NotesRepo.NotesRepository.PurgeExpiredTombstones` | internal/notes/notesRepository.go:204-207 | removes exactly the older tombstones and returns their number |
| `NotesServices.NotesService.GetNotesSince` | internal/notes/notesService.go:69-127 | the two probes and truncations compute the page all sync lemmas are about; in a full sync the first page lists every tombstone once, a later one none |
| `NotesServices.NotesService.EnforceQuota` | internal/notes/notesService.go:194-215 | refuses exactly an unknown user, and a user on the free plan at the limit |
| `NotesServices.NotesService.UpsertNote` | internal/notes/notesService.go:145-189 | conflict, create and re-push branches yield the atomic request's state and response |
| `NotesServices.NotesService.TrashNote` | internal/notes/notesService.go:218-220 | is the atomic trash request |
| `NotesServices.NotesService.RestoreNote` | internal/notes/notesService.go:223-228 | is the atomic restore request, returning the updated row |
| `NotesServices.NotesService.PurgeNote` | internal/notes/notesService.go:231-233 | is the atomic purge request |
| `NotesServices.NotesHandler.GetAll` | internal/notes/notesHandler.go:85-133 | refuses a malformed limit or one below 1, takes 100 for none and 500 for more, shows every row of the page in order field by field, and gives a cursor from the last note, else the last tombstone, exactly when there is more |
| `AuthRuns.LinkSingleUse` | internal/auth/authRepository.go:34-60 | however logins interleave, a used link was used before it expired, its used_at never changes, and it is never consumed again |
| `AuthRuns.SessionsFromLinks` | internal/auth/authService.go:112-169 | sessions map injectively to used links of the same user, so a user has no more sessions than used links |
| `AuthRuns.SessionLifetime` | internal/auth/authService.go:171-198 | an access token is accepted only before min(creation + refresh duration, first revocation) + access duration, plus the time between the check and the generation |
| `AuthRuns.RevocationPermanent` | internal/auth/authRepository.go:74-82 | whatever follows, a session keeps user and expiry, and once revoked or expired is refused at every check |
| `AuthRuns.RunInv` | internal/auth/authService.go:92-207 | every run keeps the invariant of links, origins, sessions and issued tokens, used links and revocations |
| `AuthRuns.LoginAlone` | internal/auth/authService.go:112-169 | the calls of one login with nothing in between consume one link and create one session and one access token |
| `AuthRuns.RefreshAlone` | internal/auth/authService.go:171-198 | the calls of one refresh issue one access token for a live session of a known user and none otherwise, and write nothing |
| `AuthRuns.LoginOfNobody` | internal/auth/authService.go:135-138 | a login for a user who is gone consumes the link and gives nothing |
| `AuthRuns.LinkLifetime` | internal/auth/authService.go:97-102 | whatever happens between, short of consuming it, a login can consume a new link for its user exactly until the link duration has passed |
| `AuthRuns.LogoutIsLocal` | internal/auth/authService.go:200-207 | in every reachable system a logout ends the session it names, at that instant, and leaves every other as good at a check as it was |
| `AuthRuns.LogoutOfNothing` | internal/auth/authService.go:202-205 | a logout with a token nobody has changes nothing |
| `AuthRuns.RevokeUserIsLocal` | internal/auth/authRepository.go:79-82 | revoking a user's sessions ends all of them and nobody else's |
| `AuthRuns.CheckAnswer` | internal/auth/authService.go:173-182 | a check accepts exactly the sessions that are there, not revoked and not past their expiry |
| `AuthRuns.FirstRevocationRun` | internal/auth/authRepository.go:74-82 | the first revocation on record of a session never changes |
| `AuthModel.TokenRoundTrip` | internal/utils/jwt.go:36-92 | a generated token names its user, email and type, is returned unchanged while it lasts, and is refused as expired from exp on |
| `AuthModel.ValidateAnswer` | internal/utils/jwt.go:59-92 | for any claims, why they are refused, and that accepted ones are returned as they are |
| `AuthModel.ConsumeAnswer` | internal/auth/authRepository.go:44-59 | exactly when a link is consumed, for whom, and that no other row changes |
| `AuthModel.LinkThenConsume` | internal/auth/authRepository.go:22-60 | a new link can be consumed exactly before it expires |
| `AuthModel.RevokeOnly` | internal/auth/authRepository.go:74-77 | revoking a token id changes the rows of that id alone |
| `AuthModel.RevokeAllOnly` | internal/auth/authRepository.go:79-82 | revoking all sessions changes the live rows of that user alone |
| `AuthModel.InsertAnswer` | internal/auth/authRepository.go:62-64 | a session is added next to the others, under a hash and token id that none has |
| `AuthModel.AcceptedExactlyWhile` | internal/utils/jwt.go:36-92 | a generated token is accepted exactly from its whole second to its exp, never after its duration, and throughout it up to the last second |
| `AuthServices.AuthRepository.VerifyAndConsumeMagicLinkToken` | internal/auth/authRepository.go:34-60 | a compare-and-set: consumes an unused, unexpired link or changes nothing |
| `AuthServices.AuthRepository.CreateMagicLinkToken` | internal/auth/authRepository.go:22-24 | inserts the link unless its hash exists |
| `AuthServices.AuthRepository.CreateRefreshToken` | internal/auth/authRepository.go:62-64 | inserts the session unless its hash or token id exists |
| `AuthServices.AuthRepository.RevokeRefreshToken` | internal/auth/authRepository.go:74-77 | sets revoked_at of the rows of that token id, also when already set, and leaves every other row as it was |
| `AuthServices.AuthRepository.RevokeAllUserRefreshTokens` | internal/auth/authRepository.go:79-82 | sets revoked_at of all live sessions of the user and leaves every other row as it was |
| `AuthServices.AuthService.CreateMagicLink` | internal/auth/authService.go:92-107 | stores a link that expires after the link duration |
| `AuthServices.AuthService.LoginWithMagicLink` | internal/auth/authService.go:112-169 | succeeds exactly for a consumable link of a known user and a fresh token; a failure after the first call leaves the link consumed |
| `AuthServices.AuthService.RefreshAccessToken` | internal/auth/authService.go:171-198 | which error each kind of token gets, and the claims issued otherwise |
| `AuthServices.AuthService.Logout` | internal/auth/authService.go:200-207 | revokes the session of a known token; every row of another token id stays as it was |
| `ConfigParsers.ParsedCORSOrigins` | internal/config/config.go:72-84 | the loop computes the list the origin lemmas are about |
| `ConfigParsers.OriginsRoundTrip` | internal/config/config.go:72-84 | joining any list of trimmed, non-empty, comma-free origins and parsing returns the list |
| `ConfigParsers.PaddedRoundTrip` | internal/config/config.go:76-83 | parsing any list of entries joined by commas, each with any white space around it, gives the texts of those that are not empty, in order |
| `ConfigParsers.TrimPad` | internal/config/config.go:79 | trimming removes the white space around a text and nothing else |
| `ConfigParsers.WhiteSpace` | internal/config/config.go:79 | which characters are white space |
| `ConfigParsers.OriginsStable` | internal/config/config.go:69-84 | parsing any text yields such origins only, and printing and parsing them again changes nothing |
| `ConfigParsers.SizeExact` | internal/config/config.go:92-119 | a size text with optional plus sign, digits and suffix yields exactly digits times multiplier iff that fits an int64, its wrapped product otherwise, and one mebibyte when the digits alone do not fit or are zero |
| `ConfigParsers.SizeFallback` | internal/config/config.go:94-118 | every other text yields one mebibyte |
| `ConfigParsers.SizeRoundTrip` | internal/config/config.go:105-118 | printing a positive number with a suffix and parsing is exact iff the size fits an int64 |
| `ConfigParsers.SizePadded` | internal/config/config.go:93 | white space around a size makes no difference |
| `ConfigParsers.Digits` | internal/config/config.go:107 | the digits of a size are the ten decimal ones |
| `ConfigParsers.LeadingZero` | internal/config/config.go:107 | a leading zero does not change the number |
| `ConfigParsers.Units` | internal/config/config.go:99-103 | one byte, kibibyte, mebibyte and gibibyte, and the fallback, in bytes |
| `ConfigParsers.Wraps` | internal/config/config.go:111 | the product is an int64 that differs from the exact one by a multiple of 2^64 |

## Left out

* HTTP routing, parameter binding and validation, status codes, analytics, logging,
  email delivery and shutdown.
* The encodings of cursors (JSON and base64), timestamps, UUIDs and note payloads;
  malformed cursor and `since` parameters, which the handler refuses before
  calling the service.
* Database errors, cancelled contexts and the `ON DELETE CASCADE` of user rows; in
  the auth model a removed user is one whose look-up fails.
* The truncation of timestamps to the precision of the database.
* Hash functions, random tokens and signatures, other than by the assumptions above.
* Registration, user management, subscriptions, the Stripe webhook and the rate
  limiter. A change of plan enters the split quota model as a step of its own.
* Configuration loading, defaults and validation; `GetNoteByID` and the other note
  handlers, which only pass requests on to the service.
- NotesRepo.NotesRepository.FindAll: returns the rows of the model in key order but promises only a listing, because the query has no ORDER BY; the same holds for the other unpaged queries.
- NotesRepo.NotesRepository.FindAllTombstones: also promises the key order, a choice the query leaves open, so that the first page of a full sync is a function of the store.
- StoreRuns.ExpireStepInvisibleIff: assumes a cut-off that is not in the future, and is about delta pages; the first page of a full sync lists all tombstones and does show expiry.
- AuthServices.AuthService.CreateMagicLink: takes the user as given; the look-up by email and the email itself are not modelled.
- AuthServices.AuthService.LoginWithMagicLink: takes the instants at which it reads the clock as parameters without relating them, which covers every order; `AuthRuns` runs them on one clock.
- ConfigParsers.ParsedCORSOrigins: does not distinguish a nil from an empty list.
- ConfigParsers.SizeExact: works on characters, not on the bytes of their encoding; the suffix test reads one byte, which agrees because the suffixes are ASCII.

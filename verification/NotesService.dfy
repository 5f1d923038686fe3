/** The note service and the list handler: sequences of repository calls, proved against
    the atomic requests and the page functions. */
module NotesServices {
  import opened Wrappers
  import opened Keyset
  import opened NotesModel
  import opened SyncModel
  import opened SyncPaging
  import opened ServiceModel
  import opened NotesRepo

  /** The users table, as far as the quota check reads it. */
  class UserPlans {
    var plans: map<UserId, Plan>

    constructor (plans: map<UserId, Plan>)
      ensures this.plans == plans
    {
      this.plans := plans;
    }

    method FindByID(u: UserId) returns (plan: Option<Plan>)
      ensures plan == if u in plans then Some(plans[u]) else None
    {
      plan := if u in plans then Some(plans[u]) else None;
    }
  }

  class NotesService {
    const repository: NotesRepository
    const usersRepo: UserPlans
    const freeNoteLimit: int

    constructor (repository: NotesRepository, usersRepo: UserPlans, freeNoteLimit: int)
      ensures this.repository == repository && this.usersRepo == usersRepo && this.freeNoteLimit == freeNoteLimit
    {
      this.repository, this.usersRepo, this.freeNoteLimit := repository, usersRepo, freeNoteLimit;
    }

    function Cfg(): Config
      reads usersRepo
    {
      Config(usersRepo.plans, freeNoteLimit)
    }

    method GetNotesSince(u: UserId, since: Option<Time>, cursor: Option<Key>, limit: nat)
      returns (notes: seq<NoteRow>, tombstones: seq<TombRow>, hasMore: bool)
      ensures SyncResult(notes, tombstones, hasMore) == SyncModel.GetNotesSince(repository.Db(), u, since, cursor, limit)
      ensures since.None? && cursor.None? ==> ListsTombs(tombstones, TombsSince(repository.Db(), u, None))
      ensures since.None? && cursor.Some? ==> tombstones == []
      ensures since.None? ==> (hasMore <==> |After(NoteWindow(repository.Db(), u, None), CursorKey(cursor))| > limit)
    {
      hide ListsTombs, NoteWindow, After, IsNotesPage, IsTombsPage, NotesPage, TombsPage, NotesSince, TombsSince, AllTombs;
      if since.None? { FullPage(repository.Db(), u, cursor, limit); }
      var afterUpdatedAt, afterNoteID := 0, 0;
      if cursor.Some? {
        afterUpdatedAt, afterNoteID := cursor.value.t, cursor.value.id;
      }
      assert CursorKey(cursor) == Key(afterUpdatedAt, afterNoteID);
      if since.Some? {
        notes := repository.FindUpdatedSincePaginated(u, since.value, limit + 1, afterUpdatedAt, afterNoteID);
        NotesPageIff(repository.Db(), u, since, CursorKey(cursor), limit + 1, notes);
        hasMore := |notes| > limit;
        if hasMore {
          notes := notes[..limit];
        }
        tombstones := repository.FindTombstonesSincePaginated(u, since.value, limit + 1, afterUpdatedAt, afterNoteID);
        TombsPageIff(repository.Db(), u, since, CursorKey(cursor), limit + 1, tombstones);
        var hasTombstoneMore := |tombstones| > limit;
        if hasTombstoneMore {
          tombstones := tombstones[..limit];
          hasMore := true;
        }
        return;
      }
      notes := repository.FindAllPaginated(u, limit + 1, afterUpdatedAt, afterNoteID);
      NotesPageIff(repository.Db(), u, None, CursorKey(cursor), limit + 1, notes);
      hasMore := |notes| > limit;
      if hasMore {
        notes := notes[..limit];
      }
      tombstones := [];
      if cursor.None? {
        tombstones := repository.FindAllTombstones(u);
      }
    }

    /** None when the user may create a note. */
    method EnforceQuota(u: UserId) returns (refusal: Option<Response>)
      ensures refusal == ServiceModel.EnforceQuota(Cfg(), repository.Db(), u)
      ensures refusal == Some(PlanUnknown) <==> u !in usersRepo.plans
      ensures refusal == Some(QuotaExceeded) <==>
                u in usersRepo.plans && usersRepo.plans[u] == "free" && CountLive(repository.Db(), u) >= freeNoteLimit
      ensures refusal.None? <==>
                u in usersRepo.plans && (usersRepo.plans[u] != "free" || CountLive(repository.Db(), u) < freeNoteLimit)
    {
      var plan := usersRepo.FindByID(u);
      if plan.None? {
        return Some(PlanUnknown);
      }
      if plan.value != FREE {
        return None;
      }
      var count := repository.CountLiveNotes(u);
      if count >= freeNoteLimit {
        return Some(QuotaExceeded);
      }
      return None;
    }

    method UpsertNote(u: UserId, id: Id, payload: Payload, baseVersion: Option<Time>, now: Time) returns (response: Response)
      modifies repository
      ensures Reply(repository.Db(), response)
           == Serve(Cfg(), old(repository.Db()), PutNote(u, id, payload, baseVersion), now)
    {
      var created := false;
      var existing := repository.FindByID(id, u);
      if baseVersion.Some? {
        if existing.Some? && existing.value.note.updatedAt > baseVersion.value {
          return Conflict(existing.value);
        }
      } else if existing.None? {
        var refusal := EnforceQuota(u);
        if refusal.Some? {
          return refusal.value;
        }
        created := true;
      }
      var outcome := repository.Upsert(id, u, payload, now);
      if outcome != Done {
        return NoteNotFound;
      }
      var saved := repository.FindByID(id, u);
      response := if saved.Some? then Saved(saved.value, created) else NoteNotFound;
    }

    method TrashNote(id: Id, u: UserId, now: Time) returns (response: Response)
      modifies repository
      ensures Reply(repository.Db(), response) == Serve(Cfg(), old(repository.Db()), Request.TrashNote(u, id), now)
    {
      var outcome := repository.Trash(id, u, now);
      response := if outcome == Done then Finished else NoteNotFound;
    }

    method RestoreNote(id: Id, u: UserId, now: Time) returns (response: Response)
      modifies repository
      ensures Reply(repository.Db(), response) == Serve(Cfg(), old(repository.Db()), Request.RestoreNote(u, id), now)
    {
      var outcome := repository.Restore(id, u, now);
      if outcome != Done {
        return NoteNotFound;
      }
      var row := repository.FindByID(id, u);
      response := if row.Some? then Restored(row.value) else NoteNotFound;
    }

    method PurgeNote(id: Id, u: UserId, now: Time) returns (response: Response)
      modifies repository
      ensures Reply(repository.Db(), response) == Serve(Cfg(), old(repository.Db()), Request.PurgeNote(u, id), now)
    {
      var outcome := repository.Purge(id, u, now);
      match outcome {
        case Done => response := Finished;
        case NotFound => response := NoteNotFound;
        case DuplicateTombstone => response := TombstoneExists;
      }
    }
  }

  // ---------- the list handler ----------

  const DEFAULT_PAGE_SIZE := 100
  const MAX_PAGE_SIZE := 500

  datatype LimitParam = Absent | Malformed | Number(n: int)

  datatype NoteResponse =
    NoteResponse(noteId: Id, payload: Payload, createdAt: Time, updatedAt: Time, trashedAt: Option<Time>)

  datatype TombstoneResponse = TombstoneResponse(noteId: Id, deletedAt: Time)

  datatype ListResult =
    | InvalidLimit
    | Listed(notes: seq<NoteResponse>, tombstones: seq<TombstoneResponse>, nextCursor: Option<Key>)

  function ToNoteResponse(r: NoteRow): NoteResponse {
    NoteResponse(r.id, r.note.payload, r.note.createdAt, r.note.updatedAt, r.note.trashedAt)
  }

  function ToTombstoneResponse(r: TombRow): TombstoneResponse {
    TombstoneResponse(r.id, r.tomb.deletedAt)
  }

  /** The result shows every row of the page in order, field by field, and its cursor. */
  ghost predicate Lists(result: ListResult, page: SyncResult)
    requires result.Listed?
  {
    && |result.notes| == |page.notes|
    && (forall i | 0 <= i < |page.notes| ::
          var shown, row := result.notes[i], page.notes[i];
          && shown.noteId == row.id && shown.payload == row.note.payload
          && shown.createdAt == row.note.createdAt && shown.updatedAt == row.note.updatedAt
          && shown.trashedAt == row.note.trashedAt)
    && |result.tombstones| == |page.tombs|
    && (forall i | 0 <= i < |page.tombs| ::
          result.tombstones[i].noteId == page.tombs[i].id && result.tombstones[i].deletedAt == page.tombs[i].tomb.deletedAt)
    && result.nextCursor == NextCursor(page)
  }

  class NotesHandler {
    const service: NotesService

    constructor (service: NotesService)
      ensures this.service == service
    {
      this.service := service;
    }

    /** Lists one page: every row of the page in order, and a cursor exactly when there is
        more, from the last note or else from the last tombstone. */
    method GetAll(u: UserId, since: Option<Time>, cursor: Option<Key>, limitParam: LimitParam) returns (result: ListResult)
      ensures result.InvalidLimit? <==> limitParam.Malformed? || (limitParam.Number? && limitParam.n < 1)
      ensures result.Listed? ==>
                exists limit: nat ::
                  && (limitParam.Absent? ==> limit == 100)
                  && (limitParam.Number? && limitParam.n <= 500 ==> limit == limitParam.n)
                  && (limitParam.Number? && limitParam.n > 500 ==> limit == 500)
                  && Lists(result, SyncModel.GetNotesSince(service.repository.Db(), u, since, cursor, limit))
    {
      hide SyncModel.GetNotesSince;
      var limit: nat := DEFAULT_PAGE_SIZE;
      if limitParam.Malformed? {
        return InvalidLimit;
      }
      if limitParam.Number? {
        var n := limitParam.n;
        if n < 1 {
          return InvalidLimit;
        }
        if n > MAX_PAGE_SIZE {
          n := MAX_PAGE_SIZE;
        }
        limit := n;
      }
      var notes, tombstones, hasMore := service.GetNotesSince(u, since, cursor, limit);
      var noteResponses := [];
      for i := 0 to |notes|
        invariant |noteResponses| == i
        invariant forall j | 0 <= j < i :: noteResponses[j] == ToNoteResponse(notes[j])
      {
        noteResponses := noteResponses + [ToNoteResponse(notes[i])];
      }
      var tombstoneResponses := [];
      for i := 0 to |tombstones|
        invariant |tombstoneResponses| == i
        invariant forall j | 0 <= j < i :: tombstoneResponses[j] == ToTombstoneResponse(tombstones[j])
      {
        tombstoneResponses := tombstoneResponses + [ToTombstoneResponse(tombstones[i])];
      }
      var nextCursor := None;
      if hasMore {
        if |notes| > 0 {
          var last := notes[|notes| - 1];
          nextCursor := Some(Key(last.note.updatedAt, last.id));
        } else if |tombstones| > 0 {
          var last := tombstones[|tombstones| - 1];
          nextCursor := Some(Key(last.tomb.deletedAt, last.id));
        }
      }
      result := Listed(noteResponses, tombstoneResponses, nextCursor);
      assert Lists(result, SyncModel.GetNotesSince(service.repository.Db(), u, since, cursor, limit));
    }
  }
}

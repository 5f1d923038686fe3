/** The note service as atomic requests: conflict check, quota, and the write. */
module ServiceModel {
  import opened Wrappers
  import opened NotesModel
  import opened SyncModel

  type Plan = string

  const FREE: Plan := "free"

  datatype Request =
    | PutNote(user: UserId, id: Id, payload: Payload, base: Option<Time>)
    | TrashNote(user: UserId, id: Id)
    | RestoreNote(user: UserId, id: Id)
    | PurgeNote(user: UserId, id: Id)
    | ExpireTombstones(olderThan: Time)

  datatype Response =
    | Saved(row: NoteRow, created: bool)
    | Restored(row: NoteRow)
    | Finished
    | Conflict(serverNote: NoteRow)
    | QuotaExceeded
    | PlanUnknown
    | NoteNotFound
    | TombstoneExists

  datatype Reply = Reply(db: DB, response: Response)

  /** The configuration of the service and the plans it looks up. */
  datatype Config = Config(plans: map<UserId, Plan>, freeNoteLimit: int)

  function FindByID(db: DB, u: UserId, id: Id): Option<NoteRow> {
    if Owns(db, u, id) then Some(NoteRow(id, db.notes[id])) else None
  }

  /** None: the note may be created. */
  function EnforceQuota(cfg: Config, db: DB, u: UserId): Option<Response> {
    if u !in cfg.plans then Some(PlanUnknown)
    else if cfg.plans[u] != FREE then None
    else if CountLive(db, u) >= cfg.freeNoteLimit then Some(QuotaExceeded)
    else None
  }

  function Write(db: DB, u: UserId, id: Id, payload: Payload, created: bool, now: Time): Reply {
    var s := UpsertRow(db, u, id, payload, now);
    if s.outcome.NotFound? then Reply(s.db, NoteNotFound)
    else Reply(s.db, Saved(NoteRow(id, s.db.notes[id]), created))
  }

  function Upserted(cfg: Config, db: DB, u: UserId, id: Id, payload: Payload, base: Option<Time>, now: Time): Reply {
    var existing := FindByID(db, u, id);
    match base
    case Some(b) =>
      if existing.Some? && existing.value.note.updatedAt > b then Reply(db, Conflict(existing.value))
      else Write(db, u, id, payload, false, now)
    case None =>
      if existing.Some? then Write(db, u, id, payload, false, now)
      else
        match EnforceQuota(cfg, db, u)
        case Some(refused) => Reply(db, refused)
        case None => Write(db, u, id, payload, true, now)
  }

  function Serve(cfg: Config, db: DB, req: Request, now: Time): Reply {
    match req
    case PutNote(u, id, payload, base) => Upserted(cfg, db, u, id, payload, base, now)
    case TrashNote(u, id) =>
      var s := Apply(db, Trash(u, id), now);
      Reply(s.db, if s.outcome.Done? then Finished else NoteNotFound)
    case RestoreNote(u, id) =>
      var s := Apply(db, Restore(u, id), now);
      Reply(s.db, if s.outcome.Done? then Restored(NoteRow(id, s.db.notes[id])) else NoteNotFound)
    case PurgeNote(u, id) =>
      var s := Apply(db, Purge(u, id), now);
      Reply(s.db, match s.outcome
                  case Done => Finished
                  case NotFound => NoteNotFound
                  case DuplicateTombstone => TombstoneExists)
    case ExpireTombstones(olderThan) => Reply(Apply(db, Expire(olderThan), now).db, Finished)
  }

  datatype Timed = Timed(req: Request, now: Time)

  function RunService(cfg: Config, db: DB, reqs: seq<Timed>): DB
    decreases |reqs|
  {
    if reqs == [] then db else RunService(cfg, Serve(cfg, db, reqs[0].req, reqs[0].now).db, reqs[1..])
  }

  function Responses(cfg: Config, db: DB, reqs: seq<Timed>): seq<Response>
    decreases |reqs|
  {
    if reqs == [] then []
    else
      var reply := Serve(cfg, db, reqs[0].req, reqs[0].now);
      [reply.response] + Responses(cfg, reply.db, reqs[1..])
  }

  ghost predicate OrderedRequests(clock: Time, reqs: seq<Timed>)
    decreases |reqs|
  {
    reqs != [] ==> reqs[0].now > clock && OrderedRequests(reqs[0].now, reqs[1..])
  }

  /** The repository call a request makes, if it writes at all. */
  function OpOf(req: Request): Op {
    match req
    case PutNote(u, id, payload, base) => Upsert(u, id, payload)
    case TrashNote(u, id) => Trash(u, id)
    case RestoreNote(u, id) => Restore(u, id)
    case PurgeNote(u, id) => Purge(u, id)
    case ExpireTombstones(olderThan) => Expire(olderThan)
  }

  /** A request writes through one repository call or leaves the store alone. */
  lemma ServeIsApply(cfg: Config, db: DB, req: Request, now: Time)
    ensures Serve(cfg, db, req, now).db == db || Serve(cfg, db, req, now).db == Apply(db, OpOf(req), now).db
    ensures Serve(cfg, db, req, now).response.Saved? ==>
              Serve(cfg, db, req, now).db == Apply(db, OpOf(req), now).db && Owns(Serve(cfg, db, req, now).db, req.user, req.id)
  {
  }
}

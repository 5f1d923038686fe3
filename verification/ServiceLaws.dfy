/** What each request of the note service answers and writes, told from the tables alone. */
module ServiceLaws {
  import opened Wrappers
  import opened NotesModel
  import opened SyncModel
  import opened ServiceModel

  /** The id is in use by another user. */
  predicate Foreign(db: DB, u: UserId, id: Id) {
    id in db.notes && db.notes[id].user != u
  }

  /** The user may create a note: on any plan but the free one always, on that below the limit. */
  predicate MayCreate(cfg: Config, db: DB, u: UserId) {
    u in cfg.plans && (cfg.plans[u] == "free" ==> CountLive(db, u) < cfg.freeNoteLimit)
  }

  predicate Stale(db: DB, u: UserId, id: Id, base: Option<Time>) {
    base.Some? && Owns(db, u, id) && db.notes[id].updatedAt > base.value
  }

  predicate Creates(db: DB, u: UserId, id: Id, base: Option<Time>) {
    base.None? && !Owns(db, u, id)
  }

  /** The five answers to an upsert, each with its exact condition. */
  lemma UpsertAnswer(cfg: Config, db: DB, u: UserId, id: Id, payload: Payload, base: Option<Time>, now: Time)
    ensures var r := Serve(cfg, db, PutNote(u, id, payload, base), now).response;
            && (r.Conflict? <==> Stale(db, u, id, base))
            && (r.Conflict? ==> r.serverNote == NoteRow(id, db.notes[id]))
            && (r == PlanUnknown <==> Creates(db, u, id, base) && u !in cfg.plans)
            && (r == QuotaExceeded <==>
                  Creates(db, u, id, base) && u in cfg.plans && cfg.plans[u] == "free" && CountLive(db, u) >= cfg.freeNoteLimit)
            && (r == NoteNotFound <==> Foreign(db, u, id) && (base.Some? || MayCreate(cfg, db, u)))
            && (r.Saved? <==>
                  !Foreign(db, u, id) && !Stale(db, u, id, base) && (Creates(db, u, id, base) ==> MayCreate(cfg, db, u)))
  {
  }

  /** A user on another plan than the free one is never refused for the number of notes. */
  lemma PaidNeverRefused(cfg: Config, db: DB, u: UserId, id: Id, payload: Payload, base: Option<Time>, now: Time)
    requires u in cfg.plans && cfg.plans[u] != "free"
    ensures var r := Serve(cfg, db, PutNote(u, id, payload, base), now).response;
            && r != QuotaExceeded && r != PlanUnknown
            && (id !in db.notes ==> r.Saved?)
  {
    UpsertAnswer(cfg, db, u, id, payload, base, now);
  }

  /** Write, then read. A saved upsert stores what was sent, at the instant of the write, for
      its user: under that id the answer, a later look-up and a delta from any earlier instant
      have one and the same row. A note that was there keeps its creation time and trashed
      state; a new one is created now and live, and is reported as created iff it was sent
      without a version. Whatever is not saved changes nothing. */
  lemma WriteThenRead(cfg: Config, db: DB, u: UserId, id: Id, payload: Payload, base: Option<Time>, now: Time)
    ensures var reply := Serve(cfg, db, PutNote(u, id, payload, base), now);
            match reply.response
            case Saved(row, created) =>
              && row.id == id && row.note.user == u && row.note.payload == payload && row.note.updatedAt == now
              && row.note.createdAt == (if id in db.notes then db.notes[id].createdAt else now)
              && row.note.trashedAt == (if id in db.notes then db.notes[id].trashedAt else None)
              && (created <==> base.None? && id !in db.notes)
              && reply.db == DB(db.notes[id := row.note], db.tombs)
              && FindByID(reply.db, u, id) == Some(row)
              && (forall since: Time | since < now :: row in NotesSince(reply.db, u, Some(since)))
              && (forall v | v != u :: FindByID(reply.db, v, id) == None)
            case _ => reply.db == db
  {
  }

  /** A trash answers that it is done iff the user has the note, which then keeps its content
      and is trashed now. */
  lemma TrashAnswer(cfg: Config, db: DB, u: UserId, id: Id, now: Time)
    ensures var reply := Serve(cfg, db, TrashNote(u, id), now);
            && reply.response == (if Owns(db, u, id) then Finished else NoteNotFound)
            && (!Owns(db, u, id) ==> reply.db == db)
            && (Owns(db, u, id) ==>
                  var n := db.notes[id];
                  reply.db == DB(db.notes[id := Note(u, n.payload, n.createdAt, now, Some(now))], db.tombs))
  {
  }

  /** A restore answers with the row it leaves: the note as it was, live, updated now. */
  lemma RestoreAnswer(cfg: Config, db: DB, u: UserId, id: Id, now: Time)
    ensures var reply := Serve(cfg, db, RestoreNote(u, id), now);
            && (!Owns(db, u, id) ==> reply.response == NoteNotFound && reply.db == db)
            && (Owns(db, u, id) ==>
                  var n := db.notes[id]; var n' := Note(u, n.payload, n.createdAt, now, None);
                  reply.response == Restored(NoteRow(id, n')) && reply.db == DB(db.notes[id := n'], db.tombs))
  {
  }

  /** Trashing and restoring a live note gives it back with a later updated_at. */
  lemma TrashThenRestore(cfg: Config, db: DB, u: UserId, id: Id, t1: Time, t2: Time)
    requires Owns(db, u, id) && db.notes[id].trashedAt.None?
    ensures var trashed := Serve(cfg, db, TrashNote(u, id), t1).db; var reply := Serve(cfg, trashed, RestoreNote(u, id), t2);
            && CountLive(trashed, u) + 1 == CountLive(db, u)
            && reply.response == Restored(NoteRow(id, db.notes[id].(updatedAt := t2)))
            && reply.db == DB(db.notes[id := db.notes[id].(updatedAt := t2)], db.tombs)
  {
    TrashAnswer(cfg, db, u, id, t1);
    var trashed := Serve(cfg, db, TrashNote(u, id), t1).db;
    RestoreAnswer(cfg, trashed, u, id, t2);
    hide Serve;
    assert LiveIds(db, u) == LiveIds(trashed, u) + {id};
    assert db.notes[id := trashed.notes[id]][id := db.notes[id].(updatedAt := t2)] == db.notes[id := db.notes[id].(updatedAt := t2)];
  }

  /** The three answers to a purge, and what each leaves. */
  lemma PurgeAnswer(cfg: Config, db: DB, u: UserId, id: Id, now: Time)
    ensures var reply := Serve(cfg, db, PurgeNote(u, id), now);
            && (reply.response == NoteNotFound <==> !Owns(db, u, id))
            && (reply.response == TombstoneExists <==> Owns(db, u, id) && id in db.tombs)
            && (reply.response == Finished <==> Owns(db, u, id) && id !in db.tombs)
            && (reply.response != Finished ==> reply.db == db)
            && (reply.response == Finished ==>
                  && id !in reply.db.notes && FindByID(reply.db, u, id) == None
                  && id in reply.db.tombs && reply.db.tombs[id] == Tomb(u, now)
                  && (forall since: Time | since < now :: TombRow(id, Tomb(u, now)) in TombsSince(reply.db, u, Some(since))))
  {
  }

  /** An expiry removes exactly the tombstones older than its cut-off. */
  lemma ExpireAnswer(cfg: Config, db: DB, olderThan: Time, now: Time)
    ensures var reply := Serve(cfg, db, ExpireTombstones(olderThan), now);
            && reply.response == Finished && reply.db.notes == db.notes
            && (forall id :: id in reply.db.tombs <==> id in db.tombs && db.tombs[id].deletedAt >= olderThan)
            && (forall id | id in reply.db.tombs :: reply.db.tombs[id] == db.tombs[id])
  {
  }

  /** A look-up finds a note iff it is there and the user's. */
  lemma FindAnswer(db: DB, u: UserId, id: Id)
    ensures FindByID(db, u, id).Some? <==> id in db.notes && db.notes[id].user == u
    ensures FindByID(db, u, id).Some? ==> FindByID(db, u, id).value == NoteRow(id, db.notes[id])
  {
  }
}

/** The two tables of the note store as values, the row mutations of the repository as
    atomic steps, and runs of such steps. */
module NotesModel {
  import opened Wrappers

  type Id = nat
  type UserId = nat
  /** Instants; 0 is the zero time and is never stored. */
  type Time = nat
  newtype byte = x: int | 0 <= x < 256
  type Payload = seq<byte>

  datatype Note = Note(user: UserId, payload: Payload, createdAt: Time, updatedAt: Time, trashedAt: Option<Time>)

  datatype Tomb = Tomb(user: UserId, deletedAt: Time)

  /** Both tables have note_id alone as their primary key. */
  datatype DB = DB(notes: map<Id, Note>, tombs: map<Id, Tomb>)

  const EMPTY_DB: DB := DB(map[], map[])

  datatype Op =
    | Upsert(user: UserId, id: Id, payload: Payload)
    | Trash(user: UserId, id: Id)
    | Restore(user: UserId, id: Id)
    | Purge(user: UserId, id: Id)
    | Expire(olderThan: Time)

  datatype Outcome = Done | NotFound | DuplicateTombstone

  datatype Step = Step(db: DB, outcome: Outcome)

  predicate Owns(db: DB, u: UserId, id: Id) {
    id in db.notes && db.notes[id].user == u
  }

  function WithNote(db: DB, id: Id, note: Note): DB {
    db.(notes := db.notes[id := note])
  }

  /** INSERT ... ON CONFLICT (note_id) DO UPDATE ... WHERE notes.user_id = u. */
  function UpsertRow(db: DB, u: UserId, id: Id, payload: Payload, now: Time): Step {
    if id !in db.notes then
      Step(WithNote(db, id, Note(u, payload, now, now, None)), Done)
    else if db.notes[id].user == u then
      Step(WithNote(db, id, db.notes[id].(payload := payload, updatedAt := now)), Done)
    else
      Step(db, NotFound)
  }

  function SetTrashed(db: DB, u: UserId, id: Id, trashedAt: Option<Time>, now: Time): Step {
    if Owns(db, u, id) then
      Step(WithNote(db, id, db.notes[id].(trashedAt := trashedAt, updatedAt := now)), Done)
    else
      Step(db, NotFound)
  }

  /** One transaction: a tombstone that already exists rolls the deletion back. */
  function PurgeRow(db: DB, u: UserId, id: Id, now: Time): Step {
    if !Owns(db, u, id) then Step(db, NotFound)
    else if id in db.tombs then Step(db, DuplicateTombstone)
    else Step(DB(db.notes - {id}, db.tombs[id := Tomb(u, now)]), Done)
  }

  function Unexpired(tombs: map<Id, Tomb>, olderThan: Time): map<Id, Tomb> {
    map id | id in tombs && tombs[id].deletedAt >= olderThan :: tombs[id]
  }

  /** One repository call at time `now`. */
  function Apply(db: DB, op: Op, now: Time): Step {
    match op
    case Upsert(u, id, payload) => UpsertRow(db, u, id, payload, now)
    case Trash(u, id) => SetTrashed(db, u, id, Some(now), now)
    case Restore(u, id) => SetTrashed(db, u, id, None, now)
    case Purge(u, id) => PurgeRow(db, u, id, now)
    case Expire(olderThan) => Step(db.(tombs := Unexpired(db.tombs, olderThan)), Done)
  }

  // ---------- runs ----------

  datatype Stamped = Stamped(op: Op, now: Time)

  /** Commits happen in the order of one strictly increasing clock. */
  ghost predicate Ordered(clock: Time, ops: seq<Stamped>)
    decreases |ops|
  {
    ops != [] ==> ops[0].now > clock && Ordered(ops[0].now, ops[1..])
  }

  function EndClock(clock: Time, ops: seq<Stamped>): Time
    decreases |ops|
  {
    if ops == [] then clock else EndClock(ops[0].now, ops[1..])
  }

  function Run(db: DB, ops: seq<Stamped>): DB
    decreases |ops|
  {
    if ops == [] then db else Run(Apply(db, ops[0].op, ops[0].now).db, ops[1..])
  }

  // ---------- what every reachable store satisfies ----------

  ghost predicate NoteSane(n: Note, clock: Time) {
    && 0 < n.createdAt <= n.updatedAt <= clock
    && (n.trashedAt.Some? ==> 0 < n.trashedAt.value <= n.updatedAt)
  }

  /** A live or trashed note next to a tombstone for its id was created after the purge. */
  ghost predicate Inv(db: DB, clock: Time) {
    && (forall id | id in db.notes :: NoteSane(db.notes[id], clock))
    && (forall id | id in db.tombs :: 0 < db.tombs[id].deletedAt <= clock)
    && (forall id | id in db.notes && id in db.tombs :: db.notes[id].updatedAt > db.tombs[id].deletedAt)
  }

  lemma InvStep(db: DB, clock: Time, op: Op, now: Time)
    requires Inv(db, clock) && now > clock
    ensures Inv(Apply(db, op, now).db, now)
  {
  }

  /** A run from a sane store leaves one: the resurrection invariant. */
  lemma {:induction false} ReachableInv(db: DB, clock: Time, ops: seq<Stamped>)
    requires Inv(db, clock) && Ordered(clock, ops)
    ensures Inv(Run(db, ops), EndClock(clock, ops))
    decreases |ops|
  {
    if ops == [] {
    } else {
      InvStep(db, clock, ops[0].op, ops[0].now);
      ReachableInv(Apply(db, ops[0].op, ops[0].now).db, ops[0].now, ops[1..]);
    }
  }

  /** In particular every store that a run from the empty one leaves. */
  lemma FromEmpty(ops: seq<Stamped>)
    requires Ordered(0, ops)
    ensures Inv(Run(EMPTY_DB, ops), EndClock(0, ops))
  {
    ReachableInv(EMPTY_DB, 0, ops);
  }

  // ---------- a user's view ----------

  function UserNotes(db: DB, u: UserId): map<Id, Note> {
    map id | id in db.notes && db.notes[id].user == u :: db.notes[id]
  }

  function UserTombs(db: DB, u: UserId): map<Id, Tomb> {
    map id | id in db.tombs && db.tombs[id].user == u :: db.tombs[id]
  }

  function LiveIds(db: DB, u: UserId): set<Id> {
    set id | id in db.notes && db.notes[id].user == u && db.notes[id].trashedAt.None?
  }

  /** COUNT(*) WHERE user_id = u AND trashed_at IS NULL. */
  function CountLive(db: DB, u: UserId): nat {
    |LiveIds(db, u)|
  }
}

/** A client syncing while the store changes. Each page is two repository calls, notes and
    then tombstones, and any writes by any users may commit between any two calls. The
    client keeps a last-writer-wins replica. This module follows the notes: which of them
    have reached the replica at each point of a traversal, whatever happens to tombstones. */
module SyncRun {
  import opened Wrappers
  import opened Keyset
  import opened NotesModel
  import opened SyncModel
  import opened SyncPaging

  // ---------- the replica ----------

  datatype Entry = Live(note: Note) | Dead(at: Time)

  type Replica = map<Id, Entry>

  function At(e: Entry): Time {
    match e case Live(n) => n.updatedAt case Dead(t) => t
  }

  /** Last writer wins: an item replaces an older one for the same id. */
  function Deliver(r: Replica, id: Id, e: Entry): Replica {
    if id in r && At(r[id]) >= At(e) then r else r[id := e]
  }

  function DeliverNotes(r: Replica, rows: seq<NoteRow>): Replica
    decreases |rows|
  {
    if rows == [] then r else DeliverNotes(Deliver(r, rows[0].id, Live(rows[0].note)), rows[1..])
  }

  function DeliverTombs(r: Replica, rows: seq<TombRow>): Replica
    decreases |rows|
  {
    if rows == [] then r else DeliverTombs(Deliver(r, rows[0].id, Dead(rows[0].tomb.deletedAt)), rows[1..])
  }

  function LiveNotes(r: Replica): map<Id, Note> {
    map id | id in r && r[id].Live? :: r[id].note
  }

  // ---------- the system ----------

  datatype Phase =
    | Idle
    | Fetching(since: Option<Time>, cursor: Option<Key>)
    | HalfRead(since: Option<Time>, cursor: Option<Key>, limit: nat, notes: seq<NoteRow>, more: bool, readAt: Time)

  /** The last three record history. `basis` is up to which instant the client may ask for its
      next delta. Of the pages of the traversal under way, `missed` has the keys of the notes
      they overtook, and `skipped` those of the tombstones they skipped. */
  datatype World =
    World(db: DB, clock: Time, replica: Replica, phase: Phase, basis: Time, missed: set<Key>, skipped: set<Key>)

  datatype Event =
    | Tick(now: Time)
    | Write(op: Op, now: Time)
    | StartFull
    | StartDelta(since: Time)
    | ReadNotes(limit: nat)
    | ReadTombs
    | Lost

  function TombsRead(u: UserId, w: World): (seq<TombRow>, bool)
    requires w.phase.HalfRead?
  {
    TombsHalf(w.db, u, w.phase.since, w.phase.cursor, w.phase.limit)
  }

  function PageRead(u: UserId, w: World): SyncResult
    requires w.phase.HalfRead?
  {
    var (tombs, more) := TombsRead(u, w);
    SyncResult(w.phase.notes, tombs, w.phase.more || more)
  }

  /** The notes of the window committed since the page's note read, at or before its next
      cursor: no later page asks for them. */
  function OvertakenBy(u: UserId, w: World): set<Key>
    requires w.phase.HalfRead?
  {
    match NextCursor(PageRead(u, w))
    case None => {}
    case Some(next) => set k | k in NoteWindow(w.db, u, w.phase.since) && k.t > w.phase.readAt && Le(k, next)
  }

  /** The replica shows a version of the note from before instant t. */
  predicate Shows(r: Replica, id: Id, t: Time) {
    id in r && r[id].Live? && r[id].note.updatedAt < t
  }

  /** The tombstones after the end of a truncated list and up to the last note, of notes that
      the replica shows: no later page asks for them either. */
  function SkippedBy(u: UserId, w: World): set<Key>
    requires w.phase.HalfRead?
  {
    var (tombs, more) := TombsRead(u, w);
    var notes := w.phase.notes;
    if more && tombs != [] && notes != [] then
      set k | k in TombWindow(w.db, u, w.phase.since) && Shows(DeliverNotes(w.replica, notes), k.id, k.t)
              && Lt(TombKey(tombs[|tombs| - 1]), k) && Le(k, LastKey(notes))
    else {}
  }

  function LastKey(notes: seq<NoteRow>): Key
    requires notes != []
  {
    NoteKey(notes[|notes| - 1])
  }

  /** The last instant up to t before every one of the keys. */
  function Before(t: Time, ks: set<Key>): Time {
    if ks == {} then t
    else if Least(ks).t > t then t
    else if Least(ks).t == 0 then 0
    else Least(ks).t - 1
  }

  /** A full traversal may be followed by a delta from its first note read; a delta that skipped
      nothing by one from its last note read, or from before the first note it missed; and
      one that skipped a tombstone by another from the old basis. */
  function Next(u: UserId, w: World, e: Event): World {
    match e
    case Tick(now) => w.(clock := now)
    case Write(op, now) => w.(db := Apply(w.db, op, now).db, clock := now)
    case StartFull => w.(replica := map[], phase := Fetching(None, None), missed := {}, skipped := {})
    case StartDelta(since) => w.(phase := Fetching(Some(since), None), missed := {}, skipped := {})
    case ReadNotes(limit) =>
      if !w.phase.Fetching? then w else
        var (notes, more) := NotesHalf(w.db, u, w.phase.since, w.phase.cursor, limit);
        w.(phase := HalfRead(w.phase.since, w.phase.cursor, limit, notes, more, w.clock),
           basis := if w.phase.since.None? && w.phase.cursor.None? then w.clock else w.basis)
    case ReadTombs =>
      if !w.phase.HalfRead? then w else
        var page := PageRead(u, w);
        var next := NextCursor(page);
        w.(replica := DeliverTombs(DeliverNotes(w.replica, page.notes), page.tombs),
           phase := if next.None? then Idle else Fetching(w.phase.since, next),
           basis := if next.None? && w.phase.since.Some? && w.skipped == {} then Before(w.phase.readAt, w.missed) else w.basis,
           missed := w.missed + OvertakenBy(u, w),
           skipped := w.skipped + SkippedBy(u, w))
    case Lost =>
      if !w.phase.HalfRead? then w else w.(phase := Fetching(w.phase.since, w.phase.cursor))
  }

  function RunWorld(u: UserId, w: World, es: seq<Event>): World
    decreases |es|
  {
    if es == [] then w else RunWorld(u, Next(u, w, es[0]), es[1..])
  }

  /** The clock does not run backwards, each write takes a new instant, and pages have room
      for a row. Nothing is assumed of where deltas start, of expiry, or of what pages skip or
      overtake. */
  ghost predicate Ticks(w: World, e: Event) {
    && (e.Tick? ==> e.now >= w.clock)
    && (e.Write? ==> e.now > w.clock)
    && (e.ReadNotes? ==> e.limit >= 1)
  }

  ghost predicate TickingRun(u: UserId, w: World, es: seq<Event>)
    decreases |es|
  {
    es != [] ==> Ticks(w, es[0]) && TickingRun(u, Next(u, w, es[0]), es[1..])
  }

  // ---------- the invariant ----------

  predicate Has(r: Replica, id: Id, n: Note) {
    id in r && r[id] == Live(n)
  }

  predicate Outlives(r: Replica, id: Id, t: Time) {
    id in r && At(r[id]) >= t
  }

  /** Nothing in the replica is newer than the store. */
  ghost predicate Plausible(u: UserId, db: DB, clock: Time, r: Replica) {
    forall id | id in r ::
      && At(r[id]) <= clock
      && (Owns(db, u, id) ==> At(r[id]) < db.notes[id].updatedAt || r[id] == Live(db.notes[id]))
  }

  /** The rows of the traversal's window. */
  predicate InWindow(u: UserId, db: DB, since: Option<Time>, id: Id) {
    Owns(db, u, id) && (since.Some? ==> db.notes[id].updatedAt > since.value)
  }

  function RowKey(db: DB, id: Id): Key
    requires id in db.notes
  {
    Key(db.notes[id].updatedAt, id)
  }

  /** Of the rows of the window up to key c the replica has exactly those not missed, in
      their current version. */
  ghost predicate CoversKey(u: UserId, db: DB, r: Replica, since: Option<Time>, c: Key, missed: set<Key>) {
    forall id | InWindow(u, db, since, id) && Le(RowKey(db, id), c) :: Has(r, id, db.notes[id]) <==> RowKey(db, id) !in missed
  }

  /** The same of the rows read so far: those written up to instant t, up to the last note if
      the page was truncated. */
  ghost predicate CoversRead(u: UserId, db: DB, r: Replica, since: Option<Time>, notes: seq<NoteRow>, more: bool, t: Time, missed: set<Key>)
    requires more ==> notes != []
  {
    forall id | InWindow(u, db, since, id) && db.notes[id].updatedAt <= t && (more ==> Le(RowKey(db, id), LastKey(notes))) ::
      Has(r, id, db.notes[id]) <==> RowKey(db, id) !in missed
  }

  ghost predicate LiveBy(r: Replica, t: Time) {
    forall id | id in r && r[id].Live? :: r[id].note.updatedAt <= t
  }

  ghost predicate UpToCursor(ks: set<Key>, cursor: Option<Key>) {
    forall k | k in ks :: cursor.Some? && Le(k, cursor.value)
  }

  ghost predicate CursorCovers(u: UserId, w: World, since: Option<Time>, cursor: Option<Key>) {
    && UpToCursor(w.missed, cursor)
    && (since.None? ==> w.missed == {})
    && (cursor.Some? ==>
          0 < cursor.value.t <= w.clock && CoversKey(u, w.db, w.replica, since, cursor.value, w.missed))
  }

  ghost predicate NotesRead(u: UserId, w: World)
    requires w.phase.HalfRead?
  {
    var r := DeliverNotes(w.replica, w.phase.notes);
    && w.phase.limit >= 1
    && w.phase.readAt <= w.clock
    && (w.phase.cursor.Some? ==> w.phase.cursor.value.t <= w.phase.readAt)
    && (w.phase.more ==> w.phase.notes != [])
    && (w.phase.notes != [] ==>
          && 0 < LastKey(w.phase.notes).t <= w.phase.readAt
          && (w.phase.cursor.Some? ==> Lt(w.phase.cursor.value, LastKey(w.phase.notes))))
    && Plausible(u, w.db, w.clock, r) && LiveBy(r, w.phase.readAt)
    && CoversRead(u, w.db, r, w.phase.since, w.phase.notes, w.phase.more, w.phase.readAt, w.missed)
  }

  /** What every run keeps of the notes. */
  ghost predicate NoteInv(u: UserId, w: World) {
    && Inv(w.db, w.clock)
    && Plausible(u, w.db, w.clock, w.replica)
    && match w.phase
       case Idle => true
       case Fetching(since, cursor) => CursorCovers(u, w, since, cursor)
       case HalfRead(since, cursor, limit, notes, more, readAt) => CursorCovers(u, w, since, cursor) && NotesRead(u, w)
  }

  // ---------- deliveries ----------

  /** Delivering current rows leaves exactly those rows current and touches nothing else. */
  lemma {:induction false} NotesDelivered(r: Replica, rows: seq<NoteRow>, db: DB)
    requires Current(db, rows)
    requires forall row | row in rows && row.id in r ::
               At(r[row.id]) < row.note.updatedAt || r[row.id] == Live(row.note)
    ensures var s := DeliverNotes(r, rows);
            && (forall row | row in rows :: Has(s, row.id, row.note))
            && (forall id | id !in s :: id !in r)
            && (forall id | id in s :: (id in r && s[id] == r[id]) || (id in db.notes && s[id] == Live(db.notes[id])
                  && NoteRow(id, db.notes[id]) in rows))
    decreases |rows|
  {
    if rows == [] {
    } else {
      var row := rows[0];
      var r1 := Deliver(r, row.id, Live(row.note));
      assert rows == [row] + rows[1..];
      assert Has(r1, row.id, row.note);
      NotesDelivered(r1, rows[1..], db);
    }
  }

  ghost predicate CurrentTombs(db: DB, rows: seq<TombRow>) {
    forall t | t in rows :: t.id in db.tombs && db.tombs[t.id] == t.tomb
  }

  lemma {:induction false} TombsDelivered(r: Replica, rows: seq<TombRow>, db: DB)
    requires CurrentTombs(db, rows)
    ensures var s := DeliverTombs(r, rows);
            && (forall t | t in rows :: Outlives(s, t.id, t.tomb.deletedAt))
            && (forall id | id in r :: Outlives(s, id, At(r[id])))
            && (forall id | id in s :: (id in r && s[id] == r[id]) || (id in db.tombs && s[id] == Dead(db.tombs[id].deletedAt)
                  && (id in r ==> At(r[id]) < db.tombs[id].deletedAt)))
    decreases |rows|
  {
    if rows == [] {
    } else {
      var t := rows[0];
      var r1 := Deliver(r, t.id, Dead(t.tomb.deletedAt));
      assert rows == [t] + rows[1..];
      TombsDelivered(r1, rows[1..], db);
      forall id | id in r ensures Outlives(DeliverTombs(r, rows), id, At(r[id])) {
        assert id in r1 && At(r1[id]) >= At(r[id]);
      }
    }
  }

  lemma {:induction false} NotesOutlive(r: Replica, notes: seq<NoteRow>, id: Id, t: Time)
    requires Outlives(r, id, t)
    ensures Outlives(DeliverNotes(r, notes), id, t)
    decreases |notes|
  {
    if notes == [] {
    } else {
      NotesOutlive(Deliver(r, notes[0].id, Live(notes[0].note)), notes[1..], id, t);
    }
  }

  /** Current rows always fit, and what was current stays. */
  lemma NotesFit(u: UserId, db: DB, clock: Time, r: Replica, rows: seq<NoteRow>)
    requires Inv(db, clock) && Plausible(u, db, clock, r) && Current(db, rows)
    requires forall row | row in rows :: row.note.user == u
    ensures var s := DeliverNotes(r, rows);
            && Plausible(u, db, clock, s)
            && (forall row | row in rows :: Has(s, row.id, row.note))
            && (forall id | Owns(db, u, id) && Has(r, id, db.notes[id]) :: Has(s, id, db.notes[id]))
            && (forall id | id in r :: id in s)
            && (forall id | id in s ::
                  (id in r && s[id] == r[id]) || (Owns(db, u, id) && s[id] == Live(db.notes[id]) && NoteRow(id, db.notes[id]) in rows))
  {
    NotesDelivered(r, rows, db);
    var s := DeliverNotes(r, rows);
    forall id | id in s && !(id in r && s[id] == r[id]) ensures Owns(db, u, id) && s[id] == Live(db.notes[id]) && At(s[id]) <= clock {
      assert NoteRow(id, db.notes[id]) in rows && NoteSane(db.notes[id], clock);
    }
  }

  /** In a plausible replica an entry as recent as the row is the row. */
  lemma StaysCurrent(u: UserId, db: DB, clock: Time, r: Replica, id: Id)
    requires Plausible(u, db, clock, r)
    requires Owns(db, u, id) && Outlives(r, id, db.notes[id].updatedAt)
    ensures Has(r, id, db.notes[id])
  {
  }

  /** Current tombstones fit too, and a row that is current stays. */
  lemma TombsFit(u: UserId, db: DB, clock: Time, r: Replica, rows: seq<TombRow>)
    requires Inv(db, clock) && Plausible(u, db, clock, r) && CurrentTombs(db, rows)
    ensures var s := DeliverTombs(r, rows);
            && Plausible(u, db, clock, s)
            && (forall id | Owns(db, u, id) && Has(r, id, db.notes[id]) :: Has(s, id, db.notes[id]))
            && (forall id | id in s && s[id].Live? :: id in r && s[id] == r[id])
  {
    hide DeliverTombs;
    TombsDelivered(r, rows, db);
    var s := DeliverTombs(r, rows);
    forall id | Owns(db, u, id) && Has(r, id, db.notes[id]) ensures Has(s, id, db.notes[id]) {
      assert Outlives(s, id, At(r[id]));
    }
  }

  // ---------- a write keeps the invariant ----------

  /** A row of the user after a write is the row before it, or carries the new instant. */
  lemma RowAfterWrite(u: UserId, db: DB, op: Op, now: Time, id: Id)
    requires Owns(Apply(db, op, now).db, u, id)
    ensures var n := Apply(db, op, now).db.notes[id];
            n.updatedAt == now || (Owns(db, u, id) && db.notes[id] == n)
  {
  }

  /** A write moves a row's key strictly past every cursor already issued. */
  lemma WriteMovesPast(u: UserId, db: DB, clock: Time, op: Op, now: Time, id: Id, c: Key)
    requires c.t <= clock < now
    requires Owns(Apply(db, op, now).db, u, id)
    ensures var n := Apply(db, op, now).db.notes[id];
            Lt(c, Key(n.updatedAt, id)) || (Owns(db, u, id) && db.notes[id] == n)
  {
    RowAfterWrite(u, db, op, now, id);
  }

  lemma PlausibleWrite(u: UserId, db: DB, clock: Time, r: Replica, op: Op, now: Time)
    requires Plausible(u, db, clock, r) && now > clock
    ensures Plausible(u, Apply(db, op, now).db, now, r)
  {
    var db' := Apply(db, op, now).db;
    hide Apply;
    forall id | id in r && Owns(db', u, id) ensures At(r[id]) < db'.notes[id].updatedAt || r[id] == Live(db'.notes[id]) {
      RowAfterWrite(u, db, op, now, id);
    }
  }

  lemma CoversKeyWrite(u: UserId, db: DB, r: Replica, since: Option<Time>, c: Key, missed: set<Key>, op: Op, now: Time)
    requires CoversKey(u, db, r, since, c, missed) && c.t < now
    ensures CoversKey(u, Apply(db, op, now).db, r, since, c, missed)
  {
    var db' := Apply(db, op, now).db;
    hide Apply;
    forall id | InWindow(u, db', since, id) && Le(RowKey(db', id), c)
      ensures Has(r, id, db'.notes[id]) <==> RowKey(db', id) !in missed
    {
      RowAfterWrite(u, db, op, now, id);
      assert InWindow(u, db, since, id);
    }
  }

  lemma CoversReadWrite(u: UserId, w: World, op: Op, now: Time)
    requires w.phase.HalfRead? && NotesRead(u, w) && w.phase.readAt < now
    ensures CoversRead(u, Apply(w.db, op, now).db, DeliverNotes(w.replica, w.phase.notes), w.phase.since, w.phase.notes,
                       w.phase.more, w.phase.readAt, w.missed)
  {
    var db' := Apply(w.db, op, now).db;
    hide Apply, Plausible, DeliverNotes, LiveBy;
    forall id | InWindow(u, db', w.phase.since, id) && db'.notes[id].updatedAt <= w.phase.readAt
                && (w.phase.more ==> Le(RowKey(db', id), LastKey(w.phase.notes)))
      ensures Has(DeliverNotes(w.replica, w.phase.notes), id, db'.notes[id]) <==> RowKey(db', id) !in w.missed
    {
      RowAfterWrite(u, w.db, op, now, id);
      assert InWindow(u, w.db, w.phase.since, id);
    }
  }

  lemma WriteKeepsNotes(u: UserId, w: World, op: Op, now: Time)
    requires NoteInv(u, w) && now > w.clock
    ensures NoteInv(u, Next(u, w, Write(op, now)))
  {
    hide Apply, Inv, Plausible, CoversKey, CoversRead, DeliverNotes;
    InvStep(w.db, w.clock, op, now);
    PlausibleWrite(u, w.db, w.clock, w.replica, op, now);
    if !w.phase.Idle? && w.phase.cursor.Some? {
      CoversKeyWrite(u, w.db, w.replica, w.phase.since, w.phase.cursor.value, w.missed, op, now);
    }
    if w.phase.HalfRead? {
      PlausibleWrite(u, w.db, w.clock, DeliverNotes(w.replica, w.phase.notes), op, now);
      CoversReadWrite(u, w, op, now);
    }
  }

  lemma TickKeepsNotes(u: UserId, w: World, now: Time)
    requires NoteInv(u, w) && now >= w.clock
    ensures NoteInv(u, Next(u, w, Tick(now)))
  {
    hide CoversKey, CoversRead, DeliverNotes;
    assert forall id | id in w.db.notes :: NoteSane(w.db.notes[id], w.clock);
  }

  // ---------- the note read keeps the invariant ----------

  /** What the note half returns, row by row. */
  lemma NotesHalfRows(db: DB, u: UserId, since: Option<Time>, cursor: Option<Key>, limit: nat)
    requires PositiveTimes(db) && limit >= 1 && (cursor.Some? ==> cursor.value.t > 0)
    ensures var (rows, more) := NotesHalf(db, u, since, cursor, limit);
            && (more ==> rows != [])
            && Current(db, rows)
            && (forall r | r in rows :: r.note.user == u && (since.Some? ==> r.note.updatedAt > since.value)
                  && (cursor.Some? ==> Lt(cursor.value, NoteKey(r))))
            && (forall id | Owns(db, u, id) && (since.Some? ==> db.notes[id].updatedAt > since.value)
                  && (cursor.Some? ==> Lt(cursor.value, Key(db.notes[id].updatedAt, id)))
                  && (more ==> Le(Key(db.notes[id].updatedAt, id), LastKey(rows))) ::
                  NoteRow(id, db.notes[id]) in rows)
  {
    hide NotesHalf, NoteWindow, Page, OrderBy, NoteKeys;
    var (rows, more) := NotesHalf(db, u, since, cursor, limit);
    var w, c := NoteWindow(db, u, since), CursorKey(cursor);
    NotesHalfPage(db, u, since, cursor, limit);
    PageCut(w, c, limit);
    var ks := Page(w, c, limit);
    forall r | r in rows
      ensures r.id in db.notes && db.notes[r.id] == r.note && r.note.user == u
      ensures (since.Some? ==> r.note.updatedAt > since.value) && (cursor.Some? ==> Lt(cursor.value, NoteKey(r)))
    {
      var i :| 0 <= i < |rows| && rows[i] == r;
      assert ks[i] in ks;
      InNoteWindow(db, u, since, ks[i]);
    }
    if more { assert ks != []; LastNoteKey(rows); }
    forall id | Owns(db, u, id) && (since.Some? ==> db.notes[id].updatedAt > since.value)
                && (cursor.Some? ==> Lt(cursor.value, Key(db.notes[id].updatedAt, id)))
                && (more ==> Le(Key(db.notes[id].updatedAt, id), LastKey(rows)))
      ensures NoteRow(id, db.notes[id]) in rows
    {
      var k := Key(db.notes[id].updatedAt, id);
      InNoteWindow(db, u, since, k);
      assert k in After(w, c) && k in ks;
      var i :| 0 <= i < |ks| && ks[i] == k;
      assert rows[i] == NoteRow(id, db.notes[id]);
    }
  }

  lemma ReadNotesKeepsNotes(u: UserId, w: World, limit: nat)
    requires NoteInv(u, w) && limit >= 1
    ensures NoteInv(u, Next(u, w, ReadNotes(limit)))
  {
    if w.phase.Fetching? {
      NotesReadCovers(u, w, limit);
      hide NotesRead, NotesHalf, Inv, Plausible;
    }
  }

  lemma NotesReadCovers(u: UserId, w: World, limit: nat)
    requires NoteInv(u, w) && w.phase.Fetching? && limit >= 1
    ensures NotesRead(u, Next(u, w, ReadNotes(limit)))
  {
    hide NotesHalf, DeliverNotes;
    var since, cursor := w.phase.since, w.phase.cursor;
    var w' := Next(u, w, ReadNotes(limit));
    var (rows, more) := NotesHalf(w.db, u, since, cursor, limit);
    InvPositive(w.db, w.clock);
    NotesHalfRows(w.db, u, since, cursor, limit);
    if rows != [] {
      var last := rows[|rows| - 1];
      assert last in rows && NoteSane(w.db.notes[last.id], w.clock);
    }
    NotesFit(u, w.db, w.clock, w.replica, rows);
    var s := DeliverNotes(w.replica, rows);
    assert Plausible(u, w.db, w.clock, s);
    forall id | InWindow(u, w.db, since, id) && (more ==> Le(RowKey(w.db, id), LastKey(rows)))
      ensures Has(s, id, w.db.notes[id]) <==> RowKey(w.db, id) !in w.missed
    {
      if cursor.Some? && !Lt(cursor.value, RowKey(w.db, id)) {
        assert NoteRow(id, w.db.notes[id]) !in rows;
      } else {
        assert NoteRow(id, w.db.notes[id]) in rows;
      }
    }
  }

  // ---------- the tombstone read keeps the invariant ----------

  /** What the tombstone half of a delta returns, row by row. */
  lemma TombsHalfRows(db: DB, u: UserId, since: Time, cursor: Option<Key>, limit: nat)
    requires PositiveTimes(db) && limit >= 1 && (cursor.Some? ==> cursor.value.t > 0)
    ensures var (rows, more) := TombsHalf(db, u, Some(since), cursor, limit);
            && (more ==> rows != [])
            && CurrentTombs(db, rows)
            && (forall t | t in rows :: t.tomb.user == u && t.tomb.deletedAt > since
                  && (cursor.Some? ==> Lt(cursor.value, TombKey(t))))
            && (rows != [] ==> TombKey(rows[|rows| - 1]).t > 0)
            && (forall id | id in db.tombs && db.tombs[id].user == u && db.tombs[id].deletedAt > since
                  && (cursor.Some? ==> Lt(cursor.value, Key(db.tombs[id].deletedAt, id)))
                  && (more ==> Le(Key(db.tombs[id].deletedAt, id), TombKey(rows[|rows| - 1]))) ::
                  TombRow(id, db.tombs[id]) in rows)
  {
    hide TombsHalf, TombWindow, Page, OrderBy, TombKeys;
    var (rows, more) := TombsHalf(db, u, Some(since), cursor, limit);
    var w, c := TombWindow(db, u, Some(since)), CursorKey(cursor);
    TombsHalfPage(db, u, since, cursor, limit);
    PageCut(w, c, limit);
    var ks := Page(w, c, limit);
    LastTombKey(rows);
    forall t | t in rows
      ensures t.id in db.tombs && db.tombs[t.id] == t.tomb && t.tomb.user == u && t.tomb.deletedAt > since
      ensures cursor.Some? ==> Lt(cursor.value, TombKey(t))
    {
      var i :| 0 <= i < |rows| && rows[i] == t;
      assert ks[i] in ks;
      InTombWindow(db, u, Some(since), ks[i]);
    }
    assert rows != [] ==> rows[|rows| - 1] in rows;
    forall id | id in db.tombs && db.tombs[id].user == u && db.tombs[id].deletedAt > since
                && (cursor.Some? ==> Lt(cursor.value, Key(db.tombs[id].deletedAt, id)))
                && (more ==> Le(Key(db.tombs[id].deletedAt, id), TombKey(rows[|rows| - 1])))
      ensures TombRow(id, db.tombs[id]) in rows
    {
      var k := Key(db.tombs[id].deletedAt, id);
      InTombWindow(db, u, Some(since), k);
      assert k in After(w, c) && k in ks;
      var i :| 0 <= i < |ks| && ks[i] == k;
      assert rows[i] == TombRow(id, db.tombs[id]);
    }
  }

  lemma TombsReadCurrent(u: UserId, w: World)
    requires w.phase.HalfRead? && w.phase.limit >= 1 && PositiveTimes(w.db)
    requires w.phase.cursor.Some? ==> w.phase.cursor.value.t > 0
    ensures CurrentTombs(w.db, TombsRead(u, w).0)
  {
    if w.phase.since.Some? {
      TombsHalfRows(w.db, u, w.phase.since.value, w.phase.cursor, w.phase.limit);
    } else if w.phase.cursor.None? {
      OrderBySorts(TombWindow(w.db, u, None));
      var ks := OrderBy(TombWindow(w.db, u, None));
      forall t | t in AllTombs(w.db, u) ensures t.id in w.db.tombs && w.db.tombs[t.id] == t.tomb {
        var i :| 0 <= i < |ks| && AllTombs(w.db, u)[i] == t;
        assert ks[i] in ks;
      }
    }
  }

  lemma CursorCases(u: UserId, w: World)
    requires w.phase.HalfRead? && w.phase.limit >= 1 && PositiveTimes(w.db)
    requires w.phase.cursor.Some? ==> w.phase.cursor.value.t > 0
    requires w.phase.more ==> w.phase.notes != []
    ensures var (tombs, more) := TombsRead(u, w); var next := NextCursor(PageRead(u, w));
            && (more ==> tombs != [] && w.phase.since.Some?)
            && (next.None? <==> !w.phase.more && !more)
            && (next.Some? && w.phase.notes != [] ==> next.value == LastKey(w.phase.notes))
            && (next.Some? && w.phase.notes == [] ==> more && next.value == TombKey(tombs[|tombs| - 1]))
  {
    if w.phase.since.Some? {
      MoreTombs(w.db, u, w.phase.since.value, w.phase.cursor, w.phase.limit);
      hide TombsHalf;
    } else {
      hide AllTombs;
    }
  }

  lemma MoreTombs(db: DB, u: UserId, since: Time, cursor: Option<Key>, limit: nat)
    requires limit >= 1
    ensures var (tombs, more) := TombsHalf(db, u, Some(since), cursor, limit); more ==> tombs != []
  {
    hide TombsPage;
  }

  /** A page delivered: the replica stays plausible, keeps what was current, and has of the
      rows read so far exactly those not missed. */
  lemma PageDelivered(u: UserId, w: World)
    requires NoteInv(u, w) && w.phase.HalfRead?
    ensures var r := Next(u, w, ReadTombs).replica;
            && Plausible(u, w.db, w.clock, r) && LiveBy(r, w.phase.readAt)
            && (forall id | Owns(w.db, u, id) && Has(w.replica, id, w.db.notes[id]) :: Has(r, id, w.db.notes[id]))
            && CoversRead(u, w.db, r, w.phase.since, w.phase.notes, w.phase.more, w.phase.readAt, w.missed)
  {
    hide TombsRead, NextCursor, OvertakenBy, SkippedBy, Plausible, DeliverNotes, DeliverTombs, Inv;
    InvPositive(w.db, w.clock);
    TombsReadCurrent(u, w);
    var r1 := DeliverNotes(w.replica, w.phase.notes);
    TombsFit(u, w.db, w.clock, r1, TombsRead(u, w).0);
    forall id | Owns(w.db, u, id) && Has(w.replica, id, w.db.notes[id]) ensures Has(r1, id, w.db.notes[id]) {
      NotesOutlive(w.replica, w.phase.notes, id, w.db.notes[id].updatedAt);
      StaysCurrent(u, w.db, w.clock, r1, id);
    }
  }

  /** The next cursor lies beyond the old one. */
  lemma CursorForward(u: UserId, w: World)
    requires NoteInv(u, w) && w.phase.HalfRead?
    ensures var next := NextCursor(PageRead(u, w));
            next.Some? ==> 0 < next.value.t <= w.clock && (w.phase.cursor.Some? ==> Lt(w.phase.cursor.value, next.value))
  {
    hide TombsHalf, NextCursor, Plausible, CoversKey, CoversRead, DeliverNotes;
    InvPositive(w.db, w.clock);
    CursorCases(u, w);
    if w.phase.notes == [] && w.phase.since.Some? {
      TombsHalfRows(w.db, u, w.phase.since.value, w.phase.cursor, w.phase.limit);
      var tombs := TombsRead(u, w).0;
      assert tombs != [] ==> tombs[|tombs| - 1] in tombs;
    }
  }

  /** With a next cursor, the replica has exactly the rows up to it that are not missed by
      then. */
  lemma PageCovers(u: UserId, w: World)
    requires NoteInv(u, w) && w.phase.HalfRead?
    ensures var next := NextCursor(PageRead(u, w)); var w' := Next(u, w, ReadTombs);
            next.Some? ==>
              && UpToCursor(w'.missed, next)
              && CoversKey(u, w.db, w'.replica, w.phase.since, next.value, w'.missed)
  {
    hide TombsRead, NextCursor, Plausible, DeliverNotes, DeliverTombs, SkippedBy, Inv, NoteWindow;
    CursorForward(u, w);
    PageDelivered(u, w);
    assert NotesRead(u, w) && PositiveTimes(w.db) by { InvPositive(w.db, w.clock); }
    CursorCases(u, w);
    var next := NextCursor(PageRead(u, w));
    if next.Some? {
      var w' := Next(u, w, ReadTombs);
      forall id | InWindow(u, w.db, w.phase.since, id) && Le(RowKey(w.db, id), next.value)
        ensures Has(w'.replica, id, w.db.notes[id]) <==> RowKey(w.db, id) !in w'.missed
      {
        InNoteWindow(w.db, u, w.phase.since, RowKey(w.db, id));
      }
    }
  }

  /** Without one, it has exactly the rows of the window that were written by the note read
      and are not missed. */
  lemma LastPageCovers(u: UserId, w: World)
    requires NoteInv(u, w) && w.phase.HalfRead? && NextCursor(PageRead(u, w)).None?
    ensures var r := Next(u, w, ReadTombs).replica;
            forall id | InWindow(u, w.db, w.phase.since, id) ::
              Has(r, id, w.db.notes[id]) <==> w.db.notes[id].updatedAt <= w.phase.readAt && RowKey(w.db, id) !in w.missed
  {
    hide TombsRead, NextCursor, Plausible, DeliverNotes, DeliverTombs, SkippedBy, OvertakenBy, Inv, NoteWindow;
    PageDelivered(u, w);
    assert NotesRead(u, w) && PositiveTimes(w.db) by { InvPositive(w.db, w.clock); }
    CursorCases(u, w);
  }

  /** A cursor that comes from a note overtakes nothing; so a full traversal never does. */
  lemma NoteCursorOvertakesNothing(u: UserId, w: World)
    requires NoteInv(u, w) && w.phase.HalfRead? && (w.phase.since.None? || w.phase.notes != [])
    ensures OvertakenBy(u, w) == {}
  {
    hide TombsRead, NextCursor, Plausible, CoversKey, DeliverNotes;
    InvPositive(w.db, w.clock);
    CursorCases(u, w);
  }

  lemma ReadTombsKeepsNotes(u: UserId, w: World)
    requires NoteInv(u, w)
    ensures NoteInv(u, Next(u, w, ReadTombs))
  {
    hide Plausible, CoversKey, CoversRead, PageRead, OvertakenBy, SkippedBy, UpToCursor, Inv, DeliverNotes, DeliverTombs, NextCursor;
    if w.phase.HalfRead? {
      PageDelivered(u, w);
      CursorForward(u, w);
      PageCovers(u, w);
      if w.phase.since.None? { NoteCursorOvertakesNothing(u, w); }
    }
  }

  lemma StepKeepsNotes(u: UserId, w: World, e: Event)
    requires NoteInv(u, w) && Ticks(w, e)
    ensures NoteInv(u, Next(u, w, e))
  {
    hide Inv, Apply, NotesHalf, NotesRead, PageRead, OvertakenBy, SkippedBy, Plausible, CoversKey, DeliverNotes, DeliverTombs;
    match e
    case Tick(now) => TickKeepsNotes(u, w, now);
    case Write(op, now) => WriteKeepsNotes(u, w, op, now);
    case ReadNotes(limit) => ReadNotesKeepsNotes(u, w, limit);
    case ReadTombs => ReadTombsKeepsNotes(u, w);
    case StartFull => EmptyIsPlausible(u, w);
    case StartDelta(since) =>
    case Lost =>
  }

  lemma EmptyIsPlausible(u: UserId, w: World)
    ensures Plausible(u, w.db, w.clock, map[])
  {
  }

  lemma {:induction false} RunKeepsNotes(u: UserId, w: World, es: seq<Event>)
    requires NoteInv(u, w) && TickingRun(u, w, es)
    ensures NoteInv(u, RunWorld(u, w, es))
    decreases |es|
  {
    hide NoteInv, Ticks, Next;
    if es == [] {
    } else {
      StepKeepsNotes(u, w, es[0]);
      RunKeepsNotes(u, Next(u, w, es[0]), es[1..]);
    }
  }

  // ---------- traversals ----------

  /** The traversal invariant. Whatever is written between any two calls, wherever the delta
      started, whatever tombstones are skipped or expire: between two pages, of the current
      notes of the window up to the cursor the replica has exactly those that no page has
      missed, each in its current version. A full traversal misses none. */
  lemma TraversalInvariant(u: UserId, w0: World, es: seq<Event>)
    requires NoteInv(u, w0) && TickingRun(u, w0, es)
    requires RunWorld(u, w0, es).phase.Fetching? && RunWorld(u, w0, es).phase.cursor.Some?
    ensures var w := RunWorld(u, w0, es); var since, c := w.phase.since, w.phase.cursor.value;
            && c.t <= w.clock
            && (since.None? ==> w.missed == {})
            && (forall id | Owns(w.db, u, id) && (since.Some? ==> w.db.notes[id].updatedAt > since.value)
                            && Le(RowKey(w.db, id), c) ::
                  Has(w.replica, id, w.db.notes[id]) <==> RowKey(w.db, id) !in w.missed)
  {
    RunKeepsNotes(u, w0, es);
    var w := RunWorld(u, w0, es);
    hide Plausible, Inv;
    forall id | InWindow(u, w.db, w.phase.since, id) && Le(RowKey(w.db, id), w.phase.cursor.value)
      ensures Has(w.replica, id, w.db.notes[id]) <==> RowKey(w.db, id) !in w.missed
    {
    }
  }

  /** Its end: when there is no further page, of the current notes of the window the replica
      has exactly those written by the last note read that no page has missed. */
  lemma TraversalCompletes(u: UserId, w0: World, es: seq<Event>)
    requires NoteInv(u, w0) && TickingRun(u, w0, es)
    requires RunWorld(u, w0, es).phase.HalfRead? && Next(u, RunWorld(u, w0, es), ReadTombs).phase.Idle?
    ensures var w := RunWorld(u, w0, es); var end := Next(u, w, ReadTombs); var since := w.phase.since;
            && (since.None? ==> w.missed == {})
            && end.db == w.db
            && (forall id | Owns(end.db, u, id) && (since.Some? ==> end.db.notes[id].updatedAt > since.value) ::
                  Has(end.replica, id, end.db.notes[id]) <==>
                    end.db.notes[id].updatedAt <= w.phase.readAt && RowKey(end.db, id) !in w.missed)
  {
    hide PageRead, NextCursor, OvertakenBy, SkippedBy, DeliverNotes, DeliverTombs;
    RunKeepsNotes(u, w0, es);
    var w := RunWorld(u, w0, es);
    LastPageCovers(u, w);
    forall id | InWindow(u, w.db, w.phase.since, id)
      ensures Has(Next(u, w, ReadTombs).replica, id, w.db.notes[id]) <==>
              w.db.notes[id].updatedAt <= w.phase.readAt && RowKey(w.db, id) !in w.missed
    {
    }
  }
}

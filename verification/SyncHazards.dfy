/** Why a sync need not converge: what becomes of a note or a tombstone once it lies behind
    the client's cursor, and runs from the empty store in which that happens. */
module SyncHazards {
  import opened Wrappers
  import opened Keyset
  import opened Pagination
  import opened TombDelivery
  import opened NotesModel
  import opened SyncModel
  import opened SyncPaging
  import opened SyncRun
  import opened SyncConverge
  import opened StoreRuns

  predicate Behind(since: Option<Time>, cursor: Option<Key>, k: Key) {
    (since.Some? && k.t <= since.value) || (cursor.Some? && Le(k, cursor.value))
  }

  /** The replica misses the current version of the row, and the traversal under way will
      not ask for it again. */
  ghost predicate OutOfReach(u: UserId, w: World, id: Id) {
    && Owns(w.db, u, id)
    && !Has(w.replica, id, w.db.notes[id])
    && match w.phase
       case Idle => true
       case Fetching(since, cursor) => Behind(since, cursor, Key(w.db.notes[id].updatedAt, id))
       case HalfRead(since, cursor, limit, notes, more, readAt) =>
         && Behind(since, cursor, Key(w.db.notes[id].updatedAt, id))
         && NoteRow(id, w.db.notes[id]) !in notes
  }

  /** Events that neither start a traversal nor write the row. */
  predicate Leaves(e: Event, id: Id) {
    match e
    case Write(op, now) => op.Expire? || op.id != id
    case StartFull => false
    case StartDelta(since) => false
    case _ => true
  }

  /** Cursors only move forward. */
  ghost predicate CursorOk(w: World) {
    && PositiveTimes(w.db)
    && match w.phase
       case Idle => true
       case Fetching(since, cursor) => cursor.Some? ==> cursor.value.t > 0
       case HalfRead(since, cursor, limit, notes, more, readAt) =>
         && limit >= 1
         && (cursor.Some? ==> cursor.value.t > 0)
         && (more ==> notes != [])
         && (forall r | r in notes :: r.note.updatedAt > 0 && (cursor.Some? ==> Lt(cursor.value, NoteKey(r))))
  }

  /** An entry comes from the replica before or from the page. */
  lemma {:induction false} NotesOrigin(r: Replica, rows: seq<NoteRow>, id: Id, n: Note)
    requires Has(DeliverNotes(r, rows), id, n)
    ensures Has(r, id, n) || NoteRow(id, n) in rows
    decreases |rows|
  {
    if rows == [] {
    } else {
      NotesOrigin(Deliver(r, rows[0].id, Live(rows[0].note)), rows[1..], id, n);
    }
  }

  lemma {:induction false} TombsOrigin(r: Replica, rows: seq<TombRow>, id: Id, n: Note)
    requires Has(DeliverTombs(r, rows), id, n)
    ensures Has(r, id, n)
    decreases |rows|
  {
    if rows == [] {
    } else {
      TombsOrigin(Deliver(r, rows[0].id, Dead(rows[0].tomb.deletedAt)), rows[1..], id, n);
    }
  }

  lemma NextCursorForward(u: UserId, w: World)
    requires CursorOk(w) && w.phase.HalfRead?
    ensures var next := NextCursor(PageRead(u, w));
            next.Some? ==> next.value.t > 0 && (w.phase.cursor.Some? ==> Lt(w.phase.cursor.value, next.value))
  {
    hide TombsHalf;
    var (tombs, more) := TombsRead(u, w);
    CursorCases(u, w);
    if w.phase.notes != [] {
      assert w.phase.notes[|w.phase.notes| - 1] in w.phase.notes;
    } else if w.phase.since.Some? {
      TombsHalfRows(w.db, u, w.phase.since.value, w.phase.cursor, w.phase.limit);
      assert tombs != [] ==> tombs[|tombs| - 1] in tombs;
    }
  }

  lemma StaysStep(u: UserId, w: World, e: Event, id: Id)
    requires OutOfReach(u, w, id) && CursorOk(w) && Leaves(e, id)
    requires e.Write? ==> e.now > 0
    requires e.ReadNotes? ==> e.limit >= 1
    ensures OutOfReach(u, Next(u, w, e), id) && CursorOk(Next(u, w, e))
    ensures Next(u, w, e).db.notes[id] == w.db.notes[id]
  {
    match e {
      case Tick(now) =>
      case Write(op, now) =>
      case ReadNotes(limit) =>
        if w.phase.Fetching? {
          NotesHalfRows(w.db, u, w.phase.since, w.phase.cursor, limit);
        }
      case ReadTombs =>
        if w.phase.HalfRead? {
          ReadTombsStays(u, w, id);
        }
      case Lost =>
    }
  }

  lemma ReadTombsStays(u: UserId, w: World, id: Id)
    requires OutOfReach(u, w, id) && CursorOk(w) && w.phase.HalfRead?
    ensures OutOfReach(u, Next(u, w, ReadTombs), id) && CursorOk(Next(u, w, ReadTombs))
  {
    hide PositiveTimes, TombsRead, NextCursor;
    NextCursorForward(u, w);
    var n := w.db.notes[id];
    var page := PageRead(u, w);
    var r := DeliverTombs(DeliverNotes(w.replica, page.notes), page.tombs);
    if Has(r, id, n) {
      TombsOrigin(DeliverNotes(w.replica, page.notes), page.tombs, id, n);
      NotesOrigin(w.replica, page.notes, id, n);
    }
  }

  /** Once behind the cursor, a note stays missing through the rest of the traversal and
      after it, whatever the limits and whatever else is written, until it is written
      again or a new traversal starts. */
  lemma {:induction false} OutOfReachStays(u: UserId, w: World, es: seq<Event>, id: Id)
    requires OutOfReach(u, w, id) && CursorOk(w)
    requires forall e | e in es :: Leaves(e, id) && (e.Write? ==> e.now > 0) && (e.ReadNotes? ==> e.limit >= 1)
    ensures OutOfReach(u, RunWorld(u, w, es), id)
    ensures RunWorld(u, w, es).db.notes[id] == w.db.notes[id]
    decreases |es|
  {
    if es == [] {
    } else {
      hide Next, OutOfReach, CursorOk;
      assert es[0] in es;
      StaysStep(u, w, es[0], id);
      OutOfReachStays(u, Next(u, w, es[0]), es[1..], id);
    }
  }

  /** server_time is read after the queries. A delta that starts from an instant later
      than the basis loses every note committed in between. */
  lemma LateSinceLoses(u: UserId, w: World, since: Time, id: Id, es: seq<Event>)
    requires WorldInv(u, w) && w.phase.Idle?
    requires Owns(w.db, u, id) && !Has(w.replica, id, w.db.notes[id]) && w.db.notes[id].updatedAt <= since
    requires forall e | e in es :: Leaves(e, id) && (e.Write? ==> e.now > 0) && (e.ReadNotes? ==> e.limit >= 1)
    ensures !Has(RunWorld(u, Next(u, w, StartDelta(since)), es).replica, id, w.db.notes[id])
  {
    InvPositive(w.db, w.clock);
    OutOfReachStays(u, Next(u, w, StartDelta(since)), es, id);
  }

  /** A note committed between the two reads of a page, at or before a cursor that the page
      takes from a tombstone, is lost to this traversal. */
  lemma OvertakenLost(u: UserId, w: World, id: Id, es: seq<Event>)
    requires WorldInv(u, w) && w.phase.HalfRead? && CursorOk(w)
    requires Owns(w.db, u, id) && !Has(w.replica, id, w.db.notes[id])
    requires NoteRow(id, w.db.notes[id]) !in w.phase.notes
    requires var next := NextCursor(PageRead(u, w));
             next.Some? && Le(Key(w.db.notes[id].updatedAt, id), next.value)
    requires forall e | e in es :: Leaves(e, id) && (e.Write? ==> e.now > 0) && (e.ReadNotes? ==> e.limit >= 1)
    ensures !Has(RunWorld(u, Next(u, w, ReadTombs), es).replica, id, w.db.notes[id])
  {
    hide PositiveTimes, TombsRead, NextCursor;
    var n := w.db.notes[id];
    var page := PageRead(u, w);
    NextCursorForward(u, w);
    var r := DeliverTombs(DeliverNotes(w.replica, page.notes), page.tombs);
    if Has(r, id, n) {
      TombsOrigin(DeliverNotes(w.replica, page.notes), page.tombs, id, n);
      NotesOrigin(w.replica, page.notes, id, n);
    }
    OutOfReachStays(u, Next(u, w, ReadTombs), es, id);
  }

  // ---------- a skipped tombstone ----------

  /** The replica shows a note the store has purged, and the traversal under way will not
      ask for its tombstone again. */
  ghost predicate Undead(u: UserId, w: World, id: Id) {
    && id in w.replica && w.replica[id].Live?
    && !Owns(w.db, u, id)
    && match w.phase
       case Idle => true
       case Fetching(since, cursor) => since.Some? && TombBehind(u, w.db, since, cursor, id)
       case HalfRead(since, cursor, limit, notes, more, readAt) =>
         && since.Some? && TombBehind(u, w.db, since, cursor, id)
         && forall r | r in notes :: r.id != id
  }

  ghost predicate TombBehind(u: UserId, db: DB, since: Option<Time>, cursor: Option<Key>, id: Id) {
    id in db.tombs && db.tombs[id].user == u ==> Behind(since, cursor, Key(db.tombs[id].deletedAt, id))
  }

  lemma {:induction false} NotesElsewhere(r: Replica, rows: seq<NoteRow>, id: Id)
    requires id in r && forall row | row in rows :: row.id != id
    ensures id in DeliverNotes(r, rows) && DeliverNotes(r, rows)[id] == r[id]
    decreases |rows|
  {
    if rows == [] {
    } else {
      assert rows[0] in rows;
      NotesElsewhere(Deliver(r, rows[0].id, Live(rows[0].note)), rows[1..], id);
    }
  }

  lemma UndeadStep(u: UserId, w: World, e: Event, id: Id)
    requires Undead(u, w, id) && CursorOk(w) && Leaves(e, id)
    requires e.Write? ==> e.now > 0
    requires e.ReadNotes? ==> e.limit >= 1
    ensures Undead(u, Next(u, w, e), id) && CursorOk(Next(u, w, e))
  {
    match e {
      case Tick(now) =>
      case Write(op, now) =>
      case ReadNotes(limit) =>
        if w.phase.Fetching? {
          hide NotesHalf;
          NotesHalfRows(w.db, u, w.phase.since, w.phase.cursor, limit);
        }
      case ReadTombs =>
        if w.phase.HalfRead? { UndeadReadTombs(u, w, id); }
      case Lost =>
    }
  }

  lemma UndeadReadTombs(u: UserId, w: World, id: Id)
    requires Undead(u, w, id) && CursorOk(w) && w.phase.HalfRead?
    ensures Undead(u, Next(u, w, ReadTombs), id) && CursorOk(Next(u, w, ReadTombs))
  {
    hide TombsHalf, NextCursor;
    NextCursorForward(u, w);
    var tombs := TombsRead(u, w).0;
    TombsHalfRows(w.db, u, w.phase.since.value, w.phase.cursor, w.phase.limit);
    assert forall t | t in tombs :: t.id != id;
    NotesElsewhere(w.replica, w.phase.notes, id);
    TombsElsewhere(DeliverNotes(w.replica, w.phase.notes), tombs, id);
  }

  lemma {:induction false} UndeadStays(u: UserId, w: World, es: seq<Event>, id: Id)
    requires Undead(u, w, id) && CursorOk(w)
    requires forall e | e in es :: Leaves(e, id) && (e.Write? ==> e.now > 0) && (e.ReadNotes? ==> e.limit >= 1)
    ensures Undead(u, RunWorld(u, w, es), id)
    decreases |es|
  {
    hide Next, Undead, CursorOk;
    if es == [] {
    } else {
      assert es[0] in es;
      UndeadStep(u, w, es[0], id);
      UndeadStays(u, Next(u, w, es[0]), es[1..], id);
    }
  }

  /** A delta page that skips the tombstone of a note the client still shows leaves it
      shown to the end of the traversal and after it, although the store has purged it. */
  lemma SkippedStaysShown(u: UserId, w: World, id: Id, es: seq<Event>)
    requires CursorOk(w) && w.phase.HalfRead? && w.phase.since.Some?
    requires id in w.replica && w.replica[id].Live? && !Owns(w.db, u, id)
    requires forall r | r in w.phase.notes :: r.id != id
    requires id in w.db.tombs && w.db.tombs[id].user == u
    requires var (tombs, more) := TombsRead(u, w); var k := Key(w.db.tombs[id].deletedAt, id); var notes := w.phase.notes;
             more && notes != [] && tombs != [] && Lt(TombKey(tombs[|tombs| - 1]), k) && Le(k, NoteKey(notes[|notes| - 1]))
    requires forall e | e in es :: Leaves(e, id) && (e.Write? ==> e.now > 0) && (e.ReadNotes? ==> e.limit >= 1)
    ensures var end := RunWorld(u, Next(u, w, ReadTombs), es);
            id in LiveNotes(end.replica) && id !in UserNotes(end.db, u)
  {
    SkipMakesUndead(u, w, id);
    UndeadStays(u, Next(u, w, ReadTombs), es, id);
  }

  lemma SkipMakesUndead(u: UserId, w: World, id: Id)
    requires CursorOk(w) && w.phase.HalfRead? && w.phase.since.Some?
    requires id in w.replica && w.replica[id].Live? && !Owns(w.db, u, id)
    requires forall r | r in w.phase.notes :: r.id != id
    requires id in w.db.tombs && w.db.tombs[id].user == u
    requires var (tombs, more) := TombsRead(u, w); var k := Key(w.db.tombs[id].deletedAt, id); var notes := w.phase.notes;
             more && notes != [] && tombs != [] && Lt(TombKey(tombs[|tombs| - 1]), k) && Le(k, NoteKey(notes[|notes| - 1]))
    ensures Undead(u, Next(u, w, ReadTombs), id) && CursorOk(Next(u, w, ReadTombs))
  {
    hide TombsHalf, NextCursor;
    NextCursorForward(u, w);
    CursorCases(u, w);
    var tombs := TombsRead(u, w).0;
    TombsHalfRows(w.db, u, w.phase.since.value, w.phase.cursor, w.phase.limit);
    NotPastLast(w.db, u, w.phase.since.value, w.phase.cursor, w.phase.limit, id);
    NotesElsewhere(w.replica, w.phase.notes, id);
    TombsElsewhere(DeliverNotes(w.replica, w.phase.notes), tombs, id);
  }

  /** A tombstone after the last one returned is not returned. */
  lemma NotPastLast(db: DB, u: UserId, since: Time, cursor: Option<Key>, limit: nat, id: Id)
    requires id in db.tombs && PositiveTimes(db) && limit >= 1 && (cursor.Some? ==> cursor.value.t > 0)
    requires var tombs := TombsHalf(db, u, Some(since), cursor, limit).0;
             tombs != [] && Lt(TombKey(tombs[|tombs| - 1]), Key(db.tombs[id].deletedAt, id))
    ensures forall t | t in TombsHalf(db, u, Some(since), cursor, limit).0 :: t.id != id
  {
    hide TombsHalf;
    TombsHalfRows(db, u, since, cursor, limit);
    UpToLast(db, u, since, cursor, limit, TombRow(id, db.tombs[id]));
  }

  // ---------- a run in which it happens ----------

  function Old(t: Time): Note { Note(0, [], t, t, None) }

  /** User 0 creates notes 1 and 2 and then syncs for the first time. */
  function FirstFull(): seq<Event> {
    [Write(Upsert(0, 1, []), 1), Write(Upsert(0, 2, []), 2), StartFull, ReadNotes(2), ReadTombs]
  }

  /** That leaves the user in sync up to instant 2. */
  function InSync(): World {
    World(DB(map[1 := Old(1), 2 := Old(2)], map[]), 2, map[1 := Live(Old(1)), 2 := Live(Old(2))], Idle, 2, {}, {})
  }

  lemma InSyncReached()
    ensures AllowedRun(0, Fresh(EMPTY_DB, 0), FirstFull())
    ensures RunWorld(0, Fresh(EMPTY_DB, 0), FirstFull()) == InSync()
  {
    hide NotesHalf, TombsRead, NextCursor, OvertakenBy, SkippedBy, AllTombs, DeliverNotes, DeliverTombs;
    var e1, e2 := Write(Upsert(0, 1, []), 1), Write(Upsert(0, 2, []), 2);
    var w0 := Fresh(EMPTY_DB, 0);
    var w1 := Next(0, w0, e1);
    var w2 := Next(0, w1, e2);
    assert w2.db == InSync().db;
    var w3 := Next(0, w2, StartFull);
    BothNotes(w3);
    var w4 := Next(0, w3, ReadNotes(2));
    LastOfFull(w4);
    hide Next;
    RunNothing(0, InSync());
    RunStep(0, w4, ReadTombs, []);
    RunStep(0, w3, ReadNotes(2), [ReadTombs] + []);
    RunStep(0, w2, StartFull, [ReadNotes(2)] + ([ReadTombs] + []));
    RunStep(0, w1, e2, [StartFull] + ([ReadNotes(2)] + ([ReadTombs] + [])));
    RunStep(0, w0, e1, [e2] + ([StartFull] + ([ReadNotes(2)] + ([ReadTombs] + []))));
    assert FirstFull() == [e1] + ([e2] + ([StartFull] + ([ReadNotes(2)] + ([ReadTombs] + []))));
  }

  lemma BothNotes(w: World)
    requires w.db == InSync().db && w.phase == Fetching(None, None)
    ensures var (rows, more) := NotesHalf(w.db, 0, None, None, 2);
            !more && DeliverNotes(map[], rows) == InSync().replica
  {
    hide NotesHalf, DeliverNotes, NoteWindow, After, NoteKeys, NoteRows, Page;
    var (rows, more) := NotesHalf(w.db, 0, None, None, 2);
    NotesHalfRows(w.db, 0, None, None, 2);
    BothKeys(w.db);
    NotesHalfPage(w.db, 0, None, None, 2);
    NotesDelivered(map[], rows, w.db);
    assert !more && Owns(w.db, 0, 1) && Owns(w.db, 0, 2);
    assert NoteRow(1, Old(1)) in rows && NoteRow(2, Old(2)) in rows;
    var s := DeliverNotes(map[], rows);
    assert s.Keys == {1, 2};
  }

  lemma BothKeys(db: DB)
    requires db == InSync().db
    ensures |After(NoteWindow(db, 0, None), Key(0, 0))| == 2
  {
    var N := NoteWindow(db, 0, None);
    forall k ensures k in N <==> k in {Key(1, 1), Key(2, 2)} { InNoteWindow(db, 0, None, k); }
    assert N == {Key(1, 1), Key(2, 2)};
    assert After(N, Key(0, 0)) == N;
  }

  lemma LastOfFull(w: World)
    requires w.db == InSync().db && w.clock == 2 && w.basis == 2 && w.replica == map[] && w.missed == {} && w.skipped == {}
    requires w.phase.HalfRead? && w.phase.since.None? && w.phase.cursor.None? && !w.phase.more
    requires DeliverNotes(map[], w.phase.notes) == InSync().replica
    ensures Next(0, w, ReadTombs) == InSync()
  {
    hide DeliverNotes, OrderBy;
    assert |OrderBy(TombWindow(w.db, 0, None))| == 0 by { assert TombWindow(w.db, 0, None) == {}; }
    assert TombsRead(0, w) == ([], false);
  }

  /** The note read finds nothing; then note 9 is created and notes 1 and 2 are purged. */
  function Race(): seq<Event> {
    [StartDelta(2), ReadNotes(1), Write(Upsert(0, 9, []), 5), Write(Purge(0, 1), 6), Write(Purge(0, 2), 7)]
  }

  lemma NothingNew(u: UserId, w: World, limit: nat)
    requires w.phase.Fetching? && w.phase.cursor.None? && limit >= 1
    requires PositiveTimes(w.db)
    requires forall id | Owns(w.db, u, id) :: w.phase.since.Some? && w.db.notes[id].updatedAt <= w.phase.since.value
    ensures NotesHalf(w.db, u, w.phase.since, None, limit) == ([], false)
  {
    hide NotesHalf;
    var rows := NotesHalf(w.db, u, w.phase.since, None, limit).0;
    assert rows != [] ==> rows[0] in rows;
    NotesHalfRows(w.db, u, w.phase.since, None, limit);
  }

  /** After the race every step was allowed, the tombstone read skips nothing, and yet it
      leaves note 9 behind the cursor. */
  lemma OvertakingHappens()
    ensures AllowedRun(0, Fresh(EMPTY_DB, 0), FirstFull())
    ensures var w0 := RunWorld(0, Fresh(EMPTY_DB, 0), FirstFull()); var w := RunWorld(0, w0, Race());
            && AllowedRun(0, w0, Race())
            && w.phase.HalfRead? && SkippedBy(0, w) == {} && Key(5, 9) in OvertakenBy(0, w)
            && Owns(w.db, 0, 9) && OutOfReach(0, Next(0, w, ReadTombs), 9)
  {
    InSyncReached();
    var w := RaceRun();
    RaceTombs(w);
  }

  lemma RaceRun() returns (w: World)
    ensures AllowedRun(0, InSync(), Race()) && RunWorld(0, InSync(), Race()) == w
    ensures w.db == DB(map[9 := Note(0, [], 5, 5, None)], map[1 := Tomb(0, 6), 2 := Tomb(0, 7)])
    ensures w.phase == HalfRead(Some(2), None, 1, [], false, 2) && w.replica == InSync().replica
  {
    hide TombsHalf, NotesHalf, OvertakenBy, SkippedBy, NextCursor, AllowedRun, RunWorld, PageRead;
    var e3, e4, e5 := Write(Upsert(0, 9, []), 5), Write(Purge(0, 1), 6), Write(Purge(0, 2), 7);
    var w1 := Next(0, InSync(), StartDelta(2));
    NothingNew(0, w1, 1);
    var w2 := Next(0, w1, ReadNotes(1));
    var w3 := Next(0, w2, e3);
    var w4 := Next(0, w3, e4);
    w := Next(0, w4, e5);
    assert w.db == DB(map[9 := Note(0, [], 5, 5, None)], map[1 := Tomb(0, 6), 2 := Tomb(0, 7)]);
    RunNothing(0, w);
    hide Next;
    RunStep(0, w4, e5, []);
    RunStep(0, w3, e4, [e5] + []);
    RunStep(0, w2, e3, [e4] + ([e5] + []));
    RunStep(0, w1, ReadNotes(1), [e3] + ([e4] + ([e5] + [])));
    RunStep(0, InSync(), StartDelta(2), [ReadNotes(1)] + ([e3] + ([e4] + ([e5] + []))));
    assert Race() == [StartDelta(2)] + ([ReadNotes(1)] + ([e3] + ([e4] + ([e5] + []))));
  }

  lemma RunNothing(u: UserId, w: World)
    ensures RunWorld(u, w, []) == w && AllowedRun(u, w, []) && TickingRun(u, w, [])
  {
  }

  lemma RaceTombs(w: World)
    requires w.db == DB(map[9 := Note(0, [], 5, 5, None)], map[1 := Tomb(0, 6), 2 := Tomb(0, 7)])
    requires w.phase == HalfRead(Some(2), None, 1, [], false, 2)
    requires w.replica == map[1 := Live(Old(1)), 2 := Live(Old(2))]
    ensures SkippedBy(0, w) == {} && Key(5, 9) in OvertakenBy(0, w) && OutOfReach(0, Next(0, w, ReadTombs), 9)
  {
    hide TombsHalf, TombWindow, NotesHalf, NoteWindow;
    RacePage(w);
    CursorCases(0, w);
    InNoteWindow(w.db, 0, Some(2), Key(5, 9));
    RaceReplica(w, TombsRead(0, w).0);
  }

  lemma RacePage(w: World)
    requires w.db == DB(map[9 := Note(0, [], 5, 5, None)], map[1 := Tomb(0, 6), 2 := Tomb(0, 7)])
    requires w.phase == HalfRead(Some(2), None, 1, [], false, 2)
    ensures var (tombs, more) := TombsRead(0, w); more && |tombs| == 1 && TombKey(tombs[0]).t >= 6
  {
    hide TombsHalf, TombWindow, After;
    RaceWindow(w.db);
    TombsHalfPage(w.db, 0, 2, None, 1);
    TombsHalfRows(w.db, 0, 2, None, 1);
    var tombs := TombsRead(0, w).0;
    assert tombs[0] in tombs;
  }

  lemma RaceWindow(db: DB)
    requires db.tombs == map[1 := Tomb(0, 6), 2 := Tomb(0, 7)]
    ensures |After(TombWindow(db, 0, Some(2)), Key(0, 0))| == 2
  {
    var T := TombWindow(db, 0, Some(2));
    forall k ensures k in T <==> k in {Key(6, 1), Key(7, 2)} { InTombWindow(db, 0, Some(2), k); }
    assert T == {Key(6, 1), Key(7, 2)};
    assert After(T, Key(0, 0)) == T;
  }

  lemma RaceReplica(w: World, tombs: seq<TombRow>)
    requires w.replica == map[1 := Live(Old(1)), 2 := Live(Old(2))]
    ensures !Has(DeliverTombs(DeliverNotes(w.replica, []), tombs), 9, Note(0, [], 5, 5, None))
  {
    if Has(DeliverTombs(DeliverNotes(w.replica, []), tombs), 9, Note(0, [], 5, 5, None)) {
      TombsOrigin(DeliverNotes(w.replica, []), tombs, 9, Note(0, [], 5, 5, None));
    }
  }

  // ---------- a run in which server_time is too late ----------

  /** A page with no rows ends the traversal and changes nothing in the replica. */
  lemma EmptyPage(u: UserId, w: World)
    requires w.phase.HalfRead? && w.phase.cursor.None? && w.phase.limit >= 1
    requires w.phase.notes == [] && !w.phase.more
    requires w.db.tombs == map[]
    ensures var w' := Next(u, w, ReadTombs);
            && w'.phase == Idle && w'.replica == w.replica && w'.db == w.db && w'.clock == w.clock
  {
    hide OrderBy, Page, After, OvertakenBy, SkippedBy;
    assert TombWindow(w.db, u, w.phase.since) == {};
    if w.phase.since.Some? {
      TombsHalfPage(w.db, u, w.phase.since.value, None, w.phase.limit);
      assert After({}, Key(0, 0)) == {} by { NothingAfter(); }
    } else {
      assert |OrderBy(TombWindow(w.db, u, None))| == 0;
    }
    assert TombsRead(u, w) == ([], false);
  }

  lemma NothingAfter()
    ensures After({}, Key(0, 0)) == {}
  {
  }

  /** server_time: an instant read after both queries of the page. */
  predicate IsServerTime(w: World, st: Time) {
    st >= w.clock
  }

  /** User 0 syncs an empty store for the first time, and note 9 is created between the two
      queries of the only page. */
  function FirstSync(): seq<Event> {
    [StartFull, ReadNotes(1), Write(Upsert(0, 9, []), 5), ReadTombs]
  }

  function DeltaFrom(st: Time): seq<Event> {
    [Tick(st), StartDelta(st), ReadNotes(1), ReadTombs]
  }

  /** Every step of the first sync is allowed and it ends with a correct basis; yet a delta
      from its server_time runs to its end and still lacks note 9, for good. A delta from
      the basis is allowed, which by NextDeltaRecovers has the note. */
  lemma ServerTimeLoses(st: Time)
    requires IsServerTime(RunWorld(0, Fresh(EMPTY_DB, 0), FirstSync()), st)
    ensures AllowedRun(0, Fresh(EMPTY_DB, 0), FirstSync())
    ensures var w := RunWorld(0, Fresh(EMPTY_DB, 0), FirstSync()); var end := RunWorld(0, w, DeltaFrom(st));
            && w.phase.Idle? && w.basis < 5 <= st && Allowed(0, w, StartDelta(w.basis)) && TickingRun(0, w, DeltaFrom(st))
            && end.phase.Idle? && OutOfReach(0, end, 9) && LiveNotes(end.replica) != UserNotes(end.db, 0)
  {
    var w := FirstSynced();
    var end := LateDelta(w, st);
    assert end.replica == map[] && Owns(end.db, 0, 9);
    assert 9 in UserNotes(end.db, 0) && 9 !in LiveNotes(end.replica);
  }

  lemma FirstSynced() returns (w: World)
    ensures AllowedRun(0, Fresh(EMPTY_DB, 0), FirstSync())
    ensures w == RunWorld(0, Fresh(EMPTY_DB, 0), FirstSync())
    ensures w.phase == Idle && w.replica == map[] && w.basis == 0 && w.clock == 5
    ensures w.db == DB(map[9 := Note(0, [], 5, 5, None)], map[])
  {
    hide NotesHalf, TombsRead, NextCursor, OvertakenBy, SkippedBy, AllTombs, Before;
    var w0 := Fresh(EMPTY_DB, 0);
    var w1 := Next(0, w0, StartFull);
    NothingNew(0, w1, 1);
    var w2 := Next(0, w1, ReadNotes(1));
    var w3 := Next(0, w2, Write(Upsert(0, 9, []), 5));
    assert w3.db == DB(map[9 := Note(0, [], 5, 5, None)], map[]);
    w := Next(0, w3, ReadTombs);
    EmptyPage(0, w3);
    hide Next;
    var e3 := Write(Upsert(0, 9, []), 5);
    RunNothing(0, w);
    RunStep(0, w3, ReadTombs, []);
    RunStep(0, w2, e3, [ReadTombs] + []);
    RunStep(0, w1, ReadNotes(1), [e3] + ([ReadTombs] + []));
    RunStep(0, w0, StartFull, [ReadNotes(1)] + ([e3] + ([ReadTombs] + [])));
    assert FirstSync() == [StartFull] + ([ReadNotes(1)] + ([e3] + ([ReadTombs] + [])));
  }

  lemma LateDelta(w: World, st: Time) returns (end: World)
    requires w.phase == Idle && w.replica == map[] && w.clock == 5 <= st
    requires w.db == DB(map[9 := Note(0, [], 5, 5, None)], map[])
    ensures TickingRun(0, w, DeltaFrom(st)) && end == RunWorld(0, w, DeltaFrom(st))
    ensures end.phase == Idle && end.replica == map[] && end.db == w.db
  {
    hide NotesHalf, TombsRead, NextCursor, OvertakenBy, SkippedBy, Before;
    var w0 := Next(0, w, Tick(st));
    var w1 := Next(0, w0, StartDelta(st));
    NothingNew(0, w1, 1);
    var w2 := Next(0, w1, ReadNotes(1));
    end := Next(0, w2, ReadTombs);
    EmptyPage(0, w2);
    hide Next;
    RunNothing(0, end);
    RunStep(0, w2, ReadTombs, []);
    RunStep(0, w1, ReadNotes(1), [ReadTombs] + []);
    RunStep(0, w0, StartDelta(st), [ReadNotes(1)] + ([ReadTombs] + []));
    RunStep(0, w, Tick(st), [StartDelta(st)] + ([ReadNotes(1)] + ([ReadTombs] + [])));
    assert DeltaFrom(st) == [Tick(st)] + ([StartDelta(st)] + ([ReadNotes(1)] + ([ReadTombs] + [])));
  }

  // ---------- a run in which expiry shows ----------

  function PurgedAndBack(): seq<Stamped> {
    [Stamped(Upsert(0, 1, []), 1), Stamped(Purge(0, 1), 2), Stamped(Upsert(0, 1, []), 3)]
  }

  /** A note is purged and created again, and its tombstone expires or not. Purging it once
      more succeeds only where the tombstone is gone, and a delta from the cut-off tells. */
  lemma ExpiryShows()
    ensures var db := Run(EMPTY_DB, PurgedAndBack()); var after := [Stamped(Purge(0, 1), 5)];
            var db' := Run(EMPTY_DB, PurgedAndBack() + [Stamped(Expire(3), 4)]);
            !NoCollision(db, db', after) && !AlwaysSamePages(db, db', after, 3)
  {
    var ops, after := PurgedAndBack(), [Stamped(Purge(0, 1), 5)];
    var db := DB(map[1 := Note(0, [], 3, 3, None)], map[1 := Tomb(0, 2)]);
    assert Run(EMPTY_DB, ops) == db by {
      RunSteps(EMPTY_DB, ops);
      RunSteps(Apply(EMPTY_DB, ops[0].op, 1).db, ops[1..]);
      RunSteps(Apply(Apply(EMPTY_DB, ops[0].op, 1).db, ops[1].op, 2).db, ops[2..]);
    }
    RunThen(EMPTY_DB, ops, Stamped(Expire(3), 4));
    var db' := Apply(db, Expire(3), 4).db;
    assert 1 !in db'.tombs && Collides(db, db', after[0].op);
    assert EndClock(0, ops) == 3 && Ordered(0, ops) by {
      assert ops[1..][1..] == ops[2..] && ops[2..][1..] == [];
      assert Ordered(2, ops[2..]) && EndClock(2, ops[2..]) == 3;
      assert Ordered(1, ops[1..]) && EndClock(1, ops[1..]) == 3;
    }
    assert Ordered(4, after) by { assert after[1..] == []; }
    ExpireStepInvisibleIff(ops, 3, 4, after);
  }

  /** One step of a run. */
  lemma RunSteps(db: DB, ops: seq<Stamped>)
    requires ops != []
    ensures Run(db, ops) == Run(Apply(db, ops[0].op, ops[0].now).db, ops[1..])
  {
  }

  // ---------- a store on which a delta omits a tombstone ----------

  /** One note written after two purges. */
  function TwoPurges(): DB {
    DB(map[1 := Old(5)], map[2 := Tomb(0, 3), 3 := Tomb(0, 4)])
  }

  /** With pages of one row, the first page delivers the tombstone of note 2 and the note,
      and its cursor has passed the tombstone of note 3, which is never delivered. */
  lemma OmissionHappens()
    ensures PositiveTimes(TwoPurges())
    ensures TombRow(3, Tomb(0, 4)) in TombsSince(TwoPurges(), 0, Some(2))
    ensures !TombDelivered(Traversal(TwoPurges(), 0, Some(2), None, 1), TombRow(3, Tomb(0, 4)))
  {
    hide Traversal, NoteWindow, TombWindow;
    var N, T, c := NoteWindow(TwoPurges(), 0, Some(2)), TombWindow(TwoPurges(), 0, Some(2)), Key(0, 0);
    OmissionWindows();
    OmissionPage();
    WindowsPositive(TwoPurges(), 0, Some(2));
    assert Windows(N, T, 1);
    var pages := Traverse(N, T, c, 1);
    assert Skips(pages[0], Key(4, 3));
    TombOmittedIff(TwoPurges(), 0, 2, 1, TombRow(3, Tomb(0, 4)));
  }

  /** The store is reachable. */
  lemma TwoPurgesReached()
    ensures var ops := [Stamped(Upsert(0, 2, []), 1), Stamped(Upsert(0, 3, []), 2), Stamped(Purge(0, 2), 3), Stamped(Purge(0, 3), 4),
                        Stamped(Upsert(0, 1, []), 5)];
            Ordered(0, ops) && Run(EMPTY_DB, ops) == TwoPurges()
  {
    var a, b, c, d, e := Stamped(Upsert(0, 2, []), 1), Stamped(Upsert(0, 3, []), 2), Stamped(Purge(0, 2), 3), Stamped(Purge(0, 3), 4),
      Stamped(Upsert(0, 1, []), 5);
    RunThen(EMPTY_DB, [], a);
    RunThen(EMPTY_DB, [a], b);
    RunThen(EMPTY_DB, [a, b], c);
    RunThen(EMPTY_DB, [a, b, c], d);
    RunThen(EMPTY_DB, [a, b, c, d], e);
    assert [] + [a] == [a] && [a] + [b] == [a, b] && [a, b] + [c] == [a, b, c] && [a, b, c] + [d] == [a, b, c, d];
    assert [a, b, c, d] + [e] == [a, b, c, d, e];
    assert [e][1..] == [] && Ordered(4, [e]);
    assert [d, e][1..] == [e] && Ordered(3, [d, e]);
    assert [c, d, e][1..] == [d, e] && Ordered(2, [c, d, e]);
    assert [b, c, d, e][1..] == [c, d, e] && Ordered(1, [b, c, d, e]);
    assert [a, b, c, d, e][1..] == [b, c, d, e];
  }

  lemma OmissionWindows()
    ensures NoteWindow(TwoPurges(), 0, Some(2)) == {Key(5, 1)}
    ensures TombWindow(TwoPurges(), 0, Some(2)) == {Key(3, 2), Key(4, 3)}
  {
    forall k ensures k in NoteWindow(TwoPurges(), 0, Some(2)) <==> k in {Key(5, 1)} {
      InNoteWindow(TwoPurges(), 0, Some(2), k);
    }
    forall k ensures k in TombWindow(TwoPurges(), 0, Some(2)) <==> k in {Key(3, 2), Key(4, 3)} {
      InTombWindow(TwoPurges(), 0, Some(2), k);
    }
  }

  lemma OmissionPage()
    ensures Skips(FetchKeys({Key(5, 1)}, {Key(3, 2), Key(4, 3)}, Key(0, 0), 1), Key(4, 3))
  {
    var N, T, c := {Key(5, 1)}, {Key(3, 2), Key(4, 3)}, Key(0, 0);
    assert After(N, c) == N && |N| == 1;
    assert After(T, c) == T && |T| == 2;
    PageCut(N, c, 1);
    PageCut(T, c, 1);
    assert UpTo(T, c, Key(4, 3)) == T;
    PageRank(T, c, 1, Key(4, 3));
    assert Page(N, c, 1)[0] in Page(N, c, 1);
    assert Page(T, c, 1)[0] in Page(T, c, 1);
  }
}

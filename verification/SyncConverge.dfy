/** When a client ends up with what the store has. To the notes of SyncRun this module adds
    the deletions: a client that starts its deltas early enough, from a store that keeps its
    tombstones long enough, converges exactly when its pages have missed and skipped nothing
    that matters at the end. */
module SyncConverge {
  import opened Wrappers
  import opened Keyset
  import opened Pagination
  import opened TombDelivery
  import opened NotesModel
  import opened SyncModel
  import opened SyncPaging
  import opened SyncRun

  // ---------- assumptions ----------

  /** The assumptions on a run: instants in order, tombstones kept while the client may still
      ask for them, and deltas from no later than the basis. */
  ghost predicate Allowed(u: UserId, w: World, e: Event) {
    && Ticks(w, e)
    && match e
       case Write(op, now) => op.Expire? ==> op.olderThan <= w.basis
       case StartDelta(since) => since <= w.basis && (w.phase.Idle? || w.phase.since.Some?)
       case _ => true
  }

  ghost predicate AllowedRun(u: UserId, w: World, es: seq<Event>)
    decreases |es|
  {
    es != [] ==> Allowed(u, w, es[0]) && AllowedRun(u, Next(u, w, es[0]), es[1..])
  }

  // ---------- the invariant ----------

  /** Whatever the replica shows and the store has lost has a tombstone that the next delta
      will ask for. */
  ghost predicate Buried(u: UserId, db: DB, basis: Time, r: Replica) {
    forall id | id in r && r[id].Live? && !Owns(db, u, id) ::
      id in db.tombs && db.tombs[id].user == u && db.tombs[id].deletedAt > r[id].note.updatedAt && db.tombs[id].deletedAt > basis
  }

  /** Every row up to instant t is in the replica in its current version. */
  ghost predicate CoversTime(u: UserId, db: DB, r: Replica, t: Time) {
    forall id | Owns(db, u, id) && db.notes[id].updatedAt <= t :: Has(r, id, db.notes[id])
  }

  predicate InTombs(u: UserId, db: DB, since: Time, id: Id) {
    id in db.tombs && db.tombs[id].user == u && db.tombs[id].deletedAt > since
  }

  function GraveKey(db: DB, id: Id): Key
    requires id in db.tombs
  {
    Key(db.tombs[id].deletedAt, id)
  }

  /** Of the notes whose tombstones lie in the window up to key c, none is shown but those
      skipped; and these are, unless the user has created them again. */
  ghost predicate CoversTombs(u: UserId, db: DB, r: Replica, since: Time, c: Key, skipped: set<Key>) {
    forall id | InTombs(u, db, since, id) && Le(GraveKey(db, id), c) ::
      && (Shows(r, id, db.tombs[id].deletedAt) ==> GraveKey(db, id) in skipped)
      && (GraveKey(db, id) in skipped && !Owns(db, u, id) ==> Shows(r, id, db.tombs[id].deletedAt))
  }

  ghost predicate FetchOk(u: UserId, w: World, since: Option<Time>, cursor: Option<Key>) {
    && UpToCursor(w.skipped, cursor)
    && (since.None? && cursor.None? ==> w.replica == map[])
    && (since.Some? ==> since.value <= w.basis && CoversTime(u, w.db, w.replica, w.basis))
    && (since.Some? && cursor.Some? ==> CoversTombs(u, w.db, w.replica, since.value, cursor.value, w.skipped))
  }

  ghost predicate HalfOk(u: UserId, w: World)
    requires w.phase.HalfRead?
  {
    var r := DeliverNotes(w.replica, w.phase.notes);
    && w.basis <= w.phase.readAt
    && Buried(u, w.db, w.basis, r)
    && (w.phase.since.Some? && w.phase.cursor.Some? ==> CoversTombs(u, w.db, r, w.phase.since.value, w.phase.cursor.value, w.skipped))
  }

  ghost predicate WorldInv(u: UserId, w: World) {
    && NoteInv(u, w)
    && w.basis <= w.clock
    && Buried(u, w.db, w.basis, w.replica)
    && match w.phase
       case Idle => CoversTime(u, w.db, w.replica, w.basis)
       case Fetching(since, cursor) => FetchOk(u, w, since, cursor)
       case HalfRead(since, cursor, limit, notes, more, readAt) => FetchOk(u, w, since, cursor) && HalfOk(u, w)
  }

  // ---------- a write keeps the invariant ----------

  lemma BuriedWrite(u: UserId, db: DB, clock: Time, basis: Time, r: Replica, op: Op, now: Time)
    requires Plausible(u, db, clock, r) && Buried(u, db, basis, r)
    requires basis <= clock < now && (op.Expire? ==> op.olderThan <= basis)
    ensures Buried(u, Apply(db, op, now).db, basis, r)
  {
  }

  lemma CoversTimeWrite(u: UserId, db: DB, r: Replica, t: Time, op: Op, now: Time)
    requires CoversTime(u, db, r, t) && t < now
    ensures CoversTime(u, Apply(db, op, now).db, r, t)
  {
    var db' := Apply(db, op, now).db;
    hide Apply;
    forall id | Owns(db', u, id) && db'.notes[id].updatedAt <= t ensures Has(r, id, db'.notes[id]) {
      RowAfterWrite(u, db, op, now, id);
    }
  }

  lemma CoversTombsWrite(u: UserId, db: DB, r: Replica, since: Time, c: Key, skipped: set<Key>, op: Op, now: Time)
    requires CoversTombs(u, db, r, since, c, skipped) && c.t < now
    ensures CoversTombs(u, Apply(db, op, now).db, r, since, c, skipped)
  {
    var db' := Apply(db, op, now).db;
    forall id | InTombs(u, db', since, id) && Le(GraveKey(db', id), c)
      ensures InTombs(u, db, since, id) && db.tombs[id] == db'.tombs[id] && (Owns(db, u, id) ==> Owns(db', u, id))
    {
      OldTombKeepsOwner(u, db, op, now, id);
    }
  }

  /** A note whose tombstone is older than the write is not purged by it: the tombstone would
      be in the way. */
  lemma OldTombKeepsOwner(u: UserId, db: DB, op: Op, now: Time, id: Id)
    requires id in Apply(db, op, now).db.tombs && Apply(db, op, now).db.tombs[id].deletedAt < now
    ensures id in db.tombs && db.tombs[id] == Apply(db, op, now).db.tombs[id]
    ensures Owns(db, u, id) ==> Owns(Apply(db, op, now).db, u, id)
  {
  }

  lemma FetchOkWrite(u: UserId, w: World, op: Op, now: Time)
    requires !w.phase.Idle? && NoteInv(u, w) && FetchOk(u, w, w.phase.since, w.phase.cursor) && now > w.clock >= w.basis
    ensures FetchOk(u, Next(u, w, Write(op, now)), w.phase.since, w.phase.cursor)
  {
    hide Apply, CoversTime, CoversTombs, CoversKey, Plausible, Inv, NotesRead;
    if w.phase.since.Some? {
      CoversTimeWrite(u, w.db, w.replica, w.basis, op, now);
      if w.phase.cursor.Some? {
        CoversTombsWrite(u, w.db, w.replica, w.phase.since.value, w.phase.cursor.value, w.skipped, op, now);
      }
    }
  }

  lemma HalfOkWrite(u: UserId, w: World, op: Op, now: Time)
    requires w.phase.HalfRead? && NoteInv(u, w) && HalfOk(u, w) && now > w.clock >= w.basis
    requires op.Expire? ==> op.olderThan <= w.basis
    ensures HalfOk(u, Next(u, w, Write(op, now)))
  {
    hide Apply, Buried, CoversTombs, CoversKey, Plausible, Inv, CoversRead, DeliverNotes;
    var r := DeliverNotes(w.replica, w.phase.notes);
    BuriedWrite(u, w.db, w.clock, w.basis, r, op, now);
    if w.phase.since.Some? && w.phase.cursor.Some? {
      CoversTombsWrite(u, w.db, r, w.phase.since.value, w.phase.cursor.value, w.skipped, op, now);
    }
  }

  lemma WriteKeeps(u: UserId, w: World, op: Op, now: Time)
    requires WorldInv(u, w) && Allowed(u, w, Write(op, now))
    ensures WorldInv(u, Next(u, w, Write(op, now)))
  {
    WriteKeepsNotes(u, w, op, now);
    BuriedWrite(u, w.db, w.clock, w.basis, w.replica, op, now);
    hide Apply, NoteInv, Buried, CoversTime, FetchOk, HalfOk;
    match w.phase {
      case Idle => CoversTimeWrite(u, w.db, w.replica, w.basis, op, now);
      case Fetching(since, cursor) => FetchOkWrite(u, w, op, now);
      case HalfRead(since, cursor, limit, notes, more, readAt) =>
        FetchOkWrite(u, w, op, now);
        HalfOkWrite(u, w, op, now);
    }
  }

  // ---------- the note read keeps the invariant ----------

  /** Current rows are not buried, and newer than any tombstone of their ids. */
  lemma NotesBuried(u: UserId, db: DB, clock: Time, basis: Time, basis': Time, r: Replica, rows: seq<NoteRow>)
    requires Inv(db, clock) && Plausible(u, db, clock, r) && Current(db, rows)
    requires forall row | row in rows :: row.note.user == u
    requires Buried(u, db, basis, r) && (basis' == basis || r == map[])
    ensures Buried(u, db, basis', DeliverNotes(r, rows))
    ensures forall since, c, skipped | CoversTombs(u, db, r, since, c, skipped) ::
              CoversTombs(u, db, DeliverNotes(r, rows), since, c, skipped)
  {
    hide DeliverNotes;
    NotesFit(u, db, clock, r, rows);
  }

  lemma ReadNotesKeeps(u: UserId, w: World, limit: nat)
    requires WorldInv(u, w) && Allowed(u, w, ReadNotes(limit))
    ensures WorldInv(u, Next(u, w, ReadNotes(limit)))
  {
    hide NotesHalf, Inv, Plausible, NotesRead, CursorCovers, CoversTombs, Buried, DeliverNotes;
    ReadNotesKeepsNotes(u, w, limit);
    if w.phase.Fetching? {
      var w' := Next(u, w, ReadNotes(limit));
      NotesHalfOfUser(u, w, limit);
      NotesBuried(u, w.db, w.clock, w.basis, w'.basis, w.replica, w'.phase.notes);
      if w.replica == map[] { EmptyIsBuried(u, w.db, w'.basis); }
    }
  }

  lemma NotesHalfOfUser(u: UserId, w: World, limit: nat)
    requires NoteInv(u, w) && w.phase.Fetching? && limit >= 1
    ensures var rows := Next(u, w, ReadNotes(limit)).phase.notes;
            Current(w.db, rows) && forall row | row in rows :: row.note.user == u
  {
    hide NotesHalf;
    InvPositive(w.db, w.clock);
    NotesHalfRows(w.db, u, w.phase.since, w.phase.cursor, limit);
  }

  lemma EmptyIsBuried(u: UserId, db: DB, basis: Time)
    ensures Buried(u, db, basis, map[])
  {
  }

  // ---------- the tombstone read keeps the invariant ----------

  lemma TombsBuried(u: UserId, db: DB, clock: Time, basis: Time, r: Replica, rows: seq<TombRow>)
    requires Inv(db, clock) && Plausible(u, db, clock, r) && CurrentTombs(db, rows) && Buried(u, db, basis, r)
    ensures Buried(u, db, basis, DeliverTombs(r, rows))
  {
    hide DeliverTombs;
    TombsFit(u, db, clock, r, rows);
  }

  lemma NoteInvParts(u: UserId, w: World)
    requires NoteInv(u, w) && w.phase.HalfRead?
    ensures NotesRead(u, w) && CursorCovers(u, w, w.phase.since, w.phase.cursor) && PositiveTimes(w.db)
  {
    InvPositive(w.db, w.clock);
  }

  /** What a page of tombstones shows afterwards: exactly what was shown before and has no
      tombstone on the page that is newer. */
  lemma ShownAfter(u: UserId, w: World, id: Id)
    requires NoteInv(u, w) && w.phase.HalfRead? && id in w.db.tombs
    ensures var t := w.db.tombs[id];
            Shows(Next(u, w, ReadTombs).replica, id, t.deletedAt) <==>
              Shows(DeliverNotes(w.replica, w.phase.notes), id, t.deletedAt) && TombRow(id, t) !in TombsRead(u, w).0
  {
    hide TombsRead, NextCursor, OvertakenBy, SkippedBy, DeliverNotes, CoversKey, CoversRead, Plausible, Inv;
    NoteInvParts(u, w);
    TombsReadCurrent(u, w);
    var tombs := TombsRead(u, w).0;
    var r1 := DeliverNotes(w.replica, w.phase.notes);
    hide DeliverTombs;
    TombsFit(u, w.db, w.clock, r1, tombs);
    TombsDelivered(r1, tombs, w.db);
    if id in r1 && TombRow(id, w.db.tombs[id]) !in tombs {
      TombsElsewhere(r1, tombs, id);
    }
  }

  lemma {:induction false} TombsElsewhere(r: Replica, rows: seq<TombRow>, id: Id)
    requires id in r && forall row | row in rows :: row.id != id
    ensures id in DeliverTombs(r, rows) && DeliverTombs(r, rows)[id] == r[id]
    decreases |rows|
  {
    if rows == [] {
    } else {
      assert rows[0] in rows;
      TombsElsewhere(Deliver(r, rows[0].id, Dead(rows[0].tomb.deletedAt)), rows[1..], id);
    }
  }

  /** Where a tombstone of the window lies decides whether the page has it. */
  lemma OnThePage(u: UserId, w: World, id: Id)
    requires NoteInv(u, w) && w.phase.HalfRead? && w.phase.since.Some? && InTombs(u, w.db, w.phase.since.value, id)
    ensures var (tombs, more) := TombsRead(u, w); var k := GraveKey(w.db, id);
            && (more ==> tombs != [])
            && (TombRow(id, w.db.tombs[id]) in tombs <==>
                  && (w.phase.cursor.Some? ==> Lt(w.phase.cursor.value, k))
                  && (more ==> Le(k, TombKey(tombs[|tombs| - 1]))))
  {
    hide TombsHalf, CoversKey, CoversRead, DeliverNotes, Plausible;
    NoteInvParts(u, w);
    TombsHalfRows(w.db, u, w.phase.since.value, w.phase.cursor, w.phase.limit);
    UpToLast(w.db, u, w.phase.since.value, w.phase.cursor, w.phase.limit, TombRow(id, w.db.tombs[id]));
  }

  /** No tombstone returned lies after the last one. */
  lemma UpToLast(db: DB, u: UserId, since: Time, cursor: Option<Key>, limit: nat, t: TombRow)
    requires PositiveTimes(db) && limit >= 1 && (cursor.Some? ==> cursor.value.t > 0)
    ensures var tombs := TombsHalf(db, u, Some(since), cursor, limit).0;
            t in tombs ==> Le(TombKey(t), TombKey(tombs[|tombs| - 1]))
  {
    hide TombsHalf, Page, OrderBy, TombWindow, TombKeys;
    var w, c := TombWindow(db, u, Some(since)), CursorKey(cursor);
    var tombs := TombsHalf(db, u, Some(since), cursor, limit).0;
    TombsHalfPage(db, u, since, cursor, limit);
    PageCut(w, c, limit);
    LastTombKey(tombs);
    if t in tombs {
      var i :| 0 <= i < |tombs| && tombs[i] == t;
      KeyAt(tombs, i);
    }
  }

  lemma KeyAt(rows: seq<TombRow>, i: nat)
    requires i < |rows|
    ensures TombKeys(rows)[i] == TombKey(rows[i]) && TombKeys(rows)[i] in TombKeys(rows)
  {
  }

  /** The page leaves shown, of the notes whose tombstones lie up to the next cursor, or
      anywhere in the window when there is none, exactly the skipped ones. */
  lemma ReadTombsTombs(u: UserId, w: World)
    requires WorldInv(u, w) && w.phase.HalfRead? && w.phase.since.Some?
    ensures var next := NextCursor(PageRead(u, w)); var w' := Next(u, w, ReadTombs);
            && (next.Some? ==> UpToCursor(w'.skipped, next))
            && (next.None? ==> w'.skipped == w.skipped)
            && (forall id | InTombs(u, w.db, w.phase.since.value, id) && (next.Some? ==> Le(GraveKey(w.db, id), next.value)) ::
                  && (Shows(w'.replica, id, w.db.tombs[id].deletedAt) ==> GraveKey(w.db, id) in w'.skipped)
                  && (GraveKey(w.db, id) in w'.skipped && !Owns(w.db, u, id) ==> Shows(w'.replica, id, w.db.tombs[id].deletedAt)))
  {
    hide Buried, CoversRead, CoversKey, CoversTime, TombsRead, TombsHalf, DeliverNotes, DeliverTombs, Plausible, NextCursor, OvertakenBy, Inv, TombWindow;
    NoteInvParts(u, w);
    CursorCases(u, w);
    CursorForward(u, w);
    var next := NextCursor(PageRead(u, w));
    var w' := Next(u, w, ReadTombs);
    forall id | InTombs(u, w.db, w.phase.since.value, id) && (next.Some? ==> Le(GraveKey(w.db, id), next.value))
      ensures Shows(w'.replica, id, w.db.tombs[id].deletedAt) ==> GraveKey(w.db, id) in w'.skipped
      ensures GraveKey(w.db, id) in w'.skipped && !Owns(w.db, u, id) ==> Shows(w'.replica, id, w.db.tombs[id].deletedAt)
    {
      InTombWindow(w.db, u, w.phase.since, GraveKey(w.db, id));
      OnThePage(u, w, id);
      ShownAfter(u, w, id);
    }
  }

  // ---------- completion ----------

  /** When the last page of a delta has been read, the replica has exactly the rows that are
      not newer than the note read and not missed, or not of the window; and it shows a note
      the store has lost exactly when its tombstone was skipped. */
  lemma DeltaEnds(u: UserId, w: World)
    requires WorldInv(u, w) && w.phase.HalfRead? && w.phase.since.Some? && NextCursor(PageRead(u, w)).None?
    ensures var r := Next(u, w, ReadTombs).replica; var since := w.phase.since.value;
            && (forall id | Owns(w.db, u, id) ::
                  Has(r, id, w.db.notes[id]) <==>
                    w.db.notes[id].updatedAt <= since || (w.db.notes[id].updatedAt <= w.phase.readAt && RowKey(w.db, id) !in w.missed))
            && (forall id | !Owns(w.db, u, id) ::
                  id in r && r[id].Live? <==> InTombs(u, w.db, since, id) && GraveKey(w.db, id) in w.skipped)
  {
    hide HalfOk, CoversKey, CoversTombs, CoversRead, TombsHalf, TombsRead, PageRead, Plausible, DeliverNotes, DeliverTombs, OvertakenBy, SkippedBy;
    PageDelivered(u, w);
    LastPageCovers(u, w);
    ReadTombsTombs(u, w);
    ReadTombsBuried(u, w);
    var r := Next(u, w, ReadTombs).replica;
    forall id | Owns(w.db, u, id)
      ensures Has(r, id, w.db.notes[id]) <==>
              w.db.notes[id].updatedAt <= w.phase.since.value
              || (w.db.notes[id].updatedAt <= w.phase.readAt && RowKey(w.db, id) !in w.missed)
    {
      assert w.db.notes[id].updatedAt > w.phase.since.value ==> InWindow(u, w.db, w.phase.since, id);
    }
  }

  lemma ReadTombsBuried(u: UserId, w: World)
    requires WorldInv(u, w) && w.phase.HalfRead?
    ensures Buried(u, w.db, w.basis, Next(u, w, ReadTombs).replica)
  {
    hide TombsRead, NextCursor, OvertakenBy, SkippedBy, DeliverNotes, DeliverTombs, CoversKey, CoversRead, Plausible, Buried;
    NoteInvParts(u, w);
    TombsReadCurrent(u, w);
    TombsBuried(u, w.db, w.clock, w.basis, DeliverNotes(w.replica, w.phase.notes), TombsRead(u, w).0);
  }

  lemma BeforeAll(t: Time, ks: set<Key>)
    ensures Before(t, ks) <= t
    ensures forall k | k in ks && k.t > 0 :: Before(t, ks) < k.t || ks == {}
  {
  }

  /** After a delta the replica is in sync up to the new basis. */
  lemma DeltaInSync(u: UserId, w: World)
    requires WorldInv(u, w) && w.phase.HalfRead? && w.phase.since.Some? && NextCursor(PageRead(u, w)).None?
    ensures var w' := Next(u, w, ReadTombs);
            && w'.basis <= w.clock
            && CoversTime(u, w.db, w'.replica, w'.basis) && Buried(u, w.db, w'.basis, w'.replica)
  {
    hide HalfOk, CoversKey, CoversTombs, CoversRead, TombsHalf, TombsRead, PageRead, Plausible, DeliverNotes, DeliverTombs, OvertakenBy, SkippedBy, Before;
    NoteInvParts(u, w);
    PageDelivered(u, w);
    DeltaEnds(u, w);
    ReadTombsBuried(u, w);
    BeforeAll(w.phase.readAt, w.missed);
  }

  lemma FullInSync(u: UserId, w: World)
    requires WorldInv(u, w) && w.phase.HalfRead? && w.phase.since.None? && NextCursor(PageRead(u, w)).None?
    ensures CoversTime(u, w.db, Next(u, w, ReadTombs).replica, w.basis)
  {
    hide CoversKey, CoversTombs, CoversRead, TombsHalf, TombsRead, PageRead, Plausible, DeliverNotes, DeliverTombs, OvertakenBy, SkippedBy;
    LastPageCovers(u, w);
    forall id | Owns(w.db, u, id) && w.db.notes[id].updatedAt <= w.basis
      ensures Has(Next(u, w, ReadTombs).replica, id, w.db.notes[id])
    {
      assert InWindow(u, w.db, None, id);
    }
  }

  /** A full traversal skips nothing: it has no truncated lists. */
  lemma FullSkipsNothing(u: UserId, w: World)
    requires NoteInv(u, w) && w.phase.HalfRead? && w.phase.since.None?
    ensures SkippedBy(u, w) == {}
  {
    hide AllTombs;
  }

  lemma ReadTombsKeeps(u: UserId, w: World)
    requires WorldInv(u, w)
    ensures WorldInv(u, Next(u, w, ReadTombs))
  {
    hide PageRead, OvertakenBy, SkippedBy, NextCursor, DeliverNotes, DeliverTombs, Inv, Plausible, CoversRead, CoversKey, Buried, UpToCursor, NoteInv;
    ReadTombsKeepsNotes(u, w);
    if w.phase.HalfRead? {
      PageDelivered(u, w);
      ReadTombsBuried(u, w);
      if NextCursor(PageRead(u, w)).None? {
        if w.phase.since.Some? { DeltaInSync(u, w); } else { FullInSync(u, w); }
      } else if w.phase.since.Some? {
        ReadTombsTombs(u, w);
      } else {
        FullSkipsNothing(u, w);
        SkippedStaysUp(u, w);
        assert Next(u, w, ReadTombs).skipped == w.skipped;
      }
    }
  }

  lemma SkippedStaysUp(u: UserId, w: World)
    requires WorldInv(u, w) && w.phase.HalfRead? && NextCursor(PageRead(u, w)).Some?
    ensures UpToCursor(w.skipped, NextCursor(PageRead(u, w)))
  {
    hide PageRead, NextCursor, DeliverNotes, Inv, Plausible, CoversRead, CoversKey, Buried;
    CursorForward(u, w);
  }

  lemma TickKeeps(u: UserId, w: World, now: Time)
    requires WorldInv(u, w) && now >= w.clock
    ensures WorldInv(u, Next(u, w, Tick(now)))
  {
    hide NoteInv, Buried, CoversTime, CoversTombs, DeliverNotes;
    TickKeepsNotes(u, w, now);
  }

  lemma StepKeeps(u: UserId, w: World, e: Event)
    requires WorldInv(u, w) && Allowed(u, w, e)
    ensures WorldInv(u, Next(u, w, e))
  {
    hide NoteInv, Apply, NotesHalf, PageRead, OvertakenBy, SkippedBy, DeliverNotes, DeliverTombs, CoversTombs;
    match e
    case Tick(now) => TickKeeps(u, w, now);
    case Write(op, now) => WriteKeeps(u, w, op, now);
    case ReadNotes(limit) => ReadNotesKeeps(u, w, limit);
    case ReadTombs => ReadTombsKeeps(u, w);
    case StartFull => StepKeepsNotes(u, w, e);
    case StartDelta(since) => StepKeepsNotes(u, w, e);
    case Lost => StepKeepsNotes(u, w, e);
  }

  lemma {:induction false} RunKeeps(u: UserId, w: World, es: seq<Event>)
    requires WorldInv(u, w) && AllowedRun(u, w, es)
    ensures WorldInv(u, RunWorld(u, w, es))
    decreases |es|
  {
    hide WorldInv, Allowed, Next;
    if es == [] {
    } else {
      StepKeeps(u, w, es[0]);
      RunKeeps(u, Next(u, w, es[0]), es[1..]);
    }
  }

  lemma RunStep(u: UserId, w: World, e: Event, es: seq<Event>)
    ensures RunWorld(u, w, [e] + es) == RunWorld(u, Next(u, w, e), es)
    ensures AllowedRun(u, w, [e] + es) <==> Allowed(u, w, e) && AllowedRun(u, Next(u, w, e), es)
    ensures TickingRun(u, w, [e] + es) <==> Ticks(w, e) && TickingRun(u, Next(u, w, e), es)
  {
    hide Next, Allowed, Ticks;
    assert ([e] + es)[0] == e && ([e] + es)[1..] == es;
  }

  // ---------- convergence ----------

  /** A client that has never synced, next to any reachable store. */
  function Fresh(db: DB, clock: Time): World {
    World(db, clock, map[], Idle, 0, {}, {})
  }

  lemma FreshInv(u: UserId, db: DB, clock: Time)
    requires Inv(db, clock)
    ensures WorldInv(u, Fresh(db, clock))
  {
  }

  ghost predicate CompletesDelta(u: UserId, w: World) {
    w.phase.HalfRead? && w.phase.since.Some? && Next(u, w, ReadTombs).phase.Idle?
  }

  /** Nothing of the present store was missed: every note of the window was written by the
      last note read, and its key is not among the missed ones; and no tombstone of the
      window was skipped whose note the user has not created again. */
  ghost predicate NothingLost(u: UserId, w: World)
    requires w.phase.HalfRead? && w.phase.since.Some?
  {
    && (forall id | InWindow(u, w.db, w.phase.since, id) ::
          w.db.notes[id].updatedAt <= w.phase.readAt && RowKey(w.db, id) !in w.missed)
    && (forall id | InTombs(u, w.db, w.phase.since.value, id) && !Owns(w.db, u, id) :: GraveKey(w.db, id) !in w.skipped)
  }

  /** The replica shows no note the store has lost, and every note written by instant t as
      it is. */
  ghost predicate Converged(u: UserId, w: World, t: Time) {
    && LiveNotes(w.replica).Keys <= UserNotes(w.db, u).Keys
    && (forall id | id in UserNotes(w.db, u) && UserNotes(w.db, u)[id].updatedAt <= t ::
          id in LiveNotes(w.replica) && LiveNotes(w.replica)[id] == UserNotes(w.db, u)[id])
  }

  /** Exactly when a delta converges. Its pages may miss and skip what they like: the replica
      is the user's notes iff nothing of the present store was lost. */
  lemma DeltaConvergesIff(u: UserId, w: World)
    requires WorldInv(u, w) && CompletesDelta(u, w)
    ensures LiveNotes(Next(u, w, ReadTombs).replica) == UserNotes(w.db, u) <==> NothingLost(u, w)
  {
    hide PageRead, NextCursor, OvertakenBy, SkippedBy, DeliverNotes, DeliverTombs, Inv, Plausible, Buried, FetchOk, HalfOk, NoteInv;
    DeltaEnds(u, w);
    var r := Next(u, w, ReadTombs).replica;
    HasAndShows(u, w.db, r);
    assert (forall id | Owns(w.db, u, id) :: Has(r, id, w.db.notes[id])) <==>
           forall id | InWindow(u, w.db, w.phase.since, id) ::
             w.db.notes[id].updatedAt <= w.phase.readAt && RowKey(w.db, id) !in w.missed by {
      forall id | Owns(w.db, u, id)
        ensures w.db.notes[id].updatedAt > w.phase.since.value <==> InWindow(u, w.db, w.phase.since, id)
      {
      }
    }
  }

  /** A replica is the user's notes iff it has each of them and shows no other. */
  lemma HasAndShows(u: UserId, db: DB, r: Replica)
    ensures LiveNotes(r) == UserNotes(db, u) <==>
            && (forall id | Owns(db, u, id) :: Has(r, id, db.notes[id]))
            && (forall id | !Owns(db, u, id) :: !(id in r && r[id].Live?))
  {
    if LiveNotes(r) == UserNotes(db, u) {
      forall id | Owns(db, u, id) ensures Has(r, id, db.notes[id]) {
        assert id in UserNotes(db, u) && UserNotes(db, u)[id] == LiveNotes(r)[id];
      }
      forall id | !Owns(db, u, id) ensures !(id in r && r[id].Live?) {
        assert id in LiveNotes(r) <==> id in UserNotes(db, u);
      }
    }
    if (forall id | Owns(db, u, id) :: Has(r, id, db.notes[id])) && (forall id | !Owns(db, u, id) :: !(id in r && r[id].Live?)) {
      assert forall id :: id in LiveNotes(r) <==> id in UserNotes(db, u);
      assert forall id | id in LiveNotes(r) :: LiveNotes(r)[id] == UserNotes(db, u)[id];
    }
  }

  /** What a delta gives that skipped nothing, and what one gives that did. */
  lemma DeltaDelivers(u: UserId, w: World)
    requires WorldInv(u, w) && CompletesDelta(u, w)
    ensures var end := Next(u, w, ReadTombs);
            && (w.skipped == {} ==> end.basis == Before(w.phase.readAt, w.missed) && Converged(u, end, end.basis))
            && (forall id | Owns(w.db, u, id) && w.db.notes[id].updatedAt <= Before(w.phase.readAt, w.missed) ::
                  Has(end.replica, id, w.db.notes[id]))
  {
    hide PageRead, NextCursor, OvertakenBy, SkippedBy, DeliverNotes, DeliverTombs, Inv, Plausible, Buried, FetchOk, Before, CoversKey, CoversRead;
    NoteInvParts(u, w);
    DeltaEnds(u, w);
    BeforeAll(w.phase.readAt, w.missed);
  }

  /** Replica convergence, exactly. Start from any reachable store and a client that has
      never synced; let writes of any users commit between any two repository calls, and let
      the client run full and delta traversals as it likes, whatever their pages miss or skip.
      When the last page of a delta has been read, the replica is the user's notes iff nothing
      of the present store was lost; and if no page skipped a tombstone, the replica has
      converged up to an instant from which the client may start its next delta: the last
      note read, or before the first note that was missed. */
  lemma ReplicaConverges(u: UserId, db: DB, clock: Time, es: seq<Event>)
    requires Inv(db, clock) && AllowedRun(u, Fresh(db, clock), es)
    requires CompletesDelta(u, RunWorld(u, Fresh(db, clock), es))
    ensures var w := RunWorld(u, Fresh(db, clock), es); var end := Next(u, w, ReadTombs);
            && (LiveNotes(end.replica) == UserNotes(end.db, u) <==> NothingLost(u, w))
            && (w.skipped == {} ==> Converged(u, end, end.basis))
            && (w.skipped == {} && w.missed == {} ==> end.basis == w.phase.readAt)
  {
    hide WorldInv, Allowed, NothingLost, Converged, PageRead, NextCursor, OvertakenBy, SkippedBy, DeliverNotes, DeliverTombs;
    FreshInv(u, db, clock);
    RunKeeps(u, Fresh(db, clock), es);
    DeltaConvergesIff(u, RunWorld(u, Fresh(db, clock), es));
    DeltaDelivers(u, RunWorld(u, Fresh(db, clock), es));
  }

  // ---------- the next delta ----------

  predicate StartsTraversal(e: Event) {
    e.StartFull? || e.StartDelta?
  }

  /** A delta that has missed nothing written by instant t. */
  ghost predicate NotBehind(w: World, t: Time) {
    && !w.phase.Idle? && w.phase.since.Some? && w.clock >= t
    && (forall k | k in w.missed :: k.t > t)
    && (w.phase.HalfRead? ==> w.phase.readAt >= t)
  }

  lemma NotBehindStep(u: UserId, w: World, e: Event, t: Time)
    requires NotBehind(w, t) && Ticks(w, e) && !StartsTraversal(e)
    ensures Next(u, w, e).phase.Idle? || NotBehind(Next(u, w, e), t)
  {
    hide PageRead, NotesHalf, DeliverNotes, DeliverTombs, Apply, NextCursor, SkippedBy;
  }

  lemma {:induction false} DeltaReaches(u: UserId, w: World, es: seq<Event>, t: Time)
    requires NotBehind(w, t) && AllowedRun(u, w, es)
    requires forall e | e in es :: !StartsTraversal(e)
    requires CompletesDelta(u, RunWorld(u, w, es))
    ensures NotBehind(RunWorld(u, w, es), t)
    decreases |es|
  {
    hide Next, NotBehind;
    if es == [] {
    } else {
      assert es[0] in es;
      NotBehindStep(u, w, es[0], t);
      if Next(u, w, es[0]).phase.Idle? {
        StaysIdle(u, Next(u, w, es[0]), es[1..]);
      } else {
        DeltaReaches(u, Next(u, w, es[0]), es[1..], t);
      }
    }
  }

  lemma {:induction false} StaysIdle(u: UserId, w: World, es: seq<Event>)
    requires w.phase.Idle? && forall e | e in es :: !StartsTraversal(e)
    ensures RunWorld(u, w, es).phase.Idle?
    decreases |es|
  {
    hide Apply;
    if es == [] {
    } else {
      assert es[0] in es;
      StaysIdle(u, Next(u, w, es[0]), es[1..]);
    }
  }

  /** The next delta recovers the notes that earlier ones missed. Whatever its own pages miss
      or skip, a delta that starts from no later than the basis has at its end every note
      written by the instant it started. If it skipped no tombstone it shows nothing that is
      gone either, and leaves a basis no earlier than that instant: a client may start its
      next delta from the start of its last one that skipped nothing. */
  lemma NextDeltaRecovers(u: UserId, w: World, since: Time, es: seq<Event>)
    requires WorldInv(u, w) && w.phase.Idle? && AllowedRun(u, w, [StartDelta(since)] + es)
    requires forall e | e in es :: !StartsTraversal(e)
    requires CompletesDelta(u, RunWorld(u, w, [StartDelta(since)] + es))
    ensures var w' := RunWorld(u, w, [StartDelta(since)] + es); var end := Next(u, w', ReadTombs);
            && (forall id | Owns(w'.db, u, id) && w'.db.notes[id].updatedAt <= w.clock :: Has(end.replica, id, w'.db.notes[id]))
            && (w'.skipped == {} ==> end.basis >= w.clock && Converged(u, end, end.basis))
  {
    var run := [StartDelta(since)] + es;
    var w1 := Next(u, w, StartDelta(since));
    assert run[0] == StartDelta(since) && run[1..] == es;
    StepKeeps(u, w, StartDelta(since));
    assert NotBehind(w1, w.clock);
    hide Next, Allowed, WorldInv, Before;
    DeltaReaches(u, w1, es, w.clock);
    RunKeeps(u, w1, es);
    var w' := RunWorld(u, w, run);
    DeltaDelivers(u, w');
    NotBehindBefore(w', w.clock);
  }

  lemma NotBehindBefore(w: World, t: Time)
    requires NotBehind(w, t) && w.phase.HalfRead?
    ensures Before(w.phase.readAt, w.missed) >= t
  {
  }

  lemma SaneTimes(u: UserId, w: World)
    requires NoteInv(u, w)
    ensures forall id | id in w.db.notes :: w.db.notes[id].updatedAt <= w.clock
  {
    assert forall id | id in w.db.notes :: NoteSane(w.db.notes[id], w.clock);
  }

  // ---------- pages that skip or overtake nothing ----------

  /** The page has room for the tombstones it spans. */
  ghost predicate RoomOnPage(u: UserId, w: World)
    requires w.phase.HalfRead?
  {
    w.phase.notes != [] ==>
      |UpTo(TombWindow(w.db, u, w.phase.since), CursorKey(w.phase.cursor), LastKey(w.phase.notes))| <= w.phase.limit
  }

  /** A delta page with room for the tombstones it spans skips nothing. A page that has
      notes, whose two reads no write separates, or that reads all remaining tombstones
      overtakes nothing. */
  lemma PageIsSafe(u: UserId, w: World)
    requires NoteInv(u, w) && w.phase.HalfRead? && w.phase.since.Some?
    ensures RoomOnPage(u, w) ==> SkippedBy(u, w) == {}
    ensures w.phase.notes != [] || w.phase.readAt == w.clock
            || |After(TombWindow(w.db, u, w.phase.since), CursorKey(w.phase.cursor))| <= w.phase.limit ==>
              OvertakenBy(u, w) == {}
  {
    hide TombsHalf, TombWindow, CoversRead, CoversKey, NextCursor, After, Page, DeliverNotes, Plausible, SkippedBy;
    NoteInvParts(u, w);
    CursorCases(u, w);
    TombsHalfPage(w.db, u, w.phase.since.value, w.phase.cursor, w.phase.limit);
    if w.phase.notes != [] { NoteCursorOvertakesNothing(u, w); }
    if RoomOnPage(u, w) { RoomSkipsNothing(u, w); }
    SaneTimes(u, w);
  }

  lemma RoomSkipsNothing(u: UserId, w: World)
    requires NoteInv(u, w) && w.phase.HalfRead? && w.phase.since.Some? && RoomOnPage(u, w)
    ensures SkippedBy(u, w) == {}
  {
    hide TombWindow, NoteInv, SkippedBy, Page, UpTo, DeliverNotes;
    var T, c, limit := TombWindow(w.db, u, w.phase.since), CursorKey(w.phase.cursor), w.phase.limit;
    SkippedInSpan(u, w);
    if w.phase.notes != [] && Page(T, c, limit) != [] {
      FitsIffOnPage(T, c, limit, LastKey(w.phase.notes));
      PageCut(T, c, limit);
    }
  }

  /** A skipped tombstone lies beyond the cursor, after the page and up to its last note. */
  lemma SkippedInSpan(u: UserId, w: World)
    requires NoteInv(u, w) && w.phase.HalfRead? && w.phase.since.Some?
    ensures var T, c, limit := TombWindow(w.db, u, w.phase.since), CursorKey(w.phase.cursor), w.phase.limit;
            forall k | k in SkippedBy(u, w) ::
              && w.phase.notes != [] && Page(T, c, limit) != []
              && k in UpTo(T, c, LastKey(w.phase.notes)) && Lt(Last(Page(T, c, limit)), k)
  {
    hide TombsHalf, TombWindow, CoversRead, CoversKey, Page, DeliverNotes, Plausible, TombKeys, OrderBy;
    NoteInvParts(u, w);
    var T, c, limit := TombWindow(w.db, u, w.phase.since), CursorKey(w.phase.cursor), w.phase.limit;
    TombsHalfPage(w.db, u, w.phase.since.value, w.phase.cursor, limit);
    LastTombKey(TombsRead(u, w).0);
    if Page(T, c, limit) != [] { LastIsBeyond(T, c, limit); }
  }

  /** Every tombstone read of a delta finds room on its page. */
  ghost predicate RoomyRun(u: UserId, w: World, es: seq<Event>)
    decreases |es|
  {
    es != [] ==>
      && (es[0].ReadTombs? && w.phase.HalfRead? && w.phase.since.Some? ==> RoomOnPage(u, w))
      && RoomyRun(u, Next(u, w, es[0]), es[1..])
  }

  /** Then its pages skip nothing, whatever is written meanwhile. */
  lemma {:induction false} RoomySkipsNothing(u: UserId, w: World, es: seq<Event>)
    requires NoteInv(u, w) && TickingRun(u, w, es) && RoomyRun(u, w, es) && w.skipped == {}
    ensures RunWorld(u, w, es).skipped == {}
    decreases |es|
  {
    hide NoteInv, RoomOnPage, Next;
    if es == [] {
    } else {
      RoomyStep(u, w, es[0]);
      StepKeepsNotes(u, w, es[0]);
      RoomySkipsNothing(u, Next(u, w, es[0]), es[1..]);
    }
  }

  lemma RoomyStep(u: UserId, w: World, e: Event)
    requires NoteInv(u, w) && w.skipped == {}
    requires e.ReadTombs? && w.phase.HalfRead? && w.phase.since.Some? ==> RoomOnPage(u, w)
    ensures Next(u, w, e).skipped == {}
  {
    hide NoteInv, RoomOnPage, SkippedBy, OvertakenBy, Apply, NotesHalf, PageRead, DeliverNotes, DeliverTombs, NextCursor;
    if e.ReadTombs? && w.phase.HalfRead? {
      if w.phase.since.Some? { RoomSkipsNothing(u, w); } else { FullSkipsNothing(u, w); }
    }
  }

  lemma {:induction false} AllowedTicks(u: UserId, w: World, es: seq<Event>)
    requires AllowedRun(u, w, es)
    ensures TickingRun(u, w, es)
    decreases |es|
  {
    hide Next, Ticks;
    if es == [] {
    } else {
      AllowedTicks(u, Next(u, w, es[0]), es[1..]);
    }
  }

  /** Convergence whenever the pages of the delta have room for the tombstones they span,
      whatever the client's earlier traversals did: no note that is gone is shown, and every
      note is there that was written by an instant no earlier than the delta's start. */
  lemma RoomyConverges(u: UserId, w: World, since: Time, es: seq<Event>)
    requires WorldInv(u, w) && w.phase.Idle? && AllowedRun(u, w, [StartDelta(since)] + es)
    requires forall e | e in es :: !StartsTraversal(e)
    requires CompletesDelta(u, RunWorld(u, w, [StartDelta(since)] + es))
    requires RoomyRun(u, w, [StartDelta(since)] + es)
    ensures var end := Next(u, RunWorld(u, w, [StartDelta(since)] + es), ReadTombs);
            end.basis >= w.clock && Converged(u, end, end.basis)
  {
    var run := [StartDelta(since)] + es;
    var w1 := Next(u, w, StartDelta(since));
    assert run[0] == StartDelta(since) && run[1..] == es;
    StepKeepsNotes(u, w, StartDelta(since));
    assert w1.skipped == {};
    hide Next, NoteInv, RoomOnPage, Allowed, CompletesDelta, WorldInv, Converged;
    AllowedTicks(u, w1, es);
    RoomySkipsNothing(u, w1, es);
    NextDeltaRecovers(u, w, since, es);
  }
}

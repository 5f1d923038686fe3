/** A delta during which nothing is written: the pages it delivers, the replica it leaves, and
    exactly when that replica is the user's notes. */
module SyncQuiescent {
  import opened Wrappers
  import opened Keyset
  import opened Pagination
  import opened TombDelivery
  import opened NotesModel
  import opened SyncModel
  import opened SyncPaging
  import opened SyncRun
  import opened SyncConverge

  function Absorb(r: Replica, pages: seq<SyncResult>): Replica
    decreases |pages|
  {
    if pages == [] then r
    else Absorb(DeliverTombs(DeliverNotes(r, pages[0].notes), pages[0].tombs), pages[1..])
  }

  // ---------- the run and its pages ----------

  function ReadPages(n: nat, limit: nat): seq<Event>
    decreases n
  {
    if n == 0 then [] else [ReadNotes(limit), ReadTombs] + ReadPages(n - 1, limit)
  }

  lemma TwoSteps(u: UserId, w: World, n: nat, limit: nat)
    requires n > 0
    ensures RunWorld(u, w, ReadPages(n, limit))
         == RunWorld(u, Next(u, Next(u, w, ReadNotes(limit)), ReadTombs), ReadPages(n - 1, limit))
  {
    hide Next;
    var es := ReadPages(n, limit);
    assert es[0] == ReadNotes(limit) && es[1..][0] == ReadTombs && es[1..][1..] == ReadPages(n - 1, limit);
  }

  lemma OnePage(u: UserId, w: World, limit: nat)
    requires w.phase.Fetching?
    ensures var w' := Next(u, Next(u, w, ReadNotes(limit)), ReadTombs);
            var page := GetNotesSince(w.db, u, w.phase.since, w.phase.cursor, limit); var next := NextCursor(page);
            && w'.db == w.db
            && w'.replica == DeliverTombs(DeliverNotes(w.replica, page.notes), page.tombs)
            && w'.phase == if next.None? then Idle else Fetching(w.phase.since, next)
  {
    hide NotesHalf, TombsHalf, NextCursor, OvertakenBy, SkippedBy, Before, DeliverNotes, DeliverTombs;
  }

  /** A client that reads as many pages as the traversal has, with nothing written meanwhile,
      absorbs exactly the pages of the traversal and is done. */
  lemma {:induction false} QuiescentRun(u: UserId, w: World, limit: nat)
    requires w.phase.Fetching? && limit >= 1 && PositiveTimes(w.db)
    ensures var pages := Traversal(w.db, u, w.phase.since, w.phase.cursor, limit);
            var end := RunWorld(u, w, ReadPages(|pages|, limit));
            end.phase.Idle? && end.db == w.db && end.replica == Absorb(w.replica, pages)
    decreases Remaining(NoteWindow(w.db, u, w.phase.since), CursorTombs(w.db, u, w.phase.since), CursorKey(w.phase.cursor))
  {
    hide Next, GetNotesSince, NextCursor, DeliverNotes, DeliverTombs, NoteWindow, FetchKeys, NextKey;
    var since, cursor := w.phase.since, w.phase.cursor;
    var N, T := NoteWindow(w.db, u, since), CursorTombs(w.db, u, since);
    WindowsPositive(w.db, u, since);
    assert Windows(N, T, limit);
    CursorOfPage(w.db, u, since, cursor, limit);
    NextAdvances(N, T, CursorKey(cursor), limit);
    var pages := Traversal(w.db, u, since, cursor, limit);
    var page := GetNotesSince(w.db, u, since, cursor, limit);
    var w' := Next(u, Next(u, w, ReadNotes(limit)), ReadTombs);
    OnePage(u, w, limit);
    TwoSteps(u, w, |pages|, limit);
    match NextCursor(page) {
      case None =>
        assert pages == [page] && pages[1..] == [];
      case Some(k) =>
        assert pages[1..] == Traversal(w.db, u, since, Some(k), limit);
        QuiescentRun(u, w', limit);
    }
  }

  // ---------- the replica ----------

  /** All rows of all pages are rows of the store, the notes the user's. */
  ghost predicate PagesOf(u: UserId, db: DB, pages: seq<SyncResult>) {
    forall i | 0 <= i < |pages| ::
      && Current(db, pages[i].notes) && (forall row | row in pages[i].notes :: row.note.user == u)
      && CurrentTombs(db, pages[i].tombs)
  }

  /** What absorbing pages of one store leaves: the delivered notes, what was current, and of
      the rest what no delivered tombstone hides. */
  lemma {:induction false} Absorbed(u: UserId, db: DB, clock: Time, r: Replica, pages: seq<SyncResult>)
    requires Inv(db, clock) && Plausible(u, db, clock, r) && PagesOf(u, db, pages)
    ensures var s := Absorb(r, pages);
            && (forall row | row in RowsOf(pages) :: Has(s, row.id, row.note))
            && (forall id | Owns(db, u, id) && Has(r, id, db.notes[id]) :: Has(s, id, db.notes[id]))
            && (forall id | id in r :: id in s)
            && (forall id | id in r && r[id].Live? && !Owns(db, u, id) ::
                  id in s
                  && (s[id].Live? <==> !exists i | 0 <= i < |pages| :: Hides(db, r, pages[i].tombs, id)))
            && (forall id | id in s && s[id].Live? && !Owns(db, u, id) :: id in r && s[id] == r[id])
    decreases |pages|
  {
    hide Plausible, DeliverNotes, DeliverTombs, Inv;
    if pages == [] {
    } else {
      var p := pages[0];
      var r' := DeliverTombs(DeliverNotes(r, p.notes), p.tombs);
      OneAbsorbed(u, db, clock, r, p.notes, p.tombs);
      assert PagesOf(u, db, pages[1..]);
      Absorbed(u, db, clock, r', pages[1..]);
      forall id | id in r && r[id].Live? && !Owns(db, u, id)
        ensures (exists i | 0 <= i < |pages| :: Hides(db, r, pages[i].tombs, id)) <==>
                Hides(db, r, p.tombs, id) || exists i | 0 <= i < |pages[1..]| :: Hides(db, r, pages[1..][i].tombs, id)
      {
        HiddenFirstOrLater(db, r, pages, id);
      }
      forall id, i | id in r && r[id].Live? && !Owns(db, u, id) && r'[id].Live? && 0 <= i < |pages[1..]|
        ensures Hides(db, r', pages[1..][i].tombs, id) <==> Hides(db, r, pages[1..][i].tombs, id)
      {
        assert r'[id] == r[id];
      }
    }
  }

  lemma HiddenFirstOrLater(db: DB, r: Replica, pages: seq<SyncResult>, id: Id)
    requires pages != []
    ensures (exists i | 0 <= i < |pages| :: Hides(db, r, pages[i].tombs, id)) <==>
            Hides(db, r, pages[0].tombs, id) || exists i | 0 <= i < |pages[1..]| :: Hides(db, r, pages[1..][i].tombs, id)
  {
    if i :| 0 <= i < |pages| && Hides(db, r, pages[i].tombs, id) {
      if i > 0 { assert Hides(db, r, pages[1..][i - 1].tombs, id); }
    }
    if i :| 0 <= i < |pages[1..]| && Hides(db, r, pages[1..][i].tombs, id) {
      assert Hides(db, r, pages[i + 1].tombs, id);
    }
  }

  /** A tombstone of the list is newer than what the replica shows of its note. */
  ghost predicate Hides(db: DB, r: Replica, tombs: seq<TombRow>, id: Id) {
    id in db.tombs && TombRow(id, db.tombs[id]) in tombs && Shows(r, id, db.tombs[id].deletedAt)
  }

  lemma OneAbsorbed(u: UserId, db: DB, clock: Time, r: Replica, notes: seq<NoteRow>, tombs: seq<TombRow>)
    requires Inv(db, clock) && Plausible(u, db, clock, r)
    requires Current(db, notes) && (forall row | row in notes :: row.note.user == u) && CurrentTombs(db, tombs)
    ensures var s := DeliverTombs(DeliverNotes(r, notes), tombs);
            && Plausible(u, db, clock, s)
            && (forall row | row in notes :: Has(s, row.id, row.note))
            && (forall id | Owns(db, u, id) && Has(r, id, db.notes[id]) :: Has(s, id, db.notes[id]))
            && (forall id | id in r :: id in s)
            && (forall id | id in r && !Owns(db, u, id) ::
                  id in s && (s[id].Live? ==> s[id] == r[id]) && (r[id].Live? ==> (s[id].Live? <==> !Hides(db, r, tombs, id))))
            && (forall id | id in s && s[id].Live? && !Owns(db, u, id) :: id in r && s[id] == r[id])
  {
    hide DeliverNotes, DeliverTombs;
    var r1 := DeliverNotes(r, notes);
    NotesFit(u, db, clock, r, notes);
    NotesDelivered(r, notes, db);
    TombsFit(u, db, clock, r1, tombs);
    TombsDelivered(r1, tombs, db);
    var s := DeliverTombs(r1, tombs);
    forall row | row in notes ensures Has(s, row.id, row.note) {
      assert Has(r1, row.id, row.note) && Owns(db, u, row.id);
    }
    forall id | id in r ensures id in s {
      assert Outlives(s, id, At(r1[id]));
    }
    forall id | id in r && !Owns(db, u, id)
      ensures id in s && (s[id].Live? ==> s[id] == r[id]) && (r[id].Live? ==> (s[id].Live? <==> !Hides(db, r, tombs, id)))
    {
      assert r1[id] == r[id];
      assert Outlives(s, id, At(r1[id]));
      if r[id].Live? && !s[id].Live? {
        HiddenByTomb(r1, tombs, id);
      }
    }
  }

  /** A tombstone entry in place of a live one comes from the list. */
  lemma {:induction false} HiddenByTomb(r: Replica, tombs: seq<TombRow>, id: Id)
    requires id in r && id in DeliverTombs(r, tombs) && r[id].Live? && DeliverTombs(r, tombs)[id].Dead?
    ensures exists t :: t in tombs && t.id == id && t.tomb.deletedAt > At(r[id])
    decreases |tombs|
  {
    if tombs == [] {
    } else {
      var t := tombs[0];
      var r' := Deliver(r, t.id, Dead(t.tomb.deletedAt));
      if r'[id] == r[id] {
        HiddenByTomb(r', tombs[1..], id);
        var x :| x in tombs[1..] && x.id == id && x.tomb.deletedAt > At(r[id]);
        assert x in tombs;
      } else {
        assert t in tombs;
      }
    }
  }

  // ---------- convergence ----------

  lemma {:induction false} PagesOfTraversal(db: DB, u: UserId, since: Time, cursor: Option<Key>, limit: nat)
    requires PositiveTimes(db) && limit >= 1 && (cursor.Some? ==> cursor.value.t > 0)
    ensures PagesOf(u, db, Traversal(db, u, Some(since), cursor, limit))
    decreases Remaining(NoteWindow(db, u, Some(since)), CursorTombs(db, u, Some(since)), CursorKey(cursor))
  {
    hide NextCursor, NoteWindow, NotesHalf, TombsHalf, FetchKeys, NextKey, NoteKeys, TombKeys;
    var N, T := NoteWindow(db, u, Some(since)), CursorTombs(db, u, Some(since));
    WindowsPositive(db, u, Some(since));
    assert Windows(N, T, limit);
    CursorOfPage(db, u, Some(since), cursor, limit);
    NextAdvances(N, T, CursorKey(cursor), limit);
    NotesHalfRows(db, u, Some(since), cursor, limit);
    TombsHalfRows(db, u, since, cursor, limit);
    var page := GetNotesSince(db, u, Some(since), cursor, limit);
    var pages := Traversal(db, u, Some(since), cursor, limit);
    match NextCursor(page) {
      case None => assert pages == [page];
      case Some(k) =>
        PagesOfTraversal(db, u, since, Some(k), limit);
        assert pages == [page] + Traversal(db, u, Some(since), Some(k), limit);
    }
  }

  /** Some page of the delta skips the tombstone of a note the replica shows. */
  ghost predicate SkipsShown(db: DB, u: UserId, since: Time, limit: nat, r: Replica)
    requires PositiveTimes(db) && limit >= 1
  {
    exists t | t in TombsSince(db, u, Some(since)) ::
      && Shows(r, t.id, t.tomb.deletedAt) && !Owns(db, u, t.id)
      && Skipped(Traverse(NoteWindow(db, u, Some(since)), TombWindow(db, u, Some(since)), Key(0, 0), limit), TombKey(t))
  }

  /** The exact condition. A client in sync up to `basis`, whose delta from no later than
      that meets no writes, ends with exactly the user's notes iff no page skips the
      tombstone of a note it still shows. */
  lemma QuiescentIff(u: UserId, db: DB, clock: Time, basis: Time, r: Replica, since: Time, limit: nat)
    requires Inv(db, clock) && Plausible(u, db, clock, r) && Buried(u, db, basis, r) && CoversTime(u, db, r, basis)
    requires since <= basis && limit >= 1
    ensures PositiveTimes(db)
    ensures LiveNotes(Absorb(r, Traversal(db, u, Some(since), None, limit))) == UserNotes(db, u) <==>
            !SkipsShown(db, u, since, limit, r)
  {
    hide Plausible, Traversal, Traverse, Absorb, OrderBy, NoteWindow;
    InvPositive(db, clock);
    WindowsPositive(db, u, Some(since));
    var pages := Traversal(db, u, Some(since), None, limit);
    var s := Absorb(r, pages);
    PagesOfTraversal(db, u, since, None, limit);
    Absorbed(u, db, clock, r, pages);
    AllNotesThere(u, db, basis, r, since, limit, s);
    forall id | id in r && r[id].Live? && !Owns(db, u, id)
      ensures id in db.tombs && TombRow(id, db.tombs[id]) in TombsSince(db, u, Some(since)) && Shows(r, id, db.tombs[id].deletedAt)
      ensures id in s && (s[id].Live? <==>
                Skipped(Traverse(NoteWindow(db, u, Some(since)), TombWindow(db, u, Some(since)), Key(0, 0), limit), TombKey(TombRow(id, db.tombs[id]))))
    {
      var t := TombRow(id, db.tombs[id]);
      TombOmittedIff(db, u, since, limit, t);
      assert TombDelivered(pages, t) <==> exists i | 0 <= i < |pages| :: Hides(db, r, pages[i].tombs, id) by {
        DeliveredHides(db, r, pages, id);
      }
    }
    ExactReplica(u, db, s);
    if SkipsShown(db, u, since, limit, r) {
      var t :| && t in TombsSince(db, u, Some(since)) && Shows(r, t.id, t.tomb.deletedAt) && !Owns(db, u, t.id)
               && Skipped(Traverse(NoteWindow(db, u, Some(since)), TombWindow(db, u, Some(since)), Key(0, 0), limit), TombKey(t));
      assert t == TombRow(t.id, db.tombs[t.id]);
      assert s[t.id].Live?;
    }
  }

  lemma DeliveredHides(db: DB, r: Replica, pages: seq<SyncResult>, id: Id)
    requires id in db.tombs && Shows(r, id, db.tombs[id].deletedAt)
    ensures TombDelivered(pages, TombRow(id, db.tombs[id])) <==> exists i | 0 <= i < |pages| :: Hides(db, r, pages[i].tombs, id)
  {
    if i :| 0 <= i < |pages| && TombRow(id, db.tombs[id]) in pages[i].tombs {
      assert Hides(db, r, pages[i].tombs, id);
    }
  }

  lemma AllNotesThere(u: UserId, db: DB, basis: Time, r: Replica, since: Time, limit: nat, s: Replica)
    requires PositiveTimes(db) && limit >= 1 && since <= basis && CoversTime(u, db, r, basis)
    requires forall row | row in RowsOf(Traversal(db, u, Some(since), None, limit)) :: Has(s, row.id, row.note)
    requires forall id | Owns(db, u, id) && Has(r, id, db.notes[id]) :: Has(s, id, db.notes[id])
    ensures forall id | Owns(db, u, id) :: Has(s, id, db.notes[id])
  {
    hide Traversal, OrderBy, NoteWindow;
    PagedRefinesUnpaged(db, u, Some(since), limit);
    forall id | Owns(db, u, id) ensures Has(s, id, db.notes[id]) {
      if db.notes[id].updatedAt <= since {
        assert Owns(db, u, id) && db.notes[id].updatedAt <= basis;
      } else {
        assert NoteRow(id, db.notes[id]) in NotesSince(db, u, Some(since));
      }
    }
  }

  /** A replica that has every note is the user's notes iff it shows no other. */
  lemma ExactReplica(u: UserId, db: DB, s: Replica)
    requires forall id | Owns(db, u, id) :: Has(s, id, db.notes[id])
    ensures LiveNotes(s) == UserNotes(db, u) <==> forall id | id in s && s[id].Live? :: Owns(db, u, id)
  {
    if LiveNotes(s) == UserNotes(db, u) {
      forall id | id in s && s[id].Live? ensures Owns(db, u, id) {
        assert id in LiveNotes(s) && id in UserNotes(db, u);
      }
    }
    if forall id | id in s && s[id].Live? :: Owns(db, u, id) {
      assert forall id :: id in LiveNotes(s) <==> id in UserNotes(db, u);
      assert forall id | id in LiveNotes(s) :: LiveNotes(s)[id] == UserNotes(db, u)[id];
    }
  }

  /** The same, told of a run from the tables: after a delta that meets no writes the client
      has exactly the user's notes iff no page skips a note it shows; in particular when
      every page of notes has room for the tombstones it spans. */
  lemma QuiescentConverges(u: UserId, w: World, since: Time, limit: nat)
    requires WorldInv(u, w) && w.phase.Idle? && since <= w.basis && limit >= 1
    ensures PositiveTimes(w.db)
    ensures var n := |Traversal(w.db, u, Some(since), None, limit)|;
            var end := RunWorld(u, w, [StartDelta(since)] + ReadPages(n, limit));
            var N, T := NoteWindow(w.db, u, Some(since)), TombWindow(w.db, u, Some(since));
            && end.phase.Idle? && end.db == w.db
            && (LiveNotes(end.replica) == UserNotes(w.db, u) <==> !SkipsShown(w.db, u, since, limit, w.replica))
            && Windows(N, T, limit)
            && (Room(N, T, Key(0, 0), limit) ==> LiveNotes(end.replica) == UserNotes(w.db, u))
  {
    hide Traversal, Traverse, Absorb, OrderBy, NoteWindow, TombWindow, Plausible, Buried, CoversTime, Room, Skipped, DeliverNotes;
    InvPositive(w.db, w.clock);
    WindowsPositive(w.db, u, Some(since));
    var w1 := Next(u, w, StartDelta(since));
    var n := |Traversal(w.db, u, Some(since), None, limit)|;
    var es := [StartDelta(since)] + ReadPages(n, limit);
    assert es[0] == StartDelta(since) && es[1..] == ReadPages(n, limit);
    QuiescentRun(u, w1, limit);
    QuiescentIff(u, w.db, w.clock, w.basis, w.replica, since, limit);
    DeliveryCompleteIff(w.db, u, since, limit);
    if SkipsShown(w.db, u, since, limit, w.replica) {
      var t :| && t in TombsSince(w.db, u, Some(since)) && Shows(w.replica, t.id, t.tomb.deletedAt)
               && Skipped(Traverse(NoteWindow(w.db, u, Some(since)), TombWindow(w.db, u, Some(since)), Key(0, 0), limit), TombKey(t));
      TombOmittedIff(w.db, u, since, limit, t);
    }
  }
}

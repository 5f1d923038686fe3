/** The repository over the two tables, updated in place. Every method is one statement or
    one transaction; the instant of a write is a parameter. */
module NotesRepo {
  import opened Wrappers
  import opened Keyset
  import opened NotesModel
  import opened SyncModel
  import opened SyncPaging
  import opened ServiceModel

  // ---------- pages ----------

  /** A page of the rows s: at most n of those beyond the cursor, in strictly ascending key
      order; it leaves one out only when it is full and the row comes after all of it. */
  ghost predicate IsNotesPage(rows: seq<NoteRow>, s: set<NoteRow>, c: Key, n: nat) {
    && |rows| <= n && Sorted(NoteKeys(rows))
    && (forall r | r in rows :: r in s && Beyond(c, NoteKey(r)))
    && (forall r | r in s && Beyond(c, NoteKey(r)) && r !in rows ::
          |rows| == n && forall q | q in rows :: Lt(NoteKey(q), NoteKey(r)))
  }

  ghost predicate IsTombsPage(rows: seq<TombRow>, s: set<TombRow>, c: Key, n: nat) {
    && |rows| <= n && Sorted(TombKeys(rows))
    && (forall r | r in rows :: r in s && Beyond(c, TombKey(r)))
    && (forall r | r in s && Beyond(c, TombKey(r)) && r !in rows ::
          |rows| == n && forall q | q in rows :: Lt(TombKey(q), TombKey(r)))
  }

  predicate Beyond(c: Key, k: Key) {
    c.t == 0 || k.t > c.t || (k.t == c.t && k.id > c.id)
  }

  /** There is exactly one such page, and it is the one the sync functions are about. */
  lemma NotesPageIff(db: DB, u: UserId, since: Option<Time>, c: Key, n: nat, rows: seq<NoteRow>)
    ensures IsNotesPage(rows, NotesSince(db, u, since), c, n) <==> rows == NotesPage(db, u, since, c, n)
  {
    if rows == NotesPage(db, u, since, c, n) {
      NotesPageIsPage(db, u, since, c, n);
    }
    if IsNotesPage(rows, NotesSince(db, u, since), c, n) {
      NotesPageUnique(db, u, since, c, n, rows);
    }
  }

  lemma NoteRowOfKey(db: DB, ks: seq<Key>, k: Key)
    requires k in ks && forall j | j in ks :: j.id in db.notes
    ensures NoteRow(k.id, db.notes[k.id]) in NoteRows(db, ks)
  {
    var i :| 0 <= i < |ks| && ks[i] == k;
    assert NoteRows(db, ks)[i] == NoteRow(k.id, db.notes[k.id]);
  }

  lemma NotesPageIsPage(db: DB, u: UserId, since: Option<Time>, c: Key, n: nat)
    ensures IsNotesPage(NotesPage(db, u, since, c, n), NotesSince(db, u, since), c, n)
  {
    hide NoteWindow, Page, OrderBy, NoteKeys;
    var w := NoteWindow(db, u, since);
    PageCut(w, c, n);
    var ks := Page(w, c, n);
    var rows := NoteRows(db, ks);
    KeysOfNoteRows(db, u, since, ks);
    forall r | r in rows ensures r in NotesSince(db, u, since) && Beyond(c, NoteKey(r)) && NoteKey(r) in ks {
      var i :| 0 <= i < |rows| && rows[i] == r;
      assert ks[i] in ks;
      InNoteWindow(db, u, since, ks[i]);
    }
    forall r | r in NotesSince(db, u, since) && Beyond(c, NoteKey(r)) && r !in rows
      ensures |rows| == n && forall q | q in rows :: Lt(NoteKey(q), NoteKey(r))
    {
      InNoteWindow(db, u, since, NoteKey(r));
      if NoteKey(r) in ks { NoteRowOfKey(db, ks, NoteKey(r)); }
      MissedComesAfter(w, c, n, NoteKey(r));
    }
  }

  lemma NoteKeyOfRow(rows: seq<NoteRow>, r: NoteRow)
    requires r in rows
    ensures NoteKey(r) in NoteKeys(rows)
  {
    var i :| 0 <= i < |rows| && rows[i] == r;
    assert NoteKeys(rows)[i] == NoteKey(r);
  }

  lemma NotesPageUnique(db: DB, u: UserId, since: Option<Time>, c: Key, n: nat, rows: seq<NoteRow>)
    requires IsNotesPage(rows, NotesSince(db, u, since), c, n)
    ensures rows == NotesPage(db, u, since, c, n)
  {
    hide NoteWindow, Page, OrderBy;
    var w := NoteWindow(db, u, since);
    var ks := NoteKeys(rows);
    forall k | k in ks ensures k in After(w, c) {
      var i :| 0 <= i < |ks| && ks[i] == k;
      assert rows[i] in rows;
      InNoteWindow(db, u, since, k);
    }
    forall k | k in After(w, c) && k !in ks ensures |ks| == n && forall j | j in ks :: Lt(j, k) {
      InNoteWindow(db, u, since, k);
      var r := NoteRow(k.id, db.notes[k.id]);
      if r in rows { NoteKeyOfRow(rows, r); }
      forall j | j in ks ensures Lt(j, k) {
        var i :| 0 <= i < |ks| && ks[i] == j;
        assert rows[i] in rows;
      }
    }
    PageUnique(w, c, n, ks);
    PageCut(w, c, n);
    forall i | 0 <= i < |rows| ensures rows[i] == NoteRow(ks[i].id, db.notes[ks[i].id]) {
      assert rows[i] in rows;
    }
    assert rows == NoteRows(db, ks);
  }

  lemma TombsPageIff(db: DB, u: UserId, since: Option<Time>, c: Key, n: nat, rows: seq<TombRow>)
    ensures IsTombsPage(rows, TombsSince(db, u, since), c, n) <==> rows == TombsPage(db, u, since, c, n)
  {
    if rows == TombsPage(db, u, since, c, n) {
      TombsPageIsPage(db, u, since, c, n);
    }
    if IsTombsPage(rows, TombsSince(db, u, since), c, n) {
      TombsPageUnique(db, u, since, c, n, rows);
    }
  }

  lemma TombRowOfKey(db: DB, ks: seq<Key>, k: Key)
    requires k in ks && forall j | j in ks :: j.id in db.tombs
    ensures TombRow(k.id, db.tombs[k.id]) in TombRows(db, ks)
  {
    var i :| 0 <= i < |ks| && ks[i] == k;
    assert TombRows(db, ks)[i] == TombRow(k.id, db.tombs[k.id]);
  }

  lemma TombsPageIsPage(db: DB, u: UserId, since: Option<Time>, c: Key, n: nat)
    ensures IsTombsPage(TombsPage(db, u, since, c, n), TombsSince(db, u, since), c, n)
  {
    hide TombWindow, Page, OrderBy, TombKeys;
    var w := TombWindow(db, u, since);
    PageCut(w, c, n);
    var ks := Page(w, c, n);
    var rows := TombRows(db, ks);
    KeysOfTombRows(db, u, since, ks);
    forall r | r in rows ensures r in TombsSince(db, u, since) && Beyond(c, TombKey(r)) && TombKey(r) in ks {
      var i :| 0 <= i < |rows| && rows[i] == r;
      assert ks[i] in ks;
      InTombWindow(db, u, since, ks[i]);
    }
    forall r | r in TombsSince(db, u, since) && Beyond(c, TombKey(r)) && r !in rows
      ensures |rows| == n && forall q | q in rows :: Lt(TombKey(q), TombKey(r))
    {
      InTombWindow(db, u, since, TombKey(r));
      if TombKey(r) in ks { TombRowOfKey(db, ks, TombKey(r)); }
      MissedComesAfter(w, c, n, TombKey(r));
    }
  }

  lemma TombKeyOfRow(rows: seq<TombRow>, r: TombRow)
    requires r in rows
    ensures TombKey(r) in TombKeys(rows)
  {
    var i :| 0 <= i < |rows| && rows[i] == r;
    assert TombKeys(rows)[i] == TombKey(r);
  }

  lemma TombsPageUnique(db: DB, u: UserId, since: Option<Time>, c: Key, n: nat, rows: seq<TombRow>)
    requires IsTombsPage(rows, TombsSince(db, u, since), c, n)
    ensures rows == TombsPage(db, u, since, c, n)
  {
    hide TombWindow, Page, OrderBy;
    var w := TombWindow(db, u, since);
    var ks := TombKeys(rows);
    forall k | k in ks ensures k in After(w, c) {
      var i :| 0 <= i < |ks| && ks[i] == k;
      assert rows[i] in rows;
      InTombWindow(db, u, since, k);
    }
    forall k | k in After(w, c) && k !in ks ensures |ks| == n && forall j | j in ks :: Lt(j, k) {
      InTombWindow(db, u, since, k);
      var r := TombRow(k.id, db.tombs[k.id]);
      if r in rows { TombKeyOfRow(rows, r); }
      forall j | j in ks ensures Lt(j, k) {
        var i :| 0 <= i < |ks| && ks[i] == j;
        assert rows[i] in rows;
      }
    }
    PageUnique(w, c, n, ks);
    PageCut(w, c, n);
    forall i | 0 <= i < |rows| ensures rows[i] == TombRow(ks[i].id, db.tombs[ks[i].id]) {
      assert rows[i] in rows;
    }
    assert rows == TombRows(db, ks);
  }

  /** A row beyond the cursor that is not on the page comes after it, and the page is full. */
  lemma MissedComesAfter(w: set<Key>, c: Key, n: nat, k: Key)
    requires k in After(w, c) && k !in Page(w, c, n)
    ensures |Page(w, c, n)| == n && forall j | j in Page(w, c, n) :: Lt(j, k)
  {
    hide Page, OrderBy, After;
    PageCut(w, c, n);
    var p := Page(w, c, n);
    forall j | j in p ensures Lt(j, k) {
      var i :| 0 <= i < |p| && p[i] == j;
      assert j == p[|p| - 1] || Lt(j, p[|p| - 1]);
    }
  }

  lemma RemovedSize(m: map<Id, Tomb>, gone: set<Id>)
    requires gone <= m.Keys
    ensures |gone| + |m - gone| == |m|
  {
    assert |m| == |m.Keys| && |m - gone| == |(m - gone).Keys|;
    assert (m - gone).Keys == m.Keys - gone;
  }

  class NotesRepository {
    var notes: map<Id, Note>
    var tombs: map<Id, Tomb>

    function Db(): DB
      reads this
    {
      DB(notes, tombs)
    }

    constructor ()
      ensures Db() == EMPTY_DB
    {
      notes, tombs := map[], map[];
    }

    method FindAll(u: UserId) returns (rows: seq<NoteRow>)
      ensures ListsNotes(rows, NotesSince(Db(), u, None))
    {
      NotesListed(Db(), u, None);
      rows := NoteRows(Db(), OrderBy(NoteWindow(Db(), u, None)));
    }

    method FindAllPaginated(u: UserId, limit: nat, afterUpdatedAt: Time, afterNoteID: Id) returns (rows: seq<NoteRow>)
      ensures IsNotesPage(rows, NotesSince(Db(), u, None), Key(afterUpdatedAt, afterNoteID), limit)
    {
      NotesPageIsPage(Db(), u, None, Key(afterUpdatedAt, afterNoteID), limit);
      rows := NotesPage(Db(), u, None, Key(afterUpdatedAt, afterNoteID), limit);
    }

    method FindUpdatedSince(u: UserId, since: Time) returns (rows: seq<NoteRow>)
      ensures ListsNotes(rows, NotesSince(Db(), u, Some(since)))
    {
      NotesListed(Db(), u, Some(since));
      rows := NoteRows(Db(), OrderBy(NoteWindow(Db(), u, Some(since))));
    }

    method FindUpdatedSincePaginated(u: UserId, since: Time, limit: nat, afterUpdatedAt: Time, afterNoteID: Id)
      returns (rows: seq<NoteRow>)
      ensures IsNotesPage(rows, NotesSince(Db(), u, Some(since)), Key(afterUpdatedAt, afterNoteID), limit)
    {
      NotesPageIsPage(Db(), u, Some(since), Key(afterUpdatedAt, afterNoteID), limit);
      rows := NotesPage(Db(), u, Some(since), Key(afterUpdatedAt, afterNoteID), limit);
    }

    method FindByID(id: Id, u: UserId) returns (row: Option<NoteRow>)
      ensures row == ServiceModel.FindByID(Db(), u, id)
    {
      if id in notes && notes[id].user == u {
        row := Some(NoteRow(id, notes[id]));
      } else {
        row := None;
      }
    }

    method Upsert(id: Id, u: UserId, payload: Payload, now: Time) returns (outcome: Outcome)
      modifies this`notes
      ensures Step(Db(), outcome) == UpsertRow(old(Db()), u, id, payload, now)
      ensures outcome == if id in old(notes) && old(notes)[id].user != u then NotFound else Done
      ensures outcome.NotFound? ==> notes == old(notes)
      ensures outcome.Done? && id !in old(notes) ==> notes == old(notes)[id := Note(u, payload, now, now, None)]
      ensures outcome.Done? && id in old(notes) ==>
                var n := old(notes)[id]; notes == old(notes)[id := Note(u, payload, n.createdAt, now, n.trashedAt)]
    {
      var rowsAffected := 1;
      if id !in notes {
        notes := notes[id := Note(u, payload, now, now, None)];
      } else if notes[id].user == u {
        notes := notes[id := notes[id].(payload := payload, updatedAt := now)];
      } else {
        rowsAffected := 0;
      }
      outcome := if rowsAffected == 0 then NotFound else Done;
    }

    method Trash(id: Id, u: UserId, now: Time) returns (outcome: Outcome)
      modifies this`notes
      ensures Step(Db(), outcome) == Apply(old(Db()), Op.Trash(u, id), now)
      ensures outcome == if id in old(notes) && old(notes)[id].user == u then Done else NotFound
      ensures outcome.NotFound? ==> notes == old(notes)
      ensures outcome.Done? ==>
                var n := old(notes)[id]; notes == old(notes)[id := Note(u, n.payload, n.createdAt, now, Some(now))]
    {
      if id in notes && notes[id].user == u {
        notes := notes[id := notes[id].(trashedAt := Some(now), updatedAt := now)];
        return Done;
      }
      return NotFound;
    }

    method Restore(id: Id, u: UserId, now: Time) returns (outcome: Outcome)
      modifies this`notes
      ensures Step(Db(), outcome) == Apply(old(Db()), Op.Restore(u, id), now)
      ensures outcome == if id in old(notes) && old(notes)[id].user == u then Done else NotFound
      ensures outcome.NotFound? ==> notes == old(notes)
      ensures outcome.Done? ==>
                var n := old(notes)[id]; notes == old(notes)[id := Note(u, n.payload, n.createdAt, now, None)]
    {
      if id in notes && notes[id].user == u {
        notes := notes[id := notes[id].(trashedAt := None, updatedAt := now)];
        return Done;
      }
      return NotFound;
    }

    /** Delete, then insert the tombstone; a duplicate key rolls the deletion back. */
    method Purge(id: Id, u: UserId, now: Time) returns (outcome: Outcome)
      modifies this
      ensures Step(Db(), outcome) == Apply(old(Db()), Op.Purge(u, id), now)
    {
      var before := notes;
      if id !in notes || notes[id].user != u {
        return NotFound;
      }
      notes := notes - {id};
      if id in tombs {
        notes := before;
        return DuplicateTombstone;
      }
      tombs := tombs[id := Tomb(u, now)];
      return Done;
    }

    method CountLiveNotes(u: UserId) returns (count: nat)
      ensures count == CountLive(Db(), u)
    {
      var live := set id | id in notes && notes[id].user == u && notes[id].trashedAt.None?;
      count := |live|;
      assert live == LiveIds(Db(), u);
    }

    method FindTombstonesSince(u: UserId, since: Time) returns (rows: seq<TombRow>)
      ensures ListsTombs(rows, TombsSince(Db(), u, Some(since)))
    {
      TombsListed(Db(), u, Some(since));
      rows := TombRows(Db(), OrderBy(TombWindow(Db(), u, Some(since))));
    }

    method FindTombstonesSincePaginated(u: UserId, since: Time, limit: nat, afterDeletedAt: Time, afterNoteID: Id)
      returns (rows: seq<TombRow>)
      ensures IsTombsPage(rows, TombsSince(Db(), u, Some(since)), Key(afterDeletedAt, afterNoteID), limit)
    {
      TombsPageIsPage(Db(), u, Some(since), Key(afterDeletedAt, afterNoteID), limit);
      rows := TombsPage(Db(), u, Some(since), Key(afterDeletedAt, afterNoteID), limit);
    }

    method FindAllTombstones(u: UserId) returns (rows: seq<TombRow>)
      ensures rows == AllTombs(Db(), u)
      ensures ListsTombs(rows, TombsSince(Db(), u, None))
    {
      TombsListed(Db(), u, None);
      rows := AllTombs(Db(), u);
    }

    method PurgeExpiredTombstones(olderThan: Time) returns (count: nat)
      modifies this`tombs
      ensures Db() == Apply(old(Db()), Expire(olderThan), 0).db
      ensures forall id :: id in tombs <==> id in old(tombs) && old(tombs)[id].deletedAt >= olderThan
      ensures forall id | id in tombs :: tombs[id] == old(tombs)[id]
      ensures count + |tombs| == |old(tombs)|
    {
      var expired := set id | id in tombs && tombs[id].deletedAt < olderThan;
      count := |expired|;
      RemovedSize(tombs, expired);
      tombs := tombs - expired;
      assert tombs == Unexpired(old(tombs), olderThan);
    }
  }
}

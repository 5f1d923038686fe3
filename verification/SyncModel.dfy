/** The sync queries: keyset pages of notes and tombstones, the two halves of
    GetNotesSince, and the next cursor built by the handler. */
module SyncModel {
  import opened Wrappers
  import opened Keyset
  import opened NotesModel

  datatype NoteRow = NoteRow(id: Id, note: Note)

  datatype TombRow = TombRow(id: Id, tomb: Tomb)

  function NoteKey(r: NoteRow): Key { Key(r.note.updatedAt, r.id) }

  function TombKey(r: TombRow): Key { Key(r.tomb.deletedAt, r.id) }

  // ---------- the unpaged queries ----------

  function NotesSince(db: DB, u: UserId, since: Option<Time>): set<NoteRow> {
    set id | id in db.notes && db.notes[id].user == u && (since.Some? ==> db.notes[id].updatedAt > since.value)
      :: NoteRow(id, db.notes[id])
  }

  function TombsSince(db: DB, u: UserId, since: Option<Time>): set<TombRow> {
    set id | id in db.tombs && db.tombs[id].user == u && (since.Some? ==> db.tombs[id].deletedAt > since.value)
      :: TombRow(id, db.tombs[id])
  }

  // ---------- the paged queries ----------

  function NoteWindow(db: DB, u: UserId, since: Option<Time>): (w: set<Key>)
    ensures forall k | k in w :: k.id in db.notes
  {
    set id | id in db.notes && db.notes[id].user == u && (since.Some? ==> db.notes[id].updatedAt > since.value)
      :: Key(db.notes[id].updatedAt, id)
  }

  function TombWindow(db: DB, u: UserId, since: Option<Time>): (w: set<Key>)
    ensures forall k | k in w :: k.id in db.tombs
  {
    set id | id in db.tombs && db.tombs[id].user == u && (since.Some? ==> db.tombs[id].deletedAt > since.value)
      :: Key(db.tombs[id].deletedAt, id)
  }

  function NoteRows(db: DB, ks: seq<Key>): (rows: seq<NoteRow>)
    requires forall k | k in ks :: k.id in db.notes
    ensures |rows| == |ks|
  {
    seq(|ks|, i requires 0 <= i < |ks| => NoteRow(ks[i].id, db.notes[ks[i].id]))
  }

  function TombRows(db: DB, ks: seq<Key>): (rows: seq<TombRow>)
    requires forall k | k in ks :: k.id in db.tombs
    ensures |rows| == |ks|
  {
    seq(|ks|, i requires 0 <= i < |ks| => TombRow(ks[i].id, db.tombs[ks[i].id]))
  }

  function NotesPage(db: DB, u: UserId, since: Option<Time>, c: Key, n: nat): seq<NoteRow> {
    PageCut(NoteWindow(db, u, since), c, n);
    NoteRows(db, Page(NoteWindow(db, u, since), c, n))
  }

  function TombsPage(db: DB, u: UserId, since: Option<Time>, c: Key, n: nat): seq<TombRow> {
    PageCut(TombWindow(db, u, since), c, n);
    TombRows(db, Page(TombWindow(db, u, since), c, n))
  }

  function AllTombs(db: DB, u: UserId): seq<TombRow> {
    OrderBySorts(TombWindow(db, u, None));
    TombRows(db, OrderBy(TombWindow(db, u, None)))
  }

  // ---------- GetNotesSince ----------

  datatype SyncResult = SyncResult(notes: seq<NoteRow>, tombs: seq<TombRow>, hasMore: bool)

  function CursorKey(cursor: Option<Key>): Key {
    match cursor case None => Key(0, 0) case Some(k) => k
  }

  /** The first repository call of GetNotesSince, with its limit+1 probe. */
  function NotesHalf(db: DB, u: UserId, since: Option<Time>, cursor: Option<Key>, limit: nat): (seq<NoteRow>, bool) {
    var rows := NotesPage(db, u, since, CursorKey(cursor), limit + 1);
    if |rows| > limit then (rows[..limit], true) else (rows, false)
  }

  /** The second repository call: a page of tombstones in a delta sync, all of them on the
      first page of a full sync, none on its later pages. */
  function TombsHalf(db: DB, u: UserId, since: Option<Time>, cursor: Option<Key>, limit: nat): (seq<TombRow>, bool) {
    if since.Some? then
      var rows := TombsPage(db, u, since, CursorKey(cursor), limit + 1);
      if |rows| > limit then (rows[..limit], true) else (rows, false)
    else if cursor.None? then (AllTombs(db, u), false)
    else ([], false)
  }

  function GetNotesSince(db: DB, u: UserId, since: Option<Time>, cursor: Option<Key>, limit: nat): SyncResult {
    var (notes, moreNotes) := NotesHalf(db, u, since, cursor, limit);
    var (tombs, moreTombs) := TombsHalf(db, u, since, cursor, limit);
    SyncResult(notes, tombs, moreNotes || moreTombs)
  }

  /** The cursor of the next page: the last note, else the last tombstone. */
  function NextCursor(res: SyncResult): Option<Key> {
    if !res.hasMore then None
    else if res.notes != [] then Some(NoteKey(res.notes[|res.notes| - 1]))
    else if res.tombs != [] then Some(TombKey(res.tombs[|res.tombs| - 1]))
    else None
  }

  // ---------- rows and keys ----------

  function NoteKeys(rows: seq<NoteRow>): (ks: seq<Key>)
    ensures |ks| == |rows|
  {
    seq(|rows|, i requires 0 <= i < |rows| => NoteKey(rows[i]))
  }

  function TombKeys(rows: seq<TombRow>): (ks: seq<Key>)
    ensures |ks| == |rows|
  {
    seq(|rows|, i requires 0 <= i < |rows| => TombKey(rows[i]))
  }

  lemma InNoteWindow(db: DB, u: UserId, since: Option<Time>, k: Key)
    ensures k in NoteWindow(db, u, since) <==>
      && k.id in db.notes && db.notes[k.id].user == u && db.notes[k.id].updatedAt == k.t
      && (since.Some? ==> k.t > since.value)
  {
  }

  lemma InTombWindow(db: DB, u: UserId, since: Option<Time>, k: Key)
    ensures k in TombWindow(db, u, since) <==>
      && k.id in db.tombs && db.tombs[k.id].user == u && db.tombs[k.id].deletedAt == k.t
      && (since.Some? ==> k.t > since.value)
  {
  }
}

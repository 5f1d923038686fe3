/** Full and delta traversals of a quiescent store, page by page, against the unpaged
    queries on the same store. */
module SyncPaging {
  import opened Wrappers
  import opened Keyset
  import opened Pagination
  import opened TombDelivery
  import opened NotesModel
  import opened SyncModel

  // ---------- rows of a page and their keys ----------

  lemma KeysOfNoteRows(db: DB, u: UserId, since: Option<Time>, ks: seq<Key>)
    requires forall k | k in ks :: k in NoteWindow(db, u, since)
    requires forall k | k in ks :: k.id in db.notes
    ensures NoteKeys(NoteRows(db, ks)) == ks
  {
    forall i | 0 <= i < |ks| ensures NoteKeys(NoteRows(db, ks))[i] == ks[i] {
      assert ks[i] in ks;
      InNoteWindow(db, u, since, ks[i]);
    }
  }

  lemma KeysOfTombRows(db: DB, u: UserId, since: Option<Time>, ks: seq<Key>)
    requires forall k | k in ks :: k in TombWindow(db, u, since)
    requires forall k | k in ks :: k.id in db.tombs
    ensures TombKeys(TombRows(db, ks)) == ks
  {
    forall i | 0 <= i < |ks| ensures TombKeys(TombRows(db, ks))[i] == ks[i] {
      assert ks[i] in ks;
      InTombWindow(db, u, since, ks[i]);
    }
  }

  lemma CutRows(db: DB, ns: seq<Key>, ts: seq<Key>, n: nat)
    requires forall k | k in ns :: k.id in db.notes
    requires forall k | k in ts :: k.id in db.tombs
    ensures |ns| > n ==> (forall k | k in ns[..n] :: k in ns) && NoteRows(db, ns)[..n] == NoteRows(db, ns[..n])
    ensures |ts| > n ==> (forall k | k in ts[..n] :: k in ts) && TombRows(db, ts)[..n] == TombRows(db, ts[..n])
  {
  }

  /** The rows of the note half are the rows of one key page. */
  lemma NotesHalfPage(db: DB, u: UserId, since: Option<Time>, cursor: Option<Key>, limit: nat)
    ensures var w := NoteWindow(db, u, since); var c := CursorKey(cursor);
            var (rows, more) := NotesHalf(db, u, since, cursor, limit);
            && (forall k | k in Page(w, c, limit) :: k in w)
            && rows == NoteRows(db, Page(w, c, limit))
            && NoteKeys(rows) == Page(w, c, limit)
            && (more <==> |After(w, c)| > limit)
  {
    hide NoteWindow, NoteRows, NoteKeys, Page, After, OrderBy;
    var w := NoteWindow(db, u, since);
    var c := CursorKey(cursor);
    PageCut(w, c, limit);
    PageCut(w, c, limit + 1);
    ProbeIsPage(w, c, limit);
    KeysOfNoteRows(db, u, since, Page(w, c, limit));
    CutRows(db, Page(w, c, limit + 1), [], limit);
  }

  lemma TombsHalfPage(db: DB, u: UserId, since: Time, cursor: Option<Key>, limit: nat)
    ensures var w := TombWindow(db, u, Some(since)); var c := CursorKey(cursor);
            var (rows, more) := TombsHalf(db, u, Some(since), cursor, limit);
            && (forall k | k in Page(w, c, limit) :: k in w)
            && rows == TombRows(db, Page(w, c, limit))
            && TombKeys(rows) == Page(w, c, limit)
            && (more <==> |After(w, c)| > limit)
  {
    hide TombWindow, TombRows, TombKeys, Page, After, OrderBy;
    var w := TombWindow(db, u, Some(since));
    var c := CursorKey(cursor);
    PageCut(w, c, limit);
    PageCut(w, c, limit + 1);
    ProbeIsPage(w, c, limit);
    KeysOfTombRows(db, u, Some(since), Page(w, c, limit));
    CutRows(db, [], Page(w, c, limit + 1), limit);
  }

  /** No stored timestamp is the zero time, so a cursor never equals "no cursor". */
  ghost predicate PositiveTimes(db: DB) {
    && (forall id | id in db.notes :: db.notes[id].updatedAt > 0)
    && (forall id | id in db.tombs :: db.tombs[id].deletedAt > 0)
  }

  lemma InvPositive(db: DB, clock: Time)
    requires Inv(db, clock)
    ensures PositiveTimes(db)
  {
  }

  lemma WindowsPositive(db: DB, u: UserId, since: Option<Time>)
    requires PositiveTimes(db)
    ensures Positive(NoteWindow(db, u, since)) && Positive(TombWindow(db, u, since))
  {
  }

  /** The tombstone stream that drives the cursor: none in a full sync. */
  function CursorTombs(db: DB, u: UserId, since: Option<Time>): set<Key> {
    if since.Some? then TombWindow(db, u, since) else {}
  }

  /** The cursor built by the handler is the cursor of the key page. */
  lemma CursorOfPage(db: DB, u: UserId, since: Option<Time>, cursor: Option<Key>, limit: nat)
    requires limit >= 1
    ensures var p := FetchKeys(NoteWindow(db, u, since), CursorTombs(db, u, since), CursorKey(cursor), limit);
            var res := GetNotesSince(db, u, since, cursor, limit);
            && NoteKeys(res.notes) == p.notes
            && (since.Some? ==> TombKeys(res.tombs) == p.tombs)
            && (res.hasMore <==> p.moreNotes || p.moreTombs)
            && NextCursor(res) == NextKey(p)
  {
    NotesHalfPage(db, u, since, cursor, limit);
    var res := GetNotesSince(db, u, since, cursor, limit);
    LastNoteKey(res.notes);
    if since.Some? {
      TombsHalfPage(db, u, since.value, cursor, limit);
      LastTombKey(res.tombs);
    } else {
      assert After({}, CursorKey(cursor)) == {};
    }
  }

  lemma LastNoteKey(rows: seq<NoteRow>)
    ensures rows != [] ==> Last(NoteKeys(rows)) == NoteKey(rows[|rows| - 1])
  {
  }

  lemma LastTombKey(rows: seq<TombRow>)
    ensures rows != [] ==> Last(TombKeys(rows)) == TombKey(rows[|rows| - 1])
  {
  }

  // ---------- traversals ----------

  /** Every page a client sees when it follows next_cursor on a quiescent store. */
  function Traversal(db: DB, u: UserId, since: Option<Time>, cursor: Option<Key>, limit: nat): (pages: seq<SyncResult>)
    requires PositiveTimes(db) && limit >= 1
    ensures pages != []
    decreases Remaining(NoteWindow(db, u, since), CursorTombs(db, u, since), CursorKey(cursor))
  {
    WindowsPositive(db, u, since);
    CursorOfPage(db, u, since, cursor, limit);
    NextAdvances(NoteWindow(db, u, since), CursorTombs(db, u, since), CursorKey(cursor), limit);
    var res := GetNotesSince(db, u, since, cursor, limit);
    match NextCursor(res)
    case None => [res]
    case Some(k) => [res] + Traversal(db, u, since, Some(k), limit)
  }

  lemma {:induction false} TraversalKeys(db: DB, u: UserId, since: Option<Time>, cursor: Option<Key>, limit: nat)
    requires PositiveTimes(db) && limit >= 1
    ensures var pages := Traversal(db, u, since, cursor, limit);
            var kps := Traverse(NoteWindow(db, u, since), CursorTombs(db, u, since), CursorKey(cursor), limit);
            && |pages| == |kps|
            && (forall i | 0 <= i < |kps| ::
                  && NoteKeys(pages[i].notes) == kps[i].notes
                  && (since.Some? ==> TombKeys(pages[i].tombs) == kps[i].tombs))
    decreases Remaining(NoteWindow(db, u, since), CursorTombs(db, u, since), CursorKey(cursor))
  {
    hide GetNotesSince, FetchKeys, NextKey, NextCursor, NoteWindow, NoteKeys, TombKeys;
    WindowsPositive(db, u, since);
    var N, T, c := NoteWindow(db, u, since), CursorTombs(db, u, since), CursorKey(cursor);
    assert Windows(N, T, limit);
    CursorOfPage(db, u, since, cursor, limit);
    NextAdvances(N, T, c, limit);
    var res := GetNotesSince(db, u, since, cursor, limit);
    var p := FetchKeys(N, T, c, limit);
    var pages := Traversal(db, u, since, cursor, limit);
    var kps := Traverse(N, T, c, limit);
    match NextKey(p) {
      case None =>
        assert pages == [res] && kps == [p];
      case Some(k) =>
        TraversalKeys(db, u, since, Some(k), limit);
        assert pages == [res] + Traversal(db, u, since, Some(k), limit);
        assert kps == [p] + Traverse(N, T, k, limit);
    }
  }

  /** The note rows of pages that match key pages match their concatenated keys. */
  lemma {:induction false} ConcatKeys(pages: seq<SyncResult>, kps: seq<KeyPage>)
    requires |pages| == |kps|
    requires forall i | 0 <= i < |kps| :: NoteKeys(pages[i].notes) == kps[i].notes
    ensures NotesOf(kps) == NoteKeys(RowsOf(pages))
    decreases |pages|
  {
    if pages == [] {
    } else {
      ConcatKeys(pages[1..], kps[1..]);
      KeysConcat(pages[0].notes, RowsOf(pages[1..]));
    }
  }

  /** The note rows of all pages, in the order the client receives them. */
  function RowsOf(pages: seq<SyncResult>): seq<NoteRow> {
    if pages == [] then [] else pages[0].notes + RowsOf(pages[1..])
  }

  lemma KeysConcat(a: seq<NoteRow>, b: seq<NoteRow>)
    ensures NoteKeys(a + b) == NoteKeys(a) + NoteKeys(b)
  {
  }

  ghost predicate Current(db: DB, rows: seq<NoteRow>) {
    forall r | r in rows :: r.id in db.notes && db.notes[r.id] == r.note
  }

  lemma {:induction false} RowsCurrent(db: DB, u: UserId, since: Option<Time>, cursor: Option<Key>, limit: nat)
    requires PositiveTimes(db) && limit >= 1
    ensures Current(db, RowsOf(Traversal(db, u, since, cursor, limit)))
    decreases Remaining(NoteWindow(db, u, since), CursorTombs(db, u, since), CursorKey(cursor))
  {
    hide GetNotesSince, FetchKeys, NextKey, NextCursor, NoteWindow, NoteKeys, TombKeys;
    WindowsPositive(db, u, since);
    assert Windows(NoteWindow(db, u, since), CursorTombs(db, u, since), limit);
    CursorOfPage(db, u, since, cursor, limit);
    NextAdvances(NoteWindow(db, u, since), CursorTombs(db, u, since), CursorKey(cursor), limit);
    PageCurrent(db, u, since, cursor, limit);
    var res := GetNotesSince(db, u, since, cursor, limit);
    var pages := Traversal(db, u, since, cursor, limit);
    match NextCursor(res) {
      case None =>
        assert RowsOf(pages) == res.notes + RowsOf([]);
      case Some(k) =>
        RowsCurrent(db, u, since, Some(k), limit);
        assert pages[1..] == Traversal(db, u, since, Some(k), limit);
    }
  }

  /** The rows of a page are the rows of the tables. */
  lemma PageCurrent(db: DB, u: UserId, since: Option<Time>, cursor: Option<Key>, limit: nat)
    ensures var res := GetNotesSince(db, u, since, cursor, limit);
            && Current(db, res.notes)
            && (since.Some? ==> forall t | t in res.tombs :: t.id in db.tombs && db.tombs[t.id] == t.tomb)
  {
    NotesHalfPage(db, u, since, cursor, limit);
    if since.Some? {
      TombsHalfPage(db, u, since.value, cursor, limit);
    }
  }

  /** The paged form refines the unpaged query. Whatever the limit, and whatever the
      tombstones do to the cursor, the pages concatenate to one and the same list: the
      rows of FindAll (full) or FindUpdatedSince (delta) in strictly ascending key order,
      each exactly once. */
  lemma PagedRefinesUnpaged(db: DB, u: UserId, since: Option<Time>, limit: nat)
    requires PositiveTimes(db) && limit >= 1
    ensures var rows := RowsOf(Traversal(db, u, since, None, limit));
            && NoteKeys(rows) == OrderBy(NoteWindow(db, u, since))
            && (forall i, j | 0 <= i < j < |rows| ::
                  || rows[i].note.updatedAt < rows[j].note.updatedAt
                  || (rows[i].note.updatedAt == rows[j].note.updatedAt && rows[i].id < rows[j].id))
            && (forall r :: r in rows <==> r in NotesSince(db, u, since))
  {
    WindowsPositive(db, u, since);
    var N := NoteWindow(db, u, since);
    var rows := RowsOf(Traversal(db, u, since, None, limit));
    TraversalKeys(db, u, since, None, limit);
    ConcatKeys(Traversal(db, u, since, None, limit), Traverse(N, CursorTombs(db, u, since), Key(0, 0), limit));
    NotesComplete(N, CursorTombs(db, u, since), Key(0, 0), limit);
    assert After(N, Key(0, 0)) == N;
    OrderBySorts(N);
    RowsCurrent(db, u, since, None, limit);
    forall i, j | 0 <= i < j < |rows|
      ensures || rows[i].note.updatedAt < rows[j].note.updatedAt
              || (rows[i].note.updatedAt == rows[j].note.updatedAt && rows[i].id < rows[j].id)
    {
      assert NoteKeys(rows)[i] == NoteKey(rows[i]) && NoteKeys(rows)[j] == NoteKey(rows[j]);
    }
    forall r ensures r in rows <==> r in NotesSince(db, u, since) {
      RowListed(db, u, since, rows, r);
    }
  }

  lemma RowListed(db: DB, u: UserId, since: Option<Time>, rows: seq<NoteRow>, r: NoteRow)
    requires Current(db, rows)
    requires forall k :: k in NoteKeys(rows) <==> k in NoteWindow(db, u, since)
    ensures r in rows <==> r in NotesSince(db, u, since)
  {
    if r in rows {
      var i :| 0 <= i < |rows| && rows[i] == r;
      assert NoteKeys(rows)[i] == NoteKey(r);
      InNoteWindow(db, u, since, NoteKey(r));
    }
    if r in NotesSince(db, u, since) {
      InNoteWindow(db, u, since, NoteKey(r));
      var i :| 0 <= i < |rows| && NoteKeys(rows)[i] == NoteKey(r);
      assert rows[i] in rows && rows[i].id == r.id;
    }
  }

  /** hasMore comes with a cursor, strictly beyond the previous one. */
  lemma HasMoreAdvances(db: DB, u: UserId, since: Option<Time>, cursor: Option<Key>, limit: nat)
    requires PositiveTimes(db) && limit >= 1
    ensures var res := GetNotesSince(db, u, since, cursor, limit);
            && (res.hasMore <==> NextCursor(res).Some?)
            && (res.hasMore ==> NextCursor(res).value.t > 0)
            && (res.hasMore && cursor.Some? && cursor.value.t > 0 ==> Lt(cursor.value, NextCursor(res).value))
  {
    hide GetNotesSince, FetchKeys, NextKey, NextCursor, NoteWindow, NoteKeys, TombKeys;
    WindowsPositive(db, u, since);
    assert Windows(NoteWindow(db, u, since), CursorTombs(db, u, since), limit);
    CursorOfPage(db, u, since, cursor, limit);
    NextAdvances(NoteWindow(db, u, since), CursorTombs(db, u, since), CursorKey(cursor), limit);
  }

  /** A delta traversal takes at most max(1, ceil(N/limit) + ceil(T/limit)) pages. */
  lemma DeltaLength(db: DB, u: UserId, since: Time, limit: nat)
    requires PositiveTimes(db) && limit >= 1
    ensures |Traversal(db, u, Some(since), None, limit)| <=
            Max(1, Ceil(|NoteWindow(db, u, Some(since))|, limit) + Ceil(|TombWindow(db, u, Some(since))|, limit))
  {
    hide GetNotesSince, FetchKeys, NextKey, NextCursor, NoteWindow, TombWindow, Ceil;
    WindowsPositive(db, u, Some(since));
    var N, T := NoteWindow(db, u, Some(since)), TombWindow(db, u, Some(since));
    assert Windows(N, T, limit);
    TraversalKeys(db, u, Some(since), None, limit);
    assert After(N, Key(0, 0)) == N && After(T, Key(0, 0)) == T;
    PageCountBound(N, T, Key(0, 0), limit);
  }

  /** A full traversal takes exactly max(1, ceil(N/limit)) pages. */
  lemma FullLength(db: DB, u: UserId, limit: nat)
    requires PositiveTimes(db) && limit >= 1
    ensures |Traversal(db, u, None, None, limit)| == Max(1, Ceil(|NoteWindow(db, u, None)|, limit))
  {
    hide GetNotesSince, FetchKeys, NextKey, NextCursor, NoteWindow, TombWindow, Ceil;
    WindowsPositive(db, u, None);
    var N := NoteWindow(db, u, None);
    assert Windows(N, {}, limit);
    TraversalKeys(db, u, None, None, limit);
    assert After(N, Key(0, 0)) == N;
    FullPageCount(N, Key(0, 0), limit);
  }

  // ---------- tombstones ----------

  ghost predicate TombDelivered(pages: seq<SyncResult>, t: TombRow) {
    exists i | 0 <= i < |pages| :: t in pages[i].tombs
  }

  ghost predicate AllTombsDelivered(db: DB, u: UserId, since: Time, limit: nat)
    requires PositiveTimes(db) && limit >= 1
  {
    forall t | t in TombsSince(db, u, Some(since)) ::
      TombDelivered(Traversal(db, u, Some(since), None, limit), t)
  }

  /** The rows and the keys of the delivered tombstones correspond. */
  lemma TombRowsAreKeys(db: DB, u: UserId, since: Time, limit: nat, t: TombRow)
    requires PositiveTimes(db) && limit >= 1
    requires t in TombsSince(db, u, Some(since))
    ensures TombDelivered(Traversal(db, u, Some(since), None, limit), t) <==>
            Delivered(Traverse(NoteWindow(db, u, Some(since)), TombWindow(db, u, Some(since)), Key(0, 0), limit), TombKey(t))
  {
    var pages := Traversal(db, u, Some(since), None, limit);
    var kps := Traverse(NoteWindow(db, u, Some(since)), TombWindow(db, u, Some(since)), Key(0, 0), limit);
    TraversalKeys(db, u, Some(since), None, limit);
    forall i | 0 <= i < |pages| ensures t in pages[i].tombs <==> TombKey(t) in kps[i].tombs {
      assert TombKeys(pages[i].tombs) == kps[i].tombs;
      TombsCurrent(db, u, since, None, limit, i);
      if t in pages[i].tombs {
        var j :| 0 <= j < |pages[i].tombs| && pages[i].tombs[j] == t;
        assert kps[i].tombs[j] == TombKey(t);
      }
      if TombKey(t) in kps[i].tombs {
        var j :| 0 <= j < |kps[i].tombs| && kps[i].tombs[j] == TombKey(t);
        assert pages[i].tombs[j] in pages[i].tombs;
      }
    }
  }

  lemma {:induction false} TombsCurrent(db: DB, u: UserId, since: Time, cursor: Option<Key>, limit: nat, i: nat)
    requires PositiveTimes(db) && limit >= 1
    requires i < |Traversal(db, u, Some(since), cursor, limit)|
    ensures forall t | t in Traversal(db, u, Some(since), cursor, limit)[i].tombs ::
              t.id in db.tombs && db.tombs[t.id] == t.tomb
    decreases i
  {
    hide GetNotesSince, NextCursor, NoteWindow;
    PageCurrent(db, u, Some(since), cursor, limit);
    if i == 0 {
    } else {
      var res := GetNotesSince(db, u, Some(since), cursor, limit);
      TombsCurrent(db, u, since, NextCursor(res), limit, i - 1);
    }
  }

  /** A delta traversal omits a tombstone of the window iff one of its pages truncates the
      tombstone list before it while its notes carry the cursor to it or past it. */
  lemma TombOmittedIff(db: DB, u: UserId, since: Time, limit: nat, t: TombRow)
    requires PositiveTimes(db) && limit >= 1
    requires t in TombsSince(db, u, Some(since))
    ensures !TombDelivered(Traversal(db, u, Some(since), None, limit), t) <==>
            Skipped(Traverse(NoteWindow(db, u, Some(since)), TombWindow(db, u, Some(since)), Key(0, 0), limit), TombKey(t))
  {
    TombRowsAreKeys(db, u, since, limit, t);
    InTombWindow(db, u, Some(since), TombKey(t));
    OmittedIffSkipped(NoteWindow(db, u, Some(since)), TombWindow(db, u, Some(since)), Key(0, 0), limit, TombKey(t));
  }

  /** Every tombstone of the window is delivered iff no page of notes spans more than
      `limit` of them; in particular when there are at most `limit`. */
  lemma DeliveryCompleteIff(db: DB, u: UserId, since: Time, limit: nat)
    requires PositiveTimes(db) && limit >= 1
    ensures AllTombsDelivered(db, u, since, limit) <==>
            Room(NoteWindow(db, u, Some(since)), TombWindow(db, u, Some(since)), Key(0, 0), limit)
    ensures |TombWindow(db, u, Some(since))| <= limit ==> AllTombsDelivered(db, u, since, limit)
  {
    var N, T, c := NoteWindow(db, u, Some(since)), TombWindow(db, u, Some(since)), Key(0, 0);
    assert After(T, c) == T;
    CompleteIffRoom(N, T, c, limit);
    if |T| <= limit { FewTombsComplete(N, T, c, limit); }
    forall t | t in TombsSince(db, u, Some(since))
      ensures TombDelivered(Traversal(db, u, Some(since), None, limit), t) <==> Delivered(Traverse(N, T, c, limit), TombKey(t))
    {
      TombRowsAreKeys(db, u, since, limit, t);
    }
    forall k | k in T ensures TombRow(k.id, db.tombs[k.id]) in TombsSince(db, u, Some(since)) && TombKey(TombRow(k.id, db.tombs[k.id])) == k {
      InTombWindow(db, u, Some(since), k);
    }
    forall t | t in TombsSince(db, u, Some(since)) ensures TombKey(t) in T {
      InTombWindow(db, u, Some(since), TombKey(t));
    }
  }

  // ---------- listings ----------

  /** An unordered query result: the rows of the set, each once, in some order. */
  ghost predicate ListsNotes(rows: seq<NoteRow>, s: set<NoteRow>) {
    && (forall r :: r in rows <==> r in s)
    && (forall i, j | 0 <= i < j < |rows| :: rows[i].id != rows[j].id)
  }

  ghost predicate ListsTombs(rows: seq<TombRow>, s: set<TombRow>) {
    && (forall r :: r in rows <==> r in s)
    && (forall i, j | 0 <= i < j < |rows| :: rows[i].id != rows[j].id)
  }

  lemma NotesListed(db: DB, u: UserId, since: Option<Time>)
    ensures forall k | k in OrderBy(NoteWindow(db, u, since)) :: k.id in db.notes
    ensures ListsNotes(NoteRows(db, OrderBy(NoteWindow(db, u, since))), NotesSince(db, u, since))
  {
    hide NoteWindow, OrderBy;
    var ks := OrderBy(NoteWindow(db, u, since));
    OrderBySorts(NoteWindow(db, u, since));
    var rows := NoteRows(db, ks);
    forall r ensures r in rows <==> r in NotesSince(db, u, since) {
      if r in rows {
        var i :| 0 <= i < |rows| && rows[i] == r;
        assert ks[i] in ks;
        InNoteWindow(db, u, since, ks[i]);
      }
      if r in NotesSince(db, u, since) {
        InNoteWindow(db, u, since, NoteKey(r));
        var i :| 0 <= i < |ks| && ks[i] == NoteKey(r);
        assert rows[i] == r;
      }
    }
    forall i, j | 0 <= i < j < |rows| ensures rows[i].id != rows[j].id {
      assert ks[i] in ks && ks[j] in ks && Lt(ks[i], ks[j]);
      InNoteWindow(db, u, since, ks[i]);
      InNoteWindow(db, u, since, ks[j]);
    }
  }

  lemma TombsListed(db: DB, u: UserId, since: Option<Time>)
    ensures forall k | k in OrderBy(TombWindow(db, u, since)) :: k.id in db.tombs
    ensures ListsTombs(TombRows(db, OrderBy(TombWindow(db, u, since))), TombsSince(db, u, since))
  {
    hide TombWindow, OrderBy;
    var ks := OrderBy(TombWindow(db, u, since));
    OrderBySorts(TombWindow(db, u, since));
    var rows := TombRows(db, ks);
    forall r ensures r in rows <==> r in TombsSince(db, u, since) {
      if r in rows {
        var i :| 0 <= i < |rows| && rows[i] == r;
        assert ks[i] in ks;
        InTombWindow(db, u, since, ks[i]);
      }
      if r in TombsSince(db, u, since) {
        InTombWindow(db, u, since, TombKey(r));
        var i :| 0 <= i < |ks| && ks[i] == TombKey(r);
        assert rows[i] == r;
      }
    }
    forall i, j | 0 <= i < j < |rows| ensures rows[i].id != rows[j].id {
      assert ks[i] in ks && ks[j] in ks && Lt(ks[i], ks[j]);
      InTombWindow(db, u, since, ks[i]);
      InTombWindow(db, u, since, ks[j]);
    }
  }

  // ---------- the tombstones of a full sync ----------

  /** A page of a full sync, from the tables. The first page lists all tombstones of the user,
      each once, and a later page none; whether there is more is told by the notes alone. */
  lemma FullPage(db: DB, u: UserId, cursor: Option<Key>, limit: nat)
    ensures var page := GetNotesSince(db, u, None, cursor, limit);
            && (cursor.None? ==> ListsTombs(page.tombs, TombsSince(db, u, None)))
            && (cursor.Some? ==> page.tombs == [])
            && (page.hasMore <==> |After(NoteWindow(db, u, None), CursorKey(cursor))| > limit)
  {
    hide NotesHalf, NoteWindow, OrderBy, ListsTombs;
    NotesHalfPage(db, u, None, cursor, limit);
    TombsListed(db, u, None);
  }

  /** A full traversal returns every tombstone of the user exactly once, all of them on its
      first page, whatever the limit. */
  lemma FullTombs(db: DB, u: UserId, limit: nat)
    requires PositiveTimes(db) && limit >= 1
    ensures var pages := Traversal(db, u, None, None, limit);
            && ListsTombs(pages[0].tombs, TombsSince(db, u, None))
            && (forall i | 1 <= i < |pages| :: pages[i].tombs == [])
  {
    hide NoteWindow, ListsTombs, NextCursor, GetNotesSince;
    FullPage(db, u, None, limit);
    var page := GetNotesSince(db, u, None, None, limit);
    var pages := Traversal(db, u, None, None, limit);
    assert pages[0] == page;
    if NextCursor(page).Some? {
      var rest := Traversal(db, u, None, NextCursor(page), limit);
      assert pages == [page] + rest;
      forall i | 1 <= i < |pages| ensures pages[i].tombs == [] {
        LaterFullPages(db, u, NextCursor(page).value, limit, i - 1);
        assert pages[i] == rest[i - 1];
      }
    }
  }

  lemma {:induction false} LaterFullPages(db: DB, u: UserId, c: Key, limit: nat, i: nat)
    requires PositiveTimes(db) && limit >= 1 && i < |Traversal(db, u, None, Some(c), limit)|
    ensures Traversal(db, u, None, Some(c), limit)[i].tombs == []
    decreases i
  {
    hide NoteWindow, ListsTombs, NextCursor, GetNotesSince;
    FullPage(db, u, Some(c), limit);
    if i == 0 {
    } else {
      var next := NextCursor(GetNotesSince(db, u, None, Some(c), limit));
      LaterFullPages(db, u, next.value, limit, i - 1);
    }
  }
}

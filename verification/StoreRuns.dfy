/** Whole-run properties of the store: purging, tombstone expiry, and deltas as diffs. */
module StoreRuns {
  import opened Wrappers
  import opened Keyset
  import opened NotesModel
  import opened SyncModel
  import opened SyncPaging
  import opened SyncRun

  // ---------- purge ----------

  /** A purge moves exactly one row of the caller from the notes to the tombstones, or
      changes nothing: when the caller has no such note, or a tombstone is in the way. */
  lemma PurgeConserves(db: DB, u: UserId, id: Id, now: Time)
    ensures var s := PurgeRow(db, u, id, now);
            match s.outcome
            case Done =>
              && Owns(db, u, id) && id !in db.tombs
              && s.db.notes.Keys == db.notes.Keys - {id}
              && s.db.tombs.Keys == db.tombs.Keys + {id} && s.db.tombs[id] == Tomb(u, now)
              && |s.db.notes| + 1 == |db.notes| && |s.db.tombs| == |db.tombs| + 1
              && (forall x | x in db.notes && x != id :: x in s.db.notes && s.db.notes[x] == db.notes[x])
              && (forall x | x in db.tombs :: x in s.db.tombs && s.db.tombs[x] == db.tombs[x])
            case NotFound => s.db == db && !Owns(db, u, id)
            case DuplicateTombstone => s.db == db && Owns(db, u, id) && id in db.tombs
  {
    var s := PurgeRow(db, u, id, now);
    if s.outcome.Done? {
      assert |s.db.notes| == |s.db.notes.Keys| && |db.notes| == |db.notes.Keys|;
      assert s.db.notes.Keys == db.notes.Keys - {id};
      assert |s.db.tombs| == |s.db.tombs.Keys| && |db.tombs| == |db.tombs.Keys|;
      assert s.db.tombs.Keys == db.tombs.Keys + {id};
    }
  }

  /** No step upserts an id that has a tombstone at that moment. */
  ghost predicate NoResurrection(db: DB, ops: seq<Stamped>)
    decreases |ops|
  {
    ops != [] ==>
      && (ops[0].op.Upsert? ==> ops[0].op.id !in db.tombs)
      && NoResurrection(Apply(db, ops[0].op, ops[0].now).db, ops[1..])
  }

  /** Only an upsert of a purged id brings the two tables to share an id. */
  lemma {:induction false} TablesStayDisjoint(db: DB, ops: seq<Stamped>)
    requires db.notes.Keys !! db.tombs.Keys
    requires NoResurrection(db, ops)
    ensures Run(db, ops).notes.Keys !! Run(db, ops).tombs.Keys
    decreases |ops|
  {
    if ops == [] {
    } else {
      TablesStayDisjoint(Apply(db, ops[0].op, ops[0].now).db, ops[1..]);
    }
  }

  // ---------- a delta is the diff of two stores ----------

  /** What any run of writes after instant t, with expiry cut-offs no later than t, leaves
      of a store S: old rows are unchanged rows of S, and a row of S that is gone has left
      a tombstone younger than t. */
  ghost predicate Later(S: DB, t: Time, db: DB, clock: Time) {
    && Inv(db, clock) && t <= clock
    && (forall id | id in db.notes && db.notes[id].updatedAt <= t :: id in S.notes && S.notes[id] == db.notes[id])
    && (forall id | id in S.notes ::
          || Owns(db, S.notes[id].user, id)
          || (id in db.tombs && db.tombs[id].user == S.notes[id].user && db.tombs[id].deletedAt > t))
  }

  ghost predicate ExpiresBefore(ops: seq<Stamped>, t: Time) {
    forall s | s in ops && s.op.Expire? :: s.op.olderThan <= t
  }

  lemma LaterStep(S: DB, t: Time, db: DB, clock: Time, op: Op, now: Time)
    requires Later(S, t, db, clock) && now > clock && (op.Expire? ==> op.olderThan <= t)
    ensures Later(S, t, Apply(db, op, now).db, now)
  {
    hide Inv;
    InvStep(db, clock, op, now);
    var db' := Apply(db, op, now).db;
    forall id | id in db'.notes && db'.notes[id].updatedAt <= t ensures id in S.notes && S.notes[id] == db'.notes[id] {
      RowAfterWrite(db'.notes[id].user, db, op, now, id);
    }
    forall id | id in S.notes
      ensures || Owns(db', S.notes[id].user, id)
              || (id in db'.tombs && db'.tombs[id].user == S.notes[id].user && db'.tombs[id].deletedAt > t)
    {
      KeptOrBuried(db, op, now, S.notes[id].user, id, t);
    }
  }

  /** A row of u stays, or is purged by u now; a tombstone younger than every cut-off stays. */
  lemma KeptOrBuried(db: DB, op: Op, now: Time, u: UserId, id: Id, t: Time)
    requires now > t && (op.Expire? ==> op.olderThan <= t)
    ensures var db' := Apply(db, op, now).db;
            && (Owns(db, u, id) ==> Owns(db', u, id) || (id in db'.tombs && db'.tombs[id] == Tomb(u, now)))
            && (id in db.tombs && db.tombs[id].deletedAt > t ==> id in db'.tombs && db'.tombs[id] == db.tombs[id])
  {
  }

  lemma {:induction false} LaterRun(S: DB, t: Time, db: DB, clock: Time, ops: seq<Stamped>)
    requires Later(S, t, db, clock) && Ordered(clock, ops) && ExpiresBefore(ops, t)
    ensures Later(S, t, Run(db, ops), EndClock(clock, ops))
    decreases |ops|
  {
    hide Later, Apply;
    if ops == [] {
    } else {
      assert ops[0] in ops;
      LaterStep(S, t, db, clock, ops[0].op, ops[0].now);
      LaterRun(S, t, Apply(db, ops[0].op, ops[0].now).db, ops[0].now, ops[1..]);
    }
  }

  function Ids(rows: set<TombRow>): set<Id> {
    set r | r in rows :: r.id
  }

  /** Removing the delta's tombstones and then putting the delta's notes in place. */
  ghost predicate IsPatched(before: map<Id, Note>, notes: set<NoteRow>, tombs: set<TombRow>, after: map<Id, Note>) {
    forall id, n ::
      (id in after && after[id] == n) <==>
        || NoteRow(id, n) in notes
        || (id in before && before[id] == n && id !in Ids(tombs) && forall m :: NoteRow(id, m) !in notes)
  }

  /** A delta is a correct diff. For a reachable store S at instant t and any later store,
      the notes updated since t and the tombstones since t turn the user's rows of S into
      the user's rows of the later store, including notes purged and created again. */
  lemma DeltaIsDiff(S: DB, t: Time, ops: seq<Stamped>, u: UserId)
    requires Inv(S, t) && Ordered(t, ops) && ExpiresBefore(ops, t)
    ensures var S' := Run(S, ops);
            IsPatched(UserNotes(S, u), NotesSince(S', u, Some(t)), TombsSince(S', u, Some(t)), UserNotes(S', u))
  {
    LaterRun(S, t, S, t, ops);
    PatchOfLater(S, t, Run(S, ops), EndClock(t, ops), u);
  }

  lemma PatchOfLater(S: DB, t: Time, S': DB, clock: Time, u: UserId)
    requires Later(S, t, S', clock)
    ensures IsPatched(UserNotes(S, u), NotesSince(S', u, Some(t)), TombsSince(S', u, Some(t)), UserNotes(S', u))
  {
    var notes, tombs := NotesSince(S', u, Some(t)), TombsSince(S', u, Some(t));
    var before, after := UserNotes(S, u), UserNotes(S', u);
    forall id ensures id in Ids(tombs) <==> id in S'.tombs && S'.tombs[id].user == u && S'.tombs[id].deletedAt > t {
      if id in S'.tombs && S'.tombs[id].user == u && S'.tombs[id].deletedAt > t {
        assert TombRow(id, S'.tombs[id]) in tombs;
      }
    }
    forall id, n ensures NoteRow(id, n) in notes <==> Owns(S', u, id) && S'.notes[id] == n && n.updatedAt > t {
    }
    forall id, n
      ensures (id in after && after[id] == n) <==>
                || NoteRow(id, n) in notes
                || (id in before && before[id] == n && id !in Ids(tombs) && forall m :: NoteRow(id, m) !in notes)
    {
      PatchAt(S, t, S', clock, u, id);
    }
  }

  /** The two cases of one id. */
  lemma PatchAt(S: DB, t: Time, S': DB, clock: Time, u: UserId, id: Id)
    requires Later(S, t, S', clock)
    ensures Owns(S', u, id) && S'.notes[id].updatedAt <= t ==>
              && Owns(S, u, id) && S.notes[id] == S'.notes[id]
              && !(id in S'.tombs && S'.tombs[id].user == u && S'.tombs[id].deletedAt > t)
    ensures Owns(S, u, id) && !Owns(S', u, id) ==>
              id in S'.tombs && S'.tombs[id].user == u && S'.tombs[id].deletedAt > t
    ensures Owns(S', u, id) && S'.notes[id].updatedAt <= t ==> Owns(S, u, id)
  {
  }

  // ---------- tombstone expiry ----------

  /** db' is db without some tombstones from before the cut-off. */
  ghost predicate Twin(db: DB, db': DB, olderThan: Time) {
    && db'.notes == db.notes
    && (forall id | id in db'.tombs :: id in db.tombs && db.tombs[id] == db'.tombs[id])
    && (forall id | id in db.tombs && id !in db'.tombs :: db.tombs[id].deletedAt < olderThan)
  }

  /** A purge that an expired tombstone would have rolled back. */
  predicate Collides(db: DB, db': DB, op: Op) {
    op.Purge? && Owns(db, op.user, op.id) && op.id in db.tombs && op.id !in db'.tombs
  }

  ghost predicate SamePages(db: DB, db': DB, olderThan: Time) {
    forall u, since, cursor, limit: nat | since >= olderThan && limit >= 1 ::
      GetNotesSince(db, u, Some(since), cursor, limit) == GetNotesSince(db', u, Some(since), cursor, limit)
  }

  lemma TwinSamePages(db: DB, db': DB, olderThan: Time)
    requires Twin(db, db', olderThan)
    ensures SamePages(db, db', olderThan)
  {
    forall u, since, cursor, limit: nat | since >= olderThan && limit >= 1
      ensures GetNotesSince(db, u, Some(since), cursor, limit) == GetNotesSince(db', u, Some(since), cursor, limit)
    {
      TwinSameWindows(db, db', olderThan, u, since);
      NotesHalfPage(db, u, Some(since), cursor, limit);
      NotesHalfPage(db', u, Some(since), cursor, limit);
      TombsHalfPage(db, u, since, cursor, limit);
      TombsHalfPage(db', u, since, cursor, limit);
      var ks := Page(TombWindow(db, u, Some(since)), CursorKey(cursor), limit);
      SameTombRows(db, db', ks);
    }
  }

  lemma SameTombRows(db: DB, db': DB, ks: seq<Key>)
    requires forall k | k in ks :: k.id in db.tombs && k.id in db'.tombs && db.tombs[k.id] == db'.tombs[k.id]
    ensures TombRows(db, ks) == TombRows(db', ks)
  {
    forall i | 0 <= i < |ks| ensures TombRows(db, ks)[i] == TombRows(db', ks)[i] {
      assert ks[i] in ks;
    }
  }

  lemma TwinSameWindows(db: DB, db': DB, olderThan: Time, u: UserId, since: Time)
    requires Twin(db, db', olderThan) && since >= olderThan
    ensures NoteWindow(db, u, Some(since)) == NoteWindow(db', u, Some(since))
    ensures TombWindow(db, u, Some(since)) == TombWindow(db', u, Some(since))
    ensures forall k | k in TombWindow(db, u, Some(since)) ::
              k.id in db.tombs && k.id in db'.tombs && db.tombs[k.id] == db'.tombs[k.id]
  {
    forall k ensures k in TombWindow(db, u, Some(since)) <==> k in TombWindow(db', u, Some(since)) {
      InTombWindow(db, u, Some(since), k);
      InTombWindow(db', u, Some(since), k);
    }
    forall k | k in TombWindow(db, u, Some(since))
      ensures k.id in db.tombs && k.id in db'.tombs && db.tombs[k.id] == db'.tombs[k.id]
    {
      InTombWindow(db, u, Some(since), k);
    }
  }

  lemma TwinStep(db: DB, db': DB, olderThan: Time, op: Op, now: Time)
    requires Twin(db, db', olderThan) && !Collides(db, db', op)
    ensures Twin(Apply(db, op, now).db, Apply(db', op, now).db, olderThan)
  {
  }

  /** A collision shows: one store has a new tombstone, the other still has the note. */
  lemma CollisionShows(db: DB, db': DB, olderThan: Time, op: Op, now: Time)
    requires Twin(db, db', olderThan) && Collides(db, db', op) && now > olderThan
    requires PositiveTimes(db) && PositiveTimes(db')
    ensures !SamePages(Apply(db, op, now).db, Apply(db', op, now).db, olderThan)
  {
    var S, S' := Apply(db, op, now).db, Apply(db', op, now).db;
    var limit := |After(TombWindow(S', op.user, Some(olderThan)), Key(0, 0))| + 1;
    hide GetNotesSince;
    TombShown(S', op.user, olderThan, op.id, limit);
    if TombRow(op.id, Tomb(op.user, now)) in GetNotesSince(S, op.user, Some(olderThan), None, limit).tombs {
      TombStored(S, op.user, olderThan, limit, TombRow(op.id, Tomb(op.user, now)));
    }
  }

  lemma TombShown(db: DB, u: UserId, since: Time, id: Id, limit: nat)
    requires PositiveTimes(db) && limit > |After(TombWindow(db, u, Some(since)), Key(0, 0))|
    requires id in db.tombs && db.tombs[id].user == u && db.tombs[id].deletedAt > since
    ensures TombRow(id, db.tombs[id]) in GetNotesSince(db, u, Some(since), None, limit).tombs
  {
    hide TombsHalf, NotesHalf, TombWindow;
    TombsHalfRows(db, u, since, None, limit);
    TombsHalfPage(db, u, since, None, limit);
  }

  lemma TombStored(db: DB, u: UserId, since: Time, limit: nat, row: TombRow)
    requires PositiveTimes(db) && limit >= 1
    requires row in GetNotesSince(db, u, Some(since), None, limit).tombs
    ensures row.id in db.tombs && db.tombs[row.id] == row.tomb
  {
    hide TombsHalf, NotesHalf;
    TombsHalfRows(db, u, since, None, limit);
  }

  ghost predicate NoCollision(db: DB, db': DB, ops: seq<Stamped>)
    decreases |ops|
  {
    ops != [] ==>
      && !Collides(db, db', ops[0].op)
      && NoCollision(Apply(db, ops[0].op, ops[0].now).db, Apply(db', ops[0].op, ops[0].now).db, ops[1..])
  }

  ghost predicate AlwaysSamePages(db: DB, db': DB, ops: seq<Stamped>, olderThan: Time)
    decreases |ops|
  {
    && SamePages(db, db', olderThan)
    && (ops != [] ==>
          AlwaysSamePages(Apply(db, ops[0].op, ops[0].now).db, Apply(db', ops[0].op, ops[0].now).db, ops[1..], olderThan))
  }

  /** Tombstone expiry and the recent client: along a run, expiring the tombstones older
      than a cut-off beforehand changes no page of any delta from the cut-off or later iff
      no purge of the run meets an expired tombstone of its note. */
  lemma {:induction false} ExpiryInvisibleIff(db: DB, db': DB, clock: Time, ops: seq<Stamped>, olderThan: Time)
    requires Twin(db, db', olderThan) && Inv(db, clock) && olderThan <= clock && Ordered(clock, ops)
    ensures AlwaysSamePages(db, db', ops, olderThan) <==> NoCollision(db, db', ops)
    decreases |ops|
  {
    hide SamePages, Apply, Collides;
    TwinSamePages(db, db', olderThan);
    if ops == [] {
    } else {
      var S, S' := Apply(db, ops[0].op, ops[0].now).db, Apply(db', ops[0].op, ops[0].now).db;
      InvStep(db, clock, ops[0].op, ops[0].now);
      if Collides(db, db', ops[0].op) {
        CollisionShows(db, db', olderThan, ops[0].op, ops[0].now);
      } else {
        TwinStep(db, db', olderThan, ops[0].op, ops[0].now);
        ExpiryInvisibleIff(S, S', ops[0].now, ops[1..], olderThan);
      }
    }
  }

  /** The same of an expiry anywhere in a run from the empty store, against the run without
      it: the two show the same pages to every delta from the cut-off or later, at every point
      of the rest of the run, iff no purge of the rest meets an expired tombstone. */
  lemma ExpireStepInvisibleIff(before: seq<Stamped>, olderThan: Time, now: Time, after: seq<Stamped>)
    requires Ordered(0, before) && now > EndClock(0, before) && olderThan <= now && Ordered(now, after)
    ensures var db := Run(EMPTY_DB, before); var db' := Run(EMPTY_DB, before + [Stamped(Expire(olderThan), now)]);
            AlwaysSamePages(db, db', after, olderThan) <==> NoCollision(db, db', after)
  {
    var db := Run(EMPTY_DB, before);
    FromEmpty(before);
    RunThen(EMPTY_DB, before, Stamped(Expire(olderThan), now));
    hide Run, AlwaysSamePages, NoCollision;
    ExpiryInvisibleIff(db, Apply(db, Expire(olderThan), now).db, now, after, olderThan);
  }

  lemma {:induction false} RunThen(db: DB, ops: seq<Stamped>, last: Stamped)
    ensures Run(db, ops + [last]) == Apply(Run(db, ops), last.op, last.now).db
    decreases |ops|
  {
    hide Apply;
    if ops == [] {
      assert ops + [last] == [last];
      assert [last][1..] == [];
    } else {
      assert (ops + [last])[0] == ops[0] && (ops + [last])[1..] == ops[1..] + [last];
      RunThen(Apply(db, ops[0].op, ops[0].now).db, ops[1..], last);
    }
  }
}

/** Whole-run properties of atomic requests: no lost updates, quota accounting, and
    non-interference between users. */
module ServiceRuns {
  import opened Wrappers
  import opened Keyset
  import opened NotesModel
  import opened SyncModel
  import opened ServiceModel

  // ---------- optimistic locking ----------

  /** The updated_at values each note has had since its last creation. */
  type Versions = map<Id, set<Time>>

  function NextVersions(vs: Versions, before: DB, after: DB): Versions {
    map id | id in after.notes ::
      (if id in before.notes && id in vs then vs[id] else {}) + {after.notes[id].updatedAt}
  }

  ghost predicate VersionsOk(vs: Versions, db: DB) {
    && vs.Keys == db.notes.Keys
    && (forall id | id in vs :: db.notes[id].updatedAt in vs[id])
    && (forall id, v | id in vs && v in vs[id] :: v <= db.notes[id].updatedAt)
  }

  lemma VersionsStep(cfg: Config, vs: Versions, db: DB, clock: Time, req: Request, now: Time)
    requires VersionsOk(vs, db) && Inv(db, clock) && now > clock
    ensures var db' := Serve(cfg, db, req, now).db;
            VersionsOk(NextVersions(vs, db, db'), db') && Inv(db', now)
  {
    ServeIsApply(cfg, db, req, now);
    InvStep(db, clock, OpOf(req), now);
    assert Inv(db, now);
    VersionsApply(vs, db, clock, OpOf(req), now);
  }

  lemma VersionsApply(vs: Versions, db: DB, clock: Time, op: Op, now: Time)
    requires VersionsOk(vs, db) && Inv(db, clock) && now > clock
    ensures VersionsOk(NextVersions(vs, db, Apply(db, op, now).db), Apply(db, op, now).db)
    ensures VersionsOk(NextVersions(vs, db, db), db)
  {
    hide Apply;
    forall id | id in Apply(db, op, now).db.notes && id in db.notes
      ensures Apply(db, op, now).db.notes[id].updatedAt >= db.notes[id].updatedAt
    {
      UpdatedAtGrows(db, clock, op, now, id);
    }
  }

  lemma UpdatedAtGrows(db: DB, clock: Time, op: Op, now: Time, id: Id)
    requires Inv(db, clock) && now > clock && id in db.notes && id in Apply(db, op, now).db.notes
    ensures Apply(db, op, now).db.notes[id].updatedAt >= db.notes[id].updatedAt
  {
    assert NoteSane(db.notes[id], clock);
  }

  /** The base of a versioned request is a version of the note since its last creation. */
  ghost predicate Honest(vs: Versions, req: Request) {
    req.PutNote? && req.base.Some? && req.id in vs && req.base.value in vs[req.id]
  }

  /** A successful versioned upsert overwrites exactly the version it named. */
  lemma ExactOverwrite(cfg: Config, vs: Versions, db: DB, req: Request, now: Time)
    requires VersionsOk(vs, db) && Honest(vs, req)
    requires Serve(cfg, db, req, now).response.Saved?
    ensures Owns(db, req.user, req.id) && db.notes[req.id].updatedAt == req.base.value
    ensures Serve(cfg, db, req, now).db.notes[req.id]
         == db.notes[req.id].(payload := req.payload, updatedAt := now)
  {
  }

  /** Version b of the note is stale: the note has moved on, or is gone or new. */
  ghost predicate Stale(vs: Versions, db: DB, id: Id, b: Time) {
    id in vs && b in vs[id] ==> id in db.notes && db.notes[id].updatedAt > b
  }

  lemma StaleStep(cfg: Config, vs: Versions, db: DB, clock: Time, req: Request, now: Time, id: Id, b: Time)
    requires VersionsOk(vs, db) && Inv(db, clock) && now > clock >= b
    requires Stale(vs, db, id, b)
    ensures var db' := Serve(cfg, db, req, now).db; Stale(NextVersions(vs, db, db'), db', id, b)
  {
    ServeIsApply(cfg, db, req, now);
    StaleApply(vs, db, clock, OpOf(req), now, id, b);
  }

  lemma StaleApply(vs: Versions, db: DB, clock: Time, op: Op, now: Time, id: Id, b: Time)
    requires VersionsOk(vs, db) && Inv(db, clock) && now > clock >= b
    requires Stale(vs, db, id, b)
    ensures Stale(NextVersions(vs, db, Apply(db, op, now).db), Apply(db, op, now).db, id, b)
    ensures Stale(NextVersions(vs, db, db), db, id, b)
  {
  }

  function RunVersions(cfg: Config, vs: Versions, db: DB, reqs: seq<Timed>): Versions
    decreases |reqs|
  {
    if reqs == [] then vs
    else
      var db' := Serve(cfg, db, reqs[0].req, reqs[0].now).db;
      RunVersions(cfg, NextVersions(vs, db, db'), db', reqs[1..])
  }

  lemma {:induction false} StaleRun(cfg: Config, vs: Versions, db: DB, clock: Time, reqs: seq<Timed>, id: Id, b: Time)
    requires VersionsOk(vs, db) && Inv(db, clock) && clock >= b && OrderedRequests(clock, reqs)
    requires Stale(vs, db, id, b)
    ensures VersionsOk(RunVersions(cfg, vs, db, reqs), RunService(cfg, db, reqs))
    ensures Stale(RunVersions(cfg, vs, db, reqs), RunService(cfg, db, reqs), id, b)
    decreases |reqs|
  {
    hide Serve, Stale, VersionsOk, Inv, NextVersions;
    if reqs == [] {
    } else {
      VersionsStep(cfg, vs, db, clock, reqs[0].req, reqs[0].now);
      StaleStep(cfg, vs, db, clock, reqs[0].req, reqs[0].now, id, b);
      var db' := Serve(cfg, db, reqs[0].req, reqs[0].now).db;
      StaleRun(cfg, NextVersions(vs, db, db'), db', reqs[0].now, reqs[1..], id, b);
    }
  }

  /** No lost update: of all requests naming the same base version of a note, at any
      points of a run and by whomever, at most one succeeds. */
  lemma AtMostOneSave(cfg: Config, vs: Versions, db: DB, clock: Time, first: Timed, between: seq<Timed>, second: Timed)
    requires VersionsOk(vs, db) && Inv(db, clock) && OrderedRequests(clock, [first] + between)
    requires Honest(vs, first.req) && Serve(cfg, db, first.req, first.now).response.Saved?
    requires var db1 := Serve(cfg, db, first.req, first.now).db;
             Honest(RunVersions(cfg, NextVersions(vs, db, db1), db1, between), second.req)
    requires second.req.id == first.req.id && second.req.base == first.req.base
    ensures var db1 := Serve(cfg, db, first.req, first.now).db;
            !Serve(cfg, RunService(cfg, db1, between), second.req, second.now).response.Saved?
  {
    var id, b := first.req.id, first.req.base.value;
    var db1 := Serve(cfg, db, first.req, first.now).db;
    var vs1 := NextVersions(vs, db, db1);
    assert ([first] + between)[1..] == between;
    VersionsStep(cfg, vs, db, clock, first.req, first.now);
    ExactOverwrite(cfg, vs, db, first.req, first.now);
    assert NoteSane(db.notes[id], clock);
    hide NextVersions, Inv;
    assert Stale(vs1, db1, id, b);
    StaleRun(cfg, vs1, db1, first.now, between, id, b);
    var db2, vs2 := RunService(cfg, db1, between), RunVersions(cfg, vs1, db1, between);
    if Serve(cfg, db2, second.req, second.now).response.Saved? {
      ExactOverwrite(cfg, vs2, db2, second.req, second.now);
    }
  }

  ghost predicate Touches(req: Request, id: Id) {
    !req.ExpireTombstones? && req.id == id
  }

  lemma {:induction false} UntouchedRow(cfg: Config, db: DB, reqs: seq<Timed>, id: Id)
    requires id in db.notes && forall r | r in reqs :: !Touches(r.req, id)
    ensures id in RunService(cfg, db, reqs).notes && RunService(cfg, db, reqs).notes[id] == db.notes[id]
    decreases |reqs|
  {
    if reqs == [] {
    } else {
      assert reqs[0] in reqs;
      ServeIsApply(cfg, db, reqs[0].req, reqs[0].now);
      UntouchedRow(cfg, Serve(cfg, db, reqs[0].req, reqs[0].now).db, reqs[1..], id);
    }
  }

  /** A conflict changes nothing and carries the current row; pushing again with its
      updated_at succeeds if nothing has touched the note meanwhile. */
  lemma ConflictRetry(cfg: Config, db: DB, req: Request, now: Time, between: seq<Timed>, again: Time, payload: Payload)
    requires req.PutNote? && Serve(cfg, db, req, now).response.Conflict?
    requires forall r | r in between :: !Touches(r.req, req.id)
    ensures var reply := Serve(cfg, db, req, now); var row := reply.response.serverNote;
            && reply.db == db && Owns(db, req.user, req.id) && row == NoteRow(req.id, db.notes[req.id])
            && req.base.Some? && row.note.updatedAt > req.base.value
            && Serve(cfg, RunService(cfg, db, between), PutNote(req.user, req.id, payload, Some(row.note.updatedAt)), again).response
               == Saved(NoteRow(req.id, row.note.(payload := payload, updatedAt := again)), false)
  {
    UntouchedRow(cfg, db, between, req.id);
  }

  // ---------- quota ----------

  /** The requests of u that add a live note without passing the quota check: restoring a
      trashed note, and a versioned upsert of an id nobody has. */
  predicate Bypass(db: DB, u: UserId, req: Request) {
    || (req.RestoreNote? && req.user == u && Owns(db, u, req.id) && db.notes[req.id].trashedAt.Some?)
    || (req.PutNote? && req.user == u && req.base.Some? && req.id !in db.notes)
  }

  /** A create that passes the quota check. */
  predicate Admitted(cfg: Config, db: DB, u: UserId, req: Request) {
    req.PutNote? && req.user == u && req.base.None? && req.id !in db.notes && EnforceQuota(cfg, db, u).None?
  }

  lemma LiveAdded(db: DB, db': DB, u: UserId, id: Id)
    requires id !in LiveIds(db, u) && LiveIds(db', u) == LiveIds(db, u) + {id}
    ensures CountLive(db', u) == CountLive(db, u) + 1
  {
  }

  lemma LiveShrinks(db: DB, db': DB, u: UserId, id: Id)
    requires LiveIds(db', u) == LiveIds(db, u) - {id}
    ensures CountLive(db', u) <= CountLive(db, u)
  {
    if id in LiveIds(db, u) {
      assert CountLive(db', u) == CountLive(db, u) - 1;
    } else {
      assert LiveIds(db', u) == LiveIds(db, u);
    }
  }

  /** Exactly the bypasses and the admitted creates raise a user's live count, by one;
      every other request of anyone leaves it or lowers it. */
  lemma LiveCountStep(cfg: Config, db: DB, u: UserId, req: Request, now: Time)
    ensures var db' := Serve(cfg, db, req, now).db;
            if Bypass(db, u, req) || Admitted(cfg, db, u, req) then CountLive(db', u) == CountLive(db, u) + 1
            else CountLive(db', u) <= CountLive(db, u)
  {
    var db' := Serve(cfg, db, req, now).db;
    if Bypass(db, u, req) || Admitted(cfg, db, u, req) {
      LiveAdded(db, db', u, req.id);
    } else if !req.ExpireTombstones? && req.id in LiveIds(db, u) && req.id !in LiveIds(db', u) {
      LiveShrinks(db, db', u, req.id);
    } else {
      assert LiveIds(db', u) == LiveIds(db, u);
    }
  }

  /** On the free plan, the live count passes max(previous count, limit) exactly when a
      bypass happens at or above the limit. */
  lemma QuotaPassedIff(cfg: Config, db: DB, u: UserId, req: Request, now: Time)
    requires u in cfg.plans && cfg.plans[u] == FREE
    ensures var n := CountLive(db, u); var n' := CountLive(Serve(cfg, db, req, now).db, u);
            n' > Max(n, cfg.freeNoteLimit) <==> Bypass(db, u, req) && n >= cfg.freeNoteLimit
  {
    LiveCountStep(cfg, db, u, req, now);
  }

  /** With a limit of one note: create, trash, create another, and then the two bypasses. */
  function BypassRequests(): seq<Timed> {
    [Timed(PutNote(0, 1, [], None), 1), Timed(TrashNote(0, 1), 2), Timed(PutNote(0, 2, [], None), 3),
     Timed(RestoreNote(0, 1), 4), Timed(PutNote(0, 3, [], Some(0)), 5)]
  }

  /** Both bypasses happen: restoring the trashed note leaves two live notes, and a versioned
      upsert of an id nobody has leaves three. */
  lemma BypassesHappen()
    ensures var cfg, reqs := Config(map[0 := FREE], 1), BypassRequests();
            && OrderedRequests(0, reqs)
            && CountLive(RunService(cfg, EMPTY_DB, reqs[..3]), 0) == 1
            && CountLive(RunService(cfg, EMPTY_DB, reqs[..4]), 0) == 2
            && CountLive(RunService(cfg, EMPTY_DB, reqs[..5]), 0) == 3
            && reqs[..5] == reqs
  {
    hide Serve, LiveIds, OrderedRequests, RunService;
    var cfg, reqs := Config(map[0 := FREE], 1), BypassRequests();
    InOrder();
    var db1 := DB(map[1 := Note(0, [], 1, 1, None)], map[]);
    var db2 := DB(map[1 := Note(0, [], 1, 2, Some(2))], map[]);
    var db3 := DB(map[1 := Note(0, [], 1, 2, Some(2)), 2 := Note(0, [], 3, 3, None)], map[]);
    var db4 := DB(map[1 := Note(0, [], 1, 4, None), 2 := Note(0, [], 3, 3, None)], map[]);
    var db5 := DB(map[1 := Note(0, [], 1, 4, None), 2 := Note(0, [], 3, 3, None), 3 := Note(0, [], 5, 5, None)], map[]);
    assert RunService(cfg, EMPTY_DB, reqs[..0]) == EMPTY_DB by { ServeNothing(cfg, EMPTY_DB); assert reqs[..0] == []; }
    LiveFrom(EMPTY_DB, {});
    PutNew(cfg, EMPTY_DB, 1, None, 1);
    ServeNext(cfg, reqs, 0, EMPTY_DB, db1);
    RowSet(cfg, db1, 1, 2);
    ServeNext(cfg, reqs, 1, db1, db2);
    LiveFrom(db2, {});
    PutNew(cfg, db2, 2, None, 3);
    ServeNext(cfg, reqs, 2, db2, db3);
    RowSet(cfg, db3, 1, 4);
    ServeNext(cfg, reqs, 3, db3, db4);
    PutNew(cfg, db4, 3, Some(0), 5);
    ServeNext(cfg, reqs, 4, db4, db5);
    LiveFrom(db3, {2});
    LiveFrom(db4, {1, 2});
    LiveFrom(db5, {1, 2, 3});
  }

  lemma InOrder()
    ensures OrderedRequests(0, BypassRequests())
  {
    var reqs := BypassRequests();
    assert reqs[4..][1..] == [] && reqs[3..][1..] == reqs[4..] && reqs[2..][1..] == reqs[3..] && reqs[1..][1..] == reqs[2..];
    assert OrderedRequests(4, reqs[4..]);
    assert OrderedRequests(3, reqs[3..]);
    assert OrderedRequests(2, reqs[2..]);
  }

  lemma ServeNothing(cfg: Config, db: DB)
    ensures RunService(cfg, db, []) == db
  {
  }

  lemma ServeNext(cfg: Config, reqs: seq<Timed>, i: nat, db: DB, db': DB)
    requires i < |reqs| && RunService(cfg, EMPTY_DB, reqs[..i]) == db && Serve(cfg, db, reqs[i].req, reqs[i].now).db == db'
    ensures RunService(cfg, EMPTY_DB, reqs[..i + 1]) == db'
  {
    hide Serve;
    ServeThen(cfg, EMPTY_DB, reqs[..i], reqs[i]);
    assert reqs[..i + 1] == reqs[..i] + [reqs[i]];
  }

  lemma LiveFrom(db: DB, ids: set<Id>)
    requires forall id :: id in ids <==> id in db.notes && db.notes[id].user == 0 && db.notes[id].trashedAt.None?
    ensures LiveIds(db, 0) == ids
  {
  }

  lemma PutNew(cfg: Config, db: DB, id: Id, base: Option<Time>, now: Time)
    requires id !in db.notes && cfg.plans == map[0 := FREE] && (base.None? ==> CountLive(db, 0) < cfg.freeNoteLimit)
    ensures Serve(cfg, db, PutNote(0, id, [], base), now).db == WithNote(db, id, Note(0, [], now, now, None))
  {
  }

  lemma RowSet(cfg: Config, db: DB, id: Id, now: Time)
    requires Owns(db, 0, id)
    ensures Serve(cfg, db, TrashNote(0, id), now).db
         == WithNote(db, id, db.notes[id].(trashedAt := Some(now), updatedAt := now))
    ensures Serve(cfg, db, RestoreNote(0, id), now).db
         == WithNote(db, id, db.notes[id].(trashedAt := None, updatedAt := now))
  {
  }

  lemma {:induction false} ServeThen(cfg: Config, db: DB, reqs: seq<Timed>, last: Timed)
    ensures RunService(cfg, db, reqs + [last]) == Serve(cfg, RunService(cfg, db, reqs), last.req, last.now).db
    decreases |reqs|
  {
    hide Serve;
    if reqs == [] {
      assert reqs + [last] == [last] && [last][1..] == [];
    } else {
      assert (reqs + [last])[0] == reqs[0] && (reqs + [last])[1..] == reqs[1..] + [last];
      ServeThen(cfg, Serve(cfg, db, reqs[0].req, reqs[0].now).db, reqs[1..], last);
    }
  }

  function Bypasses(cfg: Config, db: DB, u: UserId, reqs: seq<Timed>): nat
    decreases |reqs|
  {
    if reqs == [] then 0
    else
      (if Bypass(db, u, reqs[0].req) then 1 else 0)
      + Bypasses(cfg, Serve(cfg, db, reqs[0].req, reqs[0].now).db, u, reqs[1..])
  }

  /** Whole-run accounting: sequential requests take a free user's live notes past
      max(initial count, limit) only by the number of bypasses among them. */
  lemma {:induction false} QuotaRun(cfg: Config, db: DB, u: UserId, reqs: seq<Timed>)
    requires u in cfg.plans && cfg.plans[u] == FREE
    ensures CountLive(RunService(cfg, db, reqs), u)
         <= Max(CountLive(db, u), cfg.freeNoteLimit) + Bypasses(cfg, db, u, reqs)
    decreases |reqs|
  {
    hide Serve, CountLive, Bypass, Admitted;
    if reqs == [] {
    } else {
      LiveCountStep(cfg, db, u, reqs[0].req, reqs[0].now);
      AdmittedBelowLimit(cfg, db, u, reqs[0].req);
      QuotaRun(cfg, Serve(cfg, db, reqs[0].req, reqs[0].now).db, u, reqs[1..]);
    }
  }

  lemma AdmittedBelowLimit(cfg: Config, db: DB, u: UserId, req: Request)
    requires u in cfg.plans && cfg.plans[u] == FREE
    ensures Admitted(cfg, db, u, req) ==> CountLive(db, u) < cfg.freeNoteLimit && !Bypass(db, u, req)
  {
  }

  /** An upsert never changes the trashed state, the owner or the creation time of a note
      that exists. */
  lemma UpsertKeepsTrashed(cfg: Config, db: DB, req: Request, now: Time)
    requires req.PutNote? && req.id in db.notes
    ensures var n, n' := db.notes[req.id], Serve(cfg, db, req, now).db.notes[req.id];
            n' == n || n' == n.(payload := req.payload, updatedAt := now)
  {
  }

  // ---------- non-interference ----------

  predicate IsOf(req: Request, u: UserId) {
    req.ExpireTombstones? || req.user == u
  }

  /** Whatever ids they use, another user's requests never change this user's rows. */
  lemma OthersNeverTouch(cfg: Config, db: DB, u: UserId, req: Request, now: Time)
    requires !IsOf(req, u)
    ensures var db' := Serve(cfg, db, req, now).db;
            UserNotes(db', u) == UserNotes(db, u) && UserTombs(db', u) == UserTombs(db, u)
            && CountLive(db', u) == CountLive(db, u)
  {
    hide Serve;
    ServeIsApply(cfg, db, req, now);
    if Serve(cfg, db, req, now).db != db {
      OthersApply(db, u, OpOf(req), now);
    }
  }

  lemma OthersApply(db: DB, u: UserId, op: Op, now: Time)
    requires !op.Expire? && op.user != u
    ensures var db' := Apply(db, op, now).db;
            UserNotes(db', u) == UserNotes(db, u) && UserTombs(db', u) == UserTombs(db, u)
            && CountLive(db', u) == CountLive(db, u)
  {
    var db' := Apply(db, op, now).db;
    SameViewSameCount(db, db', u) by { assert SameView(db, db', u); }
  }

  /** The users work on disjoint ids: u inside A, everyone else outside. */
  ghost predicate Disjoint(reqs: seq<Timed>, u: UserId, A: iset<Id>) {
    forall r | r in reqs && !r.req.ExpireTombstones? :: r.req.id in A <==> r.req.user == u
  }

  ghost predicate Separated(db: DB, u: UserId, A: iset<Id>) {
    && (forall id | id in db.notes :: id in A <==> db.notes[id].user == u)
    && (forall id | id in db.tombs :: id in A <==> db.tombs[id].user == u)
  }

  function Only(reqs: seq<Timed>, u: UserId): seq<Timed>
    decreases |reqs|
  {
    if reqs == [] then []
    else (if IsOf(reqs[0].req, u) then [reqs[0]] else []) + Only(reqs[1..], u)
  }

  /** The responses to u's own requests within a run. */
  function ResponsesTo(cfg: Config, db: DB, reqs: seq<Timed>, u: UserId): seq<Response>
    decreases |reqs|
  {
    if reqs == [] then []
    else
      var reply := Serve(cfg, db, reqs[0].req, reqs[0].now);
      (if IsOf(reqs[0].req, u) then [reply.response] else []) + ResponsesTo(cfg, reply.db, reqs[1..], u)
  }

  ghost predicate SameView(db: DB, db': DB, u: UserId) {
    UserNotes(db, u) == UserNotes(db', u) && UserTombs(db, u) == UserTombs(db', u)
  }

  lemma SameViewSameCount(db: DB, db': DB, u: UserId)
    requires SameView(db, db', u)
    ensures CountLive(db, u) == CountLive(db', u)
  {
    forall id ensures id in LiveIds(db, u) <==> id in LiveIds(db', u) {
      assert id in UserNotes(db, u) <==> id in UserNotes(db', u);
    }
    assert LiveIds(db, u) == LiveIds(db', u);
  }

  lemma SeparatedStep(cfg: Config, db: DB, u: UserId, A: iset<Id>, req: Request, now: Time)
    requires Separated(db, u, A)
    requires !req.ExpireTombstones? ==> (req.id in A <==> req.user == u)
    ensures Separated(Serve(cfg, db, req, now).db, u, A)
  {
    ServeIsApply(cfg, db, req, now);
  }

  /** The view, id by id. */
  ghost predicate SameAt(db: DB, db': DB, u: UserId, x: Id) {
    && (Owns(db, u, x) <==> Owns(db', u, x))
    && (Owns(db, u, x) ==> db.notes[x] == db'.notes[x])
    && (x in db.tombs && db.tombs[x].user == u <==> x in db'.tombs && db'.tombs[x].user == u)
    && (x in db.tombs && db.tombs[x].user == u ==> db.tombs[x] == db'.tombs[x])
  }

  lemma ViewAt(db: DB, db': DB, u: UserId)
    ensures SameView(db, db', u) <==> forall x :: SameAt(db, db', u, x)
  {
    if SameView(db, db', u) {
      forall x ensures SameAt(db, db', u, x) {
        assert x in UserNotes(db, u) <==> x in UserNotes(db', u);
        assert x in UserTombs(db, u) <==> x in UserTombs(db', u);
        assert x in UserNotes(db, u) ==> UserNotes(db, u)[x] == UserNotes(db', u)[x];
        assert x in UserTombs(db, u) ==> UserTombs(db, u)[x] == UserTombs(db', u)[x];
      }
    }
    if forall x :: SameAt(db, db', u, x) {
      forall x ensures x in UserNotes(db, u) <==> x in UserNotes(db', u) { assert SameAt(db, db', u, x); }
      forall x ensures x in UserTombs(db, u) <==> x in UserTombs(db', u) { assert SameAt(db, db', u, x); }
      forall x | x in UserNotes(db, u) ensures UserNotes(db, u)[x] == UserNotes(db', u)[x] { assert SameAt(db, db', u, x); }
      forall x | x in UserTombs(db, u) ensures UserTombs(db, u)[x] == UserTombs(db', u)[x] { assert SameAt(db, db', u, x); }
    }
  }

  lemma OwnApply(db: DB, db': DB, u: UserId, A: iset<Id>, op: Op, now: Time)
    requires Separated(db, u, A) && Separated(db', u, A) && SameView(db, db', u)
    requires op.Expire? || (op.user == u && op.id in A)
    ensures SameView(Apply(db, op, now).db, Apply(db', op, now).db, u)
  {
    hide SameView;
    var S, S' := Apply(db, op, now).db, Apply(db', op, now).db;
    ViewAt(db, db', u);
    ViewAt(S, S', u);
    if !op.Expire? { SameRow(db, db', u, A, op.id); }
    forall x ensures SameAt(S, S', u, x) {
      assert SameAt(db, db', u, x);
    }
  }

  /** On stores that look the same to u, u's own request does the same. */
  lemma OwnStep(cfg: Config, db: DB, db': DB, u: UserId, A: iset<Id>, req: Request, now: Time)
    requires Separated(db, u, A) && Separated(db', u, A) && SameView(db, db', u)
    requires IsOf(req, u) && (!req.ExpireTombstones? ==> req.id in A)
    ensures var r, r' := Serve(cfg, db, req, now), Serve(cfg, db', req, now);
            r.response == r'.response && SameView(r.db, r'.db, u)
  {
    hide SameView, Separated;
    SameViewSameCount(db, db', u);
    if !req.ExpireTombstones? { SameRow(db, db', u, A, req.id); }
    OwnApply(db, db', u, A, OpOf(req), now);
  }

  lemma SameRow(db: DB, db': DB, u: UserId, A: iset<Id>, id: Id)
    requires Separated(db, u, A) && Separated(db', u, A) && SameView(db, db', u) && id in A
    ensures id in db.notes <==> id in db'.notes
    ensures id in db.notes ==> db.notes[id] == db'.notes[id] && db.notes[id].user == u
    ensures id in db.tombs <==> id in db'.tombs
    ensures id in db.tombs ==> db.tombs[id] == db'.tombs[id] && db.tombs[id].user == u
  {
    ViewAt(db, db', u);
    assert SameAt(db, db', u, id);
  }

  /** Equal views give equal pages, full and delta alike. */
  lemma SameViewSamePages(db: DB, db': DB, u: UserId, since: Option<Time>, cursor: Option<Key>, limit: nat)
    requires SameView(db, db', u)
    ensures GetNotesSince(db, u, since, cursor, limit) == GetNotesSince(db', u, since, cursor, limit)
  {
    ViewAt(db, db', u);
    SameWindows(db, db', u, since);
    hide SameView;
    SameNotesHalf(db, db', u, since, cursor, limit);
    SameTombsHalf(db, db', u, since, cursor, limit);
  }

  lemma SameNotesHalf(db: DB, db': DB, u: UserId, since: Option<Time>, cursor: Option<Key>, limit: nat)
    requires NoteWindow(db, u, since) == NoteWindow(db', u, since)
    requires forall k | k in NoteWindow(db, u, since) ::
               k.id in db.notes && k.id in db'.notes && db.notes[k.id] == db'.notes[k.id]
    ensures NotesHalf(db, u, since, cursor, limit) == NotesHalf(db', u, since, cursor, limit)
  {
    hide NoteWindow;
    var N := NoteWindow(db, u, since);
    PageCut(N, CursorKey(cursor), limit + 1);
    SameRows(db, db', Page(N, CursorKey(cursor), limit + 1), []);
  }

  lemma SameTombsHalf(db: DB, db': DB, u: UserId, since: Option<Time>, cursor: Option<Key>, limit: nat)
    requires TombWindow(db, u, since) == TombWindow(db', u, since)
    requires forall k | k in TombWindow(db, u, since) ::
               k.id in db.tombs && k.id in db'.tombs && db.tombs[k.id] == db'.tombs[k.id]
    ensures TombsHalf(db, u, since, cursor, limit) == TombsHalf(db', u, since, cursor, limit)
  {
    hide TombWindow;
    var T := TombWindow(db, u, since);
    PageCut(T, CursorKey(cursor), limit + 1);
    OrderBySorts(T);
    SameRows(db, db', [], Page(T, CursorKey(cursor), limit + 1));
    SameRows(db, db', [], OrderBy(T));
  }

  lemma SameWindows(db: DB, db': DB, u: UserId, since: Option<Time>)
    requires forall x :: SameAt(db, db', u, x)
    ensures NoteWindow(db, u, since) == NoteWindow(db', u, since)
    ensures TombWindow(db, u, since) == TombWindow(db', u, since)
    ensures forall k | k in NoteWindow(db, u, since) ::
              k.id in db.notes && k.id in db'.notes && db.notes[k.id] == db'.notes[k.id]
    ensures forall k | k in TombWindow(db, u, since) ::
              k.id in db.tombs && k.id in db'.tombs && db.tombs[k.id] == db'.tombs[k.id]
  {
    forall k
      ensures k in NoteWindow(db, u, since) <==> k in NoteWindow(db', u, since)
      ensures k in TombWindow(db, u, since) <==> k in TombWindow(db', u, since)
    {
      assert SameAt(db, db', u, k.id);
      InNoteWindow(db, u, since, k);
      InNoteWindow(db', u, since, k);
      InTombWindow(db, u, since, k);
      InTombWindow(db', u, since, k);
    }
    forall k | k in NoteWindow(db, u, since)
      ensures k.id in db.notes && k.id in db'.notes && db.notes[k.id] == db'.notes[k.id]
    {
      assert SameAt(db, db', u, k.id);
      InNoteWindow(db, u, since, k);
    }
    forall k | k in TombWindow(db, u, since)
      ensures k.id in db.tombs && k.id in db'.tombs && db.tombs[k.id] == db'.tombs[k.id]
    {
      assert SameAt(db, db', u, k.id);
      InTombWindow(db, u, since, k);
    }
  }

  lemma SameRows(db: DB, db': DB, ns: seq<Key>, ts: seq<Key>)
    requires forall k | k in ns :: k.id in db.notes && k.id in db'.notes && db.notes[k.id] == db'.notes[k.id]
    requires forall k | k in ts :: k.id in db.tombs && k.id in db'.tombs && db.tombs[k.id] == db'.tombs[k.id]
    ensures NoteRows(db, ns) == NoteRows(db', ns)
    ensures TombRows(db, ts) == TombRows(db', ts)
  {
    forall i | 0 <= i < |ns| ensures NoteRows(db, ns)[i] == NoteRows(db', ns)[i] { assert ns[i] in ns; }
    forall i | 0 <= i < |ts| ensures TombRows(db, ts)[i] == TombRows(db', ts)[i] { assert ts[i] in ts; }
  }

  /** User non-interference: deleting every other user's requests from a run leaves this
      user's rows, tombstones, live count and responses as they were. */
  lemma {:induction false} NonInterference(cfg: Config, db: DB, db': DB, reqs: seq<Timed>, u: UserId, A: iset<Id>)
    requires Separated(db, u, A) && Separated(db', u, A) && SameView(db, db', u)
    requires Disjoint(reqs, u, A)
    ensures SameView(RunService(cfg, db, reqs), RunService(cfg, db', Only(reqs, u)), u)
    ensures CountLive(RunService(cfg, db, reqs), u) == CountLive(RunService(cfg, db', Only(reqs, u)), u)
    ensures ResponsesTo(cfg, db, reqs, u) == Responses(cfg, db', Only(reqs, u))
    decreases |reqs|
  {
    hide Serve, Separated, CountLive;
    if reqs == [] {
      SameViewSameCount(db, db', u);
    } else {
      var r := reqs[0];
      assert r in reqs;
      SeparatedStep(cfg, db, u, A, r.req, r.now);
      var next := Serve(cfg, db, r.req, r.now).db;
      if IsOf(r.req, u) {
        SeparatedStep(cfg, db', u, A, r.req, r.now);
        OwnStep(cfg, db, db', u, A, r.req, r.now);
        NonInterference(cfg, next, Serve(cfg, db', r.req, r.now).db, reqs[1..], u, A);
        assert Only(reqs, u)[1..] == Only(reqs[1..], u);
      } else {
        OthersNeverTouch(cfg, db, u, r.req, r.now);
        NonInterference(cfg, next, db', reqs[1..], u, A);
        assert Only(reqs, u) == Only(reqs[1..], u);
      }
    }
  }

  /** The same, from one store: the user cannot tell whether the others were there, by the
      rows, the live count, the responses, or any page of any sync afterwards. */
  lemma UserAlone(cfg: Config, db: DB, reqs: seq<Timed>, u: UserId, A: iset<Id>, since: Option<Time>, cursor: Option<Key>, limit: nat)
    requires Separated(db, u, A) && Disjoint(reqs, u, A)
    ensures var S, S' := RunService(cfg, db, reqs), RunService(cfg, db, Only(reqs, u));
            && SameView(S, S', u) && CountLive(S, u) == CountLive(S', u)
            && GetNotesSince(S, u, since, cursor, limit) == GetNotesSince(S', u, since, cursor, limit)
    ensures ResponsesTo(cfg, db, reqs, u) == Responses(cfg, db, Only(reqs, u))
  {
    NonInterference(cfg, db, db, reqs, u, A);
    SameViewSamePages(RunService(cfg, db, reqs), RunService(cfg, db, Only(reqs, u)), u, since, cursor, limit);
  }
}

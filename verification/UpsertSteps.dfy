/** Upserts as the separate repository calls they are: look up, plan, count, write, read
    back. Any number of requests are in flight and their calls interleave freely with each
    other and with the single-call operations. */
module UpsertSteps {
  import opened Wrappers
  import opened NotesModel
  import opened SyncModel
  import opened ServiceModel

  /** On what grounds a request may write. */
  datatype Grounds = Versioned | Repush | Unlimited | Counted

  datatype Stage =
    | Looking
    | NeedPlan
    | NeedCount
    | MayWrite(grounds: Grounds, checkedAt: Time)
    | Written(created: bool)
    | Replied(response: Response)

  datatype Call = Call(user: UserId, id: Id, payload: Payload, base: Option<Time>, stage: Stage)

  datatype System = System(db: DB, clock: Time, plans: map<UserId, Plan>, calls: map<nat, Call>)

  datatype Event =
    | Arrive(r: nat, call: Call)
    | Advance(r: nat, now: Time)
    | Other(op: Op, now: Time)
    | SetPlan(user: UserId, plan: Plan)

  /** The next repository call of one request: its effect on the store and its next stage. */
  function Proceed(limit: int, s: System, c: Call, now: Time): (DB, Stage) {
    match c.stage
    case Looking =>
      var existing := FindByID(s.db, c.user, c.id);
      if c.base.Some? then
        if existing.Some? && existing.value.note.updatedAt > c.base.value then (s.db, Replied(Conflict(existing.value)))
        else (s.db, MayWrite(Versioned, s.clock))
      else if existing.Some? then (s.db, MayWrite(Repush, s.clock))
      else (s.db, NeedPlan)
    case NeedPlan =>
      if c.user !in s.plans then (s.db, Replied(PlanUnknown))
      else if s.plans[c.user] != FREE then (s.db, MayWrite(Unlimited, s.clock))
      else (s.db, NeedCount)
    case NeedCount =>
      if CountLive(s.db, c.user) >= limit then (s.db, Replied(QuotaExceeded))
      else (s.db, MayWrite(Counted, s.clock))
    case MayWrite(grounds, checkedAt) =>
      var step := UpsertRow(s.db, c.user, c.id, c.payload, now);
      (step.db, if step.outcome.NotFound? then Replied(NoteNotFound) else Written(grounds.Counted? || grounds.Unlimited?))
    case Written(created) =>
      (s.db, match FindByID(s.db, c.user, c.id)
             case Some(row) => Replied(Saved(row, created))
             case None => Replied(NoteNotFound))
    case Replied(response) => (s.db, c.stage)
  }

  predicate Writes(s: System, r: nat) {
    r in s.calls && s.calls[r].stage.MayWrite?
  }

  function Next(limit: int, s: System, e: Event): System {
    match e
    case Arrive(r, call) => if r in s.calls then s else s.(calls := s.calls[r := call.(stage := Looking)])
    case Advance(r, now) =>
      if r !in s.calls then s else
        var (db, stage) := Proceed(limit, s, s.calls[r], now);
        s.(db := db, calls := s.calls[r := s.calls[r].(stage := stage)], clock := if Writes(s, r) then now else s.clock)
    case Other(op, now) => s.(db := Apply(s.db, op, now).db, clock := now)
    case SetPlan(user, plan) => s.(plans := s.plans[user := plan])
  }

  /** Writes take increasing instants; upserts come only from requests. */
  ghost predicate Allowed(s: System, e: Event) {
    match e
    case Arrive(r, call) => true
    case Advance(r, now) => Writes(s, r) ==> now > s.clock
    case Other(op, now) => now > s.clock && !op.Upsert?
    case SetPlan(user, plan) => true
  }

  function RunSystem(limit: int, s: System, es: seq<Event>): System
    decreases |es|
  {
    if es == [] then s else RunSystem(limit, Next(limit, s, es[0]), es[1..])
  }

  ghost predicate AllowedRun(limit: int, s: System, es: seq<Event>)
    decreases |es|
  {
    es != [] ==> Allowed(s, es[0]) && AllowedRun(limit, Next(limit, s, es[0]), es[1..])
  }

  lemma RunStep(limit: int, s: System, e: Event, es: seq<Event>)
    ensures RunSystem(limit, s, [e] + es) == RunSystem(limit, Next(limit, s, e), es)
    ensures AllowedRun(limit, s, [e] + es) <==> Allowed(s, e) && AllowedRun(limit, Next(limit, s, e), es)
  {
    hide Next, Allowed;
    assert ([e] + es)[0] == e && ([e] + es)[1..] == es;
  }

  lemma {:induction false} RunConcat(limit: int, s: System, es: seq<Event>, more: seq<Event>)
    ensures RunSystem(limit, s, es + more) == RunSystem(limit, RunSystem(limit, s, es), more)
    ensures AllowedRun(limit, s, es + more) <==> AllowedRun(limit, s, es) && AllowedRun(limit, RunSystem(limit, s, es), more)
    decreases |es|
  {
    hide Next, Allowed;
    if es == [] {
      assert es + more == more;
    } else {
      assert (es + more)[0] == es[0] && (es + more)[1..] == es[1..] + more;
      RunConcat(limit, Next(limit, s, es[0]), es[1..], more);
    }
  }

  // ---------- one request alone ----------

  function AdvanceTimes(limit: int, s: System, r: nat, now: Time, n: nat): (end: System)
    ensures r in s.calls ==> r in end.calls
    decreases n
  {
    if n == 0 then s else AdvanceTimes(limit, Next(limit, s, Advance(r, now)), r, now, n - 1)
  }

  /** With nothing in between, the calls of one request amount to the atomic request. */
  lemma AloneIsAtomic(limit: int, s: System, r: nat, now: Time)
    requires r in s.calls && s.calls[r].stage.Looking? && now > s.clock
    ensures var c := s.calls[r];
            var reply := Serve(Config(s.plans, limit), s.db, PutNote(c.user, c.id, c.payload, c.base), now);
            var end := AdvanceTimes(limit, s, r, now, 5);
            end.db == reply.db && end.calls[r].stage == Replied(reply.response)
  {
    var s1 := Next(limit, s, Advance(r, now));
    var s2 := Next(limit, s1, Advance(r, now));
    var s3 := Next(limit, s2, Advance(r, now));
    var s4 := Next(limit, s3, Advance(r, now));
    var s5 := Next(limit, s4, Advance(r, now));
    UnrollFive(limit, s, r, now);
    match s1.calls[r].stage {
      case MayWrite(grounds, checkedAt) => WriteAlone(limit, s1, r, now);
      case NeedPlan =>
        if s2.calls[r].stage.NeedCount? {
          if s3.calls[r].stage.MayWrite? { WriteAlone(limit, s3, r, now); }
        } else if s2.calls[r].stage.MayWrite? { WriteAlone(limit, s2, r, now); }
      case _ =>
    }
  }

  lemma UnrollFive(limit: int, s: System, r: nat, now: Time)
    ensures var s1 := Next(limit, s, Advance(r, now)); var s2 := Next(limit, s1, Advance(r, now));
            var s3 := Next(limit, s2, Advance(r, now)); var s4 := Next(limit, s3, Advance(r, now));
            AdvanceTimes(limit, s, r, now, 5) == Next(limit, s4, Advance(r, now))
  {
    hide Next;
    var s1 := Next(limit, s, Advance(r, now));
    var s2 := Next(limit, s1, Advance(r, now));
    var s3 := Next(limit, s2, Advance(r, now));
    var s4 := Next(limit, s3, Advance(r, now));
    assert AdvanceTimes(limit, s4, r, now, 1) == AdvanceTimes(limit, Next(limit, s4, Advance(r, now)), r, now, 0);
    assert AdvanceTimes(limit, s3, r, now, 2) == AdvanceTimes(limit, s4, r, now, 1);
    assert AdvanceTimes(limit, s1, r, now, 4) == AdvanceTimes(limit, s2, r, now, 3);
  }

  lemma WriteAlone(limit: int, s: System, r: nat, now: Time)
    requires r in s.calls && s.calls[r].stage.MayWrite?
    ensures var c := s.calls[r]; var g := c.stage.grounds;
            var reply := Write(s.db, c.user, c.id, c.payload, g.Counted? || g.Unlimited?, now);
            var s2 := Next(limit, Next(limit, s, Advance(r, now)), Advance(r, now));
            && s2.db == reply.db && s2.calls[r].stage == Replied(reply.response)
            && Next(limit, s2, Advance(r, now)) == s2
  {
  }

  // ---------- quota ----------

  /** The creates of u between their count and their insert. */
  function InFlight(s: System, u: UserId): set<nat> {
    set r | r in s.calls && s.calls[r].user == u && s.calls[r].stage.MayWrite? && s.calls[r].stage.grounds.Counted?
  }

  /** Live notes plus creates already admitted. */
  function Potential(s: System, u: UserId): nat {
    CountLive(s.db, u) + |InFlight(s, u)|
  }

  /** A live note of u that appears without a count: restoring a trashed note, or a
      versioned upsert or re-push that finds its row gone when it writes. */
  predicate Bypass(s: System, u: UserId, e: Event) {
    match e
    case Other(op, now) => op.Restore? && op.user == u && Owns(s.db, u, op.id) && s.db.notes[op.id].trashedAt.Some?
    case Advance(r, now) =>
      Writes(s, r) && s.calls[r].user == u && !s.calls[r].stage.grounds.Counted? && s.calls[r].id !in s.db.notes
    case _ => false
  }

  ghost predicate StaysFree(s: System, u: UserId, e: Event) {
    u in s.plans && s.plans[u] == FREE && (e.SetPlan? && e.user == u ==> e.plan == FREE)
  }

  function Bypasses(limit: int, s: System, u: UserId, es: seq<Event>): nat
    decreases |es|
  {
    if es == [] then 0
    else (if Bypass(s, u, es[0]) then 1 else 0) + Bypasses(limit, Next(limit, s, es[0]), u, es[1..])
  }

  ghost predicate AtMostInFlight(limit: int, s: System, u: UserId, es: seq<Event>, k: nat)
    decreases |es|
  {
    && |InFlight(s, u)| <= k
    && (es != [] ==> AtMostInFlight(limit, Next(limit, s, es[0]), u, es[1..], k))
  }

  ghost predicate FreeThroughout(limit: int, s: System, u: UserId, es: seq<Event>)
    decreases |es|
  {
    es != [] ==> StaysFree(s, u, es[0]) && FreeThroughout(limit, Next(limit, s, es[0]), u, es[1..])
  }

  lemma LiveAfterUpsert(db: DB, u: UserId, v: UserId, id: Id, payload: Payload, now: Time)
    ensures CountLive(UpsertRow(db, v, id, payload, now).db, u)
         == CountLive(db, u) + (if v == u && id !in db.notes then 1 else 0)
  {
    hide CountLive;
    LiveAfterRow(db, u, id, UpsertRow(db, v, id, payload, now).db);
  }

  lemma LiveAfterOther(db: DB, u: UserId, op: Op, now: Time)
    requires !op.Upsert?
    ensures var restores := op.Restore? && op.user == u && Owns(db, u, op.id) && db.notes[op.id].trashedAt.Some?;
            CountLive(Apply(db, op, now).db, u) <= CountLive(db, u) + (if restores then 1 else 0)
  {
    match op {
      case Expire(olderThan) => assert LiveIds(Apply(db, op, now).db, u) == LiveIds(db, u);
      case Restore(v, id) => LiveAfterRow(db, u, id, Apply(db, op, now).db);
      case Trash(v, id) => LiveAfterRow(db, u, id, Apply(db, op, now).db);
      case Purge(v, id) => LiveAfterRow(db, u, id, Apply(db, op, now).db);
    }
  }

  /** A write to one row moves the live count by that row alone. */
  lemma LiveAfterRow(db: DB, u: UserId, id: Id, db': DB)
    requires db'.notes - {id} == db.notes - {id}
    ensures CountLive(db', u) + (if id in LiveIds(db, u) then 1 else 0)
         == CountLive(db, u) + (if id in LiveIds(db', u) then 1 else 0)
  {
    var rest := LiveIds(DB(db.notes - {id}, db.tombs), u);
    assert LiveIds(db, u) == if id in LiveIds(db, u) then rest + {id} else rest;
    assert LiveIds(db', u) == if id in LiveIds(db', u) then rest + {id} else rest;
  }

  lemma FlightStep(limit: int, s: System, u: UserId, r: nat, now: Time)
    requires r in s.calls
    ensures var s' := Next(limit, s, Advance(r, now));
            InFlight(s', u) == if r in InFlight(s', u) then InFlight(s, u) + {r} else InFlight(s, u) - {r}
  {
  }

  /** Live notes plus creates in flight never pass limit + k - 1 by an admitted create. */
  lemma PotentialStep(limit: int, s: System, u: UserId, e: Event, k: nat)
    requires Allowed(s, e) && StaysFree(s, u, e)
    requires |InFlight(Next(limit, s, e), u)| <= k
    ensures var s' := Next(limit, s, e);
            Potential(s', u) <= Max(Potential(s, u), limit + k - 1) + (if Bypass(s, u, e) then 1 else 0)
  {
    var s' := Next(limit, s, e);
    match e {
      case Arrive(r, call) => assert InFlight(s', u) == InFlight(s, u);
      case SetPlan(user, plan) => assert InFlight(s', u) == InFlight(s, u);
      case Other(op, now) =>
        assert InFlight(s', u) == InFlight(s, u);
        LiveAfterOther(s.db, u, op, now);
      case Advance(r, now) =>
        if r in s.calls {
          AdvancePotential(limit, s, u, r, now, k);
        }
    }
  }

  lemma AdvancePotential(limit: int, s: System, u: UserId, r: nat, now: Time, k: nat)
    requires r in s.calls && StaysFree(s, u, Advance(r, now))
    requires |InFlight(Next(limit, s, Advance(r, now)), u)| <= k
    ensures var s' := Next(limit, s, Advance(r, now));
            Potential(s', u) <= Max(Potential(s, u), limit + k - 1) + (if Bypass(s, u, Advance(r, now)) then 1 else 0)
  {
    var s', c := Next(limit, s, Advance(r, now)), s.calls[r];
    hide CountLive, InFlight;
    FlightStep(limit, s, u, r, now);
    if c.stage.MayWrite? {
      LiveAfterUpsert(s.db, u, c.user, c.id, c.payload, now);
      LeavesFlight(limit, s, u, r, now);
    } else {
      StaysOut(s, u, r);
      EntersFlight(limit, s, u, r, now);
    }
  }

  lemma LeavesFlight(limit: int, s: System, u: UserId, r: nat, now: Time)
    requires r in s.calls && s.calls[r].stage.MayWrite?
    ensures var s' := Next(limit, s, Advance(r, now));
            |InFlight(s', u)| == |InFlight(s, u)| - (if s.calls[r].user == u && s.calls[r].stage.grounds.Counted? then 1 else 0)
  {
    var s' := Next(limit, s, Advance(r, now));
    if s.calls[r].user == u && s.calls[r].stage.grounds.Counted? {
      assert InFlight(s', u) == InFlight(s, u) - {r};
      assert r in InFlight(s, u);
    } else {
      assert InFlight(s', u) == InFlight(s, u);
    }
  }

  lemma StaysOut(s: System, u: UserId, r: nat)
    requires r in s.calls && !s.calls[r].stage.MayWrite?
    ensures r !in InFlight(s, u)
  {
  }

  lemma EntersFlight(limit: int, s: System, u: UserId, r: nat, now: Time)
    requires r in s.calls && !s.calls[r].stage.MayWrite?
    ensures var s' := Next(limit, s, Advance(r, now));
            && s'.db == s.db
            && (|InFlight(s', u)| == |InFlight(s, u)| || CountLive(s.db, u) < limit)
  {
    var s' := Next(limit, s, Advance(r, now));
    if r !in InFlight(s', u) {
      assert InFlight(s', u) == InFlight(s, u);
    }
  }

  /** Concurrent quota bound. For a user who stays on the free plan, with at most k creates
      between their count and their insert at any time, no interleaving takes the live
      notes past max(initial, limit + k - 1) other than by the number of bypasses. */
  lemma {:induction false} ConcurrentQuota(limit: int, s: System, u: UserId, es: seq<Event>, k: nat)
    requires AllowedRun(limit, s, es) && FreeThroughout(limit, s, u, es) && AtMostInFlight(limit, s, u, es, k)
    ensures var end := RunSystem(limit, s, es);
            Potential(end, u) <= Max(Potential(s, u), limit + k - 1) + Bypasses(limit, s, u, es)
    decreases |es|
  {
    hide Next, Potential, InFlight, Allowed, StaysFree, Bypass;
    if es == [] {
    } else {
      PotentialStep(limit, s, u, es[0], k);
      ConcurrentQuota(limit, Next(limit, s, es[0]), u, es[1..], k);
    }
  }

  /** With no create in flight at the start: k = 1 keeps to max(initial, limit). */
  lemma QuotaFromRest(limit: int, s: System, u: UserId, es: seq<Event>, k: nat)
    requires AllowedRun(limit, s, es) && FreeThroughout(limit, s, u, es) && AtMostInFlight(limit, s, u, es, k)
    requires InFlight(s, u) == {} && Bypasses(limit, s, u, es) == 0
    ensures CountLive(RunSystem(limit, s, es).db, u) <= Max(CountLive(s.db, u), limit + k - 1)
    ensures k == 1 ==> CountLive(RunSystem(limit, s, es).db, u) <= Max(CountLive(s.db, u), limit)
  {
    ConcurrentQuota(limit, s, u, es, k);
  }

  /** The bound is attained: two creates that both count before either writes take a user
      one below the limit to one above it. */
  lemma TwoCreatesOvershoot(limit: int, s: System, u: UserId, a: nat, b: nat, t: Time)
    requires a in s.calls && b in s.calls && a != b && t > s.clock
    requires s.calls[a].stage.NeedCount? && s.calls[b].stage.NeedCount?
    requires s.calls[a].user == u == s.calls[b].user && s.calls[a].id != s.calls[b].id
    requires s.calls[a].id !in s.db.notes && s.calls[b].id !in s.db.notes
    requires CountLive(s.db, u) == limit - 1
    ensures var es := [Advance(a, t), Advance(b, t), Advance(a, t), Advance(b, t + 1)];
            AllowedRun(limit, s, es) && CountLive(RunSystem(limit, s, es).db, u) == limit + 1
  {
    var es := [Advance(a, t), Advance(b, t), Advance(a, t), Advance(b, t + 1)];
    var s1 := Next(limit, s, es[0]);
    var s2 := Next(limit, s1, es[1]);
    var s3 := Next(limit, s2, es[2]);
    var s4 := Next(limit, s3, es[3]);
    hide CountLive;
    LiveAfterUpsert(s2.db, u, u, s.calls[a].id, s.calls[a].payload, t);
    LiveAfterUpsert(s3.db, u, u, s.calls[b].id, s.calls[b].payload, t + 1);
    hide Next;
    RunStep(limit, s3, es[3], []);
    RunStep(limit, s2, es[2], [es[3]] + []);
    RunStep(limit, s1, es[1], [es[2]] + ([es[3]] + []));
    RunStep(limit, s, es[0], [es[1]] + ([es[2]] + ([es[3]] + [])));
    assert es == [es[0]] + ([es[1]] + ([es[2]] + ([es[3]] + [])));
  }

  // ---------- the quota bound is attained ----------

  /** The hypotheses of the concurrent bound, for a run without bypasses. */
  ghost predicate WithinBound(limit: int, s: System, u: UserId, es: seq<Event>, k: nat) {
    && AllowedRun(limit, s, es) && FreeThroughout(limit, s, u, es) && AtMostInFlight(limit, s, u, es, k)
    && Bypasses(limit, s, u, es) == 0
  }

  lemma NothingWithin(limit: int, s: System, u: UserId, k: nat)
    requires |InFlight(s, u)| <= k
    ensures WithinBound(limit, s, u, [], k) && RunSystem(limit, s, []) == s
  {
  }

  lemma WithinBoundStep(limit: int, s: System, u: UserId, e: Event, es: seq<Event>, k: nat)
    requires Allowed(s, e) && StaysFree(s, u, e) && !Bypass(s, u, e) && |InFlight(s, u)| <= k
    requires WithinBound(limit, Next(limit, s, e), u, es, k)
    ensures WithinBound(limit, s, u, [e] + es, k)
    ensures RunSystem(limit, s, [e] + es) == RunSystem(limit, Next(limit, s, e), es)
  {
    hide Next, Allowed, StaysFree, Bypass, InFlight;
    assert ([e] + es)[0] == e && ([e] + es)[1..] == es;
  }

  function Counts(rs: seq<nat>, t: Time): seq<Event> {
    if rs == [] then [] else [Advance(rs[0], t)] + Counts(rs[1..], t)
  }

  function Inserts(rs: seq<nat>, t: Time): seq<Event> {
    if rs == [] then [] else [Advance(rs[0], t)] + Inserts(rs[1..], t + 1)
  }

  predicate Distinct(rs: seq<nat>) {
    forall i, j | 0 <= i < j < |rs| :: rs[i] != rs[j]
  }

  lemma HeadIsApart(rs: seq<nat>)
    requires Distinct(rs) && rs != []
    ensures rs[0] !in rs[1..] && Distinct(rs[1..])
  {
  }

  predicate AllAt(s: System, u: UserId, rs: seq<nat>, stage: Stage) {
    forall r | r in rs :: r in s.calls && s.calls[r].user == u && s.calls[r].stage == stage
  }

  /** Creates of ids that nobody has, no two the same. */
  predicate NewIds(s: System, rs: seq<nat>) {
    && (forall r | r in rs :: r in s.calls && s.calls[r].id !in s.db.notes)
    && (forall r, q | r in rs && q in rs && r != q :: s.calls[r].id != s.calls[q].id)
  }

  function Admit(s: System, rs: seq<nat>): System
    requires forall r | r in rs :: r in s.calls
    decreases |rs|
  {
    if rs == [] then s
    else Admit(s.(calls := s.calls[rs[0] := s.calls[rs[0]].(stage := MayWrite(Counted, s.clock))]), rs[1..])
  }

  /** All of them count before any of them inserts. */
  lemma {:induction false} CountPhase(limit: int, s: System, u: UserId, rs: seq<nat>, t: Time, rest: seq<Event>, k: nat)
    requires Distinct(rs) && AllAt(s, u, rs, NeedCount) && NewIds(s, rs)
    requires u in s.plans && s.plans[u] == FREE && CountLive(s.db, u) < limit && |InFlight(s, u)| + |rs| <= k
    requires WithinBound(limit, Admit(s, rs), u, rest, k)
    ensures WithinBound(limit, s, u, Counts(rs, t) + rest, k)
    ensures RunSystem(limit, s, Counts(rs, t) + rest) == RunSystem(limit, Admit(s, rs), rest)
    decreases |rs|
  {
    hide WithinBound, CountLive, InFlight, RunSystem;
    if rs == [] {
      assert Counts(rs, t) + rest == rest;
    } else {
      var e := Advance(rs[0], t);
      assert rs[0] in rs && rs == [rs[0]] + rs[1..];
      var s' := Next(limit, s, e);
      assert s'.db == s.db && s'.clock == s.clock && s'.plans == s.plans;
      assert s'.calls == s.calls[rs[0] := s.calls[rs[0]].(stage := MayWrite(Counted, s.clock))];
      FlightGrows(limit, s, u, rs[0], t);
      CountPhase(limit, s', u, rs[1..], t, rest, k);
      WithinBoundStep(limit, s, u, e, Counts(rs[1..], t) + rest, k);
      assert Counts(rs, t) + rest == [e] + (Counts(rs[1..], t) + rest);
    }
  }

  lemma FlightGrows(limit: int, s: System, u: UserId, r: nat, now: Time)
    requires r in s.calls
    ensures |InFlight(Next(limit, s, Advance(r, now)), u)| <= |InFlight(s, u)| + 1
  {
    FlightStep(limit, s, u, r, now);
  }

  lemma {:induction false} AdmitAll(limit: int, s: System, u: UserId, rs: seq<nat>)
    requires Distinct(rs) && AllAt(s, u, rs, NeedCount) && NewIds(s, rs) && CountLive(s.db, u) < limit
    requires u in s.plans && s.plans[u] == FREE
    ensures var s' := Admit(s, rs);
            && AllAt(s', u, rs, MayWrite(Counted, s.clock)) && NewIds(s', rs)
            && s'.db == s.db && s'.clock == s.clock && s'.plans == s.plans
            && |InFlight(s', u)| <= |InFlight(s, u)| + |rs|
            && (forall r | r in s.calls && r !in rs :: r in s'.calls && s'.calls[r] == s.calls[r])
            && (forall r | r in rs :: s'.calls[r].id == s.calls[r].id)
    decreases |rs|
  {
    hide CountLive, InFlight;
    if rs == [] {
    } else {
      assert rs[0] in rs && rs == [rs[0]] + rs[1..];
      var s1 := s.(calls := s.calls[rs[0] := s.calls[rs[0]].(stage := MayWrite(Counted, s.clock))]);
      assert s1 == Next(limit, s, Advance(rs[0], 0));
      FlightGrows(limit, s, u, rs[0], 0);
      HeadIsApart(rs);
      AdmitAll(limit, s1, u, rs[1..]);
    }
  }

  lemma {:induction false} InsertPhase(limit: int, s: System, u: UserId, rs: seq<nat>, t: Time, k: nat, checkedAt: Time)
    requires Distinct(rs) && AllAt(s, u, rs, MayWrite(Counted, checkedAt)) && NewIds(s, rs)
    requires u in s.plans && s.plans[u] == FREE && t > s.clock && |InFlight(s, u)| <= k
    ensures WithinBound(limit, s, u, Inserts(rs, t), k)
    ensures CountLive(RunSystem(limit, s, Inserts(rs, t)).db, u) == CountLive(s.db, u) + |rs|
    decreases |rs|
  {
    hide CountLive, InFlight, WithinBound, RunSystem;
    if rs == [] {
      NothingWithin(limit, s, u, k);
    } else {
      var e := Advance(rs[0], t);
      var c := s.calls[rs[0]];
      assert rs[0] in rs && rs == [rs[0]] + rs[1..];
      var s' := Next(limit, s, e);
      LiveAfterUpsert(s.db, u, c.user, c.id, c.payload, t);
      LeavesFlight(limit, s, u, rs[0], t);
      HeadIsApart(rs);
      InsertPhase(limit, s', u, rs[1..], t + 1, k, checkedAt);
      WithinBoundStep(limit, s, u, e, Inserts(rs[1..], t + 1), k);
    }
  }

  /** The bound is attained for every k: k creates of different new ids, one below the limit,
      that all count before any inserts, stay within the hypotheses of the bound and take the
      user to exactly limit + k - 1 live notes. */
  lemma BoundAttained(limit: int, s: System, u: UserId, rs: seq<nat>, t: Time)
    requires rs != [] && Distinct(rs) && AllAt(s, u, rs, NeedCount) && NewIds(s, rs)
    requires u in s.plans && s.plans[u] == FREE && InFlight(s, u) == {}
    requires CountLive(s.db, u) == limit - 1 && t > s.clock
    ensures var es := Counts(rs, t) + Inserts(rs, t);
            && WithinBound(limit, s, u, es, |rs|)
            && CountLive(RunSystem(limit, s, es).db, u) == limit + |rs| - 1
  {
    hide WithinBound, CountLive, RunSystem;
    AdmitAll(limit, s, u, rs);
    InsertPhase(limit, Admit(s, rs), u, rs, t, |rs|, s.clock);
    CountPhase(limit, s, u, rs, t, Inserts(rs, t), |rs|);
  }

  /** Before any request, with one user on the free plan. */
  function AtStart(u: UserId): System {
    System(EMPTY_DB, 0, map[u := FREE], map[])
  }

  /** k requests of u to create notes 0 to k - 1, each up to its count. */
  function Arrivals(u: UserId, k: nat): seq<Event> {
    if k == 0 then []
    else Arrivals(u, k - 1) + [Arrive(k - 1, Call(u, k - 1, [], None, Looking)), Advance(k - 1, 0), Advance(k - 1, 0)]
  }

  function Arrived(u: UserId, k: nat): System {
    AtStart(u).(calls := map r: nat | r < k :: Call(u, r, [], None, NeedCount))
  }

  lemma {:induction false} ArrivalsArrive(limit: int, u: UserId, k: nat)
    ensures AllowedRun(limit, AtStart(u), Arrivals(u, k)) && RunSystem(limit, AtStart(u), Arrivals(u, k)) == Arrived(u, k)
    decreases k
  {
    if k == 0 {
    } else {
      ArrivalsArrive(limit, u, k - 1);
      var s0 := Arrived(u, k - 1);
      var e := Arrive(k - 1, Call(u, k - 1, [], None, Looking));
      var s1 := Next(limit, s0, e);
      var s2 := Next(limit, s1, Advance(k - 1, 0));
      var s3 := Next(limit, s2, Advance(k - 1, 0));
      assert s3 == Arrived(u, k);
      RunConcat(limit, AtStart(u), Arrivals(u, k - 1), [e, Advance(k - 1, 0), Advance(k - 1, 0)]);
      hide Next;
      RunStep(limit, s2, Advance(k - 1, 0), []);
      RunStep(limit, s1, Advance(k - 1, 0), [Advance(k - 1, 0)] + []);
      RunStep(limit, s0, e, [Advance(k - 1, 0)] + ([Advance(k - 1, 0)] + []));
      assert [e, Advance(k - 1, 0), Advance(k - 1, 0)] == [e] + ([Advance(k - 1, 0)] + ([Advance(k - 1, 0)] + []));
    }
  }

  /** A run from the very start in which the bound is attained, for every k: with a limit of
      one note, k requests at once leave the user with k notes. */
  lemma BoundAttainedFromStart(u: UserId, k: nat)
    requires k >= 1
    ensures var rs := seq(k, i => i); var s := RunSystem(1, AtStart(u), Arrivals(u, k)); var es := Counts(rs, 1) + Inserts(rs, 1);
            && AllowedRun(1, AtStart(u), Arrivals(u, k)) && WithinBound(1, s, u, es, k)
            && CountLive(s.db, u) == 0 && CountLive(RunSystem(1, s, es).db, u) == k
  {
    var rs := seq(k, i => i);
    ArrivalsArrive(1, u, k);
    var s := Arrived(u, k);
    assert LiveIds(s.db, u) == {} && InFlight(s, u) == {};
    assert forall r | r in rs :: r in s.calls && s.calls[r] == Call(u, r, [], None, NeedCount);
    hide RunSystem, AllowedRun, WithinBound;
    BoundAttained(1, s, u, rs, 1);
  }

  // ---------- optimistic locking ----------

  predicate IsAdvanceOf(e: Event, r: nat) {
    e.Advance? && e.r == r
  }

  /** Some event of the run, not of request r, gave the note its present row. */
  ghost predicate WrittenWithin(limit: int, s: System, es: seq<Event>, r: nat, id: Id, n: Note)
    decreases |es|
  {
    es != [] &&
    var s' := Next(limit, s, es[0]);
    || (!IsAdvanceOf(es[0], r) && id in s'.db.notes && s'.db.notes[id] == n && !(id in s.db.notes && s.db.notes[id] == n))
    || WrittenWithin(limit, s', es[1..], r, id, n)
  }

  predicate PastWriting(s: System, r: nat) {
    r in s.calls && (s.calls[r].stage.Written? || s.calls[r].stage.Replied?)
  }

  lemma {:induction false} NoSecondWrite(limit: int, s: System, es: seq<Event>, r: nat)
    requires PastWriting(s, r)
    ensures PastWriting(RunSystem(limit, s, es), r)
    decreases |es|
  {
    if es == [] {
    } else {
      NoSecondWrite(limit, Next(limit, s, es[0]), es[1..], r);
    }
  }

  /** A request that is still to write at the end of a run has not written in it: a row
      that changed over the run was written by something else. */
  lemma {:induction false} ChangedByOthers(limit: int, s: System, es: seq<Event>, r: nat, id: Id)
    requires Writes(s, r) && Writes(RunSystem(limit, s, es), r)
    requires id in RunSystem(limit, s, es).db.notes
    requires id in s.db.notes ==> s.db.notes[id] != RunSystem(limit, s, es).db.notes[id]
    ensures WrittenWithin(limit, s, es, r, id, RunSystem(limit, s, es).db.notes[id])
    decreases |es|
  {
    if es == [] {
    } else {
      var s' := Next(limit, s, es[0]);
      if IsAdvanceOf(es[0], r) {
        NoSecondWrite(limit, s', es[1..], r);
        assert false;
      }
      if !(id in s'.db.notes && s'.db.notes[id] == RunSystem(limit, s, es).db.notes[id]) {
        ChangedByOthers(limit, s', es[1..], r, id);
      }
    }
  }

  /** Split-step optimistic locking. Let request r pass its conflict check, and let any
      calls of any requests happen until r writes. If the row it then overwrites is newer
      than its base, something other than r wrote that very row between r's check and r's
      write. */
  lemma SplitLocking(limit: int, s: System, r: nat, now: Time, es: seq<Event>)
    requires r in s.calls && s.calls[r].stage.Looking? && s.calls[r].base.Some?
    requires var s1 := Next(limit, s, Advance(r, now)); Writes(s1, r) && Writes(RunSystem(limit, s1, es), r)
    requires var s2 := RunSystem(limit, Next(limit, s, Advance(r, now)), es); var c := s.calls[r];
             Owns(s2.db, c.user, c.id) && s2.db.notes[c.id].updatedAt > c.base.value
    ensures var s1 := Next(limit, s, Advance(r, now)); var s2 := RunSystem(limit, s1, es); var c := s.calls[r];
            WrittenWithin(limit, s1, es, r, c.id, s2.db.notes[c.id])
  {
    var c := s.calls[r];
    var s1 := Next(limit, s, Advance(r, now));
    assert s1.db == s.db;
    assert Owns(s.db, c.user, c.id) ==> s.db.notes[c.id].updatedAt <= c.base.value;
    ChangedByOthers(limit, s1, es, r, c.id);
  }

  lemma {:induction false} ChangedIsNewer(limit: int, s: System, es: seq<Event>, id: Id)
    requires AllowedRun(limit, s, es) && id in RunSystem(limit, s, es).db.notes
    requires id in s.db.notes ==> s.db.notes[id] != RunSystem(limit, s, es).db.notes[id]
    ensures RunSystem(limit, s, es).db.notes[id].updatedAt > s.clock
    decreases |es|
  {
    if es == [] {
    } else {
      var s' := Next(limit, s, es[0]);
      StepIsNewer(limit, s, es[0], id);
      hide Next, Allowed;
      var n := RunSystem(limit, s, es).db.notes[id];
      if !(id in s'.db.notes && s'.db.notes[id] == n) {
        ChangedIsNewer(limit, s', es[1..], id);
      }
    }
  }

  /** A row that a step changes carries an instant past the clock before the step. */
  lemma StepIsNewer(limit: int, s: System, e: Event, id: Id)
    requires Allowed(s, e)
    ensures var s' := Next(limit, s, e);
            && s'.clock >= s.clock
            && (id in s'.db.notes ==> s'.db.notes[id].updatedAt > s.clock || (id in s.db.notes && s.db.notes[id] == s'.db.notes[id]))
  {
  }

  lemma {:induction false} WrittenIsNewer(limit: int, s: System, es: seq<Event>, r: nat, id: Id, n: Note)
    requires AllowedRun(limit, s, es) && WrittenWithin(limit, s, es, r, id, n)
    ensures n.updatedAt > s.clock
    decreases |es|
  {
    if es == [] {
    } else {
      StepIsNewer(limit, s, es[0], id);
      hide Next, Allowed;
      var s' := Next(limit, s, es[0]);
      if WrittenWithin(limit, s', es[1..], r, id, n) { WrittenIsNewer(limit, s', es[1..], r, id, n); }
    }
  }

  /** Exactly when a split versioned upsert loses an update. Its base is an instant the clock
      had reached by the check. Then the row it overwrites is newer than its base iff it is
      no longer the row it checked, iff something other than r wrote that very row between
      r's check and r's write. */
  lemma SplitLockingIff(limit: int, s: System, r: nat, now: Time, es: seq<Event>)
    requires r in s.calls && s.calls[r].stage.Looking? && s.calls[r].base.Some? && s.calls[r].base.value <= s.clock
    requires var s1 := Next(limit, s, Advance(r, now));
             Writes(s1, r) && AllowedRun(limit, s1, es) && Writes(RunSystem(limit, s1, es), r)
    requires Owns(RunSystem(limit, Next(limit, s, Advance(r, now)), es).db, s.calls[r].user, s.calls[r].id)
    ensures var s1 := Next(limit, s, Advance(r, now)); var c := s.calls[r]; var row := RunSystem(limit, s1, es).db.notes[c.id];
            && (row.updatedAt > c.base.value <==> !(c.id in s.db.notes && s.db.notes[c.id] == row))
            && (row.updatedAt > c.base.value <==> WrittenWithin(limit, s1, es, r, c.id, row))
  {
    var c := s.calls[r];
    var s1 := Next(limit, s, Advance(r, now));
    assert s1.db == s.db && s1.clock == s.clock;
    assert Owns(s.db, c.user, c.id) ==> s.db.notes[c.id].updatedAt <= c.base.value;
    hide Next;
    var row := RunSystem(limit, s1, es).db.notes[c.id];
    if !(c.id in s.db.notes && s.db.notes[c.id] == row) {
      ChangedIsNewer(limit, s1, es, c.id);
      ChangedByOthers(limit, s1, es, r, c.id);
    } else if WrittenWithin(limit, s1, es, r, c.id, row) {
      WrittenIsNewer(limit, s1, es, r, c.id, row);
    }
  }

  /** It happens: two requests that name the current version and both check before either
      writes are both accepted, and the second overwrites the first unseen. */
  lemma LostUpdate(limit: int, s: System, u: UserId, id: Id, a: nat, b: nat, t: Time)
    requires a in s.calls && b in s.calls && a != b && t > s.clock
    requires s.calls[a].stage.Looking? && s.calls[b].stage.Looking?
    requires s.calls[a].user == u == s.calls[b].user && s.calls[a].id == id == s.calls[b].id
    requires Owns(s.db, u, id) && s.db.notes[id].updatedAt <= s.clock
    requires s.calls[a].base == Some(s.db.notes[id].updatedAt) == s.calls[b].base
    ensures var es := [Advance(a, t), Advance(b, t), Advance(a, t), Advance(b, t + 1)];
            var before := RunSystem(limit, s, es[..3]); var end := RunSystem(limit, s, es);
            && AllowedRun(limit, s, es)
            && a in end.calls && b in end.calls && id in before.db.notes && id in end.db.notes
            && end.calls[a].stage == Written(false) && end.calls[b].stage == Written(false)
            && before.db.notes[id] == s.db.notes[id].(payload := s.calls[a].payload, updatedAt := t)
            && before.db.notes[id].updatedAt > s.calls[b].base.value
            && end.db.notes[id] == s.db.notes[id].(payload := s.calls[b].payload, updatedAt := t + 1)
  {
    var es := [Advance(a, t), Advance(b, t), Advance(a, t), Advance(b, t + 1)];
    var s1 := Next(limit, s, es[0]);
    var s2 := Next(limit, s1, es[1]);
    var s3 := Next(limit, s2, es[2]);
    var s4 := Next(limit, s3, es[3]);
    hide Next;
    RunStep(limit, s3, es[3], []);
    RunStep(limit, s2, es[2], []);
    RunStep(limit, s1, es[1], [es[2]] + []);
    RunStep(limit, s, es[0], [es[1]] + ([es[2]] + []));
    assert es[..3] == [es[0]] + ([es[1]] + ([es[2]] + []));
    assert es == es[..3] + ([es[3]] + []);
    RunConcat(limit, s, es[..3], [es[3]] + []);
  }
}

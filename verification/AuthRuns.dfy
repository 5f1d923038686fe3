/** Logins, refreshes and logouts interleaving call by call, and what every run keeps. */
module AuthRuns {
  import opened Wrappers
  import opened AuthModel

  /** A login that has consumed its link; then one that has generated its access token. */
  datatype Login =
    | Consumed(user: UserId, link: Hash)
    | HasAccess(user: UserId, link: Hash, claims: Claims, issuedAt: Time)

  /** A refresh whose token has been looked up and found good. */
  datatype Checked = Checked(session: Hash, user: UserId, checkedAt: Time)

  /** An access token handed out for a session: when the session was checked, and when the
      token was generated. */
  datatype Access = Access(claims: Claims, session: Hash, checkedAt: Time, issuedAt: Time)

  /** `origin` and `firstRevoked` record history: the link a refresh token was issued for,
      and the first revocation of a refresh token. */
  datatype System = System(
    db: AuthDB, clock: Time, emails: map<UserId, Email>,
    logins: map<nat, Login>, refreshes: map<nat, Checked>, issued: set<Access>,
    origin: map<Hash, Hash>, firstRevoked: map<Hash, Time>)

  datatype Event =
    | CreateLink(h: Hash, user: UserId, email: Email)
    | ConsumeLink(r: nat, h: Hash)
    | LookUpUser(r: nat)
    | CreateSession(r: nat, h: Hash, tokenId: nat)
    | CheckRefresh(r: nat, h: Hash)
    | IssueRefreshed(r: nat)
    | Logout(h: Hash)
    | RevokeUser(user: UserId)
    | SetEmail(user: UserId, email: Email)
    | RemoveUser(user: UserId)

  datatype Timed = Timed(e: Event, now: Time)

  function MarkRevoked(first: map<Hash, Time>, db: AuthDB, now: Time): map<Hash, Time> {
    map h | h in db.refresh && db.refresh[h].revokedAt.Some? :: if h in first then first[h] else now
  }

  /** createAndSendMagicLink: a new link row. */
  function LinkCreated(d: Durations, s: System, h: Hash, user: UserId, email: Email): System {
    match InsertLink(s.db, h, Link(user, email, s.clock + d.magicLink, None))
    case None => s
    case Some(db) => s.(db := db)
  }

  /** The first call of a login. */
  function LinkConsumed(s: System, r: nat, h: Hash): System {
    var (db, user) := Consume(s.db, h, s.clock);
    if r in s.logins || user.None? then s else s.(db := db, logins := s.logins[r := Consumed(user.value, h)])
  }

  /** The second: the user is looked up and the access token generated. */
  function UserLookedUp(d: Durations, s: System, r: nat): System {
    if r !in s.logins || !s.logins[r].Consumed? then s
    else
      var l := s.logins[r];
      if l.user !in s.emails then s.(logins := s.logins - {r})
      else s.(logins := s.logins[r := HasAccess(l.user, l.link, GenerateAccessToken(d, l.user, s.emails[l.user], s.clock), s.clock)])
  }

  /** The third: the refresh token is inserted and the login answers. */
  function SessionCreated(d: Durations, s: System, r: nat, h: Hash, tokenId: nat): System {
    if r !in s.logins || !s.logins[r].HasAccess? then s
    else
      var l := s.logins[r];
      match InsertRefresh(s.db, h, Refresh(tokenId, l.user, s.clock + d.refresh, s.clock, None))
      case None => s.(logins := s.logins - {r})
      case Some(db) =>
        s.(db := db, logins := s.logins - {r}, origin := s.origin[h := l.link],
           issued := s.issued + {Access(l.claims, h, l.issuedAt, l.issuedAt)})
  }

  /** The first call of a refresh. */
  function RefreshChecked(s: System, r: nat, h: Hash): System {
    if r in s.refreshes || h !in s.db.refresh || s.db.refresh[h].revokedAt.Some? || s.db.refresh[h].expiresAt < s.clock then s
    else s.(refreshes := s.refreshes[r := Checked(h, s.db.refresh[h].user, s.clock)])
  }

  /** The second: the user is looked up and a new access token generated. */
  function AccessRefreshed(d: Durations, s: System, r: nat): System {
    if r !in s.refreshes then s
    else
      var c := s.refreshes[r];
      if c.user !in s.emails then s.(refreshes := s.refreshes - {r})
      else s.(refreshes := s.refreshes - {r},
              issued := s.issued + {Access(GenerateAccessToken(d, c.user, s.emails[c.user], s.clock), c.session, c.checkedAt, s.clock)})
  }

  function WithRevocations(s: System, db: AuthDB): System {
    s.(db := db, firstRevoked := MarkRevoked(s.firstRevoked, db, s.clock))
  }

  function LoggedOut(s: System, h: Hash): System {
    if h !in s.db.refresh then s else WithRevocations(s, Revoke(s.db, s.db.refresh[h].tokenId, s.clock))
  }

  /** One call of one request at instant `now`. */
  function Next(d: Durations, s0: System, e: Event, now: Time): System {
    var s := s0.(clock := now);
    match e
    case CreateLink(h, user, email) => LinkCreated(d, s, h, user, email)
    case ConsumeLink(r, h) => LinkConsumed(s, r, h)
    case LookUpUser(r) => UserLookedUp(d, s, r)
    case CreateSession(r, h, tokenId) => SessionCreated(d, s, r, h, tokenId)
    case CheckRefresh(r, h) => RefreshChecked(s, r, h)
    case IssueRefreshed(r) => AccessRefreshed(d, s, r)
    case Logout(h) => LoggedOut(s, h)
    case RevokeUser(user) => WithRevocations(s, RevokeAll(s.db, user, now))
    case SetEmail(user, email) => s.(emails := s.emails[user := email])
    case RemoveUser(user) => s.(emails := s.emails - {user})
  }

  function Run(d: Durations, s: System, es: seq<Timed>): System
    decreases |es|
  {
    if es == [] then s else Run(d, Next(d, s, es[0].e, es[0].now), es[1..])
  }

  ghost predicate Ordered(clock: Time, es: seq<Timed>)
    decreases |es|
  {
    es != [] ==> es[0].now >= clock && Ordered(es[0].now, es[1..])
  }

  const START: System := System(AuthDB(map[], map[]), 0, map[], map[], map[], {}, map[], map[])

  /** The calls of one login with nothing in between: on success the link is consumed and
      one session and one access token appear. */
  lemma LoginAlone(d: Durations, s: System, r: nat, h: Hash, newHash: Hash, tokenId: nat, t1: Time, t2: Time, t3: Time)
    requires r !in s.logins && Consumable(s.db, h, t1) && s.db.links[h].user in s.emails
    requires newHash !in s.db.refresh && forall g | g in s.db.refresh :: s.db.refresh[g].tokenId != tokenId
    ensures var u := s.db.links[h].user;
            var end := Next(d, Next(d, Next(d, s, ConsumeLink(r, h), t1), LookUpUser(r), t2), CreateSession(r, newHash, tokenId), t3);
            && end.db.links == Consume(s.db, h, t1).0.links
            && end.db.refresh == s.db.refresh[newHash := Refresh(tokenId, u, t3 + d.refresh, t3, None)]
            && end.issued == s.issued + {Access(GenerateAccessToken(d, u, s.emails[u], t2), newHash, t2, t2)}
            && end.logins == s.logins && end.origin == s.origin[newHash := h]
  {
    hide GenerateAccessToken, NumericDate;
    var u := s.db.links[h].user;
    var s1 := Next(d, s, ConsumeLink(r, h), t1);
    assert s1.logins == s.logins[r := Consumed(u, h)] && s1.db.refresh == s.db.refresh && s1.emails == s.emails;
    var s2 := Next(d, s1, LookUpUser(r), t2);
    assert s2.logins == s.logins[r := HasAccess(u, h, GenerateAccessToken(d, u, s.emails[u], t2), t2)] && s2.db == s1.db;
    assert s2.logins - {r} == s.logins;
  }

  /** The two calls of a refresh at one instant: a live session yields one access token
      and leaves the tables alone; any other yields none. */
  lemma RefreshAlone(d: Durations, s: System, r: nat, h: Hash, t: Time)
    requires r !in s.refreshes
    ensures var end := Next(d, Next(d, s, CheckRefresh(r, h), t), IssueRefreshed(r), t);
            var live := h in s.db.refresh && s.db.refresh[h].revokedAt.None? && s.db.refresh[h].expiresAt >= t;
            && end.db == s.db && end.refreshes == s.refreshes
            && end.issued == (if live && s.db.refresh[h].user in s.emails then
                 s.issued + {Access(GenerateAccessToken(d, s.db.refresh[h].user, s.emails[s.db.refresh[h].user], t), h, t, t)}
               else s.issued)
  {
    hide GenerateAccessToken;
    var s1 := Next(d, s, CheckRefresh(r, h), t);
    if r in s1.refreshes {
      assert s1.refreshes - {r} == s.refreshes;
    }
  }

  /** A login for a user who is gone consumes the link and gives nothing. */
  lemma LoginOfNobody(d: Durations, s: System, r: nat, h: Hash, newHash: Hash, tokenId: nat, t1: Time, t2: Time, t3: Time)
    requires r !in s.logins && Consumable(s.db, h, t1) && s.db.links[h].user !in s.emails
    ensures var end := Next(d, Next(d, Next(d, s, ConsumeLink(r, h), t1), LookUpUser(r), t2), CreateSession(r, newHash, tokenId), t3);
            end.db == Consume(s.db, h, t1).0 && end.issued == s.issued && end.logins == s.logins && end.origin == s.origin
  {
    var s1 := Next(d, s, ConsumeLink(r, h), t1);
    assert s1.logins - {r} == s.logins;
  }

  /** How long a link lasts: whatever happens between, short of consuming it, a login can
      consume a new link for its user exactly until the link duration has passed. */
  lemma LinkLifetime(d: Durations, s: System, h: Hash, user: UserId, email: Email, t0: Time, es: seq<Timed>, r: nat, t1: Time)
    requires h !in s.db.links && forall x | x in es :: !(x.e.ConsumeLink? && x.e.h == h)
    requires var s' := Run(d, Next(d, s, CreateLink(h, user, email), t0), es); r !in s'.logins
    ensures var s' := Run(d, Next(d, s, CreateLink(h, user, email), t0), es); var end := Next(d, s', ConsumeLink(r, h), t1);
            && (r in end.logins <==> t1 < t0 + d.magicLink)
            && (r in end.logins ==> end.logins[r] == Consumed(user, h))
            && h in end.db.links && end.db.links[h].email == email
  {
    var s1 := Next(d, s, CreateLink(h, user, email), t0);
    LinkUntouched(d, s1, es, h);
    hide Run;
  }

  lemma {:induction false} LinkUntouched(d: Durations, s: System, es: seq<Timed>, h: Hash)
    requires h in s.db.links && forall x | x in es :: !(x.e.ConsumeLink? && x.e.h == h)
    ensures h in Run(d, s, es).db.links && Run(d, s, es).db.links[h] == s.db.links[h]
    decreases |es|
  {
    hide Next;
    if es == [] {
    } else {
      assert es[0] in es;
      LinkUntouchedStep(d, s, es[0].e, es[0].now, h);
      LinkUntouched(d, Next(d, s, es[0].e, es[0].now), es[1..], h);
    }
  }

  lemma LinkUntouchedStep(d: Durations, s: System, e: Event, now: Time, h: Hash)
    requires h in s.db.links && !(e.ConsumeLink? && e.h == h)
    ensures var s' := Next(d, s, e, now); h in s'.db.links && s'.db.links[h] == s.db.links[h]
  {
    hide UserLookedUp, SessionCreated, RefreshChecked, AccessRefreshed, LoggedOut, WithRevocations;
    if !e.CreateLink? && !e.ConsumeLink? {
      LinksUntouched(d, s, e, now);
      hide Next;
    }
  }

  // ---------- single use ----------

  predicate Used(db: AuthDB, h: Hash) {
    h in db.links && db.links[h].usedAt.Some?
  }

  ghost predicate LinksOk(s: System) {
    forall h | Used(s.db, h) :: s.db.links[h].usedAt.value < s.db.links[h].expiresAt && s.db.links[h].usedAt.value <= s.clock
  }

  /** Logins in flight and sessions hold used links of their own users, no two the same. */
  ghost predicate OriginOk(s: System) {
    && s.origin.Keys == s.db.refresh.Keys
    && (forall r | r in s.logins :: Used(s.db, s.logins[r].link) && s.db.links[s.logins[r].link].user == s.logins[r].user)
    && (forall h | h in s.origin :: Used(s.db, s.origin[h]) && s.db.links[s.origin[h]].user == s.db.refresh[h].user)
    && (forall r, q | r in s.logins && q in s.logins && r != q :: s.logins[r].link != s.logins[q].link)
    && (forall h, g | h in s.origin && g in s.origin && h != g :: s.origin[h] != s.origin[g])
    && (forall r, h | r in s.logins && h in s.origin :: s.logins[r].link != s.origin[h])
  }

  /** A used link stays as it is: consumed once, used_at never overwritten. */
  ghost predicate LinksKept(before: AuthDB, after: AuthDB) {
    forall h | h in before.links ::
      && h in after.links
      && after.links[h].user == before.links[h].user
      && after.links[h].expiresAt == before.links[h].expiresAt
      && (before.links[h].usedAt.Some? ==> after.links[h] == before.links[h])
  }

  lemma LinksStep(d: Durations, s: System, e: Event, now: Time)
    requires LinksOk(s) && now >= s.clock
    ensures LinksOk(Next(d, s, e, now)) && LinksKept(s.db, Next(d, s, e, now).db)
  {
    if !e.CreateLink? && !e.ConsumeLink? {
      LinksUntouched(d, s, e, now);
      hide Next;
    } else {
      LinkWritten(d, s, e, now);
    }
  }

  lemma LinksUntouched(d: Durations, s: System, e: Event, now: Time)
    requires !e.CreateLink? && !e.ConsumeLink?
    ensures Next(d, s, e, now).db.links == s.db.links && Next(d, s, e, now).clock == now
  {
  }

  lemma LinkWritten(d: Durations, s: System, e: Event, now: Time)
    requires (e.CreateLink? || e.ConsumeLink?) && LinksOk(s) && now >= s.clock
    ensures LinksOk(Next(d, s, e, now)) && LinksKept(s.db, Next(d, s, e, now).db)
  {
    hide UserLookedUp, SessionCreated, RefreshChecked, AccessRefreshed, LoggedOut, WithRevocations;
  }

  lemma SessionsUntouched(d: Durations, s: System, e: Event, now: Time)
    requires !e.CreateSession? && !e.Logout? && !e.RevokeUser?
    ensures var s' := Next(d, s, e, now);
            s'.db.refresh == s.db.refresh && s'.firstRevoked == s.firstRevoked && s'.clock == now
  {
  }

  /** A step that keeps the links, the sessions and their users, and does not add a login. */
  lemma OriginFrame(s: System, s': System)
    requires OriginOk(s) && LinksKept(s.db, s'.db)
    requires s'.origin == s.origin && s'.db.refresh.Keys == s.db.refresh.Keys
    requires forall h | h in s.db.refresh :: s'.db.refresh[h].user == s.db.refresh[h].user
    requires forall r | r in s'.logins ::
               r in s.logins && s'.logins[r].link == s.logins[r].link && s'.logins[r].user == s.logins[r].user
    ensures OriginOk(s')
  {
  }

  /** A consumed link was unused, so nobody holds it. */
  lemma OriginConsume(s: System, r: nat, h: Hash)
    requires OriginOk(s)
    ensures OriginOk(LinkConsumed(s, r, h))
  {
    if r !in s.logins && Consumable(s.db, h, s.clock) {
      var s' := LinkConsumed(s, r, h);
      assert forall g | Used(s.db, g) :: g != h && Used(s'.db, g) && s'.db.links[g] == s.db.links[g];
      assert s'.origin == s.origin && s'.db.refresh == s.db.refresh && s'.logins == s.logins[r := Consumed(s.db.links[h].user, h)];
      assert Used(s'.db, h) && s'.db.links[h].user == s.db.links[h].user;
      OriginAdded(s, s', r, h);
    }
  }

  lemma OriginAdded(s: System, s': System, r: nat, h: Hash)
    requires OriginOk(s) && r !in s.logins && !Used(s.db, h) && h in s'.db.links
    requires forall g | Used(s.db, g) :: Used(s'.db, g) && s'.db.links[g].user == s.db.links[g].user
    requires s'.origin == s.origin && s'.db.refresh == s.db.refresh
    requires s'.logins == s.logins[r := Consumed(s'.db.links[h].user, h)] && Used(s'.db, h)
    ensures OriginOk(s')
  {
  }

  lemma OriginCreate(d: Durations, s: System, r: nat, h: Hash, tokenId: nat)
    requires OriginOk(s)
    ensures OriginOk(SessionCreated(d, s, r, h, tokenId))
  {
    hide OriginOk;
    var s' := SessionCreated(d, s, r, h, tokenId);
    if r in s.logins && s.logins[r].HasAccess? {
      match InsertRefresh(s.db, h, Refresh(tokenId, s.logins[r].user, s.clock + d.refresh, s.clock, None)) {
        case None => OriginFrame(s, s');
        case Some(db) => OriginMoved(s, s', r, h);
      }
    }
  }

  /** The link passes from the login to its session. */
  lemma OriginMoved(s: System, s': System, r: nat, h: Hash)
    requires OriginOk(s) && r in s.logins && h !in s.db.refresh
    requires s'.db.links == s.db.links && s'.logins == s.logins - {r}
    requires s'.origin == s.origin[h := s.logins[r].link]
    requires h in s'.db.refresh && s'.db.refresh == s.db.refresh[h := s'.db.refresh[h]]
    requires s'.db.refresh[h].user == s.logins[r].user
    ensures OriginOk(s')
  {
  }

  lemma OriginStep(d: Durations, s: System, e: Event, now: Time)
    requires OriginOk(s) && LinksOk(s) && now >= s.clock
    ensures OriginOk(Next(d, s, e, now))
  {
    hide OriginOk, LinksOk, LinkConsumed, SessionCreated, RefreshChecked, AccessRefreshed;
    hide UserLookedUp, LoggedOut, WithRevocations, LinkCreated;
    var s0 := s.(clock := now);
    OriginFrame(s, s0);
    match e {
      case ConsumeLink(r, h) => OriginConsume(s0, r, h);
      case CreateSession(r, h, tokenId) => OriginCreate(d, s0, r, h, tokenId);
      case CheckRefresh(r, h) => CheckFrames(s0, r, h);
      case IssueRefreshed(r) => RefreshFrames(d, s0, r);
      case LookUpUser(r) => LookUpFrames(d, s0, r);
      case CreateLink(h, user, email) => LinkFrames(d, s0, h, user, email);
      case Logout(h) => LogoutFrames(s0, h);
      case RevokeUser(user) => RevokeFrames(s0, RevokeAll(s0.db, user, now));
      case _ => OriginFrame(s, Next(d, s, e, now));
    }
  }

  lemma LinkFrames(d: Durations, s: System, h: Hash, user: UserId, email: Email)
    requires OriginOk(s)
    ensures OriginOk(LinkCreated(d, s, h, user, email))
  {
    hide OriginOk;
    OriginFrame(s, LinkCreated(d, s, h, user, email));
  }

  lemma LookUpFrames(d: Durations, s: System, r: nat)
    requires OriginOk(s)
    ensures OriginOk(UserLookedUp(d, s, r))
  {
    hide OriginOk, GenerateAccessToken, NumericDate;
    OriginFrame(s, UserLookedUp(d, s, r));
  }

  lemma LogoutFrames(s: System, h: Hash)
    requires OriginOk(s)
    ensures OriginOk(LoggedOut(s, h))
  {
    hide OriginOk;
    if h in s.db.refresh { RevokeFrames(s, Revoke(s.db, s.db.refresh[h].tokenId, s.clock)); }
  }

  lemma RevokeFrames(s: System, db: AuthDB)
    requires OriginOk(s) && db.links == s.db.links && db.refresh.Keys == s.db.refresh.Keys
    requires forall h | h in s.db.refresh :: db.refresh[h].user == s.db.refresh[h].user
    ensures OriginOk(WithRevocations(s, db))
  {
    OriginFrame(s, WithRevocations(s, db));
  }

  lemma CheckFrames(s: System, r: nat, h: Hash)
    requires OriginOk(s)
    ensures OriginOk(RefreshChecked(s, r, h))
  {
    hide OriginOk;
    OriginFrame(s, RefreshChecked(s, r, h));
  }

  lemma RefreshFrames(d: Durations, s: System, r: nat)
    requires OriginOk(s)
    ensures OriginOk(AccessRefreshed(d, s, r))
  {
    hide OriginOk, GenerateAccessToken, NumericDate;
    OriginFrame(s, AccessRefreshed(d, s, r));
  }

  // ---------- sessions ----------

  /** Refresh rows keep their user, dates and token id; a revoked one stays revoked. */
  ghost predicate SessionsKept(before: AuthDB, after: AuthDB) {
    forall h | h in before.refresh ::
      && h in after.refresh
      && after.refresh[h].(revokedAt := None) == before.refresh[h].(revokedAt := None)
      && (before.refresh[h].revokedAt.Some? ==> after.refresh[h].revokedAt.Some?)
  }

  lemma SessionsStep(d: Durations, s: System, e: Event, now: Time)
    ensures SessionsKept(s.db, Next(d, s, e, now).db)
  {
    var s0 := s.(clock := now);
    hide LinkCreated, LinkConsumed, UserLookedUp, SessionCreated, RefreshChecked, AccessRefreshed, Revoke, RevokeAll, MarkRevoked;
    match e {
      case CreateSession(r, h, tokenId) => SessionAdded(d, s0, r, h, tokenId);
      case Logout(h) => if h in s.db.refresh { RevokeKeeps(s.db, s.db.refresh[h].tokenId, now); }
      case RevokeUser(user) => RevokeAllKeeps(s.db, user, now);
      case _ => SessionsUntouched(d, s, e, now); hide Next;
    }
  }

  lemma SessionAdded(d: Durations, s: System, r: nat, h: Hash, tokenId: nat)
    ensures var s' := SessionCreated(d, s, r, h, tokenId);
            && s'.firstRevoked == s.firstRevoked && s'.clock == s.clock
            && (forall g | g in s.db.refresh :: g in s'.db.refresh && s'.db.refresh[g] == s.db.refresh[g])
  {
  }

  lemma RevokeKeeps(db: AuthDB, tokenId: nat, now: Time)
    ensures SessionsKept(db, Revoke(db, tokenId, now))
  {
  }

  lemma RevokeAllKeeps(db: AuthDB, u: UserId, now: Time)
    ensures SessionsKept(db, RevokeAll(db, u, now))
  {
  }

  ghost predicate RowsOk(d: Durations, s: System) {
    && (forall h | h in s.db.refresh ::
          && s.db.refresh[h].createdAt <= s.clock
          && s.db.refresh[h].expiresAt == s.db.refresh[h].createdAt + d.refresh
          && (s.db.refresh[h].revokedAt.Some? <==> h in s.firstRevoked))
    && (forall h | h in s.firstRevoked :: h in s.db.refresh && s.firstRevoked[h] <= s.clock)
  }

  /** The session was live when it was checked. */
  ghost predicate LiveAt(s: System, h: Hash, t: Time) {
    && h in s.db.refresh
    && t <= s.db.refresh[h].expiresAt
    && (h in s.firstRevoked ==> t <= s.firstRevoked[h])
  }

  ghost predicate AccessOk(d: Durations, s: System, a: Access) {
    && LiveAt(s, a.session, a.checkedAt)
    && a.checkedAt <= a.issuedAt <= s.clock
    && a.claims.user == s.db.refresh[a.session].user
    && a.claims.expiresAt <= a.issuedAt + d.access
  }

  ghost predicate IssuedOk(d: Durations, s: System) {
    && (forall r | r in s.logins && s.logins[r].HasAccess? ::
          && s.logins[r].issuedAt <= s.clock
          && s.logins[r].claims.user == s.logins[r].user
          && s.logins[r].claims.expiresAt <= s.logins[r].issuedAt + d.access)
    && (forall r | r in s.refreshes ::
          && LiveAt(s, s.refreshes[r].session, s.refreshes[r].checkedAt)
          && s.refreshes[r].checkedAt <= s.clock
          && s.refreshes[r].user == s.db.refresh[s.refreshes[r].session].user)
    && (forall a | a in s.issued :: AccessOk(d, s, a))
  }

  ghost predicate Inv(d: Durations, s: System) {
    LinksOk(s) && OriginOk(s) && RowsOk(d, s) && IssuedOk(d, s)
  }

  lemma RowsRevoked(d: Durations, s: System, db: AuthDB, now: Time)
    requires RowsOk(d, s) && now >= s.clock && SessionsKept(s.db, db) && db.refresh.Keys == s.db.refresh.Keys
    ensures RowsOk(d, s.(clock := now, db := db, firstRevoked := MarkRevoked(s.firstRevoked, db, now)))
  {
    forall h | h in db.refresh
      ensures db.refresh[h].createdAt <= now && db.refresh[h].expiresAt == db.refresh[h].createdAt + d.refresh
    {
      SameButRevoked(s.db.refresh[h], db.refresh[h]);
    }
  }

  lemma RowsStep(d: Durations, s: System, e: Event, now: Time)
    requires RowsOk(d, s) && now >= s.clock
    ensures RowsOk(d, Next(d, s, e, now))
  {
    hide RowsOk, LinkCreated, LinkConsumed, UserLookedUp, SessionCreated, RefreshChecked, AccessRefreshed, LoggedOut, WithRevocations;
    var s0 := s.(clock := now);
    RowsClock(d, s, s0);
    match e {
      case Logout(h) => RowsLogout(d, s, h, now);
      case RevokeUser(user) => RowsRevokeUser(d, s, user, now);
      case CreateSession(r, h, tokenId) => RowsCreated(d, s0, r, h, tokenId);
      case _ => SessionsUntouched(d, s, e, now); RowsClock(d, s, Next(d, s, e, now));
    }
  }

  lemma RowsLogout(d: Durations, s: System, h: Hash, now: Time)
    requires RowsOk(d, s) && now >= s.clock
    ensures RowsOk(d, LoggedOut(s.(clock := now), h))
  {
    RowsClock(d, s, s.(clock := now));
    hide RowsOk;
    if h in s.db.refresh { RowsRevoked(d, s, Revoke(s.db, s.db.refresh[h].tokenId, now), now); }
  }

  lemma RowsRevokeUser(d: Durations, s: System, user: UserId, now: Time)
    requires RowsOk(d, s) && now >= s.clock
    ensures RowsOk(d, WithRevocations(s.(clock := now), RevokeAll(s.db, user, now)))
  {
    hide RowsOk;
    RowsRevoked(d, s, RevokeAll(s.db, user, now), now);
  }

  lemma RowsClock(d: Durations, s: System, s': System)
    requires RowsOk(d, s) && s'.clock >= s.clock
    requires s'.db.refresh == s.db.refresh && s'.firstRevoked == s.firstRevoked
    ensures RowsOk(d, s')
  {
  }

  lemma RowsCreated(d: Durations, s: System, r: nat, h: Hash, tokenId: nat)
    requires RowsOk(d, s)
    ensures RowsOk(d, SessionCreated(d, s, r, h, tokenId))
  {
  }

  /** What was live when it was checked still counts as such: rows keep their expiry, and
      a first revocation is never moved. */
  lemma LiveStep(d: Durations, s: System, e: Event, now: Time, h: Hash, t: Time)
    requires RowsOk(d, s) && now >= s.clock >= t && LiveAt(s, h, t)
    ensures LiveAt(Next(d, s, e, now), h, t)
    ensures Next(d, s, e, now).db.refresh[h].user == s.db.refresh[h].user
  {
    var s0 := s.(clock := now);
    SessionsStep(d, s, e, now);
    hide LinkCreated, LinkConsumed, UserLookedUp, SessionCreated, RefreshChecked, AccessRefreshed, LoggedOut, WithRevocations;
    match e {
      case CreateSession(r, g, tokenId) => SessionAdded(d, s0, r, g, tokenId);
      case Logout(g) => LiveLogout(s, g, now, h, t);
      case RevokeUser(user) => RevokeAllKeeps(s.db, user, now); LiveRevoked(s, RevokeAll(s.db, user, now), now, h, t);
      case _ => SessionsUntouched(d, s, e, now); hide Next;
    }
  }

  lemma LiveLogout(s: System, g: Hash, now: Time, h: Hash, t: Time)
    requires now >= t && LiveAt(s, h, t)
    ensures LiveAt(LoggedOut(s.(clock := now), g), h, t)
    ensures LoggedOut(s.(clock := now), g).db.refresh[h].user == s.db.refresh[h].user
  {
    if g in s.db.refresh {
      RevokeKeeps(s.db, s.db.refresh[g].tokenId, now);
      LiveRevoked(s, Revoke(s.db, s.db.refresh[g].tokenId, now), now, h, t);
    }
  }

  /** A revocation records at most the present instant for a session first revoked now. */
  lemma LiveRevoked(s: System, db: AuthDB, now: Time, h: Hash, t: Time)
    requires now >= t && LiveAt(s, h, t) && SessionsKept(s.db, db)
    ensures LiveAt(WithRevocations(s.(clock := now), db), h, t)
    ensures db.refresh[h].user == s.db.refresh[h].user
  {
    SameButRevoked(s.db.refresh[h], db.refresh[h]);
  }

  lemma SameButRevoked(a: Refresh, b: Refresh)
    requires a.(revokedAt := None) == b.(revokedAt := None)
    ensures a.user == b.user && a.expiresAt == b.expiresAt && a.createdAt == b.createdAt && a.tokenId == b.tokenId
  {
    assert a.(revokedAt := None).user == a.user && a.(revokedAt := None).expiresAt == a.expiresAt
        && a.(revokedAt := None).createdAt == a.createdAt && a.(revokedAt := None).tokenId == a.tokenId;
  }

  ghost predicate CarriedOver(d: Durations, s: System, s': System) {
    && (forall a | a in s.issued :: AccessOk(d, s', a))
    && (forall r | r in s.refreshes ::
          && LiveAt(s', s.refreshes[r].session, s.refreshes[r].checkedAt)
          && s.refreshes[r].checkedAt <= s'.clock
          && s.refreshes[r].user == s'.db.refresh[s.refreshes[r].session].user)
  }

  /** Everything checked and issued before a step stays in order after it. */
  lemma IssuedBefore(d: Durations, s: System, e: Event, now: Time)
    requires RowsOk(d, s) && IssuedOk(d, s) && now >= s.clock
    ensures CarriedOver(d, s.(clock := now), Next(d, s, e, now))
  {
    var s' := Next(d, s, e, now);
    ClockStep(d, s, e, now);
    hide Next, RowsOk, LiveAt;
    forall a | a in s.issued ensures AccessOk(d, s', a) {
      LiveIsThere(s, a.session, a.checkedAt);
      LiveStep(d, s, e, now, a.session, a.checkedAt);
      LiveIsThere(s', a.session, a.checkedAt);
    }
    forall r | r in s.refreshes
      ensures LiveAt(s', s.refreshes[r].session, s.refreshes[r].checkedAt) && s.refreshes[r].checkedAt <= now
      ensures s.refreshes[r].session in s'.db.refresh
      ensures s.refreshes[r].user == s'.db.refresh[s.refreshes[r].session].user
    {
      LiveStep(d, s, e, now, s.refreshes[r].session, s.refreshes[r].checkedAt);
      LiveIsThere(s', s.refreshes[r].session, s.refreshes[r].checkedAt);
    }
  }

  lemma LiveIsThere(s: System, h: Hash, t: Time)
    requires LiveAt(s, h, t)
    ensures h in s.db.refresh
  {
  }

  /** A step that issues nothing, checks nothing and generates nothing. */
  lemma IssuedFrame(d: Durations, s: System, s': System)
    requires IssuedOk(d, s) && s'.clock >= s.clock && CarriedOver(d, s, s')
    requires s'.issued == s.issued && s'.refreshes == s.refreshes
    requires forall r | r in s'.logins && s'.logins[r].HasAccess? :: r in s.logins && s'.logins[r] == s.logins[r]
    ensures IssuedOk(d, s')
  {
  }

  lemma IssuedLookUp(d: Durations, s: System, r: nat)
    requires IssuedOk(d, s) && CarriedOver(d, s, UserLookedUp(d, s, r))
    ensures IssuedOk(d, UserLookedUp(d, s, r))
  {
    NumericDateDown(s.clock + d.access);
  }

  lemma IssuedCreate(d: Durations, s: System, r: nat, h: Hash, tokenId: nat)
    requires IssuedOk(d, s) && RowsOk(d, s) && CarriedOver(d, s, SessionCreated(d, s, r, h, tokenId))
    ensures IssuedOk(d, SessionCreated(d, s, r, h, tokenId))
  {
    var s' := SessionCreated(d, s, r, h, tokenId);
    if r in s.logins && s.logins[r].HasAccess? {
      var l := s.logins[r];
      if InsertRefresh(s.db, h, Refresh(tokenId, l.user, s.clock + d.refresh, s.clock, None)).Some? {
        assert AccessOk(d, s', Access(l.claims, h, l.issuedAt, l.issuedAt));
      }
    }
  }

  lemma IssuedCheck(d: Durations, s: System, r: nat, h: Hash)
    requires IssuedOk(d, s) && RowsOk(d, s) && CarriedOver(d, s, RefreshChecked(s, r, h))
    ensures IssuedOk(d, RefreshChecked(s, r, h))
  {
  }

  lemma IssuedRefresh(d: Durations, s: System, r: nat)
    requires IssuedOk(d, s) && CarriedOver(d, s, AccessRefreshed(d, s, r))
    ensures IssuedOk(d, AccessRefreshed(d, s, r))
  {
    NumericDateDown(s.clock + d.access);
    var s' := AccessRefreshed(d, s, r);
    if s'.issued != s.issued {
      var c := s.refreshes[r];
      assert AccessOk(d, s', Access(GenerateAccessToken(d, c.user, s.emails[c.user], s.clock), c.session, c.checkedAt, s.clock));
    }
  }

  lemma IssuedStep(d: Durations, s: System, e: Event, now: Time)
    requires RowsOk(d, s) && IssuedOk(d, s) && now >= s.clock
    ensures IssuedOk(d, Next(d, s, e, now))
  {
    hide CarriedOver, IssuedOk, RowsOk, UserLookedUp, SessionCreated, RefreshChecked, AccessRefreshed, Revoke, RevokeAll, MarkRevoked;
    IssuedBefore(d, s, e, now);
    var s0 := s.(clock := now);
    ClockStep(d, s, e, now);
    IssuedLater(d, s, s0);
    RowsClock(d, s, s0);
    match e {
      case LookUpUser(r) => IssuedLookUp(d, s0, r);
      case CreateSession(r, h, tokenId) => IssuedCreate(d, s0, r, h, tokenId);
      case CheckRefresh(r, h) => IssuedCheck(d, s0, r, h);
      case IssueRefreshed(r) => IssuedRefresh(d, s0, r);
      case _ => IssuedFrame(d, s0, Next(d, s, e, now));
    }
  }

  lemma IssuedLater(d: Durations, s: System, s': System)
    requires IssuedOk(d, s) && s'.clock >= s.clock && s' == s.(clock := s'.clock)
    ensures IssuedOk(d, s')
  {
  }

  lemma Step(d: Durations, s: System, e: Event, now: Time)
    requires Inv(d, s) && now >= s.clock
    ensures Inv(d, Next(d, s, e, now))
  {
    hide Next, LinksOk, OriginOk, RowsOk, IssuedOk;
    LinksStep(d, s, e, now);
    OriginStep(d, s, e, now);
    RowsStep(d, s, e, now);
    IssuedStep(d, s, e, now);
  }

  lemma {:induction false} RunInv(d: Durations, s: System, es: seq<Timed>)
    requires Inv(d, s) && Ordered(s.clock, es)
    ensures Inv(d, Run(d, s, es))
    ensures LinksKept(s.db, Run(d, s, es).db) && SessionsKept(s.db, Run(d, s, es).db)
    decreases |es|
  {
    hide Inv;
    if es == [] {
    } else {
      ClockStep(d, s, es[0].e, es[0].now);
      Step(d, s, es[0].e, es[0].now);
      Kept(d, s, es[0].e, es[0].now);
      hide Next;
      RunInv(d, Next(d, s, es[0].e, es[0].now), es[1..]);
    }
  }

  lemma ClockStep(d: Durations, s: System, e: Event, now: Time)
    ensures Next(d, s, e, now).clock == now
  {
  }

  lemma Kept(d: Durations, s: System, e: Event, now: Time)
    requires Inv(d, s) && now >= s.clock
    ensures LinksKept(s.db, Next(d, s, e, now).db) && SessionsKept(s.db, Next(d, s, e, now).db)
  {
    LinksStep(d, s, e, now);
    SessionsStep(d, s, e, now);
  }

  // ---------- what every run from the empty system satisfies ----------

  lemma StartInv(d: Durations)
    ensures Inv(d, START)
  {
  }

  lemma Reachable(d: Durations, es: seq<Timed>)
    requires Ordered(0, es)
    ensures Inv(d, Run(d, START, es))
  {
    StartInv(d);
    RunInv(d, START, es);
  }

  lemma {:induction false} ConcatRun(d: Durations, s: System, es: seq<Timed>, more: seq<Timed>)
    ensures Run(d, s, es + more) == Run(d, Run(d, s, es), more)
    decreases |es|
  {
    hide Next;
    if es == [] {
      assert es + more == more;
    } else {
      assert (es + more)[0] == es[0] && (es + more)[1..] == es[1..] + more;
      ConcatRun(d, Next(d, s, es[0].e, es[0].now), es[1..], more);
    }
  }

  lemma {:induction false} OrderedConcat(d: Durations, s: System, es: seq<Timed>, more: seq<Timed>)
    requires Ordered(s.clock, es + more)
    ensures Ordered(s.clock, es) && Ordered(Run(d, s, es).clock, more)
    decreases |es|
  {
    if es == [] {
      assert es + more == more;
    } else {
      assert (es + more)[0] == es[0] && (es + more)[1..] == es[1..] + more;
      ClockStep(d, s, es[0].e, es[0].now);
      hide Next;
      OrderedConcat(d, Next(d, s, es[0].e, es[0].now), es[1..], more);
    }
  }

  /** Magic links are single use. However the calls of concurrent logins interleave, once
      a link is used it was used before it expired, its used_at never changes, and every
      later attempt to consume it fails. */
  lemma LinkSingleUse(d: Durations, es: seq<Timed>, more: seq<Timed>, h: Hash, now: Time)
    requires Ordered(0, es + more)
    requires Used(Run(d, START, es).db, h)
    ensures var s, s' := Run(d, START, es), Run(d, START, es + more);
            && s.db.links[h].usedAt.value < s.db.links[h].expiresAt
            && h in s'.db.links && s'.db.links[h] == s.db.links[h]
            && Consume(s'.db, h, now) == (s'.db, None)
  {
    OrderedConcat(d, START, es, more);
    ConcatRun(d, START, es, more);
    Reachable(d, es);
    RunInv(d, Run(d, START, es), more);
  }

  lemma {:induction false} InjectionSize(m: map<Hash, Hash>, dom: set<Hash>, cod: set<Hash>)
    requires dom <= m.Keys && forall x | x in dom :: m[x] in cod
    requires forall x, y | x in dom && y in dom && x != y :: m[x] != m[y]
    ensures |dom| <= |cod|
    decreases dom
  {
    if dom == {} {
    } else {
      var x :| x in dom;
      InjectionSize(m, dom - {x}, cod - {m[x]});
    }
  }

  function SessionsOf(db: AuthDB, u: UserId): set<Hash> {
    set h | h in db.refresh && db.refresh[h].user == u
  }

  function UsedLinksOf(db: AuthDB, u: UserId): set<Hash> {
    set h | h in db.links && Used(db, h) && db.links[h].user == u
  }

  /** Sessions come from links, one each: an injection from the refresh tokens issued by
      logins to used links of the same user, so a user never has more sessions than links
      they have used. */
  lemma SessionsFromLinks(d: Durations, es: seq<Timed>, u: UserId)
    requires Ordered(0, es)
    ensures var s := Run(d, START, es);
            && s.origin.Keys == s.db.refresh.Keys
            && (forall h | h in s.origin :: Used(s.db, s.origin[h]) && s.db.links[s.origin[h]].user == s.db.refresh[h].user)
            && (forall h, g | h in s.origin && g in s.origin && h != g :: s.origin[h] != s.origin[g])
            && |SessionsOf(s.db, u)| <= |UsedLinksOf(s.db, u)|
  {
    Reachable(d, es);
    var s := Run(d, START, es);
    hide Run, Inv;
    assert OriginOk(s) by { InvOrigin(d, s); }
    InjectionSize(s.origin, SessionsOf(s.db, u), UsedLinksOf(s.db, u));
  }

  lemma InvOrigin(d: Durations, s: System)
    requires Inv(d, s)
    ensures OriginOk(s) && RowsOk(d, s) && IssuedOk(d, s)
  {
  }

  /** Session lifetime. In any run, an access token accepted at time t belongs to a session
      with t before min(creation + refresh duration, first revocation) + access duration,
      plus the delay between checking the session and generating the token; the delay is
      zero when a refresh is one atomic step. */
  lemma SessionLifetime(d: Durations, es: seq<Timed>, a: Access, t: Time)
    requires Ordered(0, es)
    requires a in Run(d, START, es).issued && ValidateAccessToken(a.claims, t).Ok?
    ensures var s := Run(d, START, es); var delay := a.issuedAt - a.checkedAt;
            && a.session in s.db.refresh && a.claims.user == s.db.refresh[a.session].user
            && t < s.db.refresh[a.session].createdAt + d.refresh + d.access + delay
            && (s.db.refresh[a.session].revokedAt.Some? ==>
                  a.session in s.firstRevoked && t < s.firstRevoked[a.session] + d.access + delay)
  {
    Reachable(d, es);
    var s := Run(d, START, es);
    hide Run, Inv;
    InvOrigin(d, s);
    assert AccessOk(d, s, a);
  }

  /** Revocation is permanent and a refresh never extends a session: whatever follows, a
      session keeps its expiry and its user, a revoked one is refused at every check, and
      so is an expired one. */
  lemma RevocationPermanent(d: Durations, es: seq<Timed>, more: seq<Timed>, h: Hash, r: nat)
    requires Ordered(0, es + more) && h in Run(d, START, es).db.refresh
    ensures var s, s' := Run(d, START, es), Run(d, START, es + more);
            && h in s'.db.refresh
            && s'.db.refresh[h].expiresAt == s.db.refresh[h].expiresAt
            && s'.db.refresh[h].user == s.db.refresh[h].user
            && (s.db.refresh[h].revokedAt.Some? ==> s'.db.refresh[h].revokedAt.Some? && RefreshChecked(s', r, h) == s')
            && (s.db.refresh[h].expiresAt < s'.clock ==> RefreshChecked(s', r, h) == s')
  {
    OrderedConcat(d, START, es, more);
    ConcatRun(d, START, es, more);
    Reachable(d, es);
    var s, s' := Run(d, START, es), Run(d, START, es + more);
    RunInv(d, s, more);
    hide Run, Inv;
    SameButRevoked(s.db.refresh[h], s'.db.refresh[h]);
  }

  // ---------- the scope of a logout ----------

  ghost predicate IdsUnique(db: AuthDB) {
    forall g, h | g in db.refresh && h in db.refresh && g != h :: db.refresh[g].tokenId != db.refresh[h].tokenId
  }

  lemma IdsUniqueStep(d: Durations, s: System, e: Event, now: Time)
    requires IdsUnique(s.db)
    ensures IdsUnique(Next(d, s, e, now).db)
  {
    SessionsStep(d, s, e, now);
    hide GenerateAccessToken, NumericDate;
    match e {
      case CreateSession(r, h, tokenId) =>
        if r in s.logins && s.logins[r].HasAccess? {
          InsertAnswer(s.db, h, Refresh(tokenId, s.logins[r].user, now + d.refresh, now, None));
        }
      case Logout(h) => if h in s.db.refresh { RevokeKeepsIds(s.db, Revoke(s.db, s.db.refresh[h].tokenId, now)); }
      case RevokeUser(user) => RevokeKeepsIds(s.db, RevokeAll(s.db, user, now));
      case _ => SessionsUntouched(d, s, e, now); hide Next;
    }
  }

  lemma RevokeKeepsIds(db: AuthDB, db': AuthDB)
    requires IdsUnique(db) && SessionsKept(db, db') && db'.refresh.Keys == db.refresh.Keys
    ensures IdsUnique(db')
  {
    forall g | g in db'.refresh ensures db'.refresh[g].tokenId == db.refresh[g].tokenId {
      SameButRevoked(db.refresh[g], db'.refresh[g]);
    }
  }

  lemma {:induction false} IdsUniqueRun(d: Durations, s: System, es: seq<Timed>)
    requires IdsUnique(s.db)
    ensures IdsUnique(Run(d, s, es).db)
    decreases |es|
  {
    hide Next, IdsUnique;
    if es == [] {
    } else {
      IdsUniqueStep(d, s, es[0].e, es[0].now);
      IdsUniqueRun(d, Next(d, s, es[0].e, es[0].now), es[1..]);
    }
  }

  /** A refresh presented now is accepted at its check. */
  predicate GoodAt(s: System, h: Hash, now: Time) {
    h in s.db.refresh && s.db.refresh[h].revokedAt.None? && s.db.refresh[h].expiresAt >= now
  }

  /** The scope of a logout. In every reachable system a logout ends the session it names, at
      that instant, and no other: any other session keeps its row, and is good at a check
      afterwards iff it was good before. */
  lemma LogoutIsLocal(d: Durations, es: seq<Timed>, g: Hash, now: Time, h: Hash)
    requires Ordered(0, es) && g in Run(d, START, es).db.refresh
    ensures var s := Run(d, START, es); var s' := Next(d, s, Logout(g), now);
            && g in s'.db.refresh && s'.db.refresh[g].revokedAt == Some(now)
            && !GoodAt(s', g, now)
            && (h != g && h in s.db.refresh ==> h in s'.db.refresh && s'.db.refresh[h] == s.db.refresh[h])
            && (h != g ==> (GoodAt(s', h, now) <==> GoodAt(s, h, now)))
            && (g !in s.firstRevoked ==> g in s'.firstRevoked && s'.firstRevoked[g] == now)
            && (h != g && h in s.firstRevoked ==> h in s'.firstRevoked && s'.firstRevoked[h] == s.firstRevoked[h])
  {
    Reachable(d, es);
    IdsUniqueRun(d, START, es);
    var s := Run(d, START, es);
    InvOrigin(d, s);
    hide Run, Inv;
    RevokeOnly(s.db, s.db.refresh[g].tokenId, now, g);
    RevokeOnly(s.db, s.db.refresh[g].tokenId, now, h);
  }

  /** A logout with a token nobody has changes nothing. */
  lemma LogoutOfNothing(d: Durations, s: System, g: Hash, now: Time)
    requires g !in s.db.refresh
    ensures Next(d, s, Logout(g), now) == s.(clock := now)
  {
  }

  /** Revoking a user's sessions ends all of them and nobody else's. */
  lemma RevokeUserIsLocal(d: Durations, s: System, u: UserId, now: Time, h: Hash)
    requires h in s.db.refresh
    ensures var s' := Next(d, s, RevokeUser(u), now);
            && h in s'.db.refresh
            && (s.db.refresh[h].user == u ==> !GoodAt(s', h, now))
            && (s.db.refresh[h].user != u ==> s'.db.refresh[h] == s.db.refresh[h] && (GoodAt(s', h, now) <==> GoodAt(s, h, now)))
  {
    RevokeAllOnly(s.db, u, now, h);
  }

  /** A check accepts exactly the good sessions. */
  lemma CheckAnswer(d: Durations, s: System, r: nat, h: Hash, now: Time)
    requires r !in s.refreshes
    ensures var s' := Next(d, s, CheckRefresh(r, h), now);
            && s'.db == s.db && (r in s'.refreshes <==> GoodAt(s, h, now))
            && (GoodAt(s, h, now) ==> s'.refreshes[r] == Checked(h, s.db.refresh[h].user, now))
  {
  }

  /** The record of first revocations is one: an entry never changes, and a new one carries
      the instant of the step that revoked. */
  lemma FirstRevocationStep(d: Durations, s: System, e: Event, now: Time, h: Hash)
    requires RowsOk(d, s)
    ensures var s' := Next(d, s, e, now);
            && (h in s.firstRevoked ==> h in s'.firstRevoked && s'.firstRevoked[h] == s.firstRevoked[h])
            && (h !in s.firstRevoked && h in s'.firstRevoked ==> s'.firstRevoked[h] == now && (e.Logout? || e.RevokeUser?))
  {
    SessionsStep(d, s, e, now);
    var s0 := s.(clock := now);
    hide LinkCreated, LinkConsumed, UserLookedUp, SessionCreated, RefreshChecked, AccessRefreshed, Revoke, RevokeAll;
    match e {
      case CreateSession(r, g, tokenId) => SessionAdded(d, s0, r, g, tokenId);
      case Logout(g) =>
      case RevokeUser(user) =>
      case _ => SessionsUntouched(d, s, e, now); hide Next;
    }
  }

  lemma {:induction false} FirstRevocationRun(d: Durations, s: System, es: seq<Timed>, h: Hash)
    requires RowsOk(d, s) && Ordered(s.clock, es) && h in s.firstRevoked
    ensures h in Run(d, s, es).firstRevoked && Run(d, s, es).firstRevoked[h] == s.firstRevoked[h]
    decreases |es|
  {
    hide RowsOk, Next;
    if es == [] {
    } else {
      ClockStep(d, s, es[0].e, es[0].now);
      FirstRevocationStep(d, s, es[0].e, es[0].now, h);
      RowsStep(d, s, es[0].e, es[0].now);
      FirstRevocationRun(d, Next(d, s, es[0].e, es[0].now), es[1..], h);
    }
  }
}

/** Magic links, refresh tokens and access tokens as values. A token is known by its hash:
    hashing is taken as injective on issued tokens. Instants and durations are in
    nanoseconds. */
module AuthModel {
  import opened Wrappers

  type Hash = nat
  type UserId = nat
  type Time = nat
  type Email = string

  datatype Link = Link(user: UserId, email: Email, expiresAt: Time, usedAt: Option<Time>)

  datatype Refresh = Refresh(tokenId: nat, user: UserId, expiresAt: Time, createdAt: Time, revokedAt: Option<Time>)

  /** Both token tables have a unique index on the hash. */
  datatype AuthDB = AuthDB(links: map<Hash, Link>, refresh: map<Hash, Refresh>)

  datatype Durations = Durations(magicLink: nat, refresh: nat, access: nat)

  // ---------- repository statements ----------

  predicate Consumable(db: AuthDB, h: Hash, now: Time) {
    h in db.links && db.links[h].usedAt.None? && db.links[h].expiresAt > now
  }

  /** UPDATE ... SET used_at = NOW() WHERE unused and unexpired RETURNING user_id. */
  function Consume(db: AuthDB, h: Hash, now: Time): (AuthDB, Option<UserId>) {
    if Consumable(db, h, now) then
      (db.(links := db.links[h := db.links[h].(usedAt := Some(now))]), Some(db.links[h].user))
    else
      (db, None)
  }

  function InsertLink(db: AuthDB, h: Hash, link: Link): Option<AuthDB> {
    if h in db.links then None else Some(db.(links := db.links[h := link]))
  }

  function InsertRefresh(db: AuthDB, h: Hash, row: Refresh): Option<AuthDB> {
    if h in db.refresh || exists g :: g in db.refresh && db.refresh[g].tokenId == row.tokenId then None
    else Some(db.(refresh := db.refresh[h := row]))
  }

  function Revoke(db: AuthDB, tokenId: nat, now: Time): AuthDB {
    db.(refresh := map h | h in db.refresh ::
      if db.refresh[h].tokenId == tokenId then db.refresh[h].(revokedAt := Some(now)) else db.refresh[h])
  }

  function RevokeAll(db: AuthDB, u: UserId, now: Time): AuthDB {
    db.(refresh := map h | h in db.refresh ::
      if db.refresh[h].user == u && db.refresh[h].revokedAt.None? then db.refresh[h].(revokedAt := Some(now)) else db.refresh[h])
  }

  // ---------- access tokens ----------

  const SECOND: nat := 1_000_000_000
  const ACCESS: string := "access"

  datatype Claims = Claims(user: UserId, email: Email, tokenType: string, issuedAt: Time, notBefore: Time, expiresAt: Time)

  /** NumericDate: whole seconds. */
  function NumericDate(t: Time): Time {
    t - t % SECOND
  }

  function GenerateAccessToken(d: Durations, u: UserId, email: Email, now: Time): Claims {
    Claims(u, email, ACCESS, NumericDate(now), NumericDate(now), NumericDate(now + d.access))
  }

  datatype TokenError = ExpiredToken | InvalidToken

  /** The current time must be before exp and not before nbf, and the type must match. */
  function ValidateAccessToken(c: Claims, now: Time): Result<Claims, TokenError> {
    if now >= c.expiresAt then Err(ExpiredToken)
    else if now < c.notBefore then Err(InvalidToken)
    else if c.tokenType != ACCESS then Err(InvalidToken)
    else Ok(c)
  }

  lemma NumericDateDown(t: Time)
    ensures t - SECOND < NumericDate(t) <= t && NumericDate(t) % SECOND == 0
  {
    var q, r := t / SECOND, t % SECOND;
    assert t == q * SECOND + r;
    assert NumericDate(t) == q * SECOND;
  }

  /** A generated token is accepted from the moment it is generated until, within a second,
      its duration has passed, and never after. */
  lemma AcceptedExactlyWhile(d: Durations, u: UserId, email: Email, now: Time, t: Time)
    ensures var c := GenerateAccessToken(d, u, email, now);
            && (ValidateAccessToken(c, t).Ok? <==> NumericDate(now) <= t < NumericDate(now + d.access))
            && (ValidateAccessToken(c, t).Ok? ==> t < now + d.access)
            && (now <= t <= now + d.access - SECOND ==> ValidateAccessToken(c, t).Ok?)
  {
    NumericDateDown(now);
    NumericDateDown(now + d.access);
  }

  /** What an access token says and how long: a generated token names its user, email and
      type; validation changes nothing in it, and says why it refuses one. */
  lemma TokenRoundTrip(d: Durations, u: UserId, email: Email, now: Time, t: Time)
    ensures var c := GenerateAccessToken(d, u, email, now);
            && c.user == u && c.email == email && c.tokenType == "access"
            && (NumericDate(now) <= t < NumericDate(now + d.access) ==> ValidateAccessToken(c, t) == Ok(c))
            && (t >= NumericDate(now + d.access) ==> ValidateAccessToken(c, t) == Err(ExpiredToken))
  {
  }

  /** Of any claims whatever: an expired token is refused as such, then one used too early or
      of another type as invalid, and any other is returned as it is. */
  lemma ValidateAnswer(c: Claims, now: Time)
    ensures ValidateAccessToken(c, now) == Err(ExpiredToken) <==> c.expiresAt <= now
    ensures ValidateAccessToken(c, now) == Err(InvalidToken) <==>
              now < c.expiresAt && (now < c.notBefore || c.tokenType != "access")
    ensures ValidateAccessToken(c, now).Ok? ==> ValidateAccessToken(c, now).value == c
  {
  }

  // ---------- what the statements do, and what they leave alone ----------

  /** A new link can be consumed until it expires, by whoever presents it, for its user; and
      consuming touches no other row. */
  lemma ConsumeAnswer(db: AuthDB, h: Hash, now: Time)
    ensures var (db', user) := Consume(db, h, now);
            && (user.Some? <==> h in db.links && db.links[h].usedAt == None && now < db.links[h].expiresAt)
            && db'.refresh == db.refresh
            && db'.links.Keys == db.links.Keys
            && (forall g | g in db.links && !(g == h && user.Some?) :: db'.links[g] == db.links[g])
            && (user.Some? ==> user.value == db.links[h].user && db'.links[h] == Link(db.links[h].user, db.links[h].email, db.links[h].expiresAt, Some(now)))
  {
  }

  lemma LinkThenConsume(db: AuthDB, h: Hash, u: UserId, email: Email, expiresAt: Time, now: Time)
    requires h !in db.links
    ensures var db' := InsertLink(db, h, Link(u, email, expiresAt, None));
            && db'.Some? && db'.value.refresh == db.refresh
            && Consume(db'.value, h, now).1 == (if now < expiresAt then Some(u) else None)
  {
  }

  /** Revoking a token id touches the sessions of that id alone, whatever their state. */
  lemma RevokeOnly(db: AuthDB, tokenId: nat, now: Time, g: Hash)
    ensures var db' := Revoke(db, tokenId, now);
            && db'.links == db.links && db'.refresh.Keys == db.refresh.Keys
            && (g in db.refresh && db.refresh[g].tokenId != tokenId ==> db'.refresh[g] == db.refresh[g])
            && (g in db.refresh && db.refresh[g].tokenId == tokenId ==>
                  db'.refresh[g] == Refresh(tokenId, db.refresh[g].user, db.refresh[g].expiresAt, db.refresh[g].createdAt, Some(now)))
  {
  }

  /** Revoking all sessions of a user touches the live ones of that user alone. */
  lemma RevokeAllOnly(db: AuthDB, u: UserId, now: Time, g: Hash)
    ensures var db' := RevokeAll(db, u, now);
            && db'.links == db.links && db'.refresh.Keys == db.refresh.Keys
            && (g in db.refresh && (db.refresh[g].user != u || db.refresh[g].revokedAt.Some?) ==> db'.refresh[g] == db.refresh[g])
            && (g in db.refresh && db.refresh[g].user == u && db.refresh[g].revokedAt.None? ==>
                  db'.refresh[g] == Refresh(db.refresh[g].tokenId, u, db.refresh[g].expiresAt, db.refresh[g].createdAt, Some(now)))
  {
  }

  /** A new session is added next to the others, under a hash and a token id that none has. */
  lemma InsertAnswer(db: AuthDB, h: Hash, row: Refresh)
    ensures InsertRefresh(db, h, row).Some? <==>
              h !in db.refresh && forall g | g in db.refresh :: db.refresh[g].tokenId != row.tokenId
    ensures InsertRefresh(db, h, row).Some? ==>
              var db' := InsertRefresh(db, h, row).value;
              && db'.links == db.links && db'.refresh.Keys == db.refresh.Keys + {h} && db'.refresh[h] == row
              && forall g | g in db.refresh :: db'.refresh[g] == db.refresh[g]
  {
  }
}

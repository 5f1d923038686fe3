/** The auth repository over its two tables, updated in place, and the auth service as
    sequences of its calls. The instants at which a call reads the clock are parameters,
    and so are the fresh random tokens. */
module AuthServices {
  import opened Wrappers
  import opened AuthModel

  datatype AuthError = TokenInvalid | UserUnknown | RefreshInvalid | RefreshRevoked | RefreshExpired | Duplicate

  datatype LoginResponse = LoginResponse(user: UserId, access: Claims, refreshHash: Hash)

  class AuthRepository {
    var links: map<Hash, Link>
    var refresh: map<Hash, Refresh>

    function Db(): AuthDB
      reads this
    {
      AuthDB(links, refresh)
    }

    constructor ()
      ensures Db() == AuthDB(map[], map[])
    {
      links, refresh := map[], map[];
    }

    method CreateMagicLinkToken(h: Hash, link: Link) returns (created: bool)
      modifies this`links
      ensures match InsertLink(old(Db()), h, link)
              case None => !created && Db() == old(Db())
              case Some(db) => created && Db() == db
    {
      created := h !in links;
      if created {
        links := links[h := link];
      }
    }

    /** One UPDATE ... RETURNING: a compare-and-set of used_at. */
    method VerifyAndConsumeMagicLinkToken(h: Hash, now: Time) returns (user: Option<UserId>)
      modifies this`links
      ensures (Db(), user) == Consume(old(Db()), h, now)
      ensures user.Some? <==> h in old(links) && old(links)[h].usedAt.None? && old(links)[h].expiresAt > now
      ensures user.None? ==> links == old(links)
      ensures user.Some? ==>
                && user.value == old(links)[h].user
                && links == old(links)[h := old(links)[h].(usedAt := Some(now))]
    {
      user := None;
      if h in links {
        var row := links[h];
        if row.usedAt == None && row.expiresAt > now {
          links := links[h := row.(usedAt := Some(now))];
          user := Some(row.user);
        }
      }
    }

    method CreateRefreshToken(h: Hash, row: Refresh) returns (created: bool)
      modifies this`refresh
      ensures match InsertRefresh(old(Db()), h, row)
              case None => !created && Db() == old(Db())
              case Some(db) => created && Db() == db
    {
      created := h !in refresh && forall g | g in refresh :: refresh[g].tokenId != row.tokenId;
      if created {
        refresh := refresh[h := row];
      }
    }

    method GetRefreshTokenByHash(h: Hash) returns (row: Option<Refresh>)
      ensures match row case None => h !in refresh case Some(token) => h in refresh && refresh[h] == token
    {
      row := if h in refresh then Some(refresh[h]) else None;
    }

    method RevokeRefreshToken(tokenId: nat, now: Time)
      modifies this`refresh
      ensures Db() == Revoke(old(Db()), tokenId, now)
      ensures refresh.Keys == old(refresh).Keys
      ensures forall g | g in refresh && old(refresh)[g].tokenId != tokenId :: refresh[g] == old(refresh)[g]
      ensures forall g | g in refresh && old(refresh)[g].tokenId == tokenId ::
                refresh[g] == old(refresh)[g].(revokedAt := Some(now))
    {
      var revoked := map h | h in refresh && refresh[h].tokenId == tokenId :: refresh[h].(revokedAt := Some(now));
      refresh := refresh + revoked;
    }

    method RevokeAllUserRefreshTokens(u: UserId, now: Time)
      modifies this`refresh
      ensures Db() == RevokeAll(old(Db()), u, now)
      ensures refresh.Keys == old(refresh).Keys
      ensures forall g | g in refresh && old(refresh)[g].user == u && old(refresh)[g].revokedAt.None? ::
                refresh[g] == old(refresh)[g].(revokedAt := Some(now))
      ensures forall g | g in refresh && !(old(refresh)[g].user == u && old(refresh)[g].revokedAt.None?) ::
                refresh[g] == old(refresh)[g]
    {
      var revoked := map h | h in refresh && refresh[h].user == u && refresh[h].revokedAt == None
        :: refresh[h].(revokedAt := Some(now));
      refresh := refresh + revoked;
    }
  }

  class UsersRepository {
    var emails: map<UserId, Email>

    constructor ()
      ensures emails == map[]
    {
      emails := map[];
    }

    method FindByID(u: UserId) returns (email: Option<Email>)
      ensures email == if u in emails then Some(emails[u]) else None
    {
      email := if u in emails then Some(emails[u]) else None;
    }
  }

  class AuthService {
    const repository: AuthRepository
    const usersRepository: UsersRepository
    const durations: Durations

    constructor (repository: AuthRepository, usersRepository: UsersRepository, durations: Durations)
      ensures this.repository == repository && this.usersRepository == usersRepository && this.durations == durations
    {
      this.repository, this.usersRepository, this.durations := repository, usersRepository, durations;
    }

    /** Stores a link that expires after the magic-link duration. */
    method CreateMagicLink(u: UserId, email: Email, newHash: Hash, now: Time) returns (created: bool)
      modifies repository
      ensures created <==> newHash !in old(repository.links)
      ensures repository.refresh == old(repository.refresh)
      ensures repository.links == if created then old(repository.links)[newHash := Link(u, email, now + durations.magicLink, None)]
                                  else old(repository.links)
    {
      created := repository.CreateMagicLinkToken(newHash, Link(u, email, now + durations.magicLink, None));
    }

    /** Consume the link, look the user up, generate an access token, insert a refresh
        token. Whatever fails after the first call, the link stays consumed. */
    method LoginWithMagicLink(h: Hash, newHash: Hash, tokenId: nat, t1: Time, t2: Time, t3: Time)
      returns (result: Result<LoginResponse, AuthError>)
      modifies repository
      ensures !Consumable(old(repository.Db()), h, t1) <==> result == Err(TokenInvalid)
      ensures result == Err(UserUnknown) <==>
                Consumable(old(repository.Db()), h, t1) && old(repository.links)[h].user !in usersRepository.emails
      ensures repository.links == Consume(old(repository.Db()), h, t1).0.links
      ensures result.Ok? <==>
                && Consumable(old(repository.Db()), h, t1)
                && old(repository.links)[h].user in usersRepository.emails
                && newHash !in old(repository.refresh)
                && forall g | g in old(repository.refresh) :: old(repository.refresh)[g].tokenId != tokenId
      ensures result.Ok? ==>
                && var u := old(repository.links)[h].user;
                && u in usersRepository.emails
                && result.value == LoginResponse(u, GenerateAccessToken(durations, u, usersRepository.emails[u], t2), newHash)
                && result.value.access.email == usersRepository.emails[u]
                && repository.refresh == old(repository.refresh)[newHash := Refresh(tokenId, u, t3 + durations.refresh, t3, None)]
      ensures result.Err? ==> repository.refresh == old(repository.refresh)
    {
      var user := repository.VerifyAndConsumeMagicLinkToken(h, t1);
      if user.None? {
        return Err(TokenInvalid);
      }
      var email := usersRepository.FindByID(user.value);
      if email.None? {
        return Err(UserUnknown);
      }
      var access := GenerateAccessToken(durations, user.value, email.value, t2);
      var created := repository.CreateRefreshToken(newHash, Refresh(tokenId, user.value, t3 + durations.refresh, t3, None));
      if !created {
        return Err(Duplicate);
      }
      result := Ok(LoginResponse(user.value, access, newHash));
    }

    /** A new access token for a live session; nothing is written. */
    method RefreshAccessToken(h: Hash, now: Time) returns (result: Result<LoginResponse, AuthError>)
      ensures result == Err(RefreshInvalid) <==> h !in repository.refresh
      ensures result == Err(RefreshRevoked) <==> h in repository.refresh && repository.refresh[h].revokedAt.Some?
      ensures result == Err(RefreshExpired) <==>
                h in repository.refresh && repository.refresh[h].revokedAt.None? && repository.refresh[h].expiresAt < now
      ensures result == Err(UserUnknown) <==>
                && h in repository.refresh && repository.refresh[h].revokedAt.None? && repository.refresh[h].expiresAt >= now
                && repository.refresh[h].user !in usersRepository.emails
      ensures result != Err(TokenInvalid) && result != Err(Duplicate)
      ensures result.Ok? ==>
                && var row := repository.refresh[h];
                && row.user in usersRepository.emails
                && result.value == LoginResponse(row.user, GenerateAccessToken(durations, row.user, usersRepository.emails[row.user], now), h)
    {
      var row := repository.GetRefreshTokenByHash(h);
      if row.None? {
        return Err(RefreshInvalid);
      }
      if row.value.revokedAt.Some? {
        return Err(RefreshRevoked);
      }
      if row.value.expiresAt < now {
        return Err(RefreshExpired);
      }
      var email := usersRepository.FindByID(row.value.user);
      if email.None? {
        return Err(UserUnknown);
      }
      result := Ok(LoginResponse(row.value.user, GenerateAccessToken(durations, row.value.user, email.value, now), h));
    }

    /** Revokes the session of a known token, and only that one. */
    method Logout(h: Hash, now: Time) returns (known: bool)
      modifies repository
      ensures known <==> h in old(repository.refresh)
      ensures repository.links == old(repository.links)
      ensures known ==> repository.Db() == Revoke(old(repository.Db()), old(repository.refresh)[h].tokenId, now)
      ensures repository.refresh.Keys == old(repository.refresh).Keys
      ensures known ==> repository.refresh[h] == old(repository.refresh)[h].(revokedAt := Some(now))
      ensures known ==> forall g | g in old(repository.refresh)
                          && old(repository.refresh)[g].tokenId != old(repository.refresh)[h].tokenId ::
                repository.refresh[g] == old(repository.refresh)[g]
      ensures !known ==> repository.refresh == old(repository.refresh)
    {
      var row := repository.GetRefreshTokenByHash(h);
      known := row.Some?;
      if known {
        repository.RevokeRefreshToken(row.value.tokenId, now);
      }
    }
  }
}

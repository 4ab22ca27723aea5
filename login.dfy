/** The login of api/v1/tasks/main.py (`_authorize`): exchange the
    authorization code, read the profile, insert the user or overwrite its
    profile fields, and hand the token response back as a session token. */
module Login {
  import opened Common
  import opened Models
  import opened Identity
  import opened Quotes

  /** The profile carries text for the three columns the login stores. */
  predicate Complete(p: Profile) {
    p.email.Text? && p.globalName.Text? && p.avatar.Text?
  }

  /** The first of the three keys the login reads that the profile lacks. A
      first login reads `email`, `global_name`, `avatar` in that order; a
      later login reads `avatar`, `global_name`, `email`. */
  function MissingKeyOf(p: Profile, isNew: bool): (r: Option<string>)
    ensures r.None? <==> !p.email.Absent? && !p.globalName.Absent? && !p.avatar.Absent?
    ensures isNew && p.email.Absent? ==> r == Some("email")
    ensures isNew && !p.email.Absent? && p.globalName.Absent? ==> r == Some("global_name")
    ensures isNew && !p.email.Absent? && !p.globalName.Absent? && p.avatar.Absent? ==> r == Some("avatar")
    ensures !isNew && p.avatar.Absent? ==> r == Some("avatar")
    ensures !isNew && !p.avatar.Absent? && p.globalName.Absent? ==> r == Some("global_name")
    ensures !isNew && !p.avatar.Absent? && !p.globalName.Absent? && p.email.Absent? ==> r == Some("email")
  {
    if isNew then
      if p.email.Absent? then Some("email")
      else if p.globalName.Absent? then Some("global_name")
      else if p.avatar.Absent? then Some("avatar")
      else None
    else
      if p.avatar.Absent? then Some("avatar")
      else if p.globalName.Absent? then Some("global_name")
      else if p.email.Absent? then Some("email")
      else None
  }

  /** The row a first login creates. */
  function NewUser(id: int, discordId: string, p: Profile, now: Timestamp): User
    requires Complete(p)
  {
    User(id, discordId, p.email.text, p.globalName.text, p.avatar.text, now, None)
  }

  /** A later login: the profile fields are overwritten, never merged. */
  function Refreshed(u: User, p: Profile): User
    requires Complete(p)
  {
    u.(avatarUrl := p.avatar.text, displayName := p.globalName.text, email := p.email.text)
  }

  /** The users table after a successful login of `discordId` with profile `p`. */
  function Upsert(db: Db, discordId: string, p: Profile, now: Timestamp): Db
    requires Complete(p)
  {
    match UserByDiscord(db.users, discordId)
    case None => db.(users := db.users + [NewUser(db.nextId, discordId, p, now)], nextId := db.nextId + 1)
    case Some(i) => db.(users := db.users[i := Refreshed(db.users[i], p)])
  }

  /** `_authorize`. The two guards answer 400; past them, an absent profile
      key is an uncaught lookup error, and a null value in one of the three
      columns, which the users table declares as plain strings, makes the
      database refuse the commit. */
  function Authorize(db: Db, gw: Gateway, code: string, now: Timestamp): (o: Outcome<string>)
    ensures o.result.Err? ==> o.db == db
    ensures gw.exchange(code).accessToken.None? ==> o.result == Err(Http(400, "Invalid authorization code"))
    ensures gw.exchange(code).accessToken.Some? && gw.profile(gw.exchange(code).accessToken.value).id.None? ==>
      o.result == Err(Http(400, "Invalid user information"))
    ensures o.result.Ok? <==>
      && gw.exchange(code).accessToken.Some?
      && gw.profile(gw.exchange(code).accessToken.value).id.Some?
      && Complete(gw.profile(gw.exchange(code).accessToken.value))
    ensures gw.exchange(code).accessToken.Some? && gw.profile(gw.exchange(code).accessToken.value).id.Some? ==>
      var p := gw.profile(gw.exchange(code).accessToken.value);
      && (p.email.Absent? || p.globalName.Absent? || p.avatar.Absent? ==> o.result.Err? && o.result.error.Unhandled? && o.result.error.fault.MissingKey?)
      && (!p.email.Absent? && !p.globalName.Absent? && !p.avatar.Absent? && !Complete(p) ==>
            o.result == Err(Unhandled(RejectedByDatabase)))
    ensures o.result.Ok? ==> o.result.value == gw.encode(gw.exchange(code))
    ensures o.db.(users := db.users, nextId := db.nextId) == db
  {
    var access := gw.exchange(code);
    match access.accessToken
    case None => Outcome(db, Err(Http(400, "Invalid authorization code")))
    case Some(bearer) =>
      var p := gw.profile(bearer);
      match p.id
      case None => Outcome(db, Err(Http(400, "Invalid user information")))
      case Some(id) =>
        match MissingKeyOf(p, UserByDiscord(db.users, id).None?)
        case Some(key) => Outcome(db, Err(Unhandled(MissingKey(key))))
        case None =>
          if !Complete(p) then Outcome(db, Err(Unhandled(RejectedByDatabase)))
          else Outcome(Upsert(db, id, p, now), Ok(gw.encode(access)))
  }

  /** A token response without an access token is refused before the
      profile is requested: what the profile request would answer makes no
      difference. */
  lemma AuthorizeChecksCodeFirst(db: Db, gw: Gateway, code: string, now: Timestamp, other: string -> Profile)
    requires gw.exchange(code).accessToken.None?
    ensures Authorize(db, gw.(profile := other), code, now) == Authorize(db, gw, code, now)
    ensures Authorize(db, gw, code, now) == Outcome(db, Err(Http(400, "Invalid authorization code")))
  {
  }

  /** A first login inserts exactly one user, with a fresh id, the profile's
      id, email, global name and avatar, and the request time. */
  lemma AuthorizeInserts(db: Db, gw: Gateway, code: string, now: Timestamp)
    requires Authorize(db, gw, code, now).result.Ok?
    requires UserByDiscord(db.users, gw.profile(gw.exchange(code).accessToken.value).id.value).None?
    ensures var p := gw.profile(gw.exchange(code).accessToken.value);
      var o := Authorize(db, gw, code, now);
      && o.db.users == db.users + [User(db.nextId, p.id.value, p.email.text, p.globalName.text, p.avatar.text, now, None)]
      && o.db.nextId == db.nextId + 1
      && (forall u :: u in o.db.users && u.discordId == p.id.value ==> u == o.db.users[|db.users|])
  {
    var p := gw.profile(gw.exchange(code).accessToken.value);
    var users := Authorize(db, gw, code, now).db.users;
    assert forall j :: 0 <= j < |db.users| ==> users[j] == db.users[j];
    forall u | u in users && u.discordId == p.id.value ensures u == users[|db.users|] {
      var k :| 0 <= k < |users| && users[k] == u;
    }
  }

  /** A later login inserts nothing: the first user with the profile's id
      gets the profile's avatar, global name and email, and keeps its id,
      Discord id, creation time and deletion time; every other row is left as
      it was. */
  lemma AuthorizeOverwrites(db: Db, gw: Gateway, code: string, now: Timestamp)
    requires Authorize(db, gw, code, now).result.Ok?
    requires UserByDiscord(db.users, gw.profile(gw.exchange(code).accessToken.value).id.value).Some?
    ensures var p := gw.profile(gw.exchange(code).accessToken.value);
      var i := UserByDiscord(db.users, p.id.value).value;
      var o := Authorize(db, gw, code, now);
      && |o.db.users| == |db.users| && o.db.nextId == db.nextId
      && o.db.users[i] == User(db.users[i].userId, p.id.value, p.email.text, p.globalName.text, p.avatar.text,
                               db.users[i].createdAt, db.users[i].deletedAt)
      && forall j :: 0 <= j < |db.users| && j != i ==> o.db.users[j] == db.users[j]
  {
  }

  /** Logging in keeps the database valid and leaves exactly one user with
      the profile's Discord id. */
  lemma AuthorizeKeepsValid(db: Db, gw: Gateway, code: string, now: Timestamp)
    requires Valid(db)
    ensures Valid(Authorize(db, gw, code, now).db)
    ensures Authorize(db, gw, code, now).result.Ok? ==>
      var id := gw.profile(gw.exchange(code).accessToken.value).id.value;
      var users := Authorize(db, gw, code, now).db.users;
      && UserByDiscord(users, id).Some?
      && forall j, k :: 0 <= j < |users| && 0 <= k < |users| && users[j].discordId == id && users[k].discordId == id ==> j == k
  {
    var o := Authorize(db, gw, code, now);
    if o.result.Ok? {
      var p := gw.profile(gw.exchange(code).accessToken.value);
      var id := p.id.value;
      match UserByDiscord(db.users, id)
      case None =>
        var u := NewUser(db.nextId, id, p, now);
        UniqueByAppend(db.users, u, UserIdOf);
        UniqueByAppend(db.users, u, DiscordIdOf);
        UpsertKeepsIds(db, id, p, now);
        assert o.db.users[|db.users|].discordId == id;
        UniqueKeyIndices(o.db.users, id);
      case Some(i) =>
        var u := Refreshed(db.users[i], p);
        UniqueByUpdate(db.users, i, u, UserIdOf);
        UniqueByUpdate(db.users, i, u, DiscordIdOf);
        UpsertKeepsIds(db, id, p, now);
        assert o.db.users[i].discordId == id;
        UniqueKeyIndices(o.db.users, id);
    }
  }

  /** Two positions with the same Discord id are one position. */
  lemma UniqueKeyIndices(users: seq<User>, id: string)
    requires UniqueBy(users, DiscordIdOf)
    ensures forall j, k :: 0 <= j < |users| && 0 <= k < |users| && users[j].discordId == id && users[k].discordId == id ==> j == k
  {
    forall j, k | 0 <= j < |users| && 0 <= k < |users| && users[j].discordId == id && users[k].discordId == id
      ensures j == k
    {
      UniqueByIndices(users, DiscordIdOf, j, k);
    }
  }

  /** The upsert keeps every user id, adds at most the fresh one, and keeps ids below the counter. */
  lemma UpsertKeepsIds(db: Db, discordId: string, p: Profile, now: Timestamp)
    requires Valid(db) && Complete(p)
    ensures UserIds(db.users) <= UserIds(Upsert(db, discordId, p, now).users)
    ensures forall u :: u in Upsert(db, discordId, p, now).users ==> u.userId < Upsert(db, discordId, p, now).nextId
    ensures Upsert(db, discordId, p, now).nextId >= db.nextId
  {
    var db' := Upsert(db, discordId, p, now);
    forall id | id in UserIds(db.users) ensures id in UserIds(db'.users) {
      var u :| u in db.users && u.userId == id;
      var k :| 0 <= k < |db.users| && db.users[k] == u;
      assert db'.users[k].userId == id;
      assert db'.users[k] in db'.users;
    }
    forall u | u in db'.users ensures u.userId < db'.nextId {
      var k :| 0 <= k < |db'.users| && db'.users[k] == u;
      if k < |db.users| {
        assert db.users[k] in db.users;
      }
    }
  }
}

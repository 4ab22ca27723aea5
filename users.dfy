/** The user-side tasks of api/v1/tasks/users.py: listing and looking up
    users, deleting one's own account, a user's quotes and bookmarks, and
    registering and removing webhooks. */
module Users {
  import opened Common
  import opened Models
  import opened Identity
  import opened Views
  import opened Query
  import opened Quotes

  // ---------------------------------------------------------------- listing

  /** The offset `_get_users` computes, with Python's precedence: `page - 1 * limit`. */
  function UsersOffset(page: int, limit: int): int {
    page - 1 * limit
  }

  /** The offset is `page - limit`, not the `(page - 1) * limit` of the quote
      listing; the two agree on a positive page exactly when `limit` is 1. */
  lemma UsersOffsetLiteral(page: int, limit: int)
    ensures UsersOffset(page, limit) == page - limit
    ensures page > 0 && limit > 0 ==> (UsersOffset(page, limit) == PageStart(page, limit) <==> limit == 1)
  {
    if page > 0 && limit > 0 {
      assert PageStart(page, limit) == page * limit - limit;
      if limit != 1 {
        assert page * limit - page == page * (limit - 1);
        assert page * (limit - 1) >= page;
      }
    }
  }

  /** Users whose display name contains `search`; the filter applies only to a non-empty search. */
  function Searched(users: seq<User>, search: string): seq<User> {
    if search == "" then users else Filter(users, (u: User) => Contains(u.displayName, search))
  }

  /** The query of `_get_users` as written: with paging, `LIMIT limit OFFSET
      page - limit`, which the database refuses when negative. */
  function SelectUsers(users: seq<User>, page: int, limit: int, search: string): Result<seq<User>> {
    var found := Searched(users, search);
    if page > 0 && limit > 0 then
      if UsersOffset(page, limit) < 0 then Err(Unhandled(RejectedByDatabase))
      else Ok(Window(found, UsersOffset(page, limit), limit))
    else Ok(found)
  }

  /** A search keeps exactly the users whose display name contains it, in row
      order; without paging that is the answer, and with paging the answer is
      the `limit` consecutive rows of it from position `page - limit` (fewer
      where the matches run out, none past their end), or a refused
      statement when `page < limit`. */
  lemma SelectUsersRule(users: seq<User>, page: int, limit: int, search: string)
    ensures forall u :: u in Searched(users, search) <==> u in users && (search == "" || Contains(u.displayName, search))
    ensures multiset(Searched(users, search)) <= multiset(users)
    ensures !(page > 0 && limit > 0) ==> SelectUsers(users, page, limit, search) == Ok(Searched(users, search))
    ensures page > 0 && limit > 0 ==>
      (SelectUsers(users, page, limit, search).Err? <==> page < limit)
    ensures page > 0 && limit > 0 && page >= limit ==>
      var r := SelectUsers(users, page, limit, search).value;
      && |r| == (if page - limit <= |Searched(users, search)| then Min(limit, |Searched(users, search)| - (page - limit)) else 0)
      && forall i :: 0 <= i < |r| ==> page - limit + i < |Searched(users, search)| && r[i] == Searched(users, search)[page - limit + i]
  {
    UsersOffsetLiteral(page, limit);
    var found := Searched(users, search);
    if page > 0 && limit > 0 && page >= limit {
      assert SelectUsers(users, page, limit, search) == Ok(Window(found, page - limit, limit));
    }
  }

  /** With the usual first page, one user per page or more is always refused. */
  lemma FirstPageRefused(users: seq<User>, search: string, limit: int)
    requires limit > 1
    ensures SelectUsers(users, 1, limit, search) == Err(Unhandled(RejectedByDatabase))
  {
    UsersOffsetLiteral(1, limit);
  }

  /** The query `_get_users` evidently means: page `page` of `limit` rows,
      starting at `(page - 1) * limit`, as the quote listing pages. */
  function SelectUsersIntended(users: seq<User>, page: int, limit: int, search: string): seq<User> {
    var found := Searched(users, search);
    if page > 0 && limit > 0 then Window(found, PageStart(page, limit), limit) else found
  }

  /** The intended query never fails; page `page` is the `limit` consecutive
      matches from position `(page - 1) * limit` (fewer where the matches run
      out, none past their end), and the first page is the first `limit`
      matches. */
  lemma SelectUsersIntendedRule(users: seq<User>, page: int, limit: int, search: string)
    requires page > 0 && limit > 0
    ensures var r := SelectUsersIntended(users, page, limit, search);
      var found := Searched(users, search);
      var start := PageStart(page, limit);
      && |r| == (if start <= |found| then Min(limit, |found| - start) else 0)
      && (forall i :: 0 <= i < |r| ==> PageStart(page, limit) + i < |found| && r[i] == found[PageStart(page, limit) + i])
      && (page == 1 ==> r == found[..Min(limit, |found|)])
  {
    var found := Searched(users, search);
    var start := PageStart(page, limit);
    assert SelectUsersIntended(users, page, limit, search) == Window(found, start, limit);
    if page == 1 {
      assert start == 0;
    }
  }

  /** `_get_users`. */
  function GetUsers(db: Db, page: int, limit: int, search: string): Result<seq<User>> {
    SelectUsers(db.users, page, limit, search)
  }

  // ----------------------------------------------------------------- lookup

  function DigitChar(d: nat): char
    requires d < 10
  {
    "0123456789"[d]
  }

  function Digits(n: nat): string
    decreases n
  {
    if n < 10 then [DigitChar(n)] else Digits(n / 10) + [DigitChar(n % 10)]
  }

  /** The decimal rendering of an integer, as the string column is compared with it. */
  function Decimal(n: int): string {
    if n < 0 then "-" + Digits(-n) else Digits(n)
  }

  /** The lookup condition: the primary key equals `id`, or the Discord id does. */
  predicate IdentifiedBy(u: User, id: int) {
    u.userId == id || u.discordId == Decimal(id)
  }

  /** `_get_user`: the first user whose own id or Discord id is `id`. */
  function GetUser(users: seq<User>, id: int): (r: Result<User>)
    ensures r.Err? <==> forall i :: 0 <= i < |users| ==> !IdentifiedBy(users[i], id)
    ensures r.Err? ==> r.error == Http(404, "User not found")
    ensures r.Ok? ==> exists i ::
      && 0 <= i < |users| && users[i] == r.value && IdentifiedBy(r.value, id)
      && forall j :: 0 <= j < i ==> !IdentifiedBy(users[j], id)
  {
    match FirstIndex(users, (u: User) => IdentifiedBy(u, id))
    case None => Err(Http(404, "User not found"))
    case Some(i) => Ok(users[i])
  }

  /** A user is found by its own id provided no user's Discord id is the
      decimal rendering of that id: the lookup also matches Discord ids, and
      takes the first match in row order. */
  lemma GetUserByUserId(users: seq<User>, u: User)
    requires UniqueBy(users, UserIdOf) && u in users
    requires forall v :: v in users ==> v.discordId != Decimal(u.userId)
    ensures GetUser(users, u.userId) == Ok(u)
  {
    var r := GetUser(users, u.userId);
    var k :| 0 <= k < |users| && users[k] == u;
    assert IdentifiedBy(users[k], u.userId);
    var i :| 0 <= i < |users| && users[i] == r.value && IdentifiedBy(r.value, u.userId);
    assert users[i].userId == u.userId;
    UniqueByIndices(users, UserIdOf, i, k);
  }

  /** The proviso of GetUserByUserId is needed: when an earlier user's
      Discord id spells another user's id, the lookup by that id answers the
      earlier user, although both keys are unique. */
  lemma GetUserMatchesDiscordFirst()
    ensures var a := User(1, "5", "", "", "", 0, None);
      var b := User(5, "x", "", "", "", 0, None);
      && UniqueBy([a, b], UserIdOf) && UniqueBy([a, b], DiscordIdOf)
      && GetUser([a, b], 5) == Ok(a)
  {
    var a := User(1, "5", "", "", "", 0, None);
    var b := User(5, "x", "", "", "", 0, None);
    assert Decimal(5) == "5";
    assert IdentifiedBy(a, 5);
    assert forall x :: multiset([a, b])[x] <= 1 by {
      forall x ensures multiset([a, b])[x] <= 1 {
        assert multiset([a, b]) == multiset{a} + multiset{b};
      }
    }
  }

  // -------------------------------------------------------- deleting oneself

  /** The dump of a user row: every column except the excluded email address. */
  datatype UserDump = UserDump(
    userId: int,
    discordId: string,
    displayName: string,
    avatarUrl: string,
    createdAt: Timestamp,
    deletedAt: Option<Timestamp>)

  function Dump(u: User): UserDump {
    UserDump(u.userId, u.discordId, u.displayName, u.avatarUrl, u.createdAt, u.deletedAt)
  }

  /** `_delete_me`: the snapshot is taken before the row and everything it owns is deleted. */
  function DeleteMe(db: Db, gw: Gateway, token: string): (o: Outcome<UserDump>)
    ensures o.result.Err? ==> o.db == db
    ensures o.result.Err? <==> Actor(db.users, gw, token, "User not found!").Err?
    ensures o.result.Err? ==> o.result.error == Actor(db.users, gw, token, "User not found!").error
    ensures Actor(db.users, gw, token, "User not found!").Ok? ==>
      var me := db.users[Actor(db.users, gw, token, "User not found!").value];
      o == Outcome(DeleteUserCascade(db, me.userId), Ok(Dump(me)))
  {
    match Actor(db.users, gw, token, "User not found!")
    case Err(e) => Outcome(db, Err(e))
    case Ok(u) => Outcome(DeleteUserCascade(db, db.users[u].userId), Ok(Dump(db.users[u])))
  }

  /** Deleting oneself answers the row's values as they were, without the email
      address; afterwards no user has the caller's Discord id, every other
      user remains, and of the other tables exactly the rows the caller owned,
      and the rows hanging off the caller's quotes, are gone: every other
      user's quotes, reactions, bookmarks, comments, roles and webhooks
      remain, and the database is valid. */
  lemma DeleteMeRemoves(db: Db, gw: Gateway, token: string)
    requires Valid(db)
    requires Actor(db.users, gw, token, "User not found!").Ok?
    ensures var me := db.users[Actor(db.users, gw, token, "User not found!").value];
      var o := DeleteMe(db, gw, token);
      && o.result == Ok(UserDump(me.userId, me.discordId, me.displayName, me.avatarUrl, me.createdAt, me.deletedAt))
      && Valid(o.db)
      && UserByDiscord(o.db.users, me.discordId).None?
      && (forall u :: u in o.db.users <==> u in db.users && u != me)
      && var gone := OwnedQuoteIds(db.quotes, me.userId);
      && (forall q :: q in o.db.quotes <==> q in db.quotes && q.userId != me.userId)
      && (forall r :: r in o.db.reactions <==> r in db.reactions && r.userId != me.userId && r.quoteId !in gone)
      && (forall s :: s in o.db.saved <==> s in db.saved && s.userId != me.userId && s.quoteId !in gone)
      && (forall c :: c in o.db.comments <==> c in db.comments && c.userId != me.userId && c.quoteId !in gone)
      && (forall w :: w in o.db.webhooks <==> w in db.webhooks && w.userId != me.userId)
      && (forall ur :: ur in o.db.userRoles <==> ur in db.userRoles && ur.userId != me.userId)
      && o.db.roles == db.roles
  {
    var k := Actor(db.users, gw, token, "User not found!").value;
    var me := db.users[k];
    DeleteUserCascadeValid(db, me.userId);
    var after := DeleteUserCascade(db, me.userId).users;
    forall u | u in db.users ensures u.userId == me.userId <==> u == me {
      var j :| 0 <= j < |db.users| && db.users[j] == u;
      if u.userId == me.userId {
        UniqueByIndices(db.users, UserIdOf, j, k);
      }
    }
    forall j | 0 <= j < |after| ensures after[j].discordId != me.discordId {
      assert after[j] in db.users;
      var i :| 0 <= i < |db.users| && db.users[i] == after[j];
      if after[j].discordId == me.discordId {
        UniqueByIndices(db.users, DiscordIdOf, i, k);
      }
    }
  }

  /** Any self-deletion request leaves a valid database valid. */
  lemma DeleteMeKeepsValid(db: Db, gw: Gateway, token: string)
    requires Valid(db)
    ensures Valid(DeleteMe(db, gw, token).db)
  {
    if Actor(db.users, gw, token, "User not found!").Ok? {
      DeleteMeRemoves(db, gw, token);
    }
  }

  /** Deleting oneself twice: the second request no longer finds the caller. */
  lemma DeleteMeTwice(db: Db, gw: Gateway, token: string)
    requires Valid(db)
    requires Actor(db.users, gw, token, "User not found!").Ok?
    ensures var first := DeleteMe(db, gw, token);
      DeleteMe(first.db, gw, token) == Outcome(first.db, Err(Http(404, "User not found!")))
  {
    DeleteMeRemoves(db, gw, token);
  }

  // -------------------------------------------------------- a user's quotes

  /** `user.quotes`: the user's quotes in row order. */
  function QuotesOf(quotes: seq<Quote>, userId: int): seq<Quote> {
    Filter(quotes, (q: Quote) => q.userId == userId)
  }

  /** The order `_get_user_quotes` sorts into: ascending for "ascend", descending otherwise. */
  function Descending(sort: string): bool {
    sort != "ascend"
  }

  /** `_get_user_quotes`: the user by id, the user's quotes sorted by
      `created_at`, and the viewer's view of each. */
  function GetUserQuotes(db: Db, gw: Gateway, id: int, sort: string, token: string): Result<seq<QuoteView>> {
    if UserById(db.users, id).None? then Err(Http(404, "User not found!"))
    else
      var sorted := SortBy(QuotesOf(db.quotes, id), CreatedAtOf, Descending(sort));
      var viewer :- ViewerFor(gw, token);
      PresentAll(db, sorted, viewer)
  }

  /** The user's quotes as `_get_user_quotes` orders them. */
  function UserQuotesSorted(quotes: seq<Quote>, id: int, sort: string): seq<Quote> {
    SortBy(QuotesOf(quotes, id), CreatedAtOf, Descending(sort))
  }

  /** The order holds every quote of the user exactly as often as the table
      does and no other quote, ascending by `created_at` for "ascend" and
      descending for any other value. */
  lemma UserQuotesSortedRule(quotes: seq<Quote>, id: int, sort: string)
    ensures var s := UserQuotesSorted(quotes, id, sort);
      && multiset(s) == multiset(QuotesOf(quotes, id))
      && (forall q :: q in s <==> q in quotes && q.userId == id)
      && (sort == "ascend" ==> Ordered(s, CreatedAtOf, false))
      && (sort != "ascend" ==> Ordered(s, CreatedAtOf, true))
  {
    var s := UserQuotesSorted(quotes, id, sort);
    forall q ensures q in s <==> q in QuotesOf(quotes, id) {
      assert q in s <==> q in multiset(s);
    }
  }

  /** A missing user is a 404; otherwise an anonymous request gets the
      anonymous view of each quote in that order. */
  lemma GetUserQuotesRule(db: Db, gw: Gateway, id: int, sort: string)
    ensures UserById(db.users, id).None? ==> GetUserQuotes(db, gw, id, sort, "") == Err(Http(404, "User not found!"))
    ensures UserById(db.users, id).Some? ==>
      var r := GetUserQuotes(db, gw, id, sort, "");
      var s := UserQuotesSorted(db.quotes, id, sort);
      && r.Ok? && |r.value| == |s|
      && forall i :: 0 <= i < |s| ==> r.value[i] == FormattedQuote(Load(db, s[i]), None)
  {
    PresentAllAnonymous(db, UserQuotesSorted(db.quotes, id, sort));
  }

  /** The in-place sort of the user's quotes by creation time: an insertion sort that
      moves each quote left past every quote it strictly precedes. */
  method SortByCreatedAt(a: array<Quote>, descending: bool)
    modifies a
    ensures Ordered(a[..], CreatedAtOf, descending)
    ensures multiset(a[..]) == multiset(old(a[..]))
  {
    var i := 0;
    while i < a.Length
      invariant 0 <= i <= a.Length
      invariant forall k, l :: 0 <= k < l < i ==> Before(a[k], a[l], CreatedAtOf, descending)
      invariant multiset(a[..]) == multiset(old(a[..]))
    {
      var j := i;
      while j > 0 && !Before(a[j - 1], a[j], CreatedAtOf, descending)
        invariant 0 <= j <= i
        invariant forall k, l :: 0 <= k < l <= i && k != j && l != j ==> Before(a[k], a[l], CreatedAtOf, descending)
        invariant forall l :: j < l <= i ==> Before(a[j], a[l], CreatedAtOf, descending)
        invariant multiset(a[..]) == multiset(old(a[..]))
      {
        assert Before(a[j], a[j - 1], CreatedAtOf, descending);
        a[j - 1], a[j] := a[j], a[j - 1];
        j := j - 1;
      }
      i := i + 1;
    }
  }

  /** The quotes `_get_user_quotes` lists, with the sort done in place on a
      copy of `user.quotes`. The result holds the same quotes in the same
      `created_at` order as `UserQuotesSorted`; the two are not shown to agree
      on the order of quotes with equal creation times. */
  method SortedUserQuotes(db: Db, id: int, sort: string) returns (r: Result<seq<Quote>>)
    ensures r.Err? <==> UserById(db.users, id).None?
    ensures r.Err? ==> r.error == Http(404, "User not found!")
    ensures r.Ok? ==> multiset(r.value) == multiset(QuotesOf(db.quotes, id))
    ensures r.Ok? ==> Ordered(r.value, CreatedAtOf, Descending(sort))
  {
    if UserById(db.users, id).None? {
      return Err(Http(404, "User not found!"));
    }
    var own := QuotesOf(db.quotes, id);
    var a := new Quote[|own|](i requires 0 <= i < |own| => own[i]);
    assert a[..] == own;
    SortByCreatedAt(a, Descending(sort));
    r := Ok(a[..]);
  }

  // ------------------------------------------------------- a user's bookmarks

  /** The user's bookmark rows, in row order. */
  function BookmarksOf(saved: seq<SavedQuote>, userId: int): seq<SavedQuote> {
    Filter(saved, (s: SavedQuote) => s.userId == userId)
  }

  /** The view of a bookmarked quote: a bookmark whose quote is
      gone cannot be followed. */
  function SavedView(db: Db, row: SavedQuote, viewer: Viewer): (r: Result<QuoteView>)
    ensures r.Ok? ==> r.value.quote in db.quotes && r.value.quote.quoteId == row.quoteId
    ensures QuoteById(db.quotes, row.quoteId).None? ==> r == Err(Unhandled(DanglingReference))
    ensures viewer.Anonymous? && QuoteById(db.quotes, row.quoteId).Some? ==> r.Ok? && r.value.personal.None?
    ensures QuoteById(db.quotes, row.quoteId).Some? ==>
      r == Present(Load(db, db.quotes[QuoteById(db.quotes, row.quoteId).value]), viewer)
  {
    match QuoteById(db.quotes, row.quoteId)
    case None => Err(Unhandled(DanglingReference))
    case Some(q) => Present(Load(db, db.quotes[q]), viewer)
  }

  /** The list comprehension over the bookmark rows: one view per row, in
      row order, or the first failure. */
  function PresentSaved(db: Db, rows: seq<SavedQuote>, viewer: Viewer): (r: Result<seq<QuoteView>>)
    ensures r.Ok? <==> forall i :: 0 <= i < |rows| ==> SavedView(db, rows[i], viewer).Ok?
    ensures r.Ok? ==> |r.value| == |rows|
    ensures r.Ok? ==> forall i :: 0 <= i < |rows| ==> r.value[i] == SavedView(db, rows[i], viewer).value
  {
    if rows == [] then Ok([])
    else
      assert forall i :: 1 <= i < |rows| ==> rows[i] == rows[1..][i - 1];
      match SavedView(db, rows[0], viewer)
      case Err(e) => Err(e)
      case Ok(v) =>
        match PresentSaved(db, rows[1..], viewer)
        case Err(e) => Err(e)
        case Ok(vs) => Ok([v] + vs)
  }

  /** `_get_user_saved_quotes`: the rows are read, then the viewer, then the views. */
  function GetUserSavedQuotes(db: Db, gw: Gateway, id: int, token: string): Result<seq<QuoteView>> {
    var rows := BookmarksOf(db.saved, id);
    var viewer :- ViewerFor(gw, token);
    PresentSaved(db, rows, viewer)
  }

  /** An anonymous listing of bookmarks has one view per bookmark row of the
      user, in row order, each one a view of that row's quote without
      personal keys: every bookmark's quote exists in a valid database. */
  lemma GetUserSavedQuotesRule(db: Db, gw: Gateway, id: int)
    requires Valid(db)
    ensures var r := GetUserSavedQuotes(db, gw, id, "");
      var rows := BookmarksOf(db.saved, id);
      && r.Ok?
      && |r.value| == |rows|
      && (forall s :: s in rows <==> s in db.saved && s.userId == id)
      && forall i :: 0 <= i < |rows| ==>
           && r.value[i].quote in db.quotes
           && r.value[i].quote.quoteId == rows[i].quoteId
           && r.value[i].personal.None?
  {
    var rows := BookmarksOf(db.saved, id);
    forall i | 0 <= i < |rows| ensures SavedView(db, rows[i], Anonymous).Ok? {
      assert rows[i] in db.saved;
      var q :| q in db.quotes && q.quoteId == rows[i].quoteId;
      assert QuoteById(db.quotes, rows[i].quoteId).Some? by {
        assert forall k :: 0 <= k < |db.quotes| ==> db.quotes[k] in db.quotes;
        var k :| 0 <= k < |db.quotes| && db.quotes[k] == q;
      }
    }
  }

  // ---------------------------------------------------------------- webhooks

  /** `_create_webhook` as written: its first statement reads
      `dc_handler.redirect_uri_webhook`, an attribute the OAuth handler does
      not have (it keeps a single, private redirect URI), so the request
      fails before the token exchange. */
  function CreateWebhookAsWritten(db: Db, gw: Gateway, code: string): Outcome<string> {
    Outcome(db, Err(Unhandled(MissingAttribute("redirect_uri_webhook"))))
  }

  /** As written, no request registers a webhook. */
  lemma WebhookRegistrationFails(db: Db, gw: Gateway, code: string)
    ensures CreateWebhookAsWritten(db, gw, code).db == db
    ensures CreateWebhookAsWritten(db, gw, code).result.Err?
    ensures CreateWebhookAsWritten(db, gw, code).result.error.Status() == 500
  {
  }

  /** `_create_webhook` as intended: the token exchange for the webhook
      redirect, then the descriptor, the access token, the profile id and the
      registered user, in that order; the answer is the token response
      signed as a session token. */
  function CreateWebhook(db: Db, gw: Gateway, code: string): (o: Outcome<string>)
    ensures o.result.Err? ==> o.db == db
    ensures gw.exchangeWebhook(code).webhook.None? ==> o.result == Err(Http(404, "Webhook not found!"))
    ensures var a := gw.exchangeWebhook(code);
      a.webhook.Some? && a.accessToken.Some? && gw.profile(a.accessToken.value).id.Some?
      && UserByDiscord(db.users, gw.profile(a.accessToken.value).id.value).None?
      ==> o.result == Err(Http(404, "User not found!"))
    ensures o.result.Ok? ==> o.result.value == gw.encode(gw.exchangeWebhook(code))
  {
    var access := gw.exchangeWebhook(code);
    match access.webhook
    case None => Outcome(db, Err(Http(404, "Webhook not found!")))
    case Some(wh) =>
      match access.accessToken
      case None => Outcome(db, Err(Unhandled(MissingKey("access_token"))))
      case Some(bearer) =>
        match gw.profile(bearer).id
        case None => Outcome(db, Err(Unhandled(MissingKey("id"))))
        case Some(id) =>
          match UserByDiscord(db.users, id)
          case None => Outcome(db, Err(Http(404, "User not found!")))
          case Some(u) =>
            var row := Webhook(db.nextId, db.users[u].userId, wh.id, wh.token);
            Outcome(db.(webhooks := db.webhooks + [row], nextId := db.nextId + 1), Ok(gw.encode(access)))
  }

  /** A registration succeeds exactly when the response carries a descriptor
      and an access token whose profile has an id of a registered user; it
      then adds exactly one webhook row, owned by that user and carrying the
      descriptor's id and token, and keeps the database valid. */
  lemma CreateWebhookAppends(db: Db, gw: Gateway, code: string)
    requires Valid(db)
    ensures var access := gw.exchangeWebhook(code);
      var o := CreateWebhook(db, gw, code);
      && (o.result.Ok? <==>
            && access.webhook.Some? && access.accessToken.Some?
            && gw.profile(access.accessToken.value).id.Some?
            && UserByDiscord(db.users, gw.profile(access.accessToken.value).id.value).Some?)
      && (o.result.Ok? ==>
            var owner := db.users[UserByDiscord(db.users, gw.profile(access.accessToken.value).id.value).value];
            && o.db == db.(webhooks := db.webhooks + [Webhook(db.nextId, owner.userId, access.webhook.value.id, access.webhook.value.token)],
                           nextId := db.nextId + 1)
            && owner.discordId == gw.profile(access.accessToken.value).id.value
            && Valid(o.db))
  {
    var access := gw.exchangeWebhook(code);
    var o := CreateWebhook(db, gw, code);
    if o.result.Ok? {
      var owner := db.users[UserByDiscord(db.users, gw.profile(access.accessToken.value).id.value).value];
      assert owner in db.users;
      var row := Webhook(db.nextId, owner.userId, access.webhook.value.id, access.webhook.value.token);
      UniqueByAppend(db.webhooks, row, WebhookIdOf);
    }
  }

  /** `_delete_webhook`: the caller must be registered and the webhook must
      exist; whose webhook it is is not checked. */
  function DeleteWebhook(db: Db, gw: Gateway, token: string, id: int): (o: Outcome<()>)
    ensures o.result.Err? ==> o.db == db
    ensures Actor(db.users, gw, token, "User not found!").Err? ==>
      o.result == Err(Actor(db.users, gw, token, "User not found!").error)
    ensures Actor(db.users, gw, token, "User not found!").Ok? ==>
      (o.result == Err(Http(404, "Webhook not found!")) <==> WebhookById(db.webhooks, id).None?)
  {
    match Actor(db.users, gw, token, "User not found!")
    case Err(e) => Outcome(db, Err(e))
    case Ok(_) =>
      match WebhookById(db.webhooks, id)
      case None => Outcome(db, Err(Http(404, "Webhook not found!")))
      case Some(_) => Outcome(db.(webhooks := Filter(db.webhooks, (w: Webhook) => w.id != id)), Ok(()))
  }

  /** Once the caller and the webhook are found, the webhook is deleted
      whoever owns it: exactly that row goes, nothing else changes, and the
      database stays valid. */
  lemma DeleteWebhookAnyOwner(db: Db, gw: Gateway, token: string, id: int)
    requires Valid(db)
    requires Actor(db.users, gw, token, "User not found!").Ok? && WebhookById(db.webhooks, id).Some?
    ensures var target := db.webhooks[WebhookById(db.webhooks, id).value];
      var o := DeleteWebhook(db, gw, token, id);
      && o.result.Ok?
      && (forall w :: w in o.db.webhooks <==> w in db.webhooks && w != target)
      && o.db.(webhooks := db.webhooks) == db
      && Valid(o.db)
  {
    var k := WebhookById(db.webhooks, id).value;
    var target := db.webhooks[k];
    var o := DeleteWebhook(db, gw, token, id);
    UniqueBySub(o.db.webhooks, db.webhooks, WebhookIdOf);
    forall w | w in db.webhooks ensures w.id == id <==> w == target {
      var j :| 0 <= j < |db.webhooks| && db.webhooks[j] == w;
      if w.id == id {
        UniqueByIndices(db.webhooks, WebhookIdOf, j, k);
      }
    }
  }
}

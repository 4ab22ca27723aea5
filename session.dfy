/** The database session the request handlers work through: one object holding every
    table, which each request reads, changes step by step (`session.add`,
    `session.delete`, assignments to loaded rows) and commits. Every method
    leaves the store in exactly the state the handler's function in Quotes,
    Users or Login describes and answers what that function answers, so the
    lemmas proved there (validity kept, rows added or removed) hold of the
    store. */
module Session {
  import opened Common
  import opened Models
  import opened Identity
  import opened Views
  import opened Quotes
  import opened Users
  import opened Login

  class Store {
    var users: seq<User>
    var quotes: seq<Quote>
    var reactions: seq<QuoteReaction>
    var saved: seq<SavedQuote>
    var comments: seq<QuoteComment>
    var roles: seq<Role>
    var userRoles: seq<UserRole>
    var webhooks: seq<Webhook>
    var nextId: int

    /** The tables as one database value. */
    function State(): Db
      reads this
    {
      Db(users, quotes, reactions, saved, comments, roles, userRoles, webhooks, nextId)
    }

    constructor (db: Db)
      ensures State() == db
    {
      users, quotes, reactions, saved := db.users, db.quotes, db.reactions, db.saved;
      comments, roles, userRoles, webhooks := db.comments, db.roles, db.userRoles, db.webhooks;
      nextId := db.nextId;
    }

    /** Committing the session: its tables become `db`. */
    method Commit(db: Db)
      modifies this
      ensures State() == db
    {
      users, quotes, reactions, saved := db.users, db.quotes, db.reactions, db.saved;
      comments, roles, userRoles, webhooks := db.comments, db.roles, db.userRoles, db.webhooks;
      nextId := db.nextId;
    }

    /** Walks the user's role rows and raises a flag when one names the admin role. */
    method HasAdminRole(userId: int) returns (isAdmin: bool)
      ensures isAdmin == IsAdmin(State(), userId)
    {
      isAdmin := false;
      var k := 0;
      while k < |userRoles|
        invariant 0 <= k <= |userRoles|
        invariant isAdmin <==> exists j :: 0 <= j < k && userRoles[j].userId == userId
                                 && RoleName(roles, userRoles[j].roleId) == Some("admin")
      {
        if userRoles[k].userId == userId && RoleName(roles, userRoles[k].roleId) == Some("admin") {
          isAdmin := true;
        }
        k := k + 1;
      }
    }

    /** `_quote_toggle_react`; a different kind is written into the existing row. */
    method ToggleReact(gw: Gateway, token: string, quoteId: int, kind: ReactionKind) returns (r: Result<bool>)
      modifies this
      ensures State() == Quotes.ToggleReact(old(State()), gw, token, quoteId, kind).db
      ensures r == Quotes.ToggleReact(old(State()), gw, token, quoteId, kind).result
    {
      var actor := Actor(users, gw, token, "User not found");
      if actor.Err? {
        return Err(actor.error);
      }
      var userId := users[actor.value].userId;
      if QuoteById(quotes, quoteId).None? {
        return Err(Http(404, "Quote not found"));
      }
      match ReactionFor(reactions, userId, quoteId)
      case None =>
        reactions := reactions + [QuoteReaction(nextId, userId, quoteId, kind)];
        nextId := nextId + 1;
        r := Ok(true);
      case Some(i) =>
        if reactions[i].kind == kind {
          reactions := WithoutReaction(reactions, reactions[i].reactionId);
          r := Ok(false);
        } else {
          reactions := reactions[i := reactions[i].(kind := kind)];
          r := Ok(true);
        }
    }

    /** `_quote_toggle_save` */
    method ToggleSave(gw: Gateway, token: string, quoteId: int) returns (r: Result<bool>)
      modifies this
      ensures State() == Quotes.ToggleSave(old(State()), gw, token, quoteId).db
      ensures r == Quotes.ToggleSave(old(State()), gw, token, quoteId).result
    {
      var actor := Actor(users, gw, token, "User not found");
      if actor.Err? {
        return Err(actor.error);
      }
      var userId := users[actor.value].userId;
      if QuoteById(quotes, quoteId).None? {
        return Err(Http(404, "Quote not found"));
      }
      match SavedFor(saved, userId, quoteId)
      case Some(i) =>
        saved := WithoutSaved(saved, saved[i].savedId);
        r := Ok(false);
      case None =>
        saved := saved + [SavedQuote(nextId, userId, quoteId)];
        nextId := nextId + 1;
        r := Ok(true);
    }

    /** `_delete_quote`: the admin flag is computed by the roles loop. */
    method DeleteQuote(gw: Gateway, token: string, quoteId: int) returns (r: Result<()>)
      modifies this
      ensures State() == Quotes.DeleteQuote(old(State()), gw, token, quoteId).db
      ensures r == Quotes.DeleteQuote(old(State()), gw, token, quoteId).result
    {
      var actor := Actor(users, gw, token, "User is not registered!");
      if actor.Err? {
        return Err(actor.error);
      }
      var user := users[actor.value];
      var found := QuoteById(quotes, quoteId);
      if found.None? {
        return Err(Http(404, "Quote not found!"));
      }
      var isAdmin := HasAdminRole(user.userId);
      if quotes[found.value].userId != user.userId || !isAdmin {
        return Err(Http(400, "Insufficient permissions!"));
      }
      assert Quotes.DeleteQuote(old(State()), gw, token, quoteId) == Outcome(DeleteQuoteCascade(old(State()), quotes[found.value].quoteId), Ok(()));
      // Deleting the quote cascades to the rows that point at it.
      var after := DeleteQuoteCascade(State(), quotes[found.value].quoteId);
      Commit(after);
      r := Ok(());
    }

    /** `_create_quote`: the quote is added and committed; the answer names the
        webhooks the notification goes to. */
    method CreateQuote(gw: Gateway, token: string, text: string, sendWebhook: bool, now: Timestamp) returns (r: Result<Created>)
      modifies this
      ensures State() == Quotes.CreateQuote(old(State()), gw, token, text, sendWebhook, now).db
      ensures r == Quotes.CreateQuote(old(State()), gw, token, text, sendWebhook, now).result
    {
      var actor := Actor(users, gw, token, "User is not registered!");
      if actor.Err? {
        return Err(actor.error);
      }
      var q := Quote(nextId, text, users[actor.value].userId, now, None, None);
      AddQuote(q);
      var view := FormattedQuote(Load(State(), q), None);
      var notified := if sendWebhook then webhooks else [];
      r := Ok(Created(view, notified));
    }

    /** Adding and flushing a new quote: the row gets the next id. */
    method AddQuote(q: Quote)
      requires q.quoteId == nextId
      modifies this
      ensures State() == old(State()).(quotes := old(quotes) + [q], nextId := old(nextId) + 1)
    {
      quotes := quotes + [q];
      nextId := nextId + 1;
    }

    /** `_create_quote_comment` */
    method CreateComment(gw: Gateway, token: string, quoteId: int, comment: string, now: Timestamp) returns (r: Result<QuoteComment>)
      modifies this
      ensures State() == Quotes.CreateComment(old(State()), gw, token, quoteId, comment, now).db
      ensures r == Quotes.CreateComment(old(State()), gw, token, quoteId, comment, now).result
    {
      if comment == "" {
        return Err(Http(400, "Required comment is empty!"));
      }
      if token == "" {
        return Err(Http(400, "Required token is empty!"));
      }
      var actor := Actor(users, gw, token, "User is not registered!");
      if actor.Err? {
        return Err(actor.error);
      }
      if QuoteById(quotes, quoteId).None? {
        return Err(Unhandled(RejectedByDatabase));
      }
      var c := QuoteComment(nextId, users[actor.value].userId, quoteId, comment, now);
      comments := comments + [c];
      nextId := nextId + 1;
      r := Ok(c);
    }

    /** `_delete_me`: the dump is taken, then the user goes with everything it owns. */
    method DeleteMe(gw: Gateway, token: string) returns (r: Result<UserDump>)
      modifies this
      ensures State() == Users.DeleteMe(old(State()), gw, token).db
      ensures r == Users.DeleteMe(old(State()), gw, token).result
    {
      var actor := Actor(users, gw, token, "User not found!");
      if actor.Err? {
        return Err(actor.error);
      }
      var dump := Dump(users[actor.value]);
      // Deleting the user cascades to everything the user owns.
      var after := DeleteUserCascade(State(), users[actor.value].userId);
      Commit(after);
      r := Ok(dump);
    }

    /** `_create_webhook`, with the token exchange for the webhook redirect. */
    method CreateWebhook(gw: Gateway, code: string) returns (r: Result<string>)
      modifies this
      ensures State() == Users.CreateWebhook(old(State()), gw, code).db
      ensures r == Users.CreateWebhook(old(State()), gw, code).result
    {
      var access := gw.exchangeWebhook(code);
      if access.webhook.None? {
        return Err(Http(404, "Webhook not found!"));
      }
      if access.accessToken.None? {
        return Err(Unhandled(MissingKey("access_token")));
      }
      var id := gw.profile(access.accessToken.value).id;
      if id.None? {
        return Err(Unhandled(MissingKey("id")));
      }
      var user := UserByDiscord(users, id.value);
      if user.None? {
        return Err(Http(404, "User not found!"));
      }
      webhooks := webhooks + [Webhook(nextId, users[user.value].userId, access.webhook.value.id, access.webhook.value.token)];
      nextId := nextId + 1;
      r := Ok(gw.encode(access));
    }

    /** `_delete_webhook` */
    method DeleteWebhook(gw: Gateway, token: string, id: int) returns (r: Result<()>)
      modifies this
      ensures State() == Users.DeleteWebhook(old(State()), gw, token, id).db
      ensures r == Users.DeleteWebhook(old(State()), gw, token, id).result
    {
      var actor := Actor(users, gw, token, "User not found!");
      if actor.Err? {
        return Err(actor.error);
      }
      if WebhookById(webhooks, id).None? {
        return Err(Http(404, "Webhook not found!"));
      }
      webhooks := Filter(webhooks, (w: Webhook) => w.id != id);
      r := Ok(());
    }

    /** `_authorize`: a new user is added, or the found row's profile fields are assigned. */
    method Authorize(gw: Gateway, code: string, now: Timestamp) returns (r: Result<string>)
      modifies this
      ensures State() == Login.Authorize(old(State()), gw, code, now).db
      ensures r == Login.Authorize(old(State()), gw, code, now).result
    {
      var access := gw.exchange(code);
      if access.accessToken.None? {
        return Err(Http(400, "Invalid authorization code"));
      }
      var profile := gw.profile(access.accessToken.value);
      if profile.id.None? {
        return Err(Http(400, "Invalid user information"));
      }
      var missing := MissingKeyOf(profile, UserByDiscord(users, profile.id.value).None?);
      if missing.Some? {
        return Err(Unhandled(MissingKey(missing.value)));
      }
      // The commit refuses a null in a column declared as a plain string.
      if !Complete(profile) {
        return Err(Unhandled(RejectedByDatabase));
      }
      match UserByDiscord(users, profile.id.value) {
        case None =>
          users := users + [NewUser(nextId, profile.id.value, profile, now)];
          nextId := nextId + 1;
        case Some(i) =>
          var user := users[i];
          user := user.(avatarUrl := profile.avatar.text);
          user := user.(displayName := profile.globalName.text);
          user := user.(email := profile.email.text);
          users := users[i := user];
      }
      r := Ok(gw.encode(access));
    }
  }
}

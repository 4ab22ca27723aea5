/** The tables declared in api/v1/models/models.py as rows, the database as
    one value holding every table, the integrity the service relies on, and
    the cascading deletes that the relationships declare. */
module Models {
  import opened Common

  /** The closed set of reaction kinds a QuoteReaction row may carry. */
  datatype ReactionKind = RedHeart | ThumbsUp | FaceWithTearsOfJoy | MeltingFace | Skull {
    function Name(): string {
      match this
      case RedHeart => "red-heart"
      case ThumbsUp => "thumbs-up"
      case FaceWithTearsOfJoy => "face-with-tears-of-joy"
      case MeltingFace => "melting-face"
      case Skull => "skull"
    }
  }

  /** The canonical order of the reaction tally. */
  const Kinds: seq<ReactionKind> := [RedHeart, ThumbsUp, FaceWithTearsOfJoy, MeltingFace, Skull]

  /** Timestamps are whole seconds; the clock is a parameter of every task that reads it. */
  type Timestamp = int

  datatype User = User(
    userId: int,
    discordId: string,
    email: string,        // excluded from every dump of the row
    displayName: string,
    avatarUrl: string,
    createdAt: Timestamp,
    deletedAt: Option<Timestamp>)

  datatype Quote = Quote(
    quoteId: int,
    text: string,
    userId: int,
    createdAt: Timestamp,
    changedAt: Option<Timestamp>,
    deletedAt: Option<Timestamp>)

  datatype QuoteReaction = QuoteReaction(reactionId: int, userId: int, quoteId: int, kind: ReactionKind)

  datatype SavedQuote = SavedQuote(savedId: int, userId: int, quoteId: int)

  datatype QuoteComment = QuoteComment(commentId: int, userId: int, quoteId: int, text: string, createdAt: Timestamp)

  datatype Role = Role(roleId: int, name: string, createdAt: Timestamp)

  datatype UserRole = UserRole(id: int, userId: int, roleId: int)

  datatype Webhook = Webhook(id: int, userId: int, webhookId: string, webhookToken: string)

  /** Every table, in row order, and the next identifier the database hands out. */
  datatype Db = Db(
    users: seq<User>,
    quotes: seq<Quote>,
    reactions: seq<QuoteReaction>,
    saved: seq<SavedQuote>,
    comments: seq<QuoteComment>,
    roles: seq<Role>,
    userRoles: seq<UserRole>,
    webhooks: seq<Webhook>,
    nextId: int)

  // ---------------------------------------------------------------- keys

  function UserIdOf(u: User): int { u.userId }
  function DiscordIdOf(u: User): string { u.discordId }
  function QuoteIdOf(q: Quote): int { q.quoteId }
  function ReactionIdOf(r: QuoteReaction): int { r.reactionId }
  function ReactionPairOf(r: QuoteReaction): (int, int) { (r.userId, r.quoteId) }
  function SavedIdOf(s: SavedQuote): int { s.savedId }
  function SavedPairOf(s: SavedQuote): (int, int) { (s.userId, s.quoteId) }
  function CommentIdOf(c: QuoteComment): int { c.commentId }
  function RoleIdOf(r: Role): int { r.roleId }
  function UserRoleIdOf(ur: UserRole): int { ur.id }
  function WebhookIdOf(w: Webhook): int { w.id }

  function UserIds(users: seq<User>): set<int> { set u | u in users :: u.userId }
  function QuoteIds(quotes: seq<Quote>): set<int> { set q | q in quotes :: q.quoteId }
  function RoleIds(roles: seq<Role>): set<int> { set r | r in roles :: r.roleId }

  // ----------------------------------------------------------- integrity

  /** Users: the primary key, and at most one user per Discord identity. The
      schema declares no unique constraint on `discord_id`; the second clause
      holds because login looks the identity up before it inserts. */
  ghost predicate UsersKeyed(users: seq<User>, nextId: int) {
    && UniqueBy(users, UserIdOf)
    && UniqueBy(users, DiscordIdOf)
    && forall u :: u in users ==> u.userId < nextId
  }

  ghost predicate QuotesKeyed(quotes: seq<Quote>, users: seq<User>, nextId: int) {
    && UniqueBy(quotes, QuoteIdOf)
    && forall q :: q in quotes ==> q.quoteId < nextId && q.userId in UserIds(users)
  }

  /** Reactions: the primary key, and at most one reaction per (user, quote)
      pair. The pair has no unique constraint in the schema; the toggle keeps
      it unique by updating or deleting an existing row. */
  ghost predicate ReactionsKeyed(reactions: seq<QuoteReaction>, users: seq<User>, quotes: seq<Quote>, nextId: int) {
    && UniqueBy(reactions, ReactionIdOf)
    && UniqueBy(reactions, ReactionPairOf)
    && forall r :: r in reactions ==>
         r.reactionId < nextId && r.userId in UserIds(users) && r.quoteId in QuoteIds(quotes)
  }

  /** Saved quotes: the primary key, and at most one bookmark per (user,
      quote) pair. The pair has no unique constraint in the schema; the toggle
      keeps it unique by deleting an existing row instead of adding one. */
  ghost predicate SavedKeyed(saved: seq<SavedQuote>, users: seq<User>, quotes: seq<Quote>, nextId: int) {
    && UniqueBy(saved, SavedIdOf)
    && UniqueBy(saved, SavedPairOf)
    && forall s :: s in saved ==>
         s.savedId < nextId && s.userId in UserIds(users) && s.quoteId in QuoteIds(quotes)
  }

  ghost predicate CommentsKeyed(comments: seq<QuoteComment>, users: seq<User>, quotes: seq<Quote>, nextId: int) {
    && UniqueBy(comments, CommentIdOf)
    && forall c :: c in comments ==>
         c.commentId < nextId && c.userId in UserIds(users) && c.quoteId in QuoteIds(quotes)
  }

  ghost predicate RolesKeyed(roles: seq<Role>, userRoles: seq<UserRole>, users: seq<User>) {
    && UniqueBy(roles, RoleIdOf)
    && UniqueBy(userRoles, UserRoleIdOf)
    && forall ur :: ur in userRoles ==> ur.userId in UserIds(users) && ur.roleId in RoleIds(roles)
  }

  ghost predicate WebhooksKeyed(webhooks: seq<Webhook>, users: seq<User>, nextId: int) {
    && UniqueBy(webhooks, WebhookIdOf)
    && forall w :: w in webhooks ==> w.id < nextId && w.userId in UserIds(users)
  }

  /** The integrity of a database state. Primary keys, foreign keys and keys
      below the counter (which stands for autoincrement) are what the schema
      enforces. One user per Discord id and one reaction or bookmark per pair
      are not declared in the schema: they are invariants of the handlers,
      which the `...KeepsValid` lemmas show each request preserves when
      requests run one at a time. */
  ghost predicate Valid(db: Db) {
    && UsersKeyed(db.users, db.nextId)
    && QuotesKeyed(db.quotes, db.users, db.nextId)
    && ReactionsKeyed(db.reactions, db.users, db.quotes, db.nextId)
    && SavedKeyed(db.saved, db.users, db.quotes, db.nextId)
    && CommentsKeyed(db.comments, db.users, db.quotes, db.nextId)
    && RolesKeyed(db.roles, db.userRoles, db.users)
    && WebhooksKeyed(db.webhooks, db.users, db.nextId)
  }

  // ------------------------------------------------------------- lookups

  /** The first user whose Discord id is `discordId`. */
  function UserByDiscord(users: seq<User>, discordId: string): Option<nat> {
    FirstIndex(users, (u: User) => u.discordId == discordId)
  }

  /** The first user whose primary key is `userId`. */
  function UserById(users: seq<User>, userId: int): Option<nat> {
    FirstIndex(users, (u: User) => u.userId == userId)
  }

  /** The first quote whose primary key is `quoteId`. */
  function QuoteById(quotes: seq<Quote>, quoteId: int): Option<nat> {
    FirstIndex(quotes, (q: Quote) => q.quoteId == quoteId)
  }

  /** The reaction row of the pair (userId, quoteId), if any. */
  function ReactionFor(reactions: seq<QuoteReaction>, userId: int, quoteId: int): Option<nat> {
    FirstIndex(reactions, (r: QuoteReaction) => r.userId == userId && r.quoteId == quoteId)
  }

  /** The bookmark row of the pair (userId, quoteId), if any. */
  function SavedFor(saved: seq<SavedQuote>, userId: int, quoteId: int): Option<nat> {
    FirstIndex(saved, (s: SavedQuote) => s.userId == userId && s.quoteId == quoteId)
  }

  /** The first webhook whose primary key is `id`. */
  function WebhookById(webhooks: seq<Webhook>, id: int): Option<nat> {
    FirstIndex(webhooks, (w: Webhook) => w.id == id)
  }

  /** The name of the role a UserRole row points at (`role.role.name`). */
  function RoleName(roles: seq<Role>, roleId: int): Option<string> {
    match FirstIndex(roles, (r: Role) => r.roleId == roleId)
    case None => None
    case Some(i) => Some(roles[i].name)
  }

  /** Some role of the user (through UserRole) is named "admin". */
  predicate IsAdmin(db: Db, userId: int) {
    exists k :: 0 <= k < |db.userRoles| && db.userRoles[k].userId == userId
      && RoleName(db.roles, db.userRoles[k].roleId) == Some("admin")
  }

  predicate HasReaction(reactions: seq<QuoteReaction>, userId: int, quoteId: int) {
    exists i :: 0 <= i < |reactions| && reactions[i].userId == userId && reactions[i].quoteId == quoteId
  }

  predicate HasSaved(saved: seq<SavedQuote>, userId: int, quoteId: int) {
    exists i :: 0 <= i < |saved| && saved[i].userId == userId && saved[i].quoteId == quoteId
  }

  /** Proof helper: the bookmark lookup finds a row exactly when the pair is bookmarked. */
  lemma SavedForFinds(saved: seq<SavedQuote>, userId: int, quoteId: int)
    ensures SavedFor(saved, userId, quoteId).Some? <==> HasSaved(saved, userId, quoteId)
  {
  }

  /** Proof helper: the reaction lookup finds a row exactly when the pair has a reaction. */
  lemma ReactionForFinds(reactions: seq<QuoteReaction>, userId: int, quoteId: int)
    ensures ReactionFor(reactions, userId, quoteId).Some? <==> HasReaction(reactions, userId, quoteId)
  {
  }

  // ------------------------------------------------------------ cascades

  /** `session.delete(quote)`: the quote goes, and with it (cascade_delete on
      Quote.reactions, Quote.saved_quotes, Quote.comments) every row that
      points at it. */
  function DeleteQuoteCascade(db: Db, quoteId: int): Db {
    db.(quotes := Filter(db.quotes, (q: Quote) => q.quoteId != quoteId),
        reactions := Filter(db.reactions, (r: QuoteReaction) => r.quoteId != quoteId),
        saved := Filter(db.saved, (s: SavedQuote) => s.quoteId != quoteId),
        comments := Filter(db.comments, (c: QuoteComment) => c.quoteId != quoteId))
  }

  /** The identifiers of the quotes a user owns. */
  function OwnedQuoteIds(quotes: seq<Quote>, userId: int): set<int> {
    set q | q in quotes && q.userId == userId :: q.quoteId
  }

  /** `session.delete(user)`: the user goes with every row it owns (quotes,
      comments, saved quotes, reactions, role assignments, webhooks), and the
      deleted quotes take their own reactions, bookmarks and comments along. */
  function DeleteUserCascade(db: Db, userId: int): Db {
    var gone := OwnedQuoteIds(db.quotes, userId);
    db.(users := Filter(db.users, (u: User) => u.userId != userId),
        quotes := Filter(db.quotes, (q: Quote) => q.userId != userId),
        reactions := Filter(db.reactions, (r: QuoteReaction) => r.userId != userId && r.quoteId !in gone),
        saved := Filter(db.saved, (s: SavedQuote) => s.userId != userId && s.quoteId !in gone),
        comments := Filter(db.comments, (c: QuoteComment) => c.userId != userId && c.quoteId !in gone),
        userRoles := Filter(db.userRoles, (ur: UserRole) => ur.userId != userId),
        webhooks := Filter(db.webhooks, (w: Webhook) => w.userId != userId))
  }

  /** Deleting a quote removes exactly the quote and the rows pointing at it, and keeps the database valid. */
  lemma DeleteQuoteCascadeValid(db: Db, quoteId: int)
    requires Valid(db)
    ensures var db' := DeleteQuoteCascade(db, quoteId);
      && Valid(db')
      && (forall q :: q in db'.quotes <==> q in db.quotes && q.quoteId != quoteId)
      && (forall r :: r in db'.reactions <==> r in db.reactions && r.quoteId != quoteId)
      && (forall s :: s in db'.saved <==> s in db.saved && s.quoteId != quoteId)
      && (forall c :: c in db'.comments <==> c in db.comments && c.quoteId != quoteId)
      && db'.users == db.users && db'.roles == db.roles && db'.userRoles == db.userRoles
      && db'.webhooks == db.webhooks && db'.nextId == db.nextId
  {
    var db' := DeleteQuoteCascade(db, quoteId);
    UniqueBySub(db'.quotes, db.quotes, QuoteIdOf);
    UniqueBySub(db'.reactions, db.reactions, ReactionIdOf);
    UniqueBySub(db'.reactions, db.reactions, ReactionPairOf);
    UniqueBySub(db'.saved, db.saved, SavedIdOf);
    UniqueBySub(db'.saved, db.saved, SavedPairOf);
    UniqueBySub(db'.comments, db.comments, CommentIdOf);
    forall id | id in QuoteIds(db.quotes) && id != quoteId ensures id in QuoteIds(db'.quotes) {
      var q :| q in db.quotes && q.quoteId == id;
      assert q in db'.quotes;
    }
  }

  /** Deleting a user removes exactly the user, its rows, and the rows hanging off its quotes, and keeps the database valid. */
  lemma DeleteUserCascadeValid(db: Db, userId: int)
    requires Valid(db)
    ensures var db' := DeleteUserCascade(db, userId);
      var gone := OwnedQuoteIds(db.quotes, userId);
      && Valid(db')
      && (forall u :: u in db'.users <==> u in db.users && u.userId != userId)
      && (forall q :: q in db'.quotes <==> q in db.quotes && q.userId != userId)
      && (forall r :: r in db'.reactions <==> r in db.reactions && r.userId != userId && r.quoteId !in gone)
      && (forall s :: s in db'.saved <==> s in db.saved && s.userId != userId && s.quoteId !in gone)
      && (forall c :: c in db'.comments <==> c in db.comments && c.userId != userId && c.quoteId !in gone)
      && (forall ur :: ur in db'.userRoles <==> ur in db.userRoles && ur.userId != userId)
      && (forall w :: w in db'.webhooks <==> w in db.webhooks && w.userId != userId)
      && db'.roles == db.roles && db'.nextId == db.nextId
  {
    var db' := DeleteUserCascade(db, userId);
    var gone := OwnedQuoteIds(db.quotes, userId);
    UniqueBySub(db'.users, db.users, UserIdOf);
    UniqueBySub(db'.users, db.users, DiscordIdOf);
    UniqueBySub(db'.quotes, db.quotes, QuoteIdOf);
    UniqueBySub(db'.reactions, db.reactions, ReactionIdOf);
    UniqueBySub(db'.reactions, db.reactions, ReactionPairOf);
    UniqueBySub(db'.saved, db.saved, SavedIdOf);
    UniqueBySub(db'.saved, db.saved, SavedPairOf);
    UniqueBySub(db'.comments, db.comments, CommentIdOf);
    UniqueBySub(db'.userRoles, db.userRoles, UserRoleIdOf);
    UniqueBySub(db'.webhooks, db.webhooks, WebhookIdOf);
    forall id | id in UserIds(db.users) && id != userId ensures id in UserIds(db'.users) {
      var u :| u in db.users && u.userId == id;
      assert u in db'.users;
    }
    forall id | id in QuoteIds(db.quotes) && id !in gone ensures id in QuoteIds(db'.quotes) {
      var q :| q in db.quotes && q.quoteId == id;
      assert q.userId != userId;
      assert q in db'.quotes;
    }
  }
}

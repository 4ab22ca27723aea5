/** The quote tasks of api/v1/tasks/quotes.py as functions from the database
    state before a request to the committed state after it and the answer.
    The reaction and bookmark toggles are small state machines over the
    (user, quote) pair; deletion is guarded by ownership and the admin role;
    the listings are a filter, an ordering and a window over the quotes table. */
module Quotes {
  import opened Common
  import opened Models
  import opened Identity
  import opened Views
  import opened Query

  /** What a request leaves behind: the committed database and the answer. */
  datatype Outcome<T> = Outcome(db: Db, result: Result<T>)

  /** The actor's row: the Discord id behind the token, then
      the first user registered under it, and a 404 carrying
      `missing` when no user has that id. */
  function Actor(users: seq<User>, gw: Gateway, token: string, missing: string): (r: Result<nat>)
    ensures r.Ok? <==> ActorId(gw, token).Ok? && UserByDiscord(users, ActorId(gw, token).value).Some?
    ensures r.Ok? ==>
      && r == Ok(UserByDiscord(users, ActorId(gw, token).value).value)
      && r.value < |users| && users[r.value].discordId == ActorId(gw, token).value
    ensures ActorId(gw, token).Err? ==> r == Err(ActorId(gw, token).error)
    ensures ActorId(gw, token).Ok? && UserByDiscord(users, ActorId(gw, token).value).None? ==>
      r == Err(Http(404, missing))
  {
    var id :- ActorId(gw, token);
    match UserByDiscord(users, id)
    case None => Err(Http(404, missing))
    case Some(i) => Ok(i)
  }

  // ------------------------------------------------------------- reactions

  /** `session.delete(reaction)`: the row with that primary key goes. */
  function WithoutReaction(reactions: seq<QuoteReaction>, reactionId: int): seq<QuoteReaction> {
    Filter(reactions, (r: QuoteReaction) => r.reactionId != reactionId)
  }

  /** The three-way toggle on the reaction row of the pair (userId, quoteId),
      once both guards have passed, with the insert committed as the handler
      evidently intends (see `ReactAsWritten` for the insert as written). */
  function React(db: Db, userId: int, quoteId: int, kind: ReactionKind): Outcome<bool> {
    match ReactionFor(db.reactions, userId, quoteId)
    case None =>
      var row := QuoteReaction(db.nextId, userId, quoteId, kind);
      Outcome(db.(reactions := db.reactions + [row], nextId := db.nextId + 1), Ok(true))
    case Some(i) =>
      if db.reactions[i].kind == kind then
        Outcome(db.(reactions := WithoutReaction(db.reactions, db.reactions[i].reactionId)), Ok(false))
      else
        Outcome(db.(reactions := db.reactions[i := db.reactions[i].(kind := kind)]), Ok(true))
  }

  /** The toggle as the handler writes it: the new reaction row is built
      without `created_at`, a column declared as a required `datetime`, so the
      commit of a first reaction is refused like any other NOT NULL column
      left empty. The other two branches are those of `React`. */
  function ReactAsWritten(db: Db, userId: int, quoteId: int, kind: ReactionKind): (o: Outcome<bool>)
    ensures !HasReaction(db.reactions, userId, quoteId) ==> o == Outcome(db, Err(Unhandled(RejectedByDatabase)))
    ensures HasReaction(db.reactions, userId, quoteId) ==> o == React(db, userId, quoteId, kind)
  {
    ReactionForFinds(db.reactions, userId, quoteId);
    match ReactionFor(db.reactions, userId, quoteId)
    case None => Outcome(db, Err(Unhandled(RejectedByDatabase)))
    case Some(_) => React(db, userId, quoteId, kind)
  }

  /** The first reaction of a user on a quote: as written it is refused and
      nothing changes, while the intended toggle adds the row and answers true. */
  lemma FirstReactionRefused(db: Db, userId: int, quoteId: int, kind: ReactionKind)
    requires !HasReaction(db.reactions, userId, quoteId)
    ensures ReactAsWritten(db, userId, quoteId, kind).result == Err(Unhandled(RejectedByDatabase))
    ensures ReactAsWritten(db, userId, quoteId, kind).db == db
    ensures React(db, userId, quoteId, kind).result == Ok(true)
    ensures React(db, userId, quoteId, kind).db != db
  {
    ReactionForFinds(db.reactions, userId, quoteId);
    assert |React(db, userId, quoteId, kind).db.reactions| == |db.reactions| + 1;
  }

  /** `_quote_toggle_react`: the user, then the quote, then the toggle. It
      fails with "User not found" before it looks at the quote, with "Quote
      not found" before it touches the reactions, and commits nothing when it fails. */
  function ToggleReact(db: Db, gw: Gateway, token: string, quoteId: int, kind: ReactionKind): (o: Outcome<bool>)
    ensures o.result.Err? ==> o.db == db
    ensures Actor(db.users, gw, token, "User not found").Err? ==>
      o.result == Err(Actor(db.users, gw, token, "User not found").error)
    ensures Actor(db.users, gw, token, "User not found").Ok? && QuoteById(db.quotes, quoteId).None? ==>
      o.result == Err(Http(404, "Quote not found"))
    ensures Actor(db.users, gw, token, "User not found").Ok? && QuoteById(db.quotes, quoteId).Some? ==>
      o == React(db, db.users[Actor(db.users, gw, token, "User not found").value].userId, quoteId, kind)
  {
    match Actor(db.users, gw, token, "User not found")
    case Err(e) => Outcome(db, Err(e))
    case Ok(u) =>
      match QuoteById(db.quotes, quoteId)
      case None => Outcome(db, Err(Http(404, "Quote not found")))
      case Some(_) => React(db, db.users[u].userId, quoteId, kind)
  }

  /** No row for the pair: exactly one row is added, with the requested kind
      and a fresh id, and the answer is true. */
  lemma ReactInserts(db: Db, userId: int, quoteId: int, kind: ReactionKind)
    requires !HasReaction(db.reactions, userId, quoteId)
    ensures var o := React(db, userId, quoteId, kind);
      var x := QuoteReaction(db.nextId, userId, quoteId, kind);
      && o.result == Ok(true)
      && o.db == db.(reactions := db.reactions + [x], nextId := db.nextId + 1)
      && (forall r :: r in o.db.reactions && r.userId == userId && r.quoteId == quoteId <==> r == x)
  {
    ReactionForFinds(db.reactions, userId, quoteId);
  }

  /** A row of the same kind: that row, and only that row, is deleted, the pair
      is left without a reaction, and the answer is false. */
  lemma ReactRemoves(db: Db, userId: int, quoteId: int, kind: ReactionKind, i: nat)
    requires UniqueBy(db.reactions, ReactionIdOf) && UniqueBy(db.reactions, ReactionPairOf)
    requires i < |db.reactions| && db.reactions[i].userId == userId && db.reactions[i].quoteId == quoteId
    requires db.reactions[i].kind == kind
    ensures var o := React(db, userId, quoteId, kind);
      && o.result == Ok(false)
      && o.db == db.(reactions := o.db.reactions)
      && (forall r :: r in o.db.reactions <==> r in db.reactions && r != db.reactions[i])
      && !HasReaction(o.db.reactions, userId, quoteId)
  {
    var j := ReactionFor(db.reactions, userId, quoteId).value;
    UniqueByIndices(db.reactions, ReactionPairOf, i, j);
    var o := React(db, userId, quoteId, kind);
    forall r ensures r in o.db.reactions <==> r in db.reactions && r != db.reactions[i] {
      if r in db.reactions && r.reactionId == db.reactions[i].reactionId {
        assert ReactionIdOf(r) == ReactionIdOf(db.reactions[i]);
      }
    }
    forall k | 0 <= k < |o.db.reactions| ensures !(o.db.reactions[k].userId == userId && o.db.reactions[k].quoteId == quoteId) {
      var r := o.db.reactions[k];
      assert r in o.db.reactions;
      assert r in db.reactions && r != db.reactions[i];
      assert ReactionPairOf(r) != ReactionPairOf(db.reactions[i]);
    }
  }

  /** A row of another kind: the row keeps its place and id and takes the new
      kind, the pair still has exactly one row, and the answer is true. */
  lemma ReactSwitches(db: Db, userId: int, quoteId: int, kind: ReactionKind, i: nat)
    requires UniqueBy(db.reactions, ReactionPairOf)
    requires i < |db.reactions| && db.reactions[i].userId == userId && db.reactions[i].quoteId == quoteId
    requires db.reactions[i].kind != kind
    ensures var o := React(db, userId, quoteId, kind);
      var x := db.reactions[i].(kind := kind);
      && o.result == Ok(true)
      && o.db == db.(reactions := db.reactions[i := x])
      && |o.db.reactions| == |db.reactions|
      && (forall r :: r in o.db.reactions && r.userId == userId && r.quoteId == quoteId <==> r == x)
  {
    var j := ReactionFor(db.reactions, userId, quoteId).value;
    UniqueByIndices(db.reactions, ReactionPairOf, i, j);
    var s, x := db.reactions, db.reactions[i].(kind := kind);
    assert s[i := x][i] == x;
    forall r: QuoteReaction | r in s[i := x] && r.userId == userId && r.quoteId == quoteId ensures r == x {
      var k :| 0 <= k < |s[i := x]| && s[i := x][k] == r;
      if k != i {
        UniqueByIndices(s, ReactionPairOf, i, k);
      }
    }
  }

  /** The toggle keeps every table keyed and every reference resolved; in
      particular a (user, quote) pair never has two reaction rows. */
  lemma ReactKeepsValid(db: Db, userId: int, quoteId: int, kind: ReactionKind)
    requires Valid(db)
    requires userId in UserIds(db.users) && quoteId in QuoteIds(db.quotes)
    ensures Valid(React(db, userId, quoteId, kind).db)
  {
    var s := db.reactions;
    match ReactionFor(s, userId, quoteId)
    case None =>
      var x := QuoteReaction(db.nextId, userId, quoteId, kind);
      UniqueByAppend(s, x, ReactionIdOf);
      forall y | y in s ensures ReactionPairOf(y) != ReactionPairOf(x) {
        var k :| 0 <= k < |s| && s[k] == y;
      }
      UniqueByAppend(s, x, ReactionPairOf);
    case Some(i) =>
      if s[i].kind == kind {
        UniqueBySub(WithoutReaction(s, s[i].reactionId), s, ReactionIdOf);
        UniqueBySub(WithoutReaction(s, s[i].reactionId), s, ReactionPairOf);
      } else {
        var x := s[i].(kind := kind);
        UniqueByUpdate(s, i, x, ReactionIdOf);
        UniqueByUpdate(s, i, x, ReactionPairOf);
        forall r | r in s[i := x] ensures r.reactionId < db.nextId && r.userId in UserIds(db.users) && r.quoteId in QuoteIds(db.quotes) {
          var k :| 0 <= k < |s[i := x]| && s[i := x][k] == r;
          if k != i { assert r == s[k]; } else { assert s[i] in s; }
        }
      }
  }

  /** Every toggle keeps the database valid. */
  lemma ToggleReactKeepsValid(db: Db, gw: Gateway, token: string, quoteId: int, kind: ReactionKind)
    requires Valid(db)
    ensures Valid(ToggleReact(db, gw, token, quoteId, kind).db)
  {
    match Actor(db.users, gw, token, "User not found")
    case Err(_) =>
    case Ok(u) =>
      match QuoteById(db.quotes, quoteId)
      case None =>
      case Some(q) =>
        assert db.users[u] in db.users && db.quotes[q] in db.quotes;
        ReactKeepsValid(db, db.users[u].userId, quoteId, kind);
  }

  /** Reacting twice with the same kind from no reaction answers true, then
      false, and leaves the reactions table exactly as it was. */
  lemma ToggleReactTwice(db: Db, gw: Gateway, token: string, quoteId: int, kind: ReactionKind)
    requires Valid(db)
    requires Actor(db.users, gw, token, "User not found").Ok? && QuoteById(db.quotes, quoteId).Some?
    requires !HasReaction(db.reactions, db.users[Actor(db.users, gw, token, "User not found").value].userId, quoteId)
    ensures var first := ToggleReact(db, gw, token, quoteId, kind);
      var second := ToggleReact(first.db, gw, token, quoteId, kind);
      && first.result == Ok(true) && second.result == Ok(false)
      && second.db.reactions == db.reactions
      && second.db == db.(nextId := db.nextId + 1)
  {
    var userId := db.users[Actor(db.users, gw, token, "User not found").value].userId;
    ReactInserts(db, userId, quoteId, kind);
    var first := ToggleReact(db, gw, token, quoteId, kind);
    var s, x := db.reactions, QuoteReaction(db.nextId, userId, quoteId, kind);
    assert first.db.reactions == s + [x];
    ReactionForFinds(s, userId, quoteId);
    assert ReactionFor(s + [x], userId, quoteId) == Some(|s|) by {
      var t := s + [x];
      assert forall k :: 0 <= k < |s| ==> t[k] == s[k];
    }
    var p := (r: QuoteReaction) => r.reactionId != db.nextId;
    assert (s + [x])[..|s + [x]| - 1] == s;
    assert Filter(s + [x], p) == Filter(s, p);
    assert Filter(s, p) == s;
  }

  // -------------------------------------------------------------- bookmarks

  /** `session.delete(saved)`: the bookmark with that primary key goes. */
  function WithoutSaved(saved: seq<SavedQuote>, savedId: int): seq<SavedQuote> {
    Filter(saved, (s: SavedQuote) => s.savedId != savedId)
  }

  /** The bookmark flip on the pair (userId, quoteId), once both guards have passed. */
  function Save(db: Db, userId: int, quoteId: int): Outcome<bool> {
    match SavedFor(db.saved, userId, quoteId)
    case Some(i) => Outcome(db.(saved := WithoutSaved(db.saved, db.saved[i].savedId)), Ok(false))
    case None =>
      var row := SavedQuote(db.nextId, userId, quoteId);
      Outcome(db.(saved := db.saved + [row], nextId := db.nextId + 1), Ok(true))
  }

  /** `_quote_toggle_save`: the same guards, in the same order, as the
      reaction toggle, then the flip. */
  function ToggleSave(db: Db, gw: Gateway, token: string, quoteId: int): (o: Outcome<bool>)
    ensures o.result.Err? ==> o.db == db
    ensures Actor(db.users, gw, token, "User not found").Err? ==>
      o.result == Err(Actor(db.users, gw, token, "User not found").error)
    ensures Actor(db.users, gw, token, "User not found").Ok? && QuoteById(db.quotes, quoteId).None? ==>
      o.result == Err(Http(404, "Quote not found"))
    ensures Actor(db.users, gw, token, "User not found").Ok? && QuoteById(db.quotes, quoteId).Some? ==>
      o == Save(db, db.users[Actor(db.users, gw, token, "User not found").value].userId, quoteId)
  {
    match Actor(db.users, gw, token, "User not found")
    case Err(e) => Outcome(db, Err(e))
    case Ok(u) =>
      match QuoteById(db.quotes, quoteId)
      case None => Outcome(db, Err(Http(404, "Quote not found")))
      case Some(_) => Save(db, db.users[u].userId, quoteId)
  }

  /** The flip answers whether the pair is bookmarked now, which is the
      negation of whether it was; no other pair's bookmark and no other table changes. */
  lemma SaveFlips(db: Db, userId: int, quoteId: int)
    requires UniqueBy(db.saved, SavedIdOf) && UniqueBy(db.saved, SavedPairOf)
    ensures var o := Save(db, userId, quoteId);
      && o.result == Ok(!HasSaved(db.saved, userId, quoteId))
      && HasSaved(o.db.saved, userId, quoteId) == !HasSaved(db.saved, userId, quoteId)
      && (forall s: SavedQuote :: s.userId != userId || s.quoteId != quoteId ==> (s in o.db.saved <==> s in db.saved))
      && o.db.(saved := db.saved, nextId := db.nextId) == db
  {
    SavedForFinds(db.saved, userId, quoteId);
    var o := Save(db, userId, quoteId);
    match SavedFor(db.saved, userId, quoteId)
    case Some(i) =>
      var row := db.saved[i];
      forall s | s in db.saved && s.savedId == row.savedId ensures s == row {
        assert SavedIdOf(s) == SavedIdOf(row);
      }
      forall k | 0 <= k < |o.db.saved| ensures !(o.db.saved[k].userId == userId && o.db.saved[k].quoteId == quoteId) {
        var s := o.db.saved[k];
        assert s in o.db.saved;
        assert s in db.saved && s != row;
        assert SavedPairOf(s) != SavedPairOf(row);
      }
    case None =>
      var x := SavedQuote(db.nextId, userId, quoteId);
      assert (db.saved + [x])[|db.saved|] == x;
  }

  /** The part of validity the bookmark flip relies on: both keys of the
      bookmarks table, and ids below the next id. */
  ghost predicate BookmarksKeyed(db: Db) {
    && UniqueBy(db.saved, SavedIdOf) && UniqueBy(db.saved, SavedPairOf)
    && forall s :: s in db.saved ==> s.savedId < db.nextId
  }

  /** The flip keeps the bookmarks table keyed. */
  lemma SaveKeepsKeyed(db: Db, userId: int, quoteId: int)
    requires BookmarksKeyed(db)
    ensures BookmarksKeyed(Save(db, userId, quoteId).db)
  {
    var s := db.saved;
    match SavedFor(s, userId, quoteId)
    case Some(i) =>
      UniqueBySub(WithoutSaved(s, s[i].savedId), s, SavedIdOf);
      UniqueBySub(WithoutSaved(s, s[i].savedId), s, SavedPairOf);
    case None =>
      var x := SavedQuote(db.nextId, userId, quoteId);
      UniqueByAppend(s, x, SavedIdOf);
      forall y | y in s ensures SavedPairOf(y) != SavedPairOf(x) {
        var k :| 0 <= k < |s| && s[k] == y;
      }
      UniqueByAppend(s, x, SavedPairOf);
  }

  /** The flip keeps the database valid. */
  lemma SaveKeepsValid(db: Db, userId: int, quoteId: int)
    requires Valid(db)
    requires userId in UserIds(db.users) && quoteId in QuoteIds(db.quotes)
    ensures Valid(Save(db, userId, quoteId).db)
  {
    SaveKeepsKeyed(db, userId, quoteId);
  }

  /** Every save toggle keeps the database valid. */
  lemma ToggleSaveKeepsValid(db: Db, gw: Gateway, token: string, quoteId: int)
    requires Valid(db)
    ensures Valid(ToggleSave(db, gw, token, quoteId).db)
  {
    match Actor(db.users, gw, token, "User not found")
    case Err(_) =>
    case Ok(u) =>
      match QuoteById(db.quotes, quoteId)
      case None =>
      case Some(q) =>
        assert db.users[u] in db.users && db.quotes[q] in db.quotes;
        SaveKeepsValid(db, db.users[u].userId, quoteId);
  }

  /** The database after `n` bookmark flips of the pair (`userId`, `quoteId`). */
  function Flips(db: Db, userId: int, quoteId: int, n: nat): Db {
    if n == 0 then db else Save(Flips(db, userId, quoteId, n - 1), userId, quoteId).db
  }

  /** One flip keeps the bookmarks keyed, touches neither users nor quotes,
      and negates whether the pair is bookmarked. */
  lemma FlipStep(d: Db, userId: int, quoteId: int)
    requires BookmarksKeyed(d)
    ensures var d' := Save(d, userId, quoteId).db;
      && BookmarksKeyed(d') && d'.users == d.users && d'.quotes == d.quotes
      && HasSaved(d'.saved, userId, quoteId) == !HasSaved(d.saved, userId, quoteId)
  {
    SaveFlips(d, userId, quoteId);
    SaveKeepsKeyed(d, userId, quoteId);
  }

  /** After `n` flips of the same pair the bookmark exists exactly when it
      existed before and `n` is even, or it did not and `n` is odd; from no
      bookmark, it exists iff `n` is odd. Users and quotes, which the guards
      of `_quote_toggle_save` read, never change, so each toggle of a
      resolvable actor and quote is such a flip. */
  lemma {:induction false} SaveParity(db: Db, userId: int, quoteId: int, n: nat)
    requires BookmarksKeyed(db)
    ensures var after := Flips(db, userId, quoteId, n);
      && after.users == db.users && after.quotes == db.quotes && BookmarksKeyed(after)
      && (HasSaved(after.saved, userId, quoteId) <==> (HasSaved(db.saved, userId, quoteId) != (n % 2 == 1)))
  {
    FlipsKeepKeyed(db, userId, quoteId, n);
    FlipsParity(db, userId, quoteId, n);
  }

  /** Flipping keeps the bookmarks keyed and leaves users and quotes alone. */
  lemma {:induction false} FlipsKeepKeyed(db: Db, userId: int, quoteId: int, n: nat)
    requires BookmarksKeyed(db)
    ensures var after := Flips(db, userId, quoteId, n);
      after.users == db.users && after.quotes == db.quotes && BookmarksKeyed(after)
  {
    if n > 0 {
      FlipsKeepKeyed(db, userId, quoteId, n - 1);
      FlipStep(Flips(db, userId, quoteId, n - 1), userId, quoteId);
    }
  }

  /** Each flip negates whether the pair is bookmarked. */
  lemma {:induction false} FlipsParity(db: Db, userId: int, quoteId: int, n: nat)
    requires BookmarksKeyed(db)
    ensures HasSaved(Flips(db, userId, quoteId, n).saved, userId, quoteId)
      <==> (HasSaved(db.saved, userId, quoteId) != (n % 2 == 1))
  {
    if n > 0 {
      FlipsParity(db, userId, quoteId, n - 1);
      FlipsKeepKeyed(db, userId, quoteId, n - 1);
      FlipStep(Flips(db, userId, quoteId, n - 1), userId, quoteId);
      OddStep(n);
    }
  }

  /** Proof helper for `FlipsParity`: parity alternates from one natural number to the next. */
  lemma OddStep(n: nat)
    requires n > 0
    ensures (n % 2 == 1) == !((n - 1) % 2 == 1)
  {
  }

  /** A bookmark request whose actor (with user id `userId`) and quote
      resolve is one flip of the actor's pair: it keeps the bookmarks keyed,
      leaves users and quotes alone and negates whether the pair is bookmarked.
      The next identical request therefore passes the same guards, and `n`
      of them are `Flips(db, userId, quoteId, n)`, whose outcome `SaveParity`
      states. */
  lemma ToggleSaveFlips(db: Db, gw: Gateway, token: string, quoteId: int, userId: int)
    requires BookmarksKeyed(db)
    requires Actor(db.users, gw, token, "User not found").Ok? && QuoteById(db.quotes, quoteId).Some?
    requires userId == db.users[Actor(db.users, gw, token, "User not found").value].userId
    ensures var next := ToggleSave(db, gw, token, quoteId).db;
      && BookmarksKeyed(next) && next.users == db.users && next.quotes == db.quotes
      && HasSaved(next.saved, userId, quoteId) == !HasSaved(db.saved, userId, quoteId)
  {
    FlipStep(db, userId, quoteId);
  }

  // --------------------------------------------------------------- deletion

  /** `_delete_quote`: the user, then the quote, then ownership and the admin
      role together; on success the quote goes with everything that points at
      it. The handler compares the two ids with `is not`; the model compares
      their values. */
  function DeleteQuote(db: Db, gw: Gateway, token: string, quoteId: int): (o: Outcome<()>)
    ensures o.result.Err? ==> o.db == db
    ensures o.result.Ok? ==> o.db == DeleteQuoteCascade(db, quoteId)
    ensures Actor(db.users, gw, token, "User is not registered!").Err? ==>
      o.result == Err(Actor(db.users, gw, token, "User is not registered!").error)
    ensures Actor(db.users, gw, token, "User is not registered!").Ok? && QuoteById(db.quotes, quoteId).None? ==>
      o.result == Err(Http(404, "Quote not found!"))
  {
    match Actor(db.users, gw, token, "User is not registered!")
    case Err(e) => Outcome(db, Err(e))
    case Ok(u) =>
      match QuoteById(db.quotes, quoteId)
      case None => Outcome(db, Err(Http(404, "Quote not found!")))
      case Some(q) =>
        var user := db.users[u];
        if db.quotes[q].userId != user.userId || !IsAdmin(db, user.userId) then
          Outcome(db, Err(Http(400, "Insufficient permissions!")))
        else
          Outcome(DeleteQuoteCascade(db, db.quotes[q].quoteId), Ok(()))
  }

  /** Once both are found, deletion succeeds exactly when the actor owns the
      quote AND holds a role named "admin"; otherwise it answers 400
      "Insufficient permissions!" and the database is unchanged. A successful
      deletion removes the quote, its reactions, bookmarks and comments, and
      nothing else, and keeps the database valid. */
  lemma DeleteQuoteAuthorized(db: Db, gw: Gateway, token: string, quoteId: int)
    requires Valid(db)
    requires Actor(db.users, gw, token, "User is not registered!").Ok? && QuoteById(db.quotes, quoteId).Some?
    ensures var actor := db.users[Actor(db.users, gw, token, "User is not registered!").value];
      var quote := db.quotes[QuoteById(db.quotes, quoteId).value];
      var o := DeleteQuote(db, gw, token, quoteId);
      && (o.result.Ok? <==> quote.userId == actor.userId && IsAdmin(db, actor.userId))
      && (o.result.Err? ==> o == Outcome(db, Err(Http(400, "Insufficient permissions!"))))
      && (o.result.Ok? ==>
            && Valid(o.db)
            && (forall q :: q in o.db.quotes <==> q in db.quotes && q.quoteId != quoteId)
            && (forall r :: r in o.db.reactions <==> r in db.reactions && r.quoteId != quoteId)
            && (forall s :: s in o.db.saved <==> s in db.saved && s.quoteId != quoteId)
            && (forall c :: c in o.db.comments <==> c in db.comments && c.quoteId != quoteId)
            && o.db.users == db.users && o.db.userRoles == db.userRoles && o.db.webhooks == db.webhooks)
  {
    DeleteQuoteCascadeValid(db, quoteId);
  }

  /** Any deletion request leaves a valid database valid. */
  lemma DeleteQuoteKeepsValid(db: Db, gw: Gateway, token: string, quoteId: int)
    requires Valid(db)
    ensures Valid(DeleteQuote(db, gw, token, quoteId).db)
  {
    if DeleteQuote(db, gw, token, quoteId).result.Ok? {
      DeleteQuoteAuthorized(db, gw, token, quoteId);
    }
  }

  // --------------------------------------------------------------- creation

  /** What `_create_quote` hands back: the new quote's anonymous view, and the
      webhooks the notification is posted to. */
  datatype Created = Created(view: QuoteView, notified: seq<Webhook>)

  /** `_create_quote`: the quote is committed first; the notification goes
      to every registered webhook, and only when the caller asked for it. */
  function CreateQuote(db: Db, gw: Gateway, token: string, text: string, sendWebhook: bool, now: Timestamp): (o: Outcome<Created>)
    ensures o.result.Err? ==> o.db == db
    ensures Actor(db.users, gw, token, "User is not registered!").Err? <==> o.result.Err?
    ensures o.result.Err? ==> o.result.error == Actor(db.users, gw, token, "User is not registered!").error
    ensures o.result.Ok? ==> (|o.result.value.notified| > 0 <==> sendWebhook && |db.webhooks| > 0)
  {
    match Actor(db.users, gw, token, "User is not registered!")
    case Err(e) => Outcome(db, Err(e))
    case Ok(u) =>
      var q := Quote(db.nextId, text, db.users[u].userId, now, None, None);
      var db' := db.(quotes := db.quotes + [q], nextId := db.nextId + 1);
      Outcome(db', Ok(Created(FormattedQuote(Load(db', q), None), if sendWebhook then db'.webhooks else [])))
  }

  /** A quote id the database has not handed out yet is in no table. */
  lemma NewQuoteIdUnused(db: Db)
    requires Valid(db)
    ensures db.nextId !in QuoteIds(db.quotes)
    ensures ReactionsOf(db.reactions, db.nextId) == [] && SavedOf(db.saved, db.nextId) == []
  {
    assert forall i :: 0 <= i < |db.reactions| ==> db.reactions[i] in db.reactions;
    assert forall i :: 0 <= i < |db.saved| ==> db.saved[i] in db.saved;
  }

  /** A created quote is appended with a fresh id, the actor as owner and the
      request time, the database stays valid, the view shows the actor as
      author, a zero tally and no personal keys, and the notification list is
      every webhook row when asked for and empty otherwise. */
  lemma CreateQuoteAppends(db: Db, gw: Gateway, token: string, text: string, sendWebhook: bool, now: Timestamp)
    requires Valid(db)
    requires Actor(db.users, gw, token, "User is not registered!").Ok?
    ensures var actor := db.users[Actor(db.users, gw, token, "User is not registered!").value];
      var q := Quote(db.nextId, text, actor.userId, now, None, None);
      var o := CreateQuote(db, gw, token, text, sendWebhook, now);
      && o.result.Ok?
      && o.db == db.(quotes := db.quotes + [q], nextId := db.nextId + 1)
      && q.quoteId !in QuoteIds(db.quotes)
      && Valid(o.db)
      && o.result.value.view.quote == q
      && o.result.value.view.user == Some(actor)
      && o.result.value.view.personal.None?
      && (forall i :: 0 <= i < |o.result.value.view.reactions| ==> o.result.value.view.reactions[i].count == 0)
      && o.result.value.notified == (if sendWebhook then db.webhooks else [])
  {
    var u := Actor(db.users, gw, token, "User is not registered!").value;
    var actor := db.users[u];
    var q := Quote(db.nextId, text, actor.userId, now, None, None);
    var db' := db.(quotes := db.quotes + [q], nextId := db.nextId + 1);
    NewQuoteIdUnused(db);
    UniqueByAppend(db.quotes, q, QuoteIdOf);
    assert actor in db.users;
    forall id | id in QuoteIds(db.quotes) ensures id in QuoteIds(db'.quotes) {
      var q0 :| q0 in db.quotes && q0.quoteId == id;
      assert q0 in db'.quotes;
    }
    var i := UserById(db.users, actor.userId).value;
    UniqueByIndices(db.users, UserIdOf, i, u);
  }

  /** Any creation request leaves a valid database valid. */
  lemma CreateQuoteKeepsValid(db: Db, gw: Gateway, token: string, text: string, sendWebhook: bool, now: Timestamp)
    requires Valid(db)
    ensures Valid(CreateQuote(db, gw, token, text, sendWebhook, now).db)
  {
    if Actor(db.users, gw, token, "User is not registered!").Ok? {
      CreateQuoteAppends(db, gw, token, text, sendWebhook, now);
    }
  }

  /** `_create_quote_comment`: both inputs must be non-empty, then the user
      must be registered. A comment on a quote that does not exist is refused
      by the quote foreign key when it is committed. */
  function CreateComment(db: Db, gw: Gateway, token: string, quoteId: int, comment: string, now: Timestamp): (o: Outcome<QuoteComment>)
    ensures o.result.Err? ==> o.db == db
    ensures comment == "" ==> o.result == Err(Http(400, "Required comment is empty!"))
    ensures comment != "" && token == "" ==> o.result == Err(Http(400, "Required token is empty!"))
    ensures comment != "" && token != "" && Actor(db.users, gw, token, "User is not registered!").Err? ==>
      o.result == Err(Actor(db.users, gw, token, "User is not registered!").error)
  {
    if comment == "" then Outcome(db, Err(Http(400, "Required comment is empty!")))
    else if token == "" then Outcome(db, Err(Http(400, "Required token is empty!")))
    else
      match Actor(db.users, gw, token, "User is not registered!")
      case Err(e) => Outcome(db, Err(e))
      case Ok(u) =>
        if QuoteById(db.quotes, quoteId).None? then Outcome(db, Err(Unhandled(RejectedByDatabase)))
        else
          var c := QuoteComment(db.nextId, db.users[u].userId, quoteId, comment, now);
          Outcome(db.(comments := db.comments + [c], nextId := db.nextId + 1), Ok(c))
  }

  /** Past the guards, a comment on an existing quote is appended with a fresh
      id, the actor, the quote and the request time, and the database stays
      valid; on a missing quote nothing is committed and the error is a 500. */
  lemma CreateCommentAppends(db: Db, gw: Gateway, token: string, quoteId: int, comment: string, now: Timestamp)
    requires Valid(db)
    requires comment != "" && token != "" && Actor(db.users, gw, token, "User is not registered!").Ok?
    ensures var actor := db.users[Actor(db.users, gw, token, "User is not registered!").value];
      var c := QuoteComment(db.nextId, actor.userId, quoteId, comment, now);
      var o := CreateComment(db, gw, token, quoteId, comment, now);
      && (quoteId !in QuoteIds(db.quotes) ==> o == Outcome(db, Err(Unhandled(RejectedByDatabase))))
      && (quoteId in QuoteIds(db.quotes) ==>
            && o.result == Ok(c)
            && o.db == db.(comments := db.comments + [c], nextId := db.nextId + 1)
            && Valid(o.db))
  {
    var actor := db.users[Actor(db.users, gw, token, "User is not registered!").value];
    assert actor in db.users;
    if quoteId in QuoteIds(db.quotes) {
      var c := QuoteComment(db.nextId, actor.userId, quoteId, comment, now);
      UniqueByAppend(db.comments, c, CommentIdOf);
    } else {
      assert forall i :: 0 <= i < |db.quotes| ==> db.quotes[i] in db.quotes;
    }
  }

  // ---------------------------------------------------------------- reading

  /** `formatted_quote(user_info)` for the viewer of a request. A profile
      without `id` fails only once a bookmark or a reaction has to be
      compared with it. */
  function Present(lq: LoadedQuote, viewer: Viewer): (r: Result<QuoteView>)
    ensures r.Ok? ==> r.value.quote == lq.quote
    ensures viewer.Anonymous? ==> r == Ok(FormattedQuote(lq, None))
    ensures viewer.Signed? && viewer.profile.id.Some? ==> r == Ok(FormattedQuote(lq, viewer.profile.id))
    ensures viewer.Signed? && viewer.profile.id.None? ==>
      && (r.Err? <==> lq.saved != [] || lq.reactions != [])
      && (r.Err? ==> r.error == Unhandled(MissingKey("id")))
      && (r.Ok? ==> r.value.personal == Some(Personal(false, None)))
  {
    match viewer
    case Anonymous => Ok(FormattedQuote(lq, None))
    case Signed(p) =>
      match p.id
      case Some(id) => Ok(FormattedQuote(lq, Some(id)))
      case None =>
        if lq.saved != [] || lq.reactions != [] then Err(Unhandled(MissingKey("id")))
        else Ok(QuoteView(lq.quote, lq.owner, Tally(lq.reactions), Some(Personal(false, None))))
  }

  /** The list comprehension over a query result: one view per quote, in the
      same order, or the first failure. */
  function PresentAll(db: Db, qs: seq<Quote>, viewer: Viewer): (r: Result<seq<QuoteView>>)
    ensures r.Ok? <==> forall i :: 0 <= i < |qs| ==> Present(Load(db, qs[i]), viewer).Ok?
    ensures r.Ok? ==> |r.value| == |qs|
    ensures r.Ok? ==> forall i :: 0 <= i < |qs| ==> r.value[i] == Present(Load(db, qs[i]), viewer).value
  {
    if qs == [] then Ok([])
    else
      assert forall i :: 1 <= i < |qs| ==> qs[i] == qs[1..][i - 1];
      match Present(Load(db, qs[0]), viewer)
      case Err(e) => Err(e)
      case Ok(v) =>
        match PresentAll(db, qs[1..], viewer)
        case Err(e) => Err(e)
        case Ok(vs) => Ok([v] + vs)
  }

  /** With no viewer, every quote gets its anonymous view. */
  lemma {:induction false} PresentAllAnonymous(db: Db, qs: seq<Quote>)
    ensures PresentAll(db, qs, Anonymous).Ok?
    ensures forall i :: 0 <= i < |qs| ==> PresentAll(db, qs, Anonymous).value[i] == FormattedQuote(Load(db, qs[i]), None)
  {
    if qs != [] {
      PresentAllAnonymous(db, qs[1..]);
      var vs := PresentAll(db, qs[1..], Anonymous).value;
      assert PresentAll(db, qs, Anonymous).value == [FormattedQuote(Load(db, qs[0]), None)] + vs;
      forall i | 1 <= i < |qs| ensures qs[i] == qs[1..][i - 1] { }
    }
  }

  /** `_get_quote`: the quote by id, then the viewer's personal view of it. */
  function GetQuote(db: Db, gw: Gateway, token: string, quoteId: int): (r: Result<QuoteView>)
    ensures QuoteById(db.quotes, quoteId).None? <==> r == Err(Http(404, "Quote not found"))
    ensures r.Ok? ==> r.value.quote in db.quotes && r.value.quote.quoteId == quoteId
    ensures token == "" && QuoteById(db.quotes, quoteId).Some? ==>
      r == Ok(FormattedQuote(Load(db, db.quotes[QuoteById(db.quotes, quoteId).value]), None))
    ensures QuoteById(db.quotes, quoteId).Some? && ViewerFor(gw, token).Err? ==>
      r == Err(ViewerFor(gw, token).error)
    ensures QuoteById(db.quotes, quoteId).Some? && ViewerFor(gw, token).Ok? ==>
      r == Present(Load(db, db.quotes[QuoteById(db.quotes, quoteId).value]), ViewerFor(gw, token).value)
  {
    match QuoteById(db.quotes, quoteId)
    case None => Err(Http(404, "Quote not found"))
    case Some(i) =>
      var viewer :- ViewerFor(gw, token);
      Present(Load(db, db.quotes[i]), viewer)
  }

  /** A signed-in viewer whose profile has an `id` gets the personal view of
      the quote: whether that Discord id bookmarked it and which kind it
      reacted with, on top of the anonymous view. */
  lemma GetQuoteSigned(db: Db, gw: Gateway, token: string, quoteId: int)
    requires QuoteById(db.quotes, quoteId).Some?
    requires ViewerFor(gw, token).Ok? && ViewerFor(gw, token).value.Signed?
    requires ViewerFor(gw, token).value.profile.id.Some?
    ensures var lq := Load(db, db.quotes[QuoteById(db.quotes, quoteId).value]);
      var id := ViewerFor(gw, token).value.profile.id.value;
      var r := GetQuote(db, gw, token, quoteId);
      && r.Ok?
      && r.value.personal == Some(Personal(IsSaved(lq.saved, id), ViewerReaction(lq.reactions, id)))
      && r.value.(personal := None) == FormattedQuote(lq, None)
  {
    var lq := Load(db, db.quotes[QuoteById(db.quotes, quoteId).value]);
    PersonalOnlyWithViewer(lq, ViewerFor(gw, token).value.profile.id.value);
  }

  /** The search condition of `_get_quotes`: the inner join with the author,
      and a substring of the text or of the author's display name. */
  predicate SearchHit(users: seq<User>, q: Quote, search: string) {
    match UserById(users, q.userId)
    case None => false
    case Some(i) => Contains(q.text, search) || Contains(users[i].displayName, search)
  }

  /** The quotes `_get_quotes` selects before ordering: all of them, or those the search hits. */
  function Matching(db: Db, search: string): seq<Quote> {
    if search == "" then db.quotes else Filter(db.quotes, (q: Quote) => SearchHit(db.users, q, search))
  }

  function CreatedAtOf(q: Quote): int { q.createdAt }

  /** The selected quotes in `created_at` order: descending for "descend",
      ascending for anything else. */
  function Chronological(db: Db, search: string, sort: string): seq<Quote> {
    SortBy(Matching(db, search), CreatedAtOf, sort == "descend")
  }

  /** The first row of page `page` when pages hold `limit` rows. */
  function PageStart(page: int, limit: int): nat
    requires page > 0 && limit > 0
  {
    (page - 1) * limit
  }

  /** The query of `_get_quotes`: the window is applied only when both `page`
      and `limit` are positive, and then starts at `(page - 1) * limit`. */
  function SelectQuotes(db: Db, page: int, limit: int, search: string, sort: string): seq<Quote> {
    var ordered := Chronological(db, search, sort);
    if page > 0 && limit > 0 then Window(ordered, PageStart(page, limit), limit) else ordered
  }

  /** Before paging, the listing is every quote the search selects, each once
      per row, in `created_at` order: non-increasing for "descend" and
      non-decreasing otherwise. */
  lemma ChronologicalRule(db: Db, search: string, sort: string)
    ensures var c := Chronological(db, search, sort);
      && multiset(c) == multiset(Matching(db, search))
      && (forall q :: q in c <==> q in db.quotes && (search == "" || SearchHit(db.users, q, search)))
      && (sort == "descend" ==> forall i, j :: 0 <= i < j < |c| ==> c[i].createdAt >= c[j].createdAt)
      && (sort != "descend" ==> forall i, j :: 0 <= i < j < |c| ==> c[i].createdAt <= c[j].createdAt)
  {
    var c := Chronological(db, search, sort);
    forall q ensures q in c <==> q in Matching(db, search) {
      assert q in c <==> q in multiset(c);
    }
    forall i, j | 0 <= i < j < |c| ensures Before(c[i], c[j], CreatedAtOf, sort == "descend") { }
  }

  /** Every listed quote exists and matches the search, and the listing keeps
      the `created_at` order; with paging it is the `limit` consecutive
      quotes of the full ordering starting at `(page - 1) * limit`, fewer
      only where the ordering runs out (none past its end), and
      without paging it is the full ordering. */
  lemma SelectQuotesRule(db: Db, page: int, limit: int, search: string, sort: string)
    ensures var r := SelectQuotes(db, page, limit, search, sort);
      var c := Chronological(db, search, sort);
      && (forall q :: q in r ==> q in db.quotes && (search != "" ==> SearchHit(db.users, q, search)))
      && (sort == "descend" ==> forall i, j :: 0 <= i < j < |r| ==> r[i].createdAt >= r[j].createdAt)
      && (sort != "descend" ==> forall i, j :: 0 <= i < j < |r| ==> r[i].createdAt <= r[j].createdAt)
      && (page > 0 && limit > 0 ==>
            && |r| == (if PageStart(page, limit) <= |c| then Min(limit, |c| - PageStart(page, limit)) else 0)
            && forall i :: 0 <= i < |r| ==> PageStart(page, limit) + i < |c| && r[i] == c[PageStart(page, limit) + i])
      && (!(page > 0 && limit > 0) ==> r == c)
  {
    ChronologicalRule(db, search, sort);
    var c := Chronological(db, search, sort);
    var r := SelectQuotes(db, page, limit, search, sort);
    if page > 0 && limit > 0 {
      var start := PageStart(page, limit);
      assert r == Window(c, start, limit);
      WindowOrdered(c, start, limit, CreatedAtOf, sort == "descend");
      forall i, j | 0 <= i < j < |r| ensures Before(r[i], r[j], CreatedAtOf, sort == "descend") { }
    } else {
      assert r == c;
    }
  }

  // ------------------------------------------------------------- top quotes

  const ThirtyDays: int := 30 * 24 * 60 * 60

  /** The number of reactions on a quote, as `func.count` over the outer join counts them. */
  function ReactionCount(reactions: seq<QuoteReaction>, quoteId: int): nat {
    |ReactionsOf(reactions, quoteId)|
  }

  function ByReactionCount(reactions: seq<QuoteReaction>): Quote -> int {
    (q: Quote) => ReactionCount(reactions, q.quoteId)
  }

  /** Created within the last thirty days before `now`. */
  predicate Recent(q: Quote, now: Timestamp) {
    q.createdAt >= now - ThirtyDays
  }

  function RecentQuotes(quotes: seq<Quote>, now: Timestamp): seq<Quote> {
    Filter(quotes, (q: Quote) => Recent(q, now))
  }

  /** The query of `_get_top_quotes`: the recent quotes, most reactions first,
      at most `limit` of them. The database refuses a negative `LIMIT`. */
  function TopQuotes(db: Db, now: Timestamp, limit: int): Result<seq<Quote>> {
    if limit < 0 then Err(Unhandled(RejectedByDatabase))
    else Ok(Window(SortBy(RecentQuotes(db.quotes, now), ByReactionCount(db.reactions), true), 0, limit))
  }

  /** Top quotes are at most `limit` recent quotes, each row at most once, in
      non-increasing order of reaction count, as many as there are recent
      quotes up to `limit`, and a
      recent quote that is left out has no more reactions than any listed one. */
  lemma TopQuotesRule(db: Db, now: Timestamp, limit: int)
    ensures limit < 0 <==> TopQuotes(db, now, limit).Err?
    ensures limit >= 0 ==>
      var r := TopQuotes(db, now, limit).value;
      var recent := RecentQuotes(db.quotes, now);
      && |r| == Min(limit, |recent|)
      && multiset(r) <= multiset(recent) && multiset(recent) <= multiset(db.quotes)
      && (forall q :: q in r ==> q in db.quotes && q.createdAt >= now - ThirtyDays)
      && (forall i, j :: 0 <= i < j < |r| ==>
            ReactionCount(db.reactions, r[i].quoteId) >= ReactionCount(db.reactions, r[j].quoteId))
      && (forall q, x :: q in recent && q !in r && x in r ==>
            ReactionCount(db.reactions, x.quoteId) >= ReactionCount(db.reactions, q.quoteId))
  {
    if limit >= 0 {
      var recent := RecentQuotes(db.quotes, now);
      var key := ByReactionCount(db.reactions);
      TopRows(recent, key, limit);
      var r := TopQuotes(db, now, limit).value;
      forall q, x | q in recent && q !in r && x in r
        ensures ReactionCount(db.reactions, x.quoteId) >= ReactionCount(db.reactions, q.quoteId)
      {
        assert key(x) >= key(q);
      }
    }
  }

  /** `_get_quotes`: the query, then the viewer's view of every quote. */
  function GetQuotes(db: Db, gw: Gateway, token: string, page: int, limit: int, search: string, sort: string): Result<seq<QuoteView>> {
    var viewer :- ViewerFor(gw, token);
    PresentAll(db, SelectQuotes(db, page, limit, search, sort), viewer)
  }

  /** `_get_top_quotes`: the query, then the viewer's view of every quote. */
  function GetTopQuotes(db: Db, gw: Gateway, token: string, now: Timestamp, limit: int): Result<seq<QuoteView>> {
    var qs :- TopQuotes(db, now, limit);
    var viewer :- ViewerFor(gw, token);
    PresentAll(db, qs, viewer)
  }

  /** Without a token both listings succeed (the top list unless `limit` is
      negative) and give the anonymous view of each selected quote, in the
      query's order. */
  lemma GetQuotesAnonymous(db: Db, gw: Gateway, page: int, limit: int, search: string, sort: string, now: Timestamp)
    ensures var r := GetQuotes(db, gw, "", page, limit, search, sort);
      var qs := SelectQuotes(db, page, limit, search, sort);
      && r.Ok? && |r.value| == |qs|
      && forall i :: 0 <= i < |qs| ==> r.value[i] == FormattedQuote(Load(db, qs[i]), None)
    ensures GetTopQuotes(db, gw, "", now, limit).Ok? <==> limit >= 0
    ensures limit >= 0 ==>
      var r := GetTopQuotes(db, gw, "", now, limit);
      var qs := TopQuotes(db, now, limit).value;
      && |r.value| == |qs|
      && forall i :: 0 <= i < |qs| ==> r.value[i] == FormattedQuote(Load(db, qs[i]), None)
  {
    PresentAllAnonymous(db, SelectQuotes(db, page, limit, search, sort));
    if limit >= 0 {
      PresentAllAnonymous(db, TopQuotes(db, now, limit).value);
    }
  }
}

/** The externally visible shape of a quote (`Quote.formatted_quote` in
    api/v1/models/models.py): the quote's own fields, its author, a tally over
    the five reaction kinds, and, only when a viewer is given, whether the
    viewer saved the quote and how the viewer reacted to it. */
module Views {
  import opened Common
  import opened Models

  /** A reaction as `Quote.reactions` yields it: its kind and the Discord id of `reaction.user`. */
  datatype ReactionLink = ReactionLink(kind: ReactionKind, userDiscordId: Option<string>)

  /** A bookmark as `Quote.saved_quotes` yields it: the Discord id of `saved.user`. */
  datatype SavedLink = SavedLink(userDiscordId: Option<string>)

  /** A quote with its relationships loaded. */
  datatype LoadedQuote = LoadedQuote(
    quote: Quote,
    owner: Option<User>,
    reactions: seq<ReactionLink>,
    saved: seq<SavedLink>)

  /** One entry of the tally: the reaction's name and how many reactions of that kind the quote has. */
  datatype TallyEntry = TallyEntry(kind: ReactionKind, count: nat)

  /** The personal part of a view: `is_saved` and `reaction`. */
  datatype Personal = Personal(isSaved: bool, reaction: Option<ReactionKind>)

  /** The dictionary `formatted_quote` returns; `personal` is None exactly
      when the keys `is_saved` and `reaction` are absent. */
  datatype QuoteView = QuoteView(
    quote: Quote,
    user: Option<User>,
    reactions: seq<TallyEntry>,
    personal: Option<Personal>)

  // ------------------------------------------------------------- loading

  function DiscordIdOfUser(users: seq<User>, userId: int): Option<string> {
    match UserById(users, userId)
    case None => None
    case Some(i) => Some(users[i].discordId)
  }

  function ReactionsOf(reactions: seq<QuoteReaction>, quoteId: int): seq<QuoteReaction> {
    Filter(reactions, (r: QuoteReaction) => r.quoteId == quoteId)
  }

  function SavedOf(saved: seq<SavedQuote>, quoteId: int): seq<SavedQuote> {
    Filter(saved, (s: SavedQuote) => s.quoteId == quoteId)
  }

  /** The quote's relationships as the ORM loads them, in row order. */
  function Load(db: Db, q: Quote): LoadedQuote {
    var rs := ReactionsOf(db.reactions, q.quoteId);
    var ss := SavedOf(db.saved, q.quoteId);
    LoadedQuote(
      q,
      match UserById(db.users, q.userId) case None => None case Some(i) => Some(db.users[i]),
      seq(|rs|, i requires 0 <= i < |rs| => ReactionLink(rs[i].kind, DiscordIdOfUser(db.users, rs[i].userId))),
      seq(|ss|, i requires 0 <= i < |ss| => SavedLink(DiscordIdOfUser(db.users, ss[i].userId))))
  }

  // --------------------------------------------------------------- tally

  /** The number of reactions of kind `k`. */
  function Count(rs: seq<ReactionLink>, k: ReactionKind): nat {
    if rs == [] then 0
    else Count(rs[..|rs| - 1], k) + (if rs[|rs| - 1].kind == k then 1 else 0)
  }

  /** The tally `_format_reactions` promises: one entry per kind, in the
      canonical order, whatever the counts. */
  function Tally(rs: seq<ReactionLink>): (t: seq<TallyEntry>)
    ensures |t| == 5
    ensures forall i :: 0 <= i < 5 ==> t[i].kind == Kinds[i]
  {
    seq(|Kinds|, i requires 0 <= i < |Kinds| => TallyEntry(Kinds[i], Count(rs, Kinds[i])))
  }

  /** The five counts of the tally add up to the number of reactions. */
  lemma {:induction false} TallySum(rs: seq<ReactionLink>)
    ensures var t := Tally(rs);
      t[0].count + t[1].count + t[2].count + t[3].count + t[4].count == |rs|
  {
    if rs != [] {
      var init := rs[..|rs| - 1];
      TallySum(init);
    }
  }

  /** `_format_reactions`: a dictionary of counts, initialised to zero for the
      five kinds and incremented once per reaction, read out in canonical order. */
  method FormatReactions(reactions: seq<ReactionLink>) returns (tally: seq<TallyEntry>)
    ensures tally == Tally(reactions)
  {
    var counts: map<ReactionKind, nat> := map k | k in Kinds :: 0;
    var i := 0;
    while i < |reactions|
      invariant 0 <= i <= |reactions|
      invariant forall k :: k in Kinds ==> k in counts && counts[k] == Count(reactions[..i], k)
    {
      var name := reactions[i].kind;
      counts := counts[name := (if name in counts then counts[name] else 0) + 1];
      assert reactions[..i + 1][..i] == reactions[..i];
      i := i + 1;
    }
    assert reactions[..i] == reactions;
    tally := seq(|Kinds|, j requires 0 <= j < |Kinds| => TallyEntry(Kinds[j], counts[Kinds[j]]));
  }

  // ------------------------------------------------------- personal part

  /** `_is_saved`: some bookmark of the quote belongs to the viewer. */
  function IsSaved(saved: seq<SavedLink>, viewerId: string): (b: bool)
    ensures b <==> exists i :: 0 <= i < |saved| && saved[i].userDiscordId == Some(viewerId)
  {
    if saved == [] then false
    else if saved[0].userDiscordId == Some(viewerId) then true
    else
      var b := IsSaved(saved[1..], viewerId);
      assert forall i :: 1 <= i < |saved| ==> saved[i] == saved[1..][i - 1];
      b
  }

  /** `_reaction`: the kind of the first reaction, in list order, made by the viewer. */
  function ViewerReaction(rs: seq<ReactionLink>, viewerId: string): (r: Option<ReactionKind>)
    ensures r.None? <==> forall i :: 0 <= i < |rs| ==> rs[i].userDiscordId != Some(viewerId)
    ensures r.Some? ==> exists i ::
      && 0 <= i < |rs| && rs[i].userDiscordId == Some(viewerId) && rs[i].kind == r.value
      && forall j :: 0 <= j < i ==> rs[j].userDiscordId != Some(viewerId)
  {
    if rs == [] then None
    else if rs[0].userDiscordId == Some(viewerId) then Some(rs[0].kind)
    else
      var r := ViewerReaction(rs[1..], viewerId);
      assert forall i :: 1 <= i < |rs| ==> rs[i] == rs[1..][i - 1];
      if r.Some? then
        var i :| 0 <= i < |rs[1..]| && rs[1..][i].userDiscordId == Some(viewerId)
          && rs[1..][i].kind == r.value && forall j :: 0 <= j < i ==> rs[1..][j].userDiscordId != Some(viewerId);
        assert rs[i + 1].kind == r.value;
        r
      else r
  }

  // ----------------------------------------------------------------- view

  /** `formatted_quote(user_info)`; the viewer is the `id` of `user_info`. */
  function FormattedQuote(lq: LoadedQuote, viewer: Option<string>): QuoteView {
    var base := QuoteView(lq.quote, lq.owner, Tally(lq.reactions), None);
    match viewer
    case None => base
    case Some(id) => base.(personal := Some(Personal(IsSaved(lq.saved, id), ViewerReaction(lq.reactions, id))))
  }

  /** The anonymous view carries no personal keys; the signed view adds them
      and leaves every other field as the anonymous view has it. */
  lemma PersonalOnlyWithViewer(lq: LoadedQuote, id: string)
    ensures FormattedQuote(lq, None).personal.None?
    ensures FormattedQuote(lq, Some(id)).personal
      == Some(Personal(IsSaved(lq.saved, id), ViewerReaction(lq.reactions, id)))
    ensures FormattedQuote(lq, Some(id)).(personal := None) == FormattedQuote(lq, None)
    ensures FormattedQuote(lq, None).quote == lq.quote && FormattedQuote(lq, None).user == lq.owner
  {
  }
}

# Quote service core in Dafny

A model of the quote-sharing service's core. Users log in through Discord:
an authorization code is exchanged for an access token, which the service signs
into its own session token. They post quotes, react to them with one of five
emoji, bookmark them, comment on them and register Discord webhooks that are
notified of new quotes.

The database is one value, `Models.Db`. It holds every table as a sequence of
rows in insertion order, plus the counter that hands out fresh primary keys.
`Models.Valid` states its integrity. Part of it is what the schema enforces:

- unique primary keys;
- every foreign key resolved;
- every key below the counter, which stands for autoincrement.

The rest is not declared in the schema, which has no unique constraint on
`discord_id` or on a (user, quote) pair. These clauses are invariants the
handlers keep, and the `KeepsValid` lemmas prove each request preserves them
when requests run one at a time:

- one user per Discord id;
- at most one reaction and one bookmark per (user, quote) pair.

Each task of the service is a function `Task(db, gateway, inputs)`. It returns
an `Outcome`: the database after the request and the answer, which is either a
value or an error. An `Error` is an HTTP error (status and detail) or an
uncaught exception (`Unhandled`, answered with 500).

The calls to Discord and the JWT codec are the fields of `Identity.Gateway`, a
parameter of every task. Every property therefore holds whatever those calls
return.

`Session.Store` is the database session as an object. It has one field per
table, and its methods change those fields step by step as the handlers do:

- the toggle writes a new kind into the existing reaction row;
- `_delete_quote` walks the user's roles;
- the user's quotes are sorted in place in an array.

Each method ensures that it leaves the store in the state the handler function
describes and returns the same answer. The lemmas about the handler functions
therefore carry over to the store.

Modules:

- `Common`: results, errors, filtering and keyed tables.
- `Models`: the tables, their keys, lookups and the delete cascades.
- `Identity`: the gateway, the actor behind a token and the viewer of a listing.
- `Views`: `formatted_quote` and its reaction tally.
- `Query`: `LIMIT`/`OFFSET` windows and a stable sort.
- `Quotes`, `Users` and `Login`: the request handlers.
- `Session`: the store.

## Model

| member | source | states |
|---|---|---|
| Identity.ActorId | api/v1/tasks/quotes.py:245-247 | the actor's Discord id exists exactly when the token decodes, carries an access token and the profile has an id; it is then that id; every failure is a 500 |
| Identity.ViewerFor | api/v1/tasks/quotes.py:45-48 | an empty token, and only an empty token, gives the anonymous viewer; otherwise the result is Ok exactly when the token decodes and carries an access token, the viewer is then the profile fetched with it, and every failure is a 500 |
| Models.DeleteQuoteCascadeValid | api/v1/models/models.py:51-53 | deleting a quote removes exactly that quote and the reactions, bookmarks and comments pointing at it, leaves the other tables alone and keeps the database valid |
| Models.DeleteUserCascadeValid | api/v1/models/models.py:258-263 | deleting a user removes exactly the user, their quotes, their comments, bookmarks, reactions, roles and webhooks, plus every row pointing at a removed quote, and keeps the database valid |
| Views.Tally | api/v1/models/models.py:71-81 | the tally has exactly five entries, one per reaction kind, in the fixed order red-heart, thumbs-up, face-with-tears-of-joy, melting-face, skull |
| Views.TallySum | api/v1/models/models.py:74-78 | the five counts add up to the number of reactions on the quote |
| Views.FormatReactions | api/v1/models/models.py:71-81 | the counting loop over a dictionary initialised to zero yields the tally |
| Views.IsSaved | api/v1/models/models.py:83-91 | true exactly when some bookmark of the quote belongs to the viewer's Discord id |
| Views.ViewerReaction | api/v1/models/models.py:93-102 | none exactly when the viewer has no reaction on the quote; otherwise the kind of the viewer's first reaction in list order |
| Views.PersonalOnlyWithViewer | api/v1/models/models.py:55-69 | without a viewer the view has no personal keys; with one it adds is_saved and reaction and agrees with the anonymous view on everything else |
| Query.Window | api/v1/tasks/quotes.py:28-29 | the window holds min(limit, rows left after offset) rows, and its row i is row offset+i of the input |
| Query.SortBy | api/v1/tasks/quotes.py:38-41 | the result is ordered by the key in the requested direction and is a permutation of the input |
| Query.TopRows | api/v1/tasks/quotes.py:115-117 | the first `limit` rows by non-increasing key: min(limit, n) rows, each input row taken at most as often as it occurs, and no row left out has a larger key than a row taken |
| Quotes.Actor | api/v1/tasks/quotes.py:245-249 | succeeds exactly when the Discord id resolves and a user is registered under it; otherwise the Discord failure or a 404 with the handler's own message |
| Quotes.ToggleReact | api/v1/tasks/quotes.py:239-276 | "User not found" is checked before "Quote not found", and both before the reactions; a failure commits nothing; otherwise the toggle for that user and quote |
| Quotes.ReactInserts | api/v1/tasks/quotes.py:270-276 | with no reaction for the pair, exactly one row with the requested kind and a fresh id is appended and the answer is true (the intended insert) |
| Quotes.ReactAsWritten | api/v1/tasks/quotes.py:270-276 | the toggle as written: with no reaction for the pair the commit is refused (500) and nothing changes; with one, the update and delete branches are those of the intended toggle |
| Quotes.FirstReactionRefused | api/v1/tasks/quotes.py:270-276 | a first reaction on a quote is refused as written and leaves the database unchanged, while the intended toggle answers true and adds a row |
| Quotes.ReactRemoves | api/v1/tasks/quotes.py:261-265 | with a reaction of the same kind, that row and only that row is deleted, the pair has no reaction left and the answer is false |
| Quotes.ReactSwitches | api/v1/tasks/quotes.py:266-269 | with a reaction of another kind, the row keeps its place and id but takes the new kind, and the answer is true |
| Quotes.ReactKeepsValid | api/v1/tasks/quotes.py:255-276 | every branch of the toggle keeps the database valid, so a pair never has two reaction rows |
| Quotes.ToggleReactKeepsValid | api/v1/tasks/quotes.py:239-276 | every reaction request, failing or not, leaves a valid database valid |
| Quotes.ToggleReactTwice | api/v1/tasks/quotes.py:261-276 | from no reaction, the same toggle twice answers true, then false, and restores the reactions table |
| Quotes.ToggleSave | api/v1/tasks/quotes.py:279-307 | the same guards in the same order as the reaction toggle; a failure commits nothing; otherwise the bookmark toggle |
| Quotes.SaveFlips | api/v1/tasks/quotes.py:294-307 | after the toggle the pair is bookmarked exactly when it was not before, and the answer says whether it is bookmarked now; no other pair's bookmark and no other table changes |
| Quotes.SaveKeepsValid | api/v1/tasks/quotes.py:294-307 | the bookmark toggle keeps the database valid, so a pair never has two bookmarks |
| Quotes.ToggleSaveKeepsValid | api/v1/tasks/quotes.py:279-307 | every bookmark request leaves a valid database valid |
| Quotes.SaveParity | api/v1/tasks/quotes.py:294-307 | after n toggles of one pair the bookmark exists exactly when it existed before and n is even, or did not and n is odd |
| Quotes.FlipStep | api/v1/tasks/quotes.py:294-307 | one bookmark flip keeps the bookmarks keyed, leaves users and quotes unchanged and negates whether the pair is bookmarked |
| Quotes.ToggleSaveFlips | api/v1/tasks/quotes.py:279-307 | a bookmark request whose actor and quote resolve is one flip of the actor's pair: bookmarks stay keyed, users and quotes are unchanged (so the next identical request passes the same guards) and the pair's bookmark is negated |
| Quotes.FlipsKeepKeyed | api/v1/tasks/quotes.py:294-307 | any number of flips keeps the bookmarks keyed and leaves users and quotes unchanged, so the guards keep passing |
| Quotes.FlipsParity | api/v1/tasks/quotes.py:297-307 | after n flips the pair is bookmarked exactly when its original state differs from the parity of n |
| Quotes.DeleteQuote | api/v1/tasks/quotes.py:142-167 | "User is not registered!" is checked first, then "Quote not found!"; a failure commits nothing; a success is the cascading delete of the quote |
| Quotes.DeleteQuoteAuthorized | api/v1/tasks/quotes.py:154-166 | once both are found, deletion succeeds exactly when the actor owns the quote and holds the admin role, and otherwise answers 400 "Insufficient permissions!" with nothing changed; a success removes the quote and its dependent rows and nothing else |
| Quotes.DeleteQuoteKeepsValid | api/v1/tasks/quotes.py:142-167 | every deletion request leaves a valid database valid |
| Quotes.CreateQuote | api/v1/tasks/quotes.py:51-106 | fails exactly when the actor cannot be resolved; webhooks are notified exactly when notification is requested and some webhook is registered |
| Quotes.CreateQuoteAppends | api/v1/tasks/quotes.py:62-80 | a success appends one quote with a fresh id, the text and the actor's id; the answer is its anonymous view with zero counts; every webhook is notified when notification is requested, none otherwise |
| Quotes.CreateQuoteKeepsValid | api/v1/tasks/quotes.py:51-80 | creating a quote keeps the database valid |
| Quotes.CreateComment | api/v1/tasks/quotes.py:207-223 | an empty comment is refused first, then an empty token, then an unregistered actor, each with its own message and nothing committed |
| Quotes.CreateCommentAppends | api/v1/tasks/quotes.py:225-236 | with every guard passed and the quote present, exactly one comment with a fresh id, the actor, the quote and the request time is appended and returned, and the database stays valid; a missing quote makes the database refuse the insert and nothing is committed |
| Quotes.Present | api/v1/models/models.py:55-69 | a view is always of the given quote; the anonymous viewer gets the anonymous view; a signed viewer with an `id` gets the personal view for that id; a signed viewer without one fails with the missing key `id` exactly when the quote has a bookmark or a reaction to compare, and otherwise gets "not saved, no reaction" |
| Quotes.PresentAll | api/v1/tasks/quotes.py:45-48 | succeeds exactly when every quote's presentation does, and then holds one view per quote in the same order, each the `Present` view of that quote for the same viewer |
| Quotes.PresentAllAnonymous | api/v1/tasks/quotes.py:48 | without a viewer presentation never fails, and each view is the anonymous view of its quote |
| Quotes.GetQuote | api/v1/tasks/quotes.py:127-139 | 404 "Quote not found" exactly when no quote has the id; without a token the answer is the quote's anonymous view; with a found quote a failing token fails the request, and otherwise the answer is the `Present` view for the token's viewer |
| Quotes.GetQuoteSigned | api/v1/tasks/quotes.py:127-139 | a signed viewer whose profile has an id gets whether that id bookmarked the quote and its reaction kind, with every other field as in the anonymous view |
| Quotes.ChronologicalRule | api/v1/tasks/quotes.py:31-41 | the ordered selection is a permutation of the matching quotes; a quote is in it exactly when it exists and matches the search; it is non-increasing in creation time for "descend" and non-decreasing otherwise |
| Quotes.SelectQuotesRule | api/v1/tasks/quotes.py:28-43 | every listed quote exists and matches the search, in creation-time order; with positive page and limit, exactly min(limit, n - (page-1)*limit) consecutive quotes of the n-quote ordering from position (page-1)*limit, or none past its end; otherwise the whole ordering |
| Quotes.TopQuotesRule | api/v1/tasks/quotes.py:109-119 | for a non-negative limit: min(limit, recent) quotes, each recent quote listed at most once per occurrence, all from the last thirty days, by non-increasing reaction count, and no recent quote left out has more reactions than one listed; a negative limit is refused |
| Quotes.GetQuotesAnonymous | api/v1/tasks/quotes.py:43-48 | without a token the listing succeeds and returns the anonymous view of every selected quote in order; the top listing does the same unless the limit is negative |
| Users.UsersOffsetLiteral | api/v1/tasks/users.py:26-27 | the offset as written is page - limit, which equals the quote listing's (page-1)*limit only when limit is 1 |
| Users.SelectUsersRule | api/v1/tasks/users.py:24-34 | a negative offset is refused; otherwise every listed user matches the search, and with paging the listing holds exactly min(limit, n - (page - limit)) consecutive matches of the n matches from position page - limit, or none past their end |
| Users.FirstPageRefused | api/v1/tasks/users.py:27 | page 1 with any limit above 1 gives a negative offset, which the database refuses |
| Users.SelectUsersIntendedRule | api/v1/tasks/users.py:26-27 | with the offset (page-1)*limit, page p holds exactly min(limit, n - (p-1)*limit) consecutive matches of the n matches, or none past their end, and page 1 is the first min(limit, n) matches |
| Users.GetUser | api/v1/tasks/users.py:68-75 | 404 "User not found" exactly when no user has the id as primary key or as Discord id; otherwise the first such user |
| Users.GetUserByUserId | api/v1/tasks/users.py:72-75 | a user is found by its own primary key provided no user's Discord id is the decimal rendering of that key |
| Users.GetUserMatchesDiscordFirst | api/v1/tasks/users.py:72-75 | in a table with unique ids and unique Discord ids, looking up id 5 returns an earlier user whose Discord id is "5" rather than the user with id 5 |
| Users.DeleteMe | api/v1/tasks/users.py:49-65 | an unregistered actor gets 404 "User not found!" and nothing changes; otherwise the answer is the user's dump and the new state is the cascade deletion of that user |
| Users.DeleteMeRemoves | api/v1/tasks/users.py:56-65 | the dump holds the user's fields from before the deletion, without the email address; afterwards no user has the Discord id and the other users remain; a quote, webhook or role link remains exactly when another user owns it, and a reaction, bookmark or comment exactly when another user made it on a quote that user does not own; roles are unchanged |
| Users.DeleteMeKeepsValid | api/v1/tasks/users.py:49-65 | deleting oneself keeps the database valid |
| Users.DeleteMeTwice | api/v1/tasks/users.py:56-59 | a second deletion with the same token answers 404 "User not found!" |
| Users.UserQuotesSortedRule | api/v1/tasks/users.py:88-92 | the sorted list is a permutation of the user's quotes, ascending in creation time for "ascend" and descending for anything else |
| Users.GetUserQuotesRule | api/v1/tasks/users.py:78-97 | 404 "User not found!" exactly when no user has the id; without a token, the anonymous views of the user's quotes in sorted order |
| Users.SortByCreatedAt | api/v1/tasks/users.py:89-92 | the array ends ordered by creation time in the requested direction and holds the same quotes as before |
| Users.SortedUserQuotes | api/v1/tasks/users.py:84-92 | 404 exactly when the user is missing; otherwise a permutation of the user's quotes in the order the request asks for |
| Users.SavedView | api/v1/tasks/users.py:125-126 | a view is of the bookmarked quote; a bookmark whose quote is gone fails; a present quote gets its `Present` view for the viewer, which for an anonymous viewer succeeds |
| Users.PresentSaved | api/v1/tasks/users.py:121-126 | succeeds exactly when every bookmark's view does; then one view per bookmark, in bookmark order |
| Users.GetUserSavedQuotesRule | api/v1/tasks/users.py:116-126 | in a valid database and without a token, one anonymous view per bookmark of the user, each of the bookmarked quote |
| Users.WebhookRegistrationFails | api/v1/tasks/users.py:145 | as written, webhook registration always fails with an uncaught missing-attribute error and changes nothing |
| Users.CreateWebhook | api/v1/tasks/users.py:139-163 | with the webhook redirect exchanged: 404 "Webhook not found!" when the response has no webhook, 404 "User not found!" when the descriptor, access token and profile id are present but no user has that Discord id, nothing committed on failure, and success answers the signed token response |
| Users.CreateWebhookAppends | api/v1/tasks/users.py:146-163 | a success appends exactly one webhook with a fresh id for the actor, with the descriptor's id and token, and returns the signed response |
| Users.DeleteWebhook | api/v1/tasks/users.py:165-180 | "User not found!" comes before "Webhook not found!"; a failure commits nothing; a success removes the webhook with that id |
| Users.DeleteWebhookAnyOwner | api/v1/tasks/users.py:175-180 | any registered actor deletes a webhook that exists, whoever owns it, and only that row goes |
| Login.Authorize | api/v1/tasks/main.py:14-52 | 400 "Invalid authorization code" without an access token, then 400 "Invalid user information" without a profile id; a profile key the handler reads but the response lacks is an uncaught missing key, and a null value is refused at the commit; success exactly when the token, the id and all three profile values are present, with the signed response as the token; only the users table and the counter change |
| Login.MissingKeyOf | api/v1/tasks/main.py:36-47 | no key is reported missing exactly when the profile has `email`, `global_name` and `avatar` entries, null or not; otherwise the key reported is the first absent one in the order `email`, `global_name`, `avatar` for a new user and in the reverse order for an existing user |
| Login.AuthorizeChecksCodeFirst | api/v1/tasks/main.py:25-27 | a response without an access token is refused without the profile being consulted |
| Login.AuthorizeInserts | api/v1/tasks/main.py:36-43 | a first login appends one user with a fresh id, the Discord id and the profile's email, name and avatar |
| Login.AuthorizeOverwrites | api/v1/tasks/main.py:44-47 | a returning user's row keeps its place, id and creation time and takes the profile's avatar, name and email |
| Login.AuthorizeKeepsValid | api/v1/tasks/main.py:34-50 | login keeps the database valid and leaves exactly one user with the Discord id |
| Session.Store.HasAdminRole | api/v1/tasks/quotes.py:158-161 | the loop over the role rows yields true exactly when one of the user's roles is named "admin" |
| Session.Store.ToggleReact | api/v1/tasks/quotes.py:239-276 | the store ends in the toggle's database and the method returns the toggle's answer |
| Session.Store.ToggleSave | api/v1/tasks/quotes.py:279-307 | the store ends in the bookmark toggle's database and the method returns its answer |
| Session.Store.DeleteQuote | api/v1/tasks/quotes.py:142-167 | the store ends in the deletion's database and the method returns its answer |
| Session.Store.CreateQuote | api/v1/tasks/quotes.py:51-106 | the store ends in the creation's database and the method returns its answer |
| Session.Store.CreateComment | api/v1/tasks/quotes.py:207-236 | the store ends in the comment creation's database and the method returns its answer |
| Session.Store.DeleteMe | api/v1/tasks/users.py:49-65 | the store ends in the self-deletion's database and the method returns its answer |
| Session.Store.CreateWebhook | api/v1/tasks/users.py:139-163 | the store ends in the webhook registration's database and the method returns its answer |
| Session.Store.DeleteWebhook | api/v1/tasks/users.py:165-180 | the store ends in the webhook deletion's database and the method returns its answer |
| Session.Store.Authorize | api/v1/tasks/main.py:14-52 | the store ends in the login's database and the method returns its answer |

## Left out

- Network and cryptography: the Discord token exchange, the profile request and the JWT codec are `Gateway` parameters. Replies that are error-shaped are modelled: a missing `access_token`, `id` or `webhook`, and absent or null profile fields. Calls that raise are not modelled: a connection error, or a body that is not JSON. Their internals, expiry and clocks are not modelled either. The current time is a parameter.
- Webhook delivery in `_create_quote`: the model names which webhooks would be posted to. Building the messages and sending them is not modelled.
- Concurrency and transactions: each request runs alone and commits at its end. A failure before the commit leaves the database as it was.
- Quotes.DeleteQuote: Python's `is not` compares object identity. The model compares the two ids as values, which is what CPython does for small integers.
- Search: SQL `LIKE '%s%'` is modelled as a case-sensitive substring test. Wildcard characters inside the search text and collation-dependent case folding are not modelled.
- Ordering: rows with equal creation times or equal reaction counts keep their insertion order (a stable sort). The database does not promise any order for ties.
- Negative `LIMIT` or `OFFSET` values are modelled as a rejection by the database, answered with 500.
- Users.GetUser: the model matches the Discord id against the decimal spelling of the integer id. The database's comparison of a string column with an integer is looser; for example, leading zeros also match.
- Admin check: a role row whose role is missing is read as "not admin". The schema's foreign keys rule such a row out in a valid database.
- Login.Authorize: a null `email`, `global_name` or `avatar` is modelled as a commit the database refuses. This assumes the columns are NOT NULL, because api/v1/models/models.py declares them as plain `str`. The schema's DDL is not part of this model.
- Views.FormattedQuote: an empty profile object is falsy in the source, so a signed viewer with such a profile gets the anonymous view. The model's `Profile` records only the four keys the handlers read, so it cannot tell an empty object from one that lacks just those keys; a signed viewer always gets the personal view.
- Reaction and bookmark lookups: when the user row behind a reaction or bookmark is missing, the model reads it as "no match". The source raises there instead. This happens only outside `Models.Valid`.
- Quotes.ToggleReact: the reaction insert as written leaves the required `created_at` empty. Under the same NOT NULL reading as for login, that commit is refused; `Quotes.ReactAsWritten` models it so and "## Findings" records it. The rest of the model uses the intended insert, `Quotes.React`. The reaction row does not record `created_at`, so the value the intended insert would store is not modelled.
- Quotes.TopQuotesRule: the rule is stated for the outer join's count of reactions per quote. How the database evaluates `GROUP BY` is not modelled.
- Session.Store: the methods state that they reach the handler function's state, not `Valid()` itself. Validity follows from the `KeepsValid` lemmas about those functions.
- Users.SortByCreatedAt: the contract states order and permutation but not stability. Python's sort is stable. So `Users.SortedUserQuotes` and `Users.UserQuotesSorted` are not shown to agree on the order of quotes with equal creation times.
- Comment threading, `_get_me`, `_get_user_reactions`, `_get_user_roles`, `_get_webhooks`, `_is_quote_saved`, `_get_quote_reactions`, `_get_quote_comments`, roles management, the HTTP routers and configuration are not part of this model.

## Findings

| source | as written | input that shows it | evidently intended | confidence | as-written member | corrected member |
|---|---|---|---|---|---|---|
| api/v1/tasks/users.py:145 | the webhook code is exchanged with `dc_handler.redirect_uri_webhook`, an attribute the Discord handler does not define, through a two-argument call its exchange method does not accept | any authorization code | exchange the code with the webhook redirect, then register the returned webhook | not executed | Users.WebhookRegistrationFails | Users.CreateWebhookAppends |
| api/v1/tasks/quotes.py:271-273 | the reaction row is built without `created_at`, a `datetime` column declared required (api/v1/models/models.py:127-130), so the commit stores nothing in a NOT NULL column | a signed-in user's first reaction on any quote | the row is committed with a creation time and the request answers true | not executed | Quotes.FirstReactionRefused | Quotes.ReactInserts |
| api/v1/tasks/users.py:27 | the offset is `page - 1 * limit`, that is page - limit | page 1, limit 10: offset -9, refused by the database | offset (page - 1) * limit, as the quote listing computes it | not executed | Users.FirstPageRefused | Users.SelectUsersIntendedRule |

The users listing, `Users.GetUsers`, keeps the offset as written. `Users.SelectUsersIntended` is the corrected query, with its properties proved beside it.

/** The upstream identity provider and the session codec, seen from the core.
    The OAuth2 token exchange (section 4.1 of RFC 6749), the profile request
    and the HS256 JSON Web Token codec (RFC 7519) are foreign calls; the model
    takes them as function-valued parameters, so every property proved below
    holds whatever those calls return. */
module Identity {
  import opened Common

  /** The webhook descriptor the webhook authorization flow adds to the token response. */
  datatype WebhookDescriptor = WebhookDescriptor(id: string, token: string)

  /** The body of the provider's token response; a dictionary whose
      `access_token` key may be missing (the provider's error reply). */
  datatype AccessResponse = AccessResponse(
    accessToken: Option<string>,
    tokenType: string,
    expiresIn: int,
    refreshToken: string,
    scope: string,
    webhook: Option<WebhookDescriptor>)

  /** An entry of the provider's user object: the key may be absent, or
      present with a null value (the provider sends null for a user without
      a global name or a custom avatar), or present with text. */
  datatype Entry = Absent | Null | Text(text: string)

  /** The part of the provider's user object the core reads; `id` may be missing. */
  datatype Profile = Profile(id: Option<string>, email: Entry, globalName: Entry, avatar: Entry)

  /** The foreign calls, each one deterministic from the core's point of view. */
  datatype Gateway = Gateway(
    exchange: string -> AccessResponse,         // token request for the login redirect
    exchangeWebhook: string -> AccessResponse,  // token request for the webhook redirect
    profile: string -> Profile,                 // GET /users/@me with the bearer token
    encode: AccessResponse -> string,           // signs the response with the server key
    decode: string -> Option<AccessResponse>)   // verifies a token; None when verification fails

  /** The Discord identity behind a session token, as every token-taking task
      derives it: decode the token, read its `access_token`, fetch the
      profile, read its `id`. Each failure is an uncaught exception. */
  function ActorId(gw: Gateway, token: string): (r: Result<string>)
    ensures r.Ok? <==>
      && gw.decode(token).Some?
      && gw.decode(token).value.accessToken.Some?
      && gw.profile(gw.decode(token).value.accessToken.value).id.Some?
    ensures r.Ok? ==> r.value == gw.profile(gw.decode(token).value.accessToken.value).id.value
    ensures r.Err? ==> r.error.Status() == 500
  {
    match gw.decode(token)
    case None => Err(Unhandled(InvalidToken))
    case Some(access) =>
      match access.accessToken
      case None => Err(Unhandled(MissingKey("access_token")))
      case Some(bearer) =>
        match gw.profile(bearer).id
        case None => Err(Unhandled(MissingKey("id")))
        case Some(id) => Ok(id)
  }

  /** Who is looking at a listing: nobody when no token is sent, otherwise the
      profile the token leads to. */
  datatype Viewer = Anonymous | Signed(profile: Profile)

  /** An empty token means an anonymous viewer; any other token is decoded and its profile fetched. */
  function ViewerFor(gw: Gateway, token: string): (r: Result<Viewer>)
    ensures token == "" <==> r == Ok(Anonymous)
    ensures r.Ok? && token != "" ==>
      && gw.decode(token).Some?
      && gw.decode(token).value.accessToken.Some?
      && r.value == Signed(gw.profile(gw.decode(token).value.accessToken.value))
    ensures token != "" ==>
      (r.Ok? <==> gw.decode(token).Some? && gw.decode(token).value.accessToken.Some?)
    ensures r.Err? ==> r.error.Status() == 500
  {
    if token == "" then Ok(Anonymous)
    else
      match gw.decode(token)
      case None => Err(Unhandled(InvalidToken))
      case Some(access) =>
        match access.accessToken
        case None => Err(Unhandled(MissingKey("access_token")))
        case Some(bearer) => Ok(Signed(gw.profile(bearer)))
  }
}

/**
 * The token gate in front of every credential API action
 * (app/controllers/api/v1/base_controller.rb).
 *
 * A token travels as text. Signing is abstract: a `Codec` turns a token into its text and
 * text back into a token; text the verifier did not produce decodes to a `Forged` token.
 */
module ApiBase {
  import opened Wrappers
  import opened Text
  import opened Accounts
  import opened Http

  /** The token text encoding; `decode` stands for the message verifier's parsing. */
  datatype Codec = Codec(encode: Token -> string, decode: string -> Token)

  /** Token text round-trips and is a single word (base64 with a separator, in practice). */
  ghost predicate ValidCodec(c: Codec) {
    forall t :: c.decode(c.encode(t)) == t && c.encode(t) != [] && NoSpace(c.encode(t))
  }

  /** `request.headers["Authorization"]&.split(" ")&.last`: the scheme word is never checked. */
  function BearerToken(authorization: Option<string>): (r: Option<string>)
    ensures r.None? <==> authorization.None? || AllSpace(authorization.value)
    ensures r.Some? ==> r.value != [] && NoSpace(r.value)
  {
    match authorization
    case None => None
    case Some(h) => LastWord(h)
  }

  /** `render_unauthorized`. */
  function RenderUnauthorized(): (r: Response)
    ensures r.status == StatusUnauthorized && r.body == ErrorBody("Unauthorized")
  {
    Response(401, ErrorBody("Unauthorized"))
  }

  /** `render_error(message, status: :unprocessable_entity)`. */
  function RenderError(message: string, status: Option<nat>): (r: Response)
    ensures r.body == ErrorBody(message)
    ensures status.None? ==> r.status == StatusUnprocessable
    ensures status.Some? ==> r.status == status.value
  {
    Response(match status case None => 422 case Some(s) => s, ErrorBody(message))
  }

  /** What the before-action decides: halt with a response, or go on as this user. */
  datatype GateResult = Halt(response: Response) | Pass(user: User)

  /** `authenticate_token!` as a decision. */
  function Gate(authorization: Option<string>, users: UserTable, now: int, codec: Codec): (g: GateResult)
    ensures g.Halt? ==> g.response == RenderUnauthorized()
    ensures g.Pass? <==>
      BearerToken(authorization).Some? &&
      FindByApiToken(codec.decode(BearerToken(authorization).value), users, now).Some?
    ensures g.Pass? ==> g.user == FindByApiToken(codec.decode(BearerToken(authorization).value), users, now).value
  {
    match BearerToken(authorization)
    case None => Halt(RenderUnauthorized())
    case Some(text) =>
      match FindByApiToken(codec.decode(text), users, now)
      case None => Halt(RenderUnauthorized())
      case Some(u) => Pass(u)
  }

  /** The state of one API request as the controller holds it. */
  class ApiRequest {
    const authorization: Option<string>
    /** `@current_user`. */
    var currentUser: Option<User>
    /** The response rendered so far; once set, no action runs. */
    var rendered: Option<Response>

    constructor (authorization: Option<string>)
      ensures this.authorization == authorization && currentUser == None && rendered == None
    {
      this.authorization := authorization;
      currentUser, rendered := None, None;
    }

    /** `authenticate_token!`: set `@current_user` and render 401 when it is nil. */
    method AuthenticateToken(users: UserTable, now: int, codec: Codec)
      requires rendered == None && currentUser == None
      modifies this
      ensures rendered.None? <==> Gate(authorization, users, now, codec).Pass?
      ensures rendered.Some? ==> rendered.value == RenderUnauthorized() && currentUser == None
      ensures rendered.None? ==> currentUser == Some(Gate(authorization, users, now, codec).user)
    {
      var token := BearerToken(authorization);
      if token.None? {
        rendered := Some(RenderUnauthorized());
        return;
      }
      currentUser := FindByApiToken(codec.decode(token.value), users, now);
      if currentUser.None? {
        rendered := Some(RenderUnauthorized());
      }
    }
  }

  // ---------------------------------------------------------------- lemmas

  /** A header whose last word is a token's text selects that token, whatever scheme precedes it. */
  lemma BearerTokenOfHeader(scheme: string, text: string)
    requires text != [] && NoSpace(text)
    ensures BearerToken(Some(scheme + " " + text)) == Some(text)
    ensures BearerToken(Some(text)) == Some(text)
  {
    LastWordOf(scheme + " ", text, "");
    assert scheme + " " + text + "" == scheme + " " + text;
    LastWordOf("", text, "");
    assert "" + text + "" == text;
  }

  /** A lone `Bearer` is taken as the token text itself. */
  lemma LoneSchemeIsToken()
    ensures BearerToken(Some("Bearer")) == Some("Bearer")
  {
    BearerTokenOfHeader("", "Bearer");
  }

  /** No header, or a blank one, halts with 401 before any action. */
  lemma MissingTokenHalts(authorization: Option<string>, users: UserTable, now: int, codec: Codec)
    requires authorization.None? || AllSpace(authorization.value)
    ensures Gate(authorization, users, now, codec) == Halt(RenderUnauthorized())
  {
  }

  /** A generated API token sent as `Bearer <token>` passes the gate as its user. */
  lemma IssuedTokenPassesGate(u: User, issued: int, users: UserTable, now: int, codec: Codec, scheme: string)
    requires ValidCodec(codec) && IdsUnique(users) && u in users
    ensures Gate(Some(scheme + " " + codec.encode(GenerateApiToken(u, issued))), users, now, codec) == Pass(u)
  {
    var text := codec.encode(GenerateApiToken(u, issued));
    BearerTokenOfHeader(scheme, text);
    ApiTokenResolves(users, u, issued, now);
  }
}

/**
 * Login and logout of the extension's API session (app/controllers/api/v1/auth_controller.rb).
 * Neither action is behind the token gate: the controller derives from the framework's API
 * controller, not from the gated base controller, so neither takes the gate's decision.
 */
module ApiAuth {
  import opened Wrappers
  import opened Text
  import opened Accounts
  import opened Http
  import opened ApiBase
  import Store

  /** The one message every failed login gets. */
  const InvalidLogin := "Invalid email or password"

  /**
   * `User.authenticate_by(email_address:, password:)`: nil when the password is missing or
   * empty, otherwise the row with the normalised address if the password checks out.
   */
  function AuthenticateBy(email: Option<string>, password: Option<string>, users: UserTable,
                          hash: Hasher): (r: Option<User>)
    ensures r.Some? ==> r.value in users && password.Some? && password.value != []
    ensures r.Some? ==> email.Some? && r.value.email == NormalizeEmail(email.value)
    ensures r.Some? ==> Authenticates(r.value, password.value, hash)
  {
    if password.None? || password.value == [] || email.None? then None
    else match FindByEmail(users, NormalizeEmail(email.value))
      case None => None
      case Some(u) => if Authenticates(u, password.value, hash) then Some(u) else None
  }

  /** `login`. */
  function Login(email: Option<string>, password: Option<string>, users: UserTable, hash: Hasher,
                 now: int, codec: Codec): (r: Response)
    ensures r.status == StatusOk || r == Response(StatusUnauthorized, ErrorBody(InvalidLogin))
    ensures r.status == StatusOk <==> AuthenticateBy(email, password, users, hash).Some?
    ensures r.status == StatusOk ==> r.body.LoginBody?
  {
    match AuthenticateBy(email, password, users, hash)
    case None => Response(401, ErrorBody(InvalidLogin))
    case Some(u) => Response(200, LoginBody(codec.encode(GenerateApiToken(u, now)), u.id, u.email))
  }

  /** The one answer logout always gives. */
  const LoggedOut := Response(200, MessageBody("Logged out successfully"))

  /** The users table after `logout`: the row the header's token resolves to is touched, if any. */
  function LogoutUsers(authorization: Option<string>, users: UserTable, now: int, codec: Codec): (r: UserTable)
    ensures |r| == |users|
    ensures BearerToken(authorization).None? ==> r == users
    ensures (BearerToken(authorization).Some? &&
             FindByApiToken(codec.decode(BearerToken(authorization).value), users, now).None?) ==> r == users
    ensures BearerToken(authorization).Some? &&
            FindByApiToken(codec.decode(BearerToken(authorization).value), users, now).Some? ==>
      r == Touched(users, FindByApiToken(codec.decode(BearerToken(authorization).value), users, now).value.id, now)
    ensures forall i :: 0 <= i < |users| ==> r[i] == users[i] || r[i] == Touch(users[i], now)
    ensures forall i :: 0 <= i < |users| && r[i] != users[i] ==>
      && BearerToken(authorization).Some?
      && FindByApiToken(codec.decode(BearerToken(authorization).value), users, now).Some?
      && FindByApiToken(codec.decode(BearerToken(authorization).value), users, now).value.id == users[i].id
  {
    match BearerToken(authorization)
    case None => users
    case Some(text) =>
      match FindByApiToken(codec.decode(text), users, now)
      case None => users
      case Some(u) => Touched(users, u.id, now)
  }

  /** `logout`: best-effort invalidation of the caller's token, then success whatever happened. */
  method Logout(db: Store.Database, authorization: Option<string>, now: int, codec: Codec)
    returns (r: Response)
    requires db.Valid()
    modifies db
    ensures db.Valid()
    ensures r == LoggedOut
    ensures db.users == LogoutUsers(authorization, old(db.users), now, codec)
    ensures db.entries == old(db.entries) && db.sessions == old(db.sessions)
  {
    var token := BearerToken(authorization);
    if token.Some? {
      var user := FindByApiToken(codec.decode(token.value), db.users, now);
      if user.Some? {
        db.InvalidateApiToken(user.value.id, now);
      }
    }
    r := LoggedOut;
  }

  // ---------------------------------------------------------------- lemmas

  /**
   * With unique e-mail addresses, login succeeds exactly when the password is non-empty and some
   * row carries the normalised address and accepts the password; the body names that row.
   */
  lemma LoginSucceedsIff(email: Option<string>, password: Option<string>, users: UserTable,
                         hash: Hasher, now: int, codec: Codec, u: User)
    requires IdsUnique(users) && EmailsUnique(users) && u in users
    ensures Login(email, password, users, hash, now, codec).status == StatusOk &&
            Login(email, password, users, hash, now, codec).body.userId == u.id
      <==>
            email.Some? && u.email == NormalizeEmail(email.value) &&
            password.Some? && password.value != [] && Authenticates(u, password.value, hash)
  {
    if email.Some? && u.email == NormalizeEmail(email.value) {
      FindByEmailOfRow(users, u);
    }
    var r := AuthenticateBy(email, password, users, hash);
    if r.Some? && r.value.id == u.id {
      SameIdSameRow(users, r.value, u);
    }
  }

  /** With unique addresses, looking up a row's address finds that row. */
  lemma FindByEmailOfRow(users: UserTable, u: User)
    requires EmailsUnique(users) && u in users
    ensures FindByEmail(users, u.email) == Some(u)
  {
    var k :| 0 <= k < |users| && users[k] == u;
    var f := Tables.FirstIndex(users, (v: User) => v.email == u.email);
    assert f.Some? && f.value <= k;
    assert users[f.value] == u;
  }

  /** With unique ids, two rows with the same id are the same row. */
  lemma SameIdSameRow(users: UserTable, u: User, v: User)
    requires IdsUnique(users) && u in users && v in users && u.id == v.id
    ensures u == v
  {
    var i :| 0 <= i < |users| && users[i] == u;
    var j :| 0 <= j < |users| && users[j] == v;
    assert i == j;
  }

  /** Every failed login, unknown address or wrong password alike, gets the identical answer. */
  lemma LoginFailuresIndistinguishable(e1: Option<string>, p1: Option<string>, e2: Option<string>,
                                       p2: Option<string>, users: UserTable, hash: Hasher, now: int, codec: Codec)
    requires Login(e1, p1, users, hash, now, codec).status != StatusOk
    requires Login(e2, p2, users, hash, now, codec).status != StatusOk
    ensures Login(e1, p1, users, hash, now, codec) == Login(e2, p2, users, hash, now, codec)
  {
  }

  /**
   * Addresses that differ only in case or surrounding whitespace log in the same way (for case
   * alone, `NormalizeIgnoresCase` gives the requirement).
   */
  lemma LoginIgnoresAddressCase(e1: string, e2: string, password: Option<string>, users: UserTable,
                                hash: Hasher, now: int, codec: Codec)
    requires Lower(Strip(e1)) == Lower(Strip(e2))
    ensures Login(Some(e1), password, users, hash, now, codec) == Login(Some(e2), password, users, hash, now, codec)
  {
    assert NormalizeEmail(e1) == NormalizeEmail(e2);
  }

  /** The token a successful login returns passes the gate, as the user who logged in. */
  lemma LoginTokenPassesGate(email: Option<string>, password: Option<string>, users: UserTable,
                             hash: Hasher, now: int, codec: Codec, later: int)
    requires ValidCodec(codec) && IdsUnique(users)
    requires Login(email, password, users, hash, now, codec).status == StatusOk
    ensures var b := Login(email, password, users, hash, now, codec).body;
      var g := Gate(Some("Bearer " + b.token), users, later, codec);
      g.Pass? && g.user.id == b.userId && g.user.email == b.email
  {
    var u := AuthenticateBy(email, password, users, hash).value;
    assert Login(email, password, users, hash, now, codec).body
      == LoginBody(codec.encode(GenerateApiToken(u, now)), u.id, u.email);
    assert "Bearer" + " " == "Bearer ";
    IssuedTokenPassesGate(u, now, users, later, codec, "Bearer");
  }

  /**
   * Logging out does not revoke the token: as declared, the API token binds only the id, so the
   * token sent to logout still passes the gate afterwards.
   */
  lemma LogoutKeepsTokenValid(u: User, issued: int, users: UserTable, now: int, later: int, codec: Codec)
    requires ValidCodec(codec) && IdsUnique(users) && u in users
    ensures var header := Some("Bearer " + codec.encode(GenerateApiToken(u, issued)));
      Gate(header, LogoutUsers(header, users, now, codec), later, codec) == Pass(Touch(u, now))
  {
    var text := codec.encode(GenerateApiToken(u, issued));
    var header := Some("Bearer " + text);
    BearerTokenOfHeader("Bearer", text);
    assert "Bearer" + " " == "Bearer ";
    assert codec.decode(text) == GenerateApiToken(u, issued);
    ApiTokenResolves(users, u, issued, now);
    assert LogoutUsers(header, users, now, codec) == Touched(users, u.id, now);
    TouchKeepsApiToken(users, u, issued, now, later);
  }
}

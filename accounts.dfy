/**
 * The account record and its rules: e-mail normalisation, validations, the password
 * check, and the two kinds of signed token an account issues (app/models/user.rb).
 *
 * Tokens follow the framework's `generates_token_for`: a token carries a purpose, an
 * optional expiry and a payload `[id]` or `[id, value]`, where the value is computed from
 * the record by the definition's block. Resolving a token verifies signature, purpose and
 * expiry, loads the record by id and re-derives the payload from the record as it is now;
 * the token resolves only if the two payloads are equal. Signing itself is abstract: a
 * `Signed` token is one the server produced, anything else is `Forged`.
 */
module Accounts {
  import opened Wrappers
  import opened Text
  import Tables

  type UserId = nat

  /** A BCrypt digest as stored in `password_digest`: the salt and the checksum. */
  datatype Digest = Digest(salt: string, checksum: string)

  /** A row of the users table; `email` is stored normalised. */
  datatype User = User(id: UserId, email: string, digest: Option<Digest>, updatedAt: int)

  /** BCrypt's hashing of a password under a salt: a parameter of the model, not modelled. */
  type Hasher = (string, string) -> string

  /** The users table, in primary-key order. */
  type UserTable = seq<User>

  predicate IdsUnique(t: UserTable) {
    forall i, j :: 0 <= i < j < |t| ==> t[i].id != t[j].id
  }

  predicate EmailsUnique(t: UserTable) {
    forall i, j :: 0 <= i < j < |t| ==> t[i].email != t[j].email
  }

  function FindById(t: UserTable, id: UserId): Option<User> {
    Tables.FindFirst(t, (u: User) => u.id == id)
  }

  function FindByEmail(t: UserTable, email: string): Option<User> {
    Tables.FindFirst(t, (u: User) => u.email == email)
  }

  /** `password_salt` of `has_secure_password`: the salt of the digest, nil without one. */
  function PasswordSalt(u: User): (r: Option<string>)
    ensures r.None? <==> u.digest.None?
    ensures r.Some? ==> r.value == u.digest.value.salt
  {
    match u.digest
    case None => None
    case Some(d) => Some(d.salt)
  }

  /** `authenticate_password`: the password hashes, under the stored salt, to the stored checksum. */
  predicate Authenticates(u: User, password: string, hash: Hasher) {
    u.digest.Some? && hash(u.digest.value.salt, password) == u.digest.value.checksum
  }

  // ------------------------------------------------------------ normalisation

  /** A stored address: no strippable whitespace at either end, and no upper-case letter. */
  predicate IsNormalEmail(e: string) {
    && (e == [] || (!IsStripSpace(e[0]) && !IsStripSpace(e[|e| - 1])))
    && (forall i :: 0 <= i < |e| ==> !IsUpperChar(e[i]))
  }

  /**
   * `normalizes :email_address` (strip, then downcase): the input without its surrounding
   * whitespace, lower-cased; an address already in that form is kept as it is.
   */
  function NormalizeEmail(e: string): (r: string)
    ensures exists s :: IsStripOf(s, e) && r == Lower(s)
    ensures IsNormalEmail(r)
    ensures IsNormalEmail(e) ==> r == e
    ensures |r| <= |e|
  {
    NormalizeFacts(e);
    Lower(Strip(e))
  }

  lemma NormalizeFacts(e: string)
    ensures IsStripOf(Strip(e), e)
    ensures IsNormalEmail(Lower(Strip(e)))
    ensures IsNormalEmail(e) ==> Lower(Strip(e)) == e
  {
    StripIsStripOf(e);
    var a: nat :| StripsAt(Strip(e), e, a);
    LowerIsNormal(Strip(e));
    if IsNormalEmail(e) {
      StripStripped(e);
      LowerNoUpperIff(e);
    }
  }

  /** Lower-casing a string with no strippable whitespace at its ends gives a stored address. */
  lemma LowerIsNormal(x: string)
    requires x == [] || (!IsStripSpace(x[0]) && !IsStripSpace(x[|x| - 1]))
    ensures IsNormalEmail(Lower(x))
  {
    LowerKeepsSpace(x);
  }

  /** Normalising an already normalised address changes nothing. */
  lemma NormalizeIdempotent(e: string)
    ensures NormalizeEmail(NormalizeEmail(e)) == NormalizeEmail(e)
  {
    var n := NormalizeEmail(e);
    StripStripped(n);
    LowerIdempotent(Strip(e));
  }

  /** Two addresses that differ only in letter case normalise to the same address. */
  lemma NormalizeIgnoresCase(a: string, b: string)
    requires Lower(a) == Lower(b)
    ensures NormalizeEmail(a) == NormalizeEmail(b)
  {
    StripLower(a);
    StripLower(b);
  }

  // ------------------------------------------------------------ validations

  datatype AccountError = EmailBlank | EmailTaken | EmailMalformed | PasswordTooShort

  const MinPasswordLength: nat := 8

  /**
   * The errors validation reports for account `id` given the e-mail as assigned (normalised on
   * assignment) and the new password (nil when it is not being changed), against the table.
   * `isEmail` stands for the e-mail format regular expression.
   */
  function AccountErrors(id: UserId, email: Option<string>, password: Option<string>,
                         table: UserTable, isEmail: string -> bool): (r: set<AccountError>)
    ensures EmailBlank in r <==> IsBlank(StoredEmail(email))
    ensures EmailTaken in r <==> email.Some? && EmailUsedByOther(table, id, StoredEmail(email))
    ensures EmailMalformed in r <==> !isEmail(StoredEmail(email))
    ensures PasswordTooShort in r <==> password.Some? && |password.value| < MinPasswordLength
  {
    var stored := StoredEmail(email);
    ErrorSet(IsBlank(stored), email.Some? && EmailUsedByOther(table, id, stored),
             !isEmail(stored), password.Some? && |password.value| < MinPasswordLength)
  }

  /** The set holding exactly the errors whose flag is set. */
  function ErrorSet(blank: bool, taken: bool, malformed: bool, short: bool): (r: set<AccountError>)
    ensures EmailBlank in r <==> blank
    ensures EmailTaken in r <==> taken
    ensures EmailMalformed in r <==> malformed
    ensures PasswordTooShort in r <==> short
  {
    (if blank then {EmailBlank} else {}) + (if taken then {EmailTaken} else {})
      + (if malformed then {EmailMalformed} else {}) + (if short then {PasswordTooShort} else {})
  }

  /** `uniqueness: true`: a row other than the account's own already has the address. */
  predicate EmailUsedByOther(table: UserTable, id: UserId, email: string) {
    exists k :: 0 <= k < |table| && table[k].id != id && table[k].email == email
  }

  /** The address as stored: normalised, and empty when none was given. */
  function StoredEmail(email: Option<string>): string {
    match email
    case None => ""
    case Some(e) => NormalizeEmail(e)
  }

  /**
   * An account is valid exactly when its normalised e-mail is non-empty, used by no other row
   * and well formed, and a password being set has at least eight characters.
   */
  lemma AccountValidIff(id: UserId, email: Option<string>, password: Option<string>,
                        table: UserTable, isEmail: string -> bool)
    ensures AccountErrors(id, email, password, table, isEmail) == {} <==>
      && email.Some?
      && !IsBlank(NormalizeEmail(email.value))
      && (forall k :: 0 <= k < |table| && table[k].id != id ==> table[k].email != NormalizeEmail(email.value))
      && isEmail(NormalizeEmail(email.value))
      && (password.None? || |password.value| >= 8)
  {
    if email.None? {
      assert EmailBlank in AccountErrors(id, email, password, table, isEmail);
    }
  }

  /** Adding a row whose account validates keeps e-mail addresses unique in the table. */
  lemma ValidInsertKeepsEmailsUnique(table: UserTable, id: UserId, email: string, password: Option<string>,
                                     digest: Option<Digest>, now: int, isEmail: string -> bool)
    requires EmailsUnique(table)
    requires AccountErrors(id, Some(email), password, table, isEmail) == {}
    requires forall k :: 0 <= k < |table| ==> table[k].id != id
    ensures EmailsUnique(table + [User(id, NormalizeEmail(email), digest, now)])
  {
    AccountValidIff(id, Some(email), password, table, isEmail);
  }

  // ------------------------------------------------------------ tokens

  datatype Purpose = PasswordReset | ApiAccess

  /** What the definition's block embeds next to the id: nothing, the salt's tail, or `updated_at`. */
  datatype Binding = NoBlock | SaltTail | UpdatedAt

  /** One `generates_token_for` declaration. */
  datatype TokenDef = TokenDef(purpose: Purpose, expiresIn: Option<nat>, binding: Binding)

  /** Fifteen minutes, in seconds: the reset token's lifetime and `password_reset_token_expires_in`. */
  const ResetTokenLifetime: nat := 15 * 60

  /** The password reset token: expires in 15 minutes, bound to the last 10 characters of the salt. */
  const PasswordResetDef := TokenDef(PasswordReset, Some(ResetTokenLifetime), SaltTail)

  /** The API token as declared: no expiry and no block, so its payload is the id alone. */
  const ApiAccessDef := TokenDef(ApiAccess, None, NoBlock)

  /** A value the block embeds, as stored in the payload. */
  datatype Embedded = Salt(tail: Option<string>) | Stamp(at: int)

  /** `[id]` (no block) or `[id, value]`. */
  datatype Payload = Payload(id: UserId, embedded: seq<Embedded>)

  /** A token string: one the server's message verifier signed, or any other string. */
  datatype Token =
    | Signed(purpose: Purpose, expiresIn: Option<nat>, payload: Payload, expiresAt: Option<int>)
    | Forged(text: string)

  datatype TokenError = InvalidSignature | RecordNotFound

  /** The payload a definition derives from a record. */
  function PayloadFor(def: TokenDef, u: User): (p: Payload)
    ensures p.id == u.id
    ensures def.binding.NoBlock? <==> p.embedded == []
  {
    match def.binding
    case NoBlock => Payload(u.id, [])
    case SaltTail =>
      Payload(u.id, [Salt(match PasswordSalt(u) case None => None case Some(s) => Some(LastChars(s, 10)))])
    case UpdatedAt => Payload(u.id, [Stamp(u.updatedAt)])
  }

  /** `generate_token_for`: sign the record's payload, with an expiry `now + expires_in` if any. */
  function Generate(def: TokenDef, u: User, now: int): (t: Token)
    ensures t.Signed? && t.payload.id == u.id
    ensures t.expiresAt.None? <==> def.expiresIn.None?
  {
    Signed(def.purpose, def.expiresIn, PayloadFor(def, u),
           match def.expiresIn case None => None case Some(n) => Some(now + n))
  }

  /** The message verifier: the payload of a genuine, unexpired token signed for this purpose. */
  function Verified(def: TokenDef, t: Token, now: int): (r: Option<Payload>)
    ensures r.Some? <==> t.Signed? && t.purpose == def.purpose && t.expiresIn == def.expiresIn &&
                         (t.expiresAt.None? || now < t.expiresAt.value)
    ensures r.Some? ==> r.value == t.payload
  {
    match t
    case Forged(_) => None
    case Signed(purpose, expiresIn, payload, expiresAt) =>
      if purpose != def.purpose || expiresIn != def.expiresIn then None
      else if expiresAt.Some? && now >= expiresAt.value then None
      else Some(payload)
  }

  /** `find_by_token_for`: the record the token resolves to, or nil; it never raises. */
  function Resolve(def: TokenDef, t: Token, users: UserTable, now: int): (r: Option<User>)
    ensures r.Some? ==> r.value in users && Verified(def, t, now) == Some(PayloadFor(def, r.value))
  {
    match Verified(def, t, now)
    case None => None
    case Some(p) =>
      match FindById(users, p.id)
      case None => None
      case Some(u) => if PayloadFor(def, u) == p then Some(u) else None
  }

  /** `find_by_token_for!`: as `Resolve`, but raising; an unknown id raises `RecordNotFound`. */
  function ResolveStrict(def: TokenDef, t: Token, users: UserTable, now: int): (r: Result<User, TokenError>)
    ensures r.Ok? ==> r.value in users && Verified(def, t, now) == Some(PayloadFor(def, r.value))
    ensures r == Err(RecordNotFound) <==>
      Verified(def, t, now).Some? && FindById(users, Verified(def, t, now).value.id).None?
  {
    match Verified(def, t, now)
    case None => Err(InvalidSignature)
    case Some(p) =>
      match FindById(users, p.id)
      case None => Err(RecordNotFound)
      case Some(u) => if PayloadFor(def, u) == p then Ok(u) else Err(InvalidSignature)
  }

  /** `find_by_api_token`. */
  function FindByApiToken(t: Token, users: UserTable, now: int): (r: Option<User>)
    ensures r.Some? ==> r.value in users && t.Signed? && t.purpose == ApiAccess && t.payload == Payload(r.value.id, [])
  {
    Resolve(ApiAccessDef, t, users, now)
  }

  /** `find_by_password_reset_token!`. */
  function FindByPasswordResetToken(t: Token, users: UserTable, now: int): (r: Result<User, TokenError>)
    ensures r.Ok? ==>
      && r.value in users && t.Signed? && t.purpose == PasswordReset
      && (t.expiresAt.None? || now < t.expiresAt.value) && t.payload == PayloadFor(PasswordResetDef, r.value)
    ensures t.Forged? ==> r == Err(InvalidSignature)
  {
    ResolveStrict(PasswordResetDef, t, users, now)
  }

  /** `generate_api_token!`: a token with no expiry. */
  function GenerateApiToken(u: User, now: int): (t: Token)
    ensures t.Signed? && t.purpose == ApiAccess && t.expiresAt.None? && t.payload == Payload(u.id, [])
  {
    Generate(ApiAccessDef, u, now)
  }

  /** `password_reset_token`: a token that expires 15 minutes after `now`. */
  function PasswordResetToken(u: User, now: int): (t: Token)
    ensures t.Signed? && t.purpose == PasswordReset && t.expiresAt == Some(now + ResetTokenLifetime)
    ensures t.payload.id == u.id && t.payload.embedded == [Salt(
      match u.digest case None => None case Some(d) => Some(LastChars(d.salt, 10)))]
  {
    Generate(PasswordResetDef, u, now)
  }

  /** `touch`: set `updated_at` to the current time. */
  function Touch(u: User, now: int): (v: User)
    ensures v.updatedAt == now
    ensures v.id == u.id && v.email == u.email && v.digest == u.digest
  {
    u.(updatedAt := now)
  }

  /** The users table after touching the row with id `id` (if any); no other row changes. */
  function Touched(t: UserTable, id: UserId, now: int): (r: UserTable)
    ensures |r| == |t|
    ensures forall i :: 0 <= i < |t| ==> r[i] == if t[i].id == id then Touch(t[i], now) else t[i]
  {
    seq(|t|, i requires 0 <= i < |t| => if t[i].id == id then Touch(t[i], now) else t[i])
  }

  // ------------------------------------------------------------ token lemmas

  /** In a table with unique ids, looking up the id of a row finds that row. */
  lemma FindByIdOfRow(t: UserTable, u: User)
    requires IdsUnique(t) && u in t
    ensures FindById(t, u.id) == Some(u)
  {
    var k :| 0 <= k < |t| && t[k] == u;
    var found := Tables.FirstIndex(t, (v: User) => v.id == u.id);
    assert found.Some? && found.value <= k;
  }

  /** A token resolves to the record it was generated for while that record is unchanged and unexpired. */
  lemma GeneratedTokenResolves(def: TokenDef, users: UserTable, u: User, issued: int, now: int)
    requires IdsUnique(users) && u in users
    requires def.expiresIn.None? || now < issued + def.expiresIn.value
    ensures Resolve(def, Generate(def, u, issued), users, now) == Some(u)
    ensures ResolveStrict(def, Generate(def, u, issued), users, now) == Ok(u)
  {
    FindByIdOfRow(users, u);
  }

  /** A token can only ever resolve to a record with the issuing record's id and payload. */
  lemma ResolvesOnlyToIssuer(def: TokenDef, users: UserTable, u: User, issued: int, now: int)
    requires Resolve(def, Generate(def, u, issued), users, now).Some?
    ensures var v := Resolve(def, Generate(def, u, issued), users, now).value;
      v in users && v.id == u.id && PayloadFor(def, v) == PayloadFor(def, u)
  {
    var f := Tables.FirstIndex(users, (v: User) => v.id == u.id);
    assert f.Some?;
  }

  /** `find_by_token_for!` succeeds exactly when `find_by_token_for` does, with the same record. */
  lemma StrictAgreesWithLenient(def: TokenDef, t: Token, users: UserTable, now: int)
    ensures ResolveStrict(def, t, users, now).Ok? <==> Resolve(def, t, users, now).Some?
    ensures Resolve(def, t, users, now).Some? ==>
      ResolveStrict(def, t, users, now).value == Resolve(def, t, users, now).value
    ensures t.Forged? ==> Resolve(def, t, users, now).None? && ResolveStrict(def, t, users, now) == Err(InvalidSignature)
  {
  }

  /** A password reset token is void from 15 minutes after it was issued. */
  lemma ResetTokenExpires(users: UserTable, u: User, issued: int, now: int)
    requires now >= issued + ResetTokenLifetime
    ensures FindByPasswordResetToken(PasswordResetToken(u, issued), users, now) == Err(InvalidSignature)
  {
  }

  /** A password reset token resolves within 15 minutes, while the account's salt is unchanged. */
  lemma ResetTokenValidWindow(users: UserTable, u: User, issued: int, now: int)
    requires IdsUnique(users) && u in users
    requires now < issued + ResetTokenLifetime
    ensures FindByPasswordResetToken(PasswordResetToken(u, issued), users, now) == Ok(u)
  {
    GeneratedTokenResolves(PasswordResetDef, users, u, issued, now);
  }

  /**
   * Changing the password (a new digest whose salt differs in its last 10 characters) voids every
   * reset token issued before the change.
   */
  lemma PasswordChangeVoidsResetToken(users: UserTable, u: User, v: User, issued: int, now: int)
    requires IdsUnique(users) && v in users && v.id == u.id
    requires PasswordSalt(u).Some? && PasswordSalt(v).Some?
    requires LastChars(PasswordSalt(u).value, 10) != LastChars(PasswordSalt(v).value, 10)
    ensures FindByPasswordResetToken(PasswordResetToken(u, issued), users, now).Err?
  {
    FindByIdOfRow(users, v);
    assert PayloadFor(PasswordResetDef, u) != PayloadFor(PasswordResetDef, v) by {
      assert PayloadFor(PasswordResetDef, u).embedded[0] != PayloadFor(PasswordResetDef, v).embedded[0];
    }
  }

  /** An API token never expires: whether and to whom it resolves does not depend on the time. */
  lemma ApiTokenNeverExpires(u: User, issued: int, users: UserTable, now: int, later: int)
    ensures FindByApiToken(GenerateApiToken(u, issued), users, now) == FindByApiToken(GenerateApiToken(u, issued), users, later)
  {
  }

  /** A generated API token resolves to its account, at any time. */
  lemma ApiTokenResolves(users: UserTable, u: User, issued: int, now: int)
    requires IdsUnique(users) && u in users
    ensures FindByApiToken(GenerateApiToken(u, issued), users, now) == Some(u)
  {
    GeneratedTokenResolves(ApiAccessDef, users, u, issued, now);
  }

  /**
   * As declared, an API token binds only the id: it resolves to whatever row now carries that id,
   * whatever else about the row has changed.
   */
  lemma ApiTokenBindsOnlyId(users: UserTable, u: User, v: User, issued: int, now: int)
    requires IdsUnique(users) && v in users && v.id == u.id
    ensures FindByApiToken(GenerateApiToken(u, issued), users, now) == Some(v)
  {
    FindByIdOfRow(users, v);
  }

  lemma TouchedKeepsIds(t: UserTable, id: UserId, now: int)
    requires IdsUnique(t)
    ensures IdsUnique(Touched(t, id, now))
  {
  }

  /**
   * `invalidate_api_token!` as written does not invalidate: after the record is touched, a token
   * issued before still resolves, to the touched record.
   */
  lemma TouchKeepsApiToken(users: UserTable, u: User, issued: int, touchedAt: int, now: int)
    requires IdsUnique(users) && u in users
    ensures FindByApiToken(GenerateApiToken(u, issued), Touched(users, u.id, touchedAt), now)
            == Some(Touch(u, touchedAt))
  {
    var k :| 0 <= k < |users| && users[k] == u;
    var after := Touched(users, u.id, touchedAt);
    assert after[k] == Touch(u, touchedAt);
    TouchedKeepsIds(users, u.id, touchedAt);
    ApiTokenBindsOnlyId(after, u, Touch(u, touchedAt), issued, now);
  }

  /** The API token as the comment describes it: its payload also embeds `updated_at`. */
  const RevocableApiAccessDef := TokenDef(ApiAccess, None, UpdatedAt)

  /** With `updated_at` embedded, a token resolves to its account until the account is touched. */
  lemma RevocableApiTokenResolves(users: UserTable, u: User, issued: int, now: int)
    requires IdsUnique(users) && u in users
    ensures Resolve(RevocableApiAccessDef, Generate(RevocableApiAccessDef, u, issued), users, now) == Some(u)
  {
    GeneratedTokenResolves(RevocableApiAccessDef, users, u, issued, now);
  }

  /** With `updated_at` embedded, touching the account at a new time voids every token issued before. */
  lemma RevocableTouchRevokes(users: UserTable, u: User, issued: int, touchedAt: int, now: int)
    requires IdsUnique(users) && u in users
    requires touchedAt != u.updatedAt
    ensures Resolve(RevocableApiAccessDef, Generate(RevocableApiAccessDef, u, issued),
                    Touched(users, u.id, touchedAt), now) == None
  {
    var k :| 0 <= k < |users| && users[k] == u;
    var after := Touched(users, u.id, touchedAt);
    assert after[k] == Touch(u, touchedAt);
    TouchedKeepsIds(users, u.id, touchedAt);
    FindByIdOfRow(after, Touch(u, touchedAt));
    assert PayloadFor(RevocableApiAccessDef, Touch(u, touchedAt)).embedded[0] == Stamp(touchedAt);
  }
}

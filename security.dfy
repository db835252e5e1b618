/**
 * The authentication helpers of the application: password digests, the
 * access/refresh token pair, the bearer-token gate in front of request
 * handlers, and the login and refresh flows built on them.
 *
 * The primitives the helpers call (UTF-8 encoding, PBKDF2-HMAC-SHA256,
 * base64, the JWT codec) are values of the datatypes `Crypto` and
 * `JwtCodec`; what the proofs assume about them is stated once, as the
 * ghost predicates `Base64RoundTrips` and `DecodesFreshTokens`, and taken
 * as a `requires` by exactly the lemmas that rely on it. The application
 * configuration, the request headers and the clock are explicit parameters.
 */
module Security {

  import opened Wrappers
  import opened Json
  import opened PyStr

  // ---------------------------------------------------------------------
  // Configuration and collaborators
  // ---------------------------------------------------------------------

  /** The configuration keys SECRET_KEY, JWT_ALGORITHM, PWD_HASH_SALT and PWD_HASH_ITERATIONS. */
  datatype Config = Config(
    secretKey: string,
    jwtAlgorithm: string,
    pwdHashSalt: seq<bv8>,
    pwdHashIterations: int)

  /**
   * `str.encode("utf-8")`, `hashlib.pbkdf2_hmac("sha256", password, salt,
   * iterations)`, `base64.b64encode` and `base64.b64decode`.
   */
  datatype Crypto = Crypto(
    utf8: string -> seq<bv8>,
    pbkdf2Sha256: (seq<bv8>, seq<bv8>, int) -> seq<bv8>,
    b64encode: seq<bv8> -> seq<bv8>,
    b64decode: seq<bv8> -> seq<bv8>)

  /** ASSUMPTION about the base64 codec: decoding an encoding gives the bytes back. */
  ghost predicate Base64RoundTrips(crypto: Crypto) {
    forall bytes :: crypto.b64decode(crypto.b64encode(bytes)) == bytes
  }

  /**
   * `jwt.encode(payload, key, algorithm)` and `jwt.decode(token, key,
   * algorithms)` evaluated at time `now` (integer seconds since the epoch);
   * `None` stands for any exception the decoder raises.
   */
  datatype JwtCodec = JwtCodec(
    encode: (Claims, string, string) -> string,
    decode: (string, string, string, int) -> Option<Claims>)

  /** The payload carries an integer `exp` later than `now`. */
  predicate ExpiresAfter(claims: Claims, now: int) {
    "exp" in claims && claims["exp"].JInt? && claims["exp"].i > now
  }

  /**
   * The payload has none of the registered claims other than `exp` that
   * the decoder validates on its own: `aud` (rejected when no audience is
   * passed), `nbf`, `iat`, and the type-checked `sub` and `jti`.
   */
  predicate FreeOfValidatedClaims(claims: Claims) {
    "aud" !in claims && "nbf" !in claims && "iat" !in claims && "sub" !in claims && "jti" !in claims
  }

  /**
   * ASSUMPTION about the JWT codec: a payload signed with a key and an
   * algorithm, free of the other validated claims, and decoded with the
   * same key and algorithm before its `exp`, comes back unchanged.
   */
  ghost predicate DecodesFreshTokens(jwt: JwtCodec) {
    forall claims, key, alg, now ::
      ExpiresAfter(claims, now) && FreeOfValidatedClaims(claims) ==>
        jwt.decode(jwt.encode(claims, key, alg), key, alg, now) == Some(claims)
  }

  /** Everything the helpers read from the application context. */
  datatype Services = Services(config: Config, crypto: Crypto, jwt: JwtCodec)

  // ---------------------------------------------------------------------
  // Password digests
  // ---------------------------------------------------------------------

  /** The PBKDF2-HMAC-SHA256 key of a password under the configured salt and iteration count. */
  function PasswordKey(svc: Services, password: string): seq<bv8> {
    svc.crypto.pbkdf2Sha256(svc.crypto.utf8(password), svc.config.pwdHashSalt, svc.config.pwdHashIterations)
  }

  /** generate_password_digest: the stored form of a password, from which its PBKDF2 key decodes. */
  function GeneratePasswordDigest(svc: Services, password: string): (digest: seq<bv8>)
    ensures Base64RoundTrips(svc.crypto) ==> svc.crypto.b64decode(digest) == PasswordKey(svc, password)
  {
    svc.crypto.b64encode(PasswordKey(svc, password))
  }

  /**
   * compare_passwords: the stored digest matches a candidate password
   * exactly when the digest decodes to the candidate's PBKDF2 key
   * (`hmac.compare_digest` is byte equality; its timing is not modelled).
   */
  function ComparePasswords(svc: Services, passwordHash: seq<bv8>, userPass: string): (same: bool)
    ensures same <==> svc.crypto.b64decode(passwordHash) == PasswordKey(svc, userPass)
  {
    svc.crypto.b64decode(passwordHash) == PasswordKey(svc, userPass)
  }

  /** A digest generated for a password verifies against that password. */
  lemma DigestVerifiesItsPassword(svc: Services, password: string)
    requires Base64RoundTrips(svc.crypto)
    ensures ComparePasswords(svc, GeneratePasswordDigest(svc, password), password)
  {
  }

  /** A digest verifies a candidate exactly when the two passwords have the same PBKDF2 key. */
  lemma DigestVerifiesExactlyKeyCollisions(svc: Services, password: string, candidate: string)
    requires Base64RoundTrips(svc.crypto)
    ensures ComparePasswords(svc, GeneratePasswordDigest(svc, password), candidate)
        <==> PasswordKey(svc, password) == PasswordKey(svc, candidate)
  {
  }

  // ---------------------------------------------------------------------
  // Token issuance
  // ---------------------------------------------------------------------

  const MicrosPerSecond: int := 1_000_000
  /** `timedelta(minutes=30)`, in seconds. */
  const AccessLifetime: int := 30 * 60
  /** `timedelta(days=130)`, in seconds. */
  const RefreshLifetime: int := 130 * 24 * 60 * 60

  /**
   * `calendar.timegm(dt.timetuple())` for a UTC datetime given as
   * microseconds since the epoch: the whole seconds, the fraction dropped
   * (rounded down).
   */
  function Timegm(micros: int): (seconds: int)
    ensures seconds * MicrosPerSecond <= micros < seconds * MicrosPerSecond + MicrosPerSecond
  {
    micros / MicrosPerSecond
  }

  /** The access token's `exp` for a clock reading: its whole seconds plus 30 minutes. */
  function AccessExpiry(nowMicros: int): (exp: int)
    ensures exp == Timegm(nowMicros) + AccessLifetime
  {
    Timegm(nowMicros + AccessLifetime * MicrosPerSecond)
  }

  /** The refresh token's `exp` for a clock reading: its whole seconds plus 130 days. */
  function RefreshExpiry(nowMicros: int): (exp: int)
    ensures exp == Timegm(nowMicros) + RefreshLifetime
  {
    Timegm(nowMicros + RefreshLifetime * MicrosPerSecond)
  }

  /** Read twice in order, the clock gives a refresh expiry that is later than the access expiry by at least 130 days less 30 minutes. */
  lemma RefreshOutlivesAccess(accessAt: int, refreshAt: int)
    requires accessAt <= refreshAt
    ensures RefreshExpiry(refreshAt) - AccessExpiry(accessAt) >= RefreshLifetime - AccessLifetime
  {
    var a, r := Timegm(accessAt), Timegm(refreshAt);
    assert a * MicrosPerSecond < (r + 1) * MicrosPerSecond;
  }

  /** `data` with `exp` set: every other key keeps its value. */
  function WithExpiry(data: Claims, exp: int): (claims: Claims)
    ensures claims.Keys == data.Keys + {"exp"}
    ensures claims["exp"] == JInt(exp)
    ensures forall key :: key in data && key != "exp" ==> claims[key] == data[key]
  {
    data["exp" := JInt(exp)]
  }

  /** The pair generate_token returns. */
  datatype TokenPair = TokenPair(accessToken: string, refreshToken: string)

  /** `jwt.encode` with the configured key and algorithm. */
  function Sign(svc: Services, claims: Claims): string {
    svc.jwt.encode(claims, svc.config.secretKey, svc.config.jwtAlgorithm)
  }

  /** The pair generate_token issues over `data` when the clock reads `accessAt` and then `refreshAt`. */
  function IssueTokens(svc: Services, data: Claims, accessAt: int, refreshAt: int): TokenPair {
    TokenPair(
      Sign(svc, WithExpiry(data, AccessExpiry(accessAt))),
      Sign(svc, WithExpiry(data, RefreshExpiry(refreshAt))))
  }

  /** The two signed payloads agree on every key but `exp`, and there they differ when the expiries do. */
  lemma SignedClaimsDifferOnlyInExp(data: Claims, accessAt: int, refreshAt: int, key: string)
    ensures var access, refresh := WithExpiry(data, AccessExpiry(accessAt)), WithExpiry(data, RefreshExpiry(refreshAt));
      && (key != "exp" ==> (key in access <==> key in refresh) && (key in access ==> access[key] == refresh[key]))
      && (AccessExpiry(accessAt) != RefreshExpiry(refreshAt) ==> access["exp"] != refresh["exp"])
  {
  }

  /** A Python dict that the code updates in place (`data`, `req_json`). */
  class Dict {
    var entries: Claims

    constructor (entries: Claims)
      ensures this.entries == entries
    {
      this.entries := entries;
    }
  }

  /**
   * generate_token: sets `exp` to the first clock reading plus 30 minutes
   * and signs the dict, then overwrites `exp` with the second clock reading
   * plus 130 days and signs it again. The dict is left holding the refresh
   * expiry, every other key unchanged.
   */
  method GenerateToken(svc: Services, data: Dict, accessAt: int, refreshAt: int) returns (tokens: TokenPair)
    modifies data
    ensures tokens == IssueTokens(svc, old(data.entries), accessAt, refreshAt)
    ensures data.entries == WithExpiry(old(data.entries), RefreshExpiry(refreshAt))
  {
    var min30 := accessAt + AccessLifetime * MicrosPerSecond;
    data.entries := data.entries["exp" := JInt(Timegm(min30))];
    var accessToken := svc.jwt.encode(data.entries, svc.config.secretKey, svc.config.jwtAlgorithm);
    var days130 := refreshAt + RefreshLifetime * MicrosPerSecond;
    data.entries := data.entries["exp" := JInt(Timegm(days130))];
    assert data.entries == WithExpiry(old(data.entries), RefreshExpiry(refreshAt));
    var refreshToken := svc.jwt.encode(data.entries, svc.config.secretKey, svc.config.jwtAlgorithm);
    tokens := TokenPair(accessToken, refreshToken);
  }

  // ---------------------------------------------------------------------
  // Token decoding and the access gate
  // ---------------------------------------------------------------------

  /**
   * jwt_decode: the decoded payload, or None (the source's `False`) when
   * the decoder raises; a token that is not a string never decodes.
   */
  function JwtDecode(svc: Services, token: Value, now: int): (decoded: Option<Claims>)
    ensures decoded.Some? ==> token.JStr?
  {
    if token.JStr? then svc.jwt.decode(token.s, svc.config.secretKey, svc.config.jwtAlgorithm, now)
    else None
  }

  /** Python truthiness of jwt_decode's result: `False` and an empty payload are falsy. */
  predicate IsTruthy(decoded: Option<Claims>) {
    decoded.Some? && decoded.value != map[]
  }

  /** Both tokens of a pair decode, before their expiry, to the payload that was signed. */
  lemma IssuedTokensDecode(svc: Services, data: Claims, accessAt: int, refreshAt: int, now: int)
    requires DecodesFreshTokens(svc.jwt) && FreeOfValidatedClaims(data)
    ensures var tokens := IssueTokens(svc, data, accessAt, refreshAt);
      && (now < AccessExpiry(accessAt) ==>
            JwtDecode(svc, JStr(tokens.accessToken), now) == Some(WithExpiry(data, AccessExpiry(accessAt))))
      && (now < RefreshExpiry(refreshAt) ==>
            JwtDecode(svc, JStr(tokens.refreshToken), now) == Some(WithExpiry(data, RefreshExpiry(refreshAt))))
  {
    var key, alg := svc.config.secretKey, svc.config.jwtAlgorithm;
    var access, refresh := WithExpiry(data, AccessExpiry(accessAt)), WithExpiry(data, RefreshExpiry(refreshAt));
    if now < AccessExpiry(accessAt) {
      assert ExpiresAfter(access, now);
      assert svc.jwt.decode(svc.jwt.encode(access, key, alg), key, alg, now) == Some(access);
    }
    if now < RefreshExpiry(refreshAt) {
      assert ExpiresAfter(refresh, now);
      assert svc.jwt.decode(svc.jwt.encode(refresh, key, alg), key, alg, now) == Some(refresh);
    }
  }

  const Bearer: string := "Bearer "
  const AuthorizationHeader: string := "Authorization"

  /** `header.split("Bearer ")[-1]`: the token auth_check hands to jwt_decode. */
  function BearerToken(header: string): (token: string)
    ensures |token| <= |header| && token == header[|header| - |token|..]
  {
    var pieces := Split(header, Bearer);
    LastPieceStartsAtLastCut(header, Bearer, 0);
    pieces[|pieces| - 1]
  }

  /** "Bearer " has no second "B", so two occurrences of it never overlap. */
  lemma BearerHeadUnique()
    ensures HeadUnique(Bearer)
  {
  }

  /**
   * The bearer token is the text after the LAST "Bearer " in the header, or
   * the whole header when "Bearer " does not occur; it never contains
   * "Bearer " itself.
   */
  lemma BearerTokenFollowsLastBearer(header: string)
    ensures !Contains(BearerToken(header), Bearer)
    ensures !Contains(header, Bearer) ==> BearerToken(header) == header
    ensures Contains(header, Bearer) ==>
      var i := |header| - |BearerToken(header)| - |Bearer|;
      && OccursAt(header, Bearer, i)
      && header[i + |Bearer|..] == BearerToken(header)
      && forall k :: OccursAt(header, Bearer, k) ==> k <= i
  {
    BearerHeadUnique();
    SplitLastHasNoSeparator(header, Bearer);
    if Contains(header, Bearer) {
      SplitLastAfterLastOccurrence(header, Bearer);
    } else {
      SplitLastWithoutSeparator(header, Bearer);
    }
  }

  /** A token without a space cannot contain "Bearer " (JWS compact tokens never contain one). */
  lemma SpaceFreeTokenHasNoBearer(token: string)
    requires ' ' !in token
    ensures !Contains(token, Bearer)
  {
    forall k | OccursAt(token, Bearer, k) ensures false {
      BearerEndsInSpace(token, k);
    }
  }

  /** Where "Bearer " occurs, a space follows six characters later. */
  lemma BearerEndsInSpace(s: string, k: int)
    requires OccursAt(s, Bearer, k)
    ensures s[k + 6] == ' '
  {
    assert s[k..k + |Bearer|][6] == s[k + 6];
  }

  /** "Authorization: Bearer <token>" and "Authorization: <token>" both yield the token. */
  lemma BearerTokenOfHeader(token: string)
    requires !Contains(token, Bearer)
    ensures BearerToken(Bearer + token) == token
    ensures BearerToken(token) == token
  {
    BearerTokenFollowsLastBearer(token);
    var header := Bearer + token;
    BearerTokenFollowsLastBearer(header);
    assert header[..|Bearer|] == Bearer;
    assert OccursAt(header, Bearer, 0);
    BearerOnlyAtStart(token, |header| - |BearerToken(header)| - |Bearer|);
  }

  /** In "Bearer " + token, with no "Bearer " inside the token, the only occurrence is the prefix. */
  lemma BearerOnlyAtStart(token: string, k: int)
    requires !Contains(token, Bearer) && OccursAt(Bearer + token, Bearer, k)
    ensures k == 0
  {
    var header := Bearer + token;
    assert header[..|Bearer|] == Bearer;
    if k > 0 {
      BearerHeadUnique();
      OccurrencesApart(header, Bearer, 0, k);
      assert header[k..k + |Bearer|] == token[k - |Bearer|..k];
      assert OccursAt(token, Bearer, k - |Bearer|);
      assert false;
    }
  }

  /**
   * auth_check: without an Authorization header the result is falsy and
   * the decoder is not involved at all; otherwise it is jwt_decode of the
   * bearer token.
   */
  function AuthCheck(svc: Services, headers: map<string, string>, now: int): (decoded: Option<Claims>)
    ensures AuthorizationHeader !in headers ==> decoded == None
  {
    if AuthorizationHeader !in headers then None
    else JwtDecode(svc, JStr(BearerToken(headers[AuthorizationHeader])), now)
  }

  /** What a wrapped handler sees of the request: its headers and the time of the check. */
  datatype Request = Request(headers: map<string, string>, now: int)

  /** A handler's result, or the request aborted with an HTTP status and description. */
  datatype Response<R> = Handled(result: R) | Aborted(status: int, description: string)

  const Unauthorized: int := 401
  const AuthorizationError: string := "Authorization error"

  /**
   * auth_required: the wrapped handler runs exactly when auth_check is
   * truthy and its result is returned unchanged; otherwise the request is
   * aborted with 401 "Authorization error".
   */
  function AuthRequired<A(!new), R>(svc: Services, func: A -> R): (wrapper: (Request, A) -> Response<R>)
    ensures forall request, args :: wrapper(request, args).Handled? <==> IsTruthy(AuthCheck(svc, request.headers, request.now))
    ensures forall request, args :: wrapper(request, args).Handled? ==> wrapper(request, args).result == func(args)
    ensures forall request, args :: wrapper(request, args).Aborted? ==> wrapper(request, args) == Aborted(Unauthorized, AuthorizationError)
  {
    (request: Request, args: A) =>
      if IsTruthy(AuthCheck(svc, request.headers, request.now)) then Handled(func(args))
      else Aborted(Unauthorized, AuthorizationError)
  }

  /** A rejected request gets the same answer whatever the handler and its arguments: the handler is not consulted. */
  lemma RejectionIgnoresHandler<A(!new), R>(svc: Services, f: A -> R, g: A -> R, request: Request, a: A, b: A)
    requires !IsTruthy(AuthCheck(svc, request.headers, request.now))
    ensures AuthRequired(svc, f)(request, a) == AuthRequired(svc, g)(request, b)
  {
  }

  /**
   * A freshly issued access token, sent as "Bearer <token>" or bare before
   * it expires, lets the handler run.
   */
  lemma IssuedAccessTokenOpensGate<A(!new), R>(svc: Services, data: Claims, accessAt: int, refreshAt: int, func: A -> R, args: A, now: int)
    requires DecodesFreshTokens(svc.jwt) && FreeOfValidatedClaims(data)
    requires now < AccessExpiry(accessAt)
    requires ' ' !in IssueTokens(svc, data, accessAt, refreshAt).accessToken
    ensures var token := IssueTokens(svc, data, accessAt, refreshAt).accessToken;
      && AuthRequired(svc, func)(Request(map[AuthorizationHeader := Bearer + token], now), args) == Handled(func(args))
      && AuthRequired(svc, func)(Request(map[AuthorizationHeader := token], now), args) == Handled(func(args))
  {
    var token := IssueTokens(svc, data, accessAt, refreshAt).accessToken;
    SpaceFreeTokenHasNoBearer(token);
    BearerTokenOfHeader(token);
    IssuedTokensDecode(svc, data, accessAt, refreshAt, now);
    var claims := WithExpiry(data, AccessExpiry(accessAt));
    assert "exp" in claims;
    var bearer, bare := map[AuthorizationHeader := Bearer + token], map[AuthorizationHeader := token];
    assert AuthCheck(svc, bearer, now) == Some(claims);
    assert AuthCheck(svc, bare, now) == Some(claims);
  }

  // ---------------------------------------------------------------------
  // Login and refresh
  // ---------------------------------------------------------------------

  /** The stored user record login_user reads: `user["email"]` and `user["password"]` (a digest). */
  datatype User = User(email: Value, password: seq<bv8>)

  /**
   * What login_user and refresh_user_token return: a token pair, the
   * `ItemNotFound` class, `None` (login's fall-through), or the
   * AttributeError raised by `.encode` on a password that is not a string.
   */
  datatype Reply = Tokens(tokens: TokenPair) | ItemNotFound | NoneReturned | RaisesAttributeError

  /**
   * login_user as a value: its reply and the request dict it leaves
   * behind. With a truthy email and password the request's `email` is first
   * overwritten with the stored one; the tokens are then issued over the
   * request dict itself, which therefore also keeps the refresh `exp`.
   */
  function LoginOutcome(svc: Services, reqJson: Claims, user: User, accessAt: int, refreshAt: int): (outcome: (Reply, Claims))
    ensures outcome.0 != NoneReturned <==> Get(reqJson, "email").Truthy() && Get(reqJson, "password").Truthy()
    ensures outcome.0 == NoneReturned ==> outcome.1 == reqJson
    ensures outcome.0 != NoneReturned ==> "email" in outcome.1 && outcome.1["email"] == user.email
    ensures outcome.0.Tokens? ==> outcome.1.Keys == reqJson.Keys + {"email", "exp"}
    ensures !outcome.0.Tokens? ==>
      forall key :: key in outcome.1 && key != "email" ==> key in reqJson && outcome.1[key] == reqJson[key]
  {
    var userEmail, userPass := Get(reqJson, "email"), Get(reqJson, "password");
    if userEmail.Truthy() && userPass.Truthy() then
      var claims := reqJson["email" := user.email];
      if !userPass.JStr? then (RaisesAttributeError, claims)
      else if ComparePasswords(svc, user.password, userPass.s) then
        (Tokens(IssueTokens(svc, claims, accessAt, refreshAt)), WithExpiry(claims, RefreshExpiry(refreshAt)))
      else (ItemNotFound, claims)
    else (NoneReturned, reqJson)
  }

  /** login_user, updating the request dict in place as the source does. */
  method LoginUser(svc: Services, reqJson: Dict, user: User, accessAt: int, refreshAt: int) returns (reply: Reply)
    modifies reqJson
    ensures (reply, reqJson.entries) == LoginOutcome(svc, old(reqJson.entries), user, accessAt, refreshAt)
  {
    var userEmail := Get(reqJson.entries, "email");
    var userPass := Get(reqJson.entries, "password");
    if userEmail.Truthy() && userPass.Truthy() {
      var passHashed := user.password;
      reqJson.entries := reqJson.entries["email" := user.email];
      if !userPass.JStr? {
        return RaisesAttributeError;
      }
      if ComparePasswords(svc, passHashed, userPass.s) {
        var tokens := GenerateToken(svc, reqJson, accessAt, refreshAt);
        return Tokens(tokens);
      }
      return ItemNotFound;
    }
    return NoneReturned;
  }

  /** With the email or the password missing or falsy, login_user returns None and leaves the request untouched. */
  lemma LoginIncompleteFallsThrough(svc: Services, reqJson: Claims, user: User, accessAt: int, refreshAt: int)
    requires !Get(reqJson, "email").Truthy() || !Get(reqJson, "password").Truthy()
    ensures LoginOutcome(svc, reqJson, user, accessAt, refreshAt) == (NoneReturned, reqJson)
  {
  }

  /** With a wrong password, login_user returns ItemNotFound, having replaced the request's email. */
  lemma LoginWrongPassword(svc: Services, reqJson: Claims, user: User, password: string, accessAt: int, refreshAt: int)
    requires Get(reqJson, "email").Truthy() && Get(reqJson, "password") == JStr(password) && password != ""
    requires !ComparePasswords(svc, user.password, password)
    ensures LoginOutcome(svc, reqJson, user, accessAt, refreshAt) == (ItemNotFound, reqJson["email" := user.email])
  {
  }

  /**
   * With a password that matches the stored digest, login_user issues the
   * pair over the request with its email replaced by the stored one, and
   * leaves that dict holding the refresh expiry.
   */
  lemma LoginMatchingPassword(svc: Services, reqJson: Claims, user: User, password: string, accessAt: int, refreshAt: int)
    requires Get(reqJson, "email").Truthy() && Get(reqJson, "password") == JStr(password) && password != ""
    requires ComparePasswords(svc, user.password, password)
    ensures var claims := reqJson["email" := user.email];
      LoginOutcome(svc, reqJson, user, accessAt, refreshAt)
        == (Tokens(IssueTokens(svc, claims, accessAt, refreshAt)), WithExpiry(claims, RefreshExpiry(refreshAt)))
  {
  }

  /** A password that is truthy but not a string makes login_user raise, after it has replaced the request's email. */
  lemma LoginNonTextPassword(svc: Services, reqJson: Claims, user: User, accessAt: int, refreshAt: int)
    requires Get(reqJson, "email").Truthy() && Get(reqJson, "password").Truthy() && !Get(reqJson, "password").JStr?
    ensures LoginOutcome(svc, reqJson, user, accessAt, refreshAt) == (RaisesAttributeError, reqJson["email" := user.email])
  {
  }

  /** A decoded payload whose `email` is the given value. */
  predicate CarriesEmail(decoded: Option<Claims>, email: Value) {
    decoded.Some? && "email" in decoded.value && decoded.value["email"] == email
  }

  /**
   * With the password that produced the stored digest, login_user issues
   * the pair over the request with the stored email, and both tokens
   * decode before expiry to a payload whose email is the stored one.
   */
  lemma LoginWithStoredPassword(svc: Services, reqJson: Claims, user: User, password: string, accessAt: int, refreshAt: int, now: int)
    requires Base64RoundTrips(svc.crypto) && DecodesFreshTokens(svc.jwt) && FreeOfValidatedClaims(reqJson)
    requires Get(reqJson, "email").Truthy() && Get(reqJson, "password") == JStr(password) && password != ""
    requires user.password == GeneratePasswordDigest(svc, password)
    ensures var claims := reqJson["email" := user.email];
      LoginOutcome(svc, reqJson, user, accessAt, refreshAt)
        == (Tokens(IssueTokens(svc, claims, accessAt, refreshAt)), WithExpiry(claims, RefreshExpiry(refreshAt)))
    ensures var tokens := IssueTokens(svc, reqJson["email" := user.email], accessAt, refreshAt);
      && (now < AccessExpiry(accessAt) ==>
            CarriesEmail(JwtDecode(svc, JStr(tokens.accessToken), now), user.email))
      && (now < RefreshExpiry(refreshAt) ==>
            CarriesEmail(JwtDecode(svc, JStr(tokens.refreshToken), now), user.email))
  {
    DigestVerifiesItsPassword(svc, password);
    IssuedTokensDecode(svc, reqJson["email" := user.email], accessAt, refreshAt, now);
  }

  /** A decoded payload whose `password` is the given plaintext. */
  predicate CarriesPassword(decoded: Option<Claims>, password: string) {
    decoded.Some? && "password" in decoded.value && decoded.value["password"] == JStr(password)
  }

  /**
   * As written, login_user signs the request body itself, so the submitted
   * plaintext password travels inside both tokens, readable by anyone who
   * holds one (a JWT is signed, not encrypted).
   */
  lemma LoginTokensCarryPassword(svc: Services, reqJson: Claims, user: User, password: string, accessAt: int, refreshAt: int, now: int)
    requires Base64RoundTrips(svc.crypto) && DecodesFreshTokens(svc.jwt) && FreeOfValidatedClaims(reqJson)
    requires Get(reqJson, "email").Truthy() && Get(reqJson, "password") == JStr(password) && password != ""
    requires user.password == GeneratePasswordDigest(svc, password)
    ensures var reply := LoginOutcome(svc, reqJson, user, accessAt, refreshAt).0;
      && reply.Tokens?
      && (now < AccessExpiry(accessAt) ==> CarriesPassword(JwtDecode(svc, JStr(reply.tokens.accessToken), now), password))
      && (now < RefreshExpiry(refreshAt) ==> CarriesPassword(JwtDecode(svc, JStr(reply.tokens.refreshToken), now), password))
  {
    LoginWithStoredPassword(svc, reqJson, user, password, accessAt, refreshAt, now);
    IssuedTokensDecode(svc, reqJson["email" := user.email], accessAt, refreshAt, now);
  }

  /** The payload login should sign: the request with the stored email and without the submitted password. */
  function LoginClaims(reqJson: Claims, user: User): (claims: Claims)
    ensures "password" !in claims
    ensures claims.Keys == (reqJson.Keys - {"password"}) + {"email"}
    ensures claims["email"] == user.email
    ensures forall key :: key in reqJson && key != "password" && key != "email" ==> claims[key] == reqJson[key]
  {
    (reqJson - {"password"})["email" := user.email]
  }

  /** login_user's reply with the tokens issued over LoginClaims; every other reply is unchanged. */
  function CorrectedLoginReply(svc: Services, reqJson: Claims, user: User, accessAt: int, refreshAt: int): Reply {
    match LoginOutcome(svc, reqJson, user, accessAt, refreshAt).0
    case Tokens(_) => Tokens(IssueTokens(svc, LoginClaims(reqJson, user), accessAt, refreshAt))
    case other => other
  }

  /**
   * With the corrected payload, logging in with the stored password still
   * yields tokens carrying the stored email, and neither token carries a
   * password.
   */
  lemma CorrectedLoginTokensOmitPassword(svc: Services, reqJson: Claims, user: User, password: string, accessAt: int, refreshAt: int, now: int)
    requires Base64RoundTrips(svc.crypto) && DecodesFreshTokens(svc.jwt) && FreeOfValidatedClaims(reqJson)
    requires Get(reqJson, "email").Truthy() && Get(reqJson, "password") == JStr(password) && password != ""
    requires user.password == GeneratePasswordDigest(svc, password)
    ensures CorrectedLoginReply(svc, reqJson, user, accessAt, refreshAt) == Tokens(IssueTokens(svc, LoginClaims(reqJson, user), accessAt, refreshAt))
    ensures var tokens := IssueTokens(svc, LoginClaims(reqJson, user), accessAt, refreshAt);
      && (now < AccessExpiry(accessAt) ==>
            var decoded := JwtDecode(svc, JStr(tokens.accessToken), now);
            CarriesEmail(decoded, user.email) && "password" !in decoded.value)
      && (now < RefreshExpiry(refreshAt) ==>
            var decoded := JwtDecode(svc, JStr(tokens.refreshToken), now);
            CarriesEmail(decoded, user.email) && "password" !in decoded.value)
  {
    LoginWithStoredPassword(svc, reqJson, user, password, accessAt, refreshAt, now);
    IssuedTokensDecode(svc, LoginClaims(reqJson, user), accessAt, refreshAt, now);
  }

  /**
   * refresh_user_token: ItemNotFound exactly when decoding the request's
   * `refresh_token` is falsy (it fails, the token is missing or not a
   * string, or the payload is empty); otherwise a new pair issued over the
   * decoded payload. The request itself is not changed.
   */
  function RefreshUserToken(svc: Services, reqJson: Claims, decodeAt: int, accessAt: int, refreshAt: int): (reply: Reply)
    ensures reply.Tokens? || reply == ItemNotFound
    ensures reply == ItemNotFound <==> !IsTruthy(JwtDecode(svc, Get(reqJson, "refresh_token"), decodeAt))
    ensures reply.Tokens? ==>
      reply.tokens == IssueTokens(svc, JwtDecode(svc, Get(reqJson, "refresh_token"), decodeAt).value, accessAt, refreshAt)
  {
    var data := JwtDecode(svc, Get(reqJson, "refresh_token"), decodeAt);
    if IsTruthy(data) then Tokens(IssueTokens(svc, data.value, accessAt, refreshAt))
    else ItemNotFound
  }

  /**
   * Exchanging an unexpired refresh token yields a pair over the same
   * payload as the original pair: every key but `exp` is carried over.
   */
  lemma RefreshKeepsClaims(svc: Services, data: Claims, accessAt: int, refreshAt: int, decodeAt: int, accessAt': int, refreshAt': int)
    requires DecodesFreshTokens(svc.jwt) && FreeOfValidatedClaims(data)
    requires decodeAt < RefreshExpiry(refreshAt)
    ensures var reqJson := map["refresh_token" := JStr(IssueTokens(svc, data, accessAt, refreshAt).refreshToken)];
      RefreshUserToken(svc, reqJson, decodeAt, accessAt', refreshAt') == Tokens(IssueTokens(svc, data, accessAt', refreshAt'))
  {
    var refreshed := WithExpiry(data, RefreshExpiry(refreshAt));
    IssuedTokensDecode(svc, data, accessAt, refreshAt, decodeAt);
    assert "exp" in refreshed;
    assert WithExpiry(refreshed, AccessExpiry(accessAt')) == WithExpiry(data, AccessExpiry(accessAt'));
    assert WithExpiry(refreshed, RefreshExpiry(refreshAt')) == WithExpiry(data, RefreshExpiry(refreshAt'));
  }
}

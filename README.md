# Authentication helpers: a verified model

This project models the authentication helper module `project/tools/security.py` of a Flask application. The module covers:

- **Password digests.** It stores a PBKDF2-HMAC-SHA256 key, base64-encoded, and checks a candidate password against it.
- **Token pairs.** It issues an access token (30 minutes) and a refresh token (130 days) as two JWTs over the same claims dict. Between the two signings it overwrites `exp` in place.
- **The access gate.** `auth_required` wraps a handler. The handler runs only when the request's `Authorization` header carries a token that decodes; otherwise the request is aborted with 401 "Authorization error".
- **Login and refresh.** These flows sit on top of the helpers above.

The model has four modules:

- `Wrappers` holds `Option`.
- `Json` holds JSON values, Python truthiness and `dict.get`.
- `PyStr` holds Python's `str.split`/`str.join` with an explicit separator, and the proof that, for a separator whose first character does not recur in it (such as "Bearer "), `s.split(sep)[-1]` is the text after the last occurrence of `sep`.
- `Security` holds the module itself.

Collaborators are values, not ambient state:

- **Config.** `Config` carries SECRET_KEY, JWT_ALGORITHM, PWD_HASH_SALT and PWD_HASH_ITERATIONS.
- **Crypto.** `Crypto` holds the UTF-8 encoder, PBKDF2 and the base64 pair as function-typed fields.
- **JWT.** `JwtCodec` holds `jwt.encode` and `jwt.decode`. The decoder takes the decode time as an argument, and `None` stands for "raised".
- **Assumptions.** What is assumed about these primitives is written once, as two ghost predicates:
  - `Base64RoundTrips`: decoding an encoding gives the bytes back.
  - `DecodesFreshTokens`: a payload whose integer `exp` is later than the decode time, and which has none of the other registered claims the decoder validates by itself (`aud`, `nbf`, `iat`, `sub`, `jti`), decodes to itself under the key and algorithm it was signed with.

  Each lemma that relies on an assumption takes it as a `requires`.
- **The clock.** Each `datetime.utcnow()` reading is a parameter, in microseconds since the epoch. `calendar.timegm(dt.timetuple())` is division by 10^6 rounded down.

`generate_token` and `login_user` update a caller's dict in place. They are methods on a `Dict` object (`GenerateToken`, `LoginUser`). Each method is proved equal to a pure function of the old state (`IssueTokens`, `LoginOutcome`), both in what it returns and in what it leaves in the dict. The other helpers are functions.

The model keeps these behaviours of the code, which are easy to miss:

- **Truthy decode results.** The gate tests `if auth_check():` and the refresh flow tests `if data:`, both on the result of `jwt_decode`. An empty decoded payload is therefore rejected, even though decoding succeeded.
- **Login fall-through.** When the email or the password is missing or falsy, `login_user` returns `None` (not `ItemNotFound`) and leaves the request unchanged.
- **Non-string password.** A truthy password that is not a string raises AttributeError at `.encode`. This happens after the request's `email` has been overwritten.
- **Malformed digest.** `compare_passwords` does not fail closed on a malformed digest; `b64decode` raises. The model's base64 decoder is total, so this path is not represented (see Left out).
- **Login leaves `exp` behind.** A successful login leaves the refresh `exp` in the request dict, because `generate_token` writes into it.

## Model

| member | source | states |
|---|---|---|
| Json.Get | project/tools/security.py:66-67 | `dict.get`: the stored value for a present key, `None` (JNull) for a missing one |
| PyStr.FindFrom | project/tools/security.py:25 | what the separator search finds is an occurrence at or after the start position |
| PyStr.FindFromIsFirst | project/tools/security.py:25 | the search skips no occurrence: nothing occurs between the start and what it finds, or anywhere after the start when it finds nothing |
| PyStr.Split | project/tools/security.py:25 | `str.split(sep)` always yields at least one piece |
| PyStr.JoinSplit | project/tools/security.py:25 | `sep.join(s.split(sep)) == s`: splitting loses no text |
| PyStr.SplitFromPiecesHaveNoSeparator | project/tools/security.py:25 | no piece of a split contains the separator |
| PyStr.SplitLastHasNoSeparator | project/tools/security.py:25 | the last piece of a split does not contain the separator |
| PyStr.SplitLastWithoutSeparator | project/tools/security.py:25 | when the separator does not occur, the last piece is the whole string |
| PyStr.SplitLastAfterLastOccurrence | project/tools/security.py:25 | for a separator whose first character does not recur, the last piece is the text after the last occurrence, and no occurrence lies further right |
| Security.GeneratePasswordDigest | project/tools/security.py:13-19 | the digest base64-decodes to the PBKDF2 key of the UTF-8 password under the configured salt and iterations |
| Security.ComparePasswords | project/tools/security.py:58-62 | a match exactly when the decoded stored digest equals the candidate's recomputed PBKDF2 key |
| Security.DigestVerifiesItsPassword | project/tools/security.py:58-62 | `compare_passwords(generate_password_digest(p), p)` holds for every password |
| Security.DigestVerifiesExactlyKeyCollisions | project/tools/security.py:58-62 | a digest accepts a candidate exactly when both passwords have the same PBKDF2 key |
| Security.Timegm | project/tools/security.py:48 | the result is the whole seconds of the clock reading: `s * 10^6 <= micros < (s + 1) * 10^6` |
| Security.AccessExpiry | project/tools/security.py:47-48 | the access `exp` is the first reading's whole seconds plus 1800 |
| Security.RefreshExpiry | project/tools/security.py:51-52 | the refresh `exp` is the second reading's whole seconds plus 130 * 86400 |
| Security.RefreshOutlivesAccess | project/tools/security.py:47-52 | for readings in order, the refresh expiry is at least 130 days minus 30 minutes after the access expiry |
| Security.WithExpiry | project/tools/security.py:48 | setting `exp` adds only that key, stores the integer there and leaves every other key's value unchanged |
| Security.SignedClaimsDifferOnlyInExp | project/tools/security.py:46-55 | the access and refresh payloads agree on every key except `exp`, and their `exp` values differ whenever the expiries do |
| Security.IssueTokens | project/tools/security.py:46-55 | the pair generate_token returns, defined by its body; its properties are stated by SignedClaimsDifferOnlyInExp, IssuedTokensDecode and GenerateToken |
| Security.GenerateToken | project/tools/security.py:46-55 | the pair is the access token over data with the access `exp` and the refresh token over data with the refresh `exp`; afterwards the dict is the original with only `exp` set, to the refresh expiry |
| Security.IssuedTokensDecode | project/tools/security.py:46-55 | each token issued over a payload free of the other validated claims, decoded before its expiry, gives back exactly the payload that was signed |
| Security.JwtDecode | project/tools/security.py:29-35 | decoding never propagates a failure: the result is a payload or None, and only a string token can give a payload |
| Security.BearerTokenFollowsLastBearer | project/tools/security.py:25 | the extracted token is the text after the last "Bearer " in the header, or the whole header if "Bearer " does not occur; it never contains "Bearer " |
| Security.BearerToken | project/tools/security.py:25 | `split("Bearer ")[-1]` is a suffix of the header; that it is the suffix after the last "Bearer " is stated by BearerTokenFollowsLastBearer |
| Security.SpaceFreeTokenHasNoBearer | project/tools/security.py:25 | a token without a space cannot contain "Bearer " |
| Security.BearerTokenOfHeader | project/tools/security.py:25 | both "Bearer " + token and the bare token yield the token |
| Security.AuthCheck | project/tools/security.py:22-26 | without an Authorization header the result is falsy, whatever the decoder |
| Security.AuthRequired | project/tools/security.py:38-43 | the handler's result is returned, unchanged, exactly when auth_check is truthy; otherwise the result is Aborted(401, "Authorization error") |
| Security.RejectionIgnoresHandler | project/tools/security.py:38-43 | a rejected request gets the same answer whatever the handler and its arguments, so the handler is not invoked |
| Security.IssuedAccessTokenOpensGate | project/tools/security.py:38-43 | an issued access token, sent before expiry either with "Bearer " or bare, lets the handler run |
| Security.LoginOutcome | project/tools/security.py:65-73 | login falls through (None, request unchanged) exactly when the email or password is falsy; otherwise the request's email becomes the stored one; a successful login adds only `email` and `exp` as keys, and every other outcome changes nothing but `email`; the branches are stated by the Login lemmas below |
| Security.LoginUser | project/tools/security.py:65-73 | the reply and the request dict left behind are those of the login outcome for the old request |
| Security.LoginIncompleteFallsThrough | project/tools/security.py:65-68 | with the email or password missing or falsy, login returns None and leaves the request unchanged |
| Security.LoginWrongPassword | project/tools/security.py:65-73 | a failed comparison returns ItemNotFound, with the request's email replaced by the stored one |
| Security.LoginMatchingPassword | project/tools/security.py:65-72 | a successful comparison returns the token pair over the request with the stored email, and leaves that dict with the refresh `exp` |
| Security.LoginNonTextPassword | project/tools/security.py:67-71 | a truthy non-string password raises AttributeError, after the email was replaced |
| Security.LoginWithStoredPassword | project/tools/security.py:65-72 | the password that produced the stored digest logs in, and both tokens decode before expiry to a payload whose email is the stored user's email, not the submitted one |
| Security.RefreshUserToken | project/tools/security.py:76-82 | ItemNotFound exactly when decoding the supplied refresh token is falsy (failure, missing, non-string or empty payload); otherwise the pair issued over the decoded payload |
| Security.LoginTokensCarryPassword | project/tools/security.py:70-72 | as written, logging in with the stored password issues an access token and a refresh token whose decoded payloads, before their expiry, both hold the submitted plaintext password |
| Security.LoginClaims | project/tools/security.py:70-72 | the corrected login payload: the request without `password`, with the stored email, every other key unchanged |
| Security.CorrectedLoginTokensOmitPassword | project/tools/security.py:70-72 | with the corrected payload, the stored password still logs in, and both tokens decode to the stored email and carry no password |
| Security.RefreshKeepsClaims | project/tools/security.py:76-82 | exchanging an unexpired refresh token yields the same pair as issuing over the original data at the new clock readings: every key except `exp` is carried over |

## Findings

| source | as written | input that shows it | evidently intended | confidence | as-written member | corrected member |
|---|---|---|---|---|---|---|
| project/tools/security.py:70-72 | the tokens are signed over the request body, which still holds `password`, so both tokens carry the submitted plaintext password, and every pair refreshed from them carries it on (RefreshKeepsClaims carries over every key but `exp`) | request `{"email": "a@x.com", "password": "right"}` against a user whose stored digest is that of "right": the decoded access payload has `"password": "right"` | sign the request with the stored email and without `password` | not executed | Security.LoginTokensCarryPassword | Security.CorrectedLoginTokensOmitPassword |

`Security.LoginUser` and `Security.LoginOutcome` keep modelling the code as written. `Security.CorrectedLoginReply` is the corrected login: it gives the same reply on every other branch and issues the tokens over `Security.LoginClaims`.

## Left out

- `Security.LoginOutcome`: a password holding a lone surrogate (JSON `"\ud800"`) makes `.encode('utf-8')` raise UnicodeEncodeError after line 70 has overwritten `email`. Dafny strings cannot hold a lone surrogate and `Crypto.utf8` is total, so that branch is absent.
- PBKDF2-HMAC-SHA256 (RFC 8018 section 5.2), UTF-8 and base64 (RFC 4648 section 4) are not modelled. They are uninterpreted function-typed fields; the only assumption is the base64 round trip.
- The JWT wire format, signatures and expiry checking (RFC 7519, RFC 7515) belong to the external `jwt` library and are not modelled. The only assumption is that a token decodes to its own payload before its `exp`, provided the payload has no `aud`, `nbf`, `iat`, `sub` or `jti` claim. The decoder validates those by itself and may reject them. `login_user` signs the client's own request body, so a client can supply them; the lemmas about decoding issued tokens therefore require a payload free of them (`Security.FreeOfValidatedClaims`), and what the decoder does with such claims is not modelled. That a token decodes to failure after its `exp` is not assumed, so no lemma states it.
- The constant-time behaviour of `hmac.compare_digest` is not modelled, because timing cannot be expressed. `Security.ComparePasswords` is byte-sequence equality only.
- `Security.ComparePasswords`: does not model the exception `b64decode` raises on a malformed stored digest. The decoder is a total function, so that error path is absent.
- Flask's `request`, `current_app.config` and `abort` are replaced by explicit parameters (`Request`, `Config`) and a result datatype (`Response`). Flask's case-insensitive header lookup is not modelled; the header key is matched exactly as "Authorization".
- `Security.AuthRequired`: the handler is a pure function of its arguments. Side effects and exceptions of the handler, and the `*args, **kwargs` forwarding, are not modelled.
- Wall-clock reads are not modelled; they are parameters. `datetime` range limits (OverflowError near year 9999) and the internals of `calendar`/`datetime` are not modelled either.
- JSON values have no floating-point numbers (`Json.Value` has integers only). The JWT library's own type checks on payload values are not modelled.
- The stored user record always has `email` and `password` fields (`Security.User`). The KeyError or TypeError that a missing field or a `None` user would raise is not modelled.
- PyStr.Split: requires a non-empty separator. Python raises ValueError on an empty one, but the only separator used here is "Bearer ".

/**
 * Credentials: the password-hashing and token-signing libraries as an
 * immutable configuration value, and the bearer-token gate that every
 * protected route passes through.
 */
module Auth {

  import opened Wrappers

  /** What a signed token asserts: the subject and its role. */
  datatype Claims = Claims(userId: nat, role: string)

  /**
   * The credential libraries, with the signing secret fixed inside `sign`
   * and `verify` once at startup. Salts and clocks are explicit arguments.
   */
  datatype Crypto = Crypto(
    hash: (string, nat) -> string,             // bcrypt.hash(plaintext, 10) with a given salt
    compare: (string, string) -> bool,         // bcrypt.compare(plaintext, storedHash)
    sign: (Claims, int) -> string,             // jwt.sign(claims, secret, {expiresIn: '7d'}) at a time
    verify: (string, int) -> Option<Claims>)   // jwt.verify(token, secret) at a time

  /** `expiresIn: '7d'`, in seconds. */
  const TokenLifetime: int := 7 * 24 * 60 * 60

  /** What the password library promises: a password matches its own hash. */
  ghost predicate HashSound(c: Crypto) {
    forall p: string, salt: nat :: c.compare(p, c.hash(p, salt))
  }

  /** The ideal of a password hash: a hash matches no other password. */
  ghost predicate HashBinding(c: Crypto) {
    forall p: string, q: string, salt: nat :: c.compare(p, c.hash(q, salt)) ==> p == q
  }

  /** What the token library promises: a signed token is a non-empty string
      that verifies to its claims during its lifetime and fails afterwards. */
  ghost predicate TokensSound(c: Crypto) {
    (forall cl: Claims, t: int :: c.sign(cl, t) != "") &&
    (forall cl: Claims, t: int, now: int :: t <= now < t + TokenLifetime ==>
       c.verify(c.sign(cl, t), now) == Some(cl)) &&
    (forall cl: Claims, t: int, now: int :: now >= t + TokenLifetime ==>
       c.verify(c.sign(cl, t), now) == None)
  }

  const BearerPrefix: string := "Bearer "

  /**
   * `authHeader.startsWith('Bearer ') ? authHeader.slice(7) : null`, followed
   * by the falsy test on the result; a missing header reads as `''`.
   */
  function BearerToken(header: Option<string>): (token: Option<string>)
    ensures token.Some? <==>
      header.Some? && |header.value| > |BearerPrefix| && header.value[..|BearerPrefix|] == BearerPrefix
    ensures token.Some? ==> header.value == BearerPrefix + token.value && token.value != ""
  {
    var h := if header.Some? then header.value else "";
    if |h| >= |BearerPrefix| && h[..|BearerPrefix|] == BearerPrefix && h[|BearerPrefix|..] != "" then
      assert h == h[..|BearerPrefix|] + h[|BearerPrefix|..];
      Some(h[|BearerPrefix|..])
    else None
  }

  /** Stripping the prefix undoes adding it. */
  lemma {:induction false} BearerRoundTrip(token: string)
    requires token != ""
    ensures BearerToken(Some(BearerPrefix + token)) == Some(token)
  {
    var h := BearerPrefix + token;
    assert h[..|BearerPrefix|] == BearerPrefix;
    assert h[|BearerPrefix|..] == token;
  }

  datatype AuthError = Unauthorized | InvalidToken

  /** The 401 message the gate answers with. */
  function Message(e: AuthError): string {
    match e
    case Unauthorized => "Unauthorized"
    case InvalidToken => "Invalid token"
  }

  /** `authMiddleware`: the claims the route runs with, or why it is refused. */
  function Authenticate(header: Option<string>, crypto: Crypto, now: int): (r: Result<Claims, AuthError>)
    ensures r == Failure(Unauthorized) <==> BearerToken(header).None?
    ensures r == Failure(InvalidToken) <==>
      BearerToken(header).Some? && crypto.verify(BearerToken(header).value, now).None?
    ensures r.Success? ==>
      header.Some? && header.value == BearerPrefix + BearerToken(header).value &&
      crypto.verify(BearerToken(header).value, now) == Some(r.value)
  {
    match BearerToken(header)
    case None => Failure(Unauthorized)
    case Some(token) =>
      match crypto.verify(token, now)
      case None => Failure(InvalidToken)
      case Some(claims) => Success(claims)
  }

  /** A token the server issued lets its holder in for seven days with the
      claims it was issued for, and is refused afterwards. */
  lemma IssuedTokenAuthenticates(crypto: Crypto, claims: Claims, issued: int, now: int)
    requires TokensSound(crypto)
    requires issued <= now
    ensures now < issued + TokenLifetime ==>
      Authenticate(Some(BearerPrefix + crypto.sign(claims, issued)), crypto, now) == Success(claims)
    ensures now >= issued + TokenLifetime ==>
      Authenticate(Some(BearerPrefix + crypto.sign(claims, issued)), crypto, now) == Failure(InvalidToken)
  {
    var token := crypto.sign(claims, issued);
    assert token != "";
    BearerRoundTrip(token);
  }
}

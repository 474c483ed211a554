/** The token issuer of `pkg/issuer/issuer.go`: the token exchange, the
    expiry read-back, the write of the credential file and the rotation
    cycle that sequences them.

    The network, the JSON decoder, the decoding of a token's claims and the
    behaviour of the file system on a write are parameters: a `Transport`
    and a `World`. */
module Issuer {
  import opened Wrappers
  import opened Strings
  import opened UrlValues
  import opened Clock
  import opened Errors
  import opened Files
  import opened IssuerConfig

  const FormContentType := "application/x-www-form-urlencoded"

  /** The `user-id` and `password` of HTTP Basic authentication
      (section 2 of RFC 7617). */
  datatype Credentials = Credentials(user: string, password: string)

  /** The exchange request: a form POST to the configured endpoint. */
  datatype Request = Request(
    verb: string,
    endpoint: string,
    form: Values,
    contentType: string,
    auth: Option<Credentials>)

  datatype HttpResponse = HttpResponse(status: int, body: string)

  /** The fields the issuer decodes from a 200 response body. */
  datatype TokenResponse = TokenResponse(
    accessToken: string,
    issuedTokenType: string,
    tokenType: string,
    expiresIn: int)

  /** The HTTP side of the exchange: whether the request can be built for
      an endpoint (`http.NewRequestWithContext` rejects malformed URLs),
      what one round trip yields, and how a body decodes as JSON. */
  datatype Transport = Transport(
    validEndpoint: string -> bool,
    send: Request -> Result<HttpResponse, string>,
    decode: string -> Option<TokenResponse>)

  /** A freshly issued token and its lifetime in seconds. */
  datatype Issued = Issued(token: string, lifetime: int)

  /** The registered claims of a stored token; `expiresAt` is the `exp`
      claim (section 4.1.4 of RFC 7519) as an instant, when present. */
  datatype Claims = Claims(expiresAt: Option<Instant>)

  /** How the file system treats one write of the credential file:
      `os.Create` may fail (nothing changes), or it may succeed and the
      write then fail after `written` characters. Tokens are ASCII, so a
      character is a byte. A Go write that fails has written fewer bytes
      than it was given, so only `written < |token|` arises. */
  datatype SaveFault = NoFault | CreateFails | WriteFails(written: nat)

  /** The effects of one cycle other than configuration loading.
      `readClaims` reads the registered claims of a token without checking
      its signature, as golang-jwt's `ParseUnverified` does; it stands for
      the base64 and JSON decoding of the token's payload. */
  datatype World = World(
    readClaims: string -> Option<Claims>,
    transport: Transport,
    saveFault: SaveFault)

  /** The credentials `issue` sets from `BasicAuth`: none when it is empty,
      otherwise split at its first `:` so that the password may contain
      `:` and a text without `:` is all user with an empty password. */
  function BasicAuthOf(basicAuth: string): (r: Option<Credentials>)
    ensures r.None? <==> basicAuth == ""
    ensures r.Some? ==> ':' !in r.value.user
    ensures r.Some? && ':' in basicAuth ==> basicAuth == r.value.user + ":" + r.value.password
    ensures r.Some? && ':' !in basicAuth ==> r.value == Credentials(basicAuth, "")
  {
    if basicAuth == "" then None
    else
      var s := Cut(basicAuth, ':');
      Some(Credentials(s.before, s.after))
  }

  /** The `user-pass` text a Basic Authorization header encodes: the user,
      a colon and the password. */
  function UserPass(c: Credentials): string
  {
    c.user + ":" + c.password
  }

  /** Splitting and re-joining gives back the configured text, with a colon
      appended when it had none. */
  lemma UserPassRoundTrip(basicAuth: string)
    requires basicAuth != ""
    ensures UserPass(BasicAuthOf(basicAuth).value) ==
      if ':' in basicAuth then basicAuth else basicAuth + ":"
  {
  }

  /** Every colon-free user with any password is recovered from its
      `user:password` text. */
  lemma BasicAuthSplitsAtFirstColon(user: string, password: string)
    requires ':' !in user
    ensures BasicAuthOf(user + ":" + password) == Some(Credentials(user, password))
  {
    CutAtFirst(user, ':', password);
  }

  /** The request `issue` sends: a form POST of every configured value to
      the endpoint, with Basic credentials exactly when `BasicAuth` is set,
      and those credentials re-join to the setting. */
  function BuildRequest(config: Config): (r: Request)
    ensures r.verb == "POST" && r.endpoint == config.endpoint && r.contentType == FormContentType
    ensures r.form == config.values
    ensures r.auth.Some? <==> config.basicAuth != ""
    ensures r.auth.Some? ==>
      UserPass(r.auth.value) == if ':' in config.basicAuth then config.basicAuth else config.basicAuth + ":"
  {
    Request("POST", config.endpoint, config.values, FormContentType, BasicAuthOf(config.basicAuth))
  }

  /** `issue`: one token exchange. Only a 200 response whose body decodes
      yields a token, and its lifetime is always reported as 0: the
      decoded `expires_in` is ignored. */
  function ExchangeToken(config: Config, transport: Transport): (r: Result<Issued, Error>)
    ensures !transport.validEndpoint(config.endpoint) ==> r == Failure(CreateRequest(config.endpoint))
    ensures transport.validEndpoint(config.endpoint) ==>
      var sent := transport.send(BuildRequest(config));
      && (sent.Failure? ==> r == Failure(SendRequest(sent.error)))
      && (sent.Success? && sent.value.status != 200 ==> r == Failure(UnexpectedStatus(sent.value.status)))
      && (sent.Success? && sent.value.status == 200 ==>
            match transport.decode(sent.value.body)
            case None => r == Failure(DecodeResponse)
            case Some(body) => r == Success(Issued(body.accessToken, 0)))
    ensures r.Success? ==> r.value.lifetime == 0
  {
    if !transport.validEndpoint(config.endpoint) then Failure(CreateRequest(config.endpoint))
    else
      match transport.send(BuildRequest(config))
      case Failure(reason) => Failure(SendRequest(reason))
      case Success(response) =>
        if response.status != 200 then Failure(UnexpectedStatus(response.status))
        else
          match transport.decode(response.body)
          case None => Failure(DecodeResponse)
          case Some(body) => Success(Issued(body.accessToken, 0))
  }

  /** `Issue`: loads the configuration and exchanges once, without writing. */
  function Issue(loaded: Result<Config, Error>, transport: Transport): (r: Result<string, Error>)
    ensures loaded.Failure? ==> r == Failure(LoadConfig(loaded.error))
    ensures loaded.Success? ==>
      match ExchangeToken(loaded.value, transport)
      case Failure(e) => r == Failure(IssueFailed(e))
      case Success(issued) => r == Success(issued.token)
  {
    match loaded
    case Failure(e) => Failure(LoadConfig(e))
    case Success(config) =>
      match ExchangeToken(config, transport)
      case Failure(e) => Failure(IssueFailed(e))
      case Success(issued) => Success(issued.token)
  }

  /** `loadTokenExp` with the claims read by `readClaims`: the expiry of the
      token stored at the destination, if the file reads, its claims decode
      and carry an `exp` claim. Every failure collapses to `None`. */
  function LoadTokenExp(config: Config, disk: Disk, readClaims: string -> Option<Claims>): (r: Option<Instant>)
    ensures r.Some? <==>
      config.dstPath in disk && readClaims(disk[config.dstPath]).Some? &&
      readClaims(disk[config.dstPath]).value.expiresAt.Some?
    ensures r.Some? ==> r == readClaims(disk[config.dstPath]).value.expiresAt
  {
    match ReadFile(disk, config.dstPath)
    case None => None
    case Some(contents) =>
      match readClaims(contents)
      case None => None
      case Some(claims) => claims.expiresAt
  }

  /** `jwt.ParseWithClaims` as `loadTokenExp` calls it, with a nil key
      function and `WithoutClaimsValidation`. In golang-jwt v5 every token
      fails: a malformed one as malformed, while decoding it, and any other
      as unverifiable ("no keyfunc was provided"), before a key would be
      looked up. The option only skips the validation of the claims. */
  function ParseWithNilKeyfunc(token: string): Option<Claims>
  {
    None
  }

  /** `loadTokenExp` as the source writes it: the stored token's claims go
      through `ParseWithNilKeyfunc`, so no expiry is ever known. */
  function LoadTokenExpAsWritten(config: Config, disk: Disk): (r: Option<Instant>)
    ensures r.None?
  {
    LoadTokenExp(config, disk, ParseWithNilKeyfunc)
  }

  /** The result of `save`: the file system afterwards and the error, if any. */
  datatype Saved = Saved(disk: Disk, err: Option<Error>)

  function Min(a: nat, b: nat): nat
  {
    if a <= b then a else b
  }

  /** `save`: truncates the destination in place with `os.Create`, then
      writes the token. Nothing but the destination changes; a failed write
      leaves a truncated file holding a prefix of the token. The empty path
      cannot be created. */
  function Save(disk: Disk, path: string, token: string, fault: SaveFault): (s: Saved)
    ensures s.err.None? <==> path != "" && fault.NoFault?
    ensures path != "" && fault.NoFault? ==> s.disk == disk[path := token]
    ensures path == "" || fault.CreateFails? ==> s == Saved(disk, Some(CreateFile(path)))
    ensures path != "" && fault.WriteFails? ==>
      s.err == Some(WriteToken) && path in s.disk && s.disk[path] <= token
    ensures path != "" && fault.WriteFails? && fault.written < |token| ==>
      s.disk[path] == token[..fault.written] && s.disk[path] != token
    ensures forall p :: p != path ==> (p in s.disk <==> p in disk)
    ensures forall p :: p != path && p in disk ==> s.disk[p] == disk[p]
  {
    if path == "" then Saved(disk, Some(CreateFile(path)))
    else
      match fault
      case CreateFails => Saved(disk, Some(CreateFile(path)))
      case WriteFails(n) => Saved(disk[path := token[..Min(n, |token|)]], Some(WriteToken))
      case NoFault => Saved(disk[path := token], None)
  }

  /** A successful save is read back as the token it wrote, and every path
      that names another file reads as before. */
  lemma SaveThenRead(disk: Disk, path: string, token: string, other: string)
    requires path != ""
    requires other != path
    ensures ReadFile(Save(disk, path, token, NoFault).disk, path) == Some(token)
    ensures ReadFile(Save(disk, path, token, NoFault).disk, other) == ReadFile(disk, other)
  {
  }

  /** The steps of a cycle after the configuration has loaded: read the
      stored expiry, call the exchange, commit the new token. */
  datatype Step = Inspect | Exchange | Commit

  const FullCycle: seq<Step> := [Inspect, Exchange, Commit]

  /** How a cycle ends. `Rotate` returns nil for both `Fresh` and `Rotated`. */
  datatype Outcome = Fresh | Rotated | Failed(err: Error)

  /** One rotation cycle: its outcome, the file system after it, the steps
      it took in order, and whether it warned that the new token's expiry
      falls before the next scheduled refresh. */
  datatype Cycle = Cycle(outcome: Outcome, disk: Disk, steps: seq<Step>, warned: bool)

  /** `Rotate`: one cycle at instant `now`. A stored token that expires
      strictly after `now + RefreshBefore` is left alone; a missing or
      unreadable one, or one due, is replaced by a freshly issued token. */
  function Rotate(loaded: Result<Config, Error>, disk: Disk, world: World, now: Instant): (c: Cycle)
    // Steps only ever happen in this order, each at most once.
    ensures |c.steps| <= |FullCycle| && c.steps == FullCycle[..|c.steps|]
    // A configuration failure touches nothing.
    ensures loaded.Failure? ==>
      c.outcome == Failed(LoadConfig(loaded.error)) && c.steps == [] && c.disk == disk && !c.warned
    // The freshness rule is a strict comparison; an unknown expiry is never fresh.
    ensures loaded.Success? ==>
      var expiry := LoadTokenExp(loaded.value, disk, world.readClaims);
      var stillFresh := expiry.Some? && expiry.value > now + loaded.value.refreshBefore;
      && (c.outcome == Fresh <==> stillFresh)
      && (Exchange in c.steps <==> !stillFresh)
      && (stillFresh ==> c.steps == [Inspect] && c.disk == disk)
    // A write is attempted only after a successful exchange.
    ensures Commit in c.steps <==>
      loaded.Success? && Exchange in c.steps && ExchangeToken(loaded.value, world.transport).Success?
    ensures Exchange in c.steps && ExchangeToken(loaded.value, world.transport).Failure? ==>
      c.outcome == Failed(IssueFailed(ExchangeToken(loaded.value, world.transport).error)) && c.disk == disk
    ensures c.disk != disk ==> Commit in c.steps
    // A committed cycle ends as the write does.
    ensures Commit in c.steps ==>
      var saved := Save(disk, loaded.value.dstPath, ExchangeToken(loaded.value, world.transport).value.token, world.saveFault);
      && c.disk == saved.disk
      && (c.outcome == Rotated <==> loaded.value.dstPath != "" && world.saveFault.NoFault?)
      && (c.outcome.Failed? ==> c.outcome.err == SaveToken(saved.err.value))
    ensures c.outcome == Rotated ==>
      c.disk == disk[loaded.value.dstPath := ExchangeToken(loaded.value, world.transport).value.token]
    // With a lifetime of 0 the warning fires exactly when the margin is positive,
    // and it never stops the write.
    ensures c.warned <==> Commit in c.steps && loaded.value.refreshBefore > 0
  {
    match loaded
    case Failure(e) => Cycle(Failed(LoadConfig(e)), disk, [], false)
    case Success(config) =>
      var expiresAt := LoadTokenExp(config, disk, world.readClaims);
      if expiresAt.Some? && expiresAt.value > now + config.refreshBefore then
        Cycle(Fresh, disk, [Inspect], false)
      else
        match ExchangeToken(config, world.transport)
        case Failure(e) => Cycle(Failed(IssueFailed(e)), disk, [Inspect, Exchange], false)
        case Success(issued) =>
          var exp := now + issued.lifetime * Second;
          var refreshedAt := now + config.refreshBefore;
          var warned := exp < refreshedAt;
          var saved := Save(disk, config.dstPath, issued.token, world.saveFault);
          var outcome := if saved.err.None? then Rotated else Failed(SaveToken(saved.err.value));
          Cycle(outcome, saved.disk, FullCycle, warned)
  }

  /** `Rotate` as the source writes it: the stored expiry is read through
      `ParseWithNilKeyfunc`, so no stored token is ever fresh and every cycle
      that loads its configuration exchanges, and rewrites the file whenever
      the exchange succeeds. */
  function RotateAsWritten(loaded: Result<Config, Error>, disk: Disk, world: World, now: Instant): (c: Cycle)
    ensures loaded.Success? ==> c.outcome != Fresh && Exchange in c.steps
    ensures loaded.Success? && ExchangeToken(loaded.value, world.transport).Success? ==> Commit in c.steps
  {
    Rotate(loaded, disk, world.(readClaims := ParseWithNilKeyfunc), now)
  }
}

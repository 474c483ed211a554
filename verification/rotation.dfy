/** Properties that relate several rotation cycles, or a cycle to the
    configuration it ran with. */
module RotationProperties {
  import opened Wrappers
  import opened Clock
  import opened Errors
  import opened Files
  import opened IssuerConfig
  import opened Issuer

  /** After a successful rotation, the next cycle is a no-op as long as the
      expiry recorded INSIDE the new token lies beyond the next margin. The
      lifetime the exchange reports plays no part: it is always 0. This
      holds of `Rotate`, which reads the claims without verifying them; the
      source's own call never reads them (`AsWrittenRewritesFreshToken`). */
  lemma SecondCycleIsNoOp(config: Config, disk: Disk, world: World, now: Instant, later: World, next: Instant, expiry: Instant)
    requires Rotate(Success(config), disk, world, now).outcome == Rotated
    requires later.readClaims(ExchangeToken(config, world.transport).value.token) == Some(Claims(Some(expiry)))
    requires expiry > next + config.refreshBefore
    ensures
      var first := Rotate(Success(config), disk, world, now);
      Rotate(Success(config), first.disk, later, next) == Cycle(Fresh, first.disk, [Inspect], false)
  {
  }

  /** The warning is advisory: two cycles that differ only in the margin,
      and both exchange, end alike and leave the same files, whether or not
      either warned. */
  lemma WarningIsAdvisory(config: Config, margin: Duration, disk: Disk, world: World, now: Instant)
    requires Exchange in Rotate(Success(config), disk, world, now).steps
    requires Exchange in Rotate(Success(config.(refreshBefore := margin)), disk, world, now).steps
    ensures
      var c1 := Rotate(Success(config), disk, world, now);
      var c2 := Rotate(Success(config.(refreshBefore := margin)), disk, world, now);
      c1.outcome == c2.outcome && c1.disk == c2.disk
  {
    var other := config.(refreshBefore := margin);
    assert BuildRequest(other) == BuildRequest(config);
    assert ExchangeToken(other, world.transport) == ExchangeToken(config, world.transport);
  }

  /** The lifetime the provider announces in `expires_in` is ignored: even
      when it covers the whole margin, a cycle that exchanges with a
      positive margin warns. */
  lemma AnnouncedLifetimeIgnored(config: Config, disk: Disk, world: World, now: Instant, response: HttpResponse, body: TokenResponse)
    requires config.refreshBefore > 0
    requires Exchange in Rotate(Success(config), disk, world, now).steps
    requires world.transport.validEndpoint(config.endpoint)
    requires world.transport.send(BuildRequest(config)) == Success(response)
    requires response.status == 200 && world.transport.decode(response.body) == Some(body)
    requires body.expiresIn * Second >= config.refreshBefore
    ensures Rotate(Success(config), disk, world, now).warned
  {
  }

  /** A failed exchange leaves the stored token authoritative: the next
      cycle reads the same expiry as this one did. */
  lemma FailedExchangeKeepsExpiry(config: Config, disk: Disk, world: World, now: Instant, readClaims: string -> Option<Claims>)
    requires Rotate(Success(config), disk, world, now).outcome.Failed?
    requires !(Commit in Rotate(Success(config), disk, world, now).steps)
    ensures LoadTokenExp(config, Rotate(Success(config), disk, world, now).disk, readClaims) ==
      LoadTokenExp(config, disk, readClaims)
  {
  }

  /** The write is not atomic: a write that fails after truncation leaves a
      file that is neither the old token nor the new one. */
  lemma TornWrite()
    ensures
      var saved := Save(map["token" := "old"], "token", "new", WriteFails(1));
      saved.disk["token"] == "n" && saved.disk["token"] != "old" && saved.disk["token"] != "new"
  {
  }

  /** A torn write does not wedge the sidecar: when the truncated file no
      longer parses, the next cycle treats rotation as due and exchanges. */
  lemma TornWriteHealsNextCycle(config: Config, disk: Disk, world: World, now: Instant, later: World, next: Instant)
    requires world.saveFault.WriteFails?
    requires Commit in Rotate(Success(config), disk, world, now).steps
    requires
      var first := Rotate(Success(config), disk, world, now);
      config.dstPath in first.disk ==> later.readClaims(first.disk[config.dstPath]).None?
    ensures
      var first := Rotate(Success(config), disk, world, now);
      Exchange in Rotate(Success(config), first.disk, later, next).steps
  {
  }

  /** The source's `loadTokenExp` discards a token that is still valid for
      ten hours: where `Rotate` leaves it alone, `RotateAsWritten` exchanges
      and overwrites it. */
  lemma AsWrittenRewritesFreshToken()
    ensures
      var config := Config("https://idp.example/token", map[], "token", "", Hour);
      var disk: Disk := map["token" := "stored"];
      var transport := Transport(
        _ => true,
        _ => Success(HttpResponse(200, "{}")),
        _ => Some(TokenResponse("issued", "", "Bearer", 3600)));
      var world := World(_ => Some(Claims(Some(10 * Hour))), transport, NoFault);
      && Rotate(Success(config), disk, world, 0) == Cycle(Fresh, disk, [Inspect], false)
      && RotateAsWritten(Success(config), disk, world, 0) == Cycle(Rotated, map["token" := "issued"], FullCycle, true)
  {
  }

  /** With no destination configured (`dex_access_token_file` unset) a
      cycle can never succeed: every exchange is followed by a failed create,
      and the files stay as they were. */
  lemma UnsetDestinationNeverRotates(config: Config, disk: Disk, world: World, now: Instant)
    requires config.dstPath == ""
    ensures
      var c := Rotate(Success(config), disk, world, now);
      c.outcome != Rotated && c.disk == disk
    ensures
      var c := Rotate(Success(config), disk, world, now);
      Commit in c.steps ==> c.outcome == Failed(SaveToken(CreateFile("")))
  {
  }

  /** Given the same provider response, `Issue` hands out exactly the token
      a successful `Rotate` writes. */
  lemma IssueMatchesRotation(loaded: Result<Config, Error>, disk: Disk, world: World, now: Instant)
    requires Rotate(loaded, disk, world, now).outcome == Rotated
    ensures Issue(loaded, world.transport).Success?
    ensures Rotate(loaded, disk, world, now).disk ==
      disk[loaded.value.dstPath := Issue(loaded, world.transport).value]
  {
  }
}

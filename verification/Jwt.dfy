/** The time profile of issued and verified JSON Web Tokens.  Instants and durations are in nanoseconds. */
module Jwt {
  import opened Wrappers

  const SECOND: int := 1_000_000_000
  const MIN_LIFETIME: int := SECOND
  const MAX_LIFETIME: int := 15 * 60 * SECOND
  const MAX_LEEWAY: int := 60 * SECOND
  const MAX_DURATION: int := 0x7FFF_FFFF_FFFF_FFFF

  datatype Config = Config(issuer: string, audience: string, secretBytes: nat, lifetime: int, leeway: int)

  datatype ConfigError = NameMissing | WeakSecret | LifetimeOutOfRange | FractionalLifetime | LeewayOutOfRange

  /** `NewJWTs`: the checks in their order. */
  function NewJWTs(config: Config): Result<Config, ConfigError> {
    if config.issuer == "" || config.audience == "" then Err(NameMissing)
    else if config.secretBytes < 32 then Err(WeakSecret)
    else if config.lifetime < MIN_LIFETIME || config.lifetime > MAX_LIFETIME then Err(LifetimeOutOfRange)
    else if config.lifetime % SECOND != 0 then Err(FractionalLifetime)
    else if config.leeway < 0 || config.leeway > MAX_LEEWAY then Err(LeewayOutOfRange)
    else Ok(config)
  }

  predicate Admitted(config: Config) { NewJWTs(config).Ok? }

  /** The claims of a token whose signature and algorithm have been checked. */
  datatype Claims = Claims(issuer: string, subject: string, audience: seq<string>,
                           issuedAt: Option<int>, notBefore: Option<int>, expiresAt: Option<int>)

  /** NewNumericDate keeps whole seconds, rounding down. */
  function Truncate(t: int): int { t - t % SECOND }

  function Issue(config: Config, subject: string, now: int): Option<Claims> {
    if subject == "" then None
    else Some(Claims(config.issuer, subject, [config.audience],
                     Some(Truncate(now)), Some(Truncate(now)), Some(Truncate(now + config.lifetime))))
  }

  /** time.Time.Sub saturates. */
  function Sub(a: int, b: int): int {
    if a - b > MAX_DURATION then MAX_DURATION
    else if a - b < -MAX_DURATION - 1 then -MAX_DURATION - 1
    else a - b
  }

  /** The lifetime check that `Verify` adds to the library's. */
  predicate LifetimeOk(config: Config, issuedAt: int, expiresAt: int) {
    0 < Sub(expiresAt, issuedAt) <= config.lifetime
  }

  /** `Verify` at the instant `now`. */
  predicate Accepts(config: Config, claims: Claims, now: int) {
    && claims.expiresAt.Some? && now < claims.expiresAt.value + config.leeway
    && (claims.notBefore.Some? ==> now >= claims.notBefore.value - config.leeway)
    && (claims.issuedAt.Some? ==> now >= claims.issuedAt.value - config.leeway)
    && config.audience in claims.audience
    && claims.issuer == config.issuer
    && claims.subject != ""
    && claims.issuedAt.Some?
    && LifetimeOk(config, claims.issuedAt.value, claims.expiresAt.value)
  }

  /** The lifetime a token issued at `now` declares. */
  function DeclaredLifetime(lifetime: int, now: int): int {
    Truncate(now + lifetime) - Truncate(now)
  }

  lemma DeclaredWhole(lifetime: int, now: int)
    requires lifetime % SECOND == 0
    ensures DeclaredLifetime(lifetime, now) == lifetime
  {
    var whole, part := now / SECOND, now % SECOND;
    assert now == whole * SECOND + part;
    assert (now + lifetime) % SECOND == part by {
      assert now + lifetime == (whole + lifetime / SECOND) * SECOND + part;
    }
  }

  /** Just before a second boundary, a fractional lifetime is rounded up. */
  lemma DeclaredRoundedUp(lifetime: int)
    requires lifetime % SECOND != 0
    ensures DeclaredLifetime(lifetime, SECOND - lifetime % SECOND) > lifetime
  {
    var part := lifetime % SECOND;
    var now := SECOND - part;
    assert now + lifetime == (lifetime / SECOND + 1) * SECOND;
    assert (now + lifetime) % SECOND == 0;
    assert now % SECOND == now;
  }

  /** The lifetime check of `Verify` on a token from `Issue`. */
  predicate OwnLifetimeOk(config: Config, subject: string, issued: int)
    requires subject != ""
  {
    var claims := Issue(config, subject, issued).value;
    LifetimeOk(config, claims.issuedAt.value, claims.expiresAt.value)
  }

  /**
   Why `NewJWTs` insists on whole seconds: among the lifetimes in its range, exactly those
   make every token of `Issue`, at every instant, pass the lifetime check of `Verify`.
   */
  lemma SelfAcceptedIffWholeSeconds(config: Config, subject: string)
    requires subject != "" && MIN_LIFETIME <= config.lifetime <= MAX_LIFETIME
    ensures (forall issued :: OwnLifetimeOk(config, subject, issued)) <==> config.lifetime % SECOND == 0
  {
    var lifetime := config.lifetime;
    if lifetime % SECOND == 0 {
      forall issued ensures OwnLifetimeOk(config, subject, issued) {
        DeclaredWhole(lifetime, issued);
      }
    } else {
      DeclaredRoundedUp(lifetime);
      assert !OwnLifetimeOk(config, subject, SECOND - lifetime % SECOND);
    }
  }

  /** The profiles that are admitted: names, 256 secret bits, 1 to 900 whole seconds, at most a minute of leeway. */
  lemma AdmittedProfiles(config: Config)
    ensures Admitted(config) <==>
            && config.issuer != "" && config.audience != "" && config.secretBytes >= 256 / 8
            && (exists seconds: nat :: 1 <= seconds <= 900 && config.lifetime == seconds * 1_000_000_000)
            && 0 <= config.leeway <= 60_000_000_000
  {
    if config.lifetime % SECOND == 0 {
      assert config.lifetime == config.lifetime / SECOND * 1_000_000_000;
    }
    if seconds: nat :| 1 <= seconds <= 900 && config.lifetime == seconds * 1_000_000_000 {
      assert config.lifetime % SECOND == 0;
    }
  }

  /** The time check of RFC 7519 with leeway, in plain arithmetic. */
  predicate TimesOk(claims: Claims, issuedAt: int, expiresAt: int, lifetime: int, leeway: int, now: int) {
    && claims.issuedAt == Some(issuedAt) && claims.expiresAt == Some(expiresAt)
    && issuedAt < expiresAt <= issuedAt + lifetime
    && issuedAt - leeway <= now < expiresAt + leeway
    && (claims.notBefore.Some? ==> claims.notBefore.value - leeway <= now)
  }

  /**
   Exactly which correctly signed tokens an admitted profile accepts, whoever made them: this
   issuer, this audience among others, a subject, both times, at most the lifetime apart, and
   an instant within the leeway of them.  Saturation of the difference never matters.
   */
  lemma AcceptedClaims(config: Config, claims: Claims, now: int)
    requires Admitted(config)
    ensures Accepts(config, claims, now) <==>
            && claims.issuer == config.issuer && (exists k :: 0 <= k < |claims.audience| && claims.audience[k] == config.audience)
            && |claims.subject| > 0
            && exists issuedAt, expiresAt :: TimesOk(claims, issuedAt, expiresAt, config.lifetime, config.leeway, now)
  {
    if claims.issuedAt.Some? && claims.expiresAt.Some? {
      var issuedAt, expiresAt := claims.issuedAt.value, claims.expiresAt.value;
      assert Accepts(config, claims, now) ==> TimesOk(claims, issuedAt, expiresAt, config.lifetime, config.leeway, now);
    }
  }

  /**
   Where a token issued under one admitted profile is accepted under another: only if issuer
   and audience are the same and its lifetime does not exceed the verifier's, and then exactly
   within the verifier's leeway of the truncated issue instant and of its expiry.
   */
  lemma AcceptedExactly(issuer: Config, verifier: Config, subject: string, issued: int, now: int)
    requires Admitted(issuer) && Admitted(verifier) && subject != ""
    ensures Accepts(verifier, Issue(issuer, subject, issued).value, now) <==>
            && issuer.issuer == verifier.issuer && issuer.audience == verifier.audience
            && issuer.lifetime <= verifier.lifetime
            && Truncate(issued) - verifier.leeway <= now < Truncate(issued) + issuer.lifetime + verifier.leeway
  {
    DeclaredWhole(issuer.lifetime, issued);
    assert verifier.audience in [issuer.audience] <==> verifier.audience == issuer.audience;
  }

  /** A token names its subject and carries the second of its issue, twice, and the second of its expiry. */
  lemma IssuedClaims(config: Config, subject: string, now: int)
    ensures subject == "" <==> Issue(config, subject, now).None?
    ensures subject != "" ==>
              var claims := Issue(config, subject, now).value;
              && claims.subject == subject && claims.notBefore == claims.issuedAt
              && claims.issuedAt.Some? && claims.expiresAt.Some?
              && claims.issuedAt.value % SECOND == 0 && 0 <= now - claims.issuedAt.value < SECOND
              && claims.expiresAt.value % SECOND == 0 && 0 <= now + config.lifetime - claims.expiresAt.value < SECOND
  {
    var whole, later := now / SECOND, (now + config.lifetime) / SECOND;
    assert now - now % SECOND == whole * SECOND && (now + config.lifetime) - (now + config.lifetime) % SECOND == later * SECOND;
  }

  /** A token is accepted by its issuer from issue up to one second before its lifetime is over. */
  lemma AcceptedWhileFresh(config: Config, subject: string, issued: int, now: int)
    requires Admitted(config) && subject != ""
    requires issued <= now <= issued + config.lifetime - SECOND
    ensures Accepts(config, Issue(config, subject, issued).value, now)
  {
    AcceptedExactly(config, config, subject, issued, now);
  }

  /** ... and the second is needed: issued just before a boundary, it expires that much early. */
  lemma TruncationCostsAlmostASecond(config: Config, subject: string)
    requires Admitted(config) && config.leeway == 0 && subject != ""
    ensures var issued := SECOND - 1;
            !Accepts(config, Issue(config, subject, issued).value, issued + config.lifetime - SECOND + 1)
  {
    AcceptedExactly(config, config, subject, SECOND - 1, SECOND - 1 + config.lifetime - SECOND + 1);
  }

  /** Any correctly signed token, whoever issued it, is accepted for less than the lifetime and twice the leeway. */
  lemma AcceptanceWindow(config: Config, claims: Claims, first: int, second: int)
    requires Admitted(config)
    requires Accepts(config, claims, first) && Accepts(config, claims, second)
    ensures second - first < config.lifetime + 2 * config.leeway
    ensures second - first < 17 * 60 * SECOND
  {
    assert Sub(claims.expiresAt.value, claims.issuedAt.value) == claims.expiresAt.value - claims.issuedAt.value;
  }
}

/** Process settings and the start-up guard against placeholder secrets. */
module Config {
  import opened Common

  datatype Environment = Local | Staging | Production

  /** The settings the core reads. `SECRET_KEY` defaults to a random
      `token_urlsafe(32)`, which a caller supplies. */
  datatype Settings = Settings(
    secretKey: string,
    accessTokenExpireMinutes: int,
    environment: Environment,
    postgresPassword: string)

  /** 60 minutes * 24 hours * 8 days. */
  const AccessTokenExpireMinutes: int := 60 * 24 * 8

  const Placeholder: string := "changethis"

  /** Settings as built with nothing overridden but the random secret. */
  function DefaultSettings(randomSecret: string): Settings
  {
    Settings(randomSecret, AccessTokenExpireMinutes, Local, "")
  }

  /** What `_check_default_secret` does with one value. */
  datatype Check = Quiet | Warn(message: string) | Raise(message: string)

  function PlaceholderMessage(varName: string): string
  {
    "The value of " + varName + " is \"changethis\", for security, please change it, at least for deployments."
  }

  /** Silent unless the value is the placeholder; then a warning in the local
      environment and a `ValueError` anywhere else. */
  function CheckDefaultSecret(env: Environment, varName: string, value: Option<string>): (r: Check)
    ensures value != Some(Placeholder) <==> r.Quiet?
    ensures r.Warn? <==> value == Some(Placeholder) && env == Local
    ensures r.Raise? <==> value == Some(Placeholder) && env != Local
    ensures !r.Quiet? ==> r.message == PlaceholderMessage(varName)
  {
    if value == Some(Placeholder) then
      var message := PlaceholderMessage(varName);
      if env == Local then Warn(message) else Raise(message)
    else Quiet
  }

  /** Outcome of settings validation: the warnings emitted, or the message of
      the `ValueError` that aborts start-up. */
  datatype Validation = Accepted(warnings: seq<string>) | Rejected(error: string)

  /** `_enforce_non_default_secrets`: checks `SECRET_KEY`, then `POSTGRES_PASSWORD`. */
  function EnforceNonDefaultSecrets(s: Settings): (r: Validation)
    ensures r.Rejected? <==> s.environment != Local && (s.secretKey == Placeholder || s.postgresPassword == Placeholder)
    ensures r.Rejected? && s.secretKey == Placeholder ==> r.error == PlaceholderMessage("SECRET_KEY")
    ensures r.Rejected? && s.secretKey != Placeholder ==> r.error == PlaceholderMessage("POSTGRES_PASSWORD")
    ensures r.Accepted? ==> |r.warnings| == (if s.secretKey == Placeholder then 1 else 0) + (if s.postgresPassword == Placeholder then 1 else 0)
    ensures r.Accepted? && |r.warnings| > 0 ==> s.environment == Local
  {
    var first := CheckDefaultSecret(s.environment, "SECRET_KEY", Some(s.secretKey));
    if first.Raise? then Rejected(first.message)
    else
      var second := CheckDefaultSecret(s.environment, "POSTGRES_PASSWORD", Some(s.postgresPassword));
      if second.Raise? then Rejected(second.message)
      else Accepted(WarningsOf(first) + WarningsOf(second))
  }

  function WarningsOf(c: Check): seq<string>
  {
    if c.Warn? then [c.message] else []
  }

  /** Default settings pass validation, with an eight-day (11520-minute) token lifetime. */
  lemma DefaultsAreAccepted(randomSecret: string)
    requires randomSecret != Placeholder
    ensures EnforceNonDefaultSecrets(DefaultSettings(randomSecret)) == Accepted([])
    ensures DefaultSettings(randomSecret).accessTokenExpireMinutes == 11520
  {
  }
}

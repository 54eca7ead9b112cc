/** The Jwt section of the application configuration, read the same way at
    start-up and by the token service. */
module Configuration {
  import opened Wrappers
  import opened Models

  /** A configuration source: a key is absent exactly when the indexer returns null. */
  type Config = map<string, string>

  const KeyPath := "Jwt:Key"
  const IssuerPath := "Jwt:Issuer"
  const AudiencePath := "Jwt:Audience"

  const KeyMissing := "JWT Key configuration is missing"
  const IssuerMissing := "JWT Issuer configuration is missing"
  const AudienceMissing := "JWT Audience configuration is missing"

  /** The three settings once all of them are present. */
  datatype JwtSettings = JwtSettings(key: string, issuer: string, audience: string)

  predicate Complete(cfg: Config) {
    KeyPath in cfg && IssuerPath in cfg && AudiencePath in cfg
  }

  /** Reads Jwt:Key, Jwt:Issuer and Jwt:Audience in that order; the first missing one
      raises an `ArgumentNullException` naming it. Only absence counts: an empty value is read. */
  function LoadJwtSettings(cfg: Config): (r: Result<JwtSettings, Exception>)
    ensures r.Success? <==> Complete(cfg)
    ensures r.Success? ==> r.value == JwtSettings(cfg[KeyPath], cfg[IssuerPath], cfg[AudiencePath])
    ensures KeyPath !in cfg ==> r == Failure(ArgumentNull(KeyPath, KeyMissing))
    ensures KeyPath in cfg && IssuerPath !in cfg ==> r == Failure(ArgumentNull(IssuerPath, IssuerMissing))
    ensures KeyPath in cfg && IssuerPath in cfg && AudiencePath !in cfg
            ==> r == Failure(ArgumentNull(AudiencePath, AudienceMissing))
  {
    if KeyPath !in cfg then Failure(ArgumentNull(KeyPath, KeyMissing))
    else if IssuerPath !in cfg then Failure(ArgumentNull(IssuerPath, IssuerMissing))
    else if AudiencePath !in cfg then Failure(ArgumentNull(AudiencePath, AudienceMissing))
    else Success(JwtSettings(cfg[KeyPath], cfg[IssuerPath], cfg[AudiencePath]))
  }
}

/** `authenticator`: the inbound credential check handed to the SMTP
    front end. */
module Auth {

  import opened Results
  import opened Text
  import opened Config

  /** What the front end decoded from an `AUTH` exchange: a login and a
      password (aiosmtpd's `LoginPassword`), or any other payload. */
  datatype AuthData = LoginPassword(login: seq<byte>, password: seq<byte>) | OtherData

  /** The relay's `AuthErrors`: why an attempt was refused. */
  datatype AuthError = MechanismError | CredentialsError | OtherError

  /** `AuthResult(success=True)`, or the shared `reject` result
      (`success=False, handled=False`) tagged with the refusal kind. */
  datatype AuthResult = Success | Reject(kind: AuthError)

  predicate SupportedMechanism(mechanism: string)
  {
    mechanism == "LOGIN" || mechanism == "PLAIN"
  }

  /** `authenticator`: the mechanism is checked first, then the payload's
      shape, then both fields against the configured pair. */
  function Authenticator(creds: Credentials, mechanism: string, data: AuthData): (r: AuthResult)
    ensures r.Success? <==>
      && SupportedMechanism(mechanism)
      && data.LoginPassword?
      && creds.user == Some(data.login)
      && creds.password == Some(data.password)
    ensures r == Reject(MechanismError) <==> !SupportedMechanism(mechanism)
    ensures r == Reject(OtherError) <==> SupportedMechanism(mechanism) && !data.LoginPassword?
  {
    if !SupportedMechanism(mechanism) then Reject(MechanismError)
    else if !data.LoginPassword? then Reject(OtherError)
    else if Some(data.login) != creds.user || Some(data.password) != creds.password then
      Reject(CredentialsError)
    else Success
  }

  /** The check fails closed: when either configured value is unset or
      empty in the environment, no attempt succeeds, whatever is supplied. */
  lemma FailsClosed(env: Env, mechanism: string, data: AuthData)
    requires "AUTH_USER" !in env || env["AUTH_USER"] == ""
          || "AUTH_PASSWORD" !in env || env["AUTH_PASSWORD"] == ""
    ensures Authenticator(ReadCredentials(env), mechanism, data).Reject?
  {
  }

  /** With both values set, exactly the configured pair, UTF-8 encoded,
      succeeds under either supported mechanism. */
  lemma AcceptsConfiguredPair(env: Env, mechanism: string, login: seq<byte>, password: seq<byte>)
    requires "AUTH_USER" in env && env["AUTH_USER"] != ""
    requires "AUTH_PASSWORD" in env && env["AUTH_PASSWORD"] != ""
    requires SupportedMechanism(mechanism)
    ensures Authenticator(ReadCredentials(env), mechanism, LoginPassword(login, password)).Success?
        <==> login == EncodeUtf8(env["AUTH_USER"]) && password == EncodeUtf8(env["AUTH_PASSWORD"])
  {
  }
}

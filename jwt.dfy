/**
 * JWT signing, kept abstract: a token is determined by its payload, the
 * signing options and the second it was issued in.  Two signatures of the
 * same payload with the same options in the same second are the same token.
 */
module Jwt {
  import opened Wrappers

  /** The claims the services put in every token: `{sub, name, email}`. */
  datatype Payload = Payload(sub: int, name: string, email: string)

  /** `{secret, expiresIn}` as read from the configuration (absent keys read as None). */
  datatype SignOptions = SignOptions(secret: Option<string>, expiresIn: Option<string>)

  datatype Token = Signed(payload: Payload, options: SignOptions, issuedAt: nat)

  /**
   * jwtService.signAsync(payload, options) at clock second `now`: decoding the
   * token gives back the payload, the options and the issue second.
   */
  function Sign(payload: Payload, options: SignOptions, now: nat): (t: Token)
    ensures t.payload == payload && t.options == options && t.issuedAt == now
  {
    Signed(payload, options, now)
  }
}

/**
 * The helper module totp.py: the same code generation and verification as
 * the service, with pyotp's default parameters and a `ValueError` (here
 * `None`) for a seed that is not hexadecimal.
 */
module TotpHelpers {
  import opened Wrappers
  import Hex
  import Base32
  import Totp
  import App

  /** `generate_totp_code`: hex to bytes, bytes to base32, and the code of
      the step that holds time `t`. */
  function GenerateTotpCode(hotp: Totp.Hotp, hexSeed: string, t: nat): (r: Option<Totp.Code>)
    ensures r.Some? <==> Hex.FromHex(hexSeed).Some?
    ensures r == App.GenerateTotp(hotp, hexSeed, t).ToOption()
  {
    match Hex.FromHex(hexSeed)
    case None => None
    case Some(seedBytes) =>
      var base32Seed := Base32.Encode(seedBytes);
      Some(Totp.CodeAt(hotp, base32Seed, t))
  }

  /** `verify_totp_code`: is `code` the code of a step at most `validWindow`
      steps away from the one that holds time `t`. */
  function VerifyTotpCode(hotp: Totp.Hotp, hexSeed: string, code: string, t: nat, validWindow: int := 1): (r: Option<bool>)
    ensures r.Some? <==> Hex.FromHex(hexSeed).Some?
    ensures r == App.VerifyTotp(hotp, hexSeed, code, t, validWindow).ToOption()
  {
    match Hex.FromHex(hexSeed)
    case None => None
    case Some(seedBytes) =>
      var base32Seed := Base32.Encode(seedBytes);
      Some(Totp.Verify(hotp, base32Seed, code, t, validWindow))
  }

  /** The example block of totp.py: a code generated at time `t` verifies at
      the same `t` with the default window. */
  lemma GeneratedCodeVerifies(hotp: Totp.Hotp, hexSeed: string, t: nat)
    requires Hex.FromHex(hexSeed).Some?
    ensures VerifyTotpCode(hotp, hexSeed, GenerateTotpCode(hotp, hexSeed, t).value, t) == Some(true)
  {
    App.GeneratedCodeVerifies(hotp, hexSeed, t, 1);
  }

  /** The default window of one step accepts the code of the previous, the
      current and the next step. */
  lemma DefaultWindowAcceptsNeighbours(hotp: Totp.Hotp, hexSeed: string, t: nat, k: int)
    requires Hex.FromHex(hexSeed).Some?
    requires -1 <= k <= 1 && t + k * Totp.Interval >= 0
    ensures VerifyTotpCode(hotp, hexSeed, GenerateTotpCode(hotp, hexSeed, t + k * Totp.Interval).value, t) == Some(true)
  {
    Totp.NeighbourCodeVerifies(hotp, App.HexToBase32(hexSeed).value, t, 1, k);
  }

  /** A code two steps away is accepted only if it happens to equal the code
      of one of the three steps the window covers. */
  lemma DefaultWindowRejectsOthers(hotp: Totp.Hotp, hexSeed: string, code: string, t: nat)
    requires Hex.FromHex(hexSeed).Some?
    requires forall c :: Totp.Counter(t) - 1 <= c <= Totp.Counter(t) + 1 ==>
      code != hotp(App.HexToBase32(hexSeed).value, c)
    ensures VerifyTotpCode(hotp, hexSeed, code, t) == Some(false)
  {
  }
}

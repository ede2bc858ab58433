/**
 * The cron job scripts/log_2fa_cron.py: it reads the seed file, derives the
 * base32 secret with `binascii.unhexlify` and logs the current code, or logs
 * an error line and stops.
 */
module Log2faCron {
  import opened Wrappers
  import opened Bits
  import Text
  import Hex
  import Base32
  import Totp
  import App

  /** `read_seed_hex`: the stripped content of the seed file, or `None` when
      the file does not exist. */
  function ReadSeedHex(file: Option<string>): (r: Option<string>)
    ensures r.None? <==> file.None?
    ensures file.Some? ==> r == Some(Text.Strip(file.value))
    ensures r.Some? ==> Text.NoSurroundingSpace(r.value)
    ensures App.ReadSeed(file).Success? ==> r == Some(App.ReadSeed(file).value)
  {
    match file
    case None => None
    case Some(text) => Some(Text.Strip(text))
  }

  /** `hex_to_base32`: any exception becomes `None`. The secret decodes back
      to the bytes the hex text denotes. */
  function HexToBase32(hexSeed: string): (r: Option<string>)
    ensures r.Some? <==> Hex.Unhexlify(hexSeed).Some?
    ensures r.Some? ==> Base32.Decode(r.value) == Hex.Unhexlify(hexSeed)
  {
    match Hex.Unhexlify(hexSeed)
    case None => None
    case Some(rawBytes) =>
      Base32.DecodeEncode(rawBytes);
      Some(Base32.Encode(rawBytes))
  }

  /** Without ASCII white space in the seed, the cron job derives the same
      secret as the service, and fails exactly when the service does. */
  lemma AgreesWithService(hexSeed: string)
    requires forall i :: 0 <= i < |hexSeed| ==> !Hex.IsAsciiSpace(hexSeed[i])
    ensures HexToBase32(hexSeed) == App.HexToBase32(hexSeed).ToOption()
  {
    Hex.UnhexlifyAgreesWithFromHex(hexSeed);
  }

  /** With white space between digit pairs they differ: the service skips
      it, the cron job gives up. */
  lemma DisagreesOnInnerSpace()
    ensures App.HexToBase32("ab cd").Success? && HexToBase32("ab cd").None?
  {
    Hex.FromHexSkipsSpaceUnhexlifyDoesNot();
  }

  /** Non-empty text that unhexlifies denotes at least one byte, so its
      secret is never empty. */
  lemma SecretNotEmpty(hexSeed: string)
    requires hexSeed != [] && HexToBase32(hexSeed).Some?
    ensures HexToBase32(hexSeed).value != []
  {
    var raw := Hex.Unhexlify(hexSeed).value;
    assert raw != [] by {
      assert |hexSeed| % 2 == 0;
      assert Hex.Pairs(hexSeed).Some?;
    }
    Base32.EncodeNonEmpty(raw);
  }

  /** The one line `main` prints, without its timestamp. */
  datatype LogLine =
    | ErrorLine(message: string)
    | CodeLine(code: Totp.Code)

  /** `main`: each failure prints its error line and stops; otherwise the
      code of the step holding `now` is logged. `seedFile` is the content of
      /data/seed.txt, `None` when the file does not exist. */
  method LogCurrentCode(seedFile: Option<string>, hotp: Totp.Hotp, now: nat) returns (line: LogLine)
    ensures ReadSeedHex(seedFile).None? || ReadSeedHex(seedFile).value == [] ==>
      line == ErrorLine("ERROR: seed.txt not found or empty")
    ensures (ReadSeedHex(seedFile).Some? && ReadSeedHex(seedFile).value != []
        && HexToBase32(ReadSeedHex(seedFile).value).None?) ==>
      line == ErrorLine("ERROR: Failed to convert hex to base32")
    ensures (ReadSeedHex(seedFile).Some? && ReadSeedHex(seedFile).value != []
        && HexToBase32(ReadSeedHex(seedFile).value).Some?) ==>
      line == CodeLine(Totp.CodeAt(hotp, HexToBase32(ReadSeedHex(seedFile).value).value, now))
  {
    var seedHex := ReadSeedHex(seedFile);
    if seedHex.None? || seedHex.value == [] {
      return ErrorLine("ERROR: seed.txt not found or empty");
    }
    var seedB32 := HexToBase32(seedHex.value);
    if seedB32.None? || seedB32.value == [] {
      if seedB32.Some? {
        SecretNotEmpty(seedHex.value);
        assert false;
      }
      return ErrorLine("ERROR: Failed to convert hex to base32");
    }
    line := CodeLine(Totp.CodeAt(hotp, seedB32.value, now));
  }

  /** Whenever the cron job logs a code, the service's `generate_totp` on the
      same stripped text gives the same code; if that text also has the 64
      characters `read_seed` demands, the generate endpoint issues that code.
      The text need not be a well-formed seed (upper-case digits, say). */
  lemma LogsServiceCodeAnyHex(text: string, hotp: Totp.Hotp, now: nat, clockTime: nat)
    requires ReadSeedHex(Some(text)).value != [] && HexToBase32(ReadSeedHex(Some(text)).value).Some?
    ensures var hexSeed := Text.Strip(text);
      App.GenerateTotp(hotp, hexSeed, now) == Success(Totp.CodeAt(hotp, HexToBase32(hexSeed).value, now))
    ensures var hexSeed := Text.Strip(text);
      |hexSeed| == 64 ==>
        App.GenerateResponse(Some(text), hotp, now, clockTime)
          == App.CodeIssued(Totp.CodeAt(hotp, HexToBase32(hexSeed).value, now), App.TimeRemaining(clockTime))
  {
    var hexSeed := Text.Strip(text);
    assert |hexSeed| % 2 == 0 && Hex.Pairs(hexSeed).Some?;
    Hex.PairsHaveNoSpace(hexSeed);
    AgreesWithService(hexSeed);
  }

  /** For a seed file the service would read as a well-formed seed, the cron
      job logs the code the service issues at the same instant. */
  lemma LogsServiceCode(text: string, hotp: Totp.Hotp, now: nat)
    requires App.ReadSeed(Some(text)).Success? && App.IsSeed(App.ReadSeed(Some(text)).value)
    ensures var seed := App.ReadSeed(Some(text)).value;
      && ReadSeedHex(Some(text)) == Some(seed)
      && seed != []
      && HexToBase32(seed).Some?
      && App.GenerateTotp(hotp, seed, now).Success?
      && Totp.CodeAt(hotp, HexToBase32(seed).value, now) == App.GenerateTotp(hotp, seed, now).value
  {
    var seed := App.ReadSeed(Some(text)).value;
    assert ReadSeedHex(Some(text)) == Some(seed);
    App.SeedIsHex(seed);
    AgreesWithService(seed);
  }
}

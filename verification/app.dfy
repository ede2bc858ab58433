/**
 * The HTTP service of app.py: it decrypts the provisioned seed, keeps it in
 * data/seed.txt, and issues and checks six-digit codes derived from it.
 * Each endpoint is a method over the seed file; the request body, the key,
 * the HOTP primitive and the clock readings are its parameters.
 */
module App {
  import opened Wrappers
  import opened Bits
  import Text
  import Hex
  import Base32
  import Base64
  import Totp
  import opened Oaep

  // ---------------------------------------------------------------------
  // The seed
  // ---------------------------------------------------------------------

  /** The only characters a decrypted seed may contain. */
  const SeedDigits := "0123456789abcdef"

  /** A well-formed seed: 64 lower-case hexadecimal digits (256 bits). */
  predicate IsSeed(s: string) {
    |s| == 64 && forall i :: 0 <= i < |s| ==> s[i] in SeedDigits
  }

  /** The seed format is exactly "64 lower-case hexadecimal digits". */
  lemma SeedIsLowerHex(s: string)
    ensures IsSeed(s) <==> |s| == 64 && Hex.IsLowerHex(s)
  {
    forall c: char
      ensures c in SeedDigits <==> Hex.IsLowerHexDigit(c)
    {
      if Hex.IsLowerHexDigit(c) {
        if '0' <= c <= '9' {
          assert c == SeedDigits[c as int - '0' as int];
        } else {
          assert c == SeedDigits[c as int - 'a' as int + 10];
        }
      }
    }
  }

  /** Upper-case digits are not normalised: a single one spoils the seed. */
  lemma UpperCaseRejected(s: string, k: nat)
    requires k < |s| && 'A' <= s[k] <= 'F'
    ensures !IsSeed(s)
  {
  }

  /** A well-formed seed is hexadecimal text of 32 bytes, with no white
      space in it. */
  lemma SeedIsHex(s: string)
    requires IsSeed(s)
    ensures Hex.FromHex(s).Some? && |Hex.FromHex(s).value| == 32
    ensures forall i :: 0 <= i < |s| ==> !Hex.IsAsciiSpace(s[i])
  {
    SeedIsLowerHex(s);
    Hex.ToHexFromHex(s);
  }

  // ---------------------------------------------------------------------
  // decrypt_seed_b64
  // ---------------------------------------------------------------------

  /** Why `decrypt_seed_b64` raised. */
  datatype DecryptError =
    | PayloadNotAscii     // b64decode refused a non-ASCII payload
    | PayloadNotBase64    // "Encrypted seed is not valid base64"
    | KeyUnavailable      // student_private.pem missing or not a key
    | DecryptionFailed    // OAEP decryption or UTF-8 decoding raised
    | InvalidSeedFormat   // "Decrypted seed invalid format"

  /** `decrypt_seed_b64`: base64-decode the payload (leniently, without
      repairing its padding), decrypt it with the key, strip the plaintext
      and accept it only if it is a well-formed seed. */
  function DecryptSeedB64(key: Option<PrivateKey>, encryptedSeedB64: string): (r: Result<string, DecryptError>)
    ensures Base64.Decode(encryptedSeedB64).Failure? ==>
      r == Failure(if Base64.Decode(encryptedSeedB64).error == Base64.NonAscii then PayloadNotAscii else PayloadNotBase64)
    ensures Base64.Decode(encryptedSeedB64).Success? && key.None? ==> r == Failure(KeyUnavailable)
    ensures (Base64.Decode(encryptedSeedB64).Success? && key.Some?
      && key.value(Base64.Decode(encryptedSeedB64).value).None?) ==> r == Failure(DecryptionFailed)
    ensures (Base64.Decode(encryptedSeedB64).Success? && key.Some?
      && key.value(Base64.Decode(encryptedSeedB64).value).Some?
      && !IsSeed(Text.Strip(key.value(Base64.Decode(encryptedSeedB64).value).value))) ==> r == Failure(InvalidSeedFormat)
    ensures r.Success? <==>
      && Base64.Decode(encryptedSeedB64).Success?
      && key.Some?
      && key.value(Base64.Decode(encryptedSeedB64).value).Some?
      && IsSeed(Text.Strip(key.value(Base64.Decode(encryptedSeedB64).value).value))
    ensures r.Success? ==>
      && IsSeed(r.value)
      && r.value == Text.Strip(key.value(Base64.Decode(encryptedSeedB64).value).value)
  {
    match Base64.Decode(encryptedSeedB64)
    case Failure(e) => Failure(if e == Base64.NonAscii then PayloadNotAscii else PayloadNotBase64)
    case Success(ciphertext) =>
      if key.None? then Failure(KeyUnavailable)
      else match key.value(ciphertext)
        case None => Failure(DecryptionFailed)
        case Some(plain) =>
          var seed := Text.Strip(plain);
          if !IsSeed(seed) then Failure(InvalidSeedFormat)
          else Success(seed)
  }

  /** A properly encoded ciphertext whose plaintext is a seed framed by
      white space (a trailing newline, say) yields exactly that seed. */
  lemma DecryptsFramedSeed(key: PrivateKey, ciphertext: seq<byte>, before: string, seed: string, after: string)
    requires key(ciphertext) == Some(before + seed + after)
    requires Text.AllSpace(before) && Text.AllSpace(after) && IsSeed(seed)
    ensures DecryptSeedB64(Some(key), Base64.Encode(ciphertext)) == Success(seed)
  {
    Base64.DecodeEncode(ciphertext);
    assert Text.NoSurroundingSpace(seed) by {
      SeedIsLowerHex(seed);
      assert Hex.IsLowerHexDigit(seed[0]) && Hex.IsLowerHexDigit(seed[63]);
    }
    Text.StripSurrounded(before, seed, after);
  }

  /** app.py does not repair missing padding: the unpadded encoding of a
      ciphertext whose length is not a multiple of 3 is refused as invalid
      base64 before the key is even consulted. */
  lemma UnpaddedPayloadRejected(key: Option<PrivateKey>, ciphertext: seq<byte>)
    requires |ciphertext| % 3 != 0
    ensures DecryptSeedB64(key, Base64.Unpadded(ciphertext)) == Failure(PayloadNotBase64)
  {
    Base64.DecodeRejectsUnpadded(ciphertext);
  }

  // ---------------------------------------------------------------------
  // The seed file: save_seed and read_seed
  // ---------------------------------------------------------------------

  /** Why `read_seed` raised. */
  datatype ReadError =
    | SeedNotFound        // FileNotFoundError: data/seed.txt does not exist
    | InvalidSeedLength   // ValueError: the stripped content is not 64 long

  /** `read_seed` on the file's content (`None` when there is no file): the
      stripped content, provided it has 64 characters. Its characters are not
      checked. */
  function ReadSeed(file: Option<string>): (r: Result<string, ReadError>)
    ensures r == Failure(SeedNotFound) <==> file.None?
    ensures file.Some? ==> (r.Success? <==> |Text.Strip(file.value)| == 64)
    ensures file.Some? && |Text.Strip(file.value)| != 64 ==> r == Failure(InvalidSeedLength)
    ensures file.Some? && |Text.Strip(file.value)| == 64 ==> r == Success(Text.Strip(file.value))
    ensures r.Success? ==> |r.value| == 64 && Text.NoSurroundingSpace(r.value)
  {
    match file
    case None => Failure(SeedNotFound)
    case Some(text) =>
      var s := Text.Strip(text);
      if |s| != 64 then Failure(InvalidSeedLength) else Success(s)
  }

  /** data/seed.txt. */
  class SeedStore {
    /** The file's content; `None` while the file does not exist. */
    var file: Option<string>

    /** A fresh deployment: no seed has been decrypted yet. */
    constructor ()
      ensures file == None
    {
      file := None;
    }

    /** `save_seed`: the file now holds `hexSeed`, written as given. */
    method Save(hexSeed: string)
      modifies this
      ensures file == Some(hexSeed)
    {
      file := Some(hexSeed);
    }

    /** `read_seed`. */
    method Read() returns (r: Result<string, ReadError>)
      ensures r == ReadSeed(file)
    {
      if file.None? {
        return Failure(SeedNotFound);
      }
      var s := Text.Strip(file.value);
      if |s| != 64 {
        return Failure(InvalidSeedLength);
      }
      r := Success(s);
    }
  }

  /** A saved seed, with or without white space around it, reads back
      unchanged. */
  lemma SavedSeedReadsBack(before: string, seed: string, after: string)
    requires Text.AllSpace(before) && Text.AllSpace(after) && IsSeed(seed)
    ensures ReadSeed(Some(before + seed + after)) == Success(seed)
  {
    assert Text.NoSurroundingSpace(seed) by {
      SeedIsLowerHex(seed);
      assert Hex.IsLowerHexDigit(seed[0]) && Hex.IsLowerHexDigit(seed[63]);
    }
    Text.StripSurrounded(before, seed, after);
  }

  /** Text of 64 characters with no white space around it reads back
      unchanged. */
  lemma StrippedReadsBack(s: string)
    requires |s| == 64 && Text.NoSurroundingSpace(s)
    ensures ReadSeed(Some(s)) == Success(s)
  {
    Text.StripFixpoint(s);
  }

  /** `read_seed` checks the length only: 64 characters framed by no white
      space are read as a seed even when one of them is not a hexadecimal
      digit, which `generate_totp` then fails on. */
  lemma ReadSeedChecksLengthOnly(s: string, k: nat)
    requires |s| == 64 && Text.NoSurroundingSpace(s)
    requires k < |s| && Hex.DigitValue(s[k]).None? && !Hex.IsAsciiSpace(s[k])
    ensures ReadSeed(Some(s)) == Success(s) && !IsSeed(s) && Hex.FromHex(s).None?
  {
    StrippedReadsBack(s);
    assert Hex.FromHex(s).None? by {
      Hex.NonHexRejected(s, k);
    }
    assert !IsSeed(s) by {
      SeedIsLowerHex(s);
      assert !Hex.IsLowerHexDigit(s[k]);
    }
  }

  // ---------------------------------------------------------------------
  // The codes
  // ---------------------------------------------------------------------

  /** `bytes.fromhex` raised `ValueError`. */
  datatype HexError = NotHex

  /** `hex_to_base32`: the seed's bytes in base32, padding included. The
      secret handed to pyotp decodes back to those bytes. */
  function HexToBase32(hexSeed: string): (r: Result<string, HexError>)
    ensures r.Success? <==> Hex.FromHex(hexSeed).Some?
    ensures r.Success? ==> Base32.Decode(r.value) == Some(Hex.FromHex(hexSeed).value)
  {
    match Hex.FromHex(hexSeed)
    case None => Failure(NotHex)
    case Some(raw) =>
      Base32.DecodeEncode(raw);
      Success(Base32.Encode(raw))
  }

  /** For a well-formed seed the secret is the 56-character base32 text of
      its 32 bytes, ending in four `=`, and nothing of the seed is lost:
      decoding the secret and writing it in hexadecimal gives the seed. */
  lemma SeedSecret(s: string)
    requires IsSeed(s)
    ensures HexToBase32(s).Success?
    ensures |HexToBase32(s).value| == 56 && HexToBase32(s).value[52..] == "===="
    ensures Base32.Decode(HexToBase32(s).value).Some?
    ensures Hex.ToHex(Base32.Decode(HexToBase32(s).value).value) == s
  {
    SeedIsLowerHex(s);
    Hex.ToHexFromHex(s);
    Base32.EncodeThirtyTwoBytes(Hex.FromHex(s).value);
  }

  /** `generate_totp`: the code of the step that holds time `t`. */
  function GenerateTotp(hotp: Totp.Hotp, hexSeed: string, t: nat): (r: Result<Totp.Code, HexError>)
    ensures r.Success? <==> Hex.FromHex(hexSeed).Some?
  {
    match HexToBase32(hexSeed)
    case Failure(e) => Failure(e)
    case Success(b32) => Success(Totp.CodeAt(hotp, b32, t))
  }

  /** `verify_totp`: is `code` the code of a step at most `validWindow`
      steps away from the one that holds time `t`. */
  function VerifyTotp(hotp: Totp.Hotp, hexSeed: string, code: string, t: nat, validWindow: int := 1): (r: Result<bool, HexError>)
    ensures r.Success? <==> Hex.FromHex(hexSeed).Some?
    ensures r.Success? ==> (r.value <==>
      exists c :: Totp.Counter(t) - validWindow <= c <= Totp.Counter(t) + validWindow
        && code == hotp(HexToBase32(hexSeed).value, c))
  {
    match HexToBase32(hexSeed)
    case Failure(e) => Failure(e)
    case Success(b32) =>
      Totp.VerifyIff(hotp, b32, code, t, validWindow);
      Success(Totp.Verify(hotp, b32, code, t, validWindow))
  }

  /** A generated code is accepted at the same instant by any window that is
      not negative. */
  lemma GeneratedCodeVerifies(hotp: Totp.Hotp, hexSeed: string, t: nat, w: int)
    requires Hex.FromHex(hexSeed).Some? && w >= 0
    ensures VerifyTotp(hotp, hexSeed, GenerateTotp(hotp, hexSeed, t).value, t, w) == Success(true)
  {
    Totp.CurrentCodeVerifies(hotp, HexToBase32(hexSeed).value, t, w);
  }

  /** With the default window of one step, the codes of the previous, the
      current and the next step are accepted (`TotpHelpers.DefaultWindowRejectsOthers`
      shows that no other code is). */
  lemma DefaultWindowTolerance(hotp: Totp.Hotp, hexSeed: string, t: nat, t': nat)
    requires Hex.FromHex(hexSeed).Some?
    requires Totp.Counter(t) - 1 <= Totp.Counter(t') <= Totp.Counter(t) + 1
    ensures VerifyTotp(hotp, hexSeed, GenerateTotp(hotp, hexSeed, t').value, t) == Success(true)
  {
  }

  /** `totp_time_remaining`: the seconds left in the current 30-second step,
      which is the time the current code stays current. */
  function TimeRemaining(t: nat): (r: nat)
    ensures 1 <= r <= Totp.Interval
    ensures Totp.Counter(t + r - 1) == Totp.Counter(t)
    ensures Totp.Counter(t + r) == Totp.Counter(t) + 1
  {
    30 - t % 30
  }

  /** The code does not change during the remaining seconds of its step. */
  lemma CodeStableWhileValid(hotp: Totp.Hotp, key: string, t: nat, d: nat)
    requires d < TimeRemaining(t)
    ensures Totp.CodeAt(hotp, key, t + d) == Totp.CodeAt(hotp, key, t)
  {
    assert Totp.Counter(t + d) == Totp.Counter(t);
  }

  // ---------------------------------------------------------------------
  // Endpoints
  // ---------------------------------------------------------------------

  /** The JSON bodies the endpoints answer with. */
  datatype Response =
    | SeedStored                              // {"status": "ok"}
    | CodeIssued(code: string, validFor: nat) // {"code": ..., "valid_for": ...}
    | Verdict(valid: bool)                    // {"valid": ...}
    | HttpError(status: nat, error: string)   // HTTPException, detail {"error": ...}

  /** POST /decrypt-seed: store the decrypted seed, or answer 500 and leave
      the file as it was. */
  method DecryptSeedEndpoint(store: SeedStore, key: Option<PrivateKey>, encryptedSeed: string) returns (resp: Response)
    modifies store
    ensures DecryptSeedB64(key, encryptedSeed).Success? ==>
      resp == SeedStored && store.file == Some(DecryptSeedB64(key, encryptedSeed).value)
    ensures DecryptSeedB64(key, encryptedSeed).Failure? ==>
      resp == HttpError(500, "Decryption failed") && store.file == old(store.file)
  {
    var seed := DecryptSeedB64(key, encryptedSeed);
    if seed.Failure? {
      return HttpError(500, "Decryption failed");
    }
    store.Save(seed.value);
    resp := SeedStored;
  }

  /** What POST /decrypt-seed stores reads back, through `read_seed`, as the
      same well-formed seed. */
  lemma DecryptedSeedReadsBack(key: Option<PrivateKey>, encryptedSeed: string)
    requires DecryptSeedB64(key, encryptedSeed).Success?
    ensures var seed := DecryptSeedB64(key, encryptedSeed).value;
      ReadSeed(Some(seed)) == Success(seed) && IsSeed(seed)
  {
    var seed := DecryptSeedB64(key, encryptedSeed).value;
    assert |seed| == 64 && Text.NoSurroundingSpace(seed);
    StrippedReadsBack(seed);
  }

  /** What GET /generate-2fa answers when the seed file holds `file`.
      pyotp reads the clock for the code (`codeTime`) and
      `totp_time_remaining` reads it again for `valid_for` (`clockTime`). */
  function GenerateResponse(file: Option<string>, hotp: Totp.Hotp, codeTime: nat, clockTime: nat): (resp: Response)
    ensures file.None? ==> resp == HttpError(500, "Seed not decrypted yet")
    ensures ReadSeed(file) == Failure(InvalidSeedLength) ==> resp == HttpError(500, "Seed read error")
    ensures ReadSeed(file).Success? && Hex.FromHex(ReadSeed(file).value).None? ==>
      resp == HttpError(500, "TOTP generation failed")
    ensures resp.CodeIssued? ==>
      && ReadSeed(file).Success?
      && Totp.IsCode(resp.code)
      && VerifyTotp(hotp, ReadSeed(file).value, resp.code, codeTime, 0) == Success(true)
      && resp.validFor == TimeRemaining(clockTime)
      && 1 <= resp.validFor <= Totp.Interval
      && Totp.Counter(clockTime + resp.validFor) == Totp.Counter(clockTime) + 1
    ensures ReadSeed(file).Success? && Hex.FromHex(ReadSeed(file).value).Some? ==> resp.CodeIssued?
    ensures resp.CodeIssued? || resp.HttpError?
  {
    match ReadSeed(file)
    case Failure(SeedNotFound) => HttpError(500, "Seed not decrypted yet")
    case Failure(_) => HttpError(500, "Seed read error")
    case Success(seed) =>
      match GenerateTotp(hotp, seed, codeTime)
      case Failure(_) => HttpError(500, "TOTP generation failed")
      case Success(code) =>
        GeneratedCodeVerifies(hotp, seed, codeTime, 0);
        CodeIssued(code, TimeRemaining(clockTime))
  }

  /** GET /generate-2fa: read the seed, then issue the current code and the
      seconds it remains current. */
  method Generate2faEndpoint(store: SeedStore, hotp: Totp.Hotp, codeTime: nat, clockTime: nat) returns (resp: Response)
    ensures resp == GenerateResponse(store.file, hotp, codeTime, clockTime)
  {
    var read := store.Read();
    if read.Failure? {
      if read.error == SeedNotFound {
        return HttpError(500, "Seed not decrypted yet");
      }
      return HttpError(500, "Seed read error");
    }
    var code := GenerateTotp(hotp, read.value, codeTime);
    if code.Failure? {
      return HttpError(500, "TOTP generation failed");
    }
    resp := CodeIssued(code.value, TimeRemaining(clockTime));
  }

  /** A well-formed seed in the file always yields a code. */
  lemma SeedYieldsCode(file: Option<string>, hotp: Totp.Hotp, codeTime: nat, clockTime: nat)
    requires ReadSeed(file).Success? && IsSeed(ReadSeed(file).value)
    ensures GenerateResponse(file, hotp, codeTime, clockTime).CodeIssued?
  {
    SeedIsHex(ReadSeed(file).value);
  }

  /** When both clock readings fall in the same step, the issued code stays
      current for the whole of `valid_for`. */
  lemma ValidForExactWithinStep(codeTime: nat, clockTime: nat, d: nat)
    requires Totp.Counter(codeTime) == Totp.Counter(clockTime) && d < TimeRemaining(clockTime)
    ensures Totp.Counter(clockTime + d) == Totp.Counter(codeTime)
  {
  }

  /** When a step boundary falls between the two readings, the issued code
      belongs to a step that has already ended, during all of `valid_for`
      (for instance `codeTime` 29 and `clockTime` 30 give a stale code with
      `valid_for` 30). */
  lemma ValidForOverstatesAcrossStep(codeTime: nat, clockTime: nat, d: nat)
    requires codeTime <= clockTime && Totp.Counter(codeTime) < Totp.Counter(clockTime)
    requires d < TimeRemaining(clockTime)
    ensures Totp.Counter(clockTime + d) > Totp.Counter(codeTime)
  {
    assert Totp.Counter(clockTime + d) >= Totp.Counter(clockTime);
  }

  /** What POST /verify-2fa answers for `code` when the seed file holds
      `file`: an empty code is refused before the seed is read; otherwise the
      code is checked with a window of one step. */
  function VerifyResponse(file: Option<string>, hotp: Totp.Hotp, code: string, now: nat): (resp: Response)
    ensures code == "" ==> resp == HttpError(400, "Missing code")
    ensures code != "" && file.None? ==> resp == HttpError(500, "Seed not decrypted yet")
    ensures code != "" && ReadSeed(file) == Failure(InvalidSeedLength) ==>
      resp == HttpError(500, "Seed read error")
    ensures code != "" && ReadSeed(file).Success? && Hex.FromHex(ReadSeed(file).value).None? ==>
      resp == HttpError(500, "Verification error")
    ensures resp.Verdict? <==> code != "" && ReadSeed(file).Success? && Hex.FromHex(ReadSeed(file).value).Some?
    ensures resp.Verdict? || resp.HttpError?
  {
    if code == "" then HttpError(400, "Missing code")
    else match ReadSeed(file)
      case Failure(SeedNotFound) => HttpError(500, "Seed not decrypted yet")
      case Failure(_) => HttpError(500, "Seed read error")
      case Success(seed) =>
        match VerifyTotp(hotp, seed, code, now, 1)
        case Failure(_) => HttpError(500, "Verification error")
        case Success(valid) => Verdict(valid)
  }

  /** A verdict says whether the code is the code of the step that holds
      `now`, of the one before or of the one after. */
  lemma VerdictMeaning(file: Option<string>, hotp: Totp.Hotp, code: string, now: nat)
    requires VerifyResponse(file, hotp, code, now).Verdict?
    ensures ReadSeed(file).Success? && Hex.FromHex(ReadSeed(file).value).Some?
    ensures VerifyResponse(file, hotp, code, now).valid <==>
      exists c :: Totp.Counter(now) - 1 <= c <= Totp.Counter(now) + 1
        && code == hotp(HexToBase32(ReadSeed(file).value).value, c)
  {
    var seed := ReadSeed(file).value;
    assert VerifyResponse(file, hotp, code, now) == Verdict(VerifyTotp(hotp, seed, code, now, 1).value);
  }

  /** POST /verify-2fa. */
  method Verify2faEndpoint(store: SeedStore, hotp: Totp.Hotp, code: string, now: nat) returns (resp: Response)
    ensures resp == VerifyResponse(store.file, hotp, code, now)
  {
    if code == "" {
      return HttpError(400, "Missing code");
    }
    var read := store.Read();
    if read.Failure? {
      if read.error == SeedNotFound {
        return HttpError(500, "Seed not decrypted yet");
      }
      return HttpError(500, "Seed read error");
    }
    var valid := VerifyTotp(hotp, read.value, code, now, 1);
    if valid.Failure? {
      return HttpError(500, "Verification error");
    }
    resp := Verdict(valid.value);
  }

  /** A code the generate endpoint issued from a well-formed seed is
      accepted by the verify endpoint, over the same file, at any later time
      up to the end of the following step. */
  lemma IssuedCodeAccepted(file: Option<string>, hotp: Totp.Hotp, t: nat, t': nat)
    requires ReadSeed(file).Success? && IsSeed(ReadSeed(file).value)
    requires t <= t' && Totp.Counter(t') <= Totp.Counter(t) + 1
    ensures GenerateResponse(file, hotp, t, t).CodeIssued?
    ensures VerifyResponse(file, hotp, GenerateResponse(file, hotp, t, t).code, t') == Verdict(true)
  {
    var seed := ReadSeed(file).value;
    SeedIsHex(seed);
    DefaultWindowTolerance(hotp, seed, t', t);
  }

  /** The whole pipeline: once a correctly encrypted seed has been posted, a
      code issued at time `t` is accepted at any later time `t'` up to the
      end of the following step. */
  method ProvisionIssueVerify(key: PrivateKey, ciphertext: seq<byte>, hotp: Totp.Hotp, t: nat, t': nat)
    returns (stored: Response, issued: Response, verdict: Response)
    requires key(ciphertext).Some? && IsSeed(Text.Strip(key(ciphertext).value))
    requires t <= t' && Totp.Counter(t') <= Totp.Counter(t) + 1
    ensures stored == SeedStored && issued.CodeIssued? && verdict == Verdict(true)
  {
    var store := new SeedStore();
    var payload := Base64.Encode(ciphertext);
    ghost var seed := DecryptSeedB64(Some(key), payload);
    assert seed.Success? && ReadSeed(Some(seed.value)) == Success(seed.value) && IsSeed(seed.value) by {
      Base64.DecodeEncode(ciphertext);
      DecryptedSeedReadsBack(Some(key), payload);
    }
    stored := DecryptSeedEndpoint(store, Some(key), payload);
    ghost var file := store.file;
    assert file == Some(seed.value);
    IssuedCodeAccepted(file, hotp, t, t');
    issued := Generate2faEndpoint(store, hotp, t, t);
    verdict := Verify2faEndpoint(store, hotp, issued.code, t');
  }
}

# Seed provisioning and TOTP verification, modelled in Dafny

The system hands each student a per-student TOTP secret. The secret (the
*seed*) arrives as RSA-OAEP ciphertext in base64. It is decrypted locally
and kept in `data/seed.txt`. From then on, six-digit codes derived from it
are issued and checked: over HTTP (app.py), from a helper module (totp.py)
and from a cron job (scripts/log_2fa_cron.py). A one-shot script
(decrypt_seed.py) does the decryption step offline and writes the same file.

The model has one module per core file, on top of modules for the library
behaviour the core relies on:

- `Text`: Python's `str.isspace`, `strip`, `replace(c, "")` and `c * n`.
- `Bits`: bytes, and the bit-level view used by the codecs.
- `Hex`: `bytes.fromhex`, `binascii.unhexlify` and `bytes.hex()`.
- `Base32`: `b32encode` and its inverse (section 6 of RFC 4648).
- `Base64`: `b64encode`, and `b64decode` without `validate`, modelled on the
  scanning loop of CPython's `binascii.a2b_base64` in its lenient mode.
  Characters outside the alphabet are skipped. A `=` that completes a
  quantum ends decoding. A leftover of one symbol, or an unpadded leftover
  of two or three, raises. Non-ASCII text raises `ValueError`.
- `Totp`: pyotp's TOTP (section 4 of RFC 6238, T0 = 0, a 30-second step,
  six digits). HOTP (RFC 4226) with HMAC-SHA1 is a parameter, of type
  `Totp.Hotp`, that yields a six-digit code for a key and a counter.
- `Oaep`: a loaded private key, seen as a partial map from ciphertext to
  UTF-8 text.
- `App` (app.py): the seed format, `decrypt_seed_b64`, the seed file as a
  class `SeedStore` with `save_seed`/`read_seed`, the hex-to-base32
  conversion, code generation and verification, `totp_time_remaining`, and
  the three endpoints as methods.
- `DecryptSeedScript` (decrypt_seed.py): the clean-up and padding repair
  as written (`Normalize`) and as corrected (`RepairCorrected`; see
  Findings), `decrypt_seed` with the corrected repair, and the main block
  that writes the seed file.
- `TotpHelpers` (totp.py) and `Log2faCron` (scripts/log_2fa_cron.py).

Clock readings, the key, the request bodies and the seed file's content are
parameters. Errors are values (`Result`/`Option`), one constructor per
exception the source raises or catches.

Differences between the parts of the system that the model makes explicit:

- The two decryption paths differ. app.py validates the plaintext against
  the seed format but does not repair base64 padding
  (`App.UnpaddedPayloadRejected`). decrypt_seed.py repairs padding but does
  not validate the plaintext (`DecryptSeedScript.PlaintextNotValidated`).
- `bytes.fromhex`, used by app.py and totp.py, also accepts upper-case digits
  and ASCII white space between digit pairs. `binascii.unhexlify`, used by
  the cron job, accepts no white space (`Log2faCron.DisagreesOnInnerSpace`).
- `read_seed` checks only the length of the stored text, not its digits
  (`App.ReadSeedChecksLengthOnly`).
- The generate endpoint reads the clock twice: once inside pyotp for the
  code, and once in `totp_time_remaining` for `valid_for`. When a step
  boundary falls between the two readings, `valid_for` describes a step the
  code does not belong to (`App.ValidForOverstatesAcrossStep`).

## Model

| member | source | states |
|---|---|---|
| `Text.Strip` | app.py:52 | the stripped text neither starts nor ends with white space |
| `Text.LStrip` | app.py:68 | the left strip is a suffix of the input, everything it drops is white space, and it does not itself start with white space |
| `Text.RStrip` | app.py:68 | the right strip is a prefix of the input, everything it drops is white space, and it does not itself end with white space |
| `Text.StripSurrounded` | app.py:68 | stripping text framed by white space gives exactly the framed content |
| `Text.Remove` | decrypt_seed.py:25 | `replace(c, "")` leaves no `c`, keeps only characters of the input, and changes nothing when `c` is absent |
| `Text.RemoveCounts` | decrypt_seed.py:25 | deleting `c` keeps every other character as often as it occurs in the input |
| `Text.RemoveAppend` | decrypt_seed.py:25 | deleting `c` from a concatenation deletes it from each part, so the remaining characters keep their order |
| `Text.RemovePlainSpacing` | decrypt_seed.py:25 | when the only white space is spaces and newlines, deleting newlines and then spaces deletes all white space |
| `Hex.FromHexToHex` | app.py:74 | `bytes.fromhex` inverts `bytes.hex()` on every byte string |
| `Hex.ToHexFromHex` | app.py:74 | every even-length lower-case hex text decodes to half as many bytes, which re-encode to the same text |
| `Hex.NonHexRejected` | totp.py:9 | a character that is neither a hex digit nor ASCII white space makes `bytes.fromhex` fail |
| `Hex.OddLengthRejected` | totp.py:26 | an odd number of digits without white space fails in both `bytes.fromhex` and `binascii.unhexlify` |
| `Hex.UnhexlifyAgreesWithFromHex` | scripts/log_2fa_cron.py:19 | on text without ASCII white space, `unhexlify` and `fromhex` give the same result, failure included |
| `Hex.FromHexSkipsSpaceUnhexlifyDoesNot` | scripts/log_2fa_cron.py:19 | `"ab cd"` decodes to two bytes with `fromhex` and fails with `unhexlify` |
| `Hex.PairsHaveNoSpace` | scripts/log_2fa_cron.py:19 | text that `unhexlify` accepts contains no ASCII white space |
| `Base32.DecodeEncode` | app.py:75 | decoding the base32 encoding of any byte string gives it back |
| `Base32.EncodeThirtyTwoBytes` | app.py:75 | 32 bytes encode to 56 characters: 52 alphabet symbols, then `====` |
| `Base64.DecodeEncode` | app.py:40 | `b64decode` of the padded encoding of any byte string gives it back |
| `Base64.DecodeRejectsUnpadded` | app.py:40-42 | an unpadded encoding whose last quantum is incomplete raises `binascii.Error` (incorrect padding) |
| `Totp.MatchesFromIff` | app.py:89 | pyotp's window loop matches exactly when some counter in the window gives the code |
| `Totp.VerifyIff` | app.py:86-89 | `verify(code, w)` holds iff `code == Hotp(key, floor(t/30) + i)` for some `i` in `[-w, w]` |
| `Totp.CurrentCodeVerifies` | app.py:77-89 | the current code is accepted at the same instant by every window `w >= 0` |
| `Totp.NeighbourCodeVerifies` | app.py:86-89 | the code of the instant `k` steps away is accepted for every `k` in `[-w, w]` |
| `Totp.WiderWindowAccepts` | app.py:86-89 | widening the window never turns an acceptance into a rejection |
| `Totp.NegativeWindowRejects` | app.py:86-89 | a negative window accepts no code |
| `App.SeedIsLowerHex` | app.py:53 | the seed format is exactly 64 lower-case hexadecimal digits |
| `App.SeedIsHex` | app.py:53 | a well-formed seed is white-space-free hexadecimal text of 32 bytes |
| `App.UpperCaseRejected` | app.py:53-54 | one upper-case hex digit makes text fail the seed format; there is no normalisation |
| `App.DecryptSeedB64` | app.py:38-55 | a base64 failure is reported before the key is used (non-ASCII text as `PayloadNotAscii`, other errors as `PayloadNotBase64`); then a missing key gives `KeyUnavailable`, a failed decryption `DecryptionFailed`, and a plaintext that is not a seed once stripped `InvalidSeedFormat`; success iff decoding, key, decryption and format all succeed; a returned seed is the stripped plaintext and is well-formed |
| `App.DecryptsFramedSeed` | app.py:52-55 | the padded base64 of a ciphertext whose plaintext is a seed framed by white space yields exactly that seed |
| `App.UnpaddedPayloadRejected` | app.py:39-42 | unpadded base64 with an incomplete last quantum is refused as invalid base64 whatever the key |
| `App.ReadSeed` | app.py:65-71 | no file gives `SeedNotFound` and only then; an existing file succeeds iff its stripped content has 64 characters, and otherwise gives `InvalidSeedLength`; a result is that stripped content |
| `App.SeedStore.constructor` | app.py:17 | a fresh deployment has no seed file |
| `App.SeedStore.Save` | app.py:57-59 | the file afterwards holds exactly the given text; a second save replaces the first |
| `App.SeedStore.Read` | app.py:65-71 | reading returns `ReadSeed` of the file's current content |
| `App.SavedSeedReadsBack` | app.py:57-71 | a saved valid seed, with or without surrounding white space, reads back unchanged |
| `App.ReadSeedChecksLengthOnly` | app.py:68-71 | 64 characters including a non-hex one are read as a seed, although they are not one and `fromhex` fails on them |
| `App.HexToBase32` | app.py:73-75 | succeeds iff `bytes.fromhex` does, and the secret decodes back to the seed's bytes |
| `App.SeedSecret` | app.py:73-75 | for a valid seed the secret exists, has 56 characters ending in `====`, and decodes to bytes whose hex form is the seed |
| `App.GenerateTotp` | app.py:77-80 | generation fails exactly when the seed is not hexadecimal |
| `App.VerifyTotp` | app.py:86-89 | fails exactly when the seed is not hexadecimal; otherwise true iff the code is `Hotp(secret, c)` for a counter `c` within `validWindow` steps of now |
| `App.GeneratedCodeVerifies` | app.py:77-89 | a generated code verifies at the same instant with any window `w >= 0` |
| `App.DefaultWindowTolerance` | app.py:86 | with the default window of one step, codes generated in the previous, current or next step verify |
| `App.TimeRemaining` | app.py:82-84 | `valid_for` lies in `[1, 30]`; the step is unchanged `valid_for - 1` seconds later and has advanced by one `valid_for` seconds later |
| `App.CodeStableWhileValid` | app.py:82-84 | the code stays the same for the whole of `valid_for` |
| `App.DecryptSeedEndpoint` | app.py:94-101 | on success the file holds the decrypted seed and the answer is `{"status": "ok"}`; on any failure the answer is 500 "Decryption failed" and the file is unchanged |
| `App.DecryptedSeedReadsBack` | app.py:57-71 | the seed the endpoint stores reads back through `read_seed` as the same well-formed seed |
| `App.GenerateResponse` | app.py:103-116 | no file gives 500 "Seed not decrypted yet"; a wrong length gives "Seed read error"; non-hex content gives "TOTP generation failed"; an issued code is six digits, verifies at the moment of generation, and comes with `valid_for` equal to `TimeRemaining` of the second clock reading, in `[1, 30]` and ending at the next step boundary; readable hexadecimal content always yields a code |
| `App.Generate2faEndpoint` | app.py:103-116 | the endpoint answers what `GenerateResponse` says of the current seed file |
| `App.SeedYieldsCode` | app.py:103-116 | a file holding a well-formed seed always yields a code |
| `App.ValidForExactWithinStep` | app.py:112-113 | if both clock readings fall in one step, the issued code is current for the whole of `valid_for` |
| `App.ValidForOverstatesAcrossStep` | app.py:112-113 | if a step boundary falls between the readings, the issued code is stale throughout `valid_for` |
| `App.VerifyResponse` | app.py:118-132 | an empty code gives 400 "Missing code" before the file is read; then come the read errors, and 500 "Verification error" for a non-hex seed; a verdict comes exactly when the code is not empty and the file holds hexadecimal text of the right length |
| `App.VerdictMeaning` | app.py:118-132 | a verdict is true iff the code is the code of the step that holds now, of the step before or of the step after |
| `App.Verify2faEndpoint` | app.py:118-132 | the endpoint answers what `VerifyResponse` says of the current seed file |
| `App.IssuedCodeAccepted` | app.py:103-132 | over a well-formed seed, a code issued at `t` is accepted at any later time up to the end of the following step |
| `App.ProvisionIssueVerify` | app.py:94-132 | after posting a correctly encrypted seed, a code issued at `t` is accepted at any later time up to the end of the following step |
| `DecryptSeedScript.Clean` | decrypt_seed.py:25 | the cleaned text has no space, no newline and no surrounding white space |
| `DecryptSeedScript.CleanCounts` | decrypt_seed.py:25 | the cleaned text holds every character of the stripped text other than a newline or a space, as often as it occurs there |
| `DecryptSeedScript.CleanPlainSpacing` | decrypt_seed.py:25 | when the only white space is spaces and newlines, the clean-up deletes all white space and keeps every other character in order |
| `DecryptSeedScript.CleanFixpoint` | decrypt_seed.py:25 | text the clean-up would not touch comes out unchanged |
| `DecryptSeedScript.PadToQuantum` | decrypt_seed.py:26-28 | the length becomes a multiple of 4; the input is a prefix; only `=` is appended; at most 3 are added; none when the length is already a multiple of 4 |
| `DecryptSeedScript.PadKeepsClean` | decrypt_seed.py:26-28 | padding cleaned text keeps it free of spaces, newlines and surrounding white space |
| `DecryptSeedScript.NormalizeIdempotent` | decrypt_seed.py:25-28 | clean-up plus padding, applied to its own output, changes nothing |
| `DecryptSeedScript.PadUnpadded` | decrypt_seed.py:26-28 | padding the unpadded encoding of any bytes gives their padded encoding |
| `DecryptSeedScript.PadEncoded` | decrypt_seed.py:26-28 | the padded encoding needs no more padding |
| `DecryptSeedScript.RepairsUnpadded` | decrypt_seed.py:25-28 | the repair turns the unpadded encoding of any bytes into their padded encoding |
| `DecryptSeedScript.DecodesUnpadded` | decrypt_seed.py:25-30 | after the repair, unpadded base64 decodes to the bytes it encodes |
| `DecryptSeedScript.PlainSpacingRepairs` | decrypt_seed.py:25-30 | as written, the repair makes base64 of `b`, padded or not, with spaces and newlines anywhere in it, decode to `b` |
| `DecryptSeedScript.Decrypt` | decrypt_seed.py:23-40 | a missing key fails first with `KeyUnavailable`; then text that does not decode after the repair gives `PayloadNotAscii` (non-ASCII) or `PayloadNotBase64`, and a failed decryption `DecryptionFailed`; success iff the text, with all white space deleted and padded to a multiple of 4, decodes and decrypts; the result is the plaintext exactly as decrypted |
| `DecryptSeedScript.DecryptSeed` | decrypt_seed.py:23-40 | the step-by-step rebinding with the corrected repair (all white space deleted, then padding) computes `Decrypt` |
| `DecryptSeedScript.DecryptsAnySpacing` | decrypt_seed.py:23-40 | with the corrected repair, base64 text of a ciphertext, padded or not, with white space anywhere, decrypts to the key's plaintext for that ciphertext, or fails as a decryption error |
| `DecryptSeedScript.PlaintextNotValidated` | decrypt_seed.py:39-40 | a plaintext that is not a seed is returned by the script and refused by app.py |
| `DecryptSeedScript.Run` | decrypt_seed.py:45-55 | the stripped file text is decrypted with the corrected repair; on success the seed file holds the plaintext, on failure it is unchanged |
| `DecryptSeedScript.ScanTabOnePad` | decrypt_seed.py:30 | symbols split by a tab, with two left in the last quantum and one `=`, are refused for incorrect padding |
| `DecryptSeedScript.TabOnePadRejected` | decrypt_seed.py:30 | the unpadded encoding of `b` with `len(b) % 3 == 1`, with a tab inside and one `=` appended, fails to decode |
| `DecryptSeedScript.TabBreaksRepair` | decrypt_seed.py:25-30 | as written, a tab inside such an encoding makes the repaired text fail to decode |
| `DecryptSeedScript.RepairCorrected` | decrypt_seed.py:25-28 | the corrected repair gives a multiple of 4 characters with no white space |
| `DecryptSeedScript.CorrectedRepairDecodes` | decrypt_seed.py:25-30 | with the corrected repair, any text whose characters other than white space form an encoding of `b`, padded or not, decodes to `b` |
| `TotpHelpers.GenerateTotpCode` | totp.py:7-18 | fails iff the seed is not hexadecimal, and gives the same code as app.py's `generate_totp` |
| `TotpHelpers.VerifyTotpCode` | totp.py:24-35 | fails iff the seed is not hexadecimal, and gives the same verdict as app.py's `verify_totp` for every window |
| `TotpHelpers.GeneratedCodeVerifies` | totp.py:47-52 | a code generated at `t` verifies at the same `t` with the default window |
| `TotpHelpers.DefaultWindowAcceptsNeighbours` | totp.py:24-35 | the default window accepts the codes of the previous, current and next step |
| `TotpHelpers.DefaultWindowRejectsOthers` | totp.py:24-35 | a code matching none of those three steps is rejected |
| `Log2faCron.ReadSeedHex` | scripts/log_2fa_cron.py:10-15 | `None` exactly when the file is absent; otherwise the stripped content, with no length check, and so the same text `read_seed` returns whenever that succeeds |
| `Log2faCron.HexToBase32` | scripts/log_2fa_cron.py:17-22 | `None` exactly when `unhexlify` fails; otherwise a secret that decodes to the unhexlified bytes |
| `Log2faCron.AgreesWithService` | scripts/log_2fa_cron.py:19-20 | without ASCII white space in the seed, the secret equals app.py's, failure included |
| `Log2faCron.DisagreesOnInnerSpace` | scripts/log_2fa_cron.py:19 | app.py converts `"ab cd"` and the cron job does not |
| `Log2faCron.SecretNotEmpty` | scripts/log_2fa_cron.py:30-33 | a non-empty seed that converts never gives an empty secret, so the emptiness test fires only on failure |
| `Log2faCron.LogCurrentCode` | scripts/log_2fa_cron.py:24-40 | no or empty seed logs "ERROR: seed.txt not found or empty"; a failed conversion logs "ERROR: Failed to convert hex to base32"; otherwise the code of the current step is logged |
| `Log2faCron.LogsServiceCodeAnyHex` | scripts/log_2fa_cron.py:24-36 | whenever the cron job logs a code, app.py's `generate_totp` on the same stripped text gives that code, well-formed seed or not; when the text has 64 characters the generate endpoint issues it |
| `Log2faCron.LogsServiceCode` | scripts/log_2fa_cron.py:35-36 | for a valid seed file the cron job logs the code app.py issues at the same instant |

## Left out

- RSA-OAEP decryption, PEM key loading and UTF-8 decoding (app.py:34-36, 43-52; decrypt_seed.py:16-18, 31-39) are calls into the `cryptography` library. A key is a partial map from ciphertext to text (`Oaep.PrivateKey`), and a key that cannot be loaded is `None`. The model keeps the order of the calls: app.py decodes base64 before loading the key, and decrypt_seed.py loads the key first.
- HMAC-SHA1 and HOTP truncation are left out. They form the `Totp.Hotp` parameter, which promises only six decimal digits.
- pyotp internals are left out: the `ValueError` for a negative counter (a window reaching below counter 0 during the first 30 seconds after the epoch), and the Unicode normalisation and constant-time comparison in its code comparison. Codes are compared as strings.
- `os.chmod` hardening (app.py:60-63) and directory creation (app.py:58, decrypt_seed.py:11) are left out. Their failures are swallowed or do not arise.
- File system errors other than a missing seed file are left out: permissions and failed or partial writes. So is atomicity of the seed file under concurrent requests. Each save is an atomic replace.
- The HTTP layer is left out: routing, pydantic's 422 answers for a malformed body, the `detail` message strings, and the `/health` endpoint (app.py:134-136), which only reports the clock.
- Clocks are parameters: `time.time()` truncated by `int`, and pyotp's `datetime.now()`.
- Printed output is left out: timestamps (scripts/log_2fa_cron.py:38-40) and the messages of decrypt_seed.py:57-58. `LogCurrentCode` returns the line it would print, without the timestamp.
- totp.py's example block (totp.py:41-52) reads `/data/seed.txt` and prints. Only its claim, that a generated code verifies, is modelled (`TotpHelpers.GeneratedCodeVerifies`).
- The seed file's location is left out. app.py and decrypt_seed.py use `data/seed.txt` relative to the working directory; the cron job and totp.py's example use `/data/seed.txt`. The model passes the file content in, and `Log2faCron.LogsServiceCode` and `LogsServiceCodeAnyHex` are about the case where both name the same file.
- request_seed.py is not part of this model: it is a one-shot HTTP client that writes the encrypted seed to a file.
- generate_commit_proof.py is not part of this model: it runs git and RSA-PSS signing, then OAEP encryption, all in foreign code.
- log_codes.py is not part of this model: it passes the file's text straight to pyotp.
- `App.GenerateTotp`: its contract states only when generation succeeds. What the generated code is, is stated through verification (`App.GeneratedCodeVerifies`) and by `App.Generate2faEndpoint`.
- `DecryptSeedScript.Decrypt` uses the corrected repair described under Findings, not the repair as written. The repair as written is `DecryptSeedScript.Normalize`, and the lemmas about it (`NormalizeIdempotent`, `RepairsUnpadded`, `DecodesUnpadded`, `PlainSpacingRepairs`, `TabBreaksRepair`) are about the code as written.
- `DecryptSeedScript.DecryptSeed` computes `Decrypt` with the corrected repair: it deletes every kind of white space where decrypt_seed.py:25 deletes only spaces and newlines, so it accepts a tab inside the text where the script raises.
- `DecryptSeedScript.Run` writes what the corrected `DecryptSeed` returns, so for text with a tab inside it can write a seed where the script raises.
- `DecryptSeedScript.DecryptsAnySpacing` holds for the corrected repair only. For the repair as written it holds when the only white space is spaces and newlines (`PlainSpacingRepairs`) and fails for a tab (`TabBreaksRepair`).

## Findings

| source | as written | input that shows it | evidently intended | confidence | as-written member | corrected member |
|---|---|---|---|---|---|---|
| decrypt_seed.py:25-28 | the number of `=` to append is computed after deleting only spaces and newlines, so other white space that `b64decode` skips (a tab, a carriage return) is counted as data | `"QUJD\tRA"`, the unpadded base64 of `b"ABCD"` with a tab inside: the repair appends one `=`, and `b64decode` raises "Incorrect padding" | delete all white space before counting, giving `QUJDRA==` and `b"ABCD"`; `CorrectedRepairDecodes` proves that any whitespace-interleaved encoding then decodes | medium, not executed | `DecryptSeedScript.TabBreaksRepair` | `DecryptSeedScript.RepairCorrected` |

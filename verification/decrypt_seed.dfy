/**
 * The one-shot script decrypt_seed.py: it repairs the base64 text of the
 * encrypted seed (white space and missing padding), decrypts it and writes
 * the plaintext to data/seed.txt, the file the service reads.
 */
module DecryptSeedScript {
  import opened Wrappers
  import opened Bits
  import Text
  import Base64
  import opened Oaep
  import App

  /** The clean-up of decrypt_seed.py:25: strip the text, then delete every
      newline and every space. */
  function Clean(s: string): (r: string)
    ensures forall i :: 0 <= i < |r| ==> r[i] != '\n' && r[i] != ' '
    ensures Text.NoSurroundingSpace(r)
  {
    var stripped := Text.Strip(s);
    var once := Text.Remove(stripped, '\n');
    Text.RemoveKeepsNoSurroundingSpace(stripped, '\n');
    Text.RemoveKeepsNoSurroundingSpace(once, ' ');
    Text.Remove(once, ' ')
  }

  /** The clean-up keeps every character of the stripped text other than a
      newline or a space, as often as it occurs there. */
  lemma CleanCounts(s: string)
    ensures multiset(Clean(s)) == multiset(Text.Strip(s))['\n' := 0][' ' := 0]
  {
    var stripped := Text.Strip(s);
    Text.RemoveCounts(stripped, '\n');
    Text.RemoveCounts(Text.Remove(stripped, '\n'), ' ');
  }

  /** Text the clean-up would not touch comes out unchanged. */
  lemma CleanFixpoint(t: string)
    requires Text.NoSurroundingSpace(t)
    requires forall i :: 0 <= i < |t| ==> t[i] != '\n' && t[i] != ' '
    ensures Clean(t) == t
  {
    Text.StripFixpoint(t);
    assert '\n' !in t && ' ' !in t;
  }

  /** When the only white space in `s` is spaces and newlines, the clean-up
      deletes all of it and keeps every other character, in order. */
  lemma CleanPlainSpacing(s: string)
    requires Text.PlainSpacing(s)
    ensures Clean(s) == Text.RemoveSpace(s)
  {
    Text.StripKeepsPlainSpacing(s);
    Text.RemovePlainSpacing(Text.Strip(s));
    Text.StripThenRemoveSpace(s);
  }

  /** decrypt_seed.py:26-28: append `=` up to the next multiple of 4
      characters, the size of a base64 quantum. */
  function PadToQuantum(s: string): (r: string)
    ensures |r| % 4 == 0
    ensures |s| <= |r| <= |s| + 3
    ensures r[..|s|] == s
    ensures forall i :: |s| <= i < |r| ==> r[i] == '='
    ensures |s| % 4 == 0 ==> r == s
  {
    var missing := |s| % 4;
    if missing != 0 then s + Text.Repeat('=', 4 - missing) else s
  }

  /** The whole repair, clean-up then padding, as decrypt_seed.py applies it
      before decoding. */
  function Normalize(s: string): string {
    PadToQuantum(Clean(s))
  }

  /** Padding keeps text the clean-up would not touch untouchable. */
  lemma PadKeepsClean(c: string)
    requires Text.NoSurroundingSpace(c)
    requires forall i :: 0 <= i < |c| ==> c[i] != '\n' && c[i] != ' '
    ensures var t := PadToQuantum(c);
      && Text.NoSurroundingSpace(t)
      && forall i :: 0 <= i < |t| ==> t[i] != '\n' && t[i] != ' '
  {
    var t := PadToQuantum(c);
    forall i | 0 <= i < |t|
      ensures t[i] != '\n' && t[i] != ' '
    {
      if i < |c| {
        assert t[i] == t[..|c|][i] == c[i];
      }
    }
    if t != [] {
      assert t[0] == t[..|c|][0] == c[0];
      if |t| == |c| {
        assert t[|t| - 1] == t[..|c|][|c| - 1] == c[|c| - 1];
      }
    }
  }

  /** Repairing text that is already repaired changes nothing. */
  lemma NormalizeIdempotent(s: string)
    ensures Normalize(Normalize(s)) == Normalize(s)
  {
    var c := Clean(s);
    var t := PadToQuantum(c);
    assert PadToQuantum(t) == t;
    PadKeepsClean(c);
    CleanFixpoint(t);
  }

  /** Padding the unpadded encoding of `b` gives its padded encoding. */
  lemma PadUnpadded(b: seq<byte>)
    ensures PadToQuantum(Base64.Unpadded(b)) == Base64.Encode(b)
  {
    var u := Base64.Unpadded(b);
    var m := |u| % 4;
    assert Base64.Encode(b) == u + Text.Repeat('=', (4 - m) % 4);
    if m == 0 {
      assert Text.Repeat('=', 0) == [];
      assert u + [] == u;
    } else {
      assert (4 - m) % 4 == 4 - m;
    }
  }

  /** The padded encoding needs no more padding. */
  lemma PadEncoded(b: seq<byte>)
    ensures PadToQuantum(Base64.Encode(b)) == Base64.Encode(b)
  {
    var u := Base64.Unpadded(b);
    assert |Base64.Encode(b)| == |u| + (4 - |u| % 4) % 4;
    assert |Base64.Encode(b)| % 4 == 0 by {
      CompletesQuantum(|u|);
    }
  }

  /** Adding `(4 - n % 4) % 4` reaches a multiple of 4. */
  lemma CompletesQuantum(n: nat)
    ensures (n + (4 - n % 4) % 4) % 4 == 0
  {
  }

  /** Unpadded base64 text, once repaired, is exactly the padded encoding. */
  lemma RepairsUnpadded(b: seq<byte>)
    ensures Normalize(Base64.Unpadded(b)) == Base64.Encode(b)
  {
    PadUnpadded(b);
    CleanFixpoint(Base64.Unpadded(b));
  }

  /** Unlike app.py (see `App.UnpaddedPayloadRejected`), the script accepts
      unpadded base64 and decodes it to the bytes it encodes. */
  lemma DecodesUnpadded(b: seq<byte>)
    ensures Base64.Decode(Normalize(Base64.Unpadded(b))) == Success(b)
  {
    RepairsUnpadded(b);
    Base64.DecodeEncode(b);
  }

  /** As written, the repair does work when the only white space in the
      text is spaces and newlines: base64 of `b`, padded or not and with
      such white space anywhere, decodes to `b`. */
  lemma PlainSpacingRepairs(b: seq<byte>, s: string)
    requires Text.PlainSpacing(s)
    requires Text.RemoveSpace(s) == Base64.Unpadded(b) || Text.RemoveSpace(s) == Base64.Encode(b)
    ensures Base64.Decode(Normalize(s)) == Success(b)
  {
    CleanPlainSpacing(s);
    assert Normalize(s) == RepairCorrected(s);
    CorrectedRepairDecodes(b, s);
  }

  /** Why `decrypt_seed` raised. */
  datatype Error =
    | KeyUnavailable      // student_private.pem missing or not a key
    | PayloadNotAscii     // b64decode refused a non-ASCII payload
    | PayloadNotBase64    // b64decode raised binascii.Error
    | DecryptionFailed    // OAEP decryption or UTF-8 decoding raised

  /** What `decrypt_seed` computes, with the corrected repair
      `RepairCorrected` in place of the as-written `Normalize`: the key is
      loaded first, then the repaired text is decoded and decrypted, and
      the plaintext is returned as it is, neither stripped nor checked
      against the seed format. */
  function Decrypt(key: Option<PrivateKey>, encryptedSeedB64: string): (r: Result<string, Error>)
    ensures key.None? ==> r == Failure(KeyUnavailable)
    ensures key.Some? && Base64.Decode(RepairCorrected(encryptedSeedB64)).Failure? ==>
      r == Failure(if Base64.Decode(RepairCorrected(encryptedSeedB64)).error == Base64.NonAscii
        then PayloadNotAscii else PayloadNotBase64)
    ensures (key.Some? && Base64.Decode(RepairCorrected(encryptedSeedB64)).Success?
      && key.value(Base64.Decode(RepairCorrected(encryptedSeedB64)).value).None?) ==> r == Failure(DecryptionFailed)
    ensures r.Success? <==>
      && key.Some?
      && Base64.Decode(RepairCorrected(encryptedSeedB64)).Success?
      && key.value(Base64.Decode(RepairCorrected(encryptedSeedB64)).value).Some?
    ensures r.Success? ==> Some(r.value) == key.value(Base64.Decode(RepairCorrected(encryptedSeedB64)).value)
  {
    if key.None? then Failure(KeyUnavailable)
    else match Base64.Decode(RepairCorrected(encryptedSeedB64))
      case Failure(e) => Failure(if e == Base64.NonAscii then PayloadNotAscii else PayloadNotBase64)
      case Success(ciphertext) =>
        match key.value(ciphertext)
        case None => Failure(DecryptionFailed)
        case Some(plain) => Success(plain)
  }

  /** `decrypt_seed` with the corrected repair: the text is rebound step by
      step, but every kind of white space is deleted before the padding is
      counted, where decrypt_seed.py:25 deletes only spaces and newlines. */
  method DecryptSeed(key: Option<PrivateKey>, encryptedSeedB64: string) returns (r: Result<string, Error>)
    ensures r == Decrypt(key, encryptedSeedB64)
  {
    if key.None? {
      return Failure(KeyUnavailable);
    }
    var s := Text.RemoveSpace(encryptedSeedB64);
    ghost var cleaned := s;
    var missing := |s| % 4;
    if missing != 0 {
      s := s + Text.Repeat('=', 4 - missing);
    }
    assert s == PadToQuantum(cleaned);
    var encrypted := Base64.Decode(s);
    if encrypted.Failure? {
      return Failure(if encrypted.error == Base64.NonAscii then PayloadNotAscii else PayloadNotBase64);
    }
    var plain := key.value(encrypted.value);
    if plain.None? {
      return Failure(DecryptionFailed);
    }
    r := Success(plain.value);
  }

  /** Base64 text of a ciphertext, padded or not and with white space
      anywhere in it, decrypts to what the key makes of the ciphertext. */
  lemma DecryptsAnySpacing(key: PrivateKey, ciphertext: seq<byte>, s: string)
    requires Text.RemoveSpace(s) == Base64.Unpadded(ciphertext) || Text.RemoveSpace(s) == Base64.Encode(ciphertext)
    ensures key(ciphertext).None? ==> Decrypt(Some(key), s) == Failure(DecryptionFailed)
    ensures key(ciphertext).Some? ==> Decrypt(Some(key), s) == Success(key(ciphertext).value)
  {
    CorrectedRepairDecodes(ciphertext, s);
  }

  /** Whatever the plaintext is, the script returns it: where app.py would
      refuse a plaintext that is not a seed, the script passes it on. */
  lemma PlaintextNotValidated(key: PrivateKey, ciphertext: seq<byte>)
    requires key(ciphertext).Some? && !App.IsSeed(Text.Strip(key(ciphertext).value))
    ensures Decrypt(Some(key), Base64.Encode(ciphertext)) == Success(key(ciphertext).value)
    ensures App.DecryptSeedB64(Some(key), Base64.Encode(ciphertext)) == Failure(App.InvalidSeedFormat)
  {
    Base64.DecodeEncode(ciphertext);
    assert Text.RemoveSpace(Base64.Encode(ciphertext)) == Base64.Encode(ciphertext) by {
      Base64.EncodeHasNoSpace(ciphertext);
      Text.RemoveSpaceFixpoint(Base64.Encode(ciphertext));
    }
    DecryptsAnySpacing(key, ciphertext, Base64.Encode(ciphertext));
  }

  /** The script's main block: read encrypted_seed.txt (`fileText`), strip
      it, decrypt it and write the plaintext to data/seed.txt; a failure
      raises before anything is written. */
  method Run(store: App.SeedStore, fileText: string, key: Option<PrivateKey>) returns (r: Result<string, Error>)
    modifies store
    ensures r == Decrypt(key, Text.Strip(fileText))
    ensures r.Success? ==> store.file == Some(r.value)
    ensures r.Failure? ==> store.file == old(store.file)
  {
    var encrypted := Text.Strip(fileText);
    r := DecryptSeed(key, encrypted);
    if r.Success? {
      store.Save(r.value);
    }
  }

  // ---------------------------------------------------------------------
  // The padding count includes characters the decoder skips
  // ---------------------------------------------------------------------

  /** Scanning two runs of symbols separated by a tab, followed by a single
      `=`, when the symbols leave two in the last quantum. */
  lemma ScanTabOnePad(g1: seq<nat>, g2: seq<nat>)
    requires g1 != [] && g2 != [] && (|g1| + |g2|) % 4 == 2
    requires forall i :: 0 <= i < |g1| ==> g1[i] < 64
    requires forall i :: 0 <= i < |g2| ==> g2[i] < 64
    ensures Base64.Scan(Base64.Spell(g1) + ("\t" + (Base64.Spell(g2) + "=")), 0, []) == Failure(Base64.IncorrectPadding)
  {
    Base64.ScanSymbols(g1, "\t" + (Base64.Spell(g2) + "="), 0, []);
    assert [] + g1 == g1;
    Base64.ScanSymbols(g2, "=", 0, g1);
  }

  /** The decoder skips a tab inside the unpadded encoding of `b` and,
      when `|b| % 3 == 1`, finds one `=` too few at the end. */
  lemma TabOnePadRejected(b: seq<byte>, k: nat)
    requires |b| % 3 == 1 && 0 < k < |Base64.Unpadded(b)|
    ensures var u := Base64.Unpadded(b);
      Base64.Decode(u[..k] + "\t" + u[k..] + "=") == Failure(Base64.IncorrectPadding)
  {
    var u := Base64.Unpadded(b);
    var s := u[..k] + "\t" + u[k..] + "=";
    assert Base64.Scan(s, 0, []) == Failure(Base64.IncorrectPadding) by {
      var g := Base64.Groups(b);
      var g1, g2 := g[..k], g[k..];
      assert s == Base64.Spell(g1) + ("\t" + (Base64.Spell(g2) + "=")) by {
        assert u[..k] == Base64.Spell(g1) && u[k..] == Base64.Spell(g2);
      }
      assert |g| % 4 == 2 by {
        Base64.UnpaddedLength(b);
      }
      ScanTabOnePad(g1, g2);
    }
    TabbedIsAscii(u, k);
  }

  /** A tab inside ASCII text, and a `=` after it, keep it ASCII. */
  lemma TabbedIsAscii(u: string, k: nat)
    requires k <= |u| && forall i :: 0 <= i < |u| ==> Base64.IsAscii(u[i])
    ensures var s := u[..k] + "\t" + u[k..] + "=";
      forall i :: 0 <= i < |s| ==> Base64.IsAscii(s[i])
  {
    var s := u[..k] + "\t" + u[k..] + "=";
    forall i | 0 <= i < |s|
      ensures Base64.IsAscii(s[i])
    {
      if i < k {
        assert s[i] == u[i];
      } else if k < i < |s| - 1 {
        assert s[i] == u[i - 1];
      }
    }
  }

  /** As written, the repair counts every character that survives the
      clean-up, including white space other than spaces and newlines (a
      tab, a carriage return), which the decoder then skips. A tab inside
      the unpadded encoding of `b`, when `|b| % 3 == 1`, makes the repair
      append one `=` where two are needed, and decoding fails. */
  lemma TabBreaksRepair(b: seq<byte>, k: nat)
    requires |b| % 3 == 1 && 0 < k < |Base64.Unpadded(b)|
    ensures var u := Base64.Unpadded(b);
      Base64.Decode(Normalize(u[..k] + "\t" + u[k..])) == Failure(Base64.IncorrectPadding)
  {
    var u := Base64.Unpadded(b);
    var s := u[..k] + "\t" + u[k..];
    Base64.UnpaddedLength(b);
    assert PadToQuantum(s) == s + "=" by {
      assert |s| % 4 == 3;
      assert Text.Repeat('=', 1) == "=";
    }
    TabOnePadRejected(b, k);
    assert Clean(s) == s by {
      forall i | 0 <= i < |s|
        ensures s[i] != '\n' && s[i] != ' '
      {
        if i < k {
          assert s[i] == u[i];
        } else if k < i {
          assert s[i] == u[i - 1];
        }
      }
      assert s[0] == u[0] && s[|s| - 1] == u[|u| - 1];
      CleanFixpoint(s);
    }
  }

  /** The repair as evidently intended: delete every kind of white space,
      then pad. */
  function RepairCorrected(s: string): (r: string)
    ensures |r| % 4 == 0
    ensures forall i :: 0 <= i < |r| ==> !Text.IsSpace(r[i])
  {
    var t := Text.RemoveSpace(s);
    var r := PadToQuantum(t);
    assert forall i :: 0 <= i < |r| ==> !Text.IsSpace(r[i]) by {
      forall i | 0 <= i < |r|
        ensures !Text.IsSpace(r[i])
      {
        if i < |t| {
          assert r[i] == r[..|t|][i] == t[i];
        }
      }
    }
    r
  }

  /** With the corrected repair, any text whose characters other than white
      space form the base64 encoding of `b`, padded or not, decodes to `b`. */
  lemma CorrectedRepairDecodes(b: seq<byte>, s: string)
    requires Text.RemoveSpace(s) == Base64.Unpadded(b) || Text.RemoveSpace(s) == Base64.Encode(b)
    ensures Base64.Decode(RepairCorrected(s)) == Success(b)
  {
    if Text.RemoveSpace(s) == Base64.Unpadded(b) {
      PadUnpadded(b);
    } else {
      PadEncoded(b);
    }
    Base64.DecodeEncode(b);
  }
}

/**
 * Base16 (section 8 of RFC 4648) as Python implements it: `bytes.fromhex`
 * (used by app.py and totp.py), `binascii.unhexlify` (used by
 * scripts/log_2fa_cron.py) and, as their partner, `bytes.hex()`.
 */
module Hex {
  import opened Wrappers
  import opened Bits
  import Text

  /** The value of a hexadecimal digit; both cases are accepted on decoding. */
  function DigitValue(c: char): (r: Option<nat>)
    ensures r.Some? ==> r.value < 16
  {
    if '0' <= c <= '9' then Some(c as nat - '0' as nat)
    else if 'a' <= c <= 'f' then Some(c as nat - 'a' as nat + 10)
    else if 'A' <= c <= 'F' then Some(c as nat - 'A' as nat + 10)
    else None
  }

  predicate IsLowerHexDigit(c: char) {
    '0' <= c <= '9' || 'a' <= c <= 'f'
  }

  predicate IsLowerHex(s: string) {
    forall i :: 0 <= i < |s| ==> IsLowerHexDigit(s[i])
  }

  /** The lower-case digit for a value below 16. */
  function Digit(v: nat): (c: char)
    requires v < 16
    ensures IsLowerHexDigit(c) && DigitValue(c) == Some(v)
  {
    if v < 10 then ('0' as nat + v) as char else ('a' as nat + v - 10) as char
  }

  /** The white space `bytes.fromhex` skips between digit pairs (Python 3.7
      and later): the six ASCII space characters. */
  predicate IsAsciiSpace(c: char) {
    c == ' ' || ('\t' <= c <= '\r')
  }

  /** `bytes.fromhex(s)`: pairs of digits, with ASCII white space allowed
      before each pair; `None` where Python raises `ValueError`. */
  function FromHex(s: string): Option<seq<byte>>
    decreases |s|
  {
    if s == [] then Some([])
    else if IsAsciiSpace(s[0]) then FromHex(s[1..])
    else if |s| < 2 || DigitValue(s[0]).None? || DigitValue(s[1]).None? then None
    else match FromHex(s[2..])
      case None => None
      case Some(rest) => Some([DigitValue(s[0]).value * 16 + DigitValue(s[1]).value] + rest)
  }

  /** Digit pairs with nothing in between, as `binascii.unhexlify` reads them. */
  function Pairs(s: string): Option<seq<byte>>
    requires |s| % 2 == 0
  {
    if s == [] then Some([])
    else if DigitValue(s[0]).None? || DigitValue(s[1]).None? then None
    else match Pairs(s[2..])
      case None => None
      case Some(rest) => Some([DigitValue(s[0]).value * 16 + DigitValue(s[1]).value] + rest)
  }

  /** Text made of digit pairs holds no ASCII white space. */
  lemma {:induction false} PairsHaveNoSpace(s: string)
    requires |s| % 2 == 0 && Pairs(s).Some?
    ensures forall i :: 0 <= i < |s| ==> !IsAsciiSpace(s[i])
  {
    if s != [] {
      PairsHaveNoSpace(s[2..]);
      forall i | 0 <= i < |s|
        ensures !IsAsciiSpace(s[i])
      {
        if i >= 2 {
          assert s[i] == s[2..][i - 2];
        }
      }
    }
  }

  /** `binascii.unhexlify(s)`: an odd length is an error, and so is any
      character that is not a hexadecimal digit, white space included. */
  function Unhexlify(s: string): Option<seq<byte>> {
    if |s| % 2 != 0 then None else Pairs(s)
  }

  /** `b.hex()`: two lower-case digits per byte, high nibble first. */
  function ToHex(b: seq<byte>): (s: string)
    ensures |s| == 2 * |b| && IsLowerHex(s)
  {
    if b == [] then [] else [Digit(b[0] / 16), Digit(b[0] % 16)] + ToHex(b[1..])
  }

  /** Decoding what `ToHex` wrote gives the bytes back. */
  lemma {:induction false} FromHexToHex(b: seq<byte>)
    ensures FromHex(ToHex(b)) == Some(b)
  {
    if b != [] {
      var s := ToHex(b);
      assert s[2..] == ToHex(b[1..]);
      FromHexToHex(b[1..]);
      assert b == [b[0]] + b[1..];
    }
  }

  /** An even-length lower-case hex string decodes, to half as many bytes,
      and `ToHex` writes it back exactly. */
  lemma {:induction false} ToHexFromHex(s: string)
    requires IsLowerHex(s) && |s| % 2 == 0
    ensures FromHex(s).Some?
    ensures |FromHex(s).value| * 2 == |s|
    ensures ToHex(FromHex(s).value) == s
    decreases |s|
  {
    if s != [] {
      assert IsLowerHex(s[2..]);
      ToHexFromHex(s[2..]);
      var rest := FromHex(s[2..]).value;
      assert !IsAsciiSpace(s[0]) && IsLowerHexDigit(s[1]);
      PairValue(s[0], s[1]);
      var v: byte := DigitValue(s[0]).value * 16 + DigitValue(s[1]).value;
      var b := [v] + rest;
      assert FromHex(s) == Some(b);
      assert b[0] == v && b[1..] == rest;
      assert ToHex(b) == [Digit(v / 16), Digit(v % 16)] + ToHex(rest);
      assert s == [s[0], s[1]] + s[2..];
    }
  }

  /** Two lower-case digits denote a byte that `ToHex` writes back as those
      two digits. */
  lemma PairValue(hiDigit: char, loDigit: char)
    requires IsLowerHexDigit(hiDigit) && IsLowerHexDigit(loDigit)
    ensures DigitValue(hiDigit).Some? && DigitValue(loDigit).Some?
    ensures var v := DigitValue(hiDigit).value * 16 + DigitValue(loDigit).value;
      v < 256 && Digit(v / 16) == hiDigit && Digit(v % 16) == loDigit
  {
    var hi, lo := DigitValue(hiDigit).value, DigitValue(loDigit).value;
    var v := hi * 16 + lo;
    assert v / 16 == hi && v % 16 == lo;
  }

  /** Without white space in the input, the two Python decoders agree. */
  lemma {:induction false} UnhexlifyAgreesWithFromHex(s: string)
    requires forall i :: 0 <= i < |s| ==> !IsAsciiSpace(s[i])
    ensures Unhexlify(s) == FromHex(s)
    decreases |s|
  {
    if |s| >= 2 {
      UnhexlifyAgreesWithFromHex(s[2..]);
      assert !IsAsciiSpace(s[0]);
      if |s| % 2 == 0 {
        assert |s[2..]| % 2 == 0;
        assert Unhexlify(s) == Pairs(s) && Unhexlify(s[2..]) == Pairs(s[2..]);
      } else {
        assert |s[2..]| % 2 != 0;
        assert FromHex(s[2..]) == None;
      }
    }
  }

  /** `bytes.fromhex` skips a space between pairs, `binascii.unhexlify` rejects it. */
  lemma FromHexSkipsSpaceUnhexlifyDoesNot()
    ensures FromHex("ab cd").Some? && FromHex("ab cd").value == [0xab, 0xcd]
    ensures Unhexlify("ab cd") == None
  {
    assert "ab cd"[2..] == " cd";
    assert " cd"[1..] == "cd";
    assert "cd"[2..] == "";
    assert FromHex("cd").value == [0xcd];
  }

  /** An odd number of characters, none of them white space, never decodes. */
  lemma {:induction false} OddLengthRejected(s: string)
    requires |s| % 2 == 1
    requires forall i :: 0 <= i < |s| ==> !IsAsciiSpace(s[i])
    ensures FromHex(s) == None && Unhexlify(s) == None
    decreases |s|
  {
    if |s| >= 2 {
      OddLengthRejected(s[2..]);
    }
  }

  /** A character that is neither a digit nor ASCII white space makes
      `bytes.fromhex` fail, wherever it stands. */
  lemma {:induction false} NonHexRejected(s: string, k: nat)
    requires k < |s| && DigitValue(s[k]).None? && !IsAsciiSpace(s[k])
    ensures FromHex(s) == None
    decreases |s|
  {
    if k > 0 && IsAsciiSpace(s[0]) {
      NonHexRejected(s[1..], k - 1);
    } else if k > 1 && |s| >= 2 && DigitValue(s[0]).Some? && DigitValue(s[1]).Some? {
      NonHexRejected(s[2..], k - 2);
    }
  }
}

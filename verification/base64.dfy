/**
 * Base64 (section 4 of RFC 4648) as Python writes it (`base64.b64encode`)
 * and as `base64.b64decode` reads it by default, that is, without
 * validation: `binascii.a2b_base64` in non-strict mode, as in CPython 3.11
 * and later.
 */
module Base64 {
  import opened Wrappers
  import opened Bits
  import Text

  predicate IsAscii(c: char) {
    c as int < 128
  }

  /** The symbol of a 6-bit value: `A`-`Z`, `a`-`z`, `0`-`9`, `+`, `/`. */
  function Symbol(v: nat): (c: char)
    requires v < 64
    ensures SymbolValue(c) == Some(v)
    ensures c != '=' && IsAscii(c) && !Text.IsSpace(c)
  {
    if v < 26 then ('A' as nat + v) as char
    else if v < 52 then ('a' as nat + v - 26) as char
    else if v < 62 then ('0' as nat + v - 52) as char
    else if v == 62 then '+'
    else '/'
  }

  /** The value of a symbol of the alphabet; `None` for any other character. */
  function SymbolValue(c: char): (r: Option<nat>)
    ensures r.Some? ==> r.value < 64
  {
    if 'A' <= c <= 'Z' then Some(c as nat - 'A' as nat)
    else if 'a' <= c <= 'z' then Some(c as nat - 'a' as nat + 26)
    else if '0' <= c <= '9' then Some(c as nat - '0' as nat + 52)
    else if c == '+' then Some(62)
    else if c == '/' then Some(63)
    else None
  }

  function Spell(vs: seq<nat>): (s: string)
    requires forall i :: 0 <= i < |vs| ==> vs[i] < 64
    ensures |s| == |vs|
    ensures forall i :: 0 <= i < |vs| ==> s[i] == Symbol(vs[i])
  {
    seq(|vs|, i requires 0 <= i < |vs| => Symbol(vs[i]))
  }

  /** The 6-bit groups of the bit stream of `b`, the last one completed
      with zero bits. */
  function Groups(b: seq<byte>): (vs: seq<nat>)
    ensures forall i :: 0 <= i < |vs| ==> vs[i] < 64
  {
    var bits := BytesToBits(b);
    assert Pow2(6) == 64;
    Chunks(bits + Zeros((6 - |bits| % 6) % 6), 6)
  }

  /** The symbols of `b` without padding. */
  function Unpadded(b: seq<byte>): (s: string)
    ensures forall i :: 0 <= i < |s| ==> s[i] != '=' && !Text.IsSpace(s[i]) && IsAscii(s[i])
  {
    Spell(Groups(b))
  }

  /** `base64.b64encode(b)`: one symbol per 6-bit group, then `=` up to a
      multiple of 4 characters. */
  function Encode(b: seq<byte>): (s: string)
  {
    var body := Unpadded(b);
    body + Text.Repeat('=', (4 - |body| % 4) % 4)
  }

  /** The padded encoding holds no white space. */
  lemma EncodeHasNoSpace(b: seq<byte>)
    ensures forall i :: 0 <= i < |Encode(b)| ==> !Text.IsSpace(Encode(b)[i])
  {
    var u := Unpadded(b);
    var e := Encode(b);
    var pad := Text.Repeat('=', (4 - |u| % 4) % 4);
    assert e == u + pad;
    forall i | 0 <= i < |e|
      ensures !Text.IsSpace(e[i])
    {
      if i < |u| {
        assert e[i] == u[i];
      } else {
        assert e[i] == pad[i - |u|];
      }
    }
  }

  datatype Error =
    | NonAscii          // `ValueError`: the string has a non-ASCII character
    | DanglingSymbol    // `binascii.Error`: one data symbol more than a multiple of four
    | IncorrectPadding  // `binascii.Error`: the last quantum is incomplete and not padded

  /** The scanning loop of `binascii.a2b_base64` in non-strict mode.
      `acc` holds the values of the data symbols read so far, so the
      position in the current quantum is `|acc| % 4`; `pads` counts the `=`
      seen since the last data symbol while that position is 2 or 3.
      A character outside the alphabet is skipped; a `=` that completes the
      quantum ends the scan and the rest of the input is ignored. */
  function Scan(s: string, pads: nat, acc: seq<nat>): Result<seq<nat>, Error>
    decreases |s|
  {
    var quad := |acc| % 4;
    if s == [] then
      if quad == 0 then Success(acc)
      else if quad == 1 then Failure(DanglingSymbol)
      else Failure(IncorrectPadding)
    else if s[0] == '=' then
      if quad >= 2 && quad + pads + 1 >= 4 then Success(acc)
      else Scan(s[1..], if quad >= 2 then pads + 1 else pads, acc)
    else match SymbolValue(s[0])
      case None => Scan(s[1..], pads, acc)
      case Some(v) => Scan(s[1..], 0, acc + [v])
  }

  /** The whole bytes in the bit stream of the 6-bit groups `vs`; the bits
      after the last whole byte are dropped, as a2b_base64 drops them. */
  function Regroup(vs: seq<nat>): seq<byte> {
    var bits := Flatten(vs, 6);
    BitsToBytes(bits[..|bits| / 8 * 8])
  }

  /** `base64.b64decode(s)` without `validate`. */
  function Decode(s: string): Result<seq<byte>, Error> {
    if exists i :: 0 <= i < |s| && !IsAscii(s[i]) then Failure(NonAscii)
    else match Scan(s, 0, [])
      case Failure(e) => Failure(e)
      case Success(vs) => Success(Regroup(vs))
  }

  /** Reading a run of data symbols appends their values and clears the
      pad count. */
  lemma {:induction false} ScanSymbols(vs: seq<nat>, rest: string, pads: nat, acc: seq<nat>)
    requires vs != [] && forall i :: 0 <= i < |vs| ==> vs[i] < 64
    ensures Scan(Spell(vs) + rest, pads, acc) == Scan(rest, 0, acc + vs)
    decreases |vs|
  {
    var s := Spell(vs) + rest;
    assert Scan(s, pads, acc) == Scan(s[1..], 0, acc + [vs[0]]) by {
      assert s[0] == Symbol(vs[0]);
    }
    assert Scan(s[1..], 0, acc + [vs[0]]) == Scan(rest, 0, acc + vs) by {
      if |vs| > 1 {
        assert s[1..] == Spell(vs[1..]) + rest;
        ScanSymbols(vs[1..], rest, 0, acc + [vs[0]]);
        assert acc + [vs[0]] + vs[1..] == acc + vs;
      } else {
        assert s[1..] == rest;
        assert acc + [vs[0]] == acc + vs;
      }
    }
  }

  /** The number of symbols `Encode` writes for `n` bytes, and how many `=`. */
  lemma EncodedLength(n: nat, body: nat)
    requires body == (8 * n + (6 - 8 * n % 6) % 6) / 6
    ensures n % 3 == 0 ==> body % 4 == 0
    ensures n % 3 == 1 ==> body % 4 == 2
    ensures n % 3 == 2 ==> body % 4 == 3
    ensures n > 0 ==> body > 0
  {
    var q, r := n / 3, n % 3;
    assert 8 * n == 24 * q + 8 * r;
    if r == 0 {
      assert body == 4 * q;
    } else if r == 1 {
      assert body == 4 * q + 2;
    } else {
      assert body == 4 * q + 3;
    }
  }

  /** Fewer than 8 extra bits add no whole byte. */
  lemma WholeBytes(n: nat, extra: nat)
    requires extra < 8
    ensures (8 * n + extra) / 8 * 8 == 8 * n
  {
  }

  /** The 6-bit groups of `b` spell out its bit stream followed by fewer
      than 6 zero bits. */
  lemma FlattenGroups(b: seq<byte>)
    ensures var fill := (6 - 8 * |b| % 6) % 6;
      && fill < 6
      && |Groups(b)| == (8 * |b| + fill) / 6
      && Flatten(Groups(b), 6) == BytesToBits(b) + Zeros(fill)
  {
    var bits := BytesToBits(b);
    var fill := (6 - |bits| % 6) % 6;
    var n := (|bits| + fill) / 6;
    assert |bits| + fill == 6 * n by {
      FillQuantum(|bits|);
    }
    FlattenChunks(bits + Zeros(fill), 6, n);
  }

  /** Filling up to the next multiple of 6 bits. */
  lemma FillQuantum(len: nat)
    ensures var fill := (6 - len % 6) % 6;
      fill < 6 && len + fill == 6 * ((len + fill) / 6)
  {
  }

  /** Regrouping the 6-bit groups into bytes drops exactly the zero bits
      that completed the last group. */
  lemma GroupsRegroup(b: seq<byte>)
    ensures Regroup(Groups(b)) == b
  {
    FlattenGroups(b);
    var fill := (6 - 8 * |b| % 6) % 6;
    var flat := Flatten(Groups(b), 6);
    assert |flat| / 8 * 8 == 8 * |b| by {
      WholeBytes(|b|, fill);
    }
    assert flat[..8 * |b|] == BytesToBits(b);
    BytesBitsRoundTrip(b);
  }

  /** How many symbols the unpadded encoding has, modulo 4. */
  lemma UnpaddedLength(b: seq<byte>)
    ensures |b| % 3 == 0 ==> |Unpadded(b)| % 4 == 0
    ensures |b| % 3 == 1 ==> |Unpadded(b)| % 4 == 2
    ensures |b| % 3 == 2 ==> |Unpadded(b)| % 4 == 3
    ensures b != [] ==> Unpadded(b) != []
  {
    FlattenGroups(b);
    EncodedLength(|b|, |Groups(b)|);
  }

  /** Scanning the unpadded symbols of `b` collects its 6-bit groups. */
  lemma ScanUnpadded(b: seq<byte>, rest: string)
    ensures Scan(Unpadded(b) + rest, 0, []) == Scan(rest, 0, Groups(b))
  {
    if Groups(b) != [] {
      ScanSymbols(Groups(b), rest, 0, []);
      assert [] + Groups(b) == Groups(b);
    } else {
      assert Unpadded(b) + rest == rest;
    }
  }

  /** Decoding what `Encode` wrote gives the bytes back (RFC 4648, section 4). */
  lemma DecodeEncode(b: seq<byte>)
    ensures Decode(Encode(b)) == Success(b)
  {
    var body := Unpadded(b);
    var pad := (4 - |body| % 4) % 4;
    var s := Encode(b);
    assert s == body + Text.Repeat('=', pad);
    var groups := Groups(b);
    assert Scan(s, 0, []) == Success(groups) by {
      UnpaddedLength(b);
      ScanUnpadded(b, Text.Repeat('=', pad));
      if pad == 2 {
        assert Text.Repeat('=', 2) == "==";
        assert Scan("=", 1, groups) == Success(groups);
      } else if pad == 1 {
        assert Text.Repeat('=', 1) == "=";
      } else {
        assert Text.Repeat('=', 0) == "";
      }
    }
    assert forall i :: 0 <= i < |s| ==> IsAscii(s[i]);
    assert Regroup(groups) == b by {
      GroupsRegroup(b);
    }
  }

  /** Without its `=` padding, the encoding of a byte string whose length is
      not a multiple of 3 ends in an incomplete quantum, which the decoder
      rejects. */
  lemma DecodeRejectsUnpadded(b: seq<byte>)
    requires |b| % 3 != 0
    ensures Decode(Unpadded(b)) == Failure(IncorrectPadding)
  {
    UnpaddedLength(b);
    ScanUnpadded(b, "");
    assert Unpadded(b) + "" == Unpadded(b);
  }
}

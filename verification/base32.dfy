/**
 * Base32 with the standard alphabet and `=` padding (section 6 of RFC 4648),
 * as Python's `base64.b32encode` writes it and `base64.b32decode` reads it.
 */
module Base32 {
  import opened Wrappers
  import opened Bits
  import Text

  /** The symbol of a 5-bit value: `A`-`Z` for 0-25, `2`-`7` for 26-31. */
  function Symbol(v: nat): (c: char)
    requires v < 32
    ensures SymbolValue(c) == Some(v) && c != '='
  {
    if v < 26 then ('A' as nat + v) as char else ('2' as nat + v - 26) as char
  }

  /** The value of a symbol of the alphabet; `None` for any other character. */
  function SymbolValue(c: char): (r: Option<nat>)
    ensures r.Some? ==> r.value < 32
  {
    if 'A' <= c <= 'Z' then Some(c as nat - 'A' as nat)
    else if '2' <= c <= '7' then Some(c as nat - '2' as nat + 26)
    else None
  }

  function Spell(vs: seq<nat>): (s: string)
    requires forall i :: 0 <= i < |vs| ==> vs[i] < 32
    ensures |s| == |vs|
    ensures forall i :: 0 <= i < |vs| ==> s[i] == Symbol(vs[i])
  {
    seq(|vs|, i requires 0 <= i < |vs| => Symbol(vs[i]))
  }

  /** The values of the symbols of `s`, or `None` if one is not a symbol. */
  function Values(s: string): Option<seq<nat>> {
    if s == [] then Some([])
    else match (SymbolValue(s[0]), Values(s[1..]))
      case (Some(v), Some(rest)) => Some([v] + rest)
      case _ => None
  }

  lemma {:induction false} ValuesSpell(vs: seq<nat>)
    requires forall i :: 0 <= i < |vs| ==> vs[i] < 32
    ensures Values(Spell(vs)) == Some(vs)
  {
    if vs != [] {
      ValuesSpell(vs[1..]);
      assert Spell(vs)[1..] == Spell(vs[1..]);
      assert vs == [vs[0]] + vs[1..];
    }
  }

  /** `s.rstrip("=")`. */
  function StripPadding(s: string): (r: string)
    ensures |r| <= |s| && r == s[..|r|]
    ensures r == [] || r[|r| - 1] != '='
    ensures forall i :: |r| <= i < |s| ==> s[i] == '='
  {
    if s != [] && s[|s| - 1] == '=' then StripPadding(s[..|s| - 1]) else s
  }

  /** The 5-bit groups of the bit stream of `b`, the last one completed
      with zero bits. */
  function Groups(b: seq<byte>): (vs: seq<nat>)
    ensures forall i :: 0 <= i < |vs| ==> vs[i] < 32
  {
    var bits := BytesToBits(b);
    assert Pow2(5) == 32;
    Chunks(bits + Zeros((5 - |bits| % 5) % 5), 5)
  }

  /** `base64.b32encode(b)`: one symbol per 5-bit group, then `=` up to a
      multiple of 8 characters. */
  function Encode(b: seq<byte>): (s: string)
  {
    var body := Spell(Groups(b));
    body + Text.Repeat('=', (8 - |body| % 8) % 8)
  }

  /** The whole bytes in the bit stream of the 5-bit groups `vs`; the bits
      after the last whole byte are dropped. */
  function Regroup(vs: seq<nat>): seq<byte> {
    var bits := Flatten(vs, 5);
    BitsToBytes(bits[..|bits| / 8 * 8])
  }

  /** The lengths of the `=` run an encoder can produce: 8 symbols carry 40
      bits, so 1 to 5 bytes leave 6, 4, 3, 1 or 0 positions to pad. */
  predicate AdmissiblePadding(n: int) {
    n == 0 || n == 1 || n == 3 || n == 4 || n == 6
  }

  /** `base64.b32decode(s)`: the length must be a multiple of 8, the padding
      one of the counts an encoder can produce, every other character a
      symbol. */
  function Decode(s: string): Option<seq<byte>> {
    if |s| % 8 != 0 then None
    else
      var body := StripPadding(s);
      if !AdmissiblePadding(|s| - |body|) then None
      else match Values(body)
        case None => None
        case Some(vs) => Some(Regroup(vs))
  }

  /** The number of symbols and of `=` that `Encode` writes for `n` bytes. */
  lemma EncodedLength(n: nat, body: nat)
    requires body == (8 * n + (5 - 8 * n % 5) % 5) / 5
    ensures AdmissiblePadding((8 - body % 8) % 8)
    ensures (body + (8 - body % 8) % 8) % 8 == 0
    ensures n > 0 ==> body > 0
  {
    var q, r := n / 5, n % 5;
    assert 8 * n == 40 * q + 8 * r;
    if r == 0 {
      assert body == 8 * q;
    } else if r == 1 {
      assert body == 8 * q + 2;
    } else if r == 2 {
      assert body == 8 * q + 4;
    } else if r == 3 {
      assert body == 8 * q + 5;
    } else {
      assert body == 8 * q + 7;
    }
  }

  /** Stripping the `=` run that was appended to a body not ending in `=`
      gives the body. */
  lemma {:induction false} StripAppendedPadding(body: string, pad: nat)
    requires body == [] || body[|body| - 1] != '='
    ensures StripPadding(body + Text.Repeat('=', pad)) == body
    decreases pad
  {
    var s := body + Text.Repeat('=', pad);
    if pad > 0 {
      assert s[..|s| - 1] == body + Text.Repeat('=', pad - 1);
      StripAppendedPadding(body, pad - 1);
    } else {
      assert s == body;
    }
  }

  /** `Decode` on a body of symbols followed by an admissible padding run. */
  lemma DecodePadded(body: string, pad: nat, vs: seq<nat>)
    requires body == [] || body[|body| - 1] != '='
    requires (|body| + pad) % 8 == 0 && AdmissiblePadding(pad)
    requires Values(body) == Some(vs)
    ensures Decode(body + Text.Repeat('=', pad)) == Some(Regroup(vs))
  {
    var s := body + Text.Repeat('=', pad);
    assert |s| % 8 == 0;
    assert StripPadding(s) == body by {
      StripAppendedPadding(body, pad);
    }
    assert |s| - |body| == pad;
  }

  /** Fewer than 8 extra bits add no whole byte. */
  lemma WholeBytes(n: nat, extra: nat)
    requires extra < 8
    ensures (8 * n + extra) / 8 * 8 == 8 * n
  {
  }

  /** The 5-bit groups of `b` spell out its bit stream followed by fewer
      than 5 zero bits. */
  lemma FlattenGroups(b: seq<byte>)
    ensures var fill := (5 - 8 * |b| % 5) % 5;
      && fill < 5
      && |Groups(b)| == (8 * |b| + fill) / 5
      && Flatten(Groups(b), 5) == BytesToBits(b) + Zeros(fill)
  {
    var bits := BytesToBits(b);
    var fill := (5 - |bits| % 5) % 5;
    var n := (|bits| + fill) / 5;
    assert |bits| + fill == 5 * n by {
      FillQuantum(|bits|);
    }
    FlattenChunks(bits + Zeros(fill), 5, n);
  }

  /** The number of 5-bit groups of `n` bytes. */
  lemma GroupCount(b: seq<byte>)
    ensures |Groups(b)| == (8 * |b| + (5 - 8 * |b| % 5) % 5) / 5
  {
    FlattenGroups(b);
  }

  /** Filling up to the next multiple of 5 bits. */
  lemma FillQuantum(len: nat)
    ensures var fill := (5 - len % 5) % 5;
      fill < 5 && len + fill == 5 * ((len + fill) / 5)
  {
  }

  /** Regrouping the 5-bit groups into bytes drops exactly the zero bits
      that completed the last group. */
  lemma GroupsRegroup(b: seq<byte>)
    ensures Regroup(Groups(b)) == b
  {
    FlattenGroups(b);
    var fill := (5 - 8 * |b| % 5) % 5;
    var flat := Flatten(Groups(b), 5);
    assert |flat| / 8 * 8 == 8 * |b| by {
      WholeBytes(|b|, fill);
    }
    assert flat[..8 * |b|] == BytesToBits(b);
    BytesBitsRoundTrip(b);
  }

  /** `Encode` writes the symbols of the groups, then an admissible run of
      `=` that completes a multiple of 8 characters. */
  lemma EncodeShape(b: seq<byte>)
    ensures var body := Spell(Groups(b));
      var pad := (8 - |body| % 8) % 8;
      && Encode(b) == body + Text.Repeat('=', pad)
      && (|body| + pad) % 8 == 0 && AdmissiblePadding(pad)
  {
    var body := Spell(Groups(b));
    var pad := (8 - |body| % 8) % 8;
    assert Encode(b) == body + Text.Repeat('=', pad);
    GroupCount(b);
    EncodedLength(|b|, |body|);
  }

  /** Decoding what `Encode` wrote gives the bytes back (RFC 4648, section 6). */
  lemma DecodeEncode(b: seq<byte>)
    ensures Decode(Encode(b)) == Some(b)
  {
    var groups := Groups(b);
    var body := Spell(groups);
    var pad := (8 - |body| % 8) % 8;
    assert Encode(b) == body + Text.Repeat('=', pad) && (|body| + pad) % 8 == 0 && AdmissiblePadding(pad) by {
      EncodeShape(b);
    }
    assert Decode(body + Text.Repeat('=', pad)) == Some(Regroup(groups)) by {
      ValuesSpell(groups);
      DecodePadded(body, pad, groups);
    }
    assert Regroup(groups) == b by {
      GroupsRegroup(b);
    }
  }

  /** Thirty-two bytes (a 256-bit seed) encode to 52 symbols followed by
      four `=`: 56 characters. */
  lemma EncodeThirtyTwoBytes(b: seq<byte>)
    requires |b| == 32
    ensures |Encode(b)| == 56
    ensures forall i :: 0 <= i < 52 ==> SymbolValue(Encode(b)[i]).Some?
    ensures Encode(b)[52..] == "===="
  {
    FlattenGroups(b);
    var body := Spell(Groups(b));
    assert |body| == 52;
    assert Encode(b) == body + Text.Repeat('=', 4);
  }

  /** A non-empty byte string never encodes to the empty string. */
  lemma EncodeNonEmpty(b: seq<byte>)
    requires b != []
    ensures Encode(b) != []
  {
    FlattenGroups(b);
    EncodedLength(|b|, |Groups(b)|);
  }
}

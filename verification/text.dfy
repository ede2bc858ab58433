/**
 * Python string operations the core relies on: `str.isspace`, `str.strip`,
 * `str.replace(c, "")` and `c * n`. Strings are sequences of Unicode
 * scalar values.
 */
module Text {

  /** The characters for which Python's `str.isspace()` holds; `str.strip()`
      with no argument removes exactly these. */
  predicate IsSpace(c: char) {
    || ('\t' <= c <= '\r')
    || ('\U{1C}' <= c <= ' ')
    || c == '\U{85}' || c == '\U{A0}' || c == '\U{1680}'
    || ('\U{2000}' <= c <= '\U{200A}')
    || c == '\U{2028}' || c == '\U{2029}' || c == '\U{202F}' || c == '\U{205F}'
    || c == '\U{3000}'
  }

  predicate AllSpace(s: string) {
    forall i :: 0 <= i < |s| ==> IsSpace(s[i])
  }

  /** Neither the first nor the last character is white space. */
  predicate NoSurroundingSpace(s: string) {
    s == [] || (!IsSpace(s[0]) && !IsSpace(s[|s| - 1]))
  }

  /** `s.lstrip()`: the longest suffix of `s` that does not start with white space. */
  function LStrip(s: string): (r: string)
    ensures |r| <= |s| && r == s[|s| - |r|..]
    ensures r == [] || !IsSpace(r[0])
    ensures AllSpace(s[..|s| - |r|])
  {
    if s != [] && IsSpace(s[0]) then LStrip(s[1..]) else s
  }

  /** `s.rstrip()`: the longest prefix of `s` that does not end with white space. */
  function RStrip(s: string): (r: string)
    ensures |r| <= |s| && r == s[..|r|]
    ensures r == [] || !IsSpace(r[|r| - 1])
    ensures AllSpace(s[|r|..])
  {
    if s != [] && IsSpace(s[|s| - 1]) then
      var p := s[..|s| - 1];
      var r := RStrip(p);
      assert p[..|r|] == s[..|r|];
      assert s[|r|..] == p[|r|..] + [s[|s| - 1]];
      r
    else s
  }

  /** `s.strip()`: `s` without its leading and trailing white space. */
  function Strip(s: string): (r: string)
    ensures NoSurroundingSpace(r)
  {
    var t := LStrip(s);
    var r := RStrip(t);
    assert r == [] || !IsSpace(r[0]) by {
      if r != [] { assert r[0] == t[0]; }
    }
    r
  }

  /** A string with no surrounding white space is its own strip. */
  lemma {:induction false} StripFixpoint(s: string)
    requires NoSurroundingSpace(s)
    ensures Strip(s) == s
  {
    if s != [] {
      assert LStrip(s) == s;
      assert RStrip(s) == s;
    }
  }

  /** `s.replace(c, "")`: every occurrence of `c` deleted. */
  function Remove(s: string, c: char): (r: string)
    ensures |r| <= |s|
    ensures forall i :: 0 <= i < |r| ==> r[i] != c
    ensures forall i :: 0 <= i < |r| ==> r[i] in s
    ensures c !in s ==> r == s
  {
    if s == [] then []
    else if s[0] == c then Remove(s[1..], c)
    else [s[0]] + Remove(s[1..], c)
  }

  /** Deleting `c` keeps every other character as often as it occurs. */
  lemma {:induction false} RemoveCounts(s: string, c: char)
    ensures multiset(Remove(s, c)) == multiset(s)[c := 0]
  {
    if s != [] {
      var rest := Remove(s[1..], c);
      RemoveCounts(s[1..], c);
      assert s == [s[0]] + s[1..];
      assert multiset(s) == multiset{s[0]} + multiset(s[1..]);
      if s[0] == c {
        assert multiset(s)[c := 0] == multiset(s[1..])[c := 0];
      } else {
        assert Remove(s, c) == [s[0]] + rest;
        assert multiset([s[0]] + rest) == multiset{s[0]} + multiset(rest);
        assert multiset(s)[c := 0] == multiset{s[0]} + multiset(s[1..])[c := 0];
      }
    }
  }

  /** Deleting a character from a concatenation deletes it from each part,
      so the characters that remain keep their order. */
  lemma {:induction false} RemoveAppend(a: string, b: string, c: char)
    ensures Remove(a + b, c) == Remove(a, c) + Remove(b, c)
  {
    if a == [] {
      assert a + b == b;
    } else {
      assert (a + b)[1..] == a[1..] + b;
      RemoveAppend(a[1..], b, c);
    }
  }

  /** Deleting a character keeps a last character that differs from it. */
  lemma {:induction false} RemoveKeepsLast(s: string, c: char)
    requires s != [] && s[|s| - 1] != c
    ensures var r := Remove(s, c); r != [] && r[|r| - 1] == s[|s| - 1]
  {
    if |s| > 1 {
      RemoveKeepsLast(s[1..], c);
    }
  }

  /** Deleting a character keeps a first character that differs from it. */
  lemma RemoveKeepsFirst(s: string, c: char)
    requires s != [] && s[0] != c
    ensures var r := Remove(s, c); r != [] && r[0] == s[0]
  {
  }

  /** Deleting a white-space character keeps a string free of surrounding
      white space free of it. */
  lemma RemoveKeepsNoSurroundingSpace(s: string, c: char)
    requires NoSurroundingSpace(s) && IsSpace(c)
    ensures NoSurroundingSpace(Remove(s, c))
  {
    if s != [] {
      RemoveKeepsFirst(s, c);
      RemoveKeepsLast(s, c);
    }
  }

  /** The characters of `s` that are not white space, in order: what remains
      of `s` once every kind of white space is deleted. */
  function RemoveSpace(s: string): (r: string)
    ensures |r| <= |s|
    ensures forall i :: 0 <= i < |r| ==> !IsSpace(r[i])
    ensures forall i :: 0 <= i < |r| ==> r[i] in s
  {
    if s == [] then []
    else if IsSpace(s[0]) then RemoveSpace(s[1..])
    else [s[0]] + RemoveSpace(s[1..])
  }

  /** Deleting white space from a concatenation deletes it from each part. */
  lemma {:induction false} RemoveSpaceAppend(a: string, b: string)
    ensures RemoveSpace(a + b) == RemoveSpace(a) + RemoveSpace(b)
  {
    if a == [] {
      assert a + b == b;
    } else {
      assert (a + b)[1..] == a[1..] + b;
      RemoveSpaceAppend(a[1..], b);
    }
  }

  /** Only white space occurs in `s` as spaces and newlines. */
  predicate PlainSpacing(s: string) {
    forall i :: 0 <= i < |s| && IsSpace(s[i]) ==> s[i] == ' ' || s[i] == '\n'
  }

  /** Where the only white space is spaces and newlines, deleting the
      newlines and then the spaces deletes all white space. */
  lemma {:induction false} RemovePlainSpacing(s: string)
    requires PlainSpacing(s)
    ensures Remove(Remove(s, '\n'), ' ') == RemoveSpace(s)
  {
    if s != [] {
      var t := s[1..];
      assert PlainSpacing(t) by {
        forall i | 0 <= i < |t| && IsSpace(t[i])
          ensures t[i] == ' ' || t[i] == '\n'
        {
          assert t[i] == s[i + 1];
        }
      }
      RemovePlainSpacing(t);
      var n := Remove(t, '\n');
      if s[0] != '\n' {
        assert Remove(s, '\n') == [s[0]] + n;
        assert ([s[0]] + n)[1..] == n;
      }
    }
  }

  /** Stripping before deleting all white space changes nothing. */
  lemma StripThenRemoveSpace(s: string)
    ensures RemoveSpace(Strip(s)) == RemoveSpace(s)
  {
    LStripThenRemoveSpace(s);
    RStripThenRemoveSpace(LStrip(s));
  }

  lemma {:induction false} LStripThenRemoveSpace(s: string)
    ensures RemoveSpace(LStrip(s)) == RemoveSpace(s)
  {
    if s != [] && IsSpace(s[0]) {
      LStripThenRemoveSpace(s[1..]);
    }
  }

  lemma {:induction false} RStripThenRemoveSpace(s: string)
    ensures RemoveSpace(RStrip(s)) == RemoveSpace(s)
  {
    if s != [] && IsSpace(s[|s| - 1]) {
      var p := s[..|s| - 1];
      RStripThenRemoveSpace(p);
      assert s == p + [s[|s| - 1]];
      RemoveSpaceAppend(p, [s[|s| - 1]]);
      assert RemoveSpace([s[|s| - 1]]) == [];
    }
  }

  /** A slice of text whose only white space is spaces and newlines has no
      other white space either. */
  lemma PlainSpacingSlice(s: string, i: nat, j: nat)
    requires PlainSpacing(s) && i <= j <= |s|
    ensures PlainSpacing(s[i..j])
  {
    var t := s[i..j];
    forall k | 0 <= k < |t| && IsSpace(t[k])
      ensures t[k] == ' ' || t[k] == '\n'
    {
      assert t[k] == s[i + k];
    }
  }

  /** Stripping keeps the only white space spaces and newlines. */
  lemma StripKeepsPlainSpacing(s: string)
    requires PlainSpacing(s)
    ensures PlainSpacing(Strip(s))
  {
    var l := LStrip(s);
    PlainSpacingSlice(s, |s| - |l|, |s|);
    PlainSpacingSlice(l, 0, |RStrip(l)|);
  }

  /** White space alone leaves nothing once white space is deleted. */
  lemma {:induction false} AllSpaceRemoved(s: string)
    requires AllSpace(s)
    ensures RemoveSpace(s) == []
  {
    if s != [] {
      AllSpaceRemoved(s[1..]);
    }
  }

  /** Text without white space is left as it is. */
  lemma {:induction false} RemoveSpaceFixpoint(s: string)
    requires forall i :: 0 <= i < |s| ==> !IsSpace(s[i])
    ensures RemoveSpace(s) == s
  {
    if s != [] {
      RemoveSpaceFixpoint(s[1..]);
      assert s == [s[0]] + s[1..];
    }
  }

  /** `[c] * n`, as in Python's `"=" * n`. */
  function Repeat(c: char, n: nat): (r: string)
    ensures |r| == n
    ensures forall i :: 0 <= i < n ==> r[i] == c
  {
    if n == 0 then [] else [c] + Repeat(c, n - 1)
  }

  /** `LStrip` removes a leading run of white space and nothing after it. */
  lemma {:induction false} LStripPrefix(before: string, rest: string)
    requires AllSpace(before) && (rest == [] || !IsSpace(rest[0]))
    ensures LStrip(before + rest) == rest
  {
    if before != [] {
      assert (before + rest)[1..] == before[1..] + rest;
      LStripPrefix(before[1..], rest);
    } else {
      assert before + rest == rest;
    }
  }

  /** `RStrip` removes a trailing run of white space and nothing before it. */
  lemma {:induction false} RStripSuffix(rest: string, after: string)
    requires AllSpace(after) && (rest == [] || !IsSpace(rest[|rest| - 1]))
    ensures RStrip(rest + after) == rest
  {
    if after != [] {
      var s := rest + after;
      assert s[..|s| - 1] == rest + after[..|after| - 1];
      RStripSuffix(rest, after[..|after| - 1]);
    } else {
      assert rest + after == rest;
    }
  }

  /** Stripping a string framed by white space gives what the frame holds. */
  lemma StripSurrounded(before: string, core: string, after: string)
    requires AllSpace(before) && AllSpace(after) && NoSurroundingSpace(core)
    ensures Strip(before + core + after) == core
  {
    if core == [] {
      assert before + core + after == before + after;
      assert AllSpace(before + after);
      LStripPrefix(before + after, []);
      assert before + after + [] == before + after;
    } else {
      assert before + core + after == before + (core + after);
      LStripPrefix(before, core + after);
      RStripSuffix(core, after);
    }
  }
}

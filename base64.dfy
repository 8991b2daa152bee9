/** `btoa` and `atob`: the base 64 encoding of section 4 of RFC 4648 (with
    `=` padding) over binary strings, and the forgiving decoder that browsers
    implement for `atob`. */
module Base64 {
  import opened Wrappers
  import opened JsString

  type Byte = b: int | 0 <= b < 256

  /** Six bits: one character of the encoding. */
  type Sextet = v: int | 0 <= v < 64

  const Pad: Unit := 61  // '='

  /** The character for a six-bit value, from the alphabet
      `A-Z a-z 0-9 + /` of Table 1 of RFC 4648. */
  function SextetChar(v: Sextet): Unit
  {
    if v < 26 then 65 + v
    else if v < 52 then 97 + (v - 26)
    else if v < 62 then 48 + (v - 52)
    else if v == 62 then 43
    else 47
  }

  predicate IsAlphabet(u: int)
  {
    (65 <= u <= 90) || (97 <= u <= 122) || (48 <= u <= 57) || u == 43 || u == 47
  }

  /** The six-bit value of a character of the alphabet. */
  function SextetValue(u: int): Sextet
    requires IsAlphabet(u)
  {
    if 65 <= u <= 90 then u - 65
    else if 97 <= u <= 122 then u - 97 + 26
    else if 48 <= u <= 57 then u - 48 + 52
    else if u == 43 then 62
    else 63
  }

  /** A binary string: every code unit fits in a byte, as `btoa` demands. */
  predicate IsBinary(s: Str)
  {
    forall k | 0 <= k < |s| :: s[k] < 256
  }

  /** The six-bit groups of `b`, three bytes to four sextets, with a final
      group of one or two bytes zero-filled to two or three sextets. */
  function Sextets(b: seq<Byte>): (r: seq<Sextet>)
    ensures |r| == 4 * (|b| / 3) + (if |b| % 3 == 0 then 0 else |b| % 3 + 1)
  {
    if |b| == 0 then []
    else if |b| == 1 then [b[0] / 4, (b[0] % 4) * 16]
    else if |b| == 2 then [b[0] / 4, (b[0] % 4) * 16 + b[1] / 16, (b[1] % 16) * 4]
    else [b[0] / 4, (b[0] % 4) * 16 + b[1] / 16, (b[1] % 16) * 4 + b[2] / 64, b[2] % 64]
         + Sextets(b[3..])
  }

  /** The padding that completes the last group of four characters. */
  function Padding(n: nat): Str
  {
    if n % 3 == 1 then [Pad, Pad] else if n % 3 == 2 then [Pad] else []
  }

  /** Sextets written as characters of the alphabet. */
  function Chars(v: seq<Sextet>): (r: Str)
    ensures |r| == |v|
    ensures forall k | 0 <= k < |r| :: IsAlphabet(r[k]) && SextetValue(r[k]) == v[k]
  {
    seq(|v|, k requires 0 <= k < |v| => SextetChar(v[k]))
  }

  /** The encoding of `b`: its sextets as characters, then padding. */
  function Encode(b: seq<Byte>): Str
  {
    Chars(Sextets(b)) + Padding(|b|)
  }

  /** `btoa(s)`: fails (throws InvalidCharacterError) when some code unit of
      `s` does not fit in a byte. */
  function Btoa(s: Str): (r: Option<Str>)
    ensures r.Some? <==> IsBinary(s)
    ensures r.Some? ==> |r.value| == 4 * ((|s| + 2) / 3)
  {
    if IsBinary(s) then Some(Encode(seq(|s|, k requires 0 <= k < |s| => s[k] as Byte))) else None
  }

  /** The bytes of a sequence of sextets whose last group has two, three or
      four sextets; the bits beyond the last whole byte are dropped. */
  function DecodeSextets(v: seq<Sextet>): seq<Byte>
    requires |v| % 4 != 1
  {
    if |v| == 0 then []
    else
      var a: int, b: int := v[0], v[1];
      if |v| == 2 then [a * 4 + b / 16]
      else
        var c: int := v[2];
        if |v| == 3 then [a * 4 + b / 16, (b % 16) * 16 + c / 4]
        else
          var d: int := v[3];
          [a * 4 + b / 16, (b % 16) * 16 + c / 4, (c % 4) * 64 + d] + DecodeSextets(v[4..])
  }

  /** ASCII whitespace: TAB, LF, FF, CR and SPACE. */
  predicate IsAsciiWhitespace(u: int)
  {
    u == 0x09 || u == 0x0A || u == 0x0C || u == 0x0D || u == 0x20
  }

  function RemoveAsciiWhitespace(s: Str): (r: Str)
    ensures forall k | 0 <= k < |r| :: !IsAsciiWhitespace(r[k])
  {
    if s == [] then []
    else (if IsAsciiWhitespace(s[0]) then [] else [s[0]]) + RemoveAsciiWhitespace(s[1..])
  }

  /** Drops one or two trailing `=` when the length is a multiple of four. */
  function StripPadding(t: Str): Str
  {
    if |t| % 4 == 0 && |t| >= 2 && t[|t| - 1] == Pad && t[|t| - 2] == Pad then t[..|t| - 2]
    else if |t| % 4 == 0 && |t| >= 1 && t[|t| - 1] == Pad then t[..|t| - 1]
    else t
  }

  /** `atob(s)`, the forgiving base 64 decoder: whitespace is ignored,
      padding is optional, and the result is None (InvalidCharacterError)
      when the length leaves a remainder of 1 or a character lies outside
      the alphabet. */
  function Atob(s: Str): (r: Option<seq<Byte>>)
    ensures var u := StripPadding(RemoveAsciiWhitespace(s));
      r.Some? ==> |u| % 4 != 1 && |r.value| == 3 * (|u| / 4) + (if |u| % 4 == 0 then 0 else |u| % 4 - 1)
  {
    var u := StripPadding(RemoveAsciiWhitespace(s));
    if |u| % 4 == 1 then None
    else
      match SextetValues(u)
      case None => None
      case Some(v) => DecodeSextetsLength(v); Some(DecodeSextets(v))
  }

  /** Every whole group of four sextets gives three bytes, a final group of
      two or three gives one or two. */
  lemma {:induction false} DecodeSextetsLength(v: seq<Sextet>)
    requires |v| % 4 != 1
    ensures |DecodeSextets(v)| == 3 * (|v| / 4) + (if |v| % 4 == 0 then 0 else |v| % 4 - 1)
    decreases |v|
  {
    if |v| >= 4 {
      DecodeSextetsLength(v[4..]);
    }
  }

  /** The six-bit values of `u`, or None when some character lies outside
      the alphabet. */
  function SextetValues(u: Str): (r: Option<seq<Sextet>>)
    ensures r.Some? ==> |r.value| == |u|
  {
    if u == [] then Some([])
    else if !IsAlphabet(u[0]) then None
    else
      match SextetValues(u[1..])
      case None => None
      case Some(rest) => Some([SextetValue(u[0])] + rest)
  }

  /** `SextetValues` fails exactly on a character outside the alphabet and
      otherwise maps every character to its value. */
  lemma {:induction false} SextetValuesDefined(u: Str)
    ensures SextetValues(u).Some? <==> forall k | 0 <= k < |u| :: IsAlphabet(u[k])
    ensures SextetValues(u).Some? ==> forall k | 0 <= k < |u| :: SextetValues(u).value[k] == SextetValue(u[k])
  {
    if u != [] {
      SextetValuesDefined(u[1..]);
      assert forall k | 1 <= k < |u| :: u[k] == u[1..][k - 1];
    }
  }

  /** `atob` fails (throws InvalidCharacterError) exactly when, once white
      space and padding are removed, the length leaves a remainder of 1 or a
      character lies outside the alphabet. */
  lemma AtobFails(s: Str)
    ensures var u := StripPadding(RemoveAsciiWhitespace(s));
      Atob(s).None? <==> |u| % 4 == 1 || exists k | 0 <= k < |u| :: !IsAlphabet(u[k])
  {
    SextetValuesDefined(StripPadding(RemoveAsciiWhitespace(s)));
  }

  lemma {:induction false} DecodeSextetsInvertsSextets(b: seq<Byte>)
    ensures DecodeSextets(Sextets(b)) == b
    decreases |b|
  {
    if |b| == 1 {
      RegroupBytes(b[0], 0, 0);
    } else if |b| == 2 {
      RegroupBytes(b[0], b[1], 0);
    } else if |b| >= 3 {
      var v := Sextets(b);
      RegroupBytes(b[0], b[1], b[2]);
      assert v[4..] == Sextets(b[3..]);
      DecodeSextetsInvertsSextets(b[3..]);
      assert b == b[..3] + b[3..];
    }
  }

  /** The arithmetic of one group: three bytes split into four sextets and
      joined again. */
  lemma RegroupBytes(x: Byte, y: Byte, z: Byte)
    ensures (x / 4) * 4 + ((x % 4) * 16 + y / 16) / 16 == x
    ensures (((x % 4) * 16 + y / 16) % 16) * 16 + ((y % 16) * 4 + z / 64) / 4 == y
    ensures (((y % 16) * 4 + z / 64) % 4) * 64 + z % 64 == z
  {
  }

  lemma {:induction false} NoWhitespaceUnchanged(s: Str)
    requires forall k | 0 <= k < |s| :: !IsAsciiWhitespace(s[k])
    ensures RemoveAsciiWhitespace(s) == s
  {
    if s != [] {
      NoWhitespaceUnchanged(s[1..]);
    }
  }

  /** Padding that brings a run of characters to a multiple of four. */
  predicate CompletesGroup(n: nat, pad: Str)
  {
    (n % 4 == 0 && pad == []) || (n % 4 == 2 && pad == [Pad, Pad]) || (n % 4 == 3 && pad == [Pad])
  }

  lemma StripPaddingOfChars(v: seq<Sextet>, pad: Str)
    requires CompletesGroup(|v|, pad)
    ensures StripPadding(Chars(v) + pad) == Chars(v)
  {
    var chars := Chars(v);
    var e := chars + pad;
    var n := |chars|;
    if pad == [] {
      assert e == chars;
      if n > 0 {
        assert e[n - 1] == chars[n - 1];
      }
    } else if pad == [Pad, Pad] {
      assert e[..n] == chars;
    } else {
      assert n == 0 || e[n - 1] == chars[n - 1];
      assert e[..n] == chars;
    }
  }

  lemma PaddingCompletes(n: nat)
    ensures CompletesGroup(4 * (n / 3) + (if n % 3 == 0 then 0 else n % 3 + 1), Padding(n))
  {
    var q := n / 3;
    assert n == 3 * q + n % 3;
    assert (4 * q) % 4 == 0;
  }

  /** Decoding characters of the alphabet followed by the padding that
      completes their last group yields the bytes of their sextets. */
  lemma AtobOfChars(v: seq<Sextet>, pad: Str)
    requires CompletesGroup(|v|, pad)
    ensures Atob(Chars(v) + pad) == Some(DecodeSextets(v))
  {
    var chars := Chars(v);
    var e := chars + pad;
    EncodingHasNoWhitespace(v, pad);
    NoWhitespaceUnchanged(e);
    StripPaddingOfChars(v, pad);
    SextetValuesOfChars(v);
  }

  lemma EncodingHasNoWhitespace(v: seq<Sextet>, pad: Str)
    requires CompletesGroup(|v|, pad)
    ensures forall k | 0 <= k < |Chars(v) + pad| :: !IsAsciiWhitespace((Chars(v) + pad)[k])
  {
    var chars := Chars(v);
    var e := chars + pad;
    forall k | 0 <= k < |e|
      ensures !IsAsciiWhitespace(e[k])
    {
      if k < |chars| {
        assert e[k] == chars[k];
      } else {
        assert e[k] == pad[k - |chars|];
      }
    }
  }

  lemma SextetValuesOfChars(v: seq<Sextet>)
    ensures SextetValues(Chars(v)) == Some(v)
  {
    var chars := Chars(v);
    SextetValuesDefined(chars);
    var r := SextetValues(chars).value;
    assert forall k | 0 <= k < |v| :: r[k] == v[k];
    assert r == v;
  }

  /** `atob` undoes `btoa`: decoding an encoding gives back the bytes. */
  lemma AtobInvertsEncode(b: seq<Byte>)
    ensures Atob(Encode(b)) == Some(b)
  {
    var v := Sextets(b);
    PaddingCompletes(|b|);
    AtobOfChars(v, Padding(|b|));
    DecodeSextetsInvertsSextets(b);
  }

  /** `btoa` writes alphabet characters followed by `=` padding only. */
  lemma BtoaCharacters(s: Str)
    requires IsBinary(s)
    ensures var e := Btoa(s).value;
      forall k | 0 <= k < |e| :: IsAlphabet(e[k]) || e[k] == Pad
  {
    var b := seq(|s|, k requires 0 <= k < |s| => s[k] as Byte);
    var c, p := Chars(Sextets(b)), Padding(|b|);
    assert Btoa(s).value == c + p;
    forall k | 0 <= k < |c + p|
      ensures IsAlphabet((c + p)[k]) || (c + p)[k] == Pad
    {
      if k >= |c| {
        assert (c + p)[k] == p[k - |c|];
      }
    }
  }

  /** `atob(btoa(s))` is `s` for every binary string `s`. */
  lemma AtobInvertsBtoa(s: Str)
    requires IsBinary(s)
    ensures Btoa(s).Some? && Atob(Btoa(s).value) == Some(s)
  {
    var b := seq(|s|, k requires 0 <= k < |s| => s[k] as Byte);
    AtobInvertsEncode(b);
    assert b == s;
  }
}

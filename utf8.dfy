/** `new TextEncoder().encode(s)`: the UTF-8 bytes of a JavaScript string.
    A surrogate pair is one code point; a lone surrogate is encoded as
    U+FFFD REPLACEMENT CHARACTER. */
module Utf8 {
  import opened JsString
  import opened Base64

  predicate IsHighSurrogate(u: int) { 0xD800 <= u <= 0xDBFF }
  predicate IsLowSurrogate(u: int) { 0xDC00 <= u <= 0xDFFF }

  /** The one to four bytes of a code point. */
  function CodePointBytes(cp: int): (r: seq<Byte>)
    requires 0 <= cp < 0x11_0000
    ensures 1 <= |r| <= 4
  {
    if cp < 0x80 then [cp]
    else if cp < 0x800 then [0xC0 + cp / 64, 0x80 + cp % 64]
    else if cp < 0x1_0000 then [0xE0 + cp / 4096, 0x80 + (cp / 64) % 64, 0x80 + cp % 64]
    else [0xF0 + cp / 0x4_0000, 0x80 + (cp / 4096) % 64, 0x80 + (cp / 64) % 64, 0x80 + cp % 64]
  }

  /** Number of code units of the first code point of `s`: two for a
      surrogate pair, one otherwise. */
  function HeadLength(s: Str): (n: nat)
    requires s != []
    ensures 1 <= n <= |s|
  {
    if IsHighSurrogate(s[0]) && |s| >= 2 && IsLowSurrogate(s[1]) then 2 else 1
  }

  /** The first code point of `s`, with U+FFFD for a lone surrogate. */
  function HeadPoint(s: Str): (cp: int)
    requires s != []
    ensures 0 <= cp < 0x11_0000
  {
    var first: int := s[0];
    if HeadLength(s) == 2 then
      var second: int := s[1];
      0x1_0000 + (first - 0xD800) * 0x400 + (second - 0xDC00)
    else if IsHighSurrogate(first) || IsLowSurrogate(first) then 0xFFFD
    else first
  }

  function Encode(s: Str): (r: seq<Byte>)
    ensures |r| <= 3 * |s|
    ensures s == [] <==> r == []
    decreases |s|
  {
    if s == [] then [] else CodePointBytes(HeadPoint(s)) + Encode(s[HeadLength(s)..])
  }

  /** Every code unit contributes at least one byte. */
  lemma {:induction false} EncodeLength(s: Str)
    ensures |Encode(s)| >= |s|
    decreases |s|
  {
    if s != [] {
      EncodeLength(s[HeadLength(s)..]);
    }
  }

  /** An ASCII string is its own encoding. */
  lemma {:induction false} EncodeAscii(s: Str)
    requires forall k | 0 <= k < |s| :: s[k] < 0x80
    ensures Encode(s) == s
    decreases |s|
  {
    if s != [] {
      EncodeAscii(s[1..]);
    }
  }

  lemma HeadOfAppend(a: Str, b: Str)
    requires a != []
    requires b == [] || !IsLowSurrogate(b[0])
    ensures HeadLength(a + b) == HeadLength(a) && HeadPoint(a + b) == HeadPoint(a)
  {
    var ab := a + b;
    assert ab[0] == a[0];
    assert |a| >= 2 ==> ab[1] == a[1];
  }

  lemma AppendAssoc(x: seq<Byte>, y: seq<Byte>, z: seq<Byte>)
    ensures x + (y + z) == (x + y) + z
  {
  }

  /** Encoding distributes over concatenation unless the join splits a
      surrogate pair. */
  lemma {:induction false} EncodeAppend(a: Str, b: Str)
    requires b == [] || !IsLowSurrogate(b[0])
    ensures Encode(a + b) == Encode(a) + Encode(b)
    decreases |a|
  {
    if a == [] {
      assert a + b == b;
    } else {
      var ab := a + b;
      var n := HeadLength(a);
      HeadOfAppend(a, b);
      var head := CodePointBytes(HeadPoint(a));
      assert ab[n..] == a[n..] + b;
      EncodeAppend(a[n..], b);
      AppendAssoc(head, Encode(a[n..]), Encode(b));
    }
  }
}

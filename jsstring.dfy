/** JavaScript strings as sequences of UTF-16 code units, with the string
    operations of the userscript that the model relies on: `trim`, number
    to decimal string, and string literals. */
module JsString {

  /** One UTF-16 code unit, as `charCodeAt` returns it. */
  type Unit = u: int | 0 <= u < 0x1_0000

  /** A JavaScript string: its code units in order (`length` is `|s|`). */
  type Str = seq<Unit>

  /** A Dafny string literal as code units. Only used for literals whose
      characters all lie in the Basic Multilingual Plane, where each
      character is one code unit. */
  function Lit(s: string): Str
  {
    seq(|s|, i requires 0 <= i < |s| => (s[i] as int) % 0x1_0000)
  }

  predicate IsDigit(u: int)
  {
    48 <= u <= 57
  }

  /** The code units `String.prototype.trim` strips: WhiteSpace (TAB, VT,
      FF, SPACE, NBSP, ZWNBSP and the Zs category) and LineTerminator
      (LF, CR, LS, PS). */
  predicate IsTrimmable(u: int)
  {
    u == 0x09 || u == 0x0A || u == 0x0B || u == 0x0C || u == 0x0D || u == 0x20 ||
    u == 0xA0 || u == 0x1680 || (0x2000 <= u <= 0x200A) || u == 0x2028 ||
    u == 0x2029 || u == 0x202F || u == 0x205F || u == 0x3000 || u == 0xFEFF
  }

  /** Number of trimmable units at the start of `s`. */
  function LeadingSpace(s: Str): (n: nat)
    ensures n <= |s|
    ensures forall k | 0 <= k < n :: IsTrimmable(s[k])
    ensures n < |s| ==> !IsTrimmable(s[n])
  {
    if |s| > 0 && IsTrimmable(s[0]) then 1 + LeadingSpace(s[1..]) else 0
  }

  /** Number of trimmable units at the end of `s`. */
  function TrailingSpace(s: Str): (n: nat)
    ensures n <= |s|
    ensures forall k | |s| - n <= k < |s| :: IsTrimmable(s[k])
    ensures n < |s| ==> !IsTrimmable(s[|s| - n - 1])
  {
    if |s| > 0 && IsTrimmable(s[|s| - 1]) then 1 + TrailingSpace(s[..|s| - 1]) else 0
  }

  /** `s.trim()`: never longer than `s`, and the identity on a string that
      neither starts nor ends with a trimmable unit. */
  function Trim(s: Str): (r: Str)
    ensures |r| <= |s|
    ensures s != [] && !IsTrimmable(s[0]) && !IsTrimmable(s[|s| - 1]) ==> r == s
  {
    var rest := s[LeadingSpace(s)..];
    rest[..|rest| - TrailingSpace(rest)]
  }

  /** `trim` leaves a string that neither starts nor ends with a trimmable
      unit. */
  lemma TrimStripsSpace(s: Str)
    ensures var r := Trim(s);
      r == [] || (!IsTrimmable(r[0]) && !IsTrimmable(r[|r| - 1]))
  {
    var rest := s[LeadingSpace(s)..];
    var t := TrailingSpace(rest);
    var r := rest[..|rest| - t];
    assert Trim(s) == r;
    if r != [] {
      assert r[0] == rest[0] && r[|r| - 1] == rest[|rest| - t - 1];
    }
  }

  /** `trim` drops trimmable units only, from both ends: the result is the
      slice of `s` that starts after its leading space. */
  lemma TrimIsSlice(s: Str)
    ensures var r, i := Trim(s), LeadingSpace(s);
      i + |r| <= |s| && r == s[i..i + |r|] &&
      (forall k | 0 <= k < i :: IsTrimmable(s[k])) &&
      (forall k | i + |r| <= k < |s| :: IsTrimmable(s[k]))
  {
    var i := LeadingSpace(s);
    var rest := s[i..];
    var t := TrailingSpace(rest);
    var r := rest[..|rest| - t];
    assert Trim(s) == r;
    assert r == s[i..i + |r|];
    forall k | i + |r| <= k < |s|
      ensures IsTrimmable(s[k])
    {
      assert s[k] == rest[k - i];
    }
  }

  /** The decimal digits of `n`, as `${n}` writes a non-negative integer:
      a single digit below ten, and never a leading zero otherwise. */
  function Decimal(n: nat): (r: Str)
    ensures |r| >= 1 && forall k | 0 <= k < |r| :: IsDigit(r[k])
    ensures |r| == 1 <==> n < 10
    ensures r[0] == 48 <==> n == 0
    ensures |r| > 1 ==> r[0] != 48
    ensures ParseDecimal(r) == n
  {
    if n < 10 then [48 + n] else Decimal(n / 10) + [48 + n % 10]
  }

  /** The value of a string of decimal digits. */
  function ParseDecimal(s: Str): nat
  {
    if s == [] then 0
    else 10 * ParseDecimal(s[..|s| - 1]) + (if IsDigit(s[|s| - 1]) then s[|s| - 1] - 48 else 0)
  }
}

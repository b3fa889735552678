/**
 * The JavaScript number built-ins that the multihash split calls:
 * `x & 0xFF`, `n.toString(16)` and `parseInt(s, 16)`. A JavaScript number is
 * modelled as an unbounded integer or `NaN`; the split only meets integers
 * below 256, which a double holds exactly.
 */
module JsNumber {
  import opened JsText

  datatype Number = NaN | Num(value: int)

  /**
   * `x & 0xFF` for an integer `x`: ToInt32 keeps `x` modulo 2^32, and the mask
   * keeps its low eight bits, so the result is the residue of `x` modulo 256.
   */
  function Mask8(x: int): (r: int)
    ensures 0 <= r < 256
    ensures (x - r) % 256 == 0
    ensures 0 <= x < 256 ==> r == x
  {
    x % 256
  }

  /** A digit that `parseInt` accepts in radix 16: `0-9`, `a-f` or `A-F`. */
  predicate IsHexDigit(c: char) {
    '0' <= c <= '9' || 'a' <= c <= 'f' || 'A' <= c <= 'F'
  }

  /** A digit that `toString(16)` can produce: `0-9` or `a-f`. */
  predicate IsLowerHexDigit(c: char) {
    '0' <= c <= '9' || 'a' <= c <= 'f'
  }

  predicate IsHexString(s: string) {
    forall i | 0 <= i < |s| :: IsHexDigit(s[i])
  }

  predicate IsLowerHex(s: string) {
    forall i | 0 <= i < |s| :: IsLowerHexDigit(s[i])
  }

  /** The value of one radix-16 digit, either case. */
  function DigitValue(c: char): (v: nat)
    requires IsHexDigit(c)
    ensures v < 16
  {
    if '0' <= c <= '9' then c as int - '0' as int
    else if 'a' <= c <= 'f' then c as int - 'a' as int + 10
    else c as int - 'A' as int + 10
  }

  /** The digit `toString(16)` writes for `d`. */
  function HexDigit(d: nat): (c: char)
    requires d < 16
    ensures IsLowerHexDigit(c) && IsHexDigit(c)
    ensures DigitValue(c) == d
  {
    if d < 10 then ('0' as int + d) as char else ('a' as int + d - 10) as char
  }

  /** The positional value of a radix-16 digit string, most significant digit first. */
  function HexValue(s: string): nat
    requires IsHexString(s)
  {
    if |s| == 0 then 0 else 16 * HexValue(s[..|s| - 1]) + DigitValue(s[|s| - 1])
  }

  /**
   * `n.toString(16)` for a non-negative integer: lower-case digits, no
   * padding and no leading zero, whose radix-16 value is `n`.
   */
  function ToHexString(n: nat): (r: string)
    ensures 1 <= |r|
    ensures IsLowerHex(r) && IsHexString(r)
    ensures HexValue(r) == n
    ensures 1 < |r| ==> r[0] != '0'
    ensures |r| == 1 <==> n < 16
  {
    if n < 16 then [HexDigit(n)]
    else
      var r := ToHexString(n / 16) + [HexDigit(n % 16)];
      assert r[..|r| - 1] == ToHexString(n / 16);
      r
  }

  /**
   * The white space `parseInt` skips first: the StrWhiteSpaceChar set of
   * ECMAScript, which is the WhiteSpace and LineTerminator code points.
   */
  predicate IsStrWhiteSpace(c: char) {
    || c == '\t' || c == '\n' || c == '\U{000B}' || c == '\U{000C}' || c == '\r'
    || c == ' ' || c == '\U{00A0}' || c == '\U{1680}' || ('\U{2000}' <= c <= '\U{200A}')
    || c == '\U{2028}' || c == '\U{2029}' || c == '\U{202F}' || c == '\U{205F}'
    || c == '\U{3000}' || c == '\U{FEFF}'
  }

  /** `s` without its leading white space. */
  function TrimStart(s: string): (r: string)
    ensures |r| <= |s| && r == s[|s| - |r|..]
    ensures forall i | 0 <= i < |s| - |r| :: IsStrWhiteSpace(s[i])
    ensures |r| > 0 ==> !IsStrWhiteSpace(r[0])
  {
    if |s| > 0 && IsStrWhiteSpace(s[0]) then TrimStart(s[1..]) else s
  }

  /** The longest prefix of `s` made of radix-16 digits. */
  function HexDigitPrefix(s: string): (r: string)
    ensures |r| <= |s| && r == s[..|r|]
    ensures IsHexString(r)
    ensures |r| < |s| ==> !IsHexDigit(s[|r|])
  {
    if |s| > 0 && IsHexDigit(s[0]) then [s[0]] + HexDigitPrefix(s[1..]) else []
  }

  /** A string of radix-16 digits is its own longest digit prefix. */
  lemma {:induction false} HexDigitPrefixOfHexString(s: string)
    ensures IsHexString(s) ==> HexDigitPrefix(s) == s
  {
    if |s| > 0 && IsHexString(s) {
      HexDigitPrefixOfHexString(s[1..]);
    }
  }

  /**
   * `parseInt(s, 16)`: skip leading white space, take an optional sign, drop
   * an optional `0x`/`0X` prefix, and read the longest run of radix-16
   * digits; with no digit the result is NaN.
   */
  function ParseInt16(s: string): (r: Number)
    ensures s == [] ==> r == NaN
    ensures IsHexString(s) && |s| > 0 ==> r == Num(HexValue(s))
  {
    var t := TrimStart(s);
    var negative := |t| > 0 && t[0] == '-';
    var u := if |t| > 0 && (t[0] == '-' || t[0] == '+') then t[1..] else t;
    var v := if |u| >= 2 && u[0] == '0' && (u[1] == 'x' || u[1] == 'X') then u[2..] else u;
    var digits := HexDigitPrefix(v);
    var magnitude: int := HexValue(digits);
    HexDigitPrefixOfHexString(s);
    assert IsHexString(s) && |s| > 0 ==> !IsStrWhiteSpace(s[0]) && t == s;
    assert IsHexString(s) && |s| > 1 ==> !IsHexDigit('x') && !IsHexDigit('X') && IsHexDigit(s[1]);
    if digits == [] then NaN else Num(if negative then -magnitude else magnitude)
  }
}

/**
 * The JavaScript number operations behind `hexToRgba` and `hexToRgb`:
 * `parseInt(hex.slice(1), 16)` followed by `(bigint >> k) & 255`.
 * Numbers are exact integers here; `None` stands for `NaN`.
 */
module HexColor {
  import opened Wrappers
  import opened Pixels

  predicate IsHexDigit(c: char) {
    '0' <= c <= '9' || 'a' <= c <= 'f' || 'A' <= c <= 'F'
  }

  predicate AllHexDigits(s: string) {
    forall i :: 0 <= i < |s| ==> IsHexDigit(s[i])
  }

  function DigitValue(c: char): (d: nat)
    requires IsHexDigit(c)
    ensures d < 16
  {
    if '0' <= c <= '9' then c as int - '0' as int
    else if 'a' <= c <= 'f' then c as int - 'a' as int + 10
    else c as int - 'A' as int + 10
  }

  function Pow16(n: nat): (p: nat)
    ensures p >= 1
  {
    if n == 0 then 1 else 16 * Pow16(n - 1)
  }

  function Pow2(n: nat): (p: nat)
    ensures p >= 1
  {
    if n == 0 then 1 else 2 * Pow2(n - 1)
  }

  /** The value of a string of hexadecimal digits, most significant digit first. */
  function ValueOf(s: string): (v: nat)
    requires AllHexDigits(s)
    ensures v < Pow16(|s|)
  {
    if s == [] then 0 else ValueOf(s[..|s| - 1]) * 16 + DigitValue(s[|s| - 1])
  }

  /** ECMAScript's StrWhiteSpaceChar: WhiteSpace (TAB, VT, FF, ZWNBSP and the Zs category) and LineTerminator. */
  predicate IsWhiteSpace(c: char) {
    var n := c as int;
    n == 0x09 || n == 0x0A || n == 0x0B || n == 0x0C || n == 0x0D || n == 0x20 || n == 0xA0
    || n == 0x1680 || (0x2000 <= n <= 0x200A) || n == 0x2028 || n == 0x2029 || n == 0x202F
    || n == 0x205F || n == 0x3000 || n == 0xFEFF
  }

  /** Leading white space removed, as `parseInt` does first. */
  function TrimStart(s: string): (t: string)
    ensures |t| <= |s| && t == s[|s| - |t|..]
    ensures forall i :: 0 <= i < |s| - |t| ==> IsWhiteSpace(s[i])
    ensures t == [] || !IsWhiteSpace(t[0])
  {
    if |s| > 0 && IsWhiteSpace(s[0]) then TrimStart(s[1..]) else s
  }

  /** The length of the longest prefix of `s` made of hexadecimal digits. */
  function HexPrefixLength(s: string): (n: nat)
    ensures n <= |s|
    ensures AllHexDigits(s[..n])
    ensures n == |s| || !IsHexDigit(s[n])
  {
    if |s| > 0 && IsHexDigit(s[0]) then
      var n := 1 + HexPrefixLength(s[1..]);
      assert s[..n] == [s[0]] + s[1..][..n - 1];
      n
    else 0
  }

  /** `s` without one leading `+` or `-`. */
  function DropSign(s: string): string {
    if |s| > 0 && (s[0] == '+' || s[0] == '-') then s[1..] else s
  }

  /** `s` without a leading `0x` or `0X`, which radix 16 allows. */
  function DropHexPrefix(s: string): string {
    if |s| >= 2 && s[0] == '0' && (s[1] == 'x' || s[1] == 'X') then s[2..] else s
  }

  /**
   * `parseInt(s, 16)`: skip white space, read an optional sign and an optional `0x`,
   * then take the longest run of hexadecimal digits; `None` (NaN) when the run is empty.
   */
  function ParseInt16(s: string): (r: Option<int>)
    ensures s == [] ==> r == None
    ensures s != [] && AllHexDigits(s) ==> r == Some(ValueOf(s))
  {
    var t := TrimStart(s);
    var sign := if |t| > 0 && t[0] == '-' then -1 else 1;
    var digits := DropHexPrefix(DropSign(t));
    var n := HexPrefixLength(digits);
    if n == 0 then None
    else
      assert s != [] && AllHexDigits(s) ==> digits[..n] == s && sign == 1 by {
        if s != [] && AllHexDigits(s) {
          AllDigitsRead(s);
        }
      }
      Some(sign * ValueOf(digits[..n]))
  }

  /** A non-empty string of hex digits has no white space, sign or `0x` to skip, and is read whole. */
  lemma AllDigitsRead(s: string)
    requires s != [] && AllHexDigits(s)
    ensures TrimStart(s) == s && DropHexPrefix(DropSign(s)) == s && HexPrefixLength(s) == |s|
  {
    DigitIsNoMarker(s[0]);
    NoSignNoPrefix(s);
    WholePrefix(s);
  }

  lemma NoSignNoPrefix(s: string)
    requires s != [] && AllHexDigits(s)
    ensures DropHexPrefix(DropSign(s)) == s
  {
    DigitIsNoMarker(s[0]);
    if |s| >= 2 {
      DigitIsNoMarker(s[1]);
    }
  }

  /** A hexadecimal digit is neither white space, nor a sign, nor the `x` of `0x`. */
  lemma DigitIsNoMarker(c: char)
    requires IsHexDigit(c)
    ensures !IsWhiteSpace(c) && c != '+' && c != '-' && c != 'x' && c != 'X'
  {
  }

  lemma {:induction false} WholePrefix(s: string)
    requires AllHexDigits(s)
    ensures HexPrefixLength(s) == |s|
  {
    if |s| > 0 {
      assert IsHexDigit(s[0]);
      assert AllHexDigits(s[1..]) by {
        forall i | 0 <= i < |s| - 1 ensures IsHexDigit(s[1..][i]) {
          assert s[1..][i] == s[i + 1];
        }
      }
      WholePrefix(s[1..]);
    }
  }

  /** `hex.slice(1)`: everything after the first character. */
  function SliceFrom1(hex: string): (t: string)
    ensures |hex| > 0 ==> hex == [hex[0]] + t
  {
    if |hex| == 0 then [] else hex[1..]
  }

  /** ECMAScript ToInt32 of an integral number: wrap modulo 2^32 into the signed range. */
  function ToInt32(v: int): (r: int)
    ensures -0x8000_0000 <= r < 0x8000_0000
    ensures (v - r) % 0x1_0000_0000 == 0
    ensures 0 <= v < 0x8000_0000 ==> r == v
  {
    var u := v % 0x1_0000_0000;
    if u >= 0x8000_0000 then u - 0x1_0000_0000 else u
  }

  /** `v >> k` on a signed 32-bit value: an arithmetic shift, that is floor division by 2^k. */
  function ShiftRight(v: int, k: nat): (r: int)
    ensures r * Pow2(k) <= v < r * Pow2(k) + Pow2(k)
  {
    v / Pow2(k)
  }

  /** `v & 255`: the low eight bits of the two's-complement representation. */
  function LowByte(v: int): (b: Byte)
    ensures (v - b) % 256 == 0
  {
    v % 256
  }

  /**
   * `(bigint >> k) & 255`, where `k == 0` stands for `bigint & 255`. NaN converts to 0 under
   * ToInt32, so every byte taken from it is 0; a value already in the signed 32-bit range and
   * not negative loses its low `k` bits and keeps the next eight.
   */
  function ByteOf(bigint: Option<int>, k: nat): (b: Byte)
    ensures bigint == None ==> b == 0
    ensures bigint.Some? && 0 <= bigint.value < 0x8000_0000 ==> b == (bigint.value / Pow2(k)) % 256
  {
    var v := ToInt32(bigint.GetOr(0));
    assert bigint == None ==> v == 0;
    DivModUnique(0, Pow2(k), 0, 0);
    LowByte(ShiftRight(v, k))
  }

  /** The byte written as the two hexadecimal digits `hi lo`. */
  function Pair(hi: char, lo: char): Byte
    requires IsHexDigit(hi) && IsHexDigit(lo)
  {
    DigitValue(hi) * 16 + DigitValue(lo)
  }

  /** Six hexadecimal digits are the number made of their three digit pairs. */
  lemma SixDigitValue(s: string)
    requires |s| == 6 && AllHexDigits(s)
    ensures ValueOf(s) == Pair(s[0], s[1]) * 65536 + Pair(s[2], s[3]) * 256 + Pair(s[4], s[5])
  {
    assert s[..6] == s;
    assert s[..6][..5] == s[..5] && s[..5][..4] == s[..4] && s[..4][..3] == s[..3];
    assert s[..3][..2] == s[..2] && s[..2][..1] == s[..1] && s[..1][..0] == [];
    assert ValueOf(s[..2]) == Pair(s[0], s[1]);
    assert ValueOf(s[..4]) == ValueOf(s[..2]) * 256 + Pair(s[2], s[3]);
  }

  /** The three bytes that `>> 16`, `>> 8` and `>> 0` followed by `& 255` extract from a 24-bit number. */
  lemma ThreeBytes(r: Byte, g: Byte, b: Byte)
    ensures ByteOf(Some(r * 65536 + g * 256 + b), 16) == r
    ensures ByteOf(Some(r * 65536 + g * 256 + b), 8) == g
    ensures ByteOf(Some(r * 65536 + g * 256 + b), 0) == b
  {
    var v := r * 65536 + g * 256 + b;
    assert ToInt32(v) == v;
    assert Pow2(16) == 65536 && Pow2(8) == 256 && Pow2(0) == 1;
    DivModUnique(v, 65536, r, g * 256 + b);
    DivModUnique(v, 256, r * 256 + g, b);
    DivModUnique(r * 256 + g, 256, r, g);
  }

  /** Six hexadecimal digits parse to one number whose three bytes are the three digit pairs. */
  lemma SixDigitBytes(s: string)
    requires |s| == 6 && AllHexDigits(s)
    ensures ByteOf(ParseInt16(s), 16) == Pair(s[0], s[1])
    ensures ByteOf(ParseInt16(s), 8) == Pair(s[2], s[3])
    ensures ByteOf(ParseInt16(s), 0) == Pair(s[4], s[5])
  {
    SixDigitValue(s);
    ThreeBytes(Pair(s[0], s[1]), Pair(s[2], s[3]), Pair(s[4], s[5]));
  }

  /** The hexadecimal digit of `n`, lower case as colour pickers write it. */
  function HexChar(n: nat): (c: char)
    requires n < 16
    ensures IsHexDigit(c) && DigitValue(c) == n
  {
    if n < 10 then ('0' as int + n) as char else ('a' as int + n - 10) as char
  }

  /** A colour as the `#rrggbb` string a colour picker reports. */
  function FormatHex(r: Byte, g: Byte, b: Byte): (s: string)
    ensures |s| == 7 && s[0] == '#' && AllHexDigits(s[1..])
    ensures Pair(s[1], s[2]) == r && Pair(s[3], s[4]) == g && Pair(s[5], s[6]) == b
  {
    ['#', HexChar(r / 16), HexChar(r % 16), HexChar(g / 16), HexChar(g % 16), HexChar(b / 16), HexChar(b % 16)]
  }
}

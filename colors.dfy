/** The integer part of hexToRgba: parse a colour string such as "#e53935"
    with parseInt(..., 16) after removing the first '#', then pick the red,
    green and blue bytes out of the 24-bit value with 32-bit shifts and
    masks. The rgba(...) text built from them is not modelled. */
module Colors {
  import opened Options

  /** The three channels of a colour, each in 0..255. */
  datatype Rgb = Rgb(r: int, g: int, b: int)

  const TwoTo32: int := 0x1_0000_0000
  const TwoTo31: int := 0x8000_0000
  const TwoTo24: int := 0x100_0000

  // ---- String.prototype.replace('#', '') -------------------------------

  /** Index of the first '#' in a string that has one. */
  function FirstHash(s: string): (i: nat)
    requires '#' in s
    ensures i < |s| && s[i] == '#' && '#' !in s[..i]
  {
    if s[0] == '#' then 0
    else
      assert s == [s[0]] + s[1..];
      var j := FirstHash(s[1..]);
      assert s[..j + 1] == [s[0]] + s[1..][..j];
      j + 1
  }

  /** Removes the first '#' only, as replace with a string pattern does. */
  function StripFirstHash(s: string): (t: string)
    ensures '#' !in s ==> t == s
    ensures '#' in s ==> |t| == |s| - 1
  {
    if s == [] then []
    else if s[0] == '#' then s[1..]
    else
      assert s == [s[0]] + s[1..];
      [s[0]] + StripFirstHash(s[1..])
  }

  /** What is removed is the first '#': the text before it and the text
      after it are kept. */
  lemma {:induction false} StripFirstHashSpec(s: string)
    requires '#' in s
    ensures StripFirstHash(s) == s[..FirstHash(s)] + s[FirstHash(s) + 1..]
  {
    if s[0] != '#' {
      assert s == [s[0]] + s[1..];
      StripFirstHashSpec(s[1..]);
      var j := FirstHash(s[1..]);
      assert FirstHash(s) == j + 1;
      assert s[..j + 1] == [s[0]] + s[1..][..j];
      assert s[j + 2..] == s[1..][j + 1..];
    }
  }

  // ---- parseInt(s, 16) --------------------------------------------------

  predicate IsHexDigit(c: char)
  {
    '0' <= c <= '9' || 'a' <= c <= 'f' || 'A' <= c <= 'F'
  }

  function HexDigitValue(c: char): (d: int)
    requires IsHexDigit(c)
    ensures 0 <= d < 16
  {
    if '0' <= c <= '9' then c as int - '0' as int
    else if 'a' <= c <= 'f' then c as int - 'a' as int + 10
    else c as int - 'A' as int + 10
  }

  /** Length of the longest prefix of `s` made of hex digits: where
      parseInt stops reading. */
  function HexRun(s: string): (n: nat)
    ensures n <= |s|
    ensures forall i :: 0 <= i < n ==> IsHexDigit(s[i])
    ensures n < |s| ==> !IsHexDigit(s[n])
  {
    if s == [] || !IsHexDigit(s[0]) then 0 else 1 + HexRun(s[1..])
  }

  /** Value of a run of hex digits, most significant first. */
  function DigitsValue(s: string): (v: nat)
    requires forall i :: 0 <= i < |s| ==> IsHexDigit(s[i])
    ensures v < Pow16(|s|)
  {
    if s == [] then 0
    else 16 * DigitsValue(s[..|s| - 1]) + HexDigitValue(s[|s| - 1])
  }

  function Pow16(n: nat): (p: nat)
    ensures p > 0
  {
    if n == 0 then 1 else 16 * Pow16(n - 1)
  }

  /** parseInt(s, 16) on a string without leading white space: an optional
      sign, an optional "0x"/"0X" prefix, then the longest run of hex
      digits; `None` (NaN) when that run is empty. */
  function ParseIntHex(s: string): (v: Option<int>)
    ensures v.None? <==> HexRun(DropHexPrefix(DropSign(s))) == 0
    ensures v.Some? && (s == [] || s[0] != '-') ==> 0 <= v.value
  {
    var negative := |s| > 0 && s[0] == '-';
    var digits := DropHexPrefix(DropSign(s));
    var n := HexRun(digits);
    if n == 0 then None
    else Some(if negative then -(DigitsValue(digits[..n]) as int) else DigitsValue(digits[..n]))
  }

  /** A leading sign is skipped; the rest is a suffix of the input. */
  function DropSign(s: string): (t: string)
    ensures |t| <= |s| && |s| - |t| <= 1 && t == s[|s| - |t|..]
    ensures |t| < |s| <==> |s| > 0 && (s[0] == '+' || s[0] == '-')
  {
    if |s| > 0 && (s[0] == '+' || s[0] == '-') then s[1..] else s
  }

  /** A leading `0x` or `0X` is skipped; the rest is a suffix of the input. */
  function DropHexPrefix(s: string): (t: string)
    ensures |t| <= |s| && (|s| - |t| == 0 || |s| - |t| == 2) && t == s[|s| - |t|..]
    ensures |t| < |s| <==> |s| >= 2 && s[0] == '0' && (s[1] == 'x' || s[1] == 'X')
  {
    if |s| >= 2 && s[0] == '0' && (s[1] == 'x' || s[1] == 'X') then s[2..] else s
  }

  // ---- 32-bit shifts and masks -----------------------------------------

  /** ECMAScript ToInt32: wraps an integer into the signed 32-bit range;
      NaN becomes 0. */
  function ToInt32(v: Option<int>): (x: int)
    ensures -TwoTo31 <= x < TwoTo31
    ensures v.Some? && -TwoTo31 <= v.value < TwoTo31 ==> x == v.value
    ensures v.None? ==> x == 0
  {
    match v
    case None => 0
    case Some(n) =>
      var m := n % TwoTo32;
      if m >= TwoTo31 then m - TwoTo32 else m
  }

  /** `x >> k` on a signed 32-bit value (sign-propagating): floor division
      by 2^k, which is what Dafny's `/` does for a positive divisor. */
  function ShiftRight(x: int, k: nat): (r: int)
    ensures Pow2(k) * r <= x < Pow2(k) * r + Pow2(k)
  {
    x / Pow2(k)
  }

  function Pow2(k: nat): (p: nat)
    ensures p > 0
  {
    if k == 0 then 1 else 2 * Pow2(k - 1)
  }

  /** `x & 255` on a two's-complement value: its low byte. */
  function LowByte(x: int): (r: int)
    ensures 0 <= r < 256 && (x - r) % 256 == 0
  {
    x % 256
  }

  /** The red, green and blue bytes of a signed 32-bit value:
      `(x >> 16) & 255`, `(x >> 8) & 255` and `x & 255`. They are the
      base-256 digits of x's low 24 bits. */
  function Channels(x: int): (c: Rgb)
    ensures 0 <= c.r < 256 && 0 <= c.g < 256 && 0 <= c.b < 256
  {
    Rgb(LowByte(ShiftRight(x, 16)), LowByte(ShiftRight(x, 8)), LowByte(x))
  }

  /** The three bytes are the base-256 digits of x's low 24 bits. */
  lemma ChannelsSpec(x: int)
    ensures var c := Channels(x);
      c.r * 0x1_0000 + c.g * 0x100 + c.b == x % TwoTo24
  {
    Pow2Values();
    ChannelsRecompose(x);
  }

  /** The channels hexToRgba computes from a colour string: the low 24 bits
      of the parsed value, or black when the string does not parse. */
  function HexToRgb(hex: string): (c: Rgb)
    ensures 0 <= c.r < 256 && 0 <= c.g < 256 && 0 <= c.b < 256
  {
    Channels(ToInt32(ParseIntHex(StripFirstHash(hex))))
  }

  /** The channels spell the low 24 bits of the parsed value, or 0 when the
      string does not parse. */
  lemma HexToRgbSpec(hex: string)
    ensures var c, v := HexToRgb(hex), ParseIntHex(StripFirstHash(hex));
      c.r * 0x1_0000 + c.g * 0x100 + c.b == (if v.Some? then v.value % TwoTo24 else 0)
  {
    var v := ParseIntHex(StripFirstHash(hex));
    ToInt32KeepsLow24(v);
    ChannelsSpec(ToInt32(v));
  }

  /** A CSS colour name that starts with hex letters parses partly:
      `blue` reads as the single digit `b`, so its cell is drawn (0, 0, 11). */
  lemma BlueReadsAsB()
    ensures HexToRgb("blue") == Rgb(0, 0, 11)
  {
    assert StripFirstHash("blue") == "blue";
    assert DropHexPrefix(DropSign("blue")) == "blue";
    assert HexRun("blue") == 1 by {
      assert "blue"[1..] == "lue";
      assert HexRun("lue") == 0;
    }
    assert ParseIntHex("blue") == Some(11) by {
      assert "blue"[..1] == "b";
      assert DigitsValue("b") == 11 by { assert "b"[..0] == []; }
    }
    ChannelsOfBytes(0, 0, 11);
  }

  /** ToInt32 changes its argument by a multiple of 2^32. */
  lemma ToInt32Congruent(n: int)
    ensures (ToInt32(Some(n)) - n) % TwoTo32 == 0
  {
    var m := n % TwoTo32;
    assert n == TwoTo32 * (n / TwoTo32) + m;
    if m >= TwoTo31 {
      assert ToInt32(Some(n)) - n == TwoTo32 * (-(n / TwoTo32) - 1);
    } else {
      assert ToInt32(Some(n)) - n == TwoTo32 * (-(n / TwoTo32));
    }
  }

  /** Wrapping to 32 bits leaves the low 24 bits alone. */
  lemma ToInt32KeepsLow24(v: Option<int>)
    ensures v.Some? ==> ToInt32(v) % TwoTo24 == v.value % TwoTo24
    ensures v.None? ==> ToInt32(v) % TwoTo24 == 0
  {
    if v.Some? {
      var x, n := ToInt32(v), v.value;
      ToInt32Congruent(n);
      var k := (x - n) / TwoTo32;
      assert x == n + k * TwoTo32;
      assert k * TwoTo32 == (k * 256) * TwoTo24;
      ModShift(n, k * 256);
    }
  }

  lemma ModShift(n: int, k: int)
    ensures (n + k * TwoTo24) % TwoTo24 == n % TwoTo24
  {
  }

  lemma Pow2Values()
    ensures Pow2(8) == 0x100 && Pow2(16) == 0x1_0000
  {
    assert Pow2(4) == 16;
  }

  /** The three bytes picked out of x are the base-256 digits of x modulo
      2^24. */
  lemma ChannelsRecompose(x: int)
    ensures (x / 0x1_0000) % 256 * 0x1_0000 + (x / 0x100) % 256 * 0x100 + x % 256 == x % TwoTo24
  {
    var q1 := x / 0x100;
    var q2 := q1 / 0x100;
    assert x / 0x1_0000 == q2;
    assert x == 0x100 * q1 + x % 256;
    assert q1 == 0x100 * q2 + q1 % 256;
    assert x == 0x1_0000 * q2 + 0x100 * (q1 % 256) + x % 256;
    assert x == 0x100_0000 * (q2 / 256) + 0x1_0000 * (q2 % 256) + 0x100 * (q1 % 256) + x % 256;
  }

  /** A colour picker value "#rrggbb" yields the three two-digit bytes it
      spells. */
  lemma {:induction false} HexColourChannels(hex: string)
    requires |hex| == 7 && hex[0] == '#'
    requires forall i :: 1 <= i < 7 ==> IsHexDigit(hex[i])
    ensures HexToRgb(hex) == Rgb(16 * HexDigitValue(hex[1]) + HexDigitValue(hex[2]),
                                 16 * HexDigitValue(hex[3]) + HexDigitValue(hex[4]),
                                 16 * HexDigitValue(hex[5]) + HexDigitValue(hex[6]))
  {
    var r := 16 * HexDigitValue(hex[1]) + HexDigitValue(hex[2]);
    var g := 16 * HexDigitValue(hex[3]) + HexDigitValue(hex[4]);
    var b := 16 * HexDigitValue(hex[5]) + HexDigitValue(hex[6]);
    ParseColour(hex);
    ColourValue(hex, r * 0x1_0000 + g * 0x100 + b);
    ChannelsOfBytes(r, g, b);
  }

  /** A colour string that parses to a value below 2^24 is drawn with that
      value's channels: the 32-bit wrap leaves it alone. */
  lemma ColourValue(hex: string, v: int)
    requires ParseIntHex(StripFirstHash(hex)) == Some(v) && 0 <= v < TwoTo24
    ensures HexToRgb(hex) == Channels(v)
  {
  }

  /** The channels of a value spelled by three bytes are those bytes. */
  lemma ChannelsOfBytes(r: int, g: int, b: int)
    requires 0 <= r < 256 && 0 <= g < 256 && 0 <= b < 256
    ensures Channels(r * 0x1_0000 + g * 0x100 + b) == Rgb(r, g, b)
  {
    var v := r * 0x1_0000 + g * 0x100 + b;
    assert 0 <= v < TwoTo24;
    assert v % TwoTo24 == v;
    ChannelsSpec(v);
    var c := Channels(v);
    BytesUnique(c.r, c.g, c.b, r, g, b);
  }

  /** parseInt reads all six digits of "#rrggbb" once the '#' is gone. */
  lemma ParseColour(hex: string)
    requires |hex| == 7 && hex[0] == '#'
    requires forall i :: 1 <= i < 7 ==> IsHexDigit(hex[i])
    ensures ParseIntHex(StripFirstHash(hex))
         == Some((16 * HexDigitValue(hex[1]) + HexDigitValue(hex[2])) * 0x1_0000
               + (16 * HexDigitValue(hex[3]) + HexDigitValue(hex[4])) * 0x100
               + (16 * HexDigitValue(hex[5]) + HexDigitValue(hex[6])))
  {
    var digits := hex[1..];
    assert FirstHash(hex) == 0;
    assert StripFirstHash(hex) == digits;
    assert DropHexPrefix(DropSign(digits)) == digits;
    HexRunAll(digits);
    assert digits[..6] == digits;
    SixDigits(digits);
  }

  lemma {:induction false} HexRunAll(s: string)
    requires forall i :: 0 <= i < |s| ==> IsHexDigit(s[i])
    ensures HexRun(s) == |s|
  {
    if s != [] { HexRunAll(s[1..]); }
  }

  /** The value of six hex digits, written out. */
  lemma SixDigits(s: string)
    requires |s| == 6 && forall i :: 0 <= i < 6 ==> IsHexDigit(s[i])
    ensures DigitsValue(s) == (16 * HexDigitValue(s[0]) + HexDigitValue(s[1])) * 0x1_0000
                            + (16 * HexDigitValue(s[2]) + HexDigitValue(s[3])) * 0x100
                            + (16 * HexDigitValue(s[4]) + HexDigitValue(s[5]))
  {
    var d0, d1, d2 := HexDigitValue(s[0]), HexDigitValue(s[1]), HexDigitValue(s[2]);
    var d3, d4, d5 := HexDigitValue(s[3]), HexDigitValue(s[4]), HexDigitValue(s[5]);
    assert s[..1][..0] == [];
    assert DigitsValue(s[..1]) == d0;
    assert s[..2][..1] == s[..1];
    assert DigitsValue(s[..2]) == 16 * d0 + d1;
    assert s[..3][..2] == s[..2];
    assert DigitsValue(s[..3]) == 256 * d0 + 16 * d1 + d2;
    assert s[..4][..3] == s[..3];
    assert DigitsValue(s[..4]) == 4096 * d0 + 256 * d1 + 16 * d2 + d3;
    assert s[..5][..4] == s[..4];
    assert DigitsValue(s[..5]) == 65536 * d0 + 4096 * d1 + 256 * d2 + 16 * d3 + d4;
    assert s[..6] == s;
  }

  /** Base-256 digits are unique. */
  lemma BytesUnique(r: int, g: int, b: int, r': int, g': int, b': int)
    requires 0 <= r < 256 && 0 <= g < 256 && 0 <= b < 256
    requires 0 <= r' < 256 && 0 <= g' < 256 && 0 <= b' < 256
    requires r * 0x1_0000 + g * 0x100 + b == r' * 0x1_0000 + g' * 0x100 + b'
    ensures r == r' && g == g' && b == b'
  {
  }
}

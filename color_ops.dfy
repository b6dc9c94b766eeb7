/** Colour helpers: the bit-reversal hue sequence of `generate_color_hue` and
    the `#rrggbb` text of `color_to_hstring`. */
module ColorOps {

  // ---------------------------------------------------------------------
  // Bits

  function Pow2(n: nat): (p: nat)
    ensures p >= 1
  {
    if n == 0 then 1 else 2 * Pow2(n - 1)
  }

  /** Bit `j` of `x` (bit 0 is the lowest). */
  function Bit(x: nat, j: nat): (b: nat)
    ensures b < 2
  {
    if j == 0 then x % 2 else Bit(x / 2, j - 1)
  }

  /** The low `bits` bits of `x` in reverse order: the lowest bit of `x`
      becomes the highest of the result. */
  function ReverseBits(x: nat, bits: nat): (r: nat)
    ensures r < Pow2(bits)
  {
    if bits == 0 then 0
    else (if x % 2 == 1 then Pow2(bits - 1) else 0) + ReverseBits(x / 2, bits - 1)
  }

  /** Adding `2^m` leaves every bit below `m` as it was. */
  lemma {:induction false} BitBelowPower(y: nat, m: nat, j: nat)
    requires j < m
    ensures Bit(Pow2(m) + y, j) == Bit(y, j)
  {
    var h := Pow2(m - 1);
    assert Pow2(m) == 2 * h;
    if j == 0 {
      assert (2 * h + y) % 2 == y % 2;
    } else {
      assert (2 * h + y) / 2 == h + y / 2;
      BitBelowPower(y / 2, m - 1, j - 1);
    }
  }

  /** A number below `2^m` has no bit at position `m` or above. */
  lemma {:induction false} BitAbove(y: nat, m: nat, j: nat)
    requires y < Pow2(m) && m <= j
    ensures Bit(y, j) == 0
  {
    if m == 0 {
      assert y == 0;
      if j > 0 { BitAbove(0, 0, j - 1); }
    } else {
      BitAbove(y / 2, m - 1, j - 1);
    }
  }

  /** Adding `2^m` to a number below `2^m` sets bit `m`. */
  lemma BitAtPower(y: nat, m: nat)
    requires y < Pow2(m)
    ensures Bit(Pow2(m) + y, m) == 1
  {
    if m > 0 {
      var h := Pow2(m - 1);
      assert (2 * h + y) / 2 == h + y / 2;
      BitAtPower(y / 2, m - 1);
    } else {
      assert y == 0;
    }
  }

  /** Two numbers below `2^m` with the same low `m` bits are equal. */
  lemma {:induction false} BitsDetermine(x: nat, y: nat, m: nat)
    requires x < Pow2(m) && y < Pow2(m)
    requires forall j :: 0 <= j < m ==> Bit(x, j) == Bit(y, j)
    ensures x == y
  {
    if m > 0 {
      assert Bit(x, 0) == Bit(y, 0);
      forall j | 0 <= j < m - 1 ensures Bit(x / 2, j) == Bit(y / 2, j) {
        assert Bit(x, j + 1) == Bit(y, j + 1);
      }
      BitsDetermine(x / 2, y / 2, m - 1);
    }
  }

  /** Bit `j` of `x % 2^m` is bit `j` of `x`, for `j < m`. */
  lemma {:induction false} BitOfLow(x: nat, m: nat, j: nat)
    requires j < m
    ensures Bit(x % Pow2(m), j) == Bit(x, j)
  {
    var h := Pow2(m - 1);
    LowSplit(x, h);
    if j > 0 {
      assert (x % 2 + 2 * ((x / 2) % h)) / 2 == (x / 2) % h;
      BitOfLow(x / 2, m - 1, j - 1);
    }
  }

  /** `x mod 2h` is the low bit of `x` plus twice `(x / 2) mod h`. */
  lemma LowSplit(x: nat, h: nat)
    requires h >= 1
    ensures x % (2 * h) == x % 2 + 2 * ((x / 2) % h)
  {
    var q, t := (x / 2) / h, (x / 2) % h;
    assert x / 2 == h * q + t;
    assert x == (2 * h) * q + (2 * t + x % 2);
    assert 0 <= 2 * t + x % 2 < 2 * h;
    ModUnique(x, 2 * h, q, 2 * t + x % 2);
  }

  lemma ModUnique(x: nat, d: nat, q: nat, r: nat)
    requires d >= 1 && r < d && x == d * q + r
    ensures x % d == r
  {
    var q', r' := x / d, x % d;
    assert d * q' + r' == d * q + r;
    if q' != q {
      var k := if q' < q then q - q' else q' - q;
      assert d * k == (if q' < q then d * q - d * q' else d * q' - d * q);
      AtLeastOnce(d, k);
    }
  }

  lemma AtLeastOnce(d: nat, k: nat)
    requires k >= 1
    ensures d * k >= d
  {
  }

  /** What reversal means: bit `j` of the result is bit `bits - 1 - j` of
      the input. */
  lemma {:induction false} ReverseBitsBit(x: nat, bits: nat, j: nat)
    requires j < bits
    ensures Bit(ReverseBits(x, bits), j) == Bit(x, bits - 1 - j)
  {
    var rest := ReverseBits(x / 2, bits - 1);
    if j < bits - 1 {
      if x % 2 == 1 { BitBelowPower(rest, bits - 1, j); }
      ReverseBitsBit(x / 2, bits - 1, j);
      assert Bit(x, bits - 1 - j) == Bit(x / 2, bits - 2 - j);
    } else {
      if x % 2 == 1 { BitAtPower(rest, bits - 1); } else { BitAbove(rest, bits - 1, j); }
    }
  }

  /** Only `x mod 2^bits` matters: the higher bits are shifted out unused. */
  lemma ReverseBitsLowBitsOnly(x: nat, bits: nat)
    ensures ReverseBits(x % Pow2(bits), bits) == ReverseBits(x, bits)
  {
    forall j | 0 <= j < bits
      ensures Bit(ReverseBits(x % Pow2(bits), bits), j) == Bit(ReverseBits(x, bits), j)
    {
      ReverseBitsBit(x % Pow2(bits), bits, j);
      ReverseBitsBit(x, bits, j);
      BitOfLow(x, bits, bits - 1 - j);
    }
    BitsDetermine(ReverseBits(x % Pow2(bits), bits), ReverseBits(x, bits), bits);
  }

  /** Reversal is an involution on the low `bits` bits. */
  lemma ReverseBitsInvolution(x: nat, bits: nat)
    ensures ReverseBits(ReverseBits(x, bits), bits) == x % Pow2(bits)
  {
    var r := ReverseBits(x, bits);
    forall j | 0 <= j < bits
      ensures Bit(ReverseBits(r, bits), j) == Bit(x % Pow2(bits), j)
    {
      ReverseBitsBit(r, bits, j);
      ReverseBitsBit(x, bits, bits - 1 - j);
      BitOfLow(x, bits, j);
    }
    BitsDetermine(ReverseBits(r, bits), x % Pow2(bits), bits);
  }

  lemma {:induction false} ReverseBitsOfZero(bits: nat)
    ensures ReverseBits(0, bits) == 0
  {
    if bits > 0 { ReverseBitsOfZero(bits - 1); }
  }

  /** Index 1 lands on the top bit, the hue one half; index 0 on hue 0. */
  lemma ReverseBitsOfOne(bits: nat)
    requires bits >= 1
    ensures ReverseBits(1, bits) == Pow2(bits - 1)
    ensures 2 * ReverseBits(1, bits) == Pow2(bits)
  {
    ReverseBitsOfZero(bits - 1);
  }

  // ---------------------------------------------------------------------
  // generate_color_hue

  /** `generate_color_hue(idx, bits)`: the hue is `numerator / denominator`,
      the bit-reversed index over `2^bits`, so it lies in [0, 1). The loop
      shifts the low bit of `idx` into `reverse` once per remaining bit:
      `(reverse << 1) | (idx & 1)` is `2 * reverse + idx % 2` (the shifted
      value has a clear low bit) and `idx >> 1` is `idx / 2` for `idx >= 0`. */
  method GenerateColorHue(idx: nat, bits: nat := 8) returns (numerator: nat, denominator: nat)
    ensures numerator == ReverseBits(idx, bits)
    ensures denominator == Pow2(bits)
    ensures numerator < denominator
  {
    var reverse: nat := 0;
    var rest: nat := idx;
    var left: nat := bits;
    while left != 0
      invariant reverse * Pow2(left) + ReverseBits(rest, left) == ReverseBits(idx, bits)
      decreases left
    {
      StepInvariant(reverse, rest, left);
      reverse := 2 * reverse + rest % 2;
      rest := rest / 2;
      left := left - 1;
    }
    numerator := reverse;
    denominator := Pow2(bits);
  }

  /** One turn of the loop keeps `reverse * 2^left + ReverseBits(rest, left)`. */
  lemma StepInvariant(reverse: nat, rest: nat, left: nat)
    requires left >= 1
    ensures (2 * reverse + rest % 2) * Pow2(left - 1) + ReverseBits(rest / 2, left - 1)
         == reverse * Pow2(left) + ReverseBits(rest, left)
  {
    var h := Pow2(left - 1);
    assert Pow2(left) == 2 * h;
    assert (2 * reverse + rest % 2) * h == reverse * (2 * h) + (rest % 2) * h;
  }

  // ---------------------------------------------------------------------
  // color_to_hstring

  /** A colour component as the source's `int(255 * c)` yields it. */
  type Byte = x: int | 0 <= x < 256

  predicate IsLowerHexDigit(c: char) {
    '0' <= c <= '9' || 'a' <= c <= 'f'
  }

  /** The lowercase hexadecimal digit for `d`. */
  function HexDigit(d: int): (c: char)
    requires 0 <= d < 16
    ensures IsLowerHexDigit(c)
  {
    if d < 10 then ('0' as int + d) as char else ('a' as int + d - 10) as char
  }

  /** The value of a lowercase hexadecimal digit. */
  function HexValue(c: char): (d: int)
    requires IsLowerHexDigit(c)
    ensures 0 <= d < 16
  {
    if c <= '9' then c as int - '0' as int else c as int - 'a' as int + 10
  }

  predicate IsHex2(s: string) {
    |s| == 2 && IsLowerHexDigit(s[0]) && IsLowerHexDigit(s[1])
  }

  /** `format(b, "02x")`: two lowercase hex digits, zero-padded. */
  function Hex2(b: Byte): (s: string)
    ensures IsHex2(s)
    ensures s[0] == '0' <==> b < 16
  {
    [HexDigit(b / 16), HexDigit(b % 16)]
  }

  function ParseHex2(s: string): (b: Byte)
    requires IsHex2(s)
  {
    16 * HexValue(s[0]) + HexValue(s[1])
  }

  /** Each field parses back to its component, for example 10 as "0a". */
  lemma Hex2RoundTrip(b: Byte)
    ensures IsHex2(Hex2(b)) && ParseHex2(Hex2(b)) == b
  {
  }

  /** And every two-digit lowercase field is the text of its value. */
  lemma ParseHex2RoundTrip(s: string)
    requires IsHex2(s)
    ensures Hex2(ParseHex2(s)) == s
  {
    var b := ParseHex2(s);
    assert b / 16 == HexValue(s[0]) && b % 16 == HexValue(s[1]);
  }

  /** `color_to_hstring`: `#` and the three components as two-digit
      lowercase hex fields, in component order. */
  function ColorToHString(r: Byte, g: Byte, b: Byte): (s: string)
    ensures |s| == 7 && s[0] == '#'
    ensures IsHex2(s[1..3]) && IsHex2(s[3..5]) && IsHex2(s[5..7])
    ensures ParseHex2(s[1..3]) == r && ParseHex2(s[3..5]) == g && ParseHex2(s[5..7]) == b
  {
    Hex2RoundTrip(r);
    Hex2RoundTrip(g);
    Hex2RoundTrip(b);
    var s := "#" + Hex2(r) + Hex2(g) + Hex2(b);
    assert s[1..3] == Hex2(r) && s[3..5] == Hex2(g) && s[5..7] == Hex2(b);
    s
  }

  predicate IsHString(s: string) {
    |s| == 7 && s[0] == '#' && IsHex2(s[1..3]) && IsHex2(s[3..5]) && IsHex2(s[5..7])
  }

  /** Every `#rrggbb` string in lowercase is the text of exactly the colour
      its fields spell, so the format loses nothing. */
  lemma HStringRoundTrip(s: string)
    requires IsHString(s)
    ensures ColorToHString(ParseHex2(s[1..3]), ParseHex2(s[3..5]), ParseHex2(s[5..7])) == s
  {
    var r, g, b := ParseHex2(s[1..3]), ParseHex2(s[3..5]), ParseHex2(s[5..7]);
    ParseHex2RoundTrip(s[1..3]);
    ParseHex2RoundTrip(s[3..5]);
    ParseHex2RoundTrip(s[5..7]);
    var t := ColorToHString(r, g, b);
    assert t == "#" + Hex2(r) + Hex2(g) + Hex2(b);
    assert s == [s[0]] + s[1..3] + s[3..5] + s[5..7];
  }
}

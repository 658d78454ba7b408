/**
 * Hexadecimal and decimal text as the codec writes and reads it: Python's
 * '{:02X}' / '{:04X}' formats on the way out, `int(s, 16)` on the way in.
 */
module Hex {
  import opened Bytes
  import opened Wrappers

  const DIGITS: string := "0123456789ABCDEF"

  predicate IsHexDigit(c: char) {
    '0' <= c <= '9' || 'A' <= c <= 'F' || 'a' <= c <= 'f'
  }

  function DigitValue(c: char): (v: nat)
    requires IsHexDigit(c)
    ensures v < 16
  {
    if c <= '9' then c as int - '0' as int
    else if c <= 'F' then c as int - 'A' as int + 10
    else c as int - 'a' as int + 10
  }

  /** The uppercase digit for `d`; reading it back gives `d`. */
  function Digit(d: nat): (c: char)
    requires d < 16
    ensures IsHexDigit(c) && DigitValue(c) == d
    ensures '0' <= c <= '9' || 'A' <= c <= 'F'
  {
    DIGITS[d]
  }

  /** Uppercase hexadecimal digits of `n` without leading zeros (format 'X'). */
  function Hex(n: nat): (s: string)
    ensures 1 <= |s|
    ensures AllHex(s) && Value(s) == n
    ensures forall k :: 0 <= k < |s| ==> '0' <= s[k] <= '9' || 'A' <= s[k] <= 'F'
    decreases n
  {
    if n < 16 then [Digit(n)] else Hex(n / 16) + [Digit(n % 16)]
  }

  function Zeros(k: nat): (s: string)
    ensures |s| == k && forall j :: 0 <= j < k ==> s[j] == '0'
  {
    if k == 0 then "" else Zeros(k - 1) + "0"
  }

  /** Python's '{:0wX}': at least `w` uppercase digits, padded on the left with zeros. */
  function HexPad(n: nat, w: nat): (s: string)
    ensures |s| == if |Hex(n)| < w then w else |Hex(n)|
  {
    Zeros(if |Hex(n)| < w then w - |Hex(n)| else 0) + Hex(n)
  }

  /** A padded rendering is made of uppercase hexadecimal digits only. */
  lemma HexPadDigits(n: nat, w: nat)
    ensures forall k :: 0 <= k < |HexPad(n, w)| ==> '0' <= HexPad(n, w)[k] <= '9' || 'A' <= HexPad(n, w)[k] <= 'F'
  {
    var z := Zeros(if |Hex(n)| < w then w - |Hex(n)| else 0);
    var h := Hex(n);
    assert HexPad(n, w) == z + h;
    forall k | 0 <= k < |z + h|
      ensures '0' <= (z + h)[k] <= '9' || 'A' <= (z + h)[k] <= 'F'
    {
      if k < |z| {
        assert (z + h)[k] == z[k];
      } else {
        assert (z + h)[k] == h[k - |z|];
      }
    }
  }

  /** One byte as two uppercase digits, high nibble first. */
  function Hex2(b: Byte): string
  {
    [Digit(b / 16), Digit(b % 16)]
  }

  /** `Hex2` is Python's '{:02X}' of one byte. */
  lemma PadTwoDigits(b: Byte)
    ensures HexPad(b, 2) == Hex2(b)
  {
    if b < 16 {
      assert Hex(b) == [Digit(b)];
      assert Zeros(1) == [Digit(0)];
      assert HexPad(b, 2) == Zeros(1) + Hex(b);
    } else {
      assert b / 16 < 16 && b / 16 == b / 16 % 16;
      assert Hex(b / 16) == [Digit(b / 16)];
      assert Hex(b) == [Digit(b / 16)] + [Digit(b % 16)];
      assert HexPad(b, 2) == Zeros(0) + Hex(b);
    }
  }

  /** The two-digit fields of `xs`, concatenated in order ('{:02X}{:02X}...'). */
  function HexRun(xs: seq<Byte>): (s: string)
    ensures |s| == 2 * |xs|
  {
    if xs == [] then "" else Hex2(xs[0]) + HexRun(xs[1..])
  }

  ghost predicate AllHex(s: string) {
    forall k :: 0 <= k < |s| ==> IsHexDigit(s[k])
  }

  function Pow16(n: nat): (p: nat)
    ensures p >= 1
  {
    if n == 0 then 1 else 16 * Pow16(n - 1)
  }

  /** The value of a run of hexadecimal digits, most significant first. */
  function Value(s: string): nat
    requires AllHex(s)
  {
    if s == [] then 0 else 16 * Value(s[..|s| - 1]) + DigitValue(s[|s| - 1])
  }

  /**
   * `int(s, 16)` on the strings this codec produces and reads: a non-empty
   * run of hexadecimal digits of either case. None where Python raises.
   */
  function ParseHex(s: string): (r: Option<nat>)
    ensures r.Some? <==> s != [] && AllHex(s)
    ensures r.Some? && |s| <= 2 ==> r.value < 0x100
    ensures r.Some? && |s| <= 4 ==> r.value < 0x1_0000
  {
    if s != [] && forall k :: 0 <= k < |s| ==> IsHexDigit(s[k]) then
      ValueBound(s);
      Some(Value(s))
    else None
  }

  lemma {:induction false} ValueBound(s: string)
    requires AllHex(s)
    ensures Value(s) < Pow16(|s|)
    ensures |s| <= 2 ==> Value(s) < 0x100
    ensures |s| <= 4 ==> Value(s) < 0x1_0000
  {
    if s != [] {
      ValueBound(s[..|s| - 1]);
    }
    if |s| <= 4 {
      assert Pow16(|s|) <= Pow16(4) by {
        if |s| < 4 { PowMonotone(|s|, 4); }
      }
    }
    if |s| <= 2 {
      assert Pow16(|s|) <= Pow16(2) by {
        if |s| < 2 { PowMonotone(|s|, 2); }
      }
    }
  }

  lemma {:induction false} PowMonotone(a: nat, b: nat)
    requires a <= b
    ensures Pow16(a) <= Pow16(b)
    decreases b - a
  {
    if a < b {
      PowMonotone(a, b - 1);
    }
  }

  lemma {:induction false} ValueLeadingZeros(k: nat, s: string)
    requires AllHex(s)
    ensures AllHex(Zeros(k) + s) && Value(Zeros(k) + s) == Value(s)
    decreases |s|, k
  {
    var z := Zeros(k) + s;
    if s == [] {
      assert z == Zeros(k);
      if k > 0 {
        assert z[..|z| - 1] == Zeros(k - 1) + [];
        ValueLeadingZeros(k - 1, []);
      }
    } else {
      assert z[..|z| - 1] == Zeros(k) + s[..|s| - 1];
      ValueLeadingZeros(k, s[..|s| - 1]);
    }
  }

  /** Reading back a padded hexadecimal rendering gives the number rendered. */
  lemma ParseHexPad(n: nat, w: nat)
    ensures ParseHex(HexPad(n, w)) == Some(n)
  {
    ValueLeadingZeros(if |Hex(n)| < w then w - |Hex(n)| else 0, Hex(n));
  }

  /** A field written as '{:02X}' reads back as the byte written. */
  lemma ParseHex2(b: Byte)
    ensures ParseHex(Hex2(b)) == Some(b)
  {
    PadTwoDigits(b);
    ParseHexPad(b, 2);
  }

  /** A 16-bit field written high byte first reads back as `0x100 * hi + lo`. */
  lemma ParseHex4(hi: Byte, lo: Byte)
    ensures ParseHex(Hex2(hi) + Hex2(lo)) == Some(0x100 * hi + lo)
  {
    ValueOfPair(hi, lo);
    ParseHexValue(Hex2(hi) + Hex2(lo));
  }

  lemma ValueOfPair(hi: Byte, lo: Byte)
    ensures AllHex(Hex2(hi) + Hex2(lo)) && Value(Hex2(hi) + Hex2(lo)) == 0x100 * hi + lo
  {
    var a := Hex2(hi);
    ValueOfHex2(hi);
    var q, r := lo / 16, lo % 16;
    var c3, c4 := Digit(q), Digit(r);
    ValueAppend(a, c3);
    ValueAppend(a + [c3], c4);
    assert Hex2(hi) + Hex2(lo) == a + [c3] + [c4];
    Scale(hi, q, r, lo);
  }

  lemma ValueOfHex2(b: Byte)
    ensures AllHex(Hex2(b)) && Value(Hex2(b)) == b
  {
    ValueAppend([], Digit(b / 16));
    ValueAppend([Digit(b / 16)], Digit(b % 16));
    assert [] + [Digit(b / 16)] == [Digit(b / 16)];
  }

  lemma Scale(hi: int, q: int, r: int, lo: int)
    requires lo == 16 * q + r
    ensures 16 * (16 * hi + q) + r == 0x100 * hi + lo
  {
  }

  lemma ParseHexValue(s: string)
    requires s != [] && AllHex(s)
    ensures ParseHex(s) == Some(Value(s))
  {
  }

  lemma ValueAppend(s: string, c: char)
    requires AllHex(s) && IsHexDigit(c)
    ensures AllHex(s + [c]) && Value(s + [c]) == 16 * Value(s) + DigitValue(c)
  {
    assert (s + [c])[..|s|] == s;
  }

  /** Python's '{}' of a natural number: its decimal digits. */
  function Decimal(n: nat): (s: string)
    ensures 1 <= |s|
    decreases n
  {
    if n < 10 then ["0123456789"[n]] else Decimal(n / 10) + ["0123456789"[n % 10]]
  }

  /** A decimal rendering is made of the digits '0' to '9' only. */
  lemma {:induction false} DecimalDigits(n: nat)
    ensures forall k :: 0 <= k < |Decimal(n)| ==> '0' <= Decimal(n)[k] <= '9'
    decreases n
  {
    if n >= 10 {
      DecimalDigits(n / 10);
      assert forall k :: 0 <= k < |Decimal(n / 10)| ==> Decimal(n)[k] == Decimal(n / 10)[k];
    }
  }
}

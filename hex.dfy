/**
 * Rendering a bucket key as the colour string: `#`, then the key in base 16
 * as `Number.prototype.toString(16)` writes it, padded on the left with zeros
 * to six characters and upper-cased; and a fixed-width reference rendering
 * with its parser, against which that chain of string operations is proved.
 */
module HexFormat {
  import opened Channels

  /** 16^w */
  function Pow16(w: nat): (p: nat)
    ensures p >= 1
  {
    if w == 0 then 1 else 16 * Pow16(w - 1)
  }

  /** The digit `Number.prototype.toString(16)` writes: lower case. */
  function LowerDigit(d: nat): char
    requires d < 16
  {
    "0123456789abcdef"[d]
  }

  /** The digit after `toUpperCase`. */
  function UpperDigit(d: nat): char
    requires d < 16
  {
    "0123456789ABCDEF"[d]
  }

  predicate IsUpperHexDigit(c: char)
  {
    '0' <= c <= '9' || 'A' <= c <= 'F'
  }

  /** The value of an upper-case hexadecimal digit. */
  function DigitValue(c: char): (d: nat)
    requires IsUpperHexDigit(c)
    ensures d < 16 && UpperDigit(d) == c
  {
    if c <= '9' then c as int - '0' as int else c as int - 'A' as int + 10
  }

  /** `n.toString(16)`: the shortest lower-case hexadecimal numeral, "0" for zero. */
  function ToHexString(n: nat): string
    decreases n
  {
    if n < 16 then [LowerDigit(n)] else ToHexString(n / 16) + [LowerDigit(n % 16)]
  }

  predicate IsLowerHexDigit(c: char)
  {
    '0' <= c <= '9' || 'a' <= c <= 'f'
  }

  /**
   * `toString(16)` writes the shortest numeral: at least one lower-case
   * digit, and no leading zero unless the number is zero.
   */
  lemma {:induction false} ToHexStringShape(n: nat)
    ensures |ToHexString(n)| >= 1
    ensures forall i :: 0 <= i < |ToHexString(n)| ==> IsLowerHexDigit(ToHexString(n)[i])
    ensures ToHexString(n)[0] == '0' <==> n == 0
    decreases n
  {
    if n >= 16 {
      ToHexStringShape(n / 16);
      var front := ToHexString(n / 16);
      assert ToHexString(n) == front + [LowerDigit(n % 16)];
      assert ToHexString(n)[0] == front[0];
    }
  }

  /** `s.padStart(width, '0')`: zeros in front until the string is `width` long. */
  function PadStart(s: string, width: nat): (r: string)
    ensures |r| == if |s| < width then width else |s|
    ensures r[|r| - |s|..] == s
    ensures forall i :: 0 <= i < |r| - |s| ==> r[i] == '0'
  {
    if |s| >= width then s else seq(width - |s|, _ => '0') + s
  }

  /** `toUpperCase` on ASCII letters; every other character is left as it is. */
  function UpperChar(c: char): char
  {
    if 'a' <= c <= 'z' then (c as int - 32) as char else c
  }

  function ToUpperCase(s: string): string
  {
    seq(|s|, i requires 0 <= i < |s| => UpperChar(s[i]))
  }

  /** The colour string of a key, as the handler builds it. */
  function FormatHex(key: nat): string
  {
    "#" + ToUpperCase(PadStart(ToHexString(key), 6))
  }

  /** Reference rendering: exactly `w` upper-case digits of `n`, most significant first. */
  function FixedHex(n: nat, w: nat): (s: string)
    ensures |s| == w
    ensures forall i :: 0 <= i < w ==> IsUpperHexDigit(s[i])
  {
    if w == 0 then [] else FixedHex(n / 16, w - 1) + [UpperDigit(n % 16)]
  }

  /** The value of a string of upper-case hexadecimal digits. */
  function ParseHex(s: string): nat
    requires forall i :: 0 <= i < |s| ==> IsUpperHexDigit(s[i])
  {
    if s == [] then 0 else 16 * ParseHex(s[..|s| - 1]) + DigitValue(s[|s| - 1])
  }

  /** A number below 16^w has at most w digits. */
  lemma {:induction false} ToHexStringLength(n: nat, w: nat)
    requires 1 <= w && n < Pow16(w)
    ensures |ToHexString(n)| <= w
  {
    if n >= 16 {
      ToHexStringLength(n / 16, w - 1);
    }
  }

  /** The fixed-width rendering of zero is all zeros. */
  lemma {:induction false} FixedHexZero(w: nat)
    ensures FixedHex(0, w) == seq(w, _ => '0')
  {
    if w > 0 {
      FixedHexZero(w - 1);
    }
  }

  lemma UpperOfLowerDigit(d: nat)
    requires d < 16
    ensures UpperChar(LowerDigit(d)) == UpperDigit(d)
  {
  }

  lemma ToUpperCaseAppend(a: string, b: string)
    ensures ToUpperCase(a + b) == ToUpperCase(a) + ToUpperCase(b)
  {
  }

  /** Dropping the last digit of a number of at least two digits leaves one that fits in one place less. */
  lemma DropDigit(n: nat, w: nat)
    requires 1 <= w && 16 <= n < Pow16(w)
    ensures 2 <= w && n / 16 < Pow16(w - 1)
  {
    assert w != 1 by {
      assert Pow16(1) == 16;
    }
    assert Pow16(w) == 16 * Pow16(w - 1);
  }

  /** A one-digit numeral padded to w digits and upper-cased is the fixed-width rendering. */
  lemma PaddedDigit(n: nat, w: nat)
    requires 1 <= w && n < 16
    ensures ToUpperCase(PadStart(ToHexString(n), w)) == FixedHex(n, w)
  {
    var zeros, last := seq(w - 1, _ => '0'), [LowerDigit(n)];
    assert ToHexString(n) == last;
    assert PadStart(last, w) == zeros + last;
    ToUpperCaseAppend(zeros, last);
    assert ToUpperCase(zeros) == zeros;
    UpperOfLowerDigit(n);
    assert ToUpperCase(last) == [UpperDigit(n)];
    assert n / 16 == 0 && n % 16 == n;
    FixedHexZero(w - 1);
    assert FixedHex(n, w) == zeros + [UpperDigit(n)];
  }

  /** Padding the shortest numeral to w digits and upper-casing it is the fixed-width rendering. */
  lemma {:induction false} PaddedIsFixed(n: nat, w: nat)
    requires 1 <= w && n < Pow16(w)
    ensures ToUpperCase(PadStart(ToHexString(n), w)) == FixedHex(n, w)
    decreases n
  {
    if n < 16 {
      PaddedDigit(n, w);
    } else {
      DropDigit(n, w);
      var front, d := ToHexString(n / 16), n % 16;
      var last := [LowerDigit(d)];
      assert ToHexString(n) == front + last;
      ToHexStringLength(n / 16, w - 1);
      PadStartAppend(front, last, w);
      var padded := PadStart(front, w - 1);
      ToUpperCaseAppend(padded, last);
      UpperOfLowerDigit(d);
      assert ToUpperCase(last) == [UpperDigit(d)];
      PaddedIsFixed(n / 16, w - 1);
      assert FixedHex(n, w) == FixedHex(n / 16, w - 1) + [UpperDigit(d)];
    }
  }

  /** Padding a numeral with one more digit at the end pads the front to one place less. */
  lemma PadStartAppend(front: string, last: string, w: nat)
    requires |last| == 1 && 1 <= w && |front| <= w - 1
    ensures PadStart(front + last, w) == PadStart(front, w - 1) + last
  {
    assert seq(w - |front + last|, _ => '0') == seq(w - 1 - |front|, _ => '0');
  }

  /** Reading back the digit written for d gives d. */
  lemma DigitValueOfDigit(d: nat)
    requires d < 16
    ensures DigitValue(UpperDigit(d)) == d
  {
  }

  /** Parsing the fixed-width rendering gives the number back. */
  lemma {:induction false} ParseFixedHex(n: nat, w: nat)
    requires n < Pow16(w)
    ensures ParseHex(FixedHex(n, w)) == n
  {
    if w > 0 {
      var s, front, d := FixedHex(n, w), FixedHex(n / 16, w - 1), n % 16;
      assert s == front + [UpperDigit(d)];
      assert s[..w - 1] == front && s[w - 1] == UpperDigit(d);
      ParseFixedHex(n / 16, w - 1);
      DigitValueOfDigit(d);
      assert ParseHex(s) == 16 * ParseHex(front) + d;
    }
  }

  /**
   * For every 24-bit key the colour string is `#` and six upper-case digits
   * that parse back to the key; so distinct keys give distinct strings.
   */
  lemma FormatHexRoundTrip(key: nat)
    requires key < 0x100_0000
    ensures |FormatHex(key)| == 7 && FormatHex(key)[0] == '#'
    ensures FormatHex(key)[1..] == FixedHex(key, 6)
    ensures forall i :: 1 <= i < 7 ==> IsUpperHexDigit(FormatHex(key)[i])
    ensures ParseHex(FormatHex(key)[1..]) == key
  {
    assert Pow16(6) == 0x100_0000;
    PaddedIsFixed(key, 6);
    ParseFixedHex(key, 6);
  }

  /** Key 0, reported when no pixel was counted, is black. */
  lemma FormatHexZero()
    ensures FormatHex(0) == "#000000"
  {
    FormatHexRoundTrip(0);
    FixedHexZero(6);
    var s := FormatHex(0);
    assert s[1..] == "000000";
    assert s == [s[0]] + s[1..];
  }

  /** Each of the six fixed-width digits of n holds the matching four bits of n. */
  lemma FixedHexSixDigits(n: nat)
    ensures FixedHex(n, 6) == [UpperDigit(n / 0x10_0000 % 16), UpperDigit(n / 0x1_0000 % 16),
                               UpperDigit(n / 0x1000 % 16), UpperDigit(n / 0x100 % 16),
                               UpperDigit(n / 16 % 16), UpperDigit(n % 16)]
  {
    var n1 := n / 16;
    var n2 := n1 / 16;
    var n3 := n2 / 16;
    var n4 := n3 / 16;
    var n5 := n4 / 16;
    assert n2 == n / 0x100;
    assert n3 == n / 0x1000;
    assert n4 == n / 0x1_0000;
    assert n5 == n / 0x10_0000;
    var d0, d1, d2 := UpperDigit(n % 16), UpperDigit(n1 % 16), UpperDigit(n2 % 16);
    var d3, d4, d5 := UpperDigit(n3 % 16), UpperDigit(n4 % 16), UpperDigit(n5 % 16);
    assert FixedHex(n5, 1) == [d5];
    assert FixedHex(n4, 2) == [d5, d4];
    assert FixedHex(n3, 3) == [d5, d4, d3];
    assert FixedHex(n2, 4) == [d5, d4, d3, d2];
    assert FixedHex(n1, 5) == [d5, d4, d3, d2, d1];
    assert FixedHex(n, 6) == [d5, d4, d3, d2, d1, d0];
  }

  /**
   * The colour string spelled out by channel: `#`, then the high and the low
   * digit of red, of green and of blue.
   */
  lemma FormatHexChannels(key: nat)
    requires key < 0x100_0000
    ensures FormatHex(key) == "#" + [UpperDigit(Red(key) / 16), UpperDigit(Red(key) % 16),
                                     UpperDigit(Green(key) / 16), UpperDigit(Green(key) % 16),
                                     UpperDigit(Blue(key) / 16), UpperDigit(Blue(key) % 16)]
  {
    FormatHexRoundTrip(key);
    FixedHexSixDigits(key);
    ChannelNibbles(key);
    var r1, r0 := Red(key) / 16, Red(key) % 16;
    var g1, g0 := Green(key) / 16, Green(key) % 16;
    var b1, b0 := Blue(key) / 16, Blue(key) % 16;
    var digits := FixedHex(key, 6);
    assert digits == [UpperDigit(r1), UpperDigit(r0), UpperDigit(g1), UpperDigit(g0), UpperDigit(b1), UpperDigit(b0)];
    var s := FormatHex(key);
    assert s == [s[0]] + s[1..];
  }

  /**
   * Every channel of a bucket key is a multiple of 16, so the second digit of
   * each channel, at positions 2, 4 and 6 of the colour string, is always '0'.
   */
  lemma BucketKeyHexDigits(key: nat)
    requires IsBucketKey(key)
    ensures FormatHex(key)[2] == '0' && FormatHex(key)[4] == '0' && FormatHex(key)[6] == '0'
  {
    FormatHexChannels(key);
    ChannelNibbles(key);
    var r0, g0, b0 := Red(key) % 16, Green(key) % 16, Blue(key) % 16;
    assert r0 == 0 && g0 == 0 && b0 == 0;
    var d := [UpperDigit(Red(key) / 16), UpperDigit(r0), UpperDigit(Green(key) / 16), UpperDigit(g0),
              UpperDigit(Blue(key) / 16), UpperDigit(b0)];
    var s := FormatHex(key);
    assert s == "#" + d;
    assert s[2] == d[1] && s[4] == d[3] && s[6] == d[5];
  }
}

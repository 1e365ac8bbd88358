/**
 * `#rrggbb` colour encoding: `componentToHex` and `rgbToHex` of piece.js, over
 * JavaScript's `Number.prototype.toString(16)` for integers, together with the
 * decoder that reads such a string back.
 */
module HexColor {
  import opened Wrappers

  /** A character `toString(16)` can emit as a digit: `0`-`9` or lower-case `a`-`f`. */
  predicate IsHexDigit(ch: char) {
    ('0' <= ch <= '9') || ('a' <= ch <= 'f')
  }

  predicate AllHexDigits(s: string) {
    forall i :: 0 <= i < |s| ==> IsHexDigit(s[i])
  }

  /** The value of one lower-case hexadecimal digit. */
  function DigitValue(ch: char): (v: int)
    requires IsHexDigit(ch)
    ensures 0 <= v < 16
  {
    if ch <= '9' then ch as int - '0' as int else ch as int - 'a' as int + 10
  }

  /** The digit `toString(16)` writes for a value below sixteen. */
  function HexDigit(d: int): (ch: char)
    requires 0 <= d < 16
    ensures IsHexDigit(ch) && DigitValue(ch) == d
  {
    if d < 10 then ('0' as int + d) as char else ('a' as int + d - 10) as char
  }

  /** The value of a string of hexadecimal digits, most significant first. */
  function HexValue(s: string): (v: nat)
    requires AllHexDigits(s)
  {
    if s == [] then 0 else HexValue(s[..|s| - 1]) * 16 + DigitValue(s[|s| - 1])
  }

  /** `n.toString(16)` for a non-negative integer: shortest digit string, no leading zero. */
  function ToBase16(n: nat): (s: string)
    ensures 1 <= |s| && AllHexDigits(s)
    ensures s[0] == '0' <==> n == 0
  {
    if n < 16 then [HexDigit(n)] else ToBase16(n / 16) + [HexDigit(n % 16)]
  }

  /** `c.toString(16)` for any integer `c`: a minus sign, then the digits of `|c|`. */
  function NumberToHexString(c: int): (s: string)
    ensures 1 <= |s|
    ensures s[0] == '-' <==> c < 0
  {
    if c < 0 then "-" + ToBase16(-c) else ToBase16(c)
  }

  /** piece.js `componentToHex`: pads a one-character base-16 string with a leading `0`. */
  function ComponentToHex(c: int): (hex: string)
    ensures |hex| >= 2
  {
    var raw := NumberToHexString(c);
    if |raw| == 1 then "0" + raw else raw
  }

  /** piece.js `rgbToHex`: `#` and the three padded components in R, G, B order. */
  function RgbToHex(clr: seq<int>): (s: string)
    requires |clr| >= 3
    ensures |s| >= 7 && s[0] == '#'
  {
    "#" + ComponentToHex(clr[0]) + ComponentToHex(clr[1]) + ComponentToHex(clr[2])
  }

  predicate IsByte(c: int) {
    0 <= c <= 255
  }

  /** An RGB triple as `rgbToHex` expects it: at least three entries, the first three in [0, 255]. */
  predicate IsRgb(clr: seq<int>) {
    |clr| >= 3 && IsByte(clr[0]) && IsByte(clr[1]) && IsByte(clr[2])
  }

  /** Reads a `#rrggbb` string back into its three components; `None` for anything else. */
  function HexToRgb(s: string): (clr: Option<seq<int>>)
    ensures clr.Some? ==> |clr.value| == 3 && IsRgb(clr.value)
  {
    if |s| == 7 && s[0] == '#' && AllHexDigits(s[1..]) then
      TwoDigitValue(s[1..3]);
      TwoDigitValue(s[3..5]);
      TwoDigitValue(s[5..7]);
      Some([HexValue(s[1..3]), HexValue(s[3..5]), HexValue(s[5..7])])
    else
      None
  }

  /** Two hexadecimal digits hold a byte: high digit times sixteen plus low digit. */
  lemma TwoDigitValue(s: string)
    requires |s| == 2 && AllHexDigits(s)
    ensures HexValue(s) == DigitValue(s[0]) * 16 + DigitValue(s[1])
    ensures IsByte(HexValue(s))
  {
    var high := s[..1];
    assert s[..|s| - 1] == high;
    assert high[..|high| - 1] == [];
    assert HexValue(high) == DigitValue(s[0]);
  }

  /** Reading the digits of `ToBase16(n)` gives back `n`. */
  lemma {:induction false} ToBase16Value(n: nat)
    ensures HexValue(ToBase16(n)) == n
  {
    if n >= 16 {
      var prefix := ToBase16(n / 16);
      var s := ToBase16(n);
      assert s[..|s| - 1] == prefix;
      ToBase16Value(n / 16);
    } else {
      assert ToBase16(n)[..0] == [];
    }
  }

  /** `toString(16)` has one digit below 16, two digits from 16 to 255 and more above. */
  lemma {:induction false} ToBase16Length(n: nat)
    ensures |ToBase16(n)| == 1 <==> n < 16
    ensures |ToBase16(n)| == 2 <==> 16 <= n < 256
  {
    if n >= 16 {
      ToBase16Length(n / 16);
    }
  }

  /**
   * For a byte, `componentToHex` gives exactly two lower-case hex digits whose value is the
   * byte; the first is `0` exactly when the byte is below 16 (the padded case).
   */
  lemma ComponentToHexCorrect(c: int)
    requires IsByte(c)
    ensures var hex := ComponentToHex(c);
      |hex| == 2 && AllHexDigits(hex) && HexValue(hex) == c && (hex[0] == '0' <==> c < 16)
  {
    ToBase16Length(c);
    ToBase16Value(c);
    var hex := ComponentToHex(c);
    if c < 16 {
      assert hex == ['0', HexDigit(c)];
      TwoDigitValue(hex);
    }
  }

  /** Where the three two-digit fields of a `#rrggbb` string sit. */
  lemma HashLayout(a: string, b: string, c: string)
    requires |a| == 2 && |b| == 2 && |c| == 2
    requires AllHexDigits(a) && AllHexDigits(b) && AllHexDigits(c)
    ensures var s := "#" + a + b + c;
      |s| == 7 && s[0] == '#' && s[1..3] == a && s[3..5] == b && s[5..7] == c && AllHexDigits(s[1..])
  {
  }

  /** The encoding of a valid triple is 7 characters, and decoding it gives the triple back. */
  lemma RgbToHexRoundTrip(clr: seq<int>)
    requires IsRgb(clr)
    ensures |RgbToHex(clr)| == 7
    ensures HexToRgb(RgbToHex(clr)) == Some(clr[..3])
  {
    var r, g, b := ComponentToHex(clr[0]), ComponentToHex(clr[1]), ComponentToHex(clr[2]);
    ComponentToHexCorrect(clr[0]);
    ComponentToHexCorrect(clr[1]);
    ComponentToHexCorrect(clr[2]);
    HashLayout(r, g, b);
    assert RgbToHex(clr) == "#" + r + g + b;
    assert [HexValue(r), HexValue(g), HexValue(b)] == clr[..3];
  }

  /** Two valid triples with the same `#rrggbb` string agree in R, G and B. */
  lemma RgbToHexInjective(a: seq<int>, b: seq<int>)
    requires IsRgb(a) && IsRgb(b)
    requires RgbToHex(a) == RgbToHex(b)
    ensures a[..3] == b[..3]
  {
    RgbToHexRoundTrip(a);
    RgbToHexRoundTrip(b);
  }
}

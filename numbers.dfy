/**
 * Digits and the Java number conversions the client uses: `Character.digit`,
 * `Integer.parseInt` / `Long.parseLong`, `Integer.toString`, `Long.toHexString`
 * and the zero-padded uppercase `%0<w>X` format.
 */
module Numbers {
  import opened Wrappers

  /** `Character.digit(c, radix)` for the ASCII digits and letters: the digit's value, or -1. */
  function DigitValue(c: char, radix: nat): (d: int)
    requires 2 <= radix <= 36
    ensures -1 <= d < radix
    ensures '0' <= c <= '9' && (c as int - '0' as int) < radix ==> d == c as int - '0' as int
    ensures !('0' <= c <= '9' || 'a' <= c <= 'z' || 'A' <= c <= 'Z') ==> d == -1
  {
    var v := if '0' <= c <= '9' then c as int - '0' as int
             else if 'a' <= c <= 'z' then c as int - 'a' as int + 10
             else if 'A' <= c <= 'Z' then c as int - 'A' as int + 10
             else -1;
    if v < radix then v else -1
  }

  predicate IsDigit(c: char, radix: nat)
    requires 2 <= radix <= 36
  {
    DigitValue(c, radix) >= 0
  }

  predicate AllDigits(s: string, radix: nat)
    requires 2 <= radix <= 36
  {
    forall i :: 0 <= i < |s| ==> IsDigit(s[i], radix)
  }

  /** The value of a digit string, most significant digit first. */
  function DigitsValue(s: string, radix: nat): nat
    requires 2 <= radix <= 36 && AllDigits(s, radix)
  {
    if s == [] then 0
    else
      var high := DigitsValue(s[..|s| - 1], radix);
      MulNat(high, radix);
      high * radix + DigitValue(s[|s| - 1], radix)
  }

  lemma MulNat(a: nat, b: nat)
    ensures a * b >= 0
  {
  }

  /** The digit characters `Long.toHexString` and `Integer.toString` print. */
  function LowerDigit(d: nat): char
    requires d < 16
  {
    if d < 10 then ('0' as int + d) as char else ('a' as int + d - 10) as char
  }

  /** The digit characters `%X` prints. */
  function UpperDigit(d: nat): char
    requires d < 16
  {
    if d < 10 then ('0' as int + d) as char else ('A' as int + d - 10) as char
  }

  lemma LowerDigitValue(d: nat, radix: nat)
    requires d < radix && (radix == 10 || radix == 16)
    ensures DigitValue(LowerDigit(d), radix) == d
  {
  }

  lemma UpperDigitValue(d: nat)
    requires d < 16
    ensures DigitValue(UpperDigit(d), 16) == d
  {
  }

  /**
   * `Integer.toString(n)` (radix 10) and `Long.toHexString(n)` (radix 16) of a
   * non-negative value: lowercase digits, most significant first.
   */
  function ToDigits(n: nat, radix: nat): (s: string)
    requires radix == 10 || radix == 16
    ensures |s| >= 1
    decreases n
  {
    if n < radix then [LowerDigit(n)]
    else ToDigits(n / radix, radix) + [LowerDigit(n % radix)]
  }

  /** Appending a digit multiplies the value by the radix and adds the digit. */
  lemma DigitsSnoc(s: string, c: char, radix: nat)
    requires 2 <= radix <= 36 && AllDigits(s, radix) && IsDigit(c, radix)
    ensures AllDigits(s + [c], radix)
    ensures DigitsValue(s + [c], radix) == DigitsValue(s, radix) * radix + DigitValue(c, radix)
  {
    assert (s + [c])[..|s|] == s;
  }

  lemma DivModRadix(n: nat, radix: nat)
    requires radix == 10 || radix == 16
    requires n >= radix
    ensures 1 <= n / radix < n && n == (n / radix) * radix + n % radix
  {
  }

  /**
   * Printing a value and reading the digits back gives the value, and the digits have no
   * leading zero.
   */
  lemma {:induction false} ToDigitsValue(n: nat, radix: nat)
    requires radix == 10 || radix == 16
    ensures AllDigits(ToDigits(n, radix), radix)
    ensures DigitsValue(ToDigits(n, radix), radix) == n
    ensures |ToDigits(n, radix)| > 1 ==> ToDigits(n, radix)[0] != '0'
    decreases n
  {
    var s := ToDigits(n, radix);
    if n < radix {
      LowerDigitValue(n, radix);
      assert DigitsValue(s, radix) == n by {
        assert s[..0] == [];
      }
    } else {
      var q, r := n / radix, n % radix;
      var p := ToDigits(q, radix);
      assert s == p + [LowerDigit(r)];
      DivModRadix(n, radix);
      ToDigitsValue(q, radix);
      LowerDigitValue(r, radix);
      DigitsSnoc(p, LowerDigit(r), radix);
      assert s[0] != '0' by {
        if |p| == 1 {
          LowerDigitValue(q, radix);
        }
      }
    }
  }

  /** The characters `Long.toHexString` and `Integer.toString` print: no upper-case letter. */
  predicate IsLowerDigit(c: char) {
    '0' <= c <= '9' || 'a' <= c <= 'f'
  }

  /** Printed digits are lower-case. */
  lemma {:induction false} ToDigitsLower(n: nat, radix: nat)
    requires radix == 10 || radix == 16
    ensures forall k :: 0 <= k < |ToDigits(n, radix)| ==> IsLowerDigit(ToDigits(n, radix)[k])
    decreases n
  {
    if n >= radix {
      var p := ToDigits(n / radix, radix);
      ToDigitsLower(n / radix, radix);
      assert ToDigits(n, radix) == p + [LowerDigit(n % radix)];
    }
  }

  /** `Integer.toString(i)`: a minus sign for negative values, then the decimal digits. */
  function IntToString(i: int): string {
    if i < 0 then "-" + ToDigits(-i, 10) else ToDigits(i, 10)
  }

  function Pow16(k: nat): (p: nat)
    ensures p >= 1
  {
    if k == 0 then 1 else 16 * Pow16(k - 1)
  }

  /** `String.format("%0<width>X", n)` for a value that fits in `width` hex digits. */
  function HexFixed(n: nat, width: nat): (s: string)
    requires n < Pow16(width)
    ensures |s| == width
  {
    if width == 0 then "" else HexFixed(n / 16, width - 1) + [UpperDigit(n % 16)]
  }

  lemma DivSixteenBound(n: nat, p: nat)
    requires n < 16 * p
    ensures n / 16 < p
  {
  }

  /** The zero-padded rendering reads back as the value it prints. */
  lemma {:induction false} HexFixedValue(n: nat, width: nat)
    requires n < Pow16(width)
    ensures AllDigits(HexFixed(n, width), 16)
    ensures DigitsValue(HexFixed(n, width), 16) == n
    decreases width
  {
    if width > 0 {
      var q := n / 16;
      DivSixteenBound(n, Pow16(width - 1));
      var p := HexFixed(q, width - 1);
      HexFixedValue(q, width - 1);
      UpperDigitValue(n % 16);
      DigitsSnoc(p, UpperDigit(n % 16), 16);
    }
  }

  lemma DivSixteen(n: int, q: int, r: int)
    requires n == 16 * q + r && 0 <= r < 16
    ensures n / 16 == q && n % 16 == r
  {
  }

  /** Two more digits at the back of a rendering carry one more byte value. */
  lemma HexFixedSplit(x: nat, y: nat, w: nat)
    requires x < 0x100 && y < Pow16(w)
    ensures x + 0x100 * y < Pow16(w + 2)
    ensures HexFixed(x + 0x100 * y, w + 2) == HexFixed(y, w) + HexFixed(x, 2)
  {
    var n := x + 0x100 * y;
    var q := x / 16 + 16 * y;
    assert Pow16(w + 2) == 0x100 * Pow16(w);
    DivSixteen(n, q, x % 16);
    DivSixteen(q, y, x / 16);
    assert HexFixed(n, w + 2) == HexFixed(q, w + 1) + [UpperDigit(x % 16)];
    assert HexFixed(q, w + 1) == HexFixed(y, w) + [UpperDigit(x / 16)];
    assert HexFixed(x / 16, 1) == [UpperDigit(x / 16)];
  }

  /** Eight digits of a 32-bit value are two digits per byte, most significant byte first. */
  lemma HexFixedBytes(x0: nat, x1: nat, x2: nat, x3: nat)
    requires x0 < 0x100 && x1 < 0x100 && x2 < 0x100 && x3 < 0x100
    ensures x0 + 0x100 * (x1 + 0x100 * (x2 + 0x100 * x3)) < Pow16(8)
    ensures HexFixed(x0 + 0x100 * (x1 + 0x100 * (x2 + 0x100 * x3)), 8) ==
            HexFixed(x3, 2) + HexFixed(x2, 2) + HexFixed(x1, 2) + HexFixed(x0, 2)
  {
    assert Pow16(2) == 0x100;
    HexFixedSplit(x2, x3, 2);
    HexFixedSplit(x1, x2 + 0x100 * x3, 4);
    HexFixedSplit(x0, x1 + 0x100 * (x2 + 0x100 * x3), 6);
  }

  /** The Java integral types a parse targets. */
  datatype Width = Int | Long

  function MinValue(w: Width): int {
    match w
    case Int => -0x8000_0000
    case Long => -0x8000_0000_0000_0000
  }

  function MaxValue(w: Width): int {
    match w
    case Int => 0x7FFF_FFFF
    case Long => 0x7FFF_FFFF_FFFF_FFFF
  }

  /**
   * `Integer.parseInt(s, radix)` (Width Int) and `Long.parseLong(s, radix)` (Width Long):
   * an optional `-` or `+`, then at least one digit of the radix, and a value the type
   * can hold.  None stands for the NumberFormatException thrown otherwise.
   */
  function ParseJava(s: string, radix: nat, w: Width): (r: Option<int>)
    requires 2 <= radix <= 36
    ensures r.Some? ==> MinValue(w) <= r.value <= MaxValue(w)
    ensures s == [] ==> r.None?
    ensures r.Some? && AllDigits(s, radix) ==> r.value == DigitsValue(s, radix)
  {
    if |s| == 0 then None
    else
      var negative := s[0] == '-';
      var digits := if s[0] == '-' || s[0] == '+' then s[1..] else s;
      if |digits| == 0 || !AllDigits(digits, radix) then None
      else
        var v: int := if negative then -(DigitsValue(digits, radix) as int) else DigitsValue(digits, radix);
        if MinValue(w) <= v <= MaxValue(w) then Some(v) else None
  }

  /** `Integer.parseInt(Integer.toString(i))` gives `i` back for every int. */
  lemma IntToStringParses(i: int)
    requires MinValue(Int) <= i <= MaxValue(Int)
    ensures ParseJava(IntToString(i), 10, Int) == Some(i)
  {
    if i < 0 {
      NegativeIntParses(i);
    } else {
      var ds := ToDigits(i, 10);
      assert IntToString(i) == ds;
      ToDigitsValue(i, 10);
      DigitsParse(ds, 10, Int);
      assert DigitsValue(ds, 10) == i;
    }
  }

  lemma NegativeIntParses(i: int)
    requires MinValue(Int) <= i < 0
    ensures ParseJava(IntToString(i), 10, Int) == Some(i)
  {
    var ds := ToDigits(-i, 10);
    assert IntToString(i) == "-" + ds;
    ToDigitsValue(-i, 10);
    NegativeParse(ds, 10, Int);
    assert -(DigitsValue(ds, 10) as int) == i;
  }

  /** A string of digits alone parses to its value whenever the value fits. */
  lemma DigitsParse(s: string, radix: nat, w: Width)
    requires 2 <= radix <= 36 && |s| > 0 && AllDigits(s, radix)
    ensures ParseJava(s, radix, w) == (if DigitsValue(s, radix) <= MaxValue(w) then Some(DigitsValue(s, radix)) else None)
  {
    assert IsDigit(s[0], radix);
  }

  /** A minus sign and digits parse to the negated value whenever it fits. */
  lemma NegativeParse(s: string, radix: nat, w: Width)
    requires 2 <= radix <= 36 && |s| > 0 && AllDigits(s, radix)
    ensures ParseJava("-" + s, radix, w) ==
            (if MinValue(w) <= -(DigitsValue(s, radix) as int) then Some(-(DigitsValue(s, radix) as int)) else None)
  {
    assert ("-" + s)[1..] == s;
  }
}

/**
 * The byte/hex codec of the client: hex text to bytes, bytes to uppercase hex (with and
 * without the 16-per-line dump layout), the little-endian Int32 reading and the memory
 * views built from them.
 */
module Codec {
  import opened Wrappers
  import opened Text
  import opened Numbers
  import opened Bits

  /** A byte as the client uses it: the unsigned value `b & 0xFF` of a Java `byte`. */
  newtype u8 = x: int | 0 <= x < 0x100

  lemma Pow16Values()
    ensures Pow16(2) == 0x100
    ensures Pow16(8) == 0x1_0000_0000
  {
    assert Pow16(1) == 16;
    assert Pow16(2) == 0x100;
    assert Pow16(3) == 0x1000;
    assert Pow16(4) == 0x1_0000;
    assert Pow16(5) == 0x10_0000;
    assert Pow16(6) == 0x100_0000;
    assert Pow16(7) == 0x1000_0000;
  }

  /** `String.format("%02X", b)`: the two uppercase hex digits of the byte's unsigned value. */
  function ByteHex(b: u8): string {
    [UpperDigit(b as int / 16), UpperDigit(b as int % 16)]
  }

  /** `%02X` is the two-digit instance of the zero-padded format. */
  lemma ByteHexIsHexFixed(b: u8)
    ensures b as int < Pow16(2) && HexFixed(b as int, 2) == ByteHex(b)
  {
    Pow16Values();
    assert HexFixed(b as int / 16, 1) == [UpperDigit(b as int / 16)];
  }

  // ---------------------------------------------------------------------------
  // toHex: bytes to uppercase hex, no separator
  // ---------------------------------------------------------------------------

  /** The text `toHex` builds: each byte as `%02X`, concatenated. */
  function HexUpper(b: seq<u8>): (r: string)
    ensures |r| == 2 * |b|
    ensures forall k :: 0 <= k < |b| ==>
              r[2 * k] == UpperDigit(b[k] as int / 16) && r[2 * k + 1] == UpperDigit(b[k] as int % 16)
  {
    if b == [] then [] else HexUpper(b[..|b| - 1]) + ByteHex(b[|b| - 1])
  }

  /** `toHex`: appends `%02X` of every byte to a StringBuilder. */
  method ToHex(bytes: seq<u8>) returns (s: string)
    ensures s == HexUpper(bytes)
  {
    s := "";
    for i := 0 to |bytes|
      invariant s == HexUpper(bytes[..i])
    {
      assert bytes[..i + 1][..i] == bytes[..i];
      s := s + ByteHex(bytes[i]);
    }
    assert bytes[..|bytes|] == bytes;
  }

  lemma UpperDigitIsUpper(d: nat)
    requires d < 16
    ensures UpperChar(UpperDigit(d)) == UpperDigit(d)
    ensures UpperDigit(d) != ' ' && UpperDigit(d) != '\n'
  {
  }

  /** `toUpperCase` leaves a `toHex` rendering as it is. */
  lemma HexUpperIsUpper(b: seq<u8>)
    ensures ToUpper(HexUpper(b)) == HexUpper(b)
  {
    var h := HexUpper(b);
    forall i | 0 <= i < |h| ensures ToUpper(h)[i] == h[i] {
      var k := i / 2;
      UpperDigitIsUpper(b[k] as int / 16);
      UpperDigitIsUpper(b[k] as int % 16);
      assert i == 2 * k || i == 2 * k + 1;
    }
  }

  // ---------------------------------------------------------------------------
  // hexStringToByteArray
  // ---------------------------------------------------------------------------

  /**
   * `(byte)(Character.digit(hi, 16) << 4 | Character.digit(lo, 16))` as written, as its
   * unsigned value.
   */
  function HexPairBits(hi: char, lo: char): u8 {
    var bits := Or(ShiftLeft(DigitValue(hi, 16), 4), Pattern(DigitValue(lo, 16)));
    (bits % 0x100) as u8
  }

  /**
   * The byte a pair of characters decodes to.  Two hex digits give 16 * high + low.
   * `Character.digit` gives -1 for a non-digit, and its all-ones bit pattern leaks into
   * the byte: a bad low digit gives 0xFF, a bad high digit sets the whole high nibble.
   */
  function HexPair(hi: char, lo: char): (x: u8)
    ensures IsDigit(hi, 16) && IsDigit(lo, 16) ==> x as int == 16 * DigitValue(hi, 16) + DigitValue(lo, 16)
    ensures !IsDigit(hi, 16) && IsDigit(lo, 16) ==> x as int == 0xF0 + DigitValue(lo, 16)
    ensures !IsDigit(lo, 16) ==> x == 0xFF
  {
    var d1, d2 := DigitValue(hi, 16), DigitValue(lo, 16);
    if d2 < 0 then 0xFF
    else if d1 < 0 then (0xF0 + d2) as u8
    else (16 * d1 + d2) as u8
  }

  /** The shift-and-or expression computes exactly HexPair, the error cases included. */
  lemma HexPairAsWritten(hi: char, lo: char)
    ensures HexPairBits(hi, lo) == HexPair(hi, lo)
  {
    var d1, d2 := DigitValue(hi, 16), DigitValue(lo, 16);
    if d2 < 0 {
      NibblesBadLow(d1);
    } else if d1 < 0 {
      NibblesBadHigh(d2);
    } else {
      NibblesValid(d1, d2);
    }
  }

  lemma SmallMod(v: int)
    requires 0 <= v < 0x100
    ensures v % 0x100 == v
  {
  }

  /** A left shift that stays below 2^32 is a plain multiplication. */
  lemma ShiftInRange(v: int, k: nat)
    requires 0 <= v * Pow2(k) < 0x1_0000_0000
    ensures ShiftLeft(v, k) == v * Pow2(k)
  {
  }

  lemma NibblesValid(d1: int, d2: int)
    requires 0 <= d1 < 16 && 0 <= d2 < 16
    ensures Or(ShiftLeft(d1, 4), Pattern(d2)) % 0x100 == 16 * d1 + d2
  {
    assert Pow2(4) == 16 by { Pow2Values(); }
    ShiftInRange(d1, 4);
    OrShifted(d1, d2, 4);
    assert Pattern(d2) == d2;
    SmallMod(16 * d1 + d2);
  }

  /** `-1 << 4` is 28 one-bits followed by four zero-bits. */
  lemma ShiftMinusOne()
    ensures ShiftLeft(-1, 4) == 0x0FFF_FFFF * Pow2(4)
  {
    assert Pow2(4) == 16 by { Pow2Values(); }
    assert -1 * Pow2(4) == -16;
  }

  lemma HighOnesMod(d2: int)
    requires 0 <= d2 < 16
    ensures (0x0FFF_FFFF * 16 + d2) % 0x100 == 0xF0 + d2
  {
    assert 0x0FFF_FFFF * 16 + d2 == 0xFF_FFFF * 0x100 + (0xF0 + d2);
  }

  lemma NibblesBadHigh(d2: int)
    requires 0 <= d2 < 16
    ensures Or(ShiftLeft(-1, 4), Pattern(d2)) % 0x100 == 0xF0 + d2
  {
    ShiftMinusOne();
    assert Pattern(d2) == d2;
    OrShifted(0x0FFF_FFFF, d2, 4);
    assert Pow2(4) == 16 by { Pow2Values(); }
    HighOnesMod(d2);
  }

  lemma NibblesBadLow(d1: int)
    requires -1 <= d1 < 16
    ensures Or(ShiftLeft(d1, 4), Pattern(-1)) % 0x100 == 0xFF
  {
    assert Pow2(32) == 0x1_0000_0000 by { Pow2Values(); }
    assert Pattern(-1) == Pow2(32) - 1;
    OrAllOnes(ShiftLeft(d1, 4), 32);
  }

  /**
   * `hexStringToByteArray`: fills an array of `|s| / 2` bytes from consecutive character
   * pairs, high nibble first.  For odd `|s|` the last iteration reads past the end of the
   * string (StringIndexOutOfBoundsException), modelled as None.
   */
  method HexStringToByteArray(s: string) returns (r: Option<seq<u8>>)
    ensures r.None? <==> |s| % 2 == 1
    ensures r.Some? ==> |r.value| == |s| / 2
    ensures r.Some? ==> forall k :: 0 <= k < |s| / 2 ==> r.value[k] == HexPair(s[2 * k], s[2 * k + 1])
  {
    var len := |s|;
    var d := new u8[len / 2];
    var i := 0;
    while i < len
      invariant 0 <= i <= len && i % 2 == 0
      invariant forall k :: 0 <= k < i / 2 ==> d[k] == HexPair(s[2 * k], s[2 * k + 1])
    {
      if i + 1 >= len {
        return None;
      }
      d[i / 2] := HexPair(s[i], s[i + 1]);
      i := i + 2;
    }
    return Some(d[..]);
  }

  predicate IsHexText(s: string) {
    AllDigits(s, 16)
  }

  lemma UpperOfDigit(c: char)
    requires IsDigit(c, 16)
    ensures UpperDigit(DigitValue(c, 16)) == UpperChar(c)
  {
  }

  /** Decoding the `%02X` rendering of a byte sequence gives back every byte. */
  lemma DecodeHexUpper(b: seq<u8>, k: nat)
    requires k < |b|
    ensures HexPair(HexUpper(b)[2 * k], HexUpper(b)[2 * k + 1]) == b[k]
  {
    UpperDigitValue(b[k] as int / 16);
    UpperDigitValue(b[k] as int % 16);
  }

  /**
   * For even-length hex text, re-rendering the decoded bytes with `%02X` gives the text
   * back in upper case (hypotheses: what HexStringToByteArray returns for such text).
   */
  lemma HexUpperOfDecoded(s: string, d: seq<u8>)
    requires IsHexText(s) && |s| % 2 == 0 && |d| == |s| / 2
    requires forall k :: 0 <= k < |d| ==> d[k] == HexPair(s[2 * k], s[2 * k + 1])
    ensures HexUpper(d) == ToUpper(s)
  {
    var h, u := HexUpper(d), ToUpper(s);
    forall k | 0 <= k < |d| ensures h[2 * k] == u[2 * k] && h[2 * k + 1] == u[2 * k + 1] {
      HexUpperOfDecodedAt(s[2 * k], s[2 * k + 1], d[k]);
    }
    forall i | 0 <= i < |s| ensures h[i] == u[i] {
      EvenOrOdd(i);
    }
  }

  lemma EvenOrOdd(i: nat)
    ensures i == 2 * (i / 2) || i == 2 * (i / 2) + 1
  {
  }

  lemma HexUpperOfDecodedAt(hi: char, lo: char, x: u8)
    requires IsDigit(hi, 16) && IsDigit(lo, 16) && x == HexPair(hi, lo)
    ensures UpperDigit(x as int / 16) == UpperChar(hi) && UpperDigit(x as int % 16) == UpperChar(lo)
  {
    var d1, d2 := DigitValue(hi, 16), DigitValue(lo, 16);
    assert x as int == 16 * d1 + d2;
    NibbleSplit(d1, d2);
    UpperOfDigit(hi);
    UpperOfDigit(lo);
  }

  lemma NibbleSplit(d1: nat, d2: nat)
    requires d1 < 16 && d2 < 16
    ensures (16 * d1 + d2) / 16 == d1 && (16 * d1 + d2) % 16 == d2
  {
  }

  // ---------------------------------------------------------------------------
  // bytesToHexDisplay
  // ---------------------------------------------------------------------------

  /** What the dump appends for the byte at index `i`. */
  function DisplayCell(b: u8, i: nat): string {
    ByteHex(b) + " " + (if (i + 1) % 16 == 0 then "\n" else "")
  }

  /** The text `bytesToHexDisplay` builds, byte by byte. */
  function HexDisplay(b: seq<u8>): string {
    if b == [] then "" else HexDisplay(b[..|b| - 1]) + DisplayCell(b[|b| - 1], |b| - 1)
  }

  /** `bytesToHexDisplay`: "%02X " per byte and a line feed after every 16th. */
  method BytesToHexDisplay(b: seq<u8>) returns (s: string)
    ensures s == HexDisplay(b)
  {
    s := "";
    for i := 0 to |b|
      invariant s == HexDisplay(b[..i])
    {
      assert b[..i + 1][..i] == b[..i];
      s := s + ByteHex(b[i]) + " ";
      if (i + 1) % 16 == 0 {
        s := s + "\n";
      }
    }
    assert b[..|b|] == b;
  }

  /** Three characters per byte and one line feed per full line of 16. */
  lemma {:induction false} HexDisplayLength(b: seq<u8>)
    ensures |HexDisplay(b)| == 3 * |b| + |b| / 16
    decreases |b|
  {
    if b != [] {
      HexDisplayLength(b[..|b| - 1]);
    }
  }

  /** The dump of a prefix of the bytes is a prefix of the dump. */
  lemma {:induction false} HexDisplayPrefix(b: seq<u8>, j: nat)
    requires j <= |b|
    ensures HexDisplay(b[..j]) <= HexDisplay(b)
    decreases |b| - j
  {
    if j < |b| {
      HexDisplayPrefix(b, j + 1);
      assert b[..j + 1][..j] == b[..j];
    } else {
      assert b[..j] == b;
    }
  }

  /**
   * Byte `k` sits at offset `3k + k/16` of the dump as two hex digits and a space, and a
   * line feed follows exactly when it ends a line of 16.
   */
  lemma HexDisplayAt(b: seq<u8>, k: nat)
    requires k < |b|
    ensures 3 * k + k / 16 + 3 <= |HexDisplay(b)|
    ensures HexDisplay(b)[3 * k + k / 16..3 * k + k / 16 + 3] == ByteHex(b[k]) + " "
    ensures (k + 1) % 16 == 0 <==>
              (3 * k + k / 16 + 3 < |HexDisplay(b)| && HexDisplay(b)[3 * k + k / 16 + 3] == '\n')
  {
    var p := 3 * k + k / 16;
    var whole := HexDisplay(b);
    var cell := DisplayCell(b[k], k);
    HexDisplaySplit(b, k);
    assert whole[p..p + 3] == cell[..3];
    if (k + 1) % 16 == 0 {
      assert whole[p + 3] == cell[3];
    } else if k + 1 < |b| {
      HexDisplaySplit(b, k + 1);
      assert p + 3 == 3 * (k + 1) + (k + 1) / 16;
      assert whole[p + 3] == DisplayCell(b[k + 1], k + 1)[0];
      UpperDigitIsUpper(b[k + 1] as int / 16);
    } else {
      HexDisplayLength(b);
    }
  }

  /** The dump of the bytes before `k`, then the cell of byte `k`, is a prefix of the dump. */
  lemma HexDisplaySplit(b: seq<u8>, k: nat)
    requires k < |b|
    ensures |HexDisplay(b[..k])| == 3 * k + k / 16
    ensures HexDisplay(b[..k]) + DisplayCell(b[k], k) <= HexDisplay(b)
  {
    assert b[..k + 1][..k] == b[..k];
    HexDisplayLength(b[..k]);
    HexDisplayPrefix(b, k + 1);
  }

  /** `s` with every space and line feed deleted. */
  function Unspaced(s: string): string {
    if s == [] then []
    else (if s[0] == ' ' || s[0] == '\n' then [] else [s[0]]) + Unspaced(s[1..])
  }

  lemma {:induction false} UnspacedConcat(a: string, c: string)
    ensures Unspaced(a + c) == Unspaced(a) + Unspaced(c)
    decreases |a|
  {
    if a == [] {
      assert a + c == c;
    } else {
      assert (a + c)[0] == a[0];
      assert (a + c)[1..] == a[1..] + c;
      UnspacedConcat(a[1..], c);
    }
  }

  /** Deleting the spaces and line feeds from the dump leaves the `toHex` rendering. */
  lemma {:induction false} HexDisplayUnspaced(b: seq<u8>)
    ensures Unspaced(HexDisplay(b)) == HexUpper(b)
    decreases |b|
  {
    if b != [] {
      var x := b[|b| - 1];
      HexDisplayUnspaced(b[..|b| - 1]);
      UpperDigitIsUpper(x as int / 16);
      UpperDigitIsUpper(x as int % 16);
      var cell := DisplayCell(x, |b| - 1);
      UnspacedConcat(HexDisplay(b[..|b| - 1]), cell);
      assert Unspaced(cell) == ByteHex(x) by {
        var tail := if (|b| - 1 + 1) % 16 == 0 then "\n" else "";
        assert cell == ByteHex(x) + (" " + tail);
        UnspacedConcat(ByteHex(x), " " + tail);
        assert (" " + tail)[1..] == tail;
        assert Unspaced(" " + tail) == Unspaced(tail);
        if tail != "" {
          assert tail[1..] == "";
        }
        assert Unspaced(tail) == [];
        assert Unspaced(ByteHex(x)) == ByteHex(x);
      }
    }
  }

  // ---------------------------------------------------------------------------
  // toInt32 and the Int32 view
  // ---------------------------------------------------------------------------

  /** The bit pattern `toInt32` assembles: `(b3 << 24) | (b2 << 16) | (b1 << 8) | b0`. */
  function Int32Pattern(b0: u8, b1: u8, b2: u8, b3: u8): nat {
    Or(Or(Or(ShiftLeft(b3 as int, 24), ShiftLeft(b2 as int, 16)), ShiftLeft(b1 as int, 8)), Pattern(b0 as int))
  }

  /** The shifted bytes do not overlap, so or-ing them adds them: b0 is least significant. */
  lemma Int32PatternValue(b0: u8, b1: u8, b2: u8, b3: u8)
    ensures Int32Pattern(b0, b1, b2, b3) ==
            b0 as int + 0x100 * b1 as int + 0x1_0000 * b2 as int + 0x100_0000 * b3 as int
  {
    var x0, x1, x2, x3 := b0 as int, b1 as int, b2 as int, b3 as int;
    var hi := Or(ShiftLeft(x3, 24), ShiftLeft(x2, 16));
    var mid := Or(hi, ShiftLeft(x1, 8));
    var all := Or(mid, Pattern(x0));
    assert Int32Pattern(b0, b1, b2, b3) == all;
    OrTopBytes(x3, x2);
    assert hi == (x3 * 0x100 + x2) * 0x1_0000;
    OrThirdByte(x3 * 0x100 + x2, x1);
    assert mid == (x3 * 0x1_0000 + x2 * 0x100 + x1) * 0x100;
    OrLowByte(x3 * 0x1_0000 + x2 * 0x100 + x1, x0);
    assert all == (x3 * 0x1_0000 + x2 * 0x100 + x1) * 0x100 + x0;
  }

  lemma OrTopBytes(x3: nat, x2: nat)
    requires x3 < 0x100 && x2 < 0x100
    ensures Or(ShiftLeft(x3, 24), ShiftLeft(x2, 16)) == (x3 * 0x100 + x2) * 0x1_0000
  {
    Pow2Values();
    assert ShiftLeft(x3, 24) == x3 * Pow2(24);
    assert ShiftLeft(x2, 16) == x2 * 0x1_0000;
    OrShifted(x3, x2 * 0x1_0000, 24);
  }

  lemma OrThirdByte(a: nat, x1: nat)
    requires a < 0x1_0000 && x1 < 0x100
    ensures Or(a * 0x1_0000, ShiftLeft(x1, 8)) == a * 0x1_0000 + x1 * 0x100
  {
    Pow2Values();
    assert ShiftLeft(x1, 8) == x1 * 0x100;
    OrShifted(a, x1 * 0x100, 16);
  }

  lemma OrLowByte(a: nat, x0: nat)
    requires a < 0x100_0000 && x0 < 0x100
    ensures Or(a * 0x100, Pattern(x0)) == a * 0x100 + x0
  {
    Pow2Values();
    assert Pattern(x0) == x0;
    OrShifted(a, x0, 8);
  }

  /** The unsigned little-endian value of the four bytes at `o`, `b[o]` least significant. */
  function Word(b: seq<u8>, o: int): (w: nat)
    requires 0 <= o && o + 3 < |b|
    ensures w < 0x1_0000_0000
  {
    b[o] as int + 0x100 * b[o + 1] as int + 0x1_0000 * b[o + 2] as int + 0x100_0000 * b[o + 3] as int
  }

  /**
   * `toInt32`: the four bytes at `o` as a little-endian two's-complement int.  The or of
   * the non-overlapping shifted bytes is their sum (ToInt32AsWritten).
   */
  function ToInt32(b: seq<u8>, o: int): (r: int)
    requires 0 <= o && o + 3 < |b|
    ensures -0x8000_0000 <= r < 0x8000_0000
    ensures r % 0x1_0000_0000 == Word(b, o)
    ensures r < 0 <==> b[o + 3] >= 0x80
  {
    Signed(Word(b, o))
  }

  /** `toInt32` as written, with `<<` and `|`, is ToInt32. */
  lemma ToInt32AsWritten(b: seq<u8>, o: int)
    requires 0 <= o && o + 3 < |b|
    ensures Int32Pattern(b[o], b[o + 1], b[o + 2], b[o + 3]) == Word(b, o)
    ensures Signed(Int32Pattern(b[o], b[o + 1], b[o + 2], b[o + 3])) == ToInt32(b, o)
  {
    Int32PatternValue(b[o], b[o + 1], b[o + 2], b[o + 3]);
  }

  /** `String.format("0x%08X ", v)`: `%X` prints an int's unsigned 32-bit value. */
  function Int32Cell(v: int): (r: string)
    requires -0x8000_0000 <= v < 0x8000_0000
    ensures |r| == 11
  {
    Pow16Values();
    "0x" + HexFixed(v % 0x1_0000_0000, 8) + " "
  }

  /** The first `n` cells of the Int32 view: the ints at offsets 0, 4, ..., 4(n-1). */
  function Int32Words(b: seq<u8>, n: nat): (r: string)
    requires 4 * n <= |b|
    ensures |r| == 11 * n
  {
    if n == 0 then "" else Int32Words(b, n - 1) + Int32Cell(ToInt32(b, 4 * (n - 1)))
  }

  /** The Int32 view: one cell per full group of 4 bytes, then a line feed. */
  method Int32View(b: seq<u8>) returns (text: string)
    ensures text == Int32Words(b, |b| / 4) + "\n"
  {
    text := "";
    var i := 0;
    ghost var n := 0;
    while i + 3 < |b|
      invariant i == 4 * n <= |b|
      invariant text == Int32Words(b, n)
    {
      text := text + Int32Cell(ToInt32(b, i));
      i := i + 4;
      n := n + 1;
    }
    assert n == |b| / 4 by {
      DivFour(|b|, n);
    }
    text := text + "\n";
  }

  lemma DivFour(len: nat, n: nat)
    requires 4 * n <= len < 4 * n + 4
    ensures n == len / 4
  {
  }

  /** Cell `k` of the view is the int read at offset `4k`. */
  lemma {:induction false} Int32WordsAt(b: seq<u8>, n: nat, k: nat)
    requires 4 * n <= |b| && k < n
    ensures Int32Words(b, n)[11 * k..11 * k + 11] == Int32Cell(ToInt32(b, 4 * k))
    decreases n
  {
    if k < n - 1 {
      Int32WordsAt(b, n - 1, k);
    }
  }

  /** The view never looks past its last full group: 1 to 3 trailing bytes are ignored. */
  lemma {:induction false} Int32WordsIgnoresTail(b: seq<u8>, n: nat, t: nat)
    requires 4 * n <= t <= |b|
    ensures Int32Words(b, n) == Int32Words(b[..t], n)
    decreases n
  {
    if n > 0 {
      Int32WordsIgnoresTail(b, n - 1, t);
      Int32PrefixCell(b, 4 * (n - 1), t);
    }
  }

  lemma Int32PrefixCell(b: seq<u8>, o: nat, t: nat)
    requires o + 3 < t <= |b|
    ensures ToInt32(b[..t], o) == ToInt32(b, o)
  {
    assert b[..t][o] == b[o] && b[..t][o + 1] == b[o + 1];
    assert b[..t][o + 2] == b[o + 2] && b[..t][o + 3] == b[o + 3];
    assert Word(b[..t], o) == Word(b, o);
  }

  /** A cell is `0x`, the eight hex digits of the int's unsigned value, and a space. */
  lemma Int32CellHex(v: int)
    requires -0x8000_0000 <= v < 0x8000_0000
    ensures v % 0x1_0000_0000 < Pow16(8)
    ensures Int32Cell(v) == "0x" + HexFixed(v % 0x1_0000_0000, 8) + " "
  {
    Pow16Values();
  }

  /** The word in Horner form, the shape the hex split takes. */
  lemma WordNested(b: seq<u8>, o: nat)
    requires o + 3 < |b|
    ensures Word(b, o) == b[o] as int + 0x100 * (b[o + 1] as int + 0x100 * (b[o + 2] as int + 0x100 * b[o + 3] as int))
  {
  }

  /**
   * The Int32 view prints the four bytes of a group most significant first: the cell for
   * offset `o` is `0x`, then bytes o+3, o+2, o+1, o in `%02X`, then a space.
   */
  lemma Int32CellBytes(b: seq<u8>, o: nat)
    requires o + 3 < |b|
    ensures Int32Cell(ToInt32(b, o)) ==
            "0x" + ByteHex(b[o + 3]) + ByteHex(b[o + 2]) + ByteHex(b[o + 1]) + ByteHex(b[o]) + " "
  {
    Int32CellHex(ToInt32(b, o));
    WordHex(b, o);
  }

  /** The eight hex digits of a word are its bytes' digits, most significant byte first. */
  lemma WordHex(b: seq<u8>, o: nat)
    requires o + 3 < |b|
    ensures Word(b, o) < Pow16(8)
    ensures HexFixed(Word(b, o), 8) == ByteHex(b[o + 3]) + ByteHex(b[o + 2]) + ByteHex(b[o + 1]) + ByteHex(b[o])
  {
    var x0, x1, x2, x3 := b[o] as int, b[o + 1] as int, b[o + 2] as int, b[o + 3] as int;
    HexFixedBytes(x0, x1, x2, x3);
    WordNested(b, o);
    ByteHexIsHexFixed(b[o]);
    ByteHexIsHexFixed(b[o + 1]);
    ByteHexIsHexFixed(b[o + 2]);
    ByteHexIsHexFixed(b[o + 3]);
  }

  // ---------------------------------------------------------------------------
  // The ASCII view
  // ---------------------------------------------------------------------------

  predicate IsPrintable(c: char) {
    ' ' <= c <= '~'
  }

  /**
   * `text.replaceAll("[^\\x20-\\x7E]", ".")` on the decoded memory text: printable ASCII
   * is kept and every other character becomes a dot.
   */
  function AsciiView(text: string): (r: string)
    ensures |r| == |text|
    ensures forall i :: 0 <= i < |r| ==> IsPrintable(r[i])
    ensures forall i :: 0 <= i < |r| ==> (r[i] == text[i] <==> IsPrintable(text[i]))
    ensures forall i :: 0 <= i < |r| && !IsPrintable(text[i]) ==> r[i] == '.'
  {
    seq(|text|, i requires 0 <= i < |text| => if IsPrintable(text[i]) then text[i] else '.')
  }
}

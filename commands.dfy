/**
 * The command lines the client writes to the console's debug monitor, and the two
 * connection settings read from the window: the memory commands built from the address,
 * length and value fields, the fixed console-feature queries, the power commands, the
 * notification template, and the ip / port fields.
 */
module Commands {
  import opened Wrappers
  import opened Text
  import opened Numbers
  import opened Codec
  import opened ResponseParser

  // ---------------------------------------------------------------------------
  // Field filtering
  // ---------------------------------------------------------------------------

  /**
   * `s.replaceAll("[^0-9a-fA-F]", "")` for radix 16 and `s.replaceAll("[^0-9]", "")` for
   * radix 10: the digits of the radix, in order, and nothing else.
   */
  function Filter(s: string, radix: nat): (r: string)
    requires radix == 10 || radix == 16
    ensures |r| <= |s|
    ensures AllDigits(r, radix)
    ensures forall c :: c in r <==> c in s && IsDigit(c, radix)
    ensures AllDigits(s, radix) ==> r == s
  {
    if s == [] then []
    else (if IsDigit(s[0], radix) then [s[0]] else []) + Filter(s[1..], radix)
  }

  /** Filtering a concatenation filters each part, in order. */
  lemma {:induction false} FilterAppend(a: string, b: string, radix: nat)
    requires radix == 10 || radix == 16
    ensures Filter(a + b, radix) == Filter(a, radix) + Filter(b, radix)
    decreases |a|
  {
    if a == [] {
      assert a + b == b;
    } else {
      var ab := a + b;
      var h := if IsDigit(a[0], radix) then [a[0]] else [];
      assert ab[0] == a[0] && ab[1..] == a[1..] + b;
      assert Filter(ab, radix) == h + Filter(a[1..] + b, radix);
      FilterAppend(a[1..], b, radix);
      assert Filter(a, radix) == h + Filter(a[1..], radix);
      var x, y := Filter(a[1..], radix), Filter(b, radix);
      AppendAssoc(h, x, y);
    }
  }

  /** One character is kept exactly when it is a digit of the radix. */
  lemma FilterChar(c: char, radix: nat)
    requires radix == 10 || radix == 16
    ensures Filter([c], radix) == if IsDigit(c, radix) then [c] else []
  {
    assert [c][1..] == [];
  }

  /** Filtering twice is filtering once. */
  lemma FilterIdempotent(s: string, radix: nat)
    requires radix == 10 || radix == 16
    ensures Filter(Filter(s, radix), radix) == Filter(s, radix)
  {
  }

  // ---------------------------------------------------------------------------
  // getmem / setmem
  // ---------------------------------------------------------------------------

  /**
   * Why no command is sent: the message the memory tab shows for an empty field, or the
   * NumberFormatException of a value the Java type cannot hold.
   */
  datatype MemError = InvalidAddressOrLength | InvalidAddressOrValue | NumberFormat

  /** `Long.toHexString(addr)`: the address after `0x` in both memory commands, lower-case hex. */
  function AddressText(addr: nat): string {
    ToDigits(addr, 16)
  }

  /**
   * The Read button: the address field keeps its hex digits, the length field its decimal
   * digits; an empty one stops with "Invalid address or length.", a value past
   * `Long.MAX_VALUE` or `Integer.MAX_VALUE` throws, otherwise the command is
   * `getmem addr=0x<hex> length=<decimal>`.
   */
  function GetMemCommand(addrField: string, lenField: string): (r: Result<string, MemError>)
    ensures r == Failure(InvalidAddressOrLength) <==> Filter(addrField, 16) == [] || Filter(lenField, 10) == []
    ensures r.Failure? ==> r.error == InvalidAddressOrLength || r.error == NumberFormat
    ensures r.Success? <==>
              Filter(addrField, 16) != [] && Filter(lenField, 10) != [] &&
              DigitsValue(Filter(addrField, 16), 16) <= MaxValue(Long) &&
              DigitsValue(Filter(lenField, 10), 10) <= MaxValue(Int)
  {
    var addrStr := Filter(addrField, 16);
    var lenStr := Filter(lenField, 10);
    if addrStr == [] || lenStr == [] then Failure(InvalidAddressOrLength)
    else
      DigitsParse(addrStr, 16, Long);
      DigitsParse(lenStr, 10, Int);
      match (ParseJava(addrStr, 16, Long), ParseJava(lenStr, 10, Int))
      case (Some(addr), Some(len)) =>
        Success("getmem addr=0x" + AddressText(addr) + " length=" + IntToString(len))
      case _ => Failure(NumberFormat)
  }

  /**
   * A sent read command names the typed address and length: its address digits are the
   * non-empty lower-case hex value of the address field without leading zeros, and its
   * length digits are the non-empty decimal value of the length field without sign or
   * leading zeros, which reads back as that value.
   */
  lemma GetMemCommandFields(addrField: string, lenField: string)
    requires GetMemCommand(addrField, lenField).Success?
    ensures exists a: string, n: string ::
              GetMemCommand(addrField, lenField).value == "getmem addr=0x" + a + " length=" + n &&
              AllDigits(a, 16) && DigitsValue(a, 16) == DigitsValue(Filter(addrField, 16), 16) &&
              |a| >= 1 && (forall k :: 0 <= k < |a| ==> IsLowerDigit(a[k])) && (|a| > 1 ==> a[0] != '0') &&
              |n| >= 1 && AllDigits(n, 10) && DigitsValue(n, 10) == DigitsValue(Filter(lenField, 10), 10) &&
              (|n| > 1 ==> n[0] != '0') &&
              ParseJava(n, 10, Int) == Some(DigitsValue(Filter(lenField, 10), 10) as int)
  {
    var addr := DigitsValue(Filter(addrField, 16), 16);
    var len := DigitsValue(Filter(lenField, 10), 10);
    DigitsParse(Filter(addrField, 16), 16, Long);
    DigitsParse(Filter(lenField, 10), 10, Int);
    ToDigitsValue(addr, 16);
    ToDigitsLower(addr, 16);
    ToDigitsValue(len, 10);
    IntToStringParses(len);
    var a, n := AddressText(addr), IntToString(len);
    assert GetMemCommand(addrField, lenField).value == "getmem addr=0x" + a + " length=" + n;
  }

  /**
   * The Set button: the address and value fields keep their hex digits; an empty one or a
   * value of odd length stops with "Invalid address or value format.", an address past
   * `Long.MAX_VALUE` throws, otherwise the command is `setmem addr=0x<hex> data=<value>`.
   */
  function SetMemCommand(addrField: string, valField: string): (r: Result<string, MemError>)
    ensures r == Failure(InvalidAddressOrValue) <==>
              Filter(addrField, 16) == [] || Filter(valField, 16) == [] || |Filter(valField, 16)| % 2 != 0
    ensures r.Failure? ==> r.error == InvalidAddressOrValue || r.error == NumberFormat
    ensures r.Success? <==>
              Filter(addrField, 16) != [] && Filter(valField, 16) != [] && |Filter(valField, 16)| % 2 == 0 &&
              DigitsValue(Filter(addrField, 16), 16) <= MaxValue(Long)
  {
    var addrStr := Filter(addrField, 16);
    var valStr := Filter(valField, 16);
    if addrStr == [] || valStr == [] || |valStr| % 2 != 0 then Failure(InvalidAddressOrValue)
    else
      DigitsParse(addrStr, 16, Long);
      match ParseJava(addrStr, 16, Long)
      case Some(addr) => Success("setmem addr=0x" + AddressText(addr) + " data=" + valStr)
      case None => Failure(NumberFormat)
  }

  /**
   * A sent write command names the typed address: its address digits are the non-empty
   * lower-case hex value of the address field without leading zeros, and its value is the filtered
   * value field.
   */
  lemma SetMemCommandFields(addrField: string, valField: string)
    requires SetMemCommand(addrField, valField).Success?
    ensures exists a: string ::
              SetMemCommand(addrField, valField).value == "setmem addr=0x" + a + " data=" + Filter(valField, 16) &&
              AllDigits(a, 16) && DigitsValue(a, 16) == DigitsValue(Filter(addrField, 16), 16) &&
              |a| >= 1 && (forall k :: 0 <= k < |a| ==> IsLowerDigit(a[k])) && (|a| > 1 ==> a[0] != '0')
  {
    var addr := DigitsValue(Filter(addrField, 16), 16);
    DigitsParse(Filter(addrField, 16), 16, Long);
    ToDigitsValue(addr, 16);
    ToDigitsLower(addr, 16);
    var a := AddressText(addr);
    assert SetMemCommand(addrField, valField).value == "setmem addr=0x" + a + " data=" + Filter(valField, 16);
  }

  /** Hex digits hold no `=` and no space. */
  lemma DigitsPlain(s: string)
    requires AllDigits(s, 16)
    ensures '=' !in s && ' ' !in s
  {
    assert forall k :: 0 <= k < |s| ==> IsDigit(s[k], 16);
  }

  /** The only `=` before the value of a write command belongs to `addr=`. */
  lemma SetMemPrefixAt(a: string, p: int)
    requires AllDigits(a, 16)
    ensures !OccursAt("setmem addr=0x" + a + " ", "data=", p)
  {
    var pre := "setmem addr=0x" + a + " ";
    if 0 <= p && p + 5 <= |pre| {
      var head := "setmem addr=0x";
      assert |pre| == 15 + |a|;
      if 14 <= p + 4 < 14 + |a| {
        DigitsPlain(a);
        assert pre[p + 4] == a[p + 4 - 14];
        MismatchAt(pre, "data=", p, 4);
      } else if p + 4 == 14 + |a| {
        assert pre[p + 4] == ' ';
        MismatchAt(pre, "data=", p, 4);
      } else {
        assert pre[..14] == head;
        if p + 4 == 11 {
          assert pre[p] == head[7] == 'a';
          MismatchAt(pre, "data=", p, 0);
        } else {
          assert pre[p + 4] == head[p + 4] != '=';
          MismatchAt(pre, "data=", p, 4);
        }
      }
    }
  }

  /** The ` data=` key read as a space followed by the key, the way the field search sees it. */
  lemma SpaceThenField(x: string, v: string)
    ensures x + " data=" + v == x + " " + "data=" + v
  {
    assert " data=" == " " + "data=";
    assert x + " data=" + v == x + (" " + "data=") + v;
  }

  /** The text before the value of a write command has no `data=`. */
  lemma SetMemPrefixPlain(a: string)
    requires AllDigits(a, 16)
    ensures !Contains("setmem addr=0x" + a + " ", "data=")
  {
    forall p ensures !OccursAt("setmem addr=0x" + a + " ", "data=", p) {
      SetMemPrefixAt(a, p);
    }
  }

  /**
   * A sent write command carries the filtered value as its `data=` field, so the reply
   * parser reads back exactly the digits the user typed; the value always has an even
   * number of digits.
   */
  lemma SetMemCommandData(addrField: string, valField: string)
    requires SetMemCommand(addrField, valField).Success?
    ensures ExtractDataField(SetMemCommand(addrField, valField).value) == Some(Filter(valField, 16))
    ensures |Filter(valField, 16)| % 2 == 0
  {
    var addr := DigitsValue(Filter(addrField, 16), 16);
    DigitsParse(Filter(addrField, 16), 16, Long);
    var a, v := AddressText(addr), Filter(valField, 16);
    var cmd := SetMemCommand(addrField, valField).value;
    assert cmd == "setmem addr=0x" + a + " data=" + v;
    ToDigitsValue(addr, 16);
    var pre := "setmem addr=0x" + a + " ";
    SetMemPrefixPlain(a);
    DigitsPlain(v);
    assert IsDigit(v[0], 16) && IsDigit(v[|v| - 1], 16);
    ExtractDataFieldOfReply(pre, v, "");
    TrimUntrimmed(v);
    SpaceThenField("setmem addr=0x" + a, v);
    assert cmd == pre + "data=" + v + "";
  }

  // ---------------------------------------------------------------------------
  // Console-feature commands
  // ---------------------------------------------------------------------------

  /** The six console-info queries, in the order of the info panel's labels. */
  const QueryCommands: seq<string> := [
    "consolefeatures ver=2 type=13 params=\"A\\0\\A\\0\\\"",
    "consolefeatures ver=2 type=17 params=\"A\\0\\A\\0\\\"",
    "consolefeatures ver=2 type=10 params=\"A\\0\\A\\0\\\"",
    "consolefeatures ver=2 type=16 params=\"A\\0\\A\\0\\\"",
    "consolefeatures ver=2 type=15 params=\"A\\0\\A\\1\\0\\\"",
    "consolefeatures ver=2 type=15 params=\"A\\0\\A\\1\\1\\\""
  ]

  /** The Shutdown Console button. */
  const ShutdownCommand: string := "consolefeatures ver=2 type=11 params=\"A\\0\\A\\0\\\""

  /** The Reload Title button. */
  const SoftRebootCommand: string := "magicboot title=0"

  // ---------------------------------------------------------------------------
  // XNotify
  // ---------------------------------------------------------------------------

  /** The number of constants of the notification-logo enumeration. */
  const LogoCount: nat := 67

  /** `logo.ordinal()`: the position of a logo in its enumeration. */
  type LogoOrdinal = n: nat | n < LogoCount

  /**
   * `String.length()`: UTF-16 code units, so a character outside the Basic Multilingual
   * Plane counts twice.
   */
  function Utf16Length(s: string): (n: nat)
    ensures |s| <= n <= 2 * |s|
    ensures n == |s| <==> forall i :: 0 <= i < |s| ==> (s[i] as int) < 0x1_0000
  {
    if s == [] then 0 else (if (s[0] as int) < 0x1_0000 then 1 else 2) + Utf16Length(s[1..])
  }

  /** The notification's argument list: length, payload and logo, closed by `\"`. */
  function NotifyParams(len: nat, payload: string, logo: LogoOrdinal): string {
    "A\\0\\A\\2\\2/" + IntToString(len) + "\\" + payload + "\\1\\" + IntToString(logo) + "\\\""
  }

  /**
   * The Send Notification button: `encoded` is the message in the console's code page
   * (the `getBytes("Cp1252")` the client delegates to), shown as uppercase hex after the
   * message's length; the ordinal of the logo closes the argument list, and the closing
   * quote of `params` follows the `\"` that ends it.
   */
  function NotifyCommand(message: string, encoded: seq<u8>, logo: LogoOrdinal): string {
    var hexMsg := ToUpper(HexUpper(encoded));
    "consolefeatures ver=2 type=12 params=\"" + NotifyParams(Utf16Length(message), hexMsg, logo) + "\""
  }

  /**
   * The notification's payload is the plain hex of the encoded message (upper-casing it
   * again changes nothing), two digits per byte, each pair decoding back to its byte.
   */
  lemma NotifyCommandPayload(message: string, encoded: seq<u8>, logo: LogoOrdinal)
    ensures NotifyCommand(message, encoded, logo) ==
            "consolefeatures ver=2 type=12 params=\"" + NotifyParams(Utf16Length(message), HexUpper(encoded), logo) + "\""
    ensures |HexUpper(encoded)| == 2 * |encoded|
    ensures forall k :: 0 <= k < |encoded| ==> HexPair(HexUpper(encoded)[2 * k], HexUpper(encoded)[2 * k + 1]) == encoded[k]
  {
    HexUpperIsUpper(encoded);
    forall k | 0 <= k < |encoded|
      ensures HexPair(HexUpper(encoded)[2 * k], HexUpper(encoded)[2 * k + 1]) == encoded[k]
    {
      DecodeHexUpper(encoded, k);
    }
  }

  // ---------------------------------------------------------------------------
  // Connection settings
  // ---------------------------------------------------------------------------

  /** The default port of the debug monitor, used when the port field does not parse. */
  const DefaultPort: int := 730

  /** `getIp`: the ip field, trimmed. */
  function GetIp(field: string): (ip: string)
    ensures Trim(ip) == ip
  {
    TrimIdempotent(field);
    Trim(field)
  }

  /** `getPort`: the trimmed port field as a decimal int, or 730 when it does not parse. */
  function GetPort(field: string): (port: int)
    ensures ParseJava(Trim(field), 10, Int).None? ==> port == DefaultPort
    ensures ParseJava(Trim(field), 10, Int).Some? ==> port == ParseJava(Trim(field), 10, Int).value
  {
    match ParseJava(Trim(field), 10, Int)
    case Some(p) => p
    case None => DefaultPort
  }

  /** A port written out as `Integer.toString` prints it is read back as that port. */
  lemma GetPortRoundTrip(port: int)
    requires MinValue(Int) <= port <= MaxValue(Int)
    ensures GetPort(IntToString(port)) == port
  {
    var s := IntToString(port);
    IntToStringParses(port);
    if port < 0 {
      ToDigitsValue(-port, 10);
      assert IsDigit(ToDigits(-port, 10)[|ToDigits(-port, 10)| - 1], 10);
      assert s[|s| - 1] == ToDigits(-port, 10)[|ToDigits(-port, 10)| - 1];
    } else {
      ToDigitsValue(port, 10);
      assert IsDigit(s[0], 10) && IsDigit(s[|s| - 1], 10);
    }
    TrimUntrimmed(s);
  }
}

# XRPC Swing demo: client core in Dafny

`XRPCSwingDemo.java` is a Swing window around a small line-oriented client for the
XBDM/XRPC debug protocol of an Xbox 360 console. This project models what the window does
once its widgets and threads are stripped away. The model is split into these modules:

- **Codec** (`codec.dfy`): the byte and hex helpers.
  - `hexStringToByteArray`, with the bitwise `digit << 4 | digit` of `Character.digit`, including its `-1` for a non-digit.
  - `toHex`, as `%02X` per byte.
  - The 16-per-line `bytesToHexDisplay` dump.
  - The little-endian two's-complement `toInt32`.
  - The Int32 and ASCII memory views.
  - Bytes are `u8`, the unsigned value `b & 0xFF` the source works with. The bitwise
    operators on Java `int` are written out in `bits.dfy`.
- **ResponseParser** (`parser.dfy`): the reply parsers.
  - `extractValue` and `extractDataField`; a `null` result becomes `None`.
  - `parseDirListing`.
  - How the console-info panel shows each value, with temperatures converted from hex to decimal.
- **Commands** (`commands.dfy`): the command text the handlers build.
  - `getmem` and `setmem` with their field filtering and rejection.
  - The fixed power and console-feature commands.
  - The XNotify template.
  - `getIp` and `getPort`, which falls back to port 730.
- **Connection** (`connection.dfy`): the class `XrpcConnection`, modelling
  `XRPCConnection.connect`, `send`, `close` and `isConnected`.
  - The socket's input is an abstract `Stream`: the lines still to be read, and how the
    input ends (end of stream or a read timeout).
  - Each `new Socket` is a `Dial` argument that either refuses or accepts with such a stream.
    A port outside 0..65535 is rejected before any dial, with the `IllegalArgumentException`
    `new Socket` throws.
  - Every command the session writes is appended to `sent`.
  - `send` is specified by the pure function `SendSpec`. It is built from `Exchange`, the
    framing of one reply: a status line, optionally followed by a block of lines that ends
    at a lone `.`.
- **Client** (`client.dfy`): the window's own state.
  - The cached connection with `lastIp` and `lastPort` (`getConnection`).
  - A request through it.
  - `fetchConsoleInfo`, which opens a session of its own and sends six queries.
- **Numbers** and **Text** (`numbers.dfy`, `text.dfy`): the parts of `java.lang` the core relies on.
  - `Integer.parseInt` / `Long.parseLong` with their overflow rejection, `Integer.toString`,
    `Long.toHexString` and `%0NX`.
  - `indexOf`, `contains`, `trim`, `replace`, `toLowerCase` / `toUpperCase` on ASCII, and
    `split("\n")`.

Where the code is imperative the model is too:
- `toHex`, `bytesToHexDisplay`, `hexStringToByteArray`, the Int32 view and `parseDirListing`
  are methods with loops, proved against the functions that specify them.
- `send` reads its block in a `while` loop.
- `getConnection` updates the client's fields in place.

Three details of the code that the model keeps:
- The two temperature queries send `params="A\0\A\1\0\"` and `params="A\0\A\1\1\"`. The
  other queries send `A\0\A\0\`.
- `connect` reads and discards one banner line on every port.
- A read timeout inside a continuation block propagates out of `send` without closing the
  socket. Only a missing or timed-out status line closes it.

## Model

| member | source | states |
|---|---|---|
| Codec.HexUpper | XRPCSwingDemo.java:327-334 | `toHex` output has two characters per byte, the upper-case `%02X` of the unsigned byte value |
| Codec.ToHex | XRPCSwingDemo.java:327-334 | the `StringBuilder` loop of `toHex` yields exactly `HexUpper` of the bytes |
| Codec.HexUpperIsUpper | XRPCSwingDemo.java:228 | upper-casing the `toHex` text changes nothing |
| Codec.HexPair | XRPCSwingDemo.java:311-314 | one decoded byte is 16·digit(high) + digit(low) for two hex digits, 0xF0 + digit(low) for a bad high digit, 0xFF for a bad low digit |
| Codec.HexPairAsWritten | XRPCSwingDemo.java:311-314 | the bitwise `(byte)(digit(hi) << 4 \| digit(lo))` on 32-bit `int` equals `HexPair` for every pair of characters |
| Codec.NibblesValid | XRPCSwingDemo.java:311-314 | for two valid nibbles the shifted-or-cast gives 16·d1 + d2 |
| Codec.NibblesBadHigh | XRPCSwingDemo.java:311-314 | a high digit of -1 gives 0xF0 + d2 |
| Codec.NibblesBadLow | XRPCSwingDemo.java:311-314 | a low digit of -1 gives 0xFF whatever the high digit |
| Codec.HexStringToByteArray | XRPCSwingDemo.java:307-317 | counting characters as code points: fails exactly for odd-length input (the read past the end); otherwise returns `\|s\|/2` bytes, byte k decoded from characters 2k and 2k+1 |
| Codec.DecodeHexUpper | XRPCSwingDemo.java:307-317 | decoding the `toHex` rendering of bytes gives each byte back |
| Codec.HexUpperOfDecoded | XRPCSwingDemo.java:307-334 | for even-length hex text in either case, re-rendering the decoded bytes gives the text upper-cased |
| Codec.HexDisplay | XRPCSwingDemo.java:287-294 | the dump text, built byte by byte: each byte as `%02X` and a space, with a line feed after every 16th byte |
| Codec.BytesToHexDisplay | XRPCSwingDemo.java:287-294 | the dump loop yields `HexDisplay` of the bytes |
| Codec.HexDisplayLength | XRPCSwingDemo.java:287-294 | the dump of n bytes has length 3n + n/16 |
| Codec.HexDisplayAt | XRPCSwingDemo.java:287-294 | byte k sits at offset 3k + k/16 as two upper-case hex digits and a space, and a line feed follows exactly when k+1 is a multiple of 16 |
| Codec.HexDisplayUnspaced | XRPCSwingDemo.java:287-294 | deleting spaces and line feeds from the dump gives the `toHex` rendering of the same bytes |
| Codec.ToInt32 | XRPCSwingDemo.java:296-301 | the result is a 32-bit signed value congruent to b[o] + 2^8·b[o+1] + 2^16·b[o+2] + 2^24·b[o+3] modulo 2^32, negative exactly when b[o+3] ≥ 0x80 |
| Codec.ToInt32AsWritten | XRPCSwingDemo.java:296-301 | the shifts and ors of the source compute that same little-endian word and its signed reading |
| Codec.Int32View | XRPCSwingDemo.java:111-115 | the view loop emits one cell per whole 4-byte group at offsets 0, 4, 8, …, then a line feed |
| Codec.Int32WordsAt | XRPCSwingDemo.java:111-115 | cell k is the `0x%08X ` text of `toInt32(b, 4k)` |
| Codec.Int32WordsIgnoresTail | XRPCSwingDemo.java:111-115 | the 1 to 3 bytes after the last whole group do not affect the view |
| Codec.Int32CellBytes | XRPCSwingDemo.java:113 | a cell shows the four bytes as hex from the most significant (b[o+3]) to the least (b[o]) |
| Codec.AsciiView | XRPCSwingDemo.java:109 | the ASCII view keeps the length, keeps each character exactly when it is in 0x20-0x7E and shows `.` for every other |
| ResponseParser.ExtractValue | XRPCSwingDemo.java:273-278 | the value of a reply line: the line itself when it has no space; otherwise the text after the first space, with `value=` removed in one left-to-right pass, then trimmed |
| ResponseParser.ExtractValueShape | XRPCSwingDemo.java:273-278 | a line without a space comes back unchanged; otherwise the result is shorter than the line and trimmed at both ends |
| ResponseParser.ExtractValueOfReply | XRPCSwingDemo.java:273-278 | a reply `<status> <v>` or `<status> value=<v>` yields exactly v, for a status without spaces and a trimmed v free of `value=` |
| ResponseParser.ExtractDataField | XRPCSwingDemo.java:280-285 | the field is absent exactly when the reply has no `data=`; when present it holds no space and is trimmed |
| ResponseParser.ExtractDataFieldOfReply | XRPCSwingDemo.java:280-285 | in `<pre>data=<v><tail>`, where `pre` has no `data=`, v has no space and the tail is empty or starts with a space, the field is v trimmed |
| ResponseParser.DirListing | XRPCSwingDemo.java:319-325 | what `parseDirListing` returns: the trimmed `split("\n")` pieces that contain `id=`, each followed by a line feed, or the reply itself when no piece does |
| ResponseParser.ParseDirListing | XRPCSwingDemo.java:319-325 | the loop over the `split("\n")` pieces yields `DirListing` of the reply |
| ResponseParser.DirListingLines | XRPCSwingDemo.java:319-325 | with no piece containing `id=` the reply comes back unchanged; otherwise the result's lines are exactly the trimmed `id=` lines in order, each ending in a line feed |
| ResponseParser.IdLinesShape | XRPCSwingDemo.java:322 | every kept line contains `id=`, is trimmed and holds no line feed |
| ResponseParser.InfoLine | XRPCSwingDemo.java:209-219 | a non-temperature label shows `label + value + "\n"`; a temperature whose value does not parse as hex shows the value as received with ` C` |
| ResponseParser.TemperatureInDecimal | XRPCSwingDemo.java:210-214 | a temperature reported as hex digits of either case, leading zeros allowed, whose value fits an `int`, is shown as the decimal of that value with ` C` |
| ResponseParser.TemperatureRenderedInDecimal | XRPCSwingDemo.java:210-214 | a temperature the console renders as `Integer.toHexString` does is shown as its decimal value with ` C` |
| Commands.Filter | XRPCSwingDemo.java:86-87 | the filtered field holds only digits of the radix, has every digit of the field, no other character, and leaves a digit string unchanged |
| Commands.FilterAppend | XRPCSwingDemo.java:86-87 | filtering a concatenation is filtering each part, in order, so the digits keep their order and number |
| Commands.FilterChar | XRPCSwingDemo.java:86-87 | one character is kept exactly when it is a digit of the radix |
| Commands.FilterIdempotent | XRPCSwingDemo.java:86-87 | filtering twice is filtering once |
| Commands.GetMemCommand | XRPCSwingDemo.java:86-94 | rejects with the invalid-address-or-length message exactly when a filtered field is empty; builds a command exactly when both are non-empty and fit `long` and `int`; any other failure is a number-format failure |
| Commands.GetMemCommandFields | XRPCSwingDemo.java:92-94 | a built command is `getmem addr=0x<a> length=<n>`, a being non-empty lower-case hex digits without leading zeros of the address value and n non-empty decimal digits without sign or leading zeros of the length, which parse back to it |
| Commands.SetMemCommand | XRPCSwingDemo.java:129-136 | rejects with the invalid-address-or-value message exactly when the filtered address or value is empty or the value has odd length; builds a command exactly when, besides, the address fits `long`; any other failure is a number-format failure |
| Commands.SetMemCommandFields | XRPCSwingDemo.java:134-136 | a built command is `setmem addr=0x<a> data=<v>`, a being non-empty lower-case hex digits without leading zeros of the address value and v the filtered value field |
| Commands.SetMemCommandData | XRPCSwingDemo.java:129-136 | the `data=` field of a built `setmem` command, as `extractDataField` reads it, is the filtered value, of even length |
| Commands.Utf16Length | XRPCSwingDemo.java:229 | `message.length()` counts UTF-16 units: between \|s\| and 2\|s\|, equal to \|s\| exactly when no character is outside the basic plane |
| Commands.NotifyCommand | XRPCSwingDemo.java:226-234 | the XNotify command: `consolefeatures ver=2 type=12 params="A\0\A\2\2/<len>\<hex>\1\<logo>\""`, with the UTF-16 length of the message, the upper-cased `toHex` of its encoded bytes and the logo ordinal |
| Commands.NotifyCommandPayload | XRPCSwingDemo.java:226-234 | the XNotify command is its template around the plain `toHex` text (upper-casing it changes nothing), which has two characters per encoded byte, each pair decoding to its byte |
| Commands.GetIp | XRPCSwingDemo.java:257-259 | the ip is the trimmed field and has nothing left to trim |
| Commands.GetPort | XRPCSwingDemo.java:261-267 | the port is the trimmed field parsed as a decimal `int`, or 730 when that fails |
| Commands.GetPortRoundTrip | XRPCSwingDemo.java:261-267 | every `int` written out in decimal is read back as that port |
| Numbers.ParseJava | XRPCSwingDemo.java:92-93 | a parsed value lies in the range of the Java type, empty text never parses, and a digit string parses to its value |
| Numbers.DigitsParse | XRPCSwingDemo.java:92-93 | a non-empty digit string parses exactly when its value is at most the type's maximum |
| Numbers.ToDigitsValue | XRPCSwingDemo.java:94 | `Long.toHexString` and `Integer.toString` of a natural produce digits of that value with no leading zero |
| Numbers.ToDigitsLower | XRPCSwingDemo.java:94 | `Long.toHexString` and `Integer.toString` print no upper-case letter |
| Numbers.IntToStringParses | XRPCSwingDemo.java:94 | `Integer.toString` of an `int` parses back to it |
| Text.TrimShape | XRPCSwingDemo.java:276 | `trim` cuts the longest runs of characters ≤ space from both ends and keeps the middle as it is |
| Text.TrimIdempotent | XRPCSwingDemo.java:276 | trimming twice is trimming once |
| Text.RemoveAllUnchangedIff | XRPCSwingDemo.java:276 | `replace("value=", "")` changes the text exactly when it contains `value=` |
| Text.LinesOfJoinLines | XRPCSwingDemo.java:321 | splitting lines joined by line feeds gives the lines back |
| Text.JoinLinesOfLines | XRPCSwingDemo.java:321 | joining the pieces of a split with line feeds gives the text back |
| Connection.Read | XRPCSwingDemo.java:382-414 | one `readLine`: the next line and the rest of the input, or end of input (`null`) at the end of the stream, or a timeout; the rest keeps the input's ending |
| Connection.StripFinalFeed | XRPCSwingDemo.java:391 | `replaceAll("\n$", "")` on a command not ending in CR LF: deletes a final line feed, and a line feed followed by one final line terminator; never lengthens the text |
| Connection.NormalizeCommand | XRPCSwingDemo.java:390-392 | what is written always ends in CR LF, and a command already ending in CR LF is written unchanged |
| Connection.NormalizePlainCommand | XRPCSwingDemo.java:390-392 | a command without a final line terminator gets CR LF appended |
| Connection.NormalizeFeedCommand | XRPCSwingDemo.java:390-392 | a final lone line feed is replaced by CR LF |
| Connection.Continuation | XRPCSwingDemo.java:409-420 | the block after an announcing status line: the status joined by line feeds with the lines before the first lone `.`, which is consumed; the end of the stream also ends the block; a timeout inside it raises with the socket still open |
| Connection.Exchange | XRPCSwingDemo.java:397-422 | the reply and the socket afterwards for one status line: no status line closes the session with `Connection closed by XBDM` or the timeout; a status announcing nothing is the reply; an announcing one is followed by its `Continuation` |
| Connection.ExchangeStatusOnly | XRPCSwingDemo.java:397-422 | a status line announcing nothing is the whole reply, and no further line is read |
| Connection.ExchangeFramed | XRPCSwingDemo.java:409-422 | after an announcing status, the reply is the status joined by line feeds with the lines before the first lone `.`; the `.` is consumed and nothing after it is read |
| Connection.FramedReplyLines | XRPCSwingDemo.java:409-420 | splitting a framed reply at its line feeds gives back the status and the block lines |
| Connection.ExchangeTeardown | XRPCSwingDemo.java:397-407 | a missing status line (end of stream) or a timed-out one closes the session and raises `Connection closed by XBDM` or the timeout |
| Connection.BlockEnd | XRPCSwingDemo.java:414-419 | the block runs up to the first lone `.` or the end of the input, and no earlier line is a lone `.` |
| Connection.SendSpec | XRPCSwingDemo.java:385-423 | `send` on a session for a port: a closed session connects first, and a connect fault is raised before anything is written; then the normalized command is written once and the reply is `Exchange` of the input |
| Connection.SendWritesCrlf | XRPCSwingDemo.java:390-395 | `send` writes at most one text per call, and it ends in CR LF |
| Connection.SendOpenWrites | XRPCSwingDemo.java:385-423 | `send` on an open session writes the command once, normalized, and replies as `Exchange` on its input, without dialing |
| Connection.SendReconnects | XRPCSwingDemo.java:386-388 | `send` on a closed session for a valid port that dials successfully skips the banner and then behaves like an open session |
| Connection.SendUnconnected | XRPCSwingDemo.java:376-388 | `send` on a closed session whose port is out of range or whose dial is refused raises that fault, writes nothing and stays closed |
| Connection.ConnectSpec | XRPCSwingDemo.java:376-383 | `connect` fails exactly for a port out of range, with the port-range exception, or a refused dial, with its reason |
| Connection.XrpcConnection.IsConnected | XRPCSwingDemo.java:433-435 | connected exactly when a socket is present |
| Connection.XrpcConnection.Connect | XRPCSwingDemo.java:376-383 | a port out of range raises the port-range exception, a refused dial raises its reason, both leaving the socket as it was; an accepted dial installs the stream with one banner line consumed when there is one |
| Connection.XrpcConnection.Close | XRPCSwingDemo.java:426-431 | afterwards there is no socket, whatever the state before, so closing again is harmless |
| Connection.XrpcConnection.Send | XRPCSwingDemo.java:385-423 | the reply, the socket afterwards and the record of written commands are those of `SendSpec` for the session's port; a session whose writes all ended in CR LF keeps that property |
| Connection.XrpcConnection.Transact | XRPCSwingDemo.java:390-423 | on an open session: the normalized command is appended to what was written, and the reply and the socket afterwards are those of `Exchange` on the socket's input |
| Connection.ExchangeReplyKeepsOpen | XRPCSwingDemo.java:397-420 | a reply that `send` returns leaves the session open: only a missing status line closes it |
| Connection.XrpcConnection.ReadLine | XRPCSwingDemo.java:382-414 | `in.readLine()` on the open socket: returns what `Read` gives and leaves the rest of the input on the socket, writing nothing |
| Connection.XrpcConnection.ReadBlock | XRPCSwingDemo.java:412-420 | the block loop appends `"\n" + line` up to the first lone `.`, which it consumes, or to the end of the input; the result is `Continuation` |
| Client.XrpcClient.Open | XRPCSwingDemo.java:245-254 | a cached session that exists, is connected and was opened for the endpoint is returned with no field changed; otherwise the old one is closed, and a new one is installed with the endpoint recorded, or, when it cannot connect (port out of range, refused dial), the fault is raised and the fields stay as they were |
| Client.XrpcClient.GetConnection | XRPCSwingDemo.java:242-255 | the same decision for the trimmed ip field and the parsed port field |
| Client.XrpcClient.Request | XRPCSwingDemo.java:95 | `getConnection().send(cmd)`: a reusable session sends on its open socket with the fields unchanged; otherwise the old session is closed, a session that cannot connect raises before anything is written with the fields unchanged, and an accepted one sends on the new session after its banner with the endpoint recorded; a reply leaves the client reusable for the same endpoint |
| Client.XrpcClient.RequestAt | XRPCSwingDemo.java:242-255 | the same for an explicit endpoint |
| Client.InfoRun | XRPCSwingDemo.java:206-220 | the panel text from query i on: each reply's value under its label through `InfoLine`, until a query fails, whose fault message ends the panel |
| Client.InfoPanel | XRPCSwingDemo.java:186-223 | the whole panel of a refresh: `InfoRun` over a fresh session after its banner, the connection error message for a refused dial, or empty for a port out of range, whose exception is not caught |
| Client.QueryAll | XRPCSwingDemo.java:206-220 | the query loop's panel text is `InfoRun`: each reply's value under its label until the first fault, whose message ends the panel; the commands written are the queries in order, normalized, as many as `QueriesSent`: all of them when every query is answered, up to and including the first that raises otherwise |
| Client.Query | XRPCSwingDemo.java:207-219 | one query writes its command once, normalized; a fault yields the remaining panel, which is the fault's message, and no later query is written; a reply leaves the session open and yields its labelled value followed by the rest of the panel |
| Client.WroteNextQuery | XRPCSwingDemo.java:207 | the wire after query `i` is the wire before it and query `i`, normalized |
| Client.FetchConsoleInfo | XRPCSwingDemo.java:182-224 | the panel is `InfoPanel`: empty for a port out of range, whose exception escapes uncaught; the connection error for a refused dial; otherwise the query loop over a fresh session, with exactly the `QueriesSent` queries written, in order, normalized; nothing is written when the session does not connect |
| Client.InfoPanelCases | XRPCSwingDemo.java:186-223 | a refresh for a port out of range leaves the panel empty, a refused dial shows the error line, an accepted one shows the query loop |
| Client.InfoRunOfReplies | XRPCSwingDemo.java:206-220 | when every query is answered by one plain status line, the panel lists those replies' values under the labels in order, and every query is written |
| Client.InfoPanelOfReplies | XRPCSwingDemo.java:188-220 | a refresh on a valid port answered by a banner and six plain status lines shows exactly those six values and writes all six queries |
| Client.QueriesSentUntilSilence | XRPCSwingDemo.java:206-220 | when the first k queries get plain replies and the stream then ends or times out, k + 1 queries are written |
| Client.NormalizedAt | XRPCSwingDemo.java:390-394 | the k-th text on the wire is the k-th command, normalized |

## Left out

- The Swing window, its panels, listeners and `main`: display only. The texts the handlers append to their output areas (`SetMemory response: …`, `Memory at 0x… (…)`, `Error: …`) are not modelled. The command each handler sends and the values it decodes are.
- `runInThread` and `synchronized`: everything is sequential.
- Real sockets: `new Socket`, `setSoTimeout(5000)`, the buffered reader and writer. A dial outcome, an abstract stream of lines and an end-of-stream or timeout ending stand in for them. The 5-second clock is not modelled.
- Write, flush and close failures of the socket streams: they are assumed not to happen.
- A timeout is sticky in the model: a stream that timed out keeps timing out. The Java stream may deliver data after a timeout.
- `toFloat` and the Float memory view: IEEE 754 binary32 reinterpretation.
- `getBytes("Cp1252")` and `new String(bytes)` in the platform charset: the model takes the encoded bytes, or the decoded text, as arguments.
- Codec.HexStringToByteArray: the length of the text and the positions read are counted in code points, where Java's `length()` and `charAt` count UTF-16 units. For text with characters outside the basic plane the two differ: Java reads U+1F600 followed by `0` past its end and fails, and decodes U+1F600 alone (two surrogates) as one byte 0xFF, while the model decodes the first and rejects the second. Only text inside the basic plane is decoded as Java does.
- `Character.digit`, `toLowerCase` and `toUpperCase` on characters outside ASCII (Unicode digits and case mapping): the model covers ASCII only.
- Commands.GetMemCommand, Commands.SetMemCommand: the text of a `NumberFormatException` message is not modelled, only that one is raised.
- Connection.NormalizeCommand: `StripFinalFeed` models the Java-regex meaning of `"\n$"`, including `$` matching before a final line terminator, for commands not ending in CR LF. Those are the only ones it is applied to; on a text ending in `"\n\r\n"` it would differ from Java. Its contract states only the CR LF ending, the unchanged CR LF case and the two lemmas for a plain command and a final line feed.
- The fixed command strings (the six console-info queries, shutdown, `magicboot title=0`) are constants written out as in the source, with no lemma about their individual characters.
- The names of the 67 `XNotifyLogo` constants are not modelled; only the ordinal, a number below 67, is.
- That exactly the last two console-info labels are temperatures is not proved. The test is modelled as written, `labels[i].trim().endsWith("Temp:")`.
- ResponseParser.ExtractValueShape: `replace` is a single left-to-right pass, so a `value=` can reappear where two pieces join. The contract does not claim the result is free of `value=`.

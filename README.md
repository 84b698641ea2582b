# messagerie — a Dafny model of the two chat servers

The repository holds two chat servers:

- **WebSocketServer** accepts HTTP connections:
  - A request whose first line contains `GET` and whose headers name `Sec-WebSocket-Key` is upgraded. The accept key is Base64 of the SHA-1 of the key and the RFC 6455 GUID.
  - The upgraded connection is registered in a shared `clients` set.
  - From then on, each frame the client sends is decoded and rebroadcast to every registered socket as an unmasked text frame. The sender gets its own frames back.
  - A request without the key gets a 200 page.
- **Server** is the line-based chat:
  - A first line starting with `GET ` or `HEAD ` gets a 200 page.
  - Any other connection is put at the end of the shared `clients` list of PrintWriters and welcomed with the number of connected clients.
  - Every non-blank line is broadcast as `Client: <line>` over a copy of the list. Writers whose println reports an error are removed.
  - The writer is removed when the connection ends.
  - The port comes from the first argument, else from the `PORT` environment variable, else it is 8888.

The model follows one connection at a time. The other connections are the members already in
the shared registry. Whatever a call cannot see is a parameter:
- the lines and bytes the client sends;
- SHA-1;
- the HTML pages;
- which writes fail.

| file | module | what it models |
|---|---|---|
| `bytes.dfy` | `Bytes` | Java bytes read through `& 0xFF`, the bit tests of the frame code, xor |
| `text.dfy` | `Text` | `trim`, `contains`, `indexOf`, `startsWith`, `Integer.toString`, `Integer.parseInt`, `getBytes("UTF-8")` |
| `base64.dfy` | `Base64`, `Base64Lemmas` | `Base64.getEncoder()` (RFC 4648 section 4) and a decoder that inverts it |
| `handshake.dfy` | `Handshake` | WebSocketServer's request-line test, header loop, accept key, and its 101 and 200 replies |
| `frame_codec.dfy` | `FrameCodec` | `createWebSocketFrame`, and one turn of the frame-reading loop over a byte stream, with its reused 8192-byte buffer |
| `frame_properties.dfy` | `FrameProperties` | what the frame reader makes of the frames of RFC 6455 section 5.2 |
| `ws_server.dfy` | `WebSocketServer` | the `clients` set, `broadcast`, `handleWebSocketMessages`, and `handleClient` up to its `finally` |
| `line_server.dfy` | `LineServer` | Server: port selection, the `clients` list, `broadcast` over a copy, `handleClient`/`handleHttpRequest` |

Imperative code stays imperative:
- The frame reader is a method over a `ByteStream` object and a Java-sized `array` buffer.
- The unmasking loop works in place on the payload array.
- The registries are classes (`Hub`, `LineHub`) whose methods update their fields.

Each method's result is given by its ensures, for most methods as a specification function, and the properties are lemmas about those functions.

The line server's registry is a `Roster`: the list of writers and what each writer has been sent so far.
Its invariant `Sound` says the list holds no writer twice, and every listed writer has a log.
The source keeps that invariant because each connection builds its own PrintWriter.

Behaviour of the code worth noting:

- A payload cut short by the end of the stream is not a disconnect. The fill loop stops, and the payload array, zero past what arrived, is unmasked and broadcast. An unmasked frame is broadcast zero-padded (`FrameProperties.TruncatedPayloadPadded`). A masked frame, which is what a client sends, has its padding xor-ed with the key too, so it is broadcast as what arrived, unmasked, and then key byte `i % 4` at each padded index `i` (`FrameProperties.TruncatedMaskedPadded`, `FrameProperties.MaskedPadding`). Only the next loop turn notices the end of the stream.
- The request-line test of WebSocketServer is `contains("GET")`, so any first line that contains GET counts.
- A header block that ends without a blank line makes `readLine()` return null, and `isEmpty()` throws. The connection is then closed without a reply (`Handshake.NegotiateCut`). A live socket that never sends more blocks instead, which a finite input cannot show.
- A 101 reply whose write throws skips `clients.add` and the message loop: the socket is only closed (`WebSocketServer.Session`, flag `replyFails`).
- A frame with the 127 length code does not reach `broadcast`. The exception ends `handleClient` (`WebSocketServer.RunTooLong`).
- The server writes frames of 64 KiB or more with the 127 code (`createWebSocketFrame`), which its own reader refuses (`FrameProperties.LargeServerFrameRefused`).

## Model

| member | source | states |
|---|---|---|
| Bytes.Low | src/WebSocketServer.java:188-189 | `n & 0xFF`, what `write(int)` keeps of its argument, is the one byte congruent to `n` modulo 256 |
| Bytes.LowSplit | src/WebSocketServer.java:187-189 | a 16-bit length is its high byte `(n >> 8) & 0xFF` times 256 plus its low byte `n & 0xFF` |
| Bytes.HighBit | src/WebSocketServer.java:98-100 | defines `(b & 0x80) != 0`, the FIN and mask bit tests (no contract) |
| Bytes.Low4 | src/WebSocketServer.java:99 | defines `b & 0x0F`, the opcode (no contract) |
| Bytes.Low7 | src/WebSocketServer.java:101 | defines `b & 0x7F`, the length code (no contract) |
| Bytes.Xor | src/WebSocketServer.java:138 | defines `a ^ b` bit by bit; its partner is XorTwice (no contract) |
| Bytes.XorBitsTwice | src/WebSocketServer.java:138 | xor with the same bits twice gives back the original bits |
| Bytes.XorTwice | src/WebSocketServer.java:138 | xor with a key byte is undone by xor with the same key byte |
| Bytes.XorZero | src/WebSocketServer.java:138 | a zero byte xor-ed with a key byte is the key byte |
| Text.TrimStart | src/WebSocketServer.java:41 | the result is no longer than the input and does not start with white space |
| Text.TrimEnd | src/WebSocketServer.java:41 | the result is no longer than the input and does not end with white space |
| Text.TrimStartSuffix | src/WebSocketServer.java:41 | trimming the start keeps a suffix of the string |
| Text.TrimStartDropped | src/WebSocketServer.java:41 | every char that trimming the start drops is white space |
| Text.TrimEndPrefix | src/WebSocketServer.java:41 | trimming the end keeps a prefix of the string |
| Text.TrimEndDropped | src/WebSocketServer.java:41 | every char that trimming the end drops is white space |
| Text.TrimInfix | src/WebSocketServer.java:41 | `trim()` cuts the string into white space, the result, and white space; with Trim's ends this is the longest such infix |
| Text.TrimStartBlank | src/WebSocketServer.java:41 | trimming the start leaves nothing exactly when the string is all white space |
| Text.TrimEndBlank | src/WebSocketServer.java:41 | trimming the end leaves nothing exactly when the string is all white space |
| Text.Trim | src/WebSocketServer.java:41 | `trim()`: a result that is not empty neither starts nor ends with a char at or below U+0020 |
| Text.TrimBlank | src/Server.java:84 | `trim().isEmpty()` holds exactly when every char is white space |
| Text.TrimSpaced | src/WebSocketServer.java:41 | `trim()` leaves a trimmed value as it is, and removes the single space after a header colon |
| Text.IndexOf | src/WebSocketServer.java:40 | `indexOf` is -1 or a position holding the char |
| Text.IndexOfFirst | src/WebSocketServer.java:40 | `indexOf` is -1 exactly when the char is absent, and otherwise finds its first occurrence |
| Text.IndexOfAfter | src/WebSocketServer.java:40 | the first colon of `a + ":" + b` is at `\|a\|` when `a` has none |
| Text.StartsWith | src/Server.java:69 | defines `startsWith` as being a prefix (no contract) |
| Text.Contains | src/WebSocketServer.java:31 | defines `contains` as occurring at some position (no contract); ContainsChar is its partner for one char |
| Text.ContainsChar | src/WebSocketServer.java:39 | `contains(":")` holds exactly when the string holds a colon |
| Text.DigitChar | src/Server.java:81 | a digit char spells its digit |
| Text.Decimal | src/Server.java:81 | `Integer.toString(n)` for `n >= 0` is a non-empty string of digits, with a leading 0 only for 0 |
| Text.DigitsValueOfDecimal | src/Server.java:81 | the digits toString writes spell the number |
| Text.ParseInt | src/Server.java:14 | a value `parseInt` accepts fits a 32-bit int, and the text it came from starts with a sign or a digit |
| Text.ParseIntDigits | src/Server.java:14 | `parseInt` accepts only an optional sign followed by one or more digits, and its value is the number those digits spell, negated after a minus sign |
| Text.ParseIntRefuses | src/Server.java:13-17 | a trailing letter, a bare sign and the empty string are refused, so such a port argument takes the 8888 fallback |
| Text.ParseDecimal | src/Server.java:14 | `parseInt` reads back `toString` of every int from 0 to 2^31-1, and its negation with a minus sign |
| Text.Utf8Char | src/WebSocketServer.java:56 | one char encodes to 1 to 4 bytes, to 1 byte exactly when it is ASCII |
| Text.Utf8 | src/WebSocketServer.java:56 | `getBytes("UTF-8")` is between 1 and 4 bytes per code point |
| Text.Utf8Append | src/WebSocketServer.java:63 | the encoding of a concatenation is the concatenation of the encodings |
| Text.Utf8Ascii | src/WebSocketServer.java:63 | an ASCII string encodes to one byte per char, its code |
| Base64.Encode | src/WebSocketServer.java:55 | defines `encodeToString` group by group with `=` padding (no contract); partners DecodeEncode, EncodeLength, EncodePadding |
| Base64.Decode | src/WebSocketServer.java:55 | an independent RFC 4648 decoder, not in the source, that serves as Encode's inverse (no contract) |
| Base64.IndexOf | src/WebSocketServer.java:55 | the decoder's table gives a value of at most 64: a 6-bit value, or 64 for a char outside the alphabet |
| Base64Lemmas.IndexOfSextet | src/WebSocketServer.java:55 | the table inverts the alphabet of RFC 4648 |
| Base64Lemmas.SextetIsNotPad | src/WebSocketServer.java:55 | no alphabet char is the pad char |
| Base64Lemmas.RegroupBytes | src/WebSocketServer.java:55 | the four 6-bit pieces of three bytes put back together give the three bytes |
| Base64Lemmas.DecodeOne | src/WebSocketServer.java:55 | a final group of one byte, padded with `==`, decodes back |
| Base64Lemmas.DecodePadded | src/WebSocketServer.java:55 | a group with one `=` decodes to two bytes |
| Base64Lemmas.DecodeTwo | src/WebSocketServer.java:55 | a final group of two bytes, padded with `=`, decodes back |
| Base64Lemmas.DecodeGroup | src/WebSocketServer.java:55 | a full group decodes to its three bytes followed by the rest |
| Base64Lemmas.EncodeGroup | src/WebSocketServer.java:55 | three or more bytes encode as their first group followed by the rest |
| Base64Lemmas.DecodeThree | src/WebSocketServer.java:55 | a full group in front of text that decodes back also decodes back |
| Base64Lemmas.SextetVisible | src/WebSocketServer.java:55 | every alphabet char lies above U+0020 |
| Base64Lemmas.VisibleConcat | src/WebSocketServer.java:55 | two strings without white space join into one without |
| Base64Lemmas.EncodeVisible | src/WebSocketServer.java:55 | the encoder writes no white space or control char |
| Base64Lemmas.DecodeEncode | src/WebSocketServer.java:55 | decoding the encoding of any bytes gives back the bytes |
| Base64Lemmas.EncodeLength | src/WebSocketServer.java:55 | the encoding of n bytes has 4 * ceil(n / 3) chars |
| Base64Lemmas.EncodePadding | src/WebSocketServer.java:55 | the text ends in `=` exactly when n mod 3 != 0, and in `==` exactly when n mod 3 = 1 |
| Handshake.ParseHeader | src/WebSocketServer.java:39-41 | a line that parses as a header gives a trimmed name and a trimmed value |
| Handshake.ParseHeaderContains | src/WebSocketServer.java:39 | a line is a header line exactly when it contains `:`, the loop's test |
| Handshake.Put | src/WebSocketServer.java:39-41 | defines one turn of the header loop: `put` of the parsed line, or nothing for a line without `:` (no contract) |
| Handshake.HeaderMap | src/WebSocketServer.java:37-43 | defines the map the header loop builds from header lines, in order (no contract) |
| Handshake.HeaderSection | src/WebSocketServer.java:37-43 | defines the header map up to the first empty line, or None when the lines end first (no contract) |
| Handshake.HeaderMapSnoc | src/WebSocketServer.java:38-43 | the map of the lines read so far plus one more line is the old map with that line's `put` |
| Handshake.PutNames | src/WebSocketServer.java:41 | after `put`, a name is in the map exactly when it was before or the line names it |
| Handshake.HeaderMapNames | src/WebSocketServer.java:37-43 | a name is in the header map exactly when some header line names it |
| Handshake.HeaderMapLastWins | src/WebSocketServer.java:41 | the value of a name is the value on the last line that names it |
| Handshake.FirstBlank | src/WebSocketServer.java:38 | the position found is the first empty line: the lines before it are not empty, and None means no line is |
| Handshake.FirstBlankSkips | src/WebSocketServer.java:38 | lines that are not empty do not change where the first empty line is |
| Handshake.ReadStep | src/WebSocketServer.java:38-43 | one turn of the header loop extends the map by the line it reads |
| Handshake.SectionAt | src/WebSocketServer.java:38-43 | where the header loop stops decides the header section, or that the lines ran out first |
| Handshake.ReadHeaders | src/WebSocketServer.java:37-43 | the header loop builds the map of the lines up to the first empty one, and None when the lines end first |
| Handshake.Negotiate | src/WebSocketServer.java:30-56 | defines the handshake's four outcomes: not a request, headers cut short, the page, or the upgrade with its accept key (no contract) |
| Handshake.NegotiateRequest | src/WebSocketServer.java:30-56 | `handleClient`'s GET test, header loop and key lookup decide as `Negotiate` does |
| Handshake.RequestSection | src/WebSocketServer.java:37-43 | a request line, header lines that are not empty and an empty line give the map of those header lines |
| Handshake.NegotiateUpgrades | src/WebSocketServer.java:30-56 | a GET request with a key line is upgraded, with the accept key of the last key line |
| Handshake.NegotiatePage | src/WebSocketServer.java:45-51 | a GET request without a key line gets the page |
| Handshake.NegotiateNeedsGet | src/WebSocketServer.java:30-35 | a connection is treated as a request at all exactly when it has a first line and that line contains `GET` |
| Handshake.NegotiateCut | src/WebSocketServer.java:38 | a GET request whose lines end before an empty line is closed without a reply |
| Handshake.AcceptKey | src/WebSocketServer.java:54-56 | defines Base64 of the digest of the UTF-8 bytes of key + GUID (no contract) |
| Handshake.AcceptKeyShape | src/WebSocketServer.java:54-56 | a 20-byte digest gives a 28-char accept key, ending in exactly one `=`, that decodes back to the digest |
| Handshake.DigestKey | src/WebSocketServer.java:55-56 | the Base64 of 20 bytes has 28 chars, one pad char, and decodes back |
| Handshake.AcceptKeyTrimmed | src/WebSocketServer.java:55-61 | the accept key has no white space, so a header parser's `trim()` keeps it whole |
| Handshake.ParseField | src/WebSocketServer.java:58-61 | a header line written as `name: value` reads back as that name and value |
| Handshake.ParseLine | src/WebSocketServer.java:39-41 | a line whose first colon follows `name` and whose rest is a space and `value` parses as `(name, value)` |
| Handshake.FieldColon | src/WebSocketServer.java:58-61 | the first colon of a written header line is right after the name |
| Handshake.FieldSides | src/WebSocketServer.java:58-61 | a written header line is the name, a colon and a space, then the value |
| Handshake.HeaderMapThree | src/WebSocketServer.java:37-43 | three header lines give the map of their three names and values |
| Handshake.AcceptLine | src/WebSocketServer.java:61 | the `Sec-WebSocket-Accept` line reads back with the accept key whole |
| Handshake.SwitchingResponse | src/WebSocketServer.java:58-63 | defines the 101 reply as the UTF-8 bytes of its head (no contract); partners SwitchingText and SwitchingFieldsParse |
| Handshake.HeadThree | src/WebSocketServer.java:58-61 | a head with three fields is the status line, the three field lines, each closed by CRLF, then the empty line |
| Handshake.SwitchingText | src/WebSocketServer.java:58-63 | the 101 reply is, byte for byte, the UTF-8 of the status line, `Upgrade: websocket`, `Connection: Upgrade`, `Sec-WebSocket-Accept: ` + key, then the empty line |
| Handshake.SwitchingFieldsParse | src/WebSocketServer.java:58-61 | read with the same header parser, the 101 reply carries exactly its three upgrade fields |
| Handshake.SwitchingNamesAccept | src/WebSocketServer.java:54-61 | the 101 reply names the accept key the handshake computed |
| Handshake.DecimalTrimmed | src/WebSocketServer.java:283 | a decimal length has no colon and no white space |
| Handshake.LengthLine | src/WebSocketServer.java:283 | the Content-Length line reads back with the length's digits |
| Handshake.OkFieldsParse | src/WebSocketServer.java:281-284 | the 200 head carries exactly its Content-Type, Content-Length and Connection fields |
| Handshake.OkLength | src/WebSocketServer.java:283 | the declared Content-Length reads back, with `parseInt`, as the length |
| Handshake.OkResponse | src/WebSocketServer.java:281-287 | defines the 200 response as the head with the page's byte length followed by the page (no contract) |
| Handshake.OkResponseSplit | src/WebSocketServer.java:281-287 | the 200 response is the head followed by the page's UTF-8 bytes |
| Handshake.OkResponseFraming | src/WebSocketServer.java:281-287 | the page follows the head and is exactly as long as the Content-Length it declares |
| FrameCodec.LengthField | src/WebSocketServer.java:183-201 | the length field of a server frame never sets the mask bit |
| FrameCodec.EncodeFrame | src/WebSocketServer.java:174-211 | defines the server frame: 0x81, the length field, the payload (no contract); partners CreateFrame, ServerFrameRoundTrip, EncodeFrameIsClientLayout |
| FrameCodec.ParseLength | src/WebSocketServer.java:184-201 | a reference length reader per RFC 6455 section 5.2 for 7-, 16- and 64-bit lengths, against which the writer's length field is checked; the source's own reader, which throws on code 127, is DecodeStep (no contract); partner LengthFieldRoundTrip |
| FrameCodec.CreateFrame | src/WebSocketServer.java:174-211 | `createWebSocketFrame`, byte by byte, builds `EncodeFrame` |
| FrameCodec.BigEndianTwo | src/WebSocketServer.java:188-189 | the two length bytes of a medium frame read back big-endian as the length |
| FrameCodec.BigEndianSnoc | src/WebSocketServer.java:112 | one more byte shifts a big-endian number by 8 bits |
| FrameCodec.BigEndianZeros | src/WebSocketServer.java:193-196 | four zero bytes read as 0 |
| FrameCodec.BigEndianEight | src/WebSocketServer.java:191-200 | the 8-byte length of a long frame reads back big-endian as the length |
| FrameCodec.LengthFieldRoundTrip | src/WebSocketServer.java:183-201 | the length field written reads back, under RFC 6455 section 5.2, as the length, whatever follows |
| FrameCodec.LengthFieldMinimal | src/WebSocketServer.java:184-201 | the encoder uses the 1-, 3- or 9-byte field exactly for lengths below 126, below 65536, and above |
| FrameCodec.Take | src/WebSocketServer.java:130 | a read gets the requested bytes or all that remain, in stream order |
| FrameCodec.Zeros | src/WebSocketServer.java:120 | a fresh array has the requested length |
| FrameCodec.ZerosAll | src/WebSocketServer.java:127 | an array all of whose bytes are 0 is a fresh array |
| FrameCodec.Padded | src/WebSocketServer.java:127-133 | the payload array keeps its announced length however little arrives |
| FrameCodec.Mask | src/WebSocketServer.java:137-139 | masking keeps the length |
| FrameCodec.Unmasked | src/WebSocketServer.java:136-140 | the unmasked payload keeps the length |
| FrameCodec.MaskInvolution | src/WebSocketServer.java:136-140 | unmasking with the key undoes the client's masking (RFC 6455 section 5.3) |
| FrameCodec.Overlay | src/WebSocketServer.java:111 | a read into the buffer keeps the buffer's length |
| FrameCodec.OverlayPadded | src/WebSocketServer.java:129-133 | a read into the unfilled part of the payload array extends what it holds |
| FrameCodec.OverlayWindow | src/WebSocketServer.java:92 | a read into bytes 0..3 of the buffer changes nothing beyond them |
| FrameCodec.ExtendedLength | src/WebSocketServer.java:112 | the 16-bit extended length is below 65536 |
| FrameCodec.DecodeStep | src/WebSocketServer.java:90-143 | one loop turn: the end of the stream exactly when nothing remains; otherwise it consumes input, a close frame at most its two header bytes, and a message has a payload under 64 KiB and a 4-byte key |
| FrameCodec.DecodeHeader | src/WebSocketServer.java:95-117 | the dispatch on the first two bytes: a close frame consumes nothing more |
| FrameCodec.DecodeExtended | src/WebSocketServer.java:110-113 | length code 126 always leads to a message |
| FrameCodec.DecodeBody | src/WebSocketServer.java:119-143 | the body read yields a message with exactly the announced payload length and leaves bytes 0..3 of the buffer as they were |
| FrameCodec.ByteStream.constructor | src/WebSocketServer.java:87 | the stream starts at the first byte |
| FrameCodec.ByteStream.Read | src/WebSocketServer.java:92 | `read(buf, off, len)` copies the next bytes into `buf` from `off` on, returns their number or -1, and leaves every other byte alone |
| FrameCodec.Unmask | src/WebSocketServer.java:136-140 | the in-place loop xors every payload byte with key byte `i % 4`, leaving `Mask` of the old payload |
| FrameCodec.ReadFrame | src/WebSocketServer.java:90-143 | one turn of `handleWebSocketMessages`, over the stream and the reused buffer, is `DecodeStep` |
| FrameCodec.ReadHeader | src/WebSocketServer.java:95-117 | the rest of the turn after the two-byte read is `DecodeHeader` |
| FrameCodec.ReadExtended | src/WebSocketServer.java:110-113 | the extended-length read is `DecodeExtended` |
| FrameCodec.ReadBody | src/WebSocketServer.java:119-143 | the key, payload and unmasking reads are `DecodeBody` |
| FrameCodec.ReadKey | src/WebSocketServer.java:120-124 | `new byte[4]`, filled by one read when the mask bit is set |
| FrameCodec.ReadPayload | src/WebSocketServer.java:127-133 | the fill loop stops when the payload is full or the stream ends, leaving zeros after what arrived |
| FrameProperties.ClientHeader | src/WebSocketServer.java:95-113 | a frame header is 2 bytes below 126 bytes of payload and 4 bytes from 126 on |
| FrameProperties.ClientBody | src/WebSocketServer.java:119-133 | a frame body is the optional 4-byte key followed by the payload |
| FrameProperties.ClientFrame | src/WebSocketServer.java:90-143 | a client frame is its header followed by its body |
| FrameProperties.ShortHeader | src/WebSocketServer.java:100-101 | a short header holds the mask bit and the length in the second byte |
| FrameProperties.MediumHeader | src/WebSocketServer.java:110-112 | a medium header holds length code 126 and the 16-bit length |
| FrameProperties.DecodeClientBody | src/WebSocketServer.java:119-143 | a well-formed body reads back as its key and its unmasked payload |
| FrameProperties.DecodeStepHeader | src/WebSocketServer.java:92-96 | the first two bytes land in bytes 0 and 1 of the buffer |
| FrameProperties.DecodeShortHeader | src/WebSocketServer.java:101-117 | below 126 the body follows the two header bytes directly |
| FrameProperties.DecodeMediumHeader | src/WebSocketServer.java:110-113 | with code 126 the length is bytes 2 and 3 of the buffer |
| FrameProperties.FrameSlices | src/WebSocketServer.java:90-143 | a frame in the stream is its header, then its body |
| FrameProperties.ShortFrameBytes | src/WebSocketServer.java:95-101 | what a short frame puts in the stream, byte by byte |
| FrameProperties.MediumFrameBytes | src/WebSocketServer.java:95-113 | what a medium frame puts in the stream, byte by byte |
| FrameProperties.DecodeShortFrame | src/WebSocketServer.java:90-143 | a short client frame is read as sent |
| FrameProperties.ShortFrameHeader | src/WebSocketServer.java:92-117 | the header step of a short frame |
| FrameProperties.ShortFrameBody | src/WebSocketServer.java:119-143 | the body step of a short frame |
| FrameProperties.DecodeMediumFrame | src/WebSocketServer.java:90-143 | a medium client frame is read as sent |
| FrameProperties.MediumFrameHeader | src/WebSocketServer.java:92-117 | the header step of a medium frame |
| FrameProperties.MediumFrameBody | src/WebSocketServer.java:119-143 | the body step of a medium frame |
| FrameProperties.DecodeClientFrame | src/WebSocketServer.java:90-143 | any client frame under 64 KiB that is not a close frame is read as sent, when each read returns all it asks for: FIN, opcode, mask bit, key and unmasked payload, with the stream then at the next frame |
| FrameProperties.EncodeFrameIsClientLayout | src/WebSocketServer.java:174-211 | under 64 KiB the server's frame is the unmasked final text frame of RFC 6455 section 5.2 |
| FrameProperties.ServerFrameRoundTrip | src/WebSocketServer.java:90-143 | the reader reads a server frame under 64 KiB back as a final text frame with that payload |
| FrameProperties.LargeServerFrameRefused | src/WebSocketServer.java:114-117 | the reader refuses every server frame of 64 KiB or more |
| FrameProperties.CloseFrameStops | src/WebSocketServer.java:104-106 | a close frame ends the loop after its two header bytes, whatever its length and mask |
| FrameProperties.LongLengthRefused | src/WebSocketServer.java:114-117 | length code 127 in a frame other than a close frame ends the reading |
| FrameProperties.TruncatedPayloadPadded | src/WebSocketServer.java:129-133 | an unmasked payload the stream ends inside is passed on zero-padded, and the next turn finds the end of the stream |
| FrameProperties.TruncatedMaskedPadded | src/WebSocketServer.java:119-139 | a masked payload the stream ends inside is passed on as the unmasking of what arrived plus zero padding, and the next turn finds the end of the stream |
| FrameProperties.MaskedPadding | src/WebSocketServer.java:137-139 | unmasking a zero-padded payload gives the unmasked bytes that arrived, then key byte `i % 4` at each padded index `i` |
| FrameProperties.TruncatedFrame | src/WebSocketServer.java:127-133 | a cut-short short frame gives what arrived, then zeros |
| FrameProperties.TruncatedHeader | src/WebSocketServer.java:92-117 | the header step of a cut-short frame |
| FrameProperties.TruncatedBody | src/WebSocketServer.java:127-133 | the body step of a cut-short frame |
| WebSocketServer.Appended | src/WebSocketServer.java:160 | writing frames to some sockets keeps the set of logs |
| WebSocketServer.Added | src/WebSocketServer.java:67 | defines `clients.add` with an empty log for a new socket (no contract); partner AddedCoherent |
| WebSocketServer.Removed | src/WebSocketServer.java:77-78 | defines `clients.remove` then `close` (no contract); partner RemovedCoherent |
| WebSocketServer.Broadcasted | src/WebSocketServer.java:151-172 | defines the broadcast: every member gets the frame, and failing members are removed and closed (no contract); partner BroadcastedMembers |
| WebSocketServer.BroadcastedStep | src/WebSocketServer.java:157-170 | one more socket written to: its log grows, and if its write fails it is removed and closed |
| WebSocketServer.BroadcastedAll | src/WebSocketServer.java:156-171 | once every member is written to, that is the whole broadcast |
| WebSocketServer.AddedCoherent | src/WebSocketServer.java:67 | registering an open socket keeps the registry coherent; the set gains it, and adding twice changes nothing |
| WebSocketServer.RemovedCoherent | src/WebSocketServer.java:77-78 | removing keeps the registry coherent, drops the socket, and a second removal changes nothing |
| WebSocketServer.BroadcastedMembers | src/WebSocketServer.java:151-172 | a broadcast removes and closes exactly the failing members, keeps every other member, and grows each member's log by the frame |
| WebSocketServer.AppendedTwice | src/WebSocketServer.java:160 | two rounds of writes are one write of both frames, in order |
| WebSocketServer.Run | src/WebSocketServer.java:86-149 | defines the message loop frame by frame, with its exit and the broadcast count (no contract); partners RunShrinks, RunEchoes, RunClose, RunTooLong |
| WebSocketServer.RunShrinks | src/WebSocketServer.java:86-149 | the message loop never registers a socket, only removes and closes them, only appends to logs, and keeps the registry coherent |
| WebSocketServer.RunTooLong | src/WebSocketServer.java:114-117 | a frame with length code 127 ends the connection with nothing broadcast |
| WebSocketServer.RunClose | src/WebSocketServer.java:104-106 | a close frame ends the connection with nothing broadcast |
| WebSocketServer.AppendedStep | src/WebSocketServer.java:160 | one more socket handed the frames |
| WebSocketServer.AppendedNothing | src/WebSocketServer.java:160 | handing no frames changes no log |
| WebSocketServer.DecodeTextFrame | src/WebSocketServer.java:90-143 | a final masked text frame in the stream is decoded as such, leaving the stream after it |
| WebSocketServer.TextsCons | src/WebSocketServer.java:90-143 | a run of client messages is the first frame followed by the others |
| WebSocketServer.FirstText | src/WebSocketServer.java:90-143 | the first message of a run decodes as a final text frame; the rest of the run follows |
| WebSocketServer.RunEcho | src/WebSocketServer.java:143-147 | while no write fails, any frame read as a message, whatever its opcode or FIN bit, is echoed to every registered socket as a final text frame, and the loop goes on |
| WebSocketServer.TextsEchoable | src/WebSocketServer.java:90-148 | a stream of masked text frames ended by a close frame is read frame by frame as those messages |
| WebSocketServer.RunEchoes | src/WebSocketServer.java:86-149 | while every write succeeds, each message is echoed to every registered socket, the sender included, in order, and the loop stops at the close frame with the same members |
| WebSocketServer.Session | src/WebSocketServer.java:24-84 | every connection ends removed and closed; a connection that is not upgraded, or whose 101 reply cannot be written, changes nothing else |
| WebSocketServer.SessionUnregistered | src/WebSocketServer.java:31-73 | a connection that is not upgraded, or whose 101 reply write throws, is never registered: the other members and every log are unchanged |
| WebSocketServer.SessionShrinks | src/WebSocketServer.java:24-84 | whatever the input, a session registers no other socket, only appends to logs, and keeps the registry coherent |
| WebSocketServer.SessionUpgraded | src/WebSocketServer.java:53-77 | an upgraded session writes the 101 reply; it ends with the loop's registry minus the socket, or, when the write throws, with the registry it started from minus the socket |
| WebSocketServer.ChatSession | src/WebSocketServer.java:24-172 | a whole chat: the 101 reply for the last key, every message echoed in order to every member and the sender, then the client removed and closed at the close frame |
| WebSocketServer.Hub.constructor | src/WebSocketServer.java:7 | the registry starts empty |
| WebSocketServer.Hub.Add | src/WebSocketServer.java:67 | `clients.add(socket)` |
| WebSocketServer.Hub.Remove | src/WebSocketServer.java:77-78 | `clients.remove(socket)`, then `socket.close()` |
| WebSocketServer.Hub.Broadcast | src/WebSocketServer.java:151-172 | the loop over the set, with `iterator.remove()` on a failed write, leaves the registry `Broadcasted` describes |
| WebSocketServer.Hub.MessageLoop | src/WebSocketServer.java:86-149 | the message loop, frame by frame with broadcast, leaves the registry and exit `Run` describes |
| WebSocketServer.Hub.HandleClient | src/WebSocketServer.java:24-84 | `handleClient` writes the reply and leaves the registry `Session` describes |
| LineServer.SelectPort | src/Server.java:10-28 | a parseable first argument is the port; an unparseable one gives 8888 without reading PORT; with no arguments, a non-empty parseable PORT is the port, otherwise 8888; the port is a 32-bit int |
| LineServer.RemoveFirst | src/Server.java:103 | `List.remove(Object)` never lengthens the list |
| LineServer.RemoveFirstAbsent | src/Server.java:103 | removing a writer that is not in the list changes nothing |
| LineServer.RemoveFirstAfter | src/Server.java:176 | removal takes out the first occurrence and keeps the order of the rest |
| LineServer.RemoveFirstDistinct | src/Server.java:103 | in a list without duplicates, removal takes out exactly that writer and keeps the list free of duplicates |
| LineServer.Kept | src/Server.java:171-183 | the survivors of a broadcast are never more than the copy |
| LineServer.KeptMembers | src/Server.java:171-183 | exactly the writers whose send failed leave the list; every other writer stays |
| LineServer.KeptConcat | src/Server.java:171-183 | the survivors keep their relative order |
| LineServer.KeptDistinct | src/Server.java:171-183 | the survivors have no duplicates |
| LineServer.KeptNone | src/Server.java:171-183 | when no send fails, the list is unchanged |
| LineServer.Printed | src/Server.java:173 | printing to some writers keeps the set of logs |
| LineServer.PrintedStep | src/Server.java:173 | one more writer of the copy gets the message |
| LineServer.PrintedTwice | src/Server.java:173 | two broadcasts to the same writers hand them both messages, in order |
| LineServer.PrintedNothing | src/Server.java:173 | no messages change no log |
| LineServer.Left | src/Server.java:101-105 | defines the `finally` removal of the writer (no contract); partner LeftSound |
| LineServer.Told | src/Server.java:81 | defines `println` to one writer (no contract) |
| LineServer.Spread | src/Server.java:164-185 | defines the broadcast over the copy (no contract); partners SpreadMembers and LineHub.Broadcast |
| LineServer.Joined | src/Server.java:76 | `clients.add(out)` puts the writer at the end of the list |
| LineServer.JoinedSound | src/Server.java:76 | adding a new writer keeps the list free of duplicates |
| LineServer.LeftSound | src/Server.java:101-105 | the `finally` removal drops exactly that writer, keeps the list sound, and a second removal changes nothing |
| LineServer.SpreadMembers | src/Server.java:164-185 | a broadcast removes exactly the failing writers and keeps the others; each listed writer gets the message once, and no other log changes |
| LineServer.SpreadToStart | src/Server.java:169 | before the loop nothing has changed |
| LineServer.SpreadToAll | src/Server.java:171-183 | after the whole copy, that is the broadcast |
| LineServer.SpreadStep | src/Server.java:172-182 | the i-th writer of the copy gets the message, and is removed from the list if its send failed |
| LineServer.StepClients | src/Server.java:175-176 | the list half of one loop turn: the first occurrence removed is that writer's place in the list |
| LineServer.Post | src/Server.java:84-86 | defines what one line read broadcasts: `Client: ` + line unless it is blank (no contract); partner PostBlank |
| LineServer.Posts | src/Server.java:84-95 | defines the broadcasts of all the lines, in order (no contract); partners PostsConcat, PostsStep |
| LineServer.SpreadAll | src/Server.java:84-95 | defines a run of broadcasts, the k-th with its own failures (no contract); partners SpreadAllShrinks, SpreadAllFaultless |
| LineServer.PostBlank | src/Server.java:84-86 | a line is broadcast exactly when it is not all white space, as `Client: ` + line |
| LineServer.PostsConcat | src/Server.java:89-95 | the broadcasts of successive stretches of lines follow each other in arrival order |
| LineServer.PostsStep | src/Server.java:90-94 | one more line read adds that line's broadcast at the end |
| LineServer.SpreadAllConcat | src/Server.java:84-95 | two runs of broadcasts one after the other are one run |
| LineServer.SessionStep | src/Server.java:90-94 | one more loop turn: the roster after the broadcasts so far, then this line's, is the roster after both runs together |
| LineServer.SpreadAllShrinks | src/Server.java:84-95 | broadcasts never list a new writer, keep the list sound, and only append to logs |
| LineServer.SpreadAllFaultless | src/Server.java:84-95 | when no send fails, every listed writer gets every message, in order, and the list is unchanged |
| LineServer.HttpReply | src/Server.java:128-157 | the HTTP reply is the 200 head followed by the page, or nothing when building the page threw |
| LineServer.OkHeadText | src/Server.java:129-131 | the head is the status line and the Content-Type line, each closed by CRLF, then the empty line |
| LineServer.OkHeadParse | src/Server.java:130 | read back by the header parser, the head carries the one Content-Type field |
| LineServer.IsHttp | src/Server.java:69 | defines the GET/HEAD dispatch test (no contract) |
| LineServer.Chat | src/Server.java:50-162 | defines `handleClient`: no line, an HTTP request, or the chat, each ending with the writer removed (no contract); partners ChatUnregistered, ChatRemoves, ChatEchoes |
| LineServer.ChatUnregistered | src/Server.java:59-72 | a connection closed before its first line, or a GET/HEAD request, is never registered and leaves the list as it was |
| LineServer.ChatRemoves | src/Server.java:99-105 | whatever the lines and failures, the writer is not listed afterwards, no writer is newly listed, and logs are only appended to |
| LineServer.ChatEchoes | src/Server.java:75-95 | with no failed send: the welcome counts the clients with the newcomer, every non-blank line (the first included) goes in order to every listed writer and the sender, and afterwards the list is as before |
| LineServer.FaultlessSession | src/Server.java:75-105 | the roster after a faultless chat session, field by field |
| LineServer.PrintedWelcome | src/Server.java:81 | the newcomer's log starts with the welcome; the others only gain the broadcasts |
| LineServer.SkimHeaders | src/Server.java:123-125 | the header loop reads up to and including the first empty line, or to the end of the lines |
| LineServer.LineHub.constructor | src/Server.java:6 | the list starts empty |
| LineServer.LineHub.Add | src/Server.java:75-77 | `clients.add(out)` |
| LineServer.LineHub.Remove | src/Server.java:101-105 | `clients.remove(out)` |
| LineServer.LineHub.Tell | src/Server.java:81 | `out.println(welcome)` |
| LineServer.LineHub.Hand | src/Server.java:172-182 | `println`, then `remove` if `checkError()` reports a failure |
| LineServer.LineHub.Broadcast | src/Server.java:164-185 | the loop over a copy of the list leaves the roster `Spread` describes |
| LineServer.LineHub.Relay | src/Server.java:84-86 | a line that is not blank is broadcast as `Client: ` + line; a blank one changes nothing |
| LineServer.LineHub.Converse | src/Server.java:75-95 | joining at the end of the list, the welcome with the new size, and relaying every line leave the roster `SpreadAll` describes |
| LineServer.LineHub.RelayRest | src/Server.java:89-95 | the reading loop relays every further line in arrival order |
| LineServer.LineHub.HandleClient | src/Server.java:50-115 | `handleClient` prints the reply and leaves the roster `Chat` describes |

## Left out

- Threads, `synchronized`, and the concurrent set and list. The model follows one connection at a time. The other live connections are the members already in the registry.
- Sockets and the accept loop of both `main` methods. The lines and bytes a client sends are finite sequences given in advance, and reads and writes are modelled on them, not on a live socket.
- FrameCodec.ByteStream.Read: each read returns everything requested that remains in the stream (`FrameCodec.Take`). A socket's `InputStream.read(buf, off, len)` may return fewer bytes while more are still coming. The source loops only for the payload (src/WebSocketServer.java:129-133). A short read at the header read (:92), the extended-length read (:111) or the key read (:122) would leave stale buffer bytes or zero key bytes, and the frame would be misread. The model does not show this, and `FrameProperties.DecodeClientFrame` holds only for full reads.
- The port check of WebSocketServer's `main` (src/WebSocketServer.java:11), a one-line ternary that throws on an unparseable argument.
- All logging to standard output and standard error.
- SHA-1 is the parameter `digest`. The model proves nothing about the digest beyond its length.
- Both HTML pages are parameters. The line server's page embeds the number of clients, the host name and `PORT`; those are not modelled, because the page is opaque to the protocol.
- `BufferedReader` read-ahead under WebSocketServer's frame reader. After the handshake, the frame reader sees the stream `data`, as if `readLine` had buffered nothing beyond the empty line.
- The payload's UTF-8 decoding and its re-encoding by `getBytes()` in the default charset (src/WebSocketServer.java:143, 175). Both are taken as the identity on bytes.
- Integer.parseInt accepts only ASCII digits, not the other Unicode digits Java accepts.
- Strings are sequences of Unicode code points, not of Java's UTF-16 code units. A char outside the Basic Multilingual Plane is one char here where Java holds two. `Text.Utf8` therefore counts 1 to 4 bytes per code point, where a Java char gives 1 to 3. No behaviour of the two servers depends on this.
- A `readLine` that throws an IOException is modelled as the end of the lines. In `handleHttpRequest` it also skips the page. The parameter `html = None` stands for that case and for a failed host-name lookup.
- WebSocketServer.Hub.Broadcast: the iteration order over the set is left open. The model states the result, which does not depend on the order.
- LineServer.LineHub.Broadcast: the sticky error flag of PrintWriter is not tracked. A send fails when its writer is in that broadcast's `failing` set, so any run of failures, sticky ones included, is one choice of `failing`.
- A failed welcome `println` is seen only by the next broadcast's `checkError()`, which the `failing` set of that broadcast covers.
- Partial writes and flush timing on the output streams.

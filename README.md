# WebREPL client connection, modelled in Dafny

This project models `WebsocketConnection`, the client object of the MicroPython WebREPL
JavaScript library (`index.js`). The client talks to a board over a WebSocket. It sends
text for the REPL, and it sends binary records for file transfer. The model covers four parts.

- **The file-transfer record** (`Frame.dfy`). This is the 82-byte `"<2sBBQLH64s"` header
  that `loadFile` and `writeFile` build index by index. It consists of:
  - the magic `WA`;
  - the opcode (1 = put, 2 = get);
  - nine zero bytes;
  - the little-endian 32-bit size;
  - the 16-bit name length;
  - a 64-byte name field.

  The same file also holds the `WB` status reply that `_decodeResp` reads, and the two-byte
  length prefix of a downloaded chunk. The builders are methods over `array<byte>`.
  `ParseRecord` reads a record back, and the round-trip lemmas show that every field can be
  recovered, reduced modulo its width.
- **The transfer state machine** (`Transfer.dfy`, `Client.dfy`). `_handleMessage` has the
  states 0 (idle), 11/12 (put), 21/22/23 (get) and 31 (GET_VER).
  - `Transfer.OnBinary` is the `switch` as a function of the state, the two buffers and the
    frame. `Transfer.Feed` runs it over a sequence of frames.
  - `Client.WebsocketConnection.HandleMessage` is the imperative method over the object's
    fields, proved equal to it.
  - The socket is replaced by `sent`, the trace of messages handed to `ws.send`. The event
    emitter is replaced by `emitted`, the trace of `emit` calls.
- **The pacing schedule of `execute`** (`Schedule.dfy`). The code is split on `\n`. A line
  shorter than 80 units is sent with `\n` at delay `t + |line|`. A longer line takes
  `ceil(|line| / 80)` timers 80 ms apart, each sending `line.substr(j * 1024, 1024)`.
  Completion comes 100 ms after the last timer. `Schedule.Pace` computes the list of
  (delay, payload) pairs and the completion delay. `Client.WebsocketConnection.Execute`
  sends them in timer order between entering and leaving raw mode.
- **The UTF-8 decoder `_Utf8ArrayToStr`** (`Utf8.dfy`). It handles the 1-, 2- and 3-byte
  forms of RFC 3629 section 3. It validates nothing, and it skips any byte that is neither
  ASCII nor a 2- or 3-byte lead. `Utf8.Decode` is the decoder as a function.
  `Utf8.Utf8ArrayToStr` is the `while` loop, proved equal to it. `Utf8.Encode` is an
  independent encoder, and decoding is shown to invert it. `Encode` applies the 1-3 byte
  layout to each UTF-16 code unit on its own. That is UTF-8 for characters in the Basic
  Multilingual Plane, but not for surrogates. A character outside that plane arrives from
  the board as a 4-byte UTF-8 sequence. No case of the decoder matches any of its bytes, so
  the character vanishes from a downloaded file (`Utf8.FourByteSequenceVanishes`).

JavaScript semantics are written out where the source relies on them:
- An index past the end of a `Uint8Array` reads `undefined`, which the bit operators turn
  into 0 (`Bytes.ByteAt`).
- Storing `charCodeAt` into a `Uint8Array` keeps the low byte (`Bytes.LowByte`).
- `(n >> k) & 0xff` on the file size gives the size modulo 2^32.
- Strings are sequences of UTF-16 code units (`Bytes.JsString`). The decoder can produce
  lone surrogates.

Three consequences of the code as written are proved as lemmas rather than corrected:
- `Schedule.MidLengthLineSlices`: the long-line branch counts its timers with 80 but slices
  with 1024. A line of 80 to 1024 units therefore goes out whole in the first timer, and the
  remaining timers send empty strings.
- `Schedule.ExecuteDelivers`: a long line is sent without its `\n`. So the device receives
  exactly the code plus a final newline only when no line has 80 units or more; otherwise
  each long line runs into the next one.
- `Transfer.NonAsciiDoesNotSurvive`: `writeFile` keeps only the low byte of each code unit,
  and the get path decodes the stored bytes as UTF-8. So a put followed by a get returns the
  text unchanged exactly when the text is ASCII (`Transfer.GetReturnsStored`). For example,
  "é!" comes back as the single unit 0x9840, and "€" comes back empty
  (`Transfer.LatinOneRoundTripBreaks`).

## Model

| member | source | states |
|---|---|---|
| Bytes.ByteAt | index.js:209-210 | a `Uint8Array` read: the byte, or 0 past the end, as `undefined` turns into 0 under the bit operators |
| Bytes.LowByte | index.js:170 | a store into a `Uint8Array` keeps the low 8 bits of the code unit |
| Frame.BuildRecord | index.js:138-152 | the 82-byte array filled index by index equals `Record(op, size, path)`, the header followed by the name field |
| Frame.SizeField | index.js:184 | the four size bytes `n & 0xff` to `(n >> 24) & 0xff`; `Frame.SizeFieldRoundTrip` proves they read back as the size modulo 2^32 |
| Frame.NameLengthField | index.js:185 | the two name-length bytes `n & 0xff` and `(n >> 8) & 0xff`, the same as at index.js:145 for the get record; `Frame.NameLengthRoundTrip` proves they read back as the length modulo 2^16 |
| Frame.Header | index.js:139-145 | the 18 header bytes: `WA`, the opcode, nine zeros, the size field and the name-length field |
| Frame.NameField | index.js:146-152 | the 64-byte name field: the low byte of each of the path's first 64 units, then zeros |
| Frame.Record | index.js:138-152 | the whole 82-byte record, header then name field |
| Frame.FillHeader | index.js:139-145 | after the writes, bytes 0-17 are the header and bytes 18-81 are as they were |
| Frame.FillMagic | index.js:139-143 | bytes 0-11 become `WA`, the opcode and nine zeros; bytes 12-81 are unchanged |
| Frame.FillSize | index.js:184 | bytes 12-15 become the size field; every other byte is unchanged |
| Frame.FillNameLength | index.js:185 | bytes 16-17 become the name-length field; every other byte is unchanged |
| Frame.FillNameField | index.js:146-152 | the 64-step loop leaves bytes 0-17 untouched and makes bytes 18-81 the low bytes of the path's first 64 units, padded with zeros |
| Frame.ContentBytes | index.js:168-171 | the buffer filled from `charCodeAt` holds the low byte of every unit of the content, one per unit |
| Frame.ParseRecord | index.js:137 | a record is accepted exactly when it is 82 bytes starting with `WA`; the size it reads is below 2^32 and the name length below 2^16 |
| Frame.RecordLayout | index.js:178-192 | every field of the record sits at its offset: magic, opcode, zero bytes 3-11, size in 12-15, name length in 16-17, name in 18-81 |
| Frame.GetRecordHasNoSize | index.js:144 | the get record's size bytes are all zero |
| Frame.SizeFieldRoundTrip | index.js:184 | the four shifted-and-masked size bytes read back little-endian as the size modulo 2^32 |
| Frame.NameLengthRoundTrip | index.js:185 | the two name-length bytes read back as the length modulo 2^16 |
| Frame.RecordRoundTrip | index.js:137-152 | parsing a built record gives back the opcode, the size mod 2^32, the name length mod 2^16 and the name field |
| Frame.NameFieldTruncates | index.js:186-192 | a path of at most 64 units is stored whole and zero-padded; a longer one is cut to its first 64 units |
| Frame.LowBytesRoundTrip | index.js:168-171 | content whose units are all below 256 is recovered exactly from its bytes |
| Frame.DecodeResp | index.js:208-215 | the result is -1 exactly when the frame does not start with `WB`, and otherwise a 16-bit status in 0..65535 |
| Frame.StatusRoundTrip | index.js:208-211 | a `WB` reply carrying a status reads back as that status, whatever follows it |
| Frame.DecodeRespPrefix | index.js:209-210 | only the first four bytes matter, and a bare `WB` frame reads as status 0 because the missing bytes count as 0 |
| Frame.ChunkLength | index.js:250 | the length prefix of a chunk is a 16-bit value |
| Frame.ChunkFrameRoundTrip | index.js:250-251 | a chunk framed with its two-byte length reads back with that length and its payload after byte 2 |
| Utf8.Decode | index.js:297-329 | the decoded string is never longer than the byte input |
| Utf8.Utf8ArrayToStr | index.js:297-329 | the `while` loop returns exactly `Decode(bytes)` |
| Utf8.DecodeFrom | index.js:305-325 | one step of the decoder at position `i`, for each class of byte found there, with continuation bytes past the end read as 0 |
| Utf8.DecodeStep | index.js:305-325 | one pass of the loop advances by 1 to 3 bytes, and the unit it yields followed by the decoding of the rest is the decoding from its start |
| Utf8.DecodeAscii | index.js:308-311 | bytes below 0x80 decode one to one to the same code units |
| Utf8.DecodeConsumes | index.js:306-325 | an ASCII byte consumes one byte, a 0xC0-0xDF lead two, a 0xE0-0xEF lead three, and the bytes 0x80-0xBF and 0xF0-0xFF yield nothing |
| Utf8.TruncatedLeadReadsZeros | index.js:317-323 | a 3-byte lead at the end of the input reads its missing continuation bytes as 0 |
| Utf8.FourByteSequenceVanishes | index.js:306-325 | a 4-byte UTF-8 sequence (lead 0xF0-0xF7, three continuation bytes) decodes to nothing: the character is dropped |
| Utf8.TwoByteUnit | index.js:315 | the low five bits of the lead shifted by 6 and joined with the low six bits of the continuation byte, written as a sum since the bit fields are disjoint; `Utf8.TwoByteInverse` proves it rebuilds every unit 0x80-0x7FF |
| Utf8.ThreeByteUnit | index.js:321-323 | the low four bits of the lead shifted by 12 and the low six bits of each continuation byte shifted by 6 and 0, written as a sum since the bit fields are disjoint; `Utf8.ThreeByteInverse` proves it rebuilds every unit 0x800-0xFFFF |
| Utf8.TwoByteInverse | index.js:312-315 | the 2-byte form rebuilds every code unit 0x80-0x7FF from its RFC 3629 encoding |
| Utf8.ThreeByteInverse | index.js:317-323 | the 3-byte form rebuilds every code unit 0x800-0xFFFF from its RFC 3629 encoding |
| Utf8.DecodeEncodeUnit | index.js:304-325 | decoding the 1-3 byte encoding of one code unit, followed by any bytes, yields that unit and then the decoding of those bytes |
| Utf8.DecodeEncode | index.js:297-329 | decoding undoes the per-code-unit 1-3 byte encoding for every string of code units; for text in the Basic Multilingual Plane without surrogates that encoding is UTF-8 |
| Schedule.Split | index.js:67 | `split('\n')` always yields at least one line |
| Schedule.CeilDiv | index.js:79 | `Math.ceil(a / b)` on naturals |
| Schedule.CeilDivBounds | index.js:79 | the result is the least count of `b`-sized steps that reaches `a` |
| Schedule.Substr | index.js:82 | `String.prototype.substr(start, n)` |
| Schedule.SubstrSpec | index.js:82 | the result is the units from `start` on, in order; at most `n` of them, exactly `n` when the string is long enough, none when `start` is past the end |
| Schedule.LineSends | index.js:70-86 | the timers one line creates at running delay `t`: for a short line, one timer at `t` plus the line length sending the line and `\n`; for a long one, ceil(length / 80) timers 80 ms apart sending 1024-unit slices |
| Schedule.LineEnd | index.js:72-81 | the running delay after a line: `t` plus the line's length for a short line, and plus 80 per timer for a long line; `Schedule.LineSendsOrdered` proves the line's last timer fires at it |
| Schedule.EndOf | index.js:68-87 | the running delay `t` after a prefix of the lines |
| Schedule.SendsOf | index.js:68-87 | all timers of a prefix of the lines, in creation order |
| Schedule.Pace | index.js:65-91 | the outer loop produces exactly `SendsOf(Split(code))`, and the completion timer fires at the final running delay plus 100 |
| Schedule.PaceLongLine | index.js:79-85 | the inner loop produces exactly the long line's timers and leaves `t` at the line's end delay |
| Schedule.SplitJoin | index.js:67 | the lines, each followed by `\n`, are the code followed by `\n` |
| Schedule.SplitLinesHaveNoNewline | index.js:67 | no line of the split contains `\n` |
| Schedule.SendsOrdered | index.js:68-87 | timer delays never decrease in creation order, none exceeds the final running delay, and the last one equals it |
| Schedule.LineSendsOrdered | index.js:70-86 | a line schedules at least one timer, all no earlier than the running delay, in non-decreasing order, the last at the line's end delay |
| Schedule.CompletionAfterSends | index.js:88-90 | the completion timer fires 100 ms after the last send and strictly after every send |
| Schedule.LongLinePayloads | index.js:78-85 | the slices of a long line concatenate to exactly the line, because ceil(n / 80) slices of 1024 always reach its end |
| Schedule.SlicesCover | index.js:82 | the first k slices of 1024 concatenate to the line's first k * 1024 units, or to the whole line |
| Schedule.MidLengthLineSlices | index.js:79-82 | a line of 80 to 1024 units is sent whole by its first timer, and every later timer for it sends the empty string |
| Schedule.SendsDeliver | index.js:70-87 | all payloads concatenated are the lines, short ones followed by `\n` and long ones bare |
| Schedule.DeliveredText | index.js:72-86 | the delivered text is one unit shorter than the newline-terminated lines per long line, and equal to them when there is none |
| Schedule.ExecuteDelivers | index.js:65-91 | the device receives exactly the code plus `\n` when no line has 80 units or more, and strictly less text otherwise |
| Transfer.Chunks | index.js:224-226 | every slice is non-empty and at most 1024 bytes |
| Transfer.ChunksSpec | index.js:224-226 | there are ceil(length / 1024) slices and they concatenate to the data in order |
| Transfer.OnBinary | index.js:219-288 | the `switch (this.binaryState)` for one binary frame: new state, new download buffer, messages sent and events emitted |
| Transfer.Feed | index.js:216-289 | consecutive binary frames handled one after the other, their sends and events accumulated in order |
| Transfer.OnBinaryBuffer | index.js:219-288 | a frame only ever appends to the download buffer, only in state 22 and answered with `0x00`; only state 23 emits, and it returns to idle |
| Transfer.FeedKeepsBuffer | index.js:216-289 | over any run of frames the download buffer keeps what it held as a prefix |
| Transfer.KnownStatePreserved | index.js:219-288 | from any of the seven states a binary frame leads to one of them, and never to 31 |
| Transfer.PutFirstReply | index.js:220-229 | in state 11, status 0 sends the whole payload as slices of at most 1024 bytes that concatenate to it (none for an empty file) and moves to 12; any other reply changes nothing |
| Transfer.GetFirstReply | index.js:239-247 | in state 21, status 0 sends one `0x00` byte and moves to 22; any other reply changes nothing |
| Transfer.DownloadChunk | index.js:248-272 | in state 22, a well-framed non-empty chunk is appended whole and answered with `0x00`, an empty chunk moves to 23, and a length mismatch drops to 0 leaving the buffer untouched |
| Transfer.TerminalStates | index.js:230-287 | states 12, 23 and 31 return to 0 on any frame and send nothing; only 23 with status 0 emits, and what it emits is the decoded buffer |
| Transfer.IdleIgnoresFrames | index.js:219-288 | outside a transfer, any run of binary frames changes nothing and sends nothing |
| Transfer.DownloadEnds | index.js:250-255 | the empty chunk moves state 22 to 23 and sends nothing |
| Transfer.DownloadStep | index.js:250-267 | a non-empty well-framed chunk in state 22 is appended and answered with one `0x00`, staying in 22 |
| Transfer.DownloadAccumulates | index.js:248-272 | in state 22, non-empty chunks and then the empty chunk reach 23 with the payloads appended in arrival order and one `0x00` sent per chunk |
| Transfer.DownloadDelivers | index.js:239-282 | a complete get ends idle with the buffer equal to the concatenated chunks, one `0x00` per chunk plus one, and the decoded file as the only event |
| Transfer.PutSendsContent | index.js:220-238 | a put the device accepts twice sends the low bytes of the content as 1024-byte slices and ends idle |
| Transfer.GetReturnsStored | index.js:239-282 | a get that serves back the bytes a put stored ends idle with those bytes; the emitted text is their decoding, and it equals the content exactly when the content is ASCII |
| Transfer.NonAsciiDoesNotSurvive | index.js:168-171 | text with any unit of 0x80 or more does not come back: decoding its stored low bytes never gives the text |
| Transfer.LoneUnitDoesNotSurvive | index.js:306-325 | a single unit of 0x80 or more decodes from its low byte to something else, or to nothing |
| Transfer.NonAsciiHeadDoesNotSurvive | index.js:306-325 | a non-ASCII first unit followed by more units changes the decoding: it comes back as its low byte, or the decoding comes out shorter |
| Transfer.LatinOneRoundTripBreaks | index.js:168-171 | "é!" is stored as 0xE9 0x21 and decodes to the single unit 0x9840; "€" is stored as 0xAC and decodes to nothing |
| Transfer.AsciiSurvivesDownload | index.js:168-171 | ASCII content stored as low bytes decodes back to itself |
| Client.OnMessage | index.js:217-219 | a binary frame goes through the transfer switch; a text message leaves it alone |
| Client.LoginReply | index.js:291-292 | the password followed by `\r`, sent only for the exact text `Password: ` |
| Client.OnMessageText | index.js:290-294 | a text message leaves the transfer alone, and a binary frame never gets the login reply, since only text can equal `Password: ` |
| Client.WebsocketConnection.constructor | index.js:5-16 | a new connection is idle, with empty names and buffers and empty traces |
| Client.WebsocketConnection.Open | index.js:30-32 | the address and the password are kept |
| Client.WebsocketConnection.Evaluate | index.js:105-107 | the command is appended to what was sent |
| Client.WebsocketConnection.Stop | index.js:112-114 | sends `\r` CTRL-C |
| Client.WebsocketConnection.SoftReset | index.js:118-121 | sends `\r` CTRL-C and then `\r` CTRL-D |
| Client.WebsocketConnection.EnterRawRepl | index.js:333-335 | sends `\r` CTRL-A |
| Client.WebsocketConnection.ExitRawRepl | index.js:336-338 | sends `\r` CTRL-D `\r` CTRL-B in one message |
| Client.WebsocketConnection.ExecuteRaw | index.js:339-344 | sends the text, then a lone `\r` exactly when the text contains no `\n` |
| Client.WebsocketConnection.LoadFile | index.js:136-159 | sends the get record with size 0, clears the download buffer, keeps the path and waits in state 21 |
| Client.WebsocketConnection.WriteFile | index.js:165-197 | keeps the content's low bytes for the put, sends the put record declaring their number, and waits in state 11 |
| Client.WebsocketConnection.HandleMessage | index.js:216-296 | the new state, buffer and sends are those of the transfer function for a binary frame; the password prompt adds the password reply and `connected`; every message is then emitted as output |
| Client.WebsocketConnection.SendFileChunks | index.js:224-226 | the slicing loop sends exactly `Chunks(sendFileData)`, in order |
| Client.WebsocketConnection.Execute | index.js:54-100 | sends the raw-mode entry, every paced payload in timer order and the raw-mode exit; emits `\r\n` and a `.` per payload; exits at 60 ms plus the completion delay |
| Client.WebsocketConnection.SendPaced | index.js:74-84 | the fired timers send their payloads in order and emit one `.` each |
| Client.WebsocketConnection.ListFiles | index.js:125-131 | runs the fixed listing snippet through `execute` |
| Client.WebsocketConnection.RemoveFile | index.js:202-206 | runs `from os import remove` and `remove('<path>')` through `execute`, with the path pasted in unescaped |

## Left out

- The model assumes `open` has been called. Before it, `this.ws` is undefined, so `evaluate` (index.js:106) throws a TypeError. `stop`, `softReset`, `loadFile` and `writeFile` throw it to their caller. `loadFile` and `writeFile` throw after they have already set `binaryState` and their buffers. `execute` calls `evaluate` inside a Promise executor (index.js:58-59), which catches the error: `execute` returns a rejected promise and sends nothing. `listFiles` and `removeFile` drop that rejected promise. That error path is not modelled: `Evaluate` always appends to `sent`.
- websocketadapter.js is not part of this model. The socket becomes the `sent` trace, and inbound messages are the `Message` values handed to `HandleMessage`.
- `open`'s creation of the adapter and its `open`/`close` listeners (index.js:33-39) and `close` (index.js:44-49) are not modelled. Neither is the `disconnected` event they emit, because these are wiring to the socket library.
- `listAvailable` is a stub that resolves to an empty list; it is left out.
- `console.log` calls are left out, since they have no effect on the state or on what is sent.
- Timers and Promises are not run. `Execute` sends the paced payloads in timer order, which `Schedule.SendsOrdered` justifies. It does not model inbound messages interleaved with the timers, or a second `execute` overlapping the first.
- The 60 ms settle after entering raw mode is a delay offset in `Execute`'s result, not a wait.
- State 31 (GET_VER) is handled, but nothing in the client enters it, so no method sets it.
- `_saveAs` is modelled inline, as the event carrying the decoded buffer. Its file-name argument is unused in the source and does not appear.
- `event.data instanceof ArrayBuffer` is modelled by the `Message` datatype. A binary frame never equals the password prompt.
- The model starts from an empty password, which the source can never observe: `_handleMessage` is attached only inside `open`'s `open` callback (index.js:34-36), so no prompt arrives before `open`. `open(ip)` called without a password stores `undefined`, and the source then answers a prompt with `undefined\r` (index.js:292). `Open` takes a string, so that case is not modelled.
- `writeFile` and `loadFile` do not reject a new transfer while one is running. The model follows the code: the new call simply overwrites the state and buffers.
- String literals in the model (`Units`) are ASCII code units. JavaScript string semantics beyond code-unit sequences are not modelled.
- The file size is modelled as an unbounded natural. Sizes beyond 2^53, where JavaScript numbers lose precision, are not modelled.
- Utf8.Decode: its own contract only bounds the output length. Its meaning is given by `Utf8.DecodeConsumes` and `Utf8.DecodeEncode`.

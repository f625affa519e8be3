# Serial line receiver of the ESP32 edge firmware, in Dafny

This project models the receive side of the firmware's serial link to a
ThingSet device (`main/serial.c`). The FreeRTOS task `uart_rx_task` reads the UART
one byte at a time into a 1024-byte line buffer `data[]` at position `pos`.
It treats `'\n'` (with an optional `'\r'` before it) as the end of a line.
Each finished line is classified by its first bytes:

- a publication line starts with `"# "` and its payload begins at offset 2;
- a response line starts with `':'` and its payload begins at offset 13,
  after a fixed-width header;
- any other line is ignored.

A payload is copied into the one 500-byte buffer `serial_json_buf`, and the
matching flag `pub_serial_received` or `resp_serial_received` is set. The copy
happens only while that flag is clear and only when the payload fits. A
response payload gets a `'\n'` appended.

The files:

- `cstring.dfy` (module `CString`): bytes and `strlen` as a function (`Strlen`).
  `Strlen` returns `None` where the C function would read past the end of the
  buffer.
- `serial.dfy` (module `Serial`): the specification on values. `Rx` holds the
  line buffer, `pos`, the JSON buffer and the two flags. `Next` is one pass of
  the loop. `Feed` runs the loop over a byte sequence. `Parse` and `Deliver`
  classify a terminated line and copy its payload. The class `UartRx` performs
  the same loop in place on two arrays, and each of its methods is proved to
  move its `State()` exactly as the value-level functions say.
- `serial_props.dfy` (module `SerialProperties`): lemmas about whole byte
  streams. They cover line accumulation and the cap at the last slot,
  publication and response lines, `"\r\n"` against `"\n"`, the busy-flag drop,
  the shared buffer, and reads of bytes left over from earlier lines.

Behaviour worth knowing, all modelled as the code does it:

- Both kinds of message write the same JSON buffer; only the flags are separate.
  A response can therefore overwrite a publication that has not been consumed
  yet (`ResponseOverwritesPendingPublication`).
- A payload that does not fit is dropped whole, not truncated (`PublishLine`,
  `RespondLine`). The same happens to a message whose flag is still set.
- The test `pos > 2` counts a `'\r'` that has already been replaced by the NUL.
  So `"# \r\n"` publishes an empty payload, while `"# \n"` is ignored
  (`HashSpaceLines`).
- The response payload is read from index 13 without checking the line's
  length. A `':'` line shorter than 13 bytes therefore takes its payload from
  bytes of earlier lines, which stay in the buffer (`ShortResponseReadsOldBytes`).
  The line buffer is an uninitialised local, so the model starts it with
  arbitrary contents. When no NUL follows index 13, the C `strlen` reads past
  the buffer (`ResponseRunsPastBuffer`).
- `"X\r\n"` and `"X\n"` give the same line text. They also give the same
  outcome, except for `"# "` and for 12-byte `':'` lines (`CrLfSameAsLf`). In
  the latter, the `'\n'` left at index 13 by the `'\r\n'` form is read as the
  first payload byte, followed by bytes of earlier lines
  (`TwelveByteResponseWithCr`).
- A line longer than the buffer keeps its first 1023 bytes; each further byte
  overwrites the last slot. When the `'\n'` comes, the `'\r'` test looks at
  index 1022, not at the byte sent just before the `'\n'`: if index 1022 holds
  `'\r'`, the line text is only the first 1022 bytes and index 1023 keeps the
  `'\n'` (`OverlongLine`).
- The last byte of the JSON buffer is never written: both size tests leave it
  spare (`Serial.Deliver`).

## Model

| member | source | states |
|---|---|---|
| `CString.Strlen` | main/serial.c:82 | the result is the distance to the first NUL at or after the offset, with no NUL before it; `None` exactly when the rest of the buffer holds no NUL |
| `CString.StrlenBounded` | main/serial.c:82 | a NUL at index k makes strlen from any offset up to k defined and at most k minus the offset |
| `CString.StrlenOfString` | main/serial.c:82 | strlen of a NUL-free run followed by NUL is the run's length |
| `CString.StrlenAgree` | main/serial.c:93 | two buffers that agree from the offset up to a NUL give the same strlen |
| `CString.StrlenSuffix` | main/serial.c:93 | two buffers that agree from the offset on give the same strlen |
| `Serial.Parse` | main/serial.c:80-93 | a line is a publication iff it starts with "# ", pos > 2 and a NUL follows offset 2; a response iff it starts with ':' (and not "# " with pos > 2) and a NUL follows offset 13; `Unrecognized` exactly when neither prefix matches; `Unterminated` when a prefix matches and no NUL follows the offset; the payload is exactly the NUL-free bytes from the offset to the first NUL |
| `Serial.Deliver` | main/serial.c:80-101 | the line buffer and pos are unchanged; the JSON buffer or a flag changes only for a parsed publication with its flag clear (then that flag is set and the other kept) or a parsed response with its flag clear (likewise); flags are never cleared; the last JSON byte is never written |
| `Serial.Next` | main/serial.c:61-109 | pos stays within 0..1023; '\n' resets pos to 0; any other byte is stored at data[pos], pos advances by one below 1023 and stays at 1023, and the JSON buffer and flags are unchanged |
| `Serial.Feed` | main/serial.c:61-109 | running the loop over any byte sequence keeps pos within the buffer and both buffers at their sizes |
| `Serial.UartRx.constructor` | main/serial.c:23-28 | the receive task starts with pos 0, a line buffer of arbitrary contents, a zero JSON buffer and both flags clear |
| `Serial.UartRx.GetSerialJsonData` | main/serial.c:33-36 | returns the shared JSON buffer itself |
| `Serial.UartRx.CopyPayload` | main/serial.c:85 | the first n JSON bytes become data[from..from+n]; the rest keep their values |
| `Serial.UartRx.Terminate` | main/serial.c:71-77 | the NUL replaces a '\r' directly before the '\n', otherwise the '\n' itself; nothing else changes |
| `Serial.UartRx.StorePublication` | main/serial.c:83-88 | the JSON buffer starts with the payload and a NUL, the rest unchanged, and the publication flag is set |
| `Serial.UartRx.StoreResponse` | main/serial.c:94-100 | the JSON buffer starts with the payload, '\n' and NUL, the rest unchanged, and the response flag is set |
| `Serial.UartRx.Dispatch` | main/serial.c:80-101 | the in-place classification and copy leave exactly the state `Deliver` gives |
| `Serial.UartRx.Step` | main/serial.c:61-109 | one pass of the loop in place leaves exactly the state `Next` gives |
| `Serial.UartRx.Run` | main/serial.c:61-109 | the loop over a byte sequence leaves exactly the state `Feed` gives |
| `Serial.UartRx.ClearPub` | main/serial.c:23 | a consumer's acknowledgement clears only the publication flag |
| `Serial.UartRx.ClearResp` | main/serial.c:24 | a consumer's acknowledgement clears only the response flag |
| `SerialProperties.FeedAppend` | main/serial.c:61-109 | feeding a concatenation equals feeding its parts in turn |
| `SerialProperties.Accumulate` | main/serial.c:104-108 | bytes other than '\n' are stored one after the other from pos; pos stops at 1023, where each further byte overwrites the last slot; earlier bytes, later bytes, the JSON buffer and the flags are unchanged |
| `SerialProperties.LaidOut` | main/serial.c:104-108 | a line text that fits, received from position 0, lies at the start of the buffer with pos at its length |
| `SerialProperties.TerminatedLine` | main/serial.c:71-77 | after termination, the buffer holds the text, a NUL, the '\n' behind a stripped '\r', then older bytes |
| `SerialProperties.FinishLine` | main/serial.c:68-102 | a whole line from position 0 ends with pos 0 and the copy step applied to the terminated line, whatever its kind |
| `SerialProperties.LineBufferAt` | main/serial.c:71-77 | index by index: the terminated buffer holds the text, then NUL, then ('\r' case) '\n', then the older bytes |
| `SerialProperties.LineBufferText` | main/serial.c:71-77 | the terminated buffer starts with the line text and its NUL |
| `SerialProperties.TextLength` | main/serial.c:82 | a NUL-free text followed by NUL has strlen equal to its remaining length from any offset |
| `SerialProperties.ParsePublication` | main/serial.c:80-82 | a buffer holding "# " + payload with pos > 2 parses as that publication |
| `SerialProperties.ParseResponse` | main/serial.c:90-93 | a buffer holding ':' + 12 header bytes + payload parses as that response |
| `SerialProperties.PublishLine` | main/serial.c:80-88 | a "# " line with flag clear and payload under 499 bytes leaves payload + NUL at the start of the JSON buffer and sets the flag; otherwise the buffer and flag are unchanged; the response flag never changes |
| `SerialProperties.RespondLine` | main/serial.c:90-100 | a ':' line with flag clear and payload under 498 bytes leaves payload + '\n' + NUL at the start of the JSON buffer and sets the flag; otherwise the buffer and flag are unchanged; the publication flag never changes |
| `SerialProperties.CrLfParse` | main/serial.c:72-93 | with the same text and the same bytes beyond, a '\n' one position later yields the same message, except for "# " and 12-byte ':' lines |
| `SerialProperties.PayloadWithinLine` | main/serial.c:71-94 | the terminated line always has its NUL at or before pos; a publication payload therefore always ends inside the line, and so does a response payload when the line is at least 13 bytes |
| `SerialProperties.DeliverByMessage` | main/serial.c:80-101 | the copy step depends on the line only through its parsed message |
| `SerialProperties.CrLfDeliver` | main/serial.c:72-101 | the copy step on the '\r\n' and '\n' buffers of the same text leaves the same text + NUL and, outside "# " and 12-byte ':' lines, the same JSON buffer and flags |
| `SerialProperties.CrLfSameAsLf` | main/serial.c:72-77 | "X\r\n" and "X\n" leave the same text X + NUL and pos 0; they leave the same JSON buffer and flags unless X is "# " or a 12-byte ':' line |
| `SerialProperties.HashSpaceLines` | main/serial.c:72-80 | "# \r\n" sets the publication flag with an empty payload; "# \n" changes neither buffer nor flags |
| `SerialProperties.OverlongLine` | main/serial.c:71-108 | a line of 1023 bytes or more leaves pos 0; when index 1022 holds '\r', the line text is its first 1022 bytes, NUL at index 1022 and '\n' at 1023; otherwise the line text is its first 1023 bytes and NUL is at index 1023 |
| `SerialProperties.CappedLineEnd` | main/serial.c:71-77 | a '\n' arriving at the last slot puts the NUL at index 1022 when that holds '\r', else at 1023, and pos returns to 0 |
| `SerialProperties.SecondPublicationDropped` | main/serial.c:83 | a second publication while the first is pending is dropped; the buffer keeps the first payload |
| `SerialProperties.ResponseOverwritesPendingPublication` | main/serial.c:94-99 | a response after a pending publication overwrites the shared buffer while both flags end up set |
| `SerialProperties.ShortResponseReadsOldBytes` | main/serial.c:90-98 | a ':' line shorter than 13 bytes takes its payload from bytes 13 onward of the previous buffer; it is dropped when no NUL follows there |
| `SerialProperties.TwelveByteResponseWithCr` | main/serial.c:72-98 | a 12-byte ':' line sent with '\r\n' takes as payload the '\n' left at index 13 followed by the previous buffer's bytes from index 14 up to a NUL; it is dropped when no NUL follows there |
| `SerialProperties.ParseLeftoverLF` | main/serial.c:90-93 | a ':' buffer with '\n' at index 13 parses as a response whose payload is that '\n' and the bytes from index 14 up to the first NUL, or as unterminated when none follows |
| `SerialProperties.ResponseRunsPastBuffer` | main/serial.c:93 | for every initial line buffer without NUL from index 13 on, a first ':' line shorter than 13 bytes leads to a strlen from index 13 that finds no NUL before the end of the buffer, and the line is dropped |

## Left out

- `uart_setup` (main/serial.c:38-54): UART parameters and pins are set through the ESP-IDF driver, a foreign call with no logic of its own.
- The `uart_read_bytes` timeout and the `len != 1` retry (main/serial.c:62-66): a read that returns no byte changes nothing, so the input is modelled as the sequence of bytes that did arrive.
- `uart_send` (main/serial.c:112-115): a direct call of `uart_write_bytes`.
- The `ESP_LOGI` calls (main/serial.c:79, 92): log output only.
- Sharing of the JSON buffer and the flags with consumer tasks without synchronisation: concurrency is not modelled. Clearing a flag is modelled as a plain sequential method.
- The variant built without `CONFIG_THINGSET_SERIAL` (main/serial.c:117-122), whose accessor returns the constant `"{}"`.
- `Serial.Parse`: when no NUL follows index 13 in the line buffer, the C `strlen(&data[13])` reads past the end of `data` (undefined behaviour). The model cannot follow that read, so it classifies such a line as `Unterminated` and drops it.
- `Serial.UartRx.GetSerialJsonData`: the C accessor returns a pointer that consumers read as a C string. The model returns the array reference and does not model the consumers' reads.

# Wii Fit sync: a Dafny model

This project models the core of a Wii homebrew application that reads the
Wii Fit save file from NAND and serves its body measurements as JSON over
a TCP connection. It covers four parts:

- **Save decoder** (`wiifit_reader.c`):
  - big-endian readers and the UTF-16BE to UTF-8 name transcoder;
  - the packed date decoder with per-field clamping and the BCD birth date;
  - the measurement-table scan, which uses weight as its validity test;
  - the profile-slot loop;
  - the open/stat/allocate/read error policy of `wiifit_read_save`, over an abstract storage oracle;
  - `wiifit_error_string`.
- **JSON encoder** (`json_builder.c`):
  - the string escaper;
  - the capacity-bounded `SAFE_APPEND` builder and its overflow branch;
  - the response document and the error payload.
- **Connection layer** (`network.c`):
  - server start-up and its failure cleanup;
  - classification of accept and receive results;
  - 512-octet send chunking with EAGAIN retries;
  - closing the client and shutting down.
- **Sync session and main loop** (`main.c`):
  - `handle_client` as a bounded polling machine from receive outcomes to a trace of network calls;
  - the MENU / WAITING / SYNCING / ERROR transitions of the main loop.

Modelling conventions:

- A byte is an `int` in 0..255.
- Text is `string`.
- Weight, BMI and balance are the raw fixed-point integers of the save file: tenths, hundredths and tenths.
- Every library or system call is a parameter: ISFS, `memalign`, `net_socket`/`net_bind`/`net_listen`/`net_accept`/`net_recv`/`net_send`, and the buttons.
- Sleeping is replaced by counting polls: the 5000 ms request wait in 10 ms steps is 500 polls, and the 2000 ms acknowledgement wait is 200.
- `EAGAIN` and `EWOULDBLOCK` are both 11, the libogc/newlib value, so either spelling of "would block" is the answer `-11`.

Where the code and its comments disagree, the model follows the code:

- The date layout follows `wiifit_reader.c:65-69` (year in bits 30-20, month in bits 19-16 plus one, day 15-11, hour 10-6, minute 5-0). It does not follow the header's bit table.
- Measurements start at 0x3661 with a stride of 21 octets (`wiifit_reader.c:105-107`). The comment's 16-octet records and the header's offset 0x38A1 are not used.

Two defects of `json_build_response`'s overflow branch are kept as written, because the session sends what this function returns:

- the closing `]}]}` is appended only when more than 10 characters were written and 20 more fit;
- `offset` is then set to the `snprintf` result, so the function returns 4.

`JsonResponse.OverflowReturnsFour` exhibits both. The second is also a
row under "## Findings". `JsonBuilder.FinishCorrected` is the intended exit
and `JsonResponse.CorrectedOverflowKeepsClosing` shows its effect on the same
response. The session keeps the exit as written, so that the model sends
what the program sends.

Modules: `Wrappers`, `Bytes`, `Text`, `PackedDate`, `Utf`, `ProfileDecoder`,
`SaveReader`, `JsonEscape`, `JsonBuilder`, `JsonResponse`, `Network`,
`Session`, `App`.

## Model

| member | source | states |
|---|---|---|
| Bytes.ReadBe16Encodes | wii-app/source/wiifit_reader.c:131-133 | the value read is the one whose two-octet big-endian encoding is exactly the two octets read |
| Bytes.ReadBe32Encodes | wii-app/source/wiifit_reader.c:136-138 | the value read is below 2^32 and is the one whose four-octet big-endian encoding is exactly the octets read |
| Bytes.Be16RoundTrip | wii-app/source/wiifit_reader.c:131-133 | reading back an encoded 16-bit value gives the value |
| Bytes.Be32RoundTrip | wii-app/source/wiifit_reader.c:136-138 | reading back an encoded 32-bit value gives the value |
| Text.NatToDecimalRoundTrip | wii-app/source/json_builder.c:74-79 | the decimal digits printed for a number parse back to that number |
| Text.DecRoundTrip | wii-app/source/json_builder.c:156-158 | `%d` of any integer, sign included, parses back to the integer |
| Text.ZeroPad | wii-app/source/json_builder.c:74 | `%0Nd` is at least N wide, ends with the number's digits and is padded with zeros only |
| Text.CString | wii-app/source/main.c:309-312 | the text `strstr` sees stops at the first NUL: it holds the octets before it and no NUL |
| Text.ContainsIff | wii-app/source/main.c:312 | the substring test holds exactly when the needle occurs at some position |
| PackedDate.Unpack | wii-app/source/wiifit_reader.c:65-69 | every extracted field fits its bit width and the month is at least 1 |
| PackedDate.Decode | wii-app/source/wiifit_reader.c:65-88 | every field is in range (year 2006..2030, month 1..12, day 1..31, hour 0..23, minute 0..59, second 0); an in-range field is kept and each out-of-range one independently becomes 2020/1/1/0/0 |
| PackedDate.UnpackPack | wii-app/source/wiifit_reader.c:65-69 | extraction inverts packing for every field tuple that fits the layout |
| PackedDate.PackUnpack | wii-app/source/wiifit_reader.c:65-69 | packing the extracted fields gives back the word without bit 31, which the decoder ignores |
| PackedDate.DecodePacked | wii-app/source/wiifit_reader.c:72-76 | a date whose fields are already in range is decoded unchanged |
| PackedDate.SampleDate | wii-app/source/wiifit_reader.c:57-69 | 0x7E7455CF decodes to 2023-05-10 23:15:00 |
| Utf.EncodeUnit | wii-app/source/wiifit_reader.c:116-125 | a unit below 0x80 takes 1 octet, below 0x800 2 octets, else 3, and every octet after the first is a continuation octet |
| Utf.EncodeUnitsRoundTrip | wii-app/source/wiifit_reader.c:116-125 | a UTF-8 decoder for the three forms recovers the encoded units |
| Utf.Utf16beToUtf8 | wii-app/source/wiifit_reader.c:110-128 | the as-written transcoder: the output decodes to the units read, is at most 25 octets and at most 3 per unit, and is empty exactly when there are no units or the first is zero |
| Utf.TranscodeFromNonzero | wii-app/source/wiifit_reader.c:113-114 | every unit converted is nonzero |
| Utf.TranscodeFromStops | wii-app/source/wiifit_reader.c:112-114 | each unit was started with fewer than 23 octets written, and the loop stops early only at a zero unit or at 23 octets |
| Utf.ReadsAtMostTwiceMaxChars | wii-app/source/wiifit_reader.c:112-113 | the output depends only on the first 2·max_chars source octets |
| Utf.AbcExample | wii-app/source/wiifit_reader.c:110-128 | units 0x41, 0x42, 0x43, 0 become "ABC" |
| Utf.OverlongNameWitness | wii-app/source/wiifit_reader.c:112 | a ten-unit name of seven 3-octet units, an ASCII unit and another 3-octet unit gives 25 octets, more than the 24-octet `name` field holds with its NUL |
| Utf.Utf16beToUtf8Fitted | wii-app/source/wiifit_reader.c:110-128 | the corrected transcoder writes at most 23 octets and is empty exactly when the as-written one is |
| Utf.TranscodersAgree | wii-app/source/wiifit_reader.c:110-128 | the two transcoders agree on every input whose as-written output fits 23 octets |
| Utf.OverlongNameFitted | wii-app/source/wiifit_reader.c:112 | the corrected transcoder stops the same name at 22 octets |
| ProfileDecoder.ValidRunAllValid | wii-app/source/wiifit_reader.c:196-213 | every record the scan keeps lies in the block and has a weight within 300..1500 |
| ProfileDecoder.ValidRunEnd | wii-app/source/wiifit_reader.c:196-205 | a scan that stops before record 1024 stops at a record whose weight is outside 300..1500 |
| ProfileDecoder.ValidRunFromSpec | wii-app/source/wiifit_reader.c:196-205 | the scan keeps every record up to the first one whose weight is outside 300..1500, and stops there or at 1024 |
| ProfileDecoder.Measurements | wii-app/source/wiifit_reader.c:196-214 | the measurement list has the scan's length and element k is record k decoded at 0x3661 + 21·k |
| ProfileDecoder.MeasurementsSpec | wii-app/source/wiifit_reader.c:196-214 | all kept records are valid, the first record after them is not (unless 1024 were kept), every weight is within 300..1500 and no record has extended data |
| ProfileDecoder.SizeGuardNeverBinds | wii-app/source/wiifit_reader.c:199 | each of the 1024 records ends inside the 0x9289-octet profile, so the size guard never stops the scan |
| ProfileDecoder.BcdYearOfDigits | wii-app/source/wiifit_reader.c:155-159 | four nibbles that are decimal digits read back as the four-digit decimal number they spell |
| ProfileDecoder.BcdYearRoundTrip | wii-app/source/wiifit_reader.c:155-159 | the four-nibble BCD year decodes every year below 10000 from its BCD encoding |
| ProfileDecoder.BcdByteRoundTrip | wii-app/source/wiifit_reader.c:160-163 | a two-nibble BCD byte decodes every number below 100 from its encoding |
| ProfileDecoder.NameString | wii-app/source/wiifit_reader.h:74-75 | a transcoder output below 24 octets is stored whole; at 24 or 25 octets the stored string is its first 24 octets followed by the height octet when that is non-zero, so it never exceeds 25 octets and is empty only for an empty output |
| ProfileDecoder.ParseProfile | wii-app/source/wiifit_reader.c:141-163 | a slot is empty exactly when its first name unit is zero; otherwise the name is the as-written transcoder's output as the record holds it after the height store (1..25 octets), height is the byte at 0x1F, the birth date is the BCD at 0x20..0x23, the measurements are the scan's list and there are no activities |
| ProfileDecoder.ShortNameStored | wii-app/source/wiifit_reader.c:141-151 | when the transcoder writes at most 23 octets the stored name is exactly its output, which the corrected transcoder also gives |
| ProfileDecoder.OverlongNameStored | wii-app/source/wiifit_reader.c:143-151 | for the overlong ten-unit name and a height of 170 the stored name is 25 octets: the first 24 of the transcoder's output and then the height octet instead of the output's 25th octet |
| SaveReader.Msg | wii-app/source/wiifit_reader.c:273-277 | a message stored in the 256-octet field is a prefix of the formatted one, shorter than 256, and whole when it fits |
| SaveReader.SlotCount | wii-app/source/wiifit_reader.c:322-324 | at most 8 slots are visited, each visited slot fits in the file, and the loop stops at the first one that does not |
| SaveReader.SlotResults | wii-app/source/wiifit_reader.c:322-331 | slot i is decoded from the block at i·0x9289 |
| SaveReader.DecodeSave | wii-app/source/wiifit_reader.c:319-341 | at most 8 profiles; success exactly when some profile was found; otherwise -4 with "No profiles found in save file" and no profiles |
| SaveReader.DecodeSaveSpec | wii-app/source/wiifit_reader.c:322-341 | the profiles are exactly the occupied slots, in slot order, and the result is -4 exactly when no slot is occupied |
| SaveReader.SearchFrom | wii-app/source/wiifit_reader.c:262-269 | the search finds a path that opened after all earlier ones failed; when none opens it has tried all 12 and keeps the last failure code |
| SaveReader.SearchFindsFirst | wii-app/source/wiifit_reader.c:262-269 | the path found is the first in table order that opens, and nothing is found exactly when every path fails |
| SaveReader.ReadSaveUninitialized | wii-app/source/wiifit_reader.c:248-253 | an uninitialised reader makes no storage call, keeps the previous profiles and reports -1 "Reader not initialized" |
| SaveReader.ReadSaveVerdict | wii-app/source/wiifit_reader.c:247-341 | an initialised read ends in 0, -2, -3, -4 or -6; it succeeds exactly when profiles were found, and every failure leaves no profiles |
| SaveReader.ReadOpened | wii-app/source/wiifit_reader.c:282-340 | once the file is open, the read ends in 0, -3, -4 or -6, succeeds exactly when profiles were found, leaves no profiles on failure and a message that fits the field |
| SaveReader.ReadSaveCalls | wii-app/source/wiifit_reader.c:262-310 | paths are opened in table order, and an opened file is closed exactly once, as the last call |
| SaveReader.TailCloses | wii-app/source/wiifit_reader.c:284-310 | every path after a successful open closes the file once, at the end, and opens nothing |
| SaveReader.ReadSaveNotFound | wii-app/source/wiifit_reader.c:271-280 | when no path opens, the result is -2 with the message naming the last error and 12 paths tried, after 12 open calls |
| SaveReader.ReadSaveAfterOpen | wii-app/source/wiifit_reader.c:284-317 | after the open, a stat failure or a short or failed read gives -3, a failed allocation gives -6, and a full read gives the decoded save |
| SaveReader.ReadSaveMessageFits | wii-app/source/wiifit_reader.c:249-250 | every stored message fits the 256-octet field |
| SaveReader.ErrorString | wii-app/source/wiifit_reader.c:344-355 | "Unknown error" is returned exactly for codes outside 0..-6 |
| SaveReader.ErrorStringRoundTrip | wii-app/source/wiifit_reader.c:344-355 | each known code has its own description, from which the code is recovered |
| JsonEscape.LetterRoundTrip | wii-app/source/json_builder.c:23-27 | the letter written after the backslash identifies the special character |
| JsonEscape.EscapeAll | wii-app/source/json_builder.c:18-33 | the unbounded escape is between one and two times the input's length |
| JsonEscape.UnescapeEscapeAll | wii-app/source/json_builder.c:18-33 | unescaping the unbounded escape gives back the input |
| JsonEscape.EscapeAllUnescape | wii-app/source/json_builder.c:18-33 | any text that unescapes to s is exactly the escape of s |
| JsonEscape.EscapeIff | wii-app/source/json_builder.c:18-33 | w unescapes to s if and only if w is the escape of s |
| JsonEscape.EscapeFrom | wii-app/source/json_builder.c:19-30 | the bounded loop only extends what it has written and never writes more than dst_size-1 characters |
| JsonEscape.EscapeIntoKeeps | wii-app/source/json_builder.c:18-33 | the bounded escape is the escape of the longest prefix of the C string (up to the first NUL) whose escape fits in dst_size-1 characters; when exactly one slot is then left, it is followed by the first ordinary character after that prefix, every character in between being special and skipped |
| JsonEscape.KeepsUnique | wii-app/source/json_builder.c:18-33 | that description admits only one output, so it determines the escaper's result |
| JsonEscape.EscapeFromFitting | wii-app/source/json_builder.c:20-29 | while the escape of the characters read still fits, the loop copies every escape whole |
| JsonEscape.EscapeFromSkipping | wii-app/source/json_builder.c:20-29 | with one slot left the loop skips special characters, copies the first ordinary one if it comes before the NUL, and then stops |
| JsonEscape.EscapeIntoCString | wii-app/source/json_builder.c:20 | the escaper reads its input only up to the first NUL |
| JsonEscape.EscapeIntoFitsCString | wii-app/source/json_builder.c:18-33 | when the escape of the input up to its first NUL fits, the bounded escape is exactly that escape |
| JsonEscape.QuoteBeforeNul | wii-app/source/json_builder.c:20-23 | a quote before the NUL is written as `\"`, and nothing after the NUL is read |
| JsonEscape.EscapeIntoWellEscaped | wii-app/source/json_builder.c:20-31 | the bounded escape is at most dst_size-1 characters, contains no NUL and always unescapes, so no lone backslash is written |
| JsonEscape.EscapeIntoFits | wii-app/source/json_builder.c:18-33 | when the full escape fits, the bounded escape equals it |
| JsonEscape.PlainUnchanged | wii-app/source/json_builder.c:18-33 | text without special characters that is shorter than dst_size comes back unchanged |
| JsonEscape.ControlCharPassesThrough | wii-app/source/json_builder.c:28 | control characters other than newline, CR and tab are copied unescaped |
| JsonEscape.DropsPendingEscape | wii-app/source/json_builder.c:23-27 | with one slot left, a pending quote is dropped whole and copying continues |
| JsonBuilder.Append | wii-app/source/json_builder.c:48-54 | one append never writes past the capacity and never advances the offset to the buffer size |
| JsonBuilder.AppendAllPrefix | wii-app/source/json_builder.c:48-54 | the buffer is always a prefix of the text the fragments spell |
| JsonBuilder.OverflowedStays | wii-app/source/json_builder.c:48-54 | after an overflow no later append changes anything |
| JsonBuilder.AppendAllFits | wii-app/source/json_builder.c:48-54 | the appends finish without overflow exactly when the whole text is shorter than the capacity, and then the buffer is that text |
| JsonBuilder.Finish | wii-app/source/json_builder.c:139-147 | the returned length and the text written are both below the capacity |
| JsonBuilder.BuildSpec | wii-app/source/json_builder.c:56-147 | without overflow the result is the full text and its length; with overflow it is a prefix, or a prefix followed by "]}]}" with the length 4 |
| JsonResponse.Sanitize | wii-app/source/json_builder.c:94-99 | a negative value is replaced by the default and any other is kept |
| JsonResponse.ActivityTypeName | wii-app/source/json_builder.c:36-45 | types 0..4 name yoga, strength, aerobics, balance, training; any other is "unknown" |
| JsonResponse.ActivityTypeRoundTrip | wii-app/source/json_builder.c:36-45 | each known type is recovered from its name, and "unknown" names no type |
| JsonResponse.ListFromJoin | wii-app/source/json_builder.c:65-70 | the appended groups, with a comma before each after the first, spell the comma-joined texts |
| JsonResponse.ObjectFragmentsText | wii-app/source/json_builder.c:81-133 | one profile's appends spell the object with its measurements and activities arrays |
| JsonResponse.ResponseFragmentsText | wii-app/source/json_builder.c:62-137 | the response appends spell the header, the comma-separated profile objects in order, and the closing brackets |
| JsonResponse.BuildResponseSpec | wii-app/source/json_builder.c:56-148 | when the document fits, the output is the document and its length; otherwise a prefix, or a prefix plus "]}]}" with the length 4 |
| JsonResponse.ResponseFrame | wii-app/source/json_builder.c:62-137 | the document starts with `{"version":2,"profiles":[` and ends with `]}` |
| JsonResponse.NoActivitiesRendered | wii-app/source/json_builder.c:111-133 | a profile from the reader ends its object with an empty activities array |
| JsonBuilder.FinishCorrected | wii-app/source/json_builder.c:141-146 | with `offset +=` the overflow exit leaves the same buffer, and the returned length then either is the one returned as written or covers the whole buffer ending in "]}]}" |
| JsonBuilder.BuildCorrectedSpec | wii-app/source/json_builder.c:56-147 | with the corrected exit the returned length never exceeds the text written, and that text is the document, a prefix of it, or a prefix of more than ten characters followed by "]}]}" |
| JsonResponse.CorrectedOverflowKeepsClosing | wii-app/source/json_builder.c:141-146 | with the corrected exit the one-profile response into 50 characters returns the header's length plus 4, so the closing is counted |
| JsonBuilder.TextGrows | wii-app/source/json_builder.c:48-54 | the appends never shorten the complete text already written |
| JsonBuilder.BuildLengthPositive | wii-app/source/json_builder.c:56-147 | when the first fragment fits on its own, the returned length is positive and below the capacity, on the overflow exit too |
| JsonResponse.ResponseLengthInRange | wii-app/source/json_builder.c:56-147 | once the header fits, `json_build_response` returns a length in 1..cap-1 |
| JsonResponse.ErrorTextBound | wii-app/source/json_builder.c:152-159 | with a 32-bit code the error document is non-empty and at most its fixed parts plus 11 code characters and 255 escaped message characters |
| Text.DecInt32Length | wii-app/source/json_builder.c:152-159 | `%d` of a C `int` is at most 11 characters |
| Text.NatToDecimalDigits | wii-app/source/json_builder.c:152-159 | a number below 10^k prints with at most k digits |
| JsonResponse.OverflowReturnsFour | wii-app/source/json_builder.c:141-147 | a one-profile response into 50 characters keeps the header, appends "]}]}" and returns 4 |
| JsonResponse.BuildError | wii-app/source/json_builder.c:152-159 | the error payload returns the full length of the document and the buffer holds its prefix cut to capacity-1 |
| JsonResponse.ErrorFieldsRecoverable | wii-app/source/json_builder.c:152-159 | when the escaped message fits 256 characters, the payload is the fixed frame around the code and the full escape, and both the code and the message are recovered from it |
| JsonResponse.NoProfilesPayload | wii-app/source/json_builder.c:152-159 | the payload for code -4 and "No profiles found in save file" is the expected literal |
| Network.StartServer | wii-app/source/network.c:49-98 | start-up succeeds exactly when socket, bind and listen all succeed; bind or listen failure closes the socket and forgets it (-3/-4); socket failure gives -2 |
| Network.StartServerFailureCleanup | wii-app/source/network.c:75-93 | a failed start leaves no server handle, state ERROR, and closes a handle only if the socket existed |
| Network.AcceptClassification | wii-app/source/network.c:100-125 | no server gives -2; an existing client gives 1 without accepting; EAGAIN gives 0; other failures -5; a new client 1 with state CONNECTED |
| Network.Receive | wii-app/source/network.c:127-154 | at most max_len octets are placed in the buffer, and neither handle changes |
| Network.ReceiveClassification | wii-app/source/network.c:127-154 | no client or a closed peer gives -9, EAGAIN gives 0, other errors -7, and data its octet count (at most max_len) with those octets; the session sees data exactly for a positive code |
| Network.SendChunksContiguous | wii-app/source/network.c:164-184 | each `net_send` is given min(512, remaining) octets starting where the previous successful call stopped |
| Network.Send | wii-app/source/network.c:156-191 | a send never changes the server or client handle |
| Network.SendOutcomes | wii-app/source/network.c:156-190 | no client gives -9 with nothing offered; a hard error gives -6 and ERROR; a completed run gives the total and CONNECTED |
| Network.SendFailedIsHard | wii-app/source/network.c:173-182 | a run fails only on a negative answer other than EAGAIN |
| Network.SendReturnsLength | wii-app/source/network.c:184-190 | a completed send returns exactly the length given |
| Network.SendWellBehaved | wii-app/source/network.c:167-190 | when each successful call sends 1..to_send octets, a finished run has sent exactly len octets |
| Network.CloseClientIdempotent | wii-app/source/network.c:193-199 | closing forgets the client, sets WAITING, never touches the server, and a second close does nothing |
| Network.ShutdownOrder | wii-app/source/network.c:201-210 | shutdown closes the client before the server, each only if open, and ends with no handles and state INIT |
| Session.AwaitRequest | wii-app/source/main.c:279-299 | the request wait ends within 500 polls, on data or on a disconnect or error at the poll it names |
| Session.AwaitRequestFirst | wii-app/source/main.c:279-307 | the wait stops at the first poll that is not "no data", and times out exactly when 500 polls found nothing |
| Session.AwaitAckFirstData | wii-app/source/main.c:338-352 | the acknowledgement wait ends on the first data or after 200 polls; errors and disconnects do not end it |
| Session.PayloadSpec | wii-app/source/main.c:316-334 | a payload is sent only with a length in 1..65536; it is the encoder's text cut to that length, with NULs beyond the text |
| Session.HandleClient | wii-app/source/main.c:271-361 | the session's calls are the request polls, then at most one send and the acknowledgement polls, then the close; at most 500 and 200 polls; a send implies a request and an encoder; the request is the text read up to its first NUL, and there is none unless the wait got data |
| Session.TraceShape | wii-app/source/main.c:271-361 | every trace ends with its only close, has no shutdown, and sends only right after the request polls |
| Session.CloseExactlyOnce | wii-app/source/main.c:271-361 | on every path the client is closed exactly once, as the last call, and the server is never shut down |
| Session.RequestWaitPaths | wii-app/source/main.c:279-307 | a disconnect or error closes the client without encoding or sending; 500 empty polls close it without encoding |
| Session.Observed | wii-app/source/main.c:280 | each poll of the request wait is `network_receive` on the client with a limit of 1023, classified as the session sees it |
| Session.ObservedPlausible | wii-app/source/network.c:127-154 | every receive with a 1023-octet limit reports data only of 1..1023 octets |
| Session.RequestFitsBuffer | wii-app/source/main.c:280-309 | for any script of `net_recv` answers, a request read through `network_receive(recv_buffer, sizeof(recv_buffer) - 1)` is 1..1023 octets, so the NUL at recv_len is inside the 1024-octet buffer |
| Session.SyncIff | wii-app/source/main.c:309-357 | the request is exactly the text the wait read, up to its first NUL, and there is one exactly when the wait got data; an encoder runs exactly for a request holding both `"action"` and `"sync"`; any other request is closed with nothing sent |
| Session.EncoderChoice | wii-app/source/main.c:319-323 | the full response is built exactly when the stored code is 0 and there is a profile; otherwise the error payload with the stored code and message |
| Session.BadLengthCloses | wii-app/source/main.c:327-331 | a length of at most 0 or above 65536 closes the client without sending; for a 32-bit code this branch cannot be taken (`Session.SyncAlwaysSends`) |
| Session.SyncAlwaysSends | wii-app/source/main.c:316-334 | with a stored code in the range of a C `int` the encoder returns a length in 1..65536, so a payload of that length is sent |
| Session.SyncRequestSends | wii-app/source/main.c:309-361 | a sync request read by the wait is answered: the chosen encoder runs, its payload is sent exactly once, right after the request polls, and the client is closed last |
| Session.AckWait | wii-app/source/main.c:338-352 | after a send the session polls at most 200 times and stops early only on data |
| Session.NoProfilesSession | wii-app/source/main.c:319-334 | with the reader's "no profiles" result a sync request receives the -4 error payload |
| App.Startup | wii-app/source/main.c:368-376 | start-up ends in ERROR exactly when initialisation failed, else in MENU, with nothing open |
| App.StepConsistent | wii-app/source/main.c:379-461 | every step keeps MENU with nothing open, WAITING with a server and no client, SYNCING with both |
| App.RunConsistent | wii-app/source/main.c:379-464 | the whole loop keeps that agreement, and EXIT is final |
| App.MenuTransitions | wii-app/source/main.c:384-413 | A moves to WAITING exactly when the server starts, else stays in MENU; HOME without A exits; nothing else changes |
| App.WaitingTransitions | wii-app/source/main.c:415-444 | B shuts the server down and returns to MENU; otherwise HOME exits; otherwise a new client moves to SYNCING |
| App.SyncingTransition | wii-app/source/main.c:446-450 | one session runs and closes its client once; the loop returns to WAITING with the server still listening |
| App.ErrorTransition | wii-app/source/main.c:452-457 | ERROR is left only by HOME, to EXIT |
| App.Cleanup | wii-app/source/main.c:466-469 | after the loop nothing is open and the network state is INIT |

## Left out

- The debug scans and printing in `parse_profile` (`wiifit_reader.c:169-193`, `:216-225`) and `wiifit_scan_titles`: they only print.
- `wiifit_init`, `wiifit_cleanup`, `wiifit_get_search_paths` and `wiifit_get_last_tried_path`: the reader's lifecycle is one `initialized` flag in the storage oracle.
- Re-use of `save_buffer` across calls is also not modelled; the read's outcome is the oracle's answer.
- `mktime`, `localtime` and `strftime`: time-zone and normalisation dependent. The decoded calendar tuple is rendered directly, so no round trip through `time_t` is claimed; for example, day 31 of a 30-day month is rendered as decoded.
- Floating point: weight, BMI and balance stay fixed-point integers. `%.1f`/`%.2f` are the decimal rendering of those integers, and a NaN cannot arise from a 16-bit reading.
- JsonResponse.Sanitize: defaults a negative weight and BMI to 0 and balance to 50 on the integer values; the NaN half of the check has nothing to act on.
- The formatted text of `network.c`'s `error_msg` and `network_get_error`: only for display.
- `network_init`, `network_get_ip` and `SyncPort` binding details (`setsockopt`, `fcntl`): interface bring-up, with no decision the rest depends on.
- Network.Send: retries after EAGAIN are driven by a finite sequence of `net_send` answers, so an endless stream of EAGAIN answers is cut off as `Stalled` rather than looping for ever.
- The `written < 0` branch of `SAFE_APPEND`: this `snprintf` cannot fail on these formats.
- `iospatch.c`, the IOS reload, video, console and controller handling in `main.c`: hardware bootstrapping and display.
- `init_systems` is reduced to its result code in `App.Startup`.
- ProfileDecoder.ParseProfile: the overrun of the `name` field is modelled through the layout of `WiiFitProfile`: octet 24 of the transcoder's output falls on `height_cm`, which the height store overwrites, and its NUL on the padding octet before `birth_year`, which stays zero after the `memset` of the save data. A compiler that lays the record out differently would leave a different string.
- SaveReader.SaveData: `errorCode` is an unbounded integer, while the C field is a 32-bit `int`. The reader only stores 0..-6, and the lemmas about the sent payload (`Session.SyncAlwaysSends`, `Session.SyncRequestSends`) take the 32-bit range as a precondition.
- Session: the text of the log lines and the `"ack"` check, which only chooses a log line, are not modelled.
- Session.HandleClient: the result of `network_send` is ignored by the session, so the trace records one abstract `Send(payload)`; the chunking is modelled in `Network.Send`.

## Findings

| source | as written | input that shows it | evidently intended | confidence | as-written member | corrected member |
|---|---|---|---|---|---|---|
| wii-app/source/wiifit_reader.c:112 | the loop starts a new unit while fewer than 23 octets are written, so a 2- or 3-octet unit started at 21 or 22 octets ends at 24 or 25, and the NUL is written at index 25 of the 24-octet `name` field | name units 0x3042 ×7, 0x0041, 0x3042, 0: 22 octets after eight units, then a 3-octet unit gives 25 | stop before a unit whose octets would pass 23, so name and NUL fit 24 octets | high (not executed) | Utf.OverlongNameWitness | Utf.OverlongNameFitted |
| wii-app/source/json_builder.c:144 | after an overflow the exit writes `]}]}` at `offset` and then sets `offset` to the `snprintf` result, which is 4, so the function returns 4 and the session sends only the first four characters of the document | one profile into a 50-character buffer: the header fits, the profile's opening does not, and the result is the header plus `]}]}` with length 4 | add the count to `offset`, so the returned length covers the text and its closing | high (not executed) | JsonResponse.OverflowReturnsFour | JsonBuilder.FinishCorrected |

The profile decoder keeps the as-written transcoder, so that the name in the
JSON is the one the program sends; `ProfileDecoder.OverlongNameStored` shows
the overrun's effect on that name, and `ProfileDecoder.ShortNameStored` shows
that the corrected transcoder agrees wherever the as-written one stays within
23 octets.

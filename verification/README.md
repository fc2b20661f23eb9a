# PCR-GUI firmware path and helpers, in Dafny

This project models the firmware-delivery path of the PCR-GUI web application and the
small pure helpers around it, and proves properties of the model:

- **Intel HEX decoder** (`hexToBinary`, `parseRecord`, `isValidHexFile`): modules
  `IntelHexRecord` (one record line, with its two's-complement checksum) and
  `IntelHexImage` (the base address in document order, the extent of the data
  records, the 0xFF-filled image in which the last record covering an address wins).
- **YMODEM sender** (`sendFile`, `sendHeaderBlock`, `sendDataBlock`,
  `calculateCRC16`): modules `Crc16` (the CRC-16/XMODEM reference on a 16-bit
  register, and the service's loop on a 32-bit JavaScript integer proved equal to it),
  `YmodemFrame` (frames, data blocks, the block-0 header) and `YmodemSender` (the
  transfer as a transition function `Step` driven over a sequence of channel events,
  and an independent slot-by-slot account, `ExpectedFrom`, proved equal to it).
- **Serial monitor escaping** (`escapeNonPrintable`): module `SerialEscape`.
- **Temperature plot line framing** (`handleSerialData` and its cleanup): module
  `TemperaturePlot`, feeding module `TemperatureStore` (`addDataPoint`,
  `setIsParsing`, `clearData`).
- **Protocol storage** (`protocolToCSV`, the file name in `saveProtocol`): module
  `ProtocolStorage`, over the protocol that module `PcrStore` builds from the settings
  form (`updateField`, `reset`, `setSelectedDrive`, `setAvailableDrives`,
  `getProtocol`).

The supporting modules are `JsText` and `JsNumber`. `JsText` holds JavaScript strings
as sequences of UTF-16 code units, with `split`, `join` and `trim`. `JsNumber` holds the
global `parseInt` without a radix, number-to-string for integers, and radix digits.
`Bytes` and `Results` hold byte buffers and the `Option`/`Result` types.

The serial channel is abstract. `waitForByte` consumes the next event of a finite
sequence: either a byte that arrived, or a silence that outlasted the wait. Once the
events run out, every wait times out.

## Model

| member | source | states |
|---|---|---|
| IntelHexRecord.ParseRecord | src/services/hexConverter.ts:60-97 | A line is refused with MissingColon exactly when it does not start with ':', and with TooShort exactly when fewer than 10 characters follow the colon. An accepted record is well formed, and the hexadecimal pairs after the colon spell it out: the byte count is its data length, then come the address's high and low bytes, the type, the data bytes in order and the checksum the record must carry. Conversely, every line that starts with ':' and whose pairs spell out a record is accepted as exactly that record. |
| IntelHexRecord.ParsePayload | src/services/hexConverter.ts:74-90 | The payload is accepted exactly when the byteCount data pairs and the checksum pair are hexadecimal and the checksum is the two's complement of the sum of the count, both address bytes, the type and the data. The accepted record then carries the given address and type and exactly the data bytes read. A failure is a bad digit or a checksum mismatch. |
| IntelHexRecord.RecordRoundTrip | src/services/hexConverter.ts:60-97 | A well-formed record written out as a line with its correct checksum parses back as that record. |
| IntelHexRecord.ChecksumTamper | src/services/hexConverter.ts:79-90 | Changing the checksum byte by any delta that is nonzero modulo 256 makes the line fail with ChecksumMismatch. |
| IntelHexImage.NonBlank | src/services/hexConverter.ts:12 | The lines kept after trimming are all non-empty. |
| IntelHexImage.ParseAll | src/services/hexConverter.ts:12-13 | All or nothing: the parse succeeds exactly when every line parses, with one record per line in order. A failure carries the error of a line that failed. |
| IntelHexImage.BaseWithoutExtension | src/services/hexConverter.ts:18-29 | Before any type-2 or type-4 record, the base address is 0. |
| IntelHexImage.BaseFromLastExtension | src/services/hexConverter.ts:25-29 | The base in force is the one set by the last type-2 or type-4 record before that point. Other record types leave it alone. |
| IntelHexImage.ScanExtent | src/services/hexConverter.ts:16-30 | There is an extent exactly when some data record exists. It spans every data record's absolute range, and both its ends are reached by some data record. |
| IntelHexImage.LastWriteNone | src/services/hexConverter.ts:43-46 | An address gets no write exactly when no data record covers it. |
| IntelHexImage.LastWriteIsLast | src/services/hexConverter.ts:43-46 | The byte written at an address is the one from the last data record that covers it. |
| IntelHexImage.WriteRecords | src/services/hexConverter.ts:41-52 | Writing the records keeps the buffer's length. Each byte becomes the last write at its address, or stays as it was. |
| IntelHexImage.Image | src/services/hexConverter.ts:32-54 | With no data record the image fails with NoDataRecords. Otherwise it is maxAddr − minAddr long, and each byte is the last write at its address, or 0xFF where nothing was written. |
| IntelHexImage.HexToBinary | src/services/hexConverter.ts:11-55 | One bad line fails the whole decode with that line's error. Otherwise the result is the image of all the records. |
| IntelHexImage.BlankContentFails | src/services/hexConverter.ts:12-34 | Empty or blank-only content has no lines and fails with NoDataRecords. |
| IntelHexImage.ContiguousImage | src/services/hexConverter.ts:20-54 | Type-0 records that follow each other without gaps decode to the concatenation of their data. |
| IntelHexImage.ContiguousExtent | src/services/hexConverter.ts:20-30 | For such records, the extent runs from the first record's address to the end of the last record's data. |
| IntelHexImage.IsValidHexFile | src/services/hexConverter.ts:111-125 | The check never fails. It holds exactly when there is a non-blank line and the first one parses as a record. |
| IntelHexImage.DecodableIsValid | src/services/hexConverter.ts:111-125 | Every content that decodes also passes the validity check. |
| IntelHexImage.LinearAddressExample | src/services/hexConverter.ts:25-26 | A type-4 record 00 01 puts the data at 0x0001_0000 plus its address. |
| IntelHexImage.SegmentAddressExample | src/services/hexConverter.ts:27-28 | A type-2 record 12 34 puts the data at 0x12340 plus its address. |
| IntelHexImage.SignedLinearBase | src/services/hexConverter.ts:26 | Under 32-bit shift semantics, a type-4 high byte of 0x80 or more gives a negative base. |
| Crc16.CalculateCrc16 | src/services/ymodemService.ts:156-172 | The loop, run on a 32-bit register that is masked only once at the end, returns a value below 65536, equal to the reference CRC-16/XMODEM of the data. |
| Crc16.FoldByte | src/services/ymodemService.ts:160-168 | One pass of the outer loop (xor the byte into the high octet, then eight shift rounds) leaves the low 16 bits of the wide register equal to the 16-bit fold of that byte, whatever the bits above 15 hold. |
| Crc16.CheckValue | src/services/ymodemService.ts:153-172 | The CRC of "123456789" is 0x31C3, the check value of CRC-16/XMODEM. |
| YmodemFrame.Complement | src/services/ymodemService.ts:120 | The complement byte plus the block number modulo 256 is 255. |
| YmodemFrame.Frame | src/services/ymodemService.ts:115-131 | A frame is 3 + payload + 2 bytes: SOH, then the number modulo 256, its complement, the payload, and the CRC of the payload only, high byte first. |
| YmodemFrame.FrameRoundTrip | src/services/ymodemService.ts:115-128 | A receiver that checks SOH, the complement and the CRC accepts every frame, with its number and payload. |
| YmodemFrame.ParseFrameSound | src/services/ymodemService.ts:115-128 | Every packet that such a receiver accepts is exactly the frame of what it carries. |
| YmodemFrame.NumBlocks | src/services/ymodemService.ts:37 | The block count is the least count whose 128-byte blocks hold the file. It is 0 exactly for an empty file. |
| YmodemFrame.BlockNumberWraps | src/services/ymodemService.ts:50 | Block numbers advance modulo 256: 255, then 0, then 1. |
| YmodemFrame.DataPayload | src/services/ymodemService.ts:40-47 | Block k is 128 bytes: the file bytes from (k−1)·128 up to min(k·128, len), then 0x1A padding. |
| YmodemFrame.PayloadsRebuild | src/services/ymodemService.ts:39-50 | Concatenating the payloads of all blocks and cutting the result at the file length gives the file back. |
| YmodemFrame.BlockEndIncreasing | src/services/ymodemService.ts:41 | The end offsets of the blocks grow strictly with the block number. |
| YmodemFrame.LastBlockEnd | src/services/ymodemService.ts:41 | The last block ends at the file length. |
| YmodemFrame.HeaderPayload | src/services/ymodemService.ts:94-110 | The header is 128 bytes. It is all zeros for an empty name. Otherwise it holds the first 64 name bytes, then the decimal size at offset length+1 (the full name length). It fails when the size string does not fit in the block. |
| YmodemFrame.EmptyHeader | src/services/ymodemService.ts:94-97 | The closing header, for an empty name, is 128 zero bytes. |
| YmodemFrame.HeaderRoundTrip | src/services/ymodemService.ts:94-110 | A name of 1 to 64 bytes without NUL is read back from the header as that name and that size. |
| YmodemFrame.LongNameHidesSize | src/services/ymodemService.ts:100-106 | A name longer than 64 bytes is cut, but the size is still written after the full length. A receiver that reads the size after the first NUL finds none. |
| YmodemSender.Wire | src/services/ymodemService.ts:115-131 | The bytes of a block packet form a frame that a receiver accepts with that block's number and payload. Control bytes go out as they are. |
| YmodemSender.Step | src/services/ymodemService.ts:22-88 | One wait and what follows it. A silence always ends the transfer as a failure, and every failure writes only CAN CAN. |
| YmodemSender.SendFileIsExpected | src/services/ymodemService.ts:17-89 | Driving the transition function over any channel gives the slot-by-slot account. All waits up to the first refusing one accept, that wait's reason is the failure and CAN CAN is appended; with no refusal the transfer succeeds. |
| YmodemSender.StepSlot | src/services/ymodemService.ts:22-88 | Each wait either accepts and moves on to the next wait with that wait's outputs, or ends the transfer with CAN CAN and its reason. |
| YmodemSender.FirstRejected | src/services/ymodemService.ts:22-73 | The first wait that does not accept: every earlier wait accepts, and this one does not. |
| YmodemSender.SuccessCondition | src/services/ymodemService.ts:22-73 | A transfer succeeds exactly when the first byte is 'C', the header fits, every later wait sees some byte, and every data block is answered with ACK. |
| YmodemSender.SuccessTranscript | src/services/ymodemService.ts:29-73 | A successful transfer writes the header, each data block followed by its progress call, EOT and the closing empty header, and nothing else. |
| YmodemSender.ProgressOnSuccess | src/services/ymodemService.ts:58-61 | On success, the progress callback reports, in order, the end of each block, once per block. |
| YmodemSender.ProgressCountsIncrease | src/services/ymodemService.ts:39-61 | The reported counts grow strictly, and for a non-empty file the last one is the file length. |
| YmodemSender.CancelOnlyOnFailure | src/services/ymodemService.ts:74-88 | A failure writes CAN CAN exactly once, as the last output, and no earlier write is the two-byte CAN CAN packet. A success never writes it. |
| YmodemSender.NakStopsTransfer | src/services/ymodemService.ts:52-56 | A block answered with anything but ACK ends the transfer right after its frame. No later block, no EOT and no closing header are written. |
| YmodemSender.SilentChannel | src/services/ymodemService.ts:24 | A silent receiver makes the first wait time out. Only CAN CAN is written. |
| YmodemSender.NoCrcRequestFirst | src/services/ymodemService.ts:24-27 | A first byte other than 'C' is refused before anything else is written. |
| YmodemSender.HeaderTooLongFails | src/services/ymodemService.ts:30 | When the size does not fit in the header, the transfer fails before any frame is written. |
| YmodemSender.CooperativeSucceeds | src/services/ymodemService.ts:22-73 | A receiver that answers each wait as the protocol expects gets a successful transfer. |
| YmodemSender.SilenceAfterBlock | src/services/ymodemService.ts:53 | A receiver that goes silent after block k leaves the transfer timed out waiting for ACK, after the frame of block k+1. |
| SerialEscape.PadStart | src/components/SerialIO.tsx:33 | The result has at least the requested length, ends with the input, and has only the fill character before it. |
| SerialEscape.EscapeUnit | src/components/SerialIO.tsx:20-33 | The escape of one code unit is printable. It is one character long exactly when the unit is printable, and then it is the unit itself. Otherwise it starts with a backslash: 9, 10, 13 and 27 give \t, \n, \r and \e, and every other non-printable unit gives the \x form of HexEscape (lower-case hexadecimal, padded to two digits). |
| SerialEscape.HexEscape | src/components/SerialIO.tsx:31-33 | The escape is \x followed by the code unit's value in lower-case hexadecimal digits, at least two of them. A leading zero appears only as the padding of a one-digit value. |
| SerialEscape.Escape | src/components/SerialIO.tsx:16-36 | The display is printable ASCII and at least as long as the input. |
| SerialEscape.UnitRoundTrip | src/components/SerialIO.tsx:20-33 | Each code unit's escape reads back as that code unit, so no two code units share an escape. |
| SerialEscape.EscapeConcat | src/components/SerialIO.tsx:17-35 | Escaping distributes over concatenation. |
| SerialEscape.EscapeLength | src/components/SerialIO.tsx:16-36 | The display is exactly as long as the input if and only if every code unit is printable. |
| SerialEscape.PrintableUnchanged | src/components/SerialIO.tsx:20-23 | Printable text is shown unchanged. |
| SerialEscape.AmbiguousBackslash | src/components/SerialIO.tsx:26-30 | A line feed and the two characters backslash, 'n' are shown alike, so the display cannot be read back as a whole. |
| SerialEscape.NulEscape | src/components/SerialIO.tsx:31-33 | NUL is shown as \x00, padded to two digits. |
| SerialEscape.DelEscape | src/components/SerialIO.tsx:31-33 | DEL is shown as \x7f, in lower case. |
| SerialEscape.WideEscape | src/components/SerialIO.tsx:31-33 | U+2028 is shown with all four of its digits, as \x2028. |
| TemperatureStore.Initial | src/stores/temperatureStore.ts:10-13 | The initial store has no readings and is not parsing. |
| TemperatureStore.AddDataPoint | src/stores/temperatureStore.ts:18-28 | One reading is appended, stamped with the previous length. Earlier readings and the flag are unchanged, and the stamping invariant is kept. |
| TemperatureStore.SetIsParsing | src/stores/temperatureStore.ts:30 | Only the flag changes. |
| TemperatureStore.ClearData | src/stores/temperatureStore.ts:32 | The readings are emptied and the flag stays. |
| TemperatureStore.RunKeepsTimes | src/stores/temperatureStore.ts:15-33 | After any sequence of operations, every reading carries its index as its time. The series is as long as the adds since the last clear. |
| TemperatureStore.FromInitial | src/stores/temperatureStore.ts:10-33 | From the initial store, every history leaves a well-stamped series. |
| TemperatureStore.AddsOnlyAppend | src/stores/temperatureStore.ts:18-28 | A run of adds only appends. The earlier readings and the flag are kept. |
| TemperaturePlot.HandleLine | src/components/TemperaturePlot.tsx:41-60 | A blank line leaves the store as it was. |
| TemperaturePlot.HandleSerialData | src/components/TemperaturePlot.tsx:34-62 | After a chunk, the buffer holds no line feed, and the parsing flag is unchanged. |
| TemperaturePlot.Lines | src/components/TemperaturePlot.tsx:38-39 | The complete lines hold no line feed. |
| TemperaturePlot.HandleLinesAdds | src/components/TemperaturePlot.tsx:41-61 | The complete lines add exactly their readings, in order and at the end. Nothing before them changes, and the stamping invariant is kept. |
| TemperaturePlot.AtMostOnePerLine | src/components/TemperaturePlot.tsx:46-56 | Each complete line adds at most one reading. |
| TemperaturePlot.SilentLines | src/components/TemperaturePlot.tsx:42-56 | Lines that are blank after trimming, or that do not read, add nothing. |
| TemperaturePlot.Reconstruction | src/components/TemperaturePlot.tsx:35-39 | The complete lines, each followed by a line feed, and then the new buffer, are exactly the old buffer followed by the chunk. |
| TemperaturePlot.NoLineFeed | src/components/TemperaturePlot.tsx:35-39 | A chunk without a line feed completes no line and only extends the buffer. |
| TemperaturePlot.ChunkBoundaries | src/components/TemperaturePlot.tsx:34-61 | Two chunks handled one after the other leave the same buffer and store as their concatenation handled at once. |
| TemperaturePlot.Cleanup | src/components/TemperaturePlot.tsx:66-69 | A disconnect empties the buffer and stops parsing; the readings stay. |
| TemperaturePlot.Connect | src/components/TemperaturePlot.tsx:31 | Connecting starts parsing; the readings and the buffer stay. |
| TemperaturePlot.CleanupForgetsPartialLine | src/components/TemperaturePlot.tsx:66-69 | After a disconnect, the next chunk is framed on its own, as in a fresh plot. |
| PcrStore.Set | src/stores/pcrStore.ts:41 | The spread update sets the chosen field and leaves every other field as it was. |
| PcrStore.InitialForm | src/stores/pcrStore.ts:15-32 | Every field of the initial form, the protocol name included, is empty. |
| PcrStore.UpdateField | src/stores/pcrStore.ts:39-42 | The field takes the value. No other field changes, and neither do the drives. |
| PcrStore.SetSelectedDrive | src/stores/pcrStore.ts:44 | Only the selected drive changes. |
| PcrStore.SetAvailableDrives | src/stores/pcrStore.ts:46 | Only the drive list changes. |
| PcrStore.Reset | src/stores/pcrStore.ts:85 | Every field becomes empty and the drives stay. |
| PcrStore.UpdateSameValue | src/stores/pcrStore.ts:39-42 | Writing a field's own value back changes nothing. |
| PcrStore.UpdatesCommute | src/stores/pcrStore.ts:39-42 | Updates to different fields commute. |
| PcrStore.UpdateOverrides | src/stores/pcrStore.ts:39-42 | A later update of a field overrides an earlier one. |
| PcrStore.ResetForgets | src/stores/pcrStore.ts:85 | Whatever was typed, a reset gives the initial form back. |
| PcrStore.GetProtocol | src/stores/pcrStore.ts:48-51 | The protocol name is copied unchanged. |
| PcrStore.StageReadsItsFields | src/stores/pcrStore.ts:50-81 | Stage i carries the i-th fixed name. Its temperature is parseFloat(...) \|\| 0 of its own temperature field; its cycles and seconds are parseInt(...) \|\| 0 of its own fields. |
| PcrStore.ReadStagesAt | src/stores/pcrStore.ts:50-81 | The stages are listed in the fixed order, each read from its own fields. |
| PcrStore.OtherFieldsDoNotMatter | src/stores/pcrStore.ts:48-83 | Typing into another stage's field, or into the name, leaves stage i as it was. |
| PcrStore.NoDigitsGiveZero | src/stores/pcrStore.ts:55-56 | A cycles or seconds field without any digit, the empty one included, gives 0. |
| PcrStore.EmptyProtocol | src/stores/pcrStore.ts:15-83 | The untouched form gives an unnamed protocol whose stages have the fixed names and are all zero. |
| JsNumber.ToRadixLower | src/components/SerialIO.tsx:33 | toString writes the digits above 9 as lower-case letters. |
| JsNumber.ParseIntToString | src/stores/pcrStore.ts:55-56 | parseInt reads back every integer written in decimal. |
| JsNumber.ParseIntNoDigits | src/stores/pcrStore.ts:55-56 | Text without a decimal digit gives NaN, so parseInt(...) \|\| 0 gives 0. |
| JsText.Split | src/components/TemperaturePlot.tsx:38 | The pieces hold no separator, there is at least one, and joining them gives the text back. |
| JsText.SplitJoin | src/services/storageService.ts:36 | Pieces without the separator, once joined, split back into the same pieces. |
| ProtocolStorage.CsvLines | src/services/storageService.ts:19-35 | There are six lines: the header, then the five stages in their fixed order. |
| ProtocolStorage.FirstLineIsHeader | src/services/storageService.ts:20-36 | Whatever the protocol holds, the first line of the file is Stage,Temperature,TimeSec,Cycles. |
| ProtocolStorage.SixLines | src/services/storageService.ts:19-37 | When no name or written temperature holds a line feed, the file reads back as exactly the header and the five stage lines. |
| ProtocolStorage.NoTrailingLineFeed | src/services/storageService.ts:36 | The file ends with the last digit of the final stage's cycles, a decimal digit, so not with a line feed. |
| ProtocolStorage.StageLineFields | src/services/storageService.ts:31-33 | A stage line splits at its commas into name, temperature, seconds and cycles, with seconds before cycles. Both counts read back through parseInt. |
| ProtocolStorage.FileName | src/services/storageService.ts:10 | The file name always ends in ".txt". |
| ProtocolStorage.NamedFile | src/services/storageService.ts:10 | A named protocol is saved under its own name. |
| ProtocolStorage.UnnamedFile | src/services/storageService.ts:10 | A protocol without a name is saved as protocol.txt. |

## Left out

- Web Serial I/O (serialService) is not part of this model. Reads and writes become the event sequence and the output list.
- Wall-clock timing in `waitForByte` (the 100 ms polls, the 10 s and 3 s budgets) is left out. A timeout is an input event.
- Failing writes are not modelled. `writeBytes` always succeeds, including the CAN CAN write whose errors the sender ignores.
- The transfer's error message text is left out. A failure carries a `Failure` value instead: Timeout with the awaited byte, NoCrcRequest, BlockNotAcked(k) or HeaderTooLong.
- The progress callback is modelled as always present. Without a callback the outputs lose their Progress entries and nothing else changes.
- TextEncoder is not modelled. The file name's UTF-8 bytes are a given part of the transfer; the size string is ASCII.
- The HEX decoder's `parseInt(…, 16)` on two- and four-character fields is modelled strictly. A field with a non-hex character is refused with BadDigit, and a line too short for its byte count and checksum is refused with Truncated. JavaScript's lenient prefix parsing and NaN bytes are left out. For example, the program accepts `:01000000FA5`: the checksum field is the single digit "5", and `parseInt("5", 16)` equals the computed checksum 0x05. `ParseRecord` refuses that line with Truncated.
- `convertHexFile`, `saveWithFileSystemAccess`, `downloadFile` and `getAvailableDrives` are browser file APIs and stub data, and are left out.
- Floating point is not modelled. Temperatures are reals. `parseFloat` (as a `JsString -> Option<real>`, None for NaN), number-to-string for temperatures (`ShowNumber`) and the plot's two temperature patterns (`Reader`) are parameters. The plot's axis ranges are not modelled.
- JsNumber.IntToString: writes every integer in plain decimal. JavaScript switches to exponent notation from 1e21 on, which is not modelled.
- JsNumber.ParseInt: returns the exact integer. JavaScript's parseInt returns a double, so a magnitude above 2^53 is rounded to the nearest double (`parseInt("9007199254740993")` is 9007199254740992). Stage fields and the CSV line therefore agree with the program only for magnitudes up to 2^53.
- The React components, theming, the log, serial and firmware stores, and the Python scripts are not part of this model.
- Behaviour of the code that differs from a textbook YMODEM or Intel HEX reading, which the model keeps:
  - Empty HEX input fails with NoDataRecords; there is no separate empty-input error.
  - A silent channel at the first wait is a Timeout failure, not NoCrcRequest.
  - Silence after a data block is Timeout(ACK), not BlockNotAcked.
  - The CRC register is masked to 16 bits only at the end. `Crc16.CalculateCrc16` shows that the result is the same.

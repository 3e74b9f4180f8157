# eepromrw: host tool and 24AA512 firmware, modelled and verified in Dafny

`eepromrw` copies a file into a serial EEPROM, or reads one back, through an
Arduino controller. The host tool (`eepromrw.py`) and the firmware
(`eepromrw_arduino/24AA512.cpp`) talk over a serial line in 3-byte tokens
("rst", "wrt", "rd ", "chk", "ack", "nck") and small little-endian fields.

- **Handshake.** The host opens a transfer with "rst", the mode and the chip
  name ended by ";".
- **Chunks.** The data then moves in chunks of at most 16 bytes. The transfer
  is split into full chunks plus one remainder chunk.
- **Per-chunk protocol.** Each chunk is announced with "chk". It carries a
  2-byte size and the payload. It also carries a 4-byte checksum: the byte sum
  modulo 256.
- **Acknowledgement.** Each step is answered "ack" or "nck".
- **Firmware state.** The firmware keeps a 16-bit `addressOffset` into the
  EEPROM. It advances only when a chunk has really been stored (writing) or
  acknowledged by the host (reading).

The model has five modules:

- `Wire` (wire.dfy): bytes, tokens, the little-endian codec and its round
  trips, the checksum and its 4-byte field.
- `Host` (host.dfy): `eepromrw.py`.
  - A value `HostIO` holds what the host can observe or change: the
    controller's unread bytes, everything sent, the unread rest of the source
    file, and the destination file.
  - Specification functions on `HostIO` describe `wait_for_ack`,
    `do_write_chunk`, `do_read_chunk` and whole transfers.
  - The imperative procedures (`WaitForAck`, `DoWriteChunk`, `DoReadChunk`,
    `DoWrite`, `DoRead`) work on the objects `SerialPort` and `FileBuffer`.
    Each is proved to compute its specification function.
  - `FindLowestBarDivider` is a loop over an integer alone; its contract
    states the divider it returns directly.
- `HostProperties` (host_properties.dfy): what the host's protocol promises
  about one chunk and about the handshake, as lemmas.
- `HostTransfers` (host_transfers.dfy): whole transfers. It cuts a file into
  chunks the way the transfer loop does. When every step is acknowledged, a
  write sends exactly those chunks in order, and a read appends exactly the
  data the controller sent.
- `Device` (device.dfy): `24AA512.cpp`.
  - A value `Device` holds the unread serial input, the serial output,
    `addressOffset`, the EEPROM (64 KiB plus its address pointer), and the
    outcomes of the coming I2C writes.
  - Staged functions specify `write_chunk`, `read_chunk` and the command
    loops.
  - The class `Controller` has the same state as fields. Its methods are proved
    to compute those functions: `WriteChunk`, `ReadChunk`, `ChipWrite`,
    `ChipRead`, the copy loops, and the `simpleChecksum` loop.
- `DeviceProperties` (device_properties.dfy): what the firmware promises, as
  lemmas.
- `Agreement` (agreement.dfy): host and firmware run against each other. The
  host's output is the firmware's input, and the firmware's output is the
  host's inbox.

Each side's retries are bounded by the data available to it. A host retry
consumes at least three bytes of the controller's replies. The firmware's loop
consumes at least one byte of the host's data per command. So every function
terminates on finite streams, and an unbounded retry corresponds to an
unbounded stream, any finite prefix of which the model covers.

### What the agreement lemmas show about the protocol

**Write chunks.** On a write chunk the firmware answers with five tokens:
1. "ack" to "chk" (24AA512.cpp:93);
2. "ack" to the size (:34);
3. "ack" to the payload (:44);
4. "ack" to the checksum (:55);
5. the verdict of the I2C write (:66 or :72).

The host waits for only four (eepromrw.py:51, 59, 65, 70), so it reports a
chunk as written whether or not the EEPROM accepted it
(`Agreement.WriteChunkAgreement`). The verdict stays unread. Take the first
chunk of a transfer, when nothing stale is pending yet. If its write failed,
the host sees the stale "nck" as the answer to its NEXT "chk". That next chunk
then fails at its announcement although the firmware acknowledged it
(`Agreement.WriteFailureSeenOneChunkLate`). A failed EEPROM write of the last
chunk is never reported at all.

Each accepted write chunk leaves one more unread token behind. So the stale
"nck" of a failed write on a later chunk is read at one of the four steps of
a later chunk, depending on how many tokens are pending. At the announcement,
the size or the payload the transfer fails. At the checksum it retries with
the next bytes of the file. By the token count: a failure of chunk 2 is read
at chunk 3's size, one of chunk 3 at chunk 4's payload, one of chunk 4 at
chunk 5's checksum, and one of chunk 5 at chunk 7's announcement. The model
proves only the first-chunk case.

**Read chunks.** On a read chunk both sides agree byte for byte
(`Agreement.ReadChunkAgreement`).

**Two consequences of following the code literally.**
- `find_lowest_bar_divider` searches the dividers 1 to 64 only. For 3000
  chunks no divider in that range brings the bar to 30 segments or fewer, so
  the result is 64, not the 100 that an unbounded search would find.
- `do_write_chunk`'s retry after a refused checksum reads the next bytes of the
  file rather than re-sending the refused ones (`HostProperties.WriteRetryReadsNextBytes`).

## Model

| member | source | states |
|---|---|---|
| `Wire.Take` | eepromrw.py:148-151 | A read of `n` bytes returns exactly `n` bytes when that many are there, otherwise everything that is left, and the stream is that prefix followed by the rest |
| `Wire.Checksum` | eepromrw.py:56 | The chunk checksum, the byte sum modulo 256 (`sum(b) % 256`, also eepromrw.py:152); no contract of its own: `Device.SimpleChecksum` is proved to return it, `Wire.ChecksumFieldLayout` states the four-byte field that carries it, and the Agreement lemmas show both ends compare the same value |
| `Wire.LE` | eepromrw.py:58 | Little-endian encoding of `x` in `width` bytes (`struct.pack("<H")` for sizes at eepromrw.py:58 and 143, `"<I"` for the checksum at eepromrw.py:69): the result has exactly `width` bytes; `Wire.FromLEOfLE` proves it decodes back to `x` for every `x` below 256^width |
| `Wire.FromLE` | eepromrw.py:148-149 | Little-endian decoding (`struct.unpack`, and the firmware's `readBytes` into a `uint16_t`/`uint32_t`): the value is below `256^|s|`; `Wire.LEOfFromLE` proves re-encoding it gives `s` back |
| `Wire.FromLEOfLE` | eepromrw.py:58 | A value below 256^width packed little-endian (`struct.pack("<H")`, `"<I"`) decodes back to itself, as the firmware's raw `readBytes` into an integer does |
| `Wire.LEOfFromLE` | eepromrw_arduino/24AA512.cpp:47 | Every received byte field is the little-endian encoding of the integer it decodes to, so the decoding loses nothing |
| `Wire.ChecksumFieldLayout` | eepromrw.py:69 | The 4-byte checksum field is the checksum byte followed by three zero bytes, and it decodes to the checksum |
| `Host.AwaitAck` | eepromrw.py:21-28 | `wait_for_ack` consumes exactly three bytes when three are there and answers "acked" if and only if they are "ack"; with fewer than three it never returns (no bytes consumed) |
| `Host.WriteChunk` | eepromrw.py:45-74 | `do_write_chunk` only appends to what was sent, only consumes replies, and never touches the destination file |
| `Host.ReadChunk` | eepromrw.py:135-167 | `do_read_chunk` only appends to what was sent and to the destination file, only consumes replies, and never touches the source file |
| `Host.ReceiveChunk` | eepromrw.py:148-167 | The same guarantees for the part of `do_read_chunk` after the size was acknowledged |
| `Host.Split` | eepromrw.py:107-109 | `chunks * CHUNK_SIZE + remaining == size` and `0 <= remaining < CHUNK_SIZE`, for any integer size, negative ones included |
| `Host.Iterations` | eepromrw.py:115 | How many times `range(n)` runs; `HostProperties.ReadSessionLength` uses it to show a negative chunk count exchanges no full chunk |
| `Host.Exchange` | eepromrw.py:119 | One chunk exchange of `n` bytes, a write chunk for a write and a read chunk for a read (`do_write_chunk`, or `do_read_chunk` at eepromrw.py:212); `HostProperties.ExchangeAnnounces` states it always begins by sending "chk" |
| `Host.Exchanges` | eepromrw.py:115-120 | The loop over the full chunks (also eepromrw.py:208-213), stopping at the first failure; `Host.ExchangesStopAtFirstFailure`, `HostProperties.ExchangesExtendSent`, `HostProperties.ExchangesReadLength`, `HostTransfers.ExchangesWriteAllAcked` and `HostTransfers.ExchangesReadAllAcked` state what it sends, receives and where it stops |
| `Host.Transfer` | eepromrw.py:115-128 | The full chunks, then one final chunk of the remaining bytes, exchanged even when empty, unless a full chunk failed (also eepromrw.py:208-221); `HostProperties.EmptyRemainderStillExchanged` and `HostTransfers.TransferLast` state it |
| `Host.Session` | eepromrw.py:97-131 | A whole `do_write` (and `do_read`, eepromrw.py:190-224) after the port opens: handshake, then `Transfer`; `Host.DoWrite` and `Host.DoRead` are proved equal to it, and `HostProperties.SessionStartsWithHandshake`, `HostProperties.HandshakeRefused`, `HostProperties.ReadSessionLength`, `HostTransfers.WriteSessionSendsFile` and `HostTransfers.ReadSessionReceivesData` state what it sends and stores |
| `Host.ExchangesStopAtFirstFailure` | eepromrw.py:115-120 | Once a chunk exchange fails, no later chunk is exchanged: the loop's outcome and state are those of the first failure |
| `Host.SerialPort.Write` | eepromrw.py:50 | `ser.write` appends its bytes to what was sent and consumes no reply |
| `Host.SerialPort.Read` | eepromrw.py:148 | `ser.read(n)` returns the next `n` reply bytes, or all that remain, and consumes exactly those |
| `Host.FileBuffer.Read` | eepromrw.py:48 | `file.buffer.read(n)` returns the next `n` bytes of the file, or all that remain, and moves the cursor past exactly those |
| `Host.FileBuffer.Write` | eepromrw.py:165 | `file.buffer.write` appends its bytes to the file |
| `Host.FindLowestBarDivider` | eepromrw.py:15-19 | The result is in 1..64, every smaller divider leaves more than 30 bar segments, and the result leaves at most 30 unless it is 64 (so 0 or a negative number of chunks gives 1) |
| `Host.WaitForAck` | eepromrw.py:21-28 | Computes `AwaitAck` on the port's pending bytes, sends nothing |
| `Host.DoWriteChunk` | eepromrw.py:45-74 | The procedure's outcome, the port and the file are exactly those of `WriteChunk`, retries included |
| `Host.DoReadChunk` | eepromrw.py:135-167 | The procedure's outcome, the port and the file are exactly those of `ReadChunk`, retries included |
| `Host.DoWrite` | eepromrw.py:97-131 | Handshake, full-chunk loop and remainder chunk, with the whole file as the transfer size, are exactly `Session(…, ToChip, …)` |
| `Host.DoRead` | eepromrw.py:190-224 | Handshake, full-chunk loop and remainder chunk for any integer `amount` are exactly `Session(…, FromChip, …)`; a negative `amount` runs the loop zero times |
| `HostProperties.WriteChunkAllAcked` | eepromrw.py:48-74 | With four "ack"s, the host sends "chk", the 2-byte size, the next `n` file bytes and their 4-byte checksum, in that order, consumes exactly four replies and reports success |
| `HostProperties.WriteChunkRefusalIsFinal` | eepromrw.py:50-67 | A refusal of the announcement, the size or the payload ends the chunk at once with a failure at that step, having sent only the messages up to that step, and no retry |
| `HostProperties.WriteRetryReadsNextBytes` | eepromrw.py:69-72 | A refused checksum restarts the exchange with the NEXT bytes of the file: the file cursor is not rewound |
| `HostProperties.ReadChunkRefusalIsFinal` | eepromrw.py:138-146 | A refusal of the read announcement or of the size ends the chunk at once with a failure at that step, having sent only the messages up to that step; no checksum is read, the file is untouched, and there is no retry |
| `HostProperties.ReadAnnounceRefused` | eepromrw.py:138-141 | A refused read announcement fails the chunk at `Announce` after only "chk" was sent, with the file untouched |
| `HostProperties.ReadSizeRefused` | eepromrw.py:143-146 | A refused size fails the read chunk at `SizeField` after "chk" and the size were sent, with the file untouched |
| `HostProperties.ReadAwait` | eepromrw.py:24-27 | Waiting for an answer consumes the three bytes at the head of the inbox, "acked" exactly when they are "ack" |
| `HostProperties.ReadChunkOutcomes` | eepromrw.py:148-167 | After the size "ack": a checksum mismatch sends "nck" and retries; a match with a short payload sends "nck" and fails with the file untouched; otherwise "ack" is sent and exactly the payload is appended |
| `HostProperties.ReadChunkAppendsOnlyOnSuccess` | eepromrw.py:154-167 | Whatever the retries, a successful chunk read appends exactly `n` bytes and any other outcome leaves the file as it was |
| `HostProperties.ExchangesReadLength` | eepromrw.py:208-215 | `k` successful full-chunk reads append `k * CHUNK_SIZE` bytes |
| `HostProperties.ReadSessionLength` | eepromrw.py:200-222 | A read transfer of `amount` bytes that succeeds appends exactly `amount` bytes to the file; for a negative `amount` it appends `amount` modulo 16 bytes (11 for -5) |
| `HostProperties.ExchangesExtendSent` | eepromrw.py:115-120 | The chunk loop only ever appends to what was sent |
| `HostProperties.SessionStartsWithHandshake` | eepromrw.py:97-99 | Every transfer sends "rst", the mode command and the chip name with ";" before anything else |
| `HostProperties.HandshakeRefused` | eepromrw.py:100-102 | If the handshake is not acknowledged, the transfer ends (failed, or waiting forever) with only the handshake sent and neither file touched |
| `HostTransfers.Chunks` | eepromrw.py:107-109 | The pieces a transfer cuts a file into: the full 16-byte chunks, then the possibly empty remainder; `HostTransfers.ChunksCoverFile` and `HostTransfers.ChunksSplit` state their count, sizes and that they concatenate to the file |
| `HostTransfers.ChunksCoverFile` | eepromrw.py:107-109 | A file of `s` bytes is cut into `s / 16` full chunks and one remainder of `s % 16` bytes, possibly empty, which back to back are the file |
| `HostTransfers.WriteChunkSends` | eepromrw.py:45-74 | A write chunk acknowledged four times sends the full request for the next `|b|` bytes of the file and moves the file cursor past them |
| `HostTransfers.ReadChunkSizeAcked` | eepromrw.py:138-146 | After "ack" to the announcement and to the size, `do_read_chunk` goes on to the checksum, having sent "chk" and the 2-byte size |
| `HostTransfers.ReceiveIntact` | eepromrw.py:148-167 | A checksum field that matches a full payload is answered "ack", and exactly the payload is appended |
| `HostTransfers.ReadChunkReceives` | eepromrw.py:135-167 | A read chunk answered intact sends "chk", the size and "ack", and appends exactly the chunk's bytes |
| `HostTransfers.ExchangesWriteAllAcked` | eepromrw.py:115-120 | Full write chunks, all acknowledged, are sent in order, each with the next 16 bytes of the file |
| `HostTransfers.ExchangesReadAllAcked` | eepromrw.py:208-213 | Full read chunks, all answered intact, append their bytes to the file in order |
| `HostTransfers.SessionAfterHandshake` | eepromrw.py:97-109 | An acknowledged handshake leads to the full-chunk loop and the remainder chunk for the split size |
| `HostTransfers.WriteSessionSendsFile` | eepromrw.py:97-131 | A write transfer that is acknowledged throughout ends `Done`: after the handshake the host sends the requests for the file's chunks in order, the remainder last, and reads the file to its end |
| `HostTransfers.ReadSessionReceivesData` | eepromrw.py:190-224 | A read transfer of `|data|` bytes whose replies all arrive intact ends `Done`: after the handshake the host requests every chunk in order, and the destination file gains exactly `data` |
| `HostProperties.ExchangeAnnounces` | eepromrw.py:138 | Every chunk exchange, in both directions and even of zero bytes, sends "chk" first |
| `HostProperties.EmptyRemainderStillExchanged` | eepromrw.py:127-128 | After the full chunks succeed, the remainder chunk is announced even when it holds no bytes |
| `Device.WriteChunkStep` | eepromrw_arduino/24AA512.cpp:21-73 | `write_chunk` only consumes the host's bytes and only appends to the serial output |
| `Device.WriteSized` | eepromrw_arduino/24AA512.cpp:28-44 | The same, from the size check on |
| `Device.WriteReceived` | eepromrw_arduino/24AA512.cpp:46-55 | The same, from the remote checksum on |
| `Device.Commit` | eepromrw_arduino/24AA512.cpp:59-72 | The I2C write and its verdict read nothing from the host and only append to the output |
| `Device.ReadChunkStep` | eepromrw_arduino/24AA512.cpp:103-154 | `read_chunk` only consumes the host's bytes and only appends to the serial output |
| `Device.ReadSized` | eepromrw_arduino/24AA512.cpp:110-126 | The same, from the size check on |
| `Device.SendChunk` | eepromrw_arduino/24AA512.cpp:130-153 | The same, for the transfer of the chunk and the host's answer |
| `Device.Advance` | eepromrw_arduino/24AA512.cpp:70 | `addressOffset += n` on a 16-bit offset (also 24AA512.cpp:153): no wrap while `a + n` stays below 2^16; `DeviceProperties.CommitOutcome`, `DeviceProperties.WriteFrameStoresAt`, `DeviceProperties.ReadChunkAdvancesOnlyOnAck` and `DeviceProperties.OffsetWithin` state when and by how much the offset moves |
| `Device.AddressBytes` | eepromrw_arduino/24AA512.cpp:60-61 | The two address bytes, high byte first (also 24AA512.cpp:119-120): exactly two bytes whose big-endian value is the address, which is how the EEPROM reads them back; `DeviceProperties.WriteFrameStoresAt` and `DeviceProperties.AddressOnly` build on it |
| `Device.Device.Transmit` | eepromrw_arduino/24AA512.cpp:59-63 | One I2C write transaction: it succeeds exactly when the next bus outcome is an acknowledgement (or none is left), consumes that outcome, touches neither the serial streams nor the offset, and changes the chip only when acknowledged; `Device.Controller.EndTransmission` is proved equal to it |
| `Device.Device.Request` | eepromrw_arduino/24AA512.cpp:130-137 | `Wire.requestFrom` and the reads: exactly `n` bytes, memory unchanged, nothing but the chip's pointer changes; `Device.Controller.RequestFrom` is proved equal to it and `DeviceProperties.SendChunkOutcome` states what reaches the host |
| `Device.HandleChunk` | eepromrw_arduino/24AA512.cpp:94 | Handling a chunk only consumes the host's bytes, so the command loop terminates |
| `Device.SimpleChecksum` | eepromrw_arduino/24AA512.cpp:13-19 | The loop over a 16-bit accumulator returns the byte sum modulo 256 of the first `length` bytes, the same value as the host's `sum(b) % 256` |
| `Device.Controller.ReadBytes` | eepromrw_arduino/24AA512.cpp:26 | `Serial.readBytes` returns the next `n` bytes or all that remain and consumes exactly those |
| `Device.Controller.SerialWrite` | eepromrw_arduino/24AA512.cpp:140 | `Serial.write` appends its bytes to the output |
| `Device.Controller.Ack` | eepromrw_arduino/24AA512.cpp:7 | `ack()` appends "ack" to the output |
| `Device.Controller.Nck` | eepromrw_arduino/24AA512.cpp:8 | `nck()` appends "nck" to the output |
| `Device.Controller.EndTransmission` | eepromrw_arduino/24AA512.cpp:59-63 | An I2C write transaction returns 0 exactly when the chip acknowledges, and only then stores the frame |
| `Device.Controller.RequestFrom` | eepromrw_arduino/24AA512.cpp:130 | `Wire.requestFrom` delivers the bytes from the chip's address pointer on and moves the pointer past them |
| `Device.Controller.WriteChunk` | eepromrw_arduino/24AA512.cpp:21-73 | The new state is exactly `WriteChunkStep` of the old one |
| `Device.Controller.CheckAndCommit` | eepromrw_arduino/24AA512.cpp:46-72 | The new state is exactly `WriteReceived` of the old one and the received chunk |
| `Device.Controller.ReadChunk` | eepromrw_arduino/24AA512.cpp:103-154 | The new state is exactly `ReadChunkStep` of the old one |
| `Device.Controller.SendChunkBytes` | eepromrw_arduino/24AA512.cpp:130-153 | The checksum is computed over the copied buffer and sent before the bytes; the new state is exactly `SendChunk` of the old one |
| `Device.Controller.CopyAvailable` | eepromrw_arduino/24AA512.cpp:132-137 | The `Wire.read` loop fills a fresh `chunk` buffer whose first `chunkSize` bytes are exactly the bytes the chip delivered |
| `Device.Serve` | eepromrw_arduino/24AA512.cpp:80-100 | The command loop (also 24AA512.cpp:161-181) until "rst" or the end of input: "chk" is acknowledged and one chunk handled, any other command refused; `DeviceProperties.ServeChunkCommand`, `DeviceProperties.UnknownCommandsRefused`, `DeviceProperties.RstExits` and `DeviceProperties.ServeReadingKeepsMemory` state its behaviour, and `Device.Controller.ServeCommands` is proved equal to it |
| `Device.CommandLoop` | eepromrw_arduino/24AA512.cpp:75-101 | `chip_24AA512_write` (and `chip_24AA512_read`, 24AA512.cpp:156-182): the offset reset to 0, then `Serve`; `Device.Controller.ChipWrite` and `Device.Controller.ChipRead` are proved equal to it |
| `Device.Controller.ChipWrite` | eepromrw_arduino/24AA512.cpp:75-101 | Resets `addressOffset` to 0, then serves write commands: the new state is `CommandLoop(old, Writing)` |
| `Device.Controller.ChipRead` | eepromrw_arduino/24AA512.cpp:156-182 | Resets `addressOffset` to 0, then serves read commands: the new state is `CommandLoop(old, Reading)` |
| `Device.Controller.ServeCommands` | eepromrw_arduino/24AA512.cpp:80-100 | The command loop's new state is exactly `Serve` of the old one |
| `DeviceProperties.SizeFieldDecodes` | eepromrw_arduino/24AA512.cpp:26 | The 2-byte size field is read whole and decodes to the size the host packed |
| `DeviceProperties.WriteOversizeRefused` | eepromrw_arduino/24AA512.cpp:28-32 | A size above CHUNK_SIZE is answered "nck" before any payload is read, and nothing else changes |
| `DeviceProperties.ReadOversizeRefused` | eepromrw_arduino/24AA512.cpp:110-114 | A size above CHUNK_SIZE is answered "nck" without addressing the EEPROM, and nothing else changes |
| `DeviceProperties.WriteShortPayloadRefused` | eepromrw_arduino/24AA512.cpp:34-40 | A payload shorter than its size is answered "ack" (size) then "nck", and the EEPROM and `addressOffset` are untouched |
| `DeviceProperties.WriteChunkComplete` | eepromrw_arduino/24AA512.cpp:21-73 | On a complete chunk: "ack", "ack", then "nck" on a checksum mismatch, else "ack" and the I2C verdict; the chunk is stored at `addressOffset` and the offset advances by its size modulo 2^16 if and only if the checksum matched and the chip acknowledged |
| `DeviceProperties.CommitOutcome` | eepromrw_arduino/24AA512.cpp:59-72 | The I2C write stores the chunk and advances `addressOffset` and answers "ack" when the chip acknowledges, and otherwise answers "nck" and changes nothing |
| `DeviceProperties.WriteChunkChangesOnlyOnSuccess` | eepromrw_arduino/24AA512.cpp:21-73 | For every input, if `write_chunk` changes the EEPROM or `addressOffset` then it answered exactly four "ack"s and no "nck" |
| `DeviceProperties.WriteFrameStoresAt` | eepromrw_arduino/24AA512.cpp:59-63 | The address goes out high byte first, so the chunk is stored from `addressOffset` on and the chip's pointer ends just past it |
| `DeviceProperties.StoreThenLoad` | eepromrw_arduino/24AA512.cpp:59-62 | Bytes stored from an address read back from that address |
| `DeviceProperties.StoreNothing` | eepromrw_arduino/24AA512.cpp:118-121 | An address-only transaction stores nothing |
| `DeviceProperties.ReadAddressRefused` | eepromrw_arduino/24AA512.cpp:116-125 | When the I2C transaction that sets the address fails, the size "ack" is followed by "nck" and nothing else: no data is sent, memory and `addressOffset` are unchanged, one bus outcome is used |
| `DeviceProperties.ReadChunkAdvancesOnlyOnAck` | eepromrw_arduino/24AA512.cpp:103-154 | For every input: if `addressOffset` changes, the three bytes after the size field are "ack" and the offset has advanced by the size field's value, modulo 2^16 |
| `DeviceProperties.ReadChunkComplete` | eepromrw_arduino/24AA512.cpp:103-154 | With the chip answering: "ack", the 4-byte checksum of the bytes stored from `addressOffset`, and those `n` bytes; `addressOffset` advances by `n` modulo 2^16 if and only if the host answers "ack"; memory unchanged |
| `DeviceProperties.AddressOnly` | eepromrw_arduino/24AA512.cpp:118-126 | The address transaction succeeds, sets the chip's pointer to `addressOffset` and leaves memory as it was |
| `DeviceProperties.SendChunkOutcome` | eepromrw_arduino/24AA512.cpp:130-153 | The checksum field and the bytes from the pointer on are sent, and the offset advances only on "ack" |
| `DeviceProperties.ReadChunkKeepsMemory` | eepromrw_arduino/24AA512.cpp:103-154 | For every input, `read_chunk` never changes the EEPROM's contents |
| `DeviceProperties.ServeReadingKeepsMemory` | eepromrw_arduino/24AA512.cpp:161-181 | The whole read command loop never changes the EEPROM's contents |
| `DeviceProperties.ServeReadChunk` | eepromrw_arduino/24AA512.cpp:103-154 | One "chk" read command served by the loop: the host gets "ack", "ack", the checksum field and the bytes from the offset on, its one-token answer is consumed, memory is unchanged and the offset advances only when that answer is "ack" |
| `DeviceProperties.ReadRetryRereads` | eepromrw_arduino/24AA512.cpp:144-153 | A chunk the host refuses is served again from the same addresses: the same checksum and bytes go out twice and `addressOffset` advances once |
| `DeviceProperties.ServeChunkCommand` | eepromrw_arduino/24AA512.cpp:91-95 | "chk" is answered "ack", exactly one chunk is handled, and the loop continues with what follows |
| `DeviceProperties.UnknownCommandsRefused` | eepromrw_arduino/24AA512.cpp:96-99 | Any run of 3-byte commands other than "rst" and "chk" gets one "nck" each and changes nothing else |
| `DeviceProperties.RstExits` | eepromrw_arduino/24AA512.cpp:87-90 | "rst" ends the command loop at once, leaving the rest of the input unread and all state as it was |
| `Agreement.WriteChunkAgreement` | eepromrw.py:45-74 | Host against firmware on one write chunk: the firmware stores the chunk (and advances `addressOffset`) only if the chip acknowledges, and sends four "ack"s plus the verdict; the host reports success in either case, having sent exactly what the firmware consumed, and leaves the verdict unread |
| `Agreement.ReadChunkAgreement` | eepromrw.py:135-167 | Host against firmware on one read chunk: the host receives the checksum and the bytes stored at `addressOffset`, accepts them, appends exactly them to its file, and the firmware advances `addressOffset` by `n` |
| `Agreement.WriteFailureSeenOneChunkLate` | eepromrw.py:115-120 | For the first chunk of a transfer (no stale token pending): when its EEPROM write fails, the host still reports it written, and the next chunk fails at its announcement on the stale "nck" although the firmware acknowledged it |
| `Agreement.FailedWriteThenAnnounce` | eepromrw_arduino/24AA512.cpp:63-68 | The firmware answers a failed I2C write with "nck", stores nothing, keeps `addressOffset`, and acknowledges the next "chk" |
| `Agreement.StaleVerdictFailsNextChunk` | eepromrw.py:50-53 | The host reports the first chunk written with "nck" "ack" left unread, then fails the second at its announcement |
| `Agreement.FirstChunkLeavesVerdict` | eepromrw.py:65-74 | Four "ack"s complete a write chunk; whatever follows them stays unread |
| `Agreement.StaleNckRefusesAnnounce` | eepromrw.py:50-53 | An "nck" waiting in the inbox fails the next write chunk at its announcement, after only "chk" was sent |

## Left out

- Command-line parsing and `main` (eepromrw.py:229 on), the supported-chip list, and the firmware's top-level dispatcher that calls `chip_24AA512_write`/`chip_24AA512_read`: the firmware's main program is not part of this model.
- Opening the serial port (`serial_port_exists`, `init_serial`), the `ser is None` guards, opening and closing files and their error messages: the model starts with an open port and an open file.
- Progress-bar rendering and printing, `time.sleep` and the firmware's `delay(5)`: they do not affect what is sent or stored.
- The chip name's UTF-8 encoding: the model takes the name as bytes.
- Timing. `wait_for_ack`'s busy wait, and the serial timeouts of `ser.read` and `Serial.readBytes`, become short reads at the end of a finite stream.
  - A host waiting for three bytes that never come is the outcome `Hung`.
  - A short 4-byte checksum read, on which `struct.unpack` raises, is the outcome `Crashed`.
  - A firmware field (size, checksum, command, reply) cut short by the end of the host's data ends the handler without a reply. The firmware would go on with uninitialised bytes.
  - The command loops stop when the host has nothing more to send; the firmware polls forever.
- `Device.Controller.RequestFrom`: `Wire.requestFrom` always delivers the requested bytes. A short I2C read, which would leave uninitialised bytes in `chunk` that are checksummed and sent, is not modelled.
- The I2C bus.
  - The Wire library is reduced to "the chip acknowledges or not", given as a list of outcomes.
  - The EEPROM is a 64 KiB array whose address counter wraps at 2^16.
  - The chip's 128-byte page wrap and `Wire.begin` are not modelled.
- The unused CRC32 object in the firmware and the unused `zlib` import in the host.
- `Config.h`: it is not part of this model. Its `CHUNK_SIZE` is taken to be 16, the host's value. The AVR `unsigned int` accumulator of `simpleChecksum` is taken to be 16 bits wide; the result does not depend on this.
- `ack()` and `nck()` are defined outside 24AA512.cpp. They are taken to write the 3-byte tokens "ack" and "nck".
- `Device.Controller.CheckAndCommit`, `Device.Controller.SendChunkBytes` and `Device.Controller.CopyAvailable` are not separate functions in the firmware. They are parts of `write_chunk` and `read_chunk`, split off so that each proof stays small.
- The host's transfer-level procedures are modelled from the handshake on. `DoWrite` takes the file size to be the length of the file's unread contents when the transfer starts. That is `os.path.getsize` for a file opened at its start, as the source does.
- `Host.WriteChunk`: its own contract states only that the port's streams grow or shrink in one direction. What it sends and decides is stated by `HostProperties.WriteChunkAllAcked`, `WriteChunkRefusalIsFinal` and `WriteRetryReadsNextBytes`.
- `Host.ReadChunk`: the same. Its behaviour is stated by `HostProperties.ReadChunkRefusalIsFinal`, `ReadChunkOutcomes` and `ReadChunkAppendsOnlyOnSuccess`.
- `Host.ReceiveChunk`: the same. It is the part of `ReadChunk` that `ReadChunkOutcomes` covers.
- `Host.DoWriteChunk`: a checksum refusal is retried by recursion in the source, and Python stops with `RecursionError` after about 1000 nested retries. The model retries for as long as replies arrive.
- `Host.DoReadChunk`: the same recursion limit on checksum mismatches is not modelled.
- `Host.Split`: exact integer division. The source divides with floats, which is exact only for sizes up to 2^53.
- `Host.FindLowestBarDivider`: the same. `math.floor(chunks / (i + 1))` divides with floats, and the model with exact integers; only the progress display depends on it.
- `Device.WriteChunkStep`: its own contract states only that input is consumed and output appended. Its behaviour is stated by `DeviceProperties.WriteOversizeRefused`, `WriteShortPayloadRefused`, `WriteChunkComplete` and `WriteChunkChangesOnlyOnSuccess`.
- `Device.WriteSized`: the same; it is covered by the lemmas about `WriteChunkStep`.
- `Device.WriteReceived`: the same; it is covered by `DeviceProperties.WriteChunkComplete`.
- `Device.Commit`: the same; it is covered by `DeviceProperties.CommitOutcome`.
- `Device.ReadChunkStep`: the same. Its behaviour is stated by `DeviceProperties.ReadOversizeRefused`, `ReadAddressRefused`, `ReadChunkComplete`, `ReadChunkAdvancesOnlyOnAck` and `ReadChunkKeepsMemory`. A size field cut short ends it with no reply.
- `Device.ReadSized`: the same; it is covered by the lemmas about `ReadChunkStep`.
- `Device.SendChunk`: the same; it is covered by `DeviceProperties.SendChunkOutcome`.
- `Device.HandleChunk`: the same; it only chooses between `WriteChunkStep` and `ReadChunkStep`.
- `Agreement.WriteFailureSeenOneChunkLate`: stated for the first chunk of a transfer only. A failure on a later chunk surfaces at a later step of some later chunk, which no lemma states.

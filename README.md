# File transfer over a Bluetooth byte stream

This Dafny project models `FileTransfer` (`src/file_transfer.py`). It is the framed
file-transfer engine of an Android app that sends files between two paired devices over
an RFCOMM serial link. The model covers three things:

- **The wire format.** A header `u32_be(len(name)) ++ name ++ u64_be(size)` and a
  progress marker `PROGRESS:` followed by one percent byte.
- **The sender.** `send_file` writes the header, then each chunk of at most 1024 bytes
  followed by a progress marker.
- **The receiver.** `start_receiving` and `process_received_data` form a two-state
  machine: it either waits for a header or writes a file. Each call takes one buffer and
  returns the bytes it did not consume, together with at most one event (`file_info` or
  `file_progress`).

Modules, one file each:

- `wire.dfy` (`Wire`): bytes, big-endian integers (`struct` formats `!I`, `!Q`, `!B`),
  header and marker encoders and parsers, the percent computation.
- `transport.dfy` (`Transport`): `BluetoothManager.send_data` as a class `Link` with a
  write log.
  - A write gets through while the link is connected and its stream still accepts
    writes. The first write the stream refuses disconnects the link, as the `except`
    branch does.
  - `healthyWrites` counts how many more writes the stream accepts. One value of it
    stands for each pattern of stream failures. `AfterSends` is the link after a
    sequence of writes, and `Delivered` is the same link in closed form.
- `sender.dfy` (`Sender`): what `send_file` writes, as pure functions.
  - `Steps` gives the turns of the read loop. `Writes`, `Body` and `Outbound` give the
    writes in order, plus whether the sequence ends without an exception of its own.
  - `Reports` and `Completes` give what `send_file` returns.
  - `content` (what the file's reads return) and `fileSize` (what `os.path.getsize`
    reported) are separate inputs. This models the early stop at an empty read and the
    `struct.pack('!B', …)` error for a file that grew.
- `receiver.dfy` (`Receiver`): `process_received_data` as a function `Process` on a state
  record, with the open file, `file_size`, `received_bytes` and the files written so far
  (the Download directory, `downloads`).
- `file_transfer.dfy` (`Transfer`): the class `FileTransfer`, with the receiver's fields.
  - `SendFile` and its chunk loop `SendChunks` call `Link.Send` step by step, and are
    proved to produce exactly the writes and the result of `Outbound`/`Reports`.
  - `StartReceiving` and `ProcessReceivedData` update the fields in place, and are
    proved to match `Reset` and `Process`.
- `protocol.dfy` (`Protocol`): both halves together. It covers what the receiver makes
  of the sender's writes when each write arrives as one buffer, and when the whole
  transfer arrives as one buffer that is fed back call by call.

Behaviour of the code worth knowing:

- **A 0-byte file is never closed.** Its header leaves the file open. Non-empty data
  that later arrives for it and does not start with a whole marker raises
  `ZeroDivisionError` at line 104 and changes nothing; a whole marker is still reported
  (`Receiver.EmptyFileStaysOpen`).
- **Splitting the stream changes the result.** A marker is recognised only at the head
  of a buffer, so the same bytes split differently are written differently
  (`Receiver.SplittingMatters`).
- **The trailing marker is read as a header.** The marker sent after the last chunk
  arrives once the file is closed. Its first four bytes "PROG" read as a name length of
  1347571527, so a caller that keeps the unconsumed bytes waits for more than 1.3 GB of
  further data before anything behind the marker is decoded
  (`Receiver.TrailingMarkerStalls`). A caller that drops them, as `Protocol.Deliver`
  does, loses the marker and parses the next header normally.
- **No caller.** `process_received_data` has no caller in the repository: `main.py`
  polls the transport but never feeds the decoder. `Protocol.Deliver` and
  `Protocol.OneBufferTransfer` stand for the two natural callers.

## Model

| member | source | states |
|---|---|---|
| Wire.BigEndian | src/file_transfer.py:24-25 | `struct.pack` of an unsigned value into exactly `width` bytes |
| Wire.FromBigEndian | src/file_transfer.py:67 | `struct.unpack` of a big-endian field; the value fits the field width |
| Wire.FromBigEndianOfBigEndian | src/file_transfer.py:24-25 | unpacking a packed field gives back the value |
| Wire.BigEndianOfFromBigEndian | src/file_transfer.py:67-71 | packing an unpacked field gives back the bytes |
| Wire.Encodable | src/file_transfer.py:24-25 | `struct.pack` accepts the name length and the size exactly when they are below 2^32 and 2^64 |
| Wire.BigEndianInjective | src/file_transfer.py:67-71 | two fields of one width that decode to the same value are the same bytes |
| Wire.EncodeHeader | src/file_transfer.py:23-25 | the header is 4 + len(name) + 8 bytes; its first 4 bytes decode to len(name), then come the name bytes, then 8 bytes that decode to the size |
| Wire.ParseHeader | src/file_transfer.py:66-71 | a header is extracted exactly when at least 4 and at least 4 + length + 8 bytes are present; the data is then that header's encoding followed by the rest |
| Wire.HeaderRoundTrip | src/file_transfer.py:67-71 | parsing an encoded header followed by any bytes yields the same name and size, and the bytes after offset 4 + len + 8 |
| Wire.ExampleHeader | src/file_transfer.py:23-25 | "a.txt" of size 3 encodes to `00 00 00 05 61 2E 74 78 74 00 00 00 00 00 00 00 03` |
| Wire.EncodeMarker | src/file_transfer.py:47-48 | the marker is 10 bytes: the 9 tag bytes `PROGRESS:` and then the percent byte |
| Wire.ParseMarker | src/file_transfer.py:92-95 | a marker is taken exactly when the data starts with the tag and has at least 10 bytes; the data is then that marker followed by the rest |
| Wire.MarkerRoundTrip | src/file_transfer.py:92-96 | parsing a marker followed by any bytes yields its percent and exactly those bytes |
| Wire.PercentMonotone | src/file_transfer.py:44 | the percent never decreases as the byte count grows |
| Wire.Percent | src/file_transfer.py:44 | the percent after `sent` of `fileSize` bytes as an exact floor; it has no contract of its own, its properties are `PercentMonotone` and `PercentBounds` |
| Wire.PercentBounds | src/file_transfer.py:44 | the percent is at most 100 up to the file size, below 100 before it, and exactly 100 at it |
| Transport.AfterSend | src/bluetooth_manager.py:121-132 | one `send_data` call: it succeeds exactly when the link is connected and the stream accepts a write, and only then is the data logged |
| Transport.AfterSends | src/bluetooth_manager.py:121-132 | one `send_data` call per write, in order; it has no contract of its own, `AfterSendsDelivers` gives its closed form `Delivered` |
| Transport.Link.Send | src/bluetooth_manager.py:121-132 | a write succeeds exactly when the link is connected and the stream accepts it; a refused write disconnects the link; only successful writes are logged |
| Transport.AfterSendsDisconnected | src/bluetooth_manager.py:122-123 | a disconnected link ignores every write |
| Transport.AfterSendsStops | src/bluetooth_manager.py:122-132 | once a write has failed, the later writes change nothing |
| Transport.AfterSendsDelivers | src/bluetooth_manager.py:121-132 | a connected link ends as `Delivered` says: it delivers the first `healthyWrites` writes in order and stays connected exactly when all of them got through |
| Transport.DeliveredAppend | src/bluetooth_manager.py:121-132 | one more `send_data` call moves that closed form on by exactly one write |
| Transport.AfterSendsAccepts | src/bluetooth_manager.py:121-132 | after a number of writes, the next write gets through exactly when fewer writes than `healthyWrites` came before |
| Sender.Steps | src/file_transfer.py:35-43 | the turns of the read loop; it has no contract of its own, its properties are `StepsLength`, `StepsPayload`, `StepsCounts`, `StepsSentAfter` and `StepsTotal` |
| Sender.StepsLength | src/file_transfer.py:35-38 | the loop runs no turn exactly when `sent_bytes` has reached the reported size or the reads are exhausted, and runs at most one turn per remaining byte |
| Sender.Writes | src/file_transfer.py:40-48 | the writes of the turns: each chunk, then its marker unless the percent overflows, which ends the writes with an error; it has no contract of its own, its properties are `WritesUnfold` and `WritesInterleave` |
| Sender.Body | src/file_transfer.py:31-48 | the writes of the loop: none, with a clean end, for a reported size of 0 or an empty file |
| Sender.Outbound | src/file_transfer.py:22-48 | everything `send_file` writes: nothing exactly when the header cannot be packed, otherwise the header first |
| Sender.Reports | src/file_transfer.py:27-51 | `send_file` returns true exactly when the link was connected, no percent overflowed, the header got through and at most the last write was lost |
| Sender.Completes | src/file_transfer.py:31-51 | the chunk loop ends with true exactly when no percent overflowed and at most the last write was lost |
| Sender.Read | src/file_transfer.py:36 | `file.read(1024)` returns exactly min(1024, remaining) bytes, the next bytes of the file, and so nothing exactly at its end |
| Sender.WritesUnfold | src/file_transfer.py:35-48 | one turn of the loop writes the chunk, then, when its percent fits a byte, the marker, and then continues from the new byte count; otherwise it ends with an error |
| Sender.ChunkLost | src/file_transfer.py:40-41 | a lost chunk makes `send_file` return false, and the writes after it change nothing on the link |
| Sender.StepsPayload | src/file_transfer.py:35-43 | the chunks are non-empty, at most 1024 bytes, and together are the file read in order; the loop stops at the reported size or at the end of the reads |
| Sender.StepsCounts | src/file_transfer.py:43 | `sent_bytes` strictly grows with each turn and never passes the end of the file |
| Sender.StepsFullChunks | src/file_transfer.py:35-38 | every turn but the last reads a full 1024 bytes; only the last chunk may be shorter |
| Sender.StepsSentAfter | src/file_transfer.py:43 | after each turn, `sent_bytes` is its start plus the lengths of the chunks read so far |
| Sender.StepsTotal | src/file_transfer.py:43 | after the last turn, `sent_bytes` is the number of bytes sent in all |
| Sender.WritesInterleave | src/file_transfer.py:40-48 | when every percent fits a byte, the writes alternate chunk and marker, the marker carrying that turn's percent |
| Sender.WholeFileProgress | src/file_transfer.py:31-48 | for a whole file, the chunks are the file, and the percents stay within 0..100, never decrease and end at 100 |
| Sender.WholeFileWrites | src/file_transfer.py:27-48 | for a whole file, `send_file` writes the header, then each chunk followed by its marker, and ends cleanly |
| Sender.EmptyFile | src/file_transfer.py:35 | for a 0-byte file, only the header is written |
| Sender.GrownFile | src/file_transfer.py:44-47 | a file that grew to at least 3 bytes after `getsize` reported 1 byte fails after its first chunk, before any marker, because the percent no longer fits a byte |
| Sender.HeaderLost | src/file_transfer.py:27-28 | a refused header ends the send with false before any chunk is written |
| Sender.EarlyLossFails | src/file_transfer.py:40-48 | a write lost before the last one makes `send_file` return false; the link holds exactly the writes before it |
| Sender.FinalMarkerLossIgnored | src/file_transfer.py:48-51 | losing the final 100 percent marker is ignored, and `send_file` returns true |
| Receiver.Reset | src/file_transfer.py:57-61 | `start_receiving` leaves no open file and both counters at 0, keeps the files already written, and restores the invariant |
| Receiver.ResetIdempotent | src/file_transfer.py:57-61 | calling `start_receiving` twice is the same as calling it once |
| Receiver.Process | src/file_transfer.py:63-115 | every call keeps the invariant (the open file holds exactly `received_bytes` bytes, and `received_bytes` never passes `file_size`); the bytes handed back are a suffix of the input |
| Receiver.HeaderOpensFile | src/file_transfer.py:66-85 | a complete header opens the named file empty, sets `file_size`, reports `file_info` and hands back the bytes after it |
| Receiver.ShortHeaderWaits | src/file_transfer.py:64-69 | while awaiting a header, a call changes nothing and hands the data back with no event exactly when the header is not yet complete |
| Receiver.MarkerReported | src/file_transfer.py:92-96 | while receiving, a marker at the head is reported and consumed, with no write and unchanged counters |
| Receiver.BareTagIsPayload | src/file_transfer.py:92-101 | the 9 tag bytes without their percent byte are written as file data |
| Receiver.WriteBound | src/file_transfer.py:99-113 | for a file of non-zero size, non-empty data that does not start with a whole marker writes exactly its first min(len, file_size - received_bytes) bytes, at least one; `received_bytes` grows by that and never passes `file_size`; it hands back the rest and reports progress 100 on completion, else the percent so far |
| Receiver.CompletionAwaitsHeader | src/file_transfer.py:107-111 | data reaching `file_size` closes the file with progress 100 and hands back what lies past it, and the next call parses a header again |
| Receiver.TrailingMarkerStalls | src/file_transfer.py:64-69 | a marker arriving while a header is awaited is read as a header of length 1347571527; while fewer than 1347571529 bytes follow it in the same buffer, the call changes nothing and hands the whole buffer back with no event |
| Receiver.EmptyFileStaysOpen | src/file_transfer.py:99-104 | for a 0-byte file the header leaves the file open, and any non-empty data that does not start with a whole marker raises `ZeroDivisionError` and changes nothing |
| Receiver.SplittingMatters | src/file_transfer.py:89-101 | one byte and a marker in one call are all written as data; in two calls, one byte is written and the marker is reported |
| Transfer.FileTransfer.constructor | src/file_transfer.py:7-11 | a new engine has no open file and both counters at 0 |
| Transfer.FileTransfer.SendFile | src/file_transfer.py:13-55 | `send_file` makes exactly the writes of `Outbound`, and returns true exactly when the link was connected, the header could be packed, no percent overflowed the marker byte, and every write but possibly the final marker got through |
| Transfer.FileTransfer.SendChunks | src/file_transfer.py:31-48 | the chunk loop makes exactly the writes of `Body`, and returns true exactly when no chunk was lost and no percent overflowed the marker byte |
| Transfer.FileTransfer.SendProgress | src/file_transfer.py:44-48 | the progress update of one turn is written exactly when its percent fits a byte; otherwise `struct.pack` raises, the link is untouched and the result is false |
| Transfer.FileTransfer.StartReceiving | src/file_transfer.py:57-61 | returns true; the new fields are `Reset` of the old ones |
| Transfer.FileTransfer.ProcessReceivedData | src/file_transfer.py:63-115 | the new fields and the reply are those of `Process` on the old fields, and the invariant is kept |
| Protocol.Deliver | src/file_transfer.py:63-115 | one `process_received_data` call per buffer, the unconsumed bytes dropped; every call keeps the receiver's invariant |
| Protocol.ChunkWritten | src/file_transfer.py:99-111 | a chunk as the sender reads it that does not start with a whole marker, arriving alone, is written whole and closes the file at its end |
| Protocol.DeliverChunks | src/file_transfer.py:35-111 | the rest of the sender's writes, one per buffer, write the rest of the file, leave the markers out and close the file |
| Protocol.WholeFileDelivered | src/file_transfer.py:13-115 | a whole non-empty file sent and received one write per buffer ends closed and holding exactly the file, when no chunk starts with a whole marker |
| Protocol.ExampleTransfer | src/file_transfer.py:13-115 | "a.txt" holding "xyz" is sent as header, "xyz", marker 100, and received as "xyz" |
| Protocol.WholeFileInOneCall | src/file_transfer.py:99-111 | a freshly opened file that receives all its bytes in one call is written whole and closed, and the bytes after it are handed back |
| Protocol.OneBufferTransfer | src/file_transfer.py:63-115 | header, file and marker in one buffer, fed back call by call: `file_info`, then the whole file written with progress 100, then the marker waits |
| Protocol.ExampleStream | src/file_transfer.py:63-115 | the "a.txt"/"xyz" transfer in one buffer gives `file_info`, then progress 100 with "a.txt" holding "xyz" |

## Left out

- Floating-point progress (lines 44 and 104). The model uses the exact floor
  `100 * sent / size`.
  - The Python code computes `int((sent / size) * 100)`, which can be one lower:
    `int(0.57 * 100)` is 56.
  - The non-complete receive branch reports the float itself, not an integer.
- UTF-8 encoding and decoding of the filename (lines 23 and 70). The name is kept as raw
  bytes, and a name that fails to decode is not modelled.
- The filesystem (lines 19-20, 31, 74-79):
  - `os.path.basename`, `os.path.getsize`, `os.makedirs` and the Android download
    directory;
  - path separators in a received name;
  - `open` or `write` failures.

  The sent file is a byte sequence plus a reported size. The received files are a map
  from name to bytes, where opening resets a file and writing appends to it.
- Exceptions other than those the model names, and all logging.
  - The model does name `struct.pack` overflow, which makes `send_file` return false.
  - It also names `ZeroDivisionError`, which `process_received_data` raises for data
    sent to a 0-byte file (the `ZeroDivision` reply).
- `BluetoothManager` apart from `send_data`. This includes sockets, threads,
  `receive_data` and `disconnect`. The stream failures that `send_data` catches are the
  `healthyWrites` count.
- The Kivy UI, the launcher and the build script.
- A caller that feeds the unconsumed bytes back with newly arrived data. No such caller
  exists in the repository. `Protocol.Deliver` drops them, and
  `Protocol.OneBufferTransfer` feeds them back without new data.

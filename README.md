# Consensus write-ahead log: framing and append path

This project models the write-ahead log (WAL) of the Tendermint consensus engine,
`consensus/wal.go`. Before the consensus state machine acts on a message, it hands
the message to the WAL. The WAL timestamps it, serialises it, wraps it in a frame and
appends the frame to a group of files. It then flushes, so that a node that crashes
can replay what it had seen.

The frame has three parts:

- a 4-byte big-endian CRC-32C of the payload (section 12.1 of RFC 3720);
- a 4-byte big-endian length field, computed as `uint32(len(msg))`;
- the payload.

Between heights, the log also writes a frame whose payload is the ASCII text
`#ENDHEIGHT: <h>`.

The modules are:

- `Bytes` (`bytes.dfy`): bytes, 32-bit words, the big-endian word layout and ASCII
  text as bytes.
- `Crc32c` (`crc32c.dfy`): CRC-32C in its bitwise reflected form, with the proof that
  it detects every single-byte error and that it has the standard check value.
- `FrameCodec` (`frame.dfy`): the frame the writer builds (`Frame`) and a reference
  reader (`DecodeFrame`, `DecodeLog`). The reader gives the format its meaning: round
  trips, tamper detection and truncation detection are proved against it.
- `Messages` (`messages.dfy`):
  - the three registered message kinds;
  - the timestamped envelope;
  - the light-mode filter;
  - the decimal printing of the height, with a reader for the end-of-height marker.
- `Wal` (`wal.dfy`), the imperative part:
  - the group of files as a class whose byte log is only ever appended to;
  - the `save` path, which fills an array buffer in place and writes it;
  - `writeEndHeight`, `OnStart`, `NewWAL` and `Save`, which include the nil-logger
    case.

Some of the environment is given to the model as parameters:

- What the file system answers during a call is a `Disk` value. It says how many
  bytes a write takes and whether the write, the flush, the head-size query or the
  group start fails.
- The serialiser is a function value held by the logger (`WAL.encode`).
- The current time is an argument of `Save`.
- A `PanicQ`, which ends the process, is the status `Halted(fault)`. An error that is
  returned to the caller is `Failed(fault)`.

The length field is modelled as written: `uint32(len(msg))` keeps the low 32 bits.
A payload shorter than 2^32 bytes is framed faithfully and read back
(`FrameRoundTrip`). For a longer payload, the writer frames only the first
`len mod 2^32` bytes under the checksum of the whole payload, and the payload is
never read back (`OversizedPayloadNotRecovered`).

## Model

| member | source | states |
|---|---|---|
| Bytes.EncodeUint32 | consensus/wal.go:116-117 | a 32-bit word is laid out as four bytes, most significant first; DecodeUint32 and DecodeEncodeUint32 show the layout loses nothing |
| Bytes.DecodeUint32 | consensus/wal.go:116-117 | any four bytes are the big-endian layout of exactly the word it returns |
| Bytes.DecodeEncodeUint32 | consensus/wal.go:116-117 | reading back the big-endian layout of a 32-bit word gives the word |
| Bytes.AsciiBytes | consensus/wal.go:100 | the bytes of an ASCII string are its character codes, one per character |
| Crc32c.Checksum | consensus/wal.go:111 | the CRC-32C of a payload as a 32-bit word; what it guarantees is stated by SingleByteErrorDetected and CheckValue |
| Crc32c.UpdateRegisterConcat | consensus/wal.go:111 | the checksum register after a concatenation is the register after the first part, continued over the second |
| Crc32c.UpdateRegisterInjective | consensus/wal.go:111 | two different registers stay different after the same bytes are folded in |
| Crc32c.ValueInjective | consensus/wal.go:111 | the 32-bit register and the checksum word determine each other |
| Crc32c.SingleByteErrorDetected | consensus/wal.go:111 | changing any one byte of a payload changes its CRC-32C |
| Crc32c.CheckValue | consensus/wal.go:111 | the CRC-32C of "123456789" is 0xE3069283, the standard check value of the Castagnoli checksum |
| FrameCodec.LengthField | consensus/wal.go:112 | the length field is below 2^32, at most the payload length, and equal to it when the payload is shorter than 2^32 bytes |
| FrameCodec.Frame | consensus/wal.go:111-118 | the frame is 8 bytes longer than the length field says |
| FrameCodec.DecodeFrame | consensus/wal.go:111-118 | whatever the reader accepts is exactly a frame of a payload below 2^32 bytes, followed by the rest of the log |
| FrameCodec.FrameAtStart | consensus/wal.go:111-118 | a log whose header fields hold the checksum and length of the bytes after them starts with the frame of those bytes |
| FrameCodec.DecodeLog | consensus/wal.go:108-118 | a log the reader accepts is exactly the frames of the payloads it returns, each below 2^32 bytes |
| FrameCodec.FrameRoundTrip | consensus/wal.go:111-118 | the frame of a payload below 2^32 bytes is read back as that payload, and the reader resumes right after it |
| FrameCodec.OversizedPayloadNotRecovered | consensus/wal.go:112-118 | a payload of 2^32 bytes or more is never read back from its frame |
| FrameCodec.FrameHeader | consensus/wal.go:116-118 | the header fields of a frame read back as the payload's checksum and length, and the payload follows them |
| FrameCodec.ChecksumMismatchCorrupt | consensus/wal.go:111-118 | a frame whose checksum field disagrees with its payload is reported as corrupt |
| FrameCodec.ChecksumFieldTamperDetected | consensus/wal.go:111-116 | changing any byte of a frame's checksum field makes the reader report a corrupt record |
| FrameCodec.TamperedPayloadCorrupt | consensus/wal.go:111-118 | a log that starts with a frame with one payload byte changed is reported as corrupt |
| FrameCodec.PayloadTamperDetected | consensus/wal.go:111-118 | changing any one payload byte of a frame makes the reader report a corrupt record |
| FrameCodec.CutFrameTruncated | consensus/wal.go:113-118 | a frame cut short anywhere is reported as truncated, never read as a valid frame |
| FrameCodec.FramesAppend | consensus/wal.go:120 | the frames of a list with one more payload are the old frames followed by the new frame |
| FrameCodec.DecodeFrames | consensus/wal.go:108-127 | a log of whole frames reads back as exactly their payloads, in order |
| FrameCodec.AppendFramePreservesLog | consensus/wal.go:120-126 | appending one frame to a log the reader accepts adds the new payload last and keeps every earlier payload |
| Messages.Dropped | consensus/wal.go:81-88 | a message is dropped exactly when the logger is in light mode and the message is a MsgInfo with a non-empty peer key |
| Messages.LightModeKeeps | consensus/wal.go:81-88 | outside light mode nothing is dropped; round-state events, timeouts and the node's own messages are never dropped; anything dropped would also be dropped in light mode |
| Messages.Digits | consensus/wal.go:100 | the decimal text of a natural number is non-empty, all digits, has no leading zero, and denotes the number |
| Messages.FormatInt | consensus/wal.go:100 | the text of a height is a leading minus exactly when the height is negative, then the digits of its magnitude with no leading zero, denoting the height |
| Messages.ParseFormatInt | consensus/wal.go:100 | the decimal text of a height reads back as the height |
| Messages.Marker | consensus/wal.go:100 | the end-of-height payload is as long as "#ENDHEIGHT: " and the height's decimal text together |
| Messages.MarkerLayout | consensus/wal.go:100 | the end-of-height payload is the ASCII bytes of "#ENDHEIGHT: " followed by the ASCII bytes of the height's decimal text |
| Messages.HeightZeroMarker | consensus/wal.go:64 | the marker of height 0 is exactly the 13 bytes of "#ENDHEIGHT: 0" |
| Messages.MarkerRoundTrip | consensus/wal.go:100 | the marker of a height is read back as that height |
| Messages.MarkerInjective | consensus/wal.go:99-100 | different heights are written as different markers |
| Wal.Group.constructor | consensus/wal.go:47 | an opened group holds the bytes already in its files, all flushed, and is not yet started |
| Wal.Group.HeadSize | consensus/wal.go:60 | the size of the head file, or an error when the file system reports one |
| Wal.Group.Write | consensus/wal.go:120 | appends the bytes the disk takes to the log, reports how many, and changes nothing before them |
| Wal.Group.Flush | consensus/wal.go:94 | makes every written byte durable unless the disk reports an error; the log itself is unchanged |
| Wal.Group.Start | consensus/wal.go:66 | starts the group unless the file system reports an error; the log is unchanged |
| Wal.PutUint32 | consensus/wal.go:116-117 | writes the big-endian layout of a word into four bytes of the buffer and nothing else |
| Wal.Copy | consensus/wal.go:118 | copies as many leading payload bytes as fit after the offset, reports how many, and leaves the rest of the buffer alone |
| Wal.BuildFrame | consensus/wal.go:111-118 | the freshly allocated buffer holds exactly the frame of the payload |
| Wal.FirstMarkerLog | consensus/wal.go:63-64 | a log holding only the frame of the height-0 marker reads back as that one marker |
| Wal.WAL.constructor | consensus/wal.go:51-54 | the logger holds the given group, light flag and serialiser |
| Wal.WAL.SaveFrame | consensus/wal.go:110-127 | the bytes the disk takes are appended and nothing earlier changes; a write error halts; a short write halts with the wanted and written counts; a normal return appends exactly one frame, and a log the reader accepted gains exactly the new payload |
| Wal.WAL.SaveAndFlush | consensus/wal.go:91-96 | the step Save and writeEndHeight share: the log gains exactly the part of the frame the group took; a halt leaves the flushed mark as it was; a normal return, exactly when the write and the flush succeed, leaves the whole frame appended and fully flushed |
| Wal.WAL.WriteEndHeight | consensus/wal.go:99-106 | the log gains exactly the part of the marker's frame the group took; it returns normally exactly when the write and the flush succeed, and then the whole marker frame is appended and fully flushed; a halt leaves the flushed mark as it was; it never returns an error |
| Wal.WAL.OnStart | consensus/wal.go:59-68 | a failed size query is returned as an error and changes nothing (log, flushed mark, started flag); a failed start leaves the group unstarted as before; a non-empty head writes and flushes nothing and the result is the group start's; with an empty head, the call halts exactly when the marker's write or flush fails, and a halt leaves the started flag and the flushed mark as they were, with exactly the part of the marker frame the group took appended; and otherwise the head has gained the fully flushed height-0 marker frame and the result is the group start's; on an empty log, a normal start leaves a log that reads back as exactly the height-0 marker |
| Wal.NewWAL | consensus/wal.go:46-57 | a group that could not be opened gives a nil logger and an error; otherwise a fresh logger over that group, with the light flag and serialiser given |
| Wal.Save | consensus/wal.go:76-97 | a nil logger does nothing; the group's started flag never changes; in light mode a message from a peer leaves the log untouched; for any other message the log gains exactly the part of its frame the group took, a halt leaves the flushed mark as it was, and the call returns normally exactly when the write and the flush succeed, and then the log has gained exactly the frame of the serialised timestamped message and is fully flushed; earlier bytes never change |

## Left out

- The type bytes 0x01, 0x02 and 0x03 registered for the three message kinds
  (wal.go:25-30) are not modelled. They are part of go-wire's encoding, and the
  serialiser is a function value here.
- `OnStop` and the `cmn.BaseService` lifecycle are left out. They are service
  orchestration outside the log format and the append path.
- The group of files (`auto.Group`) is modelled as one append-only byte log. It has a
  flushed prefix, a fixed start of the head file and a started flag. Rotation into new
  files, buffering, and what `Flush` guarantees on disk are left out, because they
  belong to the autofile library.
- Wal.Group.Write: on a failing write, the model takes the same number of bytes as on
  a successful one. The real file system may take fewer; this choice only matters
  after a write error, and the logger halts then anyway.
- The serialiser (`wire.BinaryBytes`) is a function value held by the logger. The
  serialisation format is go-wire's. The model does not show that the serialised
  message can be told apart from an end-of-height marker.
- `time.Now()` is an argument of `Save`.
- The message contents (`types.EventDataRoundState`, the consensus message inside
  `msgInfo`, `timeoutInfo`) are opaque types. The log only passes them on.
- CRC-32C is defined bit by bit, not by Go's table-driven `crc32.Checksum`. Both
  compute the same function; the table is not part of this model.
- `PanicQ` is the `Halted` status. The text of the panic messages is left out.
- Nothing in `consensus/wal.go` reads the log back. The reader in `FrameCodec` is a
  reference definition of the frame format, not a model of a replay routine.

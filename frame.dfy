/** The on-disk record of the consensus write-ahead log: a frame is the 4-byte
    big-endian CRC-32C of the payload, the 4-byte big-endian payload length, and the
    payload; a log is frames laid end to end with no padding. The writer side is
    Frame (the buffer WAL.save builds); the reader side, DecodeFrame and DecodeLog,
    is the format every replay reader has to honour. */
module FrameCodec {
  import opened Bytes
  import Crc32c

  const HeaderSize: nat := 8

  /** Why a reader stops: the log ends inside a frame, or a checksum does not match. */
  datatype ReadError = TruncatedRecord | CorruptRecord

  datatype Result<T> = Ok(value: T) | Err(error: ReadError)

  /** The length field as the writer computes it: uint32(len(msg)), which keeps only
      the low 32 bits of the length. */
  function LengthField(msg: seq<Byte>): (r: nat)
    ensures r < WordRange && r <= |msg|
    ensures |msg| < WordRange ==> r == |msg|
  {
    |msg| % WordRange
  }

  /** The buffer WAL.save hands to the group: a header of the checksum and the length
      field, then copy(bytes[8:], msg), which copies as many bytes of msg as the
      8 + length buffer has room for. */
  function Frame(msg: seq<Byte>): (r: seq<Byte>)
    ensures |r| == HeaderSize + LengthField(msg)
  {
    var length := LengthField(msg);
    EncodeUint32(Crc32c.Checksum(msg)) + EncodeUint32(length) + msg[..length]
  }

  /** Reads the frame at the start of log: the payload and the bytes after the frame,
      or why there is no valid frame there. */
  function DecodeFrame(log: seq<Byte>): (r: Result<(seq<Byte>, seq<Byte>)>)
    ensures r.Ok? ==> |r.value.0| < WordRange && log == Frame(r.value.0) + r.value.1
    ensures r.Ok? ==> |r.value.1| <= |log| - HeaderSize
  {
    if |log| < HeaderSize then Err(TruncatedRecord)
    else
      var checksum := DecodeUint32(log[0..4]);
      var length := DecodeUint32(log[4..8]);
      if |log| - HeaderSize < length then Err(TruncatedRecord)
      else
        var payload := log[HeaderSize..HeaderSize + length];
        if Crc32c.Checksum(payload) != checksum then Err(CorruptRecord)
        else
          FrameAtStart(log, payload);
          Ok((payload, log[HeaderSize + length..]))
  }

  /** A log whose header fields hold the checksum and length of the payload that
      follows them starts with the frame of that payload. */
  lemma FrameAtStart(log: seq<Byte>, payload: seq<Byte>)
    requires |log| >= HeaderSize + |payload|
    requires DecodeUint32(log[0..4]) == Crc32c.Checksum(payload)
    requires DecodeUint32(log[4..8]) == |payload|
    requires log[HeaderSize..HeaderSize + |payload|] == payload
    ensures log == Frame(payload) + log[HeaderSize + |payload|..]
  {
    var n := HeaderSize + |payload|;
    assert LengthField(payload) == |payload|;
    assert Frame(payload) == log[0..4] + log[4..8] + payload;
    assert log[..n] == log[0..4] + log[4..8] + log[HeaderSize..n];
    assert log == log[..n] + log[n..];
  }

  /** Reads a whole log into the payloads of its frames, in order. */
  function DecodeLog(log: seq<Byte>): (r: Result<seq<seq<Byte>>>)
    ensures r.Ok? ==> log == Frames(r.value) && Framable(r.value)
    decreases |log|
  {
    if |log| == 0 then Ok([])
    else
      match DecodeFrame(log)
      case Err(e) => Err(e)
      case Ok((payload, rest)) =>
        match DecodeLog(rest)
        case Err(e) => Err(e)
        case Ok(payloads) => Ok([payload] + payloads)
  }

  /** The frames of the given payloads, laid end to end. */
  function Frames(payloads: seq<seq<Byte>>): seq<Byte>
    decreases |payloads|
  {
    if |payloads| == 0 then [] else Frame(payloads[0]) + Frames(payloads[1..])
  }

  /** Every payload a frame can carry whole. */
  predicate Framable(payloads: seq<seq<Byte>>) {
    forall i :: 0 <= i < |payloads| ==> |payloads[i]| < WordRange
  }

  /** A frame is read back as its payload, and the reader resumes right after it. */
  lemma FrameRoundTrip(msg: seq<Byte>, rest: seq<Byte>)
    requires |msg| < WordRange
    ensures DecodeFrame(Frame(msg) + rest) == Ok((msg, rest))
  {
    var log := Frame(msg) + rest;
    DecodeEncodeUint32(Crc32c.Checksum(msg));
    DecodeEncodeUint32(|msg|);
    assert log[0..4] == EncodeUint32(Crc32c.Checksum(msg));
    assert log[4..8] == EncodeUint32(|msg|);
    assert log[HeaderSize..HeaderSize + |msg|] == msg;
    assert log[HeaderSize + |msg|..] == rest;
  }

  /** A payload of 2^32 bytes or more is never read back: the length field has lost
      its high bits, so whatever the reader returns is shorter than the payload. */
  lemma OversizedPayloadNotRecovered(msg: seq<Byte>, rest: seq<Byte>)
    requires |msg| >= WordRange
    ensures DecodeFrame(Frame(msg) + rest) != Ok((msg, rest))
  {
  }

  /** The header fields of a frame built from msg, read back. */
  lemma FrameHeader(msg: seq<Byte>, rest: seq<Byte>)
    requires |msg| < WordRange
    ensures |Frame(msg) + rest| >= HeaderSize + |msg|
    ensures DecodeUint32((Frame(msg) + rest)[0..4]) == Crc32c.Checksum(msg)
    ensures DecodeUint32((Frame(msg) + rest)[4..8]) == |msg|
    ensures (Frame(msg) + rest)[HeaderSize..HeaderSize + |msg|] == msg
  {
    var log := Frame(msg) + rest;
    DecodeEncodeUint32(Crc32c.Checksum(msg));
    DecodeEncodeUint32(|msg|);
    assert log[0..4] == EncodeUint32(Crc32c.Checksum(msg));
    assert log[4..8] == EncodeUint32(|msg|);
  }

  /** A frame whose length field fits the log but whose checksum field disagrees with
      the payload is reported as corrupt. */
  lemma ChecksumMismatchCorrupt(log: seq<Byte>, payload: seq<Byte>)
    requires |log| >= HeaderSize + |payload|
    requires DecodeUint32(log[4..8]) == |payload|
    requires log[HeaderSize..HeaderSize + |payload|] == payload
    requires DecodeUint32(log[0..4]) != Crc32c.Checksum(payload)
    ensures DecodeFrame(log) == Err(CorruptRecord)
  {
  }

  /** Changing any byte of the checksum field of a frame makes the reader report a
      corrupt record. */
  lemma ChecksumFieldTamperDetected(msg: seq<Byte>, rest: seq<Byte>, i: nat, v: Byte)
    requires |msg| < WordRange && i < 4 && v != Frame(msg)[i]
    ensures DecodeFrame((Frame(msg) + rest)[i := v]) == Err(CorruptRecord)
  {
    var log := Frame(msg) + rest;
    var bad := log[i := v];
    FrameHeader(msg, rest);
    assert bad[4..8] == log[4..8];
    assert bad[HeaderSize..HeaderSize + |msg|] == log[HeaderSize..HeaderSize + |msg|];
    assert bad[0..4] != log[0..4] by {
      assert bad[0..4][i] == v != log[0..4][i];
    }
    assert EncodeUint32(DecodeUint32(bad[0..4])) == bad[0..4];
    assert EncodeUint32(DecodeUint32(log[0..4])) == log[0..4];
    ChecksumMismatchCorrupt(bad, msg);
  }

  /** Overwriting one byte of a slice of log overwrites that byte of the slice and
      leaves the bytes before the slice alone. */
  lemma OverwriteInside(log: seq<Byte>, lo: nat, n: nat, i: nat, v: Byte)
    requires lo + n <= |log| && i < n
    ensures log[lo + i := v][..lo] == log[..lo]
    ensures log[lo + i := v][lo..lo + n] == log[lo..lo + n][i := v]
  {
  }

  /** A log that starts with a valid frame of msg, with one payload byte changed,
      is reported as corrupt. */
  lemma TamperedPayloadCorrupt(log: seq<Byte>, msg: seq<Byte>, i: nat, v: Byte)
    requires |log| >= HeaderSize + |msg| && i < |msg| && v != msg[i]
    requires DecodeUint32(log[0..4]) == Crc32c.Checksum(msg)
    requires DecodeUint32(log[4..8]) == |msg|
    requires log[HeaderSize..HeaderSize + |msg|] == msg
    ensures DecodeFrame(log[HeaderSize + i := v]) == Err(CorruptRecord)
  {
    var bad := log[HeaderSize + i := v];
    OverwriteInside(log, HeaderSize, |msg|, i, v);
    assert bad[0..4] == bad[..HeaderSize][0..4] == log[..HeaderSize][0..4] == log[0..4];
    assert bad[4..8] == bad[..HeaderSize][4..8] == log[..HeaderSize][4..8] == log[4..8];
    Crc32c.SingleByteErrorDetected(msg, i, v);
    ChecksumMismatchCorrupt(bad, msg[i := v]);
  }

  /** Changing any one byte of the payload of a frame makes the reader report a
      corrupt record. */
  lemma PayloadTamperDetected(msg: seq<Byte>, rest: seq<Byte>, i: nat, v: Byte)
    requires |msg| < WordRange && i < |msg| && v != msg[i]
    ensures DecodeFrame((Frame(msg) + rest)[HeaderSize + i := v]) == Err(CorruptRecord)
  {
    FrameHeader(msg, rest);
    TamperedPayloadCorrupt(Frame(msg) + rest, msg, i, v);
  }

  /** A log cut short inside its last frame is reported as truncated, never as a
      shorter valid log. */
  lemma CutFrameTruncated(msg: seq<Byte>, k: nat)
    requires |msg| < WordRange && k < |Frame(msg)|
    ensures DecodeFrame(Frame(msg)[..k]) == Err(TruncatedRecord)
  {
    if k >= HeaderSize {
      var log := Frame(msg);
      FrameRoundTrip(msg, []);
      assert log[..k][0..4] == log[0..4] && log[..k][4..8] == log[4..8];
    }
  }

  lemma {:induction false} FramesAppend(payloads: seq<seq<Byte>>, msg: seq<Byte>)
    ensures Frames(payloads + [msg]) == Frames(payloads) + Frame(msg)
    decreases |payloads|
  {
    if |payloads| == 0 {
      assert payloads + [msg] == [msg];
    } else {
      var tail := payloads[1..];
      assert (payloads + [msg])[0] == payloads[0];
      assert (payloads + [msg])[1..] == tail + [msg];
      FramesAppend(tail, msg);
      calc {
        Frames(payloads + [msg]);
        Frame(payloads[0]) + Frames(tail + [msg]);
        Frame(payloads[0]) + (Frames(tail) + Frame(msg));
        (Frame(payloads[0]) + Frames(tail)) + Frame(msg);
      }
    }
  }

  /** A log made of whole frames reads back as exactly their payloads, in order. */
  lemma {:induction false} DecodeFrames(payloads: seq<seq<Byte>>)
    requires Framable(payloads)
    ensures DecodeLog(Frames(payloads)) == Ok(payloads)
    decreases |payloads|
  {
    if |payloads| > 0 {
      var head, tail := payloads[0], payloads[1..];
      var log := Frames(payloads);
      assert log == Frame(head) + Frames(tail);
      assert Framable(tail) by {
        forall i | 0 <= i < |tail| ensures |tail[i]| < WordRange {
          assert tail[i] == payloads[i + 1];
        }
      }
      FrameRoundTrip(head, Frames(tail));
      DecodeFrames(tail);
      assert [head] + tail == payloads;
    }
  }

  /** Appending one frame to a log the reader accepts yields a log the reader accepts,
      with the new payload last and every earlier payload as before. */
  lemma AppendFramePreservesLog(log: seq<Byte>, payloads: seq<seq<Byte>>, msg: seq<Byte>)
    requires DecodeLog(log) == Ok(payloads) && |msg| < WordRange
    ensures DecodeLog(log + Frame(msg)) == Ok(payloads + [msg])
  {
    FramesAppend(payloads, msg);
    DecodeFrames(payloads + [msg]);
  }
}

/** The write-ahead logger of the consensus engine: it appends every consensus message
    to a group of files, framed and checksummed, and flushes after each one, so that a
    crashed node can replay what it had seen. The group of files is a byte log that
    the logger only ever appends to; the file system's replies (how much it takes,
    whether a write, flush, size query or start fails) are the Disk given to each
    call. */
module Wal {
  import opened Bytes
  import opened FrameCodec
  import opened Messages
  import Crc32c

  /** The file system's replies during one call. */
  datatype Disk = Disk(room: nat, writeFails: bool, flushFails: bool, sizeFails: bool, startFails: bool)

  /** What went wrong. */
  datatype Fault = WriteFailed | ShortWrite(wanted: nat, wrote: nat) | FlushFailed | HeadSizeFailed | StartFailed

  /** How a call ends: it returns normally, it returns an error, or it stops the
      process (PanicQ). */
  datatype Status = Completed | Failed(fault: Fault) | Halted(fault: Fault)

  function Min(a: nat, b: nat): nat {
    if a < b then a else b
  }

  /** The group of files the log lives in, seen as one byte log: every byte written so
      far, how many of them are flushed, and where the head file starts. */
  class Group {
    var contents: seq<Byte>
    var flushed: nat
    const headStart: nat
    var running: bool

    ghost predicate Valid()
      reads this
    {
      headStart <= |contents| && flushed <= |contents|
    }

    /** A group opened on the bytes already in its files, the last headStart.. of them
        in the head file. */
    constructor (existing: seq<Byte>, headStart: nat)
      requires headStart <= |existing|
      ensures Valid()
      ensures contents == existing && flushed == |existing|
      ensures this.headStart == headStart && !running
    {
      contents := existing;
      flushed := |existing|;
      this.headStart := headStart;
      running := false;
    }

    /** The size of the head file. */
    method HeadSize(fails: bool) returns (size: nat, err: bool)
      requires Valid()
      ensures err == fails
      ensures !err ==> size == |contents| - headStart
    {
      if fails {
        return 0, true;
      }
      return |contents| - headStart, false;
    }

    /** Appends as much of p as the disk takes: the bytes written and whether the
        write reported an error. */
    method Write(p: array<Byte>, disk: Disk) returns (n: nat, err: bool)
      requires Valid()
      modifies this
      ensures Valid()
      ensures n == Min(disk.room, p.Length) && err == disk.writeFails
      ensures contents == old(contents) + p[..n]
      ensures flushed == old(flushed) && running == old(running)
    {
      n := Min(disk.room, p.Length);
      contents := contents + p[..n];
      err := disk.writeFails;
    }

    /** Pushes every written byte to the files, unless the disk reports an error. */
    method Flush(fails: bool) returns (err: bool)
      requires Valid()
      modifies this
      ensures Valid()
      ensures err == fails
      ensures contents == old(contents) && running == old(running)
      ensures flushed == if fails then old(flushed) else |contents|
    {
      if fails {
        return true;
      }
      flushed := |contents|;
      return false;
    }

    method Start(fails: bool) returns (err: bool)
      requires Valid()
      modifies this
      ensures Valid()
      ensures err == fails
      ensures contents == old(contents) && flushed == old(flushed)
      ensures running == (old(running) || !fails)
    {
      if fails {
        return true;
      }
      running := true;
      return false;
    }
  }

  /** binary.BigEndian.PutUint32 into a[off..off + 4]. */
  method PutUint32(a: array<Byte>, off: nat, w: Word)
    requires off + 4 <= a.Length
    modifies a
    ensures a[..] == old(a[..off]) + EncodeUint32(w) + old(a[off + 4..])
  {
    var e := EncodeUint32(w);
    a[off] := e[0];
    a[off + 1] := e[1];
    a[off + 2] := e[2];
    a[off + 3] := e[3];
  }

  /** copy(a[off:], src): copies as many leading bytes of src as fit after off, and
      reports how many. */
  method Copy(a: array<Byte>, off: nat, src: seq<Byte>) returns (copied: nat)
    requires off <= a.Length
    modifies a
    ensures copied == Min(a.Length - off, |src|)
    ensures a[..] == old(a[..off]) + src[..copied] + old(a[off + copied..])
  {
    copied := Min(a.Length - off, |src|);
    for j := 0 to copied
      invariant a[..] == old(a[..off]) + src[..j] + old(a[off + j..])
    {
      a[off + j] := src[j];
      assert src[..j + 1] == src[..j] + [src[j]];
    }
  }

  /** The buffer save builds: a checksum field, a length field, then the payload as
      far as the length field allows. */
  method BuildFrame(msg: seq<Byte>) returns (bytes: array<Byte>)
    ensures fresh(bytes)
    ensures bytes[..] == Frame(msg)
  {
    var crc := Crc32c.Checksum(msg);
    var length := LengthField(msg);
    var totalLength := HeaderSize + length;
    bytes := new Byte[totalLength](_ => 0);
    PutUint32(bytes, 0, crc);
    PutUint32(bytes, 4, length);
    var copied := Copy(bytes, HeaderSize, msg);
    assert copied == length;
  }

  /** A log holding only the frame of the height-0 marker reads back as that one
      marker. */
  lemma FirstMarkerLog()
    ensures DecodeLog([] + Frame(Marker(0))) == Ok([Marker(0)])
  {
    assert [] + Frame(Marker(0)) == Frames([Marker(0)]);
    DecodeFrames([Marker(0)]);
  }

  /** The write-ahead logger: the group it appends to, whether it runs in light mode,
      and the serialiser it encodes messages with. */
  class WAL {
    const group: Group
    const light: bool
    const encode: TimedWALMessage -> seq<Byte>

    constructor (group: Group, light: bool, encode: TimedWALMessage -> seq<Byte>)
      ensures this.group == group && this.light == light && this.encode == encode
    {
      this.group := group;
      this.light := light;
      this.encode := encode;
    }

    /** save: appends the frame of msg to the group. It stops the process when the
        write reports an error or takes fewer bytes than the frame holds; the bytes
        already in the log are never changed, and a normal return leaves exactly one
        more frame at the end. */
    method SaveFrame(msg: seq<Byte>, disk: Disk) returns (status: Status)
      requires group.Valid()
      modifies group
      ensures group.Valid()
      ensures group.flushed == old(group.flushed) && group.running == old(group.running)
      ensures group.contents == old(group.contents) + Frame(msg)[..Min(disk.room, |Frame(msg)|)]
      ensures disk.writeFails ==> status == Halted(WriteFailed)
      ensures !disk.writeFails && disk.room < |Frame(msg)| ==>
        status == Halted(ShortWrite(|Frame(msg)|, disk.room))
      ensures status == Completed <==> !disk.writeFails && disk.room >= |Frame(msg)|
      ensures status == Completed ==> group.contents == old(group.contents) + Frame(msg)
      ensures status == Completed && |msg| < WordRange && DecodeLog(old(group.contents)).Ok? ==>
        DecodeLog(group.contents) == Ok(DecodeLog(old(group.contents)).value + [msg])
    {
      var bytes := BuildFrame(msg);
      var totalLength := bytes.Length;
      var n, err := group.Write(bytes, disk);
      if err {
        return Halted(WriteFailed);
      }
      if n < totalLength {
        return Halted(ShortWrite(totalLength, n));
      }
      assert bytes[..n] == bytes[..];
      if |msg| < WordRange && DecodeLog(old(group.contents)).Ok? {
        AppendFramePreservesLog(old(group.contents), DecodeLog(old(group.contents)).value, msg);
      }
      return Completed;
    }

    /** The save-then-flush step Save and writeEndHeight share: appends the frame of
        msg and flushes; a failed write or flush stops the process, leaving whatever
        part of the frame the group took, unflushed. */
    method SaveAndFlush(msg: seq<Byte>, disk: Disk) returns (status: Status)
      requires group.Valid()
      modifies group
      ensures group.Valid() && group.running == old(group.running)
      ensures old(group.contents) <= group.contents
      ensures !status.Failed?
      ensures group.contents == old(group.contents) + Frame(msg)[..Min(disk.room, |Frame(msg)|)]
      ensures status.Halted? ==> group.flushed == old(group.flushed)
      ensures status == Completed <==>
        !disk.writeFails && disk.room >= |Frame(msg)| && !disk.flushFails
      ensures status == Completed ==>
        group.contents == old(group.contents) + Frame(msg) &&
        group.flushed == |group.contents|
    {
      status := SaveFrame(msg, disk);
      if status.Halted? {
        return;
      }
      var err := group.Flush(disk.flushFails);
      if err {
        status := Halted(FlushFailed);
      }
    }

    /** writeEndHeight: appends the frame of the marker of height and flushes; a
        failed write or flush stops the process. */
    method WriteEndHeight(height: int, disk: Disk) returns (status: Status)
      requires group.Valid()
      modifies group
      ensures group.Valid() && group.running == old(group.running)
      ensures old(group.contents) <= group.contents
      ensures !status.Failed?
      ensures group.contents ==
        old(group.contents) + Frame(Marker(height))[..Min(disk.room, |Frame(Marker(height))|)]
      ensures status.Halted? ==> group.flushed == old(group.flushed)
      ensures status == Completed <==>
        !disk.writeFails && disk.room >= |Frame(Marker(height))| && !disk.flushFails
      ensures status == Completed ==>
        group.contents == old(group.contents) + Frame(Marker(height)) &&
        group.flushed == |group.contents|
    {
      status := SaveAndFlush(Marker(height), disk);
    }

    /** OnStart: a failed size query is returned as an error; an empty head file gets
        the marker of height 0 before the group is started; a failed start is returned
        as an error. */
    method OnStart(disk: Disk) returns (status: Status)
      requires group.Valid()
      modifies group
      ensures group.Valid()
      ensures old(group.contents) <= group.contents
      ensures disk.sizeFails ==> status == Failed(HeadSizeFailed) && group.contents == old(group.contents)
      ensures !disk.sizeFails && |old(group.contents)| > group.headStart ==>
        group.contents == old(group.contents) &&
        status == (if disk.startFails then Failed(StartFailed) else Completed)
      ensures !disk.sizeFails && |old(group.contents)| == group.headStart ==>
        (status.Halted? <==>
          disk.writeFails || disk.room < |Frame(Marker(0))| || disk.flushFails) &&
        (!status.Halted? ==>
          group.contents == old(group.contents) + Frame(Marker(0)) &&
          group.flushed == |group.contents| &&
          status == (if disk.startFails then Failed(StartFailed) else Completed))
      ensures disk.sizeFails ==>
        group.flushed == old(group.flushed) && group.running == old(group.running)
      ensures !disk.sizeFails && |old(group.contents)| > group.headStart ==>
        group.flushed == old(group.flushed)
      ensures status.Failed? ==> group.running == old(group.running)
      ensures status.Halted? ==>
        group.running == old(group.running) && group.flushed == old(group.flushed) &&
        group.contents == old(group.contents) + Frame(Marker(0))[..Min(disk.room, |Frame(Marker(0))|)]
      ensures status == Completed ==> group.running
      ensures status == Completed && |old(group.contents)| == group.headStart ==>
        group.contents == old(group.contents) + Frame(Marker(0))
      ensures status == Completed && old(group.contents) == [] ==>
        DecodeLog(group.contents) == Ok([Marker(0)])
    {
      var size, err := group.HeadSize(disk.sizeFails);
      if err {
        return Failed(HeadSizeFailed);
      }
      if size == 0 {
        status := WriteEndHeight(0, disk);
        if status.Halted? {
          return;
        }
        if old(group.contents) == [] {
          FirstMarkerLog();
        }
      }
      err := group.Start(disk.startFails);
      status := if err then Failed(StartFailed) else Completed;
    }
  }

  /** NewWAL: wraps the opened group, or passes on the error when the group could not
      be opened (group == null). */
  method NewWAL(group: Group?, light: bool, encode: TimedWALMessage -> seq<Byte>)
    returns (wal: WAL?, err: bool)
    ensures err <==> group == null
    ensures err ==> wal == null
    ensures !err ==> (wal != null && fresh(wal) &&
      wal.group == group && wal.light == light && wal.encode == encode)
  {
    if group == null {
      return null, true;
    }
    wal := new WAL(group, light, encode);
    err := false;
  }

  /** Save: on a nil logger nothing happens; a message the light-mode filter drops is
      not written; any other message is stamped with the current time, encoded,
      appended as one frame and flushed, and a failed write or flush stops the
      process. */
  method Save(wal: WAL?, wmsg: WALMessage, now: Time, disk: Disk) returns (status: Status)
    requires wal != null ==> wal.group.Valid()
    modifies if wal == null then {} else {wal.group}
    ensures wal == null ==> status == Completed
    ensures !status.Failed?
    ensures wal != null ==> wal.group.Valid() && old(wal.group.contents) <= wal.group.contents
    ensures wal != null ==> wal.group.running == old(wal.group.running)
    ensures wal != null && Dropped(wal.light, wmsg) ==>
      status == Completed && wal.group.contents == old(wal.group.contents) &&
      wal.group.flushed == old(wal.group.flushed)
    ensures wal != null && !Dropped(wal.light, wmsg) ==>
      var payload := wal.encode(TimedWALMessage(now, wmsg));
      (status == Completed <==>
        !disk.writeFails && disk.room >= |Frame(payload)| && !disk.flushFails) &&
      wal.group.contents ==
        old(wal.group.contents) + Frame(payload)[..Min(disk.room, |Frame(payload)|)] &&
      (status.Halted? ==> wal.group.flushed == old(wal.group.flushed)) &&
      (status == Completed ==>
        wal.group.contents == old(wal.group.contents) + Frame(payload) &&
        wal.group.flushed == |wal.group.contents|)
  {
    if wal == null {
      return Completed;
    }
    if wal.light {
      match wmsg
      case MsgInfo(_, peerKey) =>
        if peerKey != "" {
          return Completed;
        }
      case _ =>
    }
    status := wal.SaveAndFlush(wal.encode(TimedWALMessage(now, wmsg)), disk);
  }
}

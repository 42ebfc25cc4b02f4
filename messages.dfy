/** What the consensus write-ahead log is asked to store: the three kinds of
    consensus message, each stamped with the time it was saved, the light-mode filter
    that decides which of them are stored, and the end-of-height marker that the log
    writes between heights. */
module Messages {
  import opened Bytes

  datatype Option<T> = None | Some(value: T)

  /** The contents of the three message kinds are defined outside the log (the
      consensus state machine and the types package); the log only passes them on. */
  type Time(==)
  type RoundStateEvent(==)
  type ConsensusMessage(==)
  type Timeout(==)

  /** The message kinds registered for the WALMessage interface. A MsgInfo carries the
      key of the peer it came from, empty when the node produced it itself. */
  datatype WALMessage =
    | EventDataRoundState(event: RoundStateEvent)
    | MsgInfo(msg: ConsensusMessage, peerKey: string)
    | TimeoutInfo(info: Timeout)

  /** A message with the time it was saved. */
  datatype TimedWALMessage = TimedWALMessage(time: Time, msg: WALMessage)

  /** The light-mode filter: in light mode a MsgInfo that came from a peer (proposals,
      block parts, other validators' votes) is not stored. */
  predicate Dropped(light: bool, m: WALMessage) {
    light && m.MsgInfo? && m.peerKey != ""
  }

  /** What light mode still stores: new steps, timeouts and the node's own messages
      are stored in either mode, and outside light mode everything is. */
  lemma LightModeKeeps(light: bool, m: WALMessage)
    ensures !light ==> !Dropped(light, m)
    ensures m.EventDataRoundState? || m.TimeoutInfo? ==> !Dropped(light, m)
    ensures m.MsgInfo? && m.peerKey == "" ==> !Dropped(light, m)
    ensures Dropped(light, m) ==> Dropped(true, m)
  {
  }

  predicate IsDigit(c: char) {
    '0' <= c <= '9'
  }

  function DigitChar(d: nat): (c: char)
    requires d < 10
    ensures IsDigit(c) && c as int == '0' as int + d
  {
    ('0' as int + d) as char
  }

  function DigitValue(c: char): (d: nat)
    requires IsDigit(c)
    ensures d < 10 && DigitChar(d) == c
  {
    c as int - '0' as int
  }

  /** The number a string of decimal digits denotes, most significant digit first. */
  function DecimalValue(s: string): (r: nat)
    requires forall i :: 0 <= i < |s| ==> IsDigit(s[i])
    decreases |s|
  {
    if |s| == 0 then 0
    else DecimalValue(s[..|s| - 1]) * 10 + DigitValue(s[|s| - 1])
  }

  /** The decimal text of a natural number, as Go's %v prints it: at least one digit,
      no leading zero, and denoting the number. */
  function Digits(n: nat): (r: string)
    ensures |r| >= 1 && forall i :: 0 <= i < |r| ==> IsDigit(r[i])
    ensures r[0] == '0' ==> n == 0 && |r| == 1
    ensures DecimalValue(r) == n
    decreases n
  {
    if n < 10 then [DigitChar(n)]
    else
      var d := Digits(n / 10);
      var r := d + [DigitChar(n % 10)];
      assert r[..|r| - 1] == d;
      r
  }

  /** The decimal text of a Go int, as %v prints it: a minus sign exactly when the
      value is negative, then the digits of its magnitude with no leading zero. */
  function FormatInt(h: int): (r: string)
    ensures |r| >= 1
    ensures forall i :: 0 <= i < |r| ==> IsDigit(r[i]) || (i == 0 && r[i] == '-')
    ensures IsAscii(r)
    ensures r[0] == '-' <==> h < 0
    ensures r[0] != '-' ==> DecimalValue(r) == h && (r[0] == '0' ==> |r| == 1)
    ensures r[0] == '-' ==> |r| >= 2 && r[1] != '0' && DecimalValue(r[1..]) == -h
  {
    if h < 0 then "-" + Digits(-h) else Digits(h)
  }

  /** A reader of decimal text: an optional minus sign followed by one or more
      digits. */
  function ParseInt(s: string): (r: Option<int>)
  {
    if |s| > 0 && s[0] == '-' then
      var t := s[1..];
      if |t| > 0 && forall i :: 0 <= i < |t| ==> IsDigit(t[i])
      then Some(0 - DecimalValue(t) as int) else None
    else if |s| > 0 && forall i :: 0 <= i < |s| ==> IsDigit(s[i])
    then Some(DecimalValue(s))
    else None
  }

  /** The text FormatInt prints reads back as the same number, so no two heights are
      printed alike. */
  lemma ParseFormatInt(h: int)
    ensures ParseInt(FormatInt(h)) == Some(h)
  {
    if h < 0 {
      assert FormatInt(h)[1..] == Digits(-h);
    }
  }

  /** The text before the height in an end-of-height marker. */
  const EndHeightPrefix: string := "#ENDHEIGHT: "

  /** The payload writeEndHeight frames: the ASCII bytes of "#ENDHEIGHT: " and then
      the decimal text of the height. */
  function Marker(h: int): (r: seq<Byte>)
    ensures |r| == |EndHeightPrefix| + |FormatInt(h)|
  {
    assert IsAscii(EndHeightPrefix);
    AsciiBytes(EndHeightPrefix + FormatInt(h))
  }

  /** The layout of a marker: the ASCII bytes of "#ENDHEIGHT: ", then the ASCII bytes
      of the height's decimal text. */
  lemma MarkerLayout(h: int)
    ensures Marker(h)[..|EndHeightPrefix|] == AsciiBytes(EndHeightPrefix)
    ensures Marker(h)[|EndHeightPrefix|..] == AsciiBytes(FormatInt(h))
  {
  }

  /** The marker OnStart writes into an empty log: the bytes of "#ENDHEIGHT: 0". */
  lemma HeightZeroMarker()
    ensures Marker(0) == [0x23, 0x45, 0x4E, 0x44, 0x48, 0x45, 0x49, 0x47, 0x48, 0x54, 0x3A, 0x20, 0x30]
  {
    assert FormatInt(0) == "0";
  }

  /** The characters of a string of bytes, one per byte. */
  function AsciiText(b: seq<Byte>): (r: string)
    ensures |r| == |b| && forall i :: 0 <= i < |b| ==> r[i] as int == b[i]
  {
    seq(|b|, i requires 0 <= i < |b| => b[i] as char)
  }

  /** A reader of end-of-height markers: the height a payload marks, or None when the
      payload is not a marker. */
  function EndHeight(payload: seq<Byte>): (r: Option<int>)
  {
    var n := |EndHeightPrefix|;
    if |payload| >= n && payload[..n] == AsciiBytes(EndHeightPrefix)
    then ParseInt(AsciiText(payload[n..]))
    else None
  }

  /** The marker of a height is read back as that height. */
  lemma MarkerRoundTrip(h: int)
    ensures EndHeight(Marker(h)) == Some(h)
  {
    var n := |EndHeightPrefix|;
    var m := Marker(h);
    MarkerLayout(h);
    assert AsciiText(m[n..]) == FormatInt(h);
    ParseFormatInt(h);
  }

  /** Different heights are marked by different payloads. */
  lemma MarkerInjective(a: int, b: int)
    requires Marker(a) == Marker(b)
    ensures a == b
  {
    MarkerRoundTrip(a);
    MarkerRoundTrip(b);
  }
}

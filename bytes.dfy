/** Bytes and 32-bit words, and the big-endian word layout used by the frame header
    (Go's encoding/binary.BigEndian). */
module Bytes {

  /** 2^32: one more than the largest value a Word holds. */
  const WordRange: int := 0x1_0000_0000

  type Byte = x: int | 0 <= x < 0x100
  type Word = x: int | 0 <= x < WordRange

  /** binary.BigEndian.PutUint32: the most significant byte first. */
  function EncodeUint32(w: Word): (r: seq<Byte>)
    ensures |r| == 4
  {
    var q1 := w / 0x100;
    var q2 := q1 / 0x100;
    var q3 := q2 / 0x100;
    [q3, q2 % 0x100, q1 % 0x100, w % 0x100]
  }

  lemma DivMod256(q: int, r: int)
    requires 0 <= r < 0x100
    ensures (q * 0x100 + r) / 0x100 == q && (q * 0x100 + r) % 0x100 == r
  {
  }

  /** binary.BigEndian.Uint32, the reader's side of EncodeUint32: any four bytes are
      the encoding of exactly the word it returns. */
  function DecodeUint32(b: seq<Byte>): (r: Word)
    requires |b| == 4
    ensures EncodeUint32(r) == b
  {
    var hi := (b[0] as int) * 0x100 + b[1] as int;
    var mid := hi * 0x100 + b[2] as int;
    var w := mid * 0x100 + b[3] as int;
    DivMod256(mid, b[3]);
    DivMod256(hi, b[2]);
    DivMod256(b[0], b[1]);
    w
  }

  /** Decoding the encoding of a word gives the word back. */
  lemma DecodeEncodeUint32(w: Word)
    ensures DecodeUint32(EncodeUint32(w)) == w
  {
    var q1 := w / 0x100;
    var q2 := q1 / 0x100;
    var q3 := q2 / 0x100;
    assert w == q1 * 0x100 + w % 0x100;
    assert q1 == q2 * 0x100 + q1 % 0x100;
    assert q2 == q3 * 0x100 + q2 % 0x100;
  }

  /** Every character of s is an ASCII character. */
  predicate IsAscii(s: string) {
    forall i :: 0 <= i < |s| ==> s[i] as int < 0x80
  }

  /** Go's []byte(s) for a string of ASCII characters: one byte per character,
      holding the character's code. */
  function AsciiBytes(s: string): (r: seq<Byte>)
    requires IsAscii(s)
    ensures |r| == |s|
    ensures forall i :: 0 <= i < |s| ==> r[i] == s[i] as int
  {
    seq(|s|, i requires 0 <= i < |s| => s[i] as int)
  }
}

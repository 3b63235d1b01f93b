/** Bytes and buffers, as packets and frames have them. */
module Bytes {

  type Byte = b: int | 0 <= b < 256
  type Text = seq<Byte>

  /** A number in two bytes, the higher one first. */
  function U16(v: nat): (s: Text)
    ensures |s| == 2
  {
    [v / 256 % 256, v % 256]
  }

  /** A buffer with some bytes written over it. */
  function Put(buf: Text, at: nat, data: Text): (r: Text)
    requires at + |data| <= |buf|
    ensures |r| == |buf| && r[..at] == buf[..at] && r[at..at + |data|] == data
  {
    buf[..at] + data + buf[at + |data|..]
  }

  /** Put, byte by byte. */
  lemma PutBytes(buf: Text, at: nat, data: Text)
    requires at + |data| <= |buf|
    ensures var r := Put(buf, at, data);
            && (forall i :: 0 <= i < |buf| && !(at <= i < at + |data|) ==> r[i] == buf[i])
            && (forall i :: at <= i < at + |data| ==> r[i] == data[i - at])
  {
  }

  lemma PutTwice(buf: Text, at: nat, a: Text, b: Text)
    requires at + |a| + |b| <= |buf|
    ensures Put(Put(buf, at, a), at + |a|, b) == Put(buf, at, a + b)
  {
  }
}

/**
  Fragments on the RS485 line: the loop of _sender_task that cuts a message into frames (rs485.cpp lines
  55-76) and paket_decode, which puts them together (lines 169-189). The sender has the length in 16
  bits and the number of frames in 8; the receiver's mark for the last frame it has seen has 32.
 */
module Rs485 {

  import opened Bytes

  const PAKET_SIZE := 50

  /** The parts of a frame that reassembly looks at. */
  datatype Frame = Frame(total: nat, current: nat, data: Text)

  // ----- Cutting -----

  /** The length of the message, in 16 bits. */
  function Size(m: Text): (n: nat)
    ensures n <= |m| && n < 0x1_0000
  {
    |m| % 0x1_0000
  }

  /** The number of frames, in 8 bits. */
  function FrameCount(m: Text): (n: nat)
    ensures n < 256
  {
    (Size(m) / PAKET_SIZE + if Size(m) % PAKET_SIZE != 0 then 1 else 0) % 256
  }

  /** The end of the k-th fragment. */
  function FragmentEnd(m: Text, k: nat): (e: nat)
    ensures e <= |m| && e <= k * PAKET_SIZE
  {
    if k * PAKET_SIZE <= Size(m) then k * PAKET_SIZE else Size(m)
  }

  /** The k-th frame, counted from 1. */
  function FrameOf(m: Text, k: nat): Frame
    requires 1 <= k <= FrameCount(m)
  {
    Frame(FrameCount(m), k, m[FragmentEnd(m, k - 1)..FragmentEnd(m, k)])
  }

  /** Every frame that is sent begins within the message. */
  lemma CountMeans(m: Text)
    ensures var n := FrameCount(m); n > 0 ==> (n - 1) * PAKET_SIZE < Size(m)
  {
  }

  /**
    The frames of a message: numbered from 1, 50 bytes each but for what is left at the end. Only the last 16
    binary digits of the length count, and only the last eight of the number of frames.
   */
  lemma FramesMean(m: Text)
    ensures var size := |m| % 0x1_0000;
            && FrameCount(m) == (size + 49) / 50 % 256
            && forall k :: 1 <= k <= FrameCount(m) ==>
                 FrameOf(m, k)
                     == Frame((size + 49) / 50 % 256, k, m[50 * (k - 1)..if 50 * k <= size then 50 * k else size])
  {
    CountMeans(m);
  }

  // ----- Putting together -----

  /** 2 to the power of k, in 32 bits. */
  function Shifted(k: nat): nat {
    if k < 32 then Power(k) else 0
  }

  function Power(k: nat): (p: nat)
    ensures p > 0
  {
    if k == 0 then 1 else 2 * Power(k - 1)
  }

  /** The mark of the receiver: a single binary digit, which is lost from 32 on. */
  lemma MarkMeans(k: nat)
    ensures Shifted(0) == 1 && Shifted(k + 1) == if k < 31 then 2 * Shifted(k) else 0
  {
  }

  function Zeros(n: nat): Text {
    seq(n, _ => 0)
  }

  /** The first frame makes a new buffer. */
  function Buffer(buf: Text, f: Frame): Text {
    if f.current == 1 then Zeros(f.total * PAKET_SIZE + 2) else buf
  }

  predicate Fits(buf: Text, f: Frame) {
    f.current >= 1 && (f.current - 1) * PAKET_SIZE + |f.data| <= |Buffer(buf, f)|
  }

  /** paket_decode: the buffer after a frame. */
  function Decode(buf: Text, f: Frame): Text
    requires Fits(buf, f)
  {
    Put(Buffer(buf, f), (f.current - 1) * PAKET_SIZE, f.data)
  }

  /** What paket_decode returns. */
  predicate Complete(f: Frame) {
    Power(f.total) == Shifted(f.current)
  }

  lemma {:induction false} PowerMonotone(a: nat, b: nat)
    requires a < b
    ensures Power(a) < Power(b)
  {
    if a < b - 1 {
      PowerMonotone(a, b - 1);
    }
  }

  /** Of the frames of a message only the last can complete it, and it does when at most 31 are sent. */
  lemma CompleteAtLast(m: Text, k: nat)
    requires 1 <= k <= FrameCount(m)
    ensures Complete(FrameOf(m, k)) <==> k == FrameCount(m) && FrameCount(m) < 32
  {
    if k < FrameCount(m) {
      PowerMonotone(k, FrameCount(m));
    }
  }

  // ----- The round trip -----

  /** The buffer after the first k frames: the message so far, and zeros. */
  function Partial(m: Text, k: nat): Text
    requires k <= FrameCount(m)
  {
    CountMeans(m);
    m[..FragmentEnd(m, k)] + Zeros(FrameCount(m) * PAKET_SIZE + 2 - FragmentEnd(m, k))
  }

  /** A frame moves the buffer on by one fragment, or leaves it when it comes again. */
  lemma DecodeNext(m: Text, k: nat, buf: Text)
    requires 1 <= k <= FrameCount(m)
    requires k > 1 ==> buf == Partial(m, k - 1) || buf == Partial(m, k)
    ensures Fits(buf, FrameOf(m, k)) && Decode(buf, FrameOf(m, k)) == Partial(m, k)
  {
    CountMeans(m);
    var f := FrameOf(m, k);
    var from, to := FragmentEnd(m, k - 1), FragmentEnd(m, k);
    assert from == (k - 1) * PAKET_SIZE && |f.data| == to - from;
    var b := Buffer(buf, f);
    assert |b| == FrameCount(m) * PAKET_SIZE + 2;
    assert b[..from] == m[..from] by {
      if k > 1 {
        assert Partial(m, k - 1)[..from] == m[..from] && Partial(m, k)[..from] == m[..to][..from] == m[..from];
      }
    }
    assert b[to..] == Zeros(|b| - to) by {
      if k > 1 {
        assert Partial(m, k - 1)[to..] == Zeros(|b| - to) && Partial(m, k)[to..] == Zeros(|b| - to);
      }
    }
    assert m[..to] == m[..from] + m[from..to];
  }

  /** The frames come in order, each as often as it is sent again. */
  ghost predicate InOrder(m: Text, order: seq<nat>) {
    && order != [] && order[0] == 1 && (forall i :: 0 <= i < |order| ==> 1 <= order[i] <= FrameCount(m))
    && forall i :: 0 < i < |order| ==> order[i] == order[i - 1] || order[i] == order[i - 1] + 1
  }

  /** The buffer after the first n of the frames that come. */
  ghost function Received(buf: Text, m: Text, order: seq<nat>, n: nat): Text
    requires n <= |order| && forall i :: 0 <= i < |order| ==> 1 <= order[i] <= FrameCount(m)
  {
    if n == 0 then buf
    else
      var before := Received(buf, m, order, n - 1);
      if Fits(before, FrameOf(m, order[n - 1])) then Decode(before, FrameOf(m, order[n - 1])) else before
  }

  /**
    Whatever was in the buffer, after each frame it holds the message up to that fragment, and zeros. The
    call returns true exactly at the last frame, when at most 31 are sent.
   */
  lemma {:induction false} Reassembles(buf: Text, m: Text, order: seq<nat>, n: nat)
    requires InOrder(m, order) && 1 <= n <= |order|
    ensures var k := order[n - 1];
            Received(buf, m, order, n) == Partial(m, k)
            && (Complete(FrameOf(m, k)) <==> k == FrameCount(m) && FrameCount(m) < 32)
  {
    var k := order[n - 1];
    if n == 1 {
      DecodeNext(m, 1, buf);
    } else {
      Reassembles(buf, m, order, n - 1);
      DecodeNext(m, k, Received(buf, m, order, n - 1));
    }
    CompleteAtLast(m, k);
  }

  /** A message is a C string. */
  predicate NulFree(m: Text) {
    forall i :: 0 <= i < |m| ==> m[i] != 0
  }

  /** The buffer holds the message as a C string. */
  predicate HoldsString(buf: Text, m: Text) {
    |m| < |buf| && m <= buf && buf[|m|] == 0
  }

  /** The last frame is there, paket_decode has returned true, and the message is in the buffer. */
  ghost predicate Delivered(buf: Text, m: Text, order: seq<nat>)
    requires InOrder(m, order)
  {
    var k := order[|order| - 1];
    k == FrameCount(m) && Complete(FrameOf(m, k)) && HoldsString(Received(buf, m, order, |order|), m)
  }

  lemma WholeCount(m: Text)
    ensures 1 <= FrameCount(m) < 32 && FragmentEnd(m, FrameCount(m)) == |m| <==> 1 <= |m| <= 1550
  {
  }

  lemma PartialIsShort(m: Text, k: nat)
    requires NulFree(m) && k <= FrameCount(m)
    ensures HoldsString(Partial(m, k), m) <==> FragmentEnd(m, k) == |m|
  {
    CountMeans(m);
    var e := FragmentEnd(m, k);
    if e < |m| <= |Partial(m, k)| {
      assert Partial(m, k)[e] == 0 != m[e];
    }
    if e == |m| {
      assert m[..e] == m && Partial(m, k)[e] == 0;
    }
  }

  /** When its last frame has come a message has been delivered exactly when it has 1 to 1550 bytes. */
  lemma DeliveredExactly(buf: Text, m: Text, order: seq<nat>)
    requires InOrder(m, order) && NulFree(m) && order[|order| - 1] == FrameCount(m)
    ensures Delivered(buf, m, order) <==> 1 <= |m| <= 1550
  {
    Reassembles(buf, m, order, |order|);
    PartialIsShort(m, FrameCount(m));
    WholeCount(m);
  }

  /**
    From 12801 bytes on the number of frames has wrapped: as few as one frame is sent, and the receiver
    takes its 50 bytes for the message. Just before, nothing is sent at all.
   */
  lemma CountWraps(m: Text)
    ensures 12801 <= |m| <= 14350 ==>
              var n := FrameCount(m);
              1 <= n < 32 && Complete(FrameOf(m, n)) && FragmentEnd(m, n) == n * PAKET_SIZE < |m|
    ensures |m| == 12801 ==> FrameCount(m) == 1 && FrameOf(m, 1) == Frame(1, 1, m[..50]) && Complete(FrameOf(m, 1))
    ensures 12751 <= |m| <= 12800 ==> FrameCount(m) == 0
  {
    if 12801 <= |m| <= 14350 {
      CompleteAtLast(m, FrameCount(m));
    }
  }

  // ----- In place -----

  /** The receiving side of an RS485 object. */
  class Receiver {
    var paketBuffer: array?<Byte>
    var paketHeader: nat
    var paketLength: nat

    ghost function View(): Text
      reads this, paketBuffer
    {
      if paketBuffer == null then [] else paketBuffer[..]
    }

    constructor ()
      ensures paketBuffer == null
    {
      paketBuffer, paketHeader, paketLength := null, 0, 0;
    }

    /** paket_decode; without a buffer only a first frame does anything. */
    method PaketDecode(f: Frame) returns (ret: bool)
      requires f.current == 1 || paketBuffer != null ==> Fits(View(), f)
      modifies this, paketBuffer
      ensures f.current != 1 && old(paketBuffer) == null ==>
              !ret && paketBuffer == null && paketHeader == old(paketHeader) && paketLength == old(paketLength)
      ensures f.current == 1 || old(paketBuffer) != null ==>
                && paketBuffer != null && View() == Decode(old(View()), f)
                && ret == Complete(f) && paketHeader == Shifted(f.current)
                && paketLength == ((if f.current == 1 then 0 else old(paketLength)) + |f.data|) % 0x1_0000
      ensures paketBuffer != old(paketBuffer) ==> fresh(paketBuffer)
    {
      ghost var before := View();
      ret := false;
      if f.current == 1 {
        NewBuffer(f.total);
      }
      if paketBuffer != null {
        assert View() == Buffer(before, f);
        Copy(f.data, (f.current - 1) * PAKET_SIZE);
        paketHeader := Shifted(f.current);
        paketLength := (paketLength + |f.data|) % 0x1_0000;
        if Power(f.total) == paketHeader {
          ret := true;
        }
      }
    }

    /** malloc and memset */
    method NewBuffer(total: nat)
      modifies this
      ensures paketBuffer != null && fresh(paketBuffer) && View() == Zeros(total * PAKET_SIZE + 2)
      ensures paketHeader == old(paketHeader) && paketLength == 0
    {
      paketBuffer := new Byte[total * PAKET_SIZE + 2](_ => 0);
      paketLength := 0;
      assert paketBuffer[..] == Zeros(total * PAKET_SIZE + 2);
    }

    /** memcpy */
    method Copy(data: Text, at: nat)
      requires paketBuffer != null && at + |data| <= paketBuffer.Length
      modifies paketBuffer
      ensures View() == Put(old(View()), at, data)
    {
      forall i | 0 <= i < |data| {
        paketBuffer[at + i] := data[i];
      }
    }
  }

  /** The fragment loop of _sender_task; one frame is handed to the line after the other. */
  method Fragments(m: Text) returns (frames: seq<Frame>)
    ensures |frames| == FrameCount(m) && forall k :: 1 <= k <= |frames| ==> frames[k - 1] == FrameOf(m, k)
  {
    var size := |m| % 0x1_0000;
    var count := (size / PAKET_SIZE + if size % PAKET_SIZE != 0 then 1 else 0) % 256;
    CountMeans(m);
    frames := [];
    var i := 0;
    while i < count
      invariant i <= count && |frames| == i
      invariant forall k :: 1 <= k <= i ==> frames[k - 1] == FrameOf(m, k)
    {
      var start := i * PAKET_SIZE;
      var len := PAKET_SIZE;
      if start + PAKET_SIZE > size {
        len := size - start;
      }
      frames := frames + [Frame(count, i + 1, m[start..start + len])];
      i := i + 1;
    }
  }
}

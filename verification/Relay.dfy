/** The WebSocket relay: frames of a one-byte kind, an eight-byte little-endian
    length and that many bytes, read from a stream in arbitrary pieces. */
module Relay {

  type Byte = b: nat | b < 256

  const HEADER: nat := 9
  const LENGTH_BYTES: nat := 8
  const SIZE_MAX_PLUS_1: nat := 0x1_0000_0000_0000_0000

  datatype Frame = Frame(kind: Byte, payload: seq<Byte>)

  datatype Opcode = TextFrame | BinaryFrame

  datatype Message = Message(opcode: Opcode, data: seq<Byte>)

  function ToMessage(f: Frame): Message {
    Message(if f.kind == 0 then TextFrame else BinaryFrame, f.payload)
  }

  /** Frame by frame: the same bytes, as text exactly when the kind is zero. */
  ghost predicate Relayed(fs: seq<Frame>, ms: seq<Message>) {
    && |ms| == |fs|
    && forall i | 0 <= i < |fs| :: ms[i].data == fs[i].payload && (ms[i].opcode.TextFrame? <==> fs[i].kind == 0)
  }

  function ToMessages(fs: seq<Frame>): seq<Message> {
    seq(|fs|, i requires 0 <= i < |fs| => ToMessage(fs[i]))
  }

  // ---- lengths ----

  function LittleEndian(bs: seq<Byte>): nat {
    if bs == [] then 0 else bs[0] + 256 * LittleEndian(bs[1..])
  }

  function Bytes(n: nat, k: nat): (r: seq<Byte>)
    ensures |r| == k
  {
    if k == 0 then [] else [n % 256] + Bytes(n / 256, k - 1)
  }

  function Pow256(k: nat): nat {
    if k == 0 then 1 else 256 * Pow256(k - 1)
  }

  lemma {:induction false} BytesOfLittleEndian(bs: seq<Byte>)
    ensures Bytes(LittleEndian(bs), |bs|) == bs
  {
    if bs != [] {
      BytesOfLittleEndian(bs[1..]);
      LowByte(bs[0], LittleEndian(bs[1..]));
      assert bs == [bs[0]] + bs[1..];
    }
  }

  lemma LowByte(b: Byte, m: nat)
    ensures (b + 256 * m) % 256 == b && (b + 256 * m) / 256 == m
  {
  }

  lemma {:induction false} LittleEndianOfBytes(n: nat, k: nat)
    requires n < Pow256(k)
    ensures LittleEndian(Bytes(n, k)) == n
  {
    if k > 0 {
      LittleEndianOfBytes(n / 256, k - 1);
      assert Bytes(n, k)[1..] == Bytes(n / 256, k - 1);
    }
  }

  lemma Pow256OfLength()
    ensures Pow256(LENGTH_BYTES) == SIZE_MAX_PLUS_1
  {
  }

  // ---- one frame ----

  function LengthField(buf: seq<Byte>): nat
    requires |buf| >= HEADER
  {
    LittleEndian(buf[1..HEADER])
  }

  /** Header plus length, in the 64-bit arithmetic of the reader. */
  function FrameSize(buf: seq<Byte>): nat
    requires |buf| >= HEADER
  {
    (HEADER + LengthField(buf)) % SIZE_MAX_PLUS_1
  }

  predicate Overflows(buf: seq<Byte>)
    requires |buf| >= HEADER
  {
    HEADER + LengthField(buf) >= SIZE_MAX_PLUS_1
  }

  function Serialize(f: Frame): seq<Byte> {
    [f.kind] + Bytes(|f.payload|, LENGTH_BYTES) + f.payload
  }

  function SerializeAll(fs: seq<Frame>): seq<Byte> {
    if fs == [] then [] else Serialize(fs[0]) + SerializeAll(fs[1..])
  }

  /** The buffer starts with a complete frame. */
  predicate Complete(buf: seq<Byte>) {
    |buf| >= HEADER && |buf| >= FrameSize(buf)
  }

  /** The buffer starts with a complete frame whose length does not overflow. */
  predicate Whole(buf: seq<Byte>) {
    Complete(buf) && !Overflows(buf)
  }

  function FirstFrame(buf: seq<Byte>): Frame
    requires Whole(buf)
  {
    Frame(buf[0], buf[HEADER..FrameSize(buf)])
  }

  // ---- the whole stream at once ----

  function Frames(buf: seq<Byte>): seq<Frame>
    decreases |buf|
  {
    if Whole(buf) then [FirstFrame(buf)] + Frames(buf[FrameSize(buf)..]) else []
  }

  function Rest(buf: seq<Byte>): seq<Byte>
    decreases |buf|
  {
    if Whole(buf) then Rest(buf[FrameSize(buf)..]) else buf
  }

  /** Reading comes to a frame whose length overflows. */
  predicate Faulty(buf: seq<Byte>) {
    |Rest(buf)| >= HEADER && Overflows(Rest(buf))
  }

  lemma {:induction false} LittleEndianBound(bs: seq<Byte>)
    ensures LittleEndian(bs) < Pow256(|bs|)
  {
    if bs != [] {
      LittleEndianBound(bs[1..]);
    }
  }

  lemma FrameSizeCases(buf: seq<Byte>)
    requires |buf| >= HEADER
    ensures LengthField(buf) < SIZE_MAX_PLUS_1
    ensures FrameSize(buf) == HEADER + LengthField(buf) - if Overflows(buf) then SIZE_MAX_PLUS_1 else 0
  {
    LittleEndianBound(buf[1..HEADER]);
    Pow256OfLength();
  }

  // ---- lengths that overflow ----

  /** The reader takes a frame for complete; the payload it then hands on lies inside
      its buffer if and only if the sum did not overflow. */
  lemma PayloadInsideIff(buf: seq<Byte>)
    requires Complete(buf) && |buf| < SIZE_MAX_PLUS_1
    ensures HEADER + LengthField(buf) <= |buf| <==> !Overflows(buf)
  {
    FrameSizeCases(buf);
  }

  /** The wrapped size is zero for exactly one length. */
  lemma WrappedToZeroIff(buf: seq<Byte>)
    requires |buf| >= HEADER
    ensures FrameSize(buf) == 0 <==> LengthField(buf) == SIZE_MAX_PLUS_1 - HEADER
  {
    FrameSizeCases(buf);
  }

  lemma LittleEndianCons(b: Byte, bs: seq<Byte>)
    ensures LittleEndian([b] + bs) == b + 256 * LittleEndian(bs)
  {
    assert ([b] + bs)[1..] == bs;
  }

  lemma LittleEndianOfEight(a: Byte, b: Byte)
    ensures LittleEndian([a, b, b, b, b, b, b, b]) == a + b * 0x0101_0101_0101_0100
  {
    LittleEndianCons(b, []);
    LittleEndianCons(b, [b]);
    LittleEndianCons(b, [b, b]);
    LittleEndianCons(b, [b, b, b]);
    LittleEndianCons(b, [b, b, b, b]);
    LittleEndianCons(b, [b, b, b, b, b]);
    LittleEndianCons(b, [b, b, b, b, b, b]);
    LittleEndianCons(a, [b, b, b, b, b, b, b]);
    assert [b] + [b, b, b, b, b, b] == [b, b, b, b, b, b, b];
  }

  /** Nine bytes taken for a complete frame whose payload is nowhere near them. */
  lemma OverflowingHeader()
    ensures var buf := [0, 255, 255, 255, 255, 255, 255, 255, 255];
            Complete(buf) && Overflows(buf) && FrameSize(buf) == 8 && HEADER + LengthField(buf) > |buf|
  {
    var buf := [0, 255, 255, 255, 255, 255, 255, 255, 255];
    LittleEndianOfEight(255, 255);
    assert buf[1..HEADER] == [255, 255, 255, 255, 255, 255, 255, 255];
  }

  /** Nine bytes whose wrapped size is zero. */
  lemma ZeroSizeHeader()
    ensures var buf := [0, 247, 255, 255, 255, 255, 255, 255, 255];
            Complete(buf) && FrameSize(buf) == 0
  {
    var buf := [0, 247, 255, 255, 255, 255, 255, 255, 255];
    LittleEndianOfEight(247, 255);
    assert buf[1..HEADER] == [247, 255, 255, 255, 255, 255, 255, 255];
  }

  // ---- conservation and round trip ----

  lemma LengthFieldBytes(buf: seq<Byte>)
    requires |buf| >= HEADER
    ensures Bytes(LengthField(buf), LENGTH_BYTES) == buf[1..HEADER]
  {
    BytesOfLittleEndian(buf[1..HEADER]);
  }

  lemma Pieces(buf: seq<Byte>, n: nat)
    requires HEADER <= n <= |buf|
    ensures [buf[0]] + buf[1..HEADER] + buf[HEADER..n] + buf[n..] == buf
  {
  }

  lemma FirstFrameSerialized(buf: seq<Byte>)
    requires Whole(buf)
    ensures HEADER <= FrameSize(buf) && |FirstFrame(buf).payload| == LengthField(buf)
    ensures Serialize(FirstFrame(buf)) + buf[FrameSize(buf)..] == buf
  {
    FrameSizeCases(buf);
    LengthFieldBytes(buf);
    Pieces(buf, FrameSize(buf));
  }

  /** Nothing is lost: the frames written out again, followed by the bytes kept,
      are the stream, and the bytes kept do not start with a frame that can be read. */
  lemma {:induction false} ParseConserves(buf: seq<Byte>)
    ensures SerializeAll(Frames(buf)) + Rest(buf) == buf
    ensures !Whole(Rest(buf))
    decreases |buf|
  {
    if Whole(buf) {
      FirstFrameSerialized(buf);
      var tail := buf[FrameSize(buf)..];
      ParseConserves(tail);
      assert Frames(buf)[1..] == Frames(tail);
      assert SerializeAll(Frames(buf)) + Rest(buf) == Serialize(FirstFrame(buf)) + (SerializeAll(Frames(tail)) + Rest(tail));
    }
  }

  predicate Fits(f: Frame) {
    HEADER + |f.payload| < SIZE_MAX_PLUS_1
  }

  lemma LengthOfBytes(n: nat)
    requires n < SIZE_MAX_PLUS_1
    ensures LittleEndian(Bytes(n, LENGTH_BYTES)) == n
  {
    Pow256OfLength();
    LittleEndianOfBytes(n, LENGTH_BYTES);
  }

  lemma SerializedFirst(f: Frame, tail: seq<Byte>)
    requires Fits(f)
    ensures var buf := Serialize(f) + tail;
            Whole(buf) && FirstFrame(buf) == f && buf[FrameSize(buf)..] == tail
  {
    var buf := Serialize(f) + tail;
    var length := Bytes(|f.payload|, LENGTH_BYTES);
    LengthOfBytes(|f.payload|);
    assert buf == [f.kind] + length + f.payload + tail;
    assert buf[1..HEADER] == length;
    assert buf[HEADER..HEADER + |f.payload|] == f.payload;
  }

  /** Round trip: any frames written out, followed by an incomplete one, are read
      back as those frames and those bytes. */
  lemma {:induction false} ParseOfSerialized(fs: seq<Frame>, tail: seq<Byte>)
    requires (forall f | f in fs :: Fits(f)) && !Whole(tail)
    ensures Frames(SerializeAll(fs) + tail) == fs && Rest(SerializeAll(fs) + tail) == tail
    decreases |fs|
  {
    if fs == [] {
      assert SerializeAll(fs) + tail == tail;
    } else {
      assert fs[0] in fs && forall f | f in fs[1..] :: f in fs;
      ParseOfSerialized(fs[1..], tail);
      var more := SerializeAll(fs[1..]) + tail;
      assert SerializeAll(fs) + tail == Serialize(fs[0]) + more;
      SerializedFirst(fs[0], more);
      FrameSizeCases(Serialize(fs[0]) + more);
    }
  }

  // ---- the stream in pieces ----

  lemma PrefixHeader(a: seq<Byte>, b: seq<Byte>)
    requires |a| >= HEADER
    ensures LengthField(a + b) == LengthField(a) && FrameSize(a + b) == FrameSize(a)
    ensures Overflows(a + b) <==> Overflows(a)
  {
    assert (a + b)[1..HEADER] == a[1..HEADER];
  }

  /** More bytes do not change what was read; they are read after what was kept. */
  lemma {:induction false} ParseInTwo(a: seq<Byte>, b: seq<Byte>)
    ensures Frames(a + b) == Frames(a) + Frames(Rest(a) + b)
    ensures Rest(a + b) == Rest(Rest(a) + b)
    decreases |a|
  {
    if |a| >= HEADER {
      PrefixHeader(a, b);
      FrameSizeCases(a);
      if Whole(a) {
        var n := FrameSize(a);
        assert (a + b)[n..] == a[n..] + b;
        ParseInTwo(a[n..], b);
        assert FirstFrame(a + b) == FirstFrame(a) by {
          assert (a + b)[HEADER..n] == a[HEADER..n];
        }
      }
    }
  }

  /** Where reading stands: the frames queued and the bytes kept. */
  datatype Reader = Reader(queued: seq<Frame>, input: seq<Byte>)

  function Concat(chunks: seq<seq<Byte>>): seq<Byte> {
    if chunks == [] then [] else Concat(chunks[..|chunks| - 1]) + chunks[|chunks| - 1]
  }

  /** Reading one more piece. */
  function Fed(r: Reader, chunk: seq<Byte>): Reader {
    Reader(r.queued + Frames(r.input + chunk), Rest(r.input + chunk))
  }

  /** Reading piece after piece. */
  function FedAll(chunks: seq<seq<Byte>>): Reader {
    if chunks == [] then Reader([], []) else Fed(FedAll(chunks[..|chunks| - 1]), chunks[|chunks| - 1])
  }

  /** However a stream is cut into reads, the frames queued are those of the
      whole stream and the bytes kept are its incomplete last frame. */
  lemma {:induction false} CuttingDoesNotMatter(chunks: seq<seq<Byte>>)
    ensures FedAll(chunks) == Reader(Frames(Concat(chunks)), Rest(Concat(chunks)))
    decreases |chunks|
  {
    if chunks != [] {
      var front, last := chunks[..|chunks| - 1], chunks[|chunks| - 1];
      CuttingDoesNotMatter(front);
      ParseInTwo(Concat(front), last);
    }
  }

  lemma ToMessagesExtend(fs: seq<Frame>, f: Frame)
    ensures ToMessages(fs + [f]) == ToMessages(fs) + [ToMessage(f)]
  {
  }

  // Moving the first frame of the input over to the frames done.
  lemma TakeFrame(whole: seq<Byte>, done: seq<Frame>, input: seq<Byte>)
    requires Whole(input) && Frames(whole) == done + Frames(input) && Rest(whole) == Rest(input)
    ensures HEADER <= FrameSize(input)
    ensures Frames(whole) == done + [FirstFrame(input)] + Frames(input[FrameSize(input)..])
    ensures Rest(whole) == Rest(input[FrameSize(input)..])
  {
    FrameSizeCases(input);
  }

  class Socket {
    var input: seq<Byte>
    var queued: seq<Message>
    var closed: bool

    constructor ()
      ensures input == [] && queued == [] && !closed
    {
      input, queued, closed := [], [], false;
    }

    /** The read callback: queues every complete frame of the buffered input. It
        faults, handing on memory outside its buffer, exactly when it comes to a
        frame whose length overflows. */
    method OnRelayMessage(error: bool, chunk: seq<Byte>) returns (fault: bool)
      modifies this
      ensures closed == (old(closed) || error)
      ensures error ==> queued == old(queued) && !fault
      ensures !error ==> queued == old(queued) + ToMessages(Frames(old(input) + chunk))
      ensures !error ==> |queued| >= |old(queued)| && Relayed(Frames(old(input) + chunk), queued[|old(queued)|..])
      ensures !error ==> input == Rest(old(input) + chunk)
      ensures !error ==> (fault <==> Faulty(old(input) + chunk))
    {
      if error {
        closed := true;
        return false;
      }
      input := input + chunk;
      ghost var whole, done: seq<Frame> := input, [];
      while |input| > 0
        invariant closed == old(closed)
        invariant queued == old(queued) + ToMessages(done)
        invariant Frames(whole) == done + Frames(input) && Rest(whole) == Rest(input)
        decreases |input|
      {
        if |input| < HEADER {
          break;
        }
        FrameSizeCases(input);
        var size := FrameSize(input);
        if |input| < size {
          break;
        }
        if Overflows(input) {
          assert done + [] == done;
          return true;
        }
        TakeFrame(whole, done, input);
        ToMessagesExtend(done, FirstFrame(input));
        var kind, data := input[0], input[HEADER..size];
        queued := queued + [Message(if kind == 0 then TextFrame else BinaryFrame, data)];
        done := done + [FirstFrame(input)];
        input := input[size..];
      }
      assert done + [] == done;
      fault := false;
    }
  }
}

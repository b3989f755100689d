/**
 * Length-framed transport: an 8-byte big-endian length header followed by
 * the payload (server.py), the receiver that decodes a frame (client2.py
 * `receive_data`), and the server's end-of-stream result read
 * (server.py `receive_detection_from_client`).
 */
module Framing {
  import opened Wrappers
  import opened Bytes
  import opened Channel

  const HEADER_SIZE: nat := 8
  /** The largest read either side asks of its socket while receiving a payload. */
  const RECV_LIMIT: nat := 4096

  /** The two exceptions `receive_data` raises. */
  datatype RecvError = MissingLength | ClosedMidFrame

  /** `int.to_bytes` raises OverflowError when the length does not fit in the header. */
  datatype SendError = LengthOverflow

  type Received = (Result<seq<byte>, RecvError>, seq<seq<byte>>)

  function Min(a: nat, b: nat): nat {
    if a <= b then a else b
  }

  /** 8 header bytes hold any length below 2^64. */
  lemma HeaderCapacity()
    ensures Pow256(HEADER_SIZE) == 0x1_0000_0000_0000_0000
  {
    assert Pow256(4) == 0x1_0000_0000;
  }

  /** The payload's length can be written in the header: it is below 2^64. */
  predicate Fits(payload: seq<byte>) {
    |payload| < 0x1_0000_0000_0000_0000
  }

  /**
   * The bytes a send of `payload` as a frame puts on the wire: the header,
   * then the payload; nothing when the length cannot be written in the header.
   */
  function FrameBytes(payload: seq<byte>): seq<byte> {
    HeaderCapacity();
    if Fits(payload) then ToBigEndian(|payload|, HEADER_SIZE) + payload else []
  }

  /**
   * The frame built for `payload`. Its header decodes to the payload's
   * length, and a payload of 2^64 bytes or more cannot be framed.
   */
  function EncodeFrame(payload: seq<byte>): (r: Result<seq<byte>, SendError>)
    ensures r.Success? <==> Fits(payload)
    ensures r.Success? ==>
      && |r.value| == HEADER_SIZE + |payload|
      && r.value[HEADER_SIZE..] == payload
      && FromBigEndian(r.value[..HEADER_SIZE]) == |payload|
  {
    HeaderCapacity();
    if Fits(payload) then
      var frame := FrameBytes(payload);
      FromToBigEndian(|payload|, HEADER_SIZE);
      assert frame[..HEADER_SIZE] == ToBigEndian(|payload|, HEADER_SIZE);
      Success(frame)
    else
      Failure(LengthOverflow)
  }

  /** Put `data` in front of a successful read; a failed read stays failed. */
  function Prepend(data: seq<byte>, res: Received): Received {
    match res.0
    case Success(v) => (Success(data + v), res.1)
    case Failure(_) => res
  }

  lemma PrependNothing(res: Received)
    ensures Prepend([], res) == res
  {
    if res.0.Success? {
      assert [] + res.0.value == res.0.value;
    }
  }

  lemma PrependTwice(a: seq<byte>, b: seq<byte>, res: Received)
    ensures Prepend(a, Prepend(b, res)) == Prepend(a + b, res)
  {
    if res.0.Success? {
      assert a + (b + res.0.value) == (a + b) + res.0.value;
    }
  }

  /**
   * The payload loop of `receive_data`: read `min(4096, need)` bytes at a
   * time until `need` bytes have arrived, or fail when the peer closes first.
   */
  function ReadExactly(chunks: seq<seq<byte>>, need: nat): (res: Received)
    requires Deliverable(chunks)
    ensures Deliverable(res.1)
    ensures res.0.Failure? ==> res.0.error == ClosedMidFrame && res.1 == []
    decreases need
  {
    if need == 0 then (Success([]), chunks)
    else
      var step := Take(chunks, Min(RECV_LIMIT, need));
      var packet, rest := step.0, step.1;
      if packet == [] then (Failure(ClosedMidFrame), rest)
      else Prepend(packet, ReadExactly(rest, need - |packet|))
  }

  /**
   * The payload loop succeeds exactly when the peer sends at least `need`
   * more bytes, and then consumes exactly those bytes and nothing after
   * them; otherwise the peer closed mid-frame.
   */
  lemma {:induction false} ReadExactlyStream(chunks: seq<seq<byte>>, need: nat)
    requires Deliverable(chunks)
    ensures var res := ReadExactly(chunks, need);
      && (res.0.Success? <==> need <= |Stream(chunks)|)
      && (res.0.Success? ==> res.0.value == Stream(chunks)[..need] && Stream(res.1) == Stream(chunks)[need..])
    decreases need
  {
    if need > 0 {
      var step := Take(chunks, Min(RECV_LIMIT, need));
      var packet, rest := step.0, step.1;
      if packet != [] {
        ReadExactlyStream(rest, need - |packet|);
        SplitAfterPrefix(packet, Stream(rest), need);
      }
    }
  }

  /** Slicing `p + t` at `n` when the prefix `p` is no longer than `n`. */
  lemma SplitAfterPrefix(p: seq<byte>, t: seq<byte>, n: nat)
    requires |p| <= n
    ensures n <= |p + t| <==> n - |p| <= |t|
    ensures n - |p| <= |t| ==> (p + t)[..n] == p + t[..n - |p|] && (p + t)[n..] == t[n - |p|..]
  {
  }

  /**
   * `receive_data` up to the unpickling: one `recv(8)` for the header, then
   * the payload. An empty header read is the only way to get MissingLength.
   */
  function ReceiveFrame(chunks: seq<seq<byte>>): (res: Received)
    requires Deliverable(chunks)
    ensures Deliverable(res.1)
    ensures res.0 == Failure(MissingLength) <==> chunks == []
  {
    var step := Take(chunks, HEADER_SIZE);
    var header, rest := step.0, step.1;
    if header == [] then (Failure(MissingLength), rest)
    else ReadExactly(rest, FromBigEndian(header))
  }

  /**
   * When the first delivery holds the whole header, the length is the
   * big-endian value of those 8 bytes and the payload is exactly the next
   * `length` bytes of the stream.
   */
  lemma ReceiveFrameWhole(chunks: seq<seq<byte>>)
    requires Deliverable(chunks) && chunks != [] && |chunks[0]| >= HEADER_SIZE
    ensures var res, length := ReceiveFrame(chunks), FromBigEndian(chunks[0][..HEADER_SIZE]);
      var s := Stream(chunks);
      && (res.0.Success? <==> HEADER_SIZE + length <= |s|)
      && (res.0.Success? ==>
            res.0.value == s[HEADER_SIZE..HEADER_SIZE + length]
            && Stream(res.1) == s[HEADER_SIZE + length..])
  {
    var step := Take(chunks, HEADER_SIZE);
    assert step.0 == chunks[0][..HEADER_SIZE] && Stream(step.1) == Stream(chunks)[HEADER_SIZE..];
    ReadExactlyStream(step.1, FromBigEndian(step.0));
  }

  /**
   * Round trip: a frame built by the sender is received as the original
   * payload, under any chunking of the bytes after the header, and the
   * bytes that follow the frame are left unread.
   */
  lemma {:induction false} FrameRoundTrip(payload: seq<byte>, chunks: seq<seq<byte>>, tail: seq<byte>)
    requires EncodeFrame(payload).Success?
    requires Deliverable(chunks) && chunks != [] && |chunks[0]| >= HEADER_SIZE
    requires Stream(chunks) == EncodeFrame(payload).value + tail
    ensures ReceiveFrame(chunks).0 == Success(payload)
    ensures Stream(ReceiveFrame(chunks).1) == tail
  {
    var frame := EncodeFrame(payload).value;
    var s := Stream(chunks);
    ReceiveFrameWhole(chunks);
    assert s == chunks[0] + Stream(chunks[1..]);
    assert chunks[0][..HEADER_SIZE] == s[..HEADER_SIZE] == frame[..HEADER_SIZE];
    assert s[HEADER_SIZE..HEADER_SIZE + |payload|] == frame[HEADER_SIZE..] == payload;
    assert s[HEADER_SIZE + |payload|..] == tail;
  }

  /** Big-endian value of a concatenation. */
  lemma {:induction false} FromBigEndianAppend(a: seq<byte>, b: seq<byte>)
    ensures FromBigEndian(a + b) == FromBigEndian(a) * Pow256(|b|) + FromBigEndian(b)
    decreases |b|
  {
    if b == [] {
      assert a + b == a;
    } else {
      var init, last := b[..|b| - 1], b[|b| - 1];
      assert (a + b)[..|a + b| - 1] == a + init;
      assert (a + b)[|a + b| - 1] == last;
      FromBigEndianAppend(a, init);
      ShiftByte(FromBigEndian(a), Pow256(|init|), FromBigEndian(init), last);
    }
  }

  lemma ShiftByte(x: nat, p: nat, y: nat, last: nat)
    ensures (x * p + y) * 256 + last == x * (p * 256) + (y * 256 + last)
  {
  }

  /**
   * The receiver assumes `recv(8)` returns the whole header. If the header
   * of a frame whose length is below 2^32 instead arrives as two reads of 4
   * bytes, the first read holds only zero bytes: the receiver takes the
   * length to be 0, returns an empty payload and leaves the rest of the
   * header and the payload in the stream.
   */
  lemma {:induction false} SplitHeaderMisread(payload: seq<byte>, tail: seq<byte>)
    requires 0 < |payload| < Pow256(4)
    ensures EncodeFrame(payload).Success?
    ensures var frame := EncodeFrame(payload).value;
      var chunks := [frame[..4], frame[4..] + tail];
      && Deliverable(chunks)
      && Stream(chunks) == frame + tail
      && ReceiveFrame(chunks).0 == Success([])
      && ReceiveFrame(chunks).1 == [frame[4..] + tail]
  {
    var frame := SmallFrame(payload);
    var chunks := [frame[..4], frame[4..] + tail];
    StreamPair(frame[..4], frame[4..] + tail);
    assert frame[..4] + (frame[4..] + tail) == frame + tail;
    ZeroHeaderRead(chunks);
  }

  lemma StreamPair(a: seq<byte>, b: seq<byte>)
    ensures Stream([a, b]) == a + b
  {
    StreamCons(b, []);
    StreamCons(a, [b]);
  }

  /** A first read that returns a short header of zero bytes decodes to an empty payload. */
  lemma ZeroHeaderRead(chunks: seq<seq<byte>>)
    requires Deliverable(chunks) && chunks != [] && |chunks[0]| <= HEADER_SIZE
    requires FromBigEndian(chunks[0]) == 0
    ensures ReceiveFrame(chunks) == (Success([]), chunks[1..])
  {
    TakeWhole(chunks, HEADER_SIZE);
  }

  /** The frame of a non-empty payload shorter than 2^32 bytes starts with four zero bytes. */
  lemma SmallFrame(payload: seq<byte>) returns (frame: seq<byte>)
    requires 0 < |payload| < Pow256(4)
    ensures EncodeFrame(payload) == Success(frame)
    ensures |frame| > HEADER_SIZE && FromBigEndian(frame[..4]) == 0
  {
    HeaderCapacity();
    assert Pow256(4) == 0x1_0000_0000;
    frame := EncodeFrame(payload).value;
    LeadingZeros(frame[..HEADER_SIZE]);
    assert frame[..4] == frame[..HEADER_SIZE][..4];
  }

  /** An 8-byte header holding a value below 2^32 starts with four zero bytes. */
  lemma LeadingZeros(header: seq<byte>)
    requires |header| == HEADER_SIZE && FromBigEndian(header) < Pow256(4)
    ensures FromBigEndian(header[..4]) == 0
  {
    assert header == header[..4] + header[4..];
    FromBigEndianAppend(header[..4], header[4..]);
    var high := FromBigEndian(header[..4]);
    assert high * Pow256(4) + FromBigEndian(header[4..]) < Pow256(4);
    assert high == 0;
  }

  /** `sendall` of the header, then `sendall` of the payload (server.py). */
  method SendFrame(conn: Connection, payload: seq<byte>) returns (r: Result<(), SendError>)
    modifies conn`sent
    ensures r.Success? <==> Fits(payload)
    ensures conn.sent == old(conn.sent) + FrameBytes(payload)
  {
    match EncodeFrame(payload)
    case Failure(e) =>
      r := Failure(e);
    case Success(frame) =>
      var header := frame[..HEADER_SIZE];
      conn.SendAll(header);
      conn.SendAll(payload);
      assert header + payload == frame;
      r := Success(());
  }

  /** `receive_data` of client2.py, up to the unpickling of the payload. */
  method ReceiveData(conn: Connection) returns (r: Result<seq<byte>, RecvError>)
    requires conn.Valid()
    modifies conn`incoming
    ensures conn.Valid()
    ensures (r, conn.incoming) == ReceiveFrame(old(conn.incoming))
  {
    var lengthBytes := conn.Recv(HEADER_SIZE);
    assert ReceiveFrame(old(conn.incoming)) ==
      if lengthBytes == [] then (Failure(MissingLength), conn.incoming)
      else ReadExactly(conn.incoming, FromBigEndian(lengthBytes));
    if lengthBytes == [] {
      return Failure(MissingLength);
    }
    var dataLength := FromBigEndian(lengthBytes);
    ghost var start := conn.incoming;
    var data := [];
    PrependNothing(ReadExactly(start, dataLength));
    while |data| < dataLength
      invariant conn.Valid()
      invariant |data| <= dataLength
      invariant ReadExactly(start, dataLength) == Prepend(data, ReadExactly(conn.incoming, dataLength - |data|))
      decreases dataLength - |data|
    {
      // Never ask for more than the frame still owes.
      var packet := conn.Recv(Min(RECV_LIMIT, dataLength - |data|));
      if packet == [] {
        assert ReadExactly(start, dataLength) == (Failure(ClosedMidFrame), conn.incoming);
        return Failure(ClosedMidFrame);
      }
      PrependTwice(data, packet, ReadExactly(conn.incoming, dataLength - |data| - |packet|));
      data := data + packet;
    }
    // The size check after the loop can never fail: the loop stops at exactly dataLength bytes.
    assert |data| == dataLength;
    assert ReadExactly(start, dataLength) == (Success(data + []), conn.incoming);
    assert data + [] == data;
    r := Success(data);
  }

  /**
   * `receive_detection_from_client` of server.py, up to the unpickling:
   * `recv(4096)` until the first empty read. The result is everything the
   * peer sent, and the connection is drained.
   */
  method ReceiveUntilClose(conn: Connection) returns (data: seq<byte>)
    requires conn.Valid()
    modifies conn`incoming
    ensures conn.Valid() && conn.incoming == []
    ensures data == Stream(old(conn.incoming))
  {
    data := [];
    while true
      invariant conn.Valid()
      invariant data + Stream(conn.incoming) == Stream(old(conn.incoming))
      decreases |Stream(conn.incoming)|
    {
      var packet := conn.Recv(RECV_LIMIT);
      if packet == [] {
        break;
      }
      data := data + packet;
    }
  }
}

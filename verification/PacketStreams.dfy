// connection_read_cb as it runs: four states, resumed for every chunk that arrives, proved to do what
// the byte-by-byte machine does.
module PacketStreams {
  import opened Bits
  import opened ByteStrings
  import opened VarInts
  import opened Framing
  import opened PacketBuffers

  datatype ParseState = ReadLen | AllocBuf | ReadPayload | ProcessPacket

  class PacketStream {
    var state: ParseState
    var packetSize: nat
    var varintPos: nat
    var remainingBytes: nat
    var packetDataWritePos: nat
    var packetData: array<byte>
    // What was given to process_packet.
    ghost var trace: seq<Packet>

    ghost predicate Valid()
      reads this
    {
      (state == ReadPayload || state == ProcessPacket) ==>
        packetData.Length == packetSize && packetDataWritePos + remainingBytes == packetSize
        && (if state == ProcessPacket then remainingBytes == 0 else remainingBytes > 0 || packetSize == 0)
    }

    // The machine between two chunks.
    ghost function Abstraction(): Machine
      reads this, packetData
      requires Valid()
    {
      Machine(match state
              case ReadLen => Idle(packetSize, varintPos)
              case AllocBuf => Filling(packetSize, [])
              case _ => Filling(packetSize, packetData[..packetDataWritePos]),
        trace)
    }

    // What the rest of a chunk makes of it.
    ghost function Outlook(chunk: Bytes, i: nat): Machine
      reads this, packetData
      requires Valid() && i <= |chunk|
    {
      if state == ProcessPacket then Feed(Process(trace, packetData[..]), chunk, i, |chunk|)
      else Feed(Abstraction(), chunk, i, |chunk|)
    }

    constructor ()
      ensures Valid() && state == ReadLen && Abstraction() == Machine(Idle(0, 0), [])
    {
      state, packetSize, varintPos, remainingBytes, packetDataWritePos := ReadLen, 0, 0, 0, 0;
      packetData := new byte[0];
      trace := [];
    }

    // build_varint
    method BuildVarint(b: byte) returns (done: bool)
      modifies this`packetSize, this`varintPos
      ensures packetSize == AddSegment(old(packetSize), old(varintPos), b)
      ensures old(packetSize) < Pow2(old(varintPos)) ==> packetSize == old(packetSize) + b % 128 * Pow2(old(varintPos))
      ensures done <==> !Continues(b)
      ensures varintPos == if done then old(varintPos) else old(varintPos) + 7
    {
      ghost var size, position := packetSize, varintPos;
      packetSize := Or(packetSize, Shl(And(b, SEGMENT_BITS), varintPos));
      if size < Pow2(position) {
        SegmentAdds(size, position, b);
        ShlMul(b % 128, position);
      }
      if And(b, CONTINUE_BIT) == 0 {
        return true;
      }
      varintPos := varintPos + 7;
      return false;
    }

    // STATE_ALLOC_BUF
    method AllocateBuffer()
      requires Valid() && state == AllocBuf
      modifies this
      ensures Valid() && state == ReadPayload && Abstraction() == old(Abstraction()) && fresh(packetData)
      ensures packetDataWritePos == 0
    {
      packetData := new byte[packetSize];
      remainingBytes := packetSize;
      packetDataWritePos := 0;
      state := ReadPayload;
    }

    // STATE_READ_LEN
    method ReadLength(chunk: Bytes, currentIdx: nat)
      requires Valid() && state == ReadLen && currentIdx < |chunk| && Outlook(chunk, currentIdx).stream != Undefined
      modifies this`packetSize, this`varintPos, this`state
      ensures Valid() && (state == ReadLen || state == AllocBuf)
      ensures Outlook(chunk, currentIdx + 1) == old(Outlook(chunk, currentIdx))
    {
      ReadsByte(Abstraction(), chunk, currentIdx);
      var doneReadingSize := BuildVarint(chunk[currentIdx]);
      if doneReadingSize {
        state := AllocBuf;
      }
    }

    // STATE_READ_PAYLOAD: as many bytes as are wanted and there.
    method CopyPayload(chunk: Bytes, currentIdx: nat) returns (canRead: nat)
      requires Valid() && state == ReadPayload && currentIdx < |chunk|
      modifies this`packetDataWritePos, this`remainingBytes, this`state, packetData
      ensures Valid() && (state == ReadPayload || state == ProcessPacket)
      ensures currentIdx + canRead <= |chunk| && Outlook(chunk, currentIdx + canRead) == old(Outlook(chunk, currentIdx))
      ensures canRead > 0 || state == ProcessPacket
    {
      canRead := if remainingBytes < |chunk| - currentIdx then remainingBytes else |chunk| - currentIdx;
      ghost var m, e := Abstraction(), currentIdx + canRead;
      CopyBlock(chunk, currentIdx, canRead);
      FeedSplit(m, chunk, currentIdx, e, |chunk|);
      if remainingBytes == 0 {
        state := ProcessPacket;
        assert packetData[..packetDataWritePos] == packetData[..];
        if canRead > 0 {
          FillUp(m, chunk, currentIdx, e);
        } else {
          NothingToFill(m, chunk, currentIdx);
        }
      } else {
        FillMany(m, chunk, currentIdx, e);
      }
    }

    // memcpy to where the payload goes on
    method CopyBlock(chunk: Bytes, currentIdx: nat, count: nat)
      requires Valid() && state == ReadPayload && currentIdx + count <= |chunk| && count <= remainingBytes
      modifies this`packetDataWritePos, this`remainingBytes, packetData
      ensures packetDataWritePos + remainingBytes == packetSize == packetData.Length && remainingBytes == old(remainingBytes) - count
      ensures packetData[..packetDataWritePos] == old(packetData[..packetDataWritePos]) + chunk[currentIdx..currentIdx + count]
    {
      ghost var data := packetData[..packetDataWritePos];
      forall k | 0 <= k < count {
        packetData[packetDataWritePos + k] := chunk[currentIdx + k];
      }
      packetDataWritePos := packetDataWritePos + count;
      remainingBytes := remainingBytes - count;
      assert packetData[..packetDataWritePos] == data + chunk[currentIdx..currentIdx + count];
    }

    // STATE_PROCESS_PACKET; handling the packet is to append it to the trace.
    method Dispatch(ghost chunk: Bytes, ghost i: nat) returns (alive: bool)
      requires Valid() && state == ProcessPacket && i <= |chunk|
      modifies this`trace, this`packetSize, this`varintPos, this`state
      ensures Valid() && state != ProcessPacket
      ensures alive <==> Process(old(trace), old(packetData[..])).stream != Aborted
      ensures alive ==> state == ReadLen && Outlook(chunk, i) == old(Outlook(chunk, i))
      ensures trace == Process(old(trace), old(packetData[..])).trace
    {
      var pr := new PacketReader(packetData[..], true);
      var packetId := pr.ReadVarint();
      if packetId.None? {
        state := ReadLen;
        return false;
      }
      trace := trace + [Packet(packetId.value, pr.data[pr.pos..])];
      packetSize := 0;
      varintPos := 0;
      state := ReadLen;
      return true;
    }

    // connection_read_cb with nread == |chunk|: between two calls the stream is what the machine has become,
    // and every packet that the chunk completes has been given to process_packet during the call.
    method ConnectionRead(chunk: Bytes) returns (alive: bool)
      requires Valid() && state != ProcessPacket
      requires Feed(Abstraction(), chunk, 0, |chunk|).stream != Undefined
      modifies this, packetData
      ensures Valid() && state != ProcessPacket
      ensures alive <==> old(Feed(Abstraction(), chunk, 0, |chunk|)).stream != Aborted
      ensures alive ==> Abstraction() == old(Feed(Abstraction(), chunk, 0, |chunk|))
      ensures packetData == old(packetData) || fresh(packetData)
    {
      var currentIdx := 0;
      ghost var goal := Outlook(chunk, 0);
      while currentIdx < |chunk| || state == ProcessPacket
        invariant currentIdx <= |chunk| && Valid() && Outlook(chunk, currentIdx) == goal
        invariant packetData == old(packetData) || fresh(packetData)
        decreases |chunk| - currentIdx, Rank(state)
      {
        match state
        case ReadLen =>
          ReadLength(chunk, currentIdx);
          currentIdx := currentIdx + 1;
        case AllocBuf =>
          AllocateBuffer();
        case ReadPayload =>
          var canRead := CopyPayload(chunk, currentIdx);
          currentIdx := currentIdx + canRead;
        case ProcessPacket =>
          ghost var processed := Process(trace, packetData[..]);
          var ok := Dispatch(chunk, currentIdx);
          if !ok {
            StaysStopped(processed, chunk, currentIdx, |chunk|);
            return false;
          }
      }
      return true;
    }

    // The calls of connection_read_cb for the chunks of a stream, one after the other: the program goes on
    // unless the machine says that an assertion fails.
    method ReadChunks(chunks: seq<Bytes>) returns (alive: bool)
      requires Valid() && state != ProcessPacket
      requires FeedChunks(Abstraction(), chunks, 0).stream != Undefined
      modifies this, packetData
      ensures Valid() && state != ProcessPacket
      ensures alive <==> old(FeedChunks(Abstraction(), chunks, 0)).stream != Aborted
      ensures alive ==> Abstraction() == old(FeedChunks(Abstraction(), chunks, 0))
      ensures packetData == old(packetData) || fresh(packetData)
    {
      ghost var goal := FeedChunks(Abstraction(), chunks, 0);
      var c := 0;
      while c < |chunks|
        invariant 0 <= c <= |chunks| && Valid() && state != ProcessPacket
        invariant FeedChunks(Abstraction(), chunks, c) == goal
        invariant packetData == old(packetData) || fresh(packetData)
        decreases |chunks| - c
      {
        ghost var next := Feed(Abstraction(), chunks[c], 0, |chunks[c]|);
        StoppedChunks(next, chunks, c + 1);
        var ok := ConnectionRead(chunks[c]);
        if !ok {
          return false;
        }
        c := c + 1;
      }
      return true;
    }

    // However the frames of packets are cut into chunks, an idle stream takes them all without a failed
    // assertion, gives exactly their packets to process_packet, in their order, and is idle again.
    method ReadFrames(chunks: seq<Bytes>, ghost ps: seq<Bytes>) returns (alive: bool)
      requires Valid() && state == ReadLen && packetSize == 0 && varintPos == 0
      requires AllDeliverable(ps, 0) && Concat(chunks, 0) == Frames(ps, 0)
      modifies this, packetData
      ensures alive && Valid() && state == ReadLen && packetSize == 0 && varintPos == 0
      ensures trace == old(trace) + Packets(ps, 0)
    {
      DeframingUndoesFraming(trace, ps, chunks);
      alive := ReadChunks(chunks);
      assert Abstraction() == Machine(Idle(0, 0), old(trace) + Packets(ps, 0));
    }
  }

  function Rank(state: ParseState): nat {
    match state
    case AllocBuf => 3
    case ReadPayload => 2
    case ProcessPacket => 1
    case ReadLen => 0
  }

  // A byte of a length, in a stream that C does not leave undefined.
  lemma ReadsByte(m: Machine, chunk: Bytes, i: nat)
    requires i < |chunk| && m.stream.Idle? && Feed(m, chunk, i, |chunk|).stream != Undefined
    ensures m.stream.position < 32 && AddSegment(m.stream.size, m.stream.position, chunk[i]) < VALUE_LIMIT
    ensures Feed(m, chunk, i, |chunk|) == Feed(Step(m, chunk[i]), chunk, i + 1, |chunk|)
  {
    if Step(m, chunk[i]).stream == Undefined {
      StaysStopped(Step(m, chunk[i]), chunk, i + 1, |chunk|);
    }
  }

  // A frame of length zero is given to the handler, whose first read fails.
  lemma NothingToFill(m: Machine, chunk: Bytes, i: nat)
    requires i < |chunk| && m.stream == Filling(0, [])
    ensures Feed(m, chunk, i, |chunk|) == Feed(Process(m.trace, []), chunk, i, |chunk|)
  {
  }

  // A machine that has stopped ignores the chunks that are left.
  lemma {:induction false} StoppedChunks(m: Machine, chunks: seq<Bytes>, c: nat)
    requires c <= |chunks|
    ensures m.stream == Undefined || m.stream == Aborted ==> FeedChunks(m, chunks, c) == m
    decreases |chunks| - c
  {
    if c < |chunks| && (m.stream == Undefined || m.stream == Aborted) {
      StaysStopped(m, chunks[c], 0, |chunks[c]|);
      StoppedChunks(m, chunks, c + 1);
    }
  }
}

// The deframer as a machine that takes one byte at a time, and why it undoes the framing of packets
// under every chunking of the byte stream.
module Framing {
  import opened Bits
  import opened ByteStrings
  import opened VarInts

  // Aborted: an assertion of the program fails. Undefined: the length in front of a packet does not
  // fit an int, or has more than five bytes, so that C leaves its computation undefined.
  datatype Stream = Idle(size: nat, position: nat) | Filling(size: nat, data: Bytes) | Aborted | Undefined

  datatype Packet = Packet(id: int, body: Bytes)

  // The trace has every packet given to process_packet.
  datatype Machine = Machine(stream: Stream, trace: seq<Packet>)

  // STATE_PROCESS_PACKET
  function Process(trace: seq<Packet>, data: Bytes): Machine {
    match ReadVarInt(data, 0, 0, 0)
    case Rejected => Machine(Aborted, trace)
    case Parsed(id, q) => Machine(Idle(0, 0), trace + [Packet(id, data[q..])])
  }

  function Step(m: Machine, b: byte): Machine {
    match m.stream
    case Idle(size, position) =>
      var v := AddSegment(size, position, b);
      if position >= 32 || v >= VALUE_LIMIT then Machine(Undefined, m.trace)
      else if Continues(b) then Machine(Idle(v, position + 7), m.trace)
      else Machine(Filling(v, []), m.trace)
    case Filling(size, data) => Fill(size, data, b, m.trace)
    case _ => m
  }

  function Fill(size: nat, data: Bytes, b: byte, trace: seq<Packet>): Machine {
    if size == 0 then Machine(Aborted, trace)
    else if |data| + 1 < size then Machine(Filling(size, data + [b]), trace)
    else Process(trace, data + [b])
  }

  // The bytes of s from i to e, one after the other.
  function Feed(m: Machine, s: Bytes, i: nat, e: nat): Machine
    requires i <= e <= |s|
    decreases e - i
  {
    if i == e then m else Feed(Step(m, s[i]), s, i + 1, e)
  }

  lemma {:induction false} FeedSplit(m: Machine, s: Bytes, i: nat, k: nat, e: nat)
    requires i <= k <= e <= |s|
    ensures Feed(m, s, i, e) == Feed(Feed(m, s, i, k), s, k, e)
    decreases k - i
  {
    if i < k {
      FeedSplit(Step(m, s[i]), s, i + 1, k, e);
    }
  }

  lemma {:induction false} FeedSame(m: Machine, s: Bytes, i: nat, t: Bytes, j: nat)
    requires At(s, i, t) && j <= |t|
    ensures Feed(m, s, i + j, i + |t|) == Feed(m, t, j, |t|)
    decreases |t| - j
  {
    if j < |t| {
      AtIndex(s, i, t, j);
      FeedSame(Step(m, t[j]), s, i, t, j + 1);
    }
  }

  // Feeding a and then b is feeding them at once.
  lemma ChunksJoin(m: Machine, a: Bytes, b: Bytes)
    ensures Feed(m, a + b, 0, |a + b|) == Feed(Feed(m, a, 0, |a|), b, 0, |b|)
  {
    var s := a + b;
    FeedSplit(m, s, 0, |a|, |s|);
    FeedSame(m, s, 0, a, 0);
    FeedSame(Feed(m, a, 0, |a|), s, |a|, b, 0);
  }

  function FeedChunks(m: Machine, chunks: seq<Bytes>, c: nat): Machine
    requires c <= |chunks|
    decreases |chunks| - c
  {
    if c == |chunks| then m else FeedChunks(Feed(m, chunks[c], 0, |chunks[c]|), chunks, c + 1)
  }

  function Concat(chunks: seq<Bytes>, c: nat): Bytes
    requires c <= |chunks|
    decreases |chunks| - c
  {
    if c == |chunks| then [] else chunks[c] + Concat(chunks, c + 1)
  }

  lemma {:induction false} AnyChunking(m: Machine, chunks: seq<Bytes>, c: nat)
    requires c <= |chunks|
    ensures FeedChunks(m, chunks, c) == Feed(m, Concat(chunks, c), 0, |Concat(chunks, c)|)
    decreases |chunks| - c
  {
    if c < |chunks| {
      ChunksJoin(m, chunks[c], Concat(chunks, c + 1));
      AnyChunking(Feed(m, chunks[c], 0, |chunks[c]|), chunks, c + 1);
    }
  }

  // ---- one frame ----

  // What pb_finalize makes of the contents of a builder.
  function Frame(payload: Bytes): Bytes {
    VarInt(|payload|) + payload
  }

  // A payload starts with the id of its packet.
  predicate Deliverable(payload: Bytes) {
    0 < |payload| < VALUE_LIMIT && ReadVarInt(payload, 0, 0, 0).Parsed?
  }

  function PacketOf(payload: Bytes): Packet
    requires Deliverable(payload)
  {
    var id := ReadVarInt(payload, 0, 0, 0);
    Packet(id.value, payload[id.next..])
  }

  // The bytes of a length from index j on, when the ones before gave the size so far; rest is the value of those.
  lemma {:induction false} FeedLength(m: Machine, s: Bytes, i: nat, piece: Bytes, j: nat, size: nat, rest: nat)
    requires Lengthy(m, piece, j, size, rest) && At(s, i, piece)
    ensures Feed(m, s, i + j, i + |piece|) == Machine(Filling(size, []), m.trace)
    decreases |piece| - j
  {
    var k, p, q, e := j + 1, i + j, i + j + 1, i + |piece|;
    AtIndex(s, i, piece, j);
    assert s[p] == piece[j];
    var n, more := LengthStep(m, piece, j, k, size, rest);
    FeedOne(m, n, s, p, q, e);
    if k < |piece| {
      FeedLength(n, s, i, piece, k, size, more);
    }
  }

  // The size so far and what the bytes of piece from index j on add to it make size.
  predicate Lengthy(m: Machine, piece: Bytes, j: nat, size: nat, rest: nat) {
    && Chained(piece) && |piece| <= MAX_VARINT_LEN && j < |piece| && rest == Value(piece, j)
    && m.stream.Idle? && m.stream.position == 7 * j && m.stream.size < Pow2(m.stream.position)
    && size == m.stream.size + Shl(rest, m.stream.position) < VALUE_LIMIT
  }

  lemma LengthStep(m: Machine, piece: Bytes, j: nat, k: nat, size: nat, rest: nat) returns (n: Machine, more: nat)
    requires Lengthy(m, piece, j, size, rest) && k == j + 1
    ensures n == Step(m, piece[j]) && n.trace == m.trace
    ensures if k < |piece| then Lengthy(n, piece, k, size, more) else n.stream == Filling(size, [])
  {
    more := Value(piece, k);
    ValueStep(piece, j, k, piece[j], more);
    n := LengthByte(m, piece[j], more, size);
  }

  lemma ValueStep(piece: Bytes, j: nat, k: nat, b: byte, rest: nat)
    requires Chained(piece) && j < |piece| && k == j + 1 && b == piece[j] && rest == Value(piece, k)
    ensures Value(piece, j) == b % 128 + 128 * rest
    ensures if k < |piece| then b >= 128 else b < 128 && rest == 0
  {
  }

  lemma FeedOne(m: Machine, n: Machine, s: Bytes, i: nat, j: nat, e: nat)
    requires i < e <= |s| && Step(m, s[i]) == n && j == i + 1
    ensures Feed(m, s, i, e) == Feed(n, s, j, e)
  {
  }

  // One byte of a length, when the bytes after it have the value rest.
  lemma LengthByte(m: Machine, b: byte, rest: nat, size: nat) returns (n: Machine)
    requires m.stream.Idle? && m.stream.position <= 28 && m.stream.size < Pow2(m.stream.position)
    requires size == m.stream.size + Shl(b % 128 + 128 * rest, m.stream.position) < VALUE_LIMIT
    ensures Step(m, b) == n && n.trace == m.trace
    ensures b >= 128 ==> n.stream.Idle? && n.stream.position == m.stream.position + 7
    ensures b >= 128 ==> n.stream.size < Pow2(m.stream.position + 7) && n.stream.size + Shl(rest, m.stream.position + 7) == size
    ensures b < 128 && rest == 0 ==> n.stream == Filling(size, [])
  {
    var value, position := m.stream.size, m.stream.position;
    n := Step(m, b);
    SegmentBits(b);
    SegmentAdds(value, position, b);
    ShlAdd(b % 128, 128 * rest, position);
    ShlSeven(rest, position);
    ShlZero(position + 7);
  }

  // Payload bytes that do not complete the packet are collected.
  lemma {:induction false} FeedPart(trace: seq<Packet>, s: Bytes, i: nat, payload: Bytes, j: nat, k: nat)
    requires At(s, i, payload) && j <= k < |payload|
    ensures Feed(Machine(Filling(|payload|, payload[..j]), trace), s, i + j, i + k)
         == Machine(Filling(|payload|, payload[..k]), trace)
    decreases k - j
  {
    if j < k {
      AtIndex(s, i, payload, j);
      assert payload[..j + 1] == payload[..j] + [payload[j]];
      FeedPart(trace, s, i, payload, j + 1, k);
    }
  }

  // The last byte completes it.
  lemma FeedPayload(trace: seq<Packet>, s: Bytes, i: nat, payload: Bytes)
    requires At(s, i, payload) && payload != []
    ensures Feed(Machine(Filling(|payload|, []), trace), s, i, i + |payload|) == Process(trace, payload)
  {
    var k := |payload| - 1;
    FeedPart(trace, s, i, payload, 0, k);
    FeedSplit(Machine(Filling(|payload|, []), trace), s, i, i + k, i + |payload|);
    AtIndex(s, i, payload, k);
    assert payload[..0] == [] && payload[..k] + [payload[k]] == payload;
  }

  lemma FeedHeader(trace: seq<Packet>, s: Bytes, i: nat, n: nat)
    requires n < VALUE_LIMIT && At(s, i, VarInt(n))
    ensures Feed(Machine(Idle(0, 0), trace), s, i, i + |VarInt(n)|) == Machine(Filling(n, []), trace)
  {
    VarIntValue(n);
    VarIntLengthFive(n);
    FeedLength(Machine(Idle(0, 0), trace), s, i, VarInt(n), 0, n, n);
  }

  // A whole frame delivers its packet, and nothing is delivered before its last byte.
  lemma FeedFrame(trace: seq<Packet>, s: Bytes, i: nat, payload: Bytes)
    requires At(s, i, Frame(payload)) && Deliverable(payload)
    ensures Feed(Machine(Idle(0, 0), trace), s, i, i + |Frame(payload)|) == Machine(Idle(0, 0), trace + [PacketOf(payload)])
  {
    var n := |VarInt(|payload|)|;
    AtSplit(s, i, VarInt(|payload|), payload);
    FeedHeader(trace, s, i, |payload|);
    FeedPayload(trace, s, i + n, payload);
    FeedSplit(Machine(Idle(0, 0), trace), s, i, i + n, i + |Frame(payload)|);
  }

  // ---- any number of frames ----

  predicate AllDeliverable(ps: seq<Bytes>, j: nat)
    requires j <= |ps|
    decreases |ps| - j
  {
    j < |ps| ==> Deliverable(ps[j]) && AllDeliverable(ps, j + 1)
  }

  function Frames(ps: seq<Bytes>, j: nat): Bytes
    requires j <= |ps|
    decreases |ps| - j
  {
    if j == |ps| then [] else Frame(ps[j]) + Frames(ps, j + 1)
  }

  function Packets(ps: seq<Bytes>, j: nat): seq<Packet>
    requires j <= |ps| && AllDeliverable(ps, j)
    decreases |ps| - j
  {
    if j == |ps| then [] else [PacketOf(ps[j])] + Packets(ps, j + 1)
  }

  // The packets whose frames lie wholly in the first k bytes.
  function Complete(ps: seq<Bytes>, j: nat, k: nat): seq<Packet>
    requires j <= |ps| && AllDeliverable(ps, j)
    decreases |ps| - j
  {
    if j == |ps| || k < |Frame(ps[j])| then []
    else [PacketOf(ps[j])] + Complete(ps, j + 1, k - |Frame(ps[j])|)
  }

  lemma {:induction false} TraceGrows(m: Machine, s: Bytes, i: nat, e: nat)
    requires i <= e <= |s|
    ensures m.trace <= Feed(m, s, i, e).trace
    decreases e - i
  {
    if i < e {
      TraceGrows(Step(m, s[i]), s, i + 1, e);
    }
  }

  // A part of a frame delivers nothing.
  lemma FeedPartOfFrame(trace: seq<Packet>, s: Bytes, i: nat, payload: Bytes, k: nat)
    requires i + k <= |s| && k < |Frame(payload)| && Deliverable(payload)
    requires At(s, i, Frame(payload))
    ensures Feed(Machine(Idle(0, 0), trace), s, i, i + k).trace == trace
  {
    var n := |VarInt(|payload|)|;
    var m := Machine(Idle(0, 0), trace);
    AtSplit(s, i, VarInt(|payload|), payload);
    FeedHeader(trace, s, i, |payload|);
    if k <= n {
      FeedSplit(m, s, i, i + k, i + n);
      TraceGrows(m, s, i, i + k);
      TraceGrows(Feed(m, s, i, i + k), s, i + k, i + n);
    } else {
      FeedSplit(m, s, i, i + n, i + k);
      assert payload[..0] == [];
      FeedPart(trace, s, i + n, payload, 0, k - n);
    }
  }

  // After any k bytes exactly the packets have been delivered whose last byte is among them: each is
  // delivered by the byte that completes it.
  lemma {:induction false} Delivered(trace: seq<Packet>, s: Bytes, i: nat, ps: seq<Bytes>, j: nat, k: nat, r: Bytes)
    requires j <= |ps| && AllDeliverable(ps, j) && r == Frames(ps, j) && At(s, i, r) && k <= |r|
    ensures Feed(Machine(Idle(0, 0), trace), s, i, i + k).trace == trace + Complete(ps, j, k)
    ensures k == |r| ==> Feed(Machine(Idle(0, 0), trace), s, i, i + k) == Machine(Idle(0, 0), trace + Packets(ps, j))
    decreases |ps| - j
  {
    if j == |ps| {
      assert trace + [] == trace;
    } else {
      var n := j + 1;
      var frame, rest, packet := Frame(ps[j]), Frames(ps, n), PacketOf(ps[j]);
      AtSplit(s, i, frame, rest);
      if k < |frame| {
        FeedPartOfFrame(trace, s, i, ps[j], k);
        assert trace + [] == trace;
      } else {
        FeedFrame(trace, s, i, ps[j]);
        FeedSplit(Machine(Idle(0, 0), trace), s, i, i + |frame|, i + k);
        Delivered(trace + [packet], s, i + |frame|, ps, n, k - |frame|, rest);
        Joined(trace, packet, Complete(ps, n, k - |frame|));
        Joined(trace, packet, Packets(ps, n));
      }
    }
  }

  lemma Joined(trace: seq<Packet>, packet: Packet, more: seq<Packet>)
    ensures trace + [packet] + more == trace + ([packet] + more)
  {
  }

  // However the framed packets are cut into chunks, exactly they are delivered, in their order.
  lemma DeframingUndoesFraming(trace: seq<Packet>, ps: seq<Bytes>, chunks: seq<Bytes>)
    requires AllDeliverable(ps, 0) && Concat(chunks, 0) == Frames(ps, 0)
    ensures FeedChunks(Machine(Idle(0, 0), trace), chunks, 0) == Machine(Idle(0, 0), trace + Packets(ps, 0))
  {
    var r := Frames(ps, 0);
    AnyChunking(Machine(Idle(0, 0), trace), chunks, 0);
    Delivered(trace, r, 0, ps, 0, |r|, r);
  }

  // A machine that has stopped takes no more bytes.
  lemma {:induction false} StaysStopped(m: Machine, s: Bytes, i: nat, e: nat)
    requires i <= e <= |s| && (m.stream == Undefined || m.stream == Aborted)
    ensures Feed(m, s, i, e) == m
    decreases e - i
  {
    if i < e {
      StaysStopped(m, s, i + 1, e);
    }
  }

  // Payload bytes that are there at once are taken at once.
  lemma {:induction false} FillMany(m: Machine, s: Bytes, i: nat, k: nat)
    requires i <= k <= |s| && m.stream.Filling? && |m.stream.data| + (k - i) < m.stream.size
    ensures Feed(m, s, i, k) == Machine(Filling(m.stream.size, m.stream.data + s[i..k]), m.trace)
    decreases k - i
  {
    if i < k {
      FillMany(Step(m, s[i]), s, i + 1, k);
      assert m.stream.data + [s[i]] + s[i + 1..k] == m.stream.data + s[i..k];
    } else {
      assert m.stream.data + [] == m.stream.data;
    }
  }

  lemma FillUp(m: Machine, s: Bytes, i: nat, k: nat)
    requires i < k <= |s| && m.stream.Filling? && |m.stream.data| + (k - i) == m.stream.size
    ensures Feed(m, s, i, k) == Process(m.trace, m.stream.data + s[i..k])
  {
    FillMany(m, s, i, k - 1);
    FeedSplit(m, s, i, k - 1, k);
    assert m.stream.data + s[i..k - 1] + [s[k - 1]] == m.stream.data + s[i..k];
  }
}

// Packets from the builder of one host to the reader of another: fields, frame, chunks, packets, fields.
module Messages {
  import opened Bits
  import opened ByteStrings
  import opened VarInts
  import opened PacketFields
  import opened Framing
  import opened PacketBuffers
  import opened PacketStreams

  // The id of a packet and its fields.
  datatype Message = Message(id: nat, fields: seq<Field>)

  function Payload(m: Message): Bytes
    requires m.id < VALUE_LIMIT && AllInRange(m.fields, 0)
  {
    VarInt(m.id) + EncodeAll(m.fields, 0)
  }

  predicate Sendable(m: Message) {
    m.id < VALUE_LIMIT && AllInRange(m.fields, 0) && |Payload(m)| < VALUE_LIMIT
  }

  predicate AllSendable(ms: seq<Message>) {
    forall k :: 0 <= k < |ms| ==> Sendable(ms[k])
  }

  function Payloads(ms: seq<Message>): seq<Bytes>
    requires AllSendable(ms)
  {
    seq(|ms|, k requires 0 <= k < |ms| => Payload(ms[k]))
  }

  // The packet that the handler gets for a message.
  function Sent(m: Message): Packet
    requires Sendable(m)
  {
    Packet(m.id, EncodeAll(m.fields, 0))
  }

  lemma PayloadDelivers(m: Message)
    requires Sendable(m)
    ensures Deliverable(Payload(m)) && PacketOf(Payload(m)) == Sent(m)
  {
    var payload, id := Payload(m), VarInt(m.id);
    assert At(payload, 0, id);
    ReadsVarInt(payload, 0, m.id);
    assert payload[|id|..] == EncodeAll(m.fields, 0);
  }

  // The packets of the messages from index j on.
  function SentAll(ms: seq<Message>, j: nat): seq<Packet>
    requires AllSendable(ms) && j <= |ms|
    decreases |ms| - j
  {
    if j == |ms| then [] else [Sent(ms[j])] + SentAll(ms, j + 1)
  }

  lemma {:induction false} PayloadsDeliver(ms: seq<Message>, j: nat)
    requires AllSendable(ms) && j <= |ms|
    ensures AllDeliverable(Payloads(ms), j) && Packets(Payloads(ms), j) == SentAll(ms, j)
    decreases |ms| - j
  {
    if j < |ms| {
      PayloadDelivers(ms[j]);
      PayloadsDeliver(ms, j + 1);
    }
  }

  // The fields are in the body of the packet, all of it, as they are read back: as they were sent exactly if every
  // position fits its bits.
  lemma FieldsOfSent(m: Message, kinds: seq<Kind>)
    requires Sendable(m) && AreKinds(kinds, m.fields, 0)
    ensures var body := Sent(m).body;
      && DecodeAll(kinds, 0, body, 0) == Parsed(ReadBackAll(m.fields, 0), |body|)
      && (DecodeAll(kinds, 0, body, 0) == Parsed(m.fields, |body|) <==> AllPackable(m.fields, 0))
  {
    FieldsRoundTrip(m.fields, kinds, []);
    assert EncodeAll(m.fields, 0) + [] == EncodeAll(m.fields, 0);
  }

  // The sending host: a packet is built from its id and its fields and framed.
  method Send(pb: PacketBuilder, m: Message) returns (packet: array<byte>)
    requires pb.Valid() && Sendable(m)
    modifies pb, pb.bytes
    ensures pb.Valid() && (pb.bytes == old(pb.bytes) || fresh(pb.bytes))
    ensures fresh(packet) && packet[..] == Frame(Payload(m))
  {
    pb.Reset();
    pb.WriteVarInt(m.id);
    pb.WriteAll(m.fields);
    assert [] + VarInt(m.id) == VarInt(m.id);
    packet := pb.Finalize();
  }

  // All the frames one after the other, as they leave the host.
  method SendAll(pb: PacketBuilder, ms: seq<Message>) returns (wire: Bytes)
    requires pb.Valid() && AllSendable(ms)
    modifies pb, pb.bytes
    ensures pb.Valid() && wire == Frames(Payloads(ms), 0)
  {
    wire := [];
    var j := 0;
    while j < |ms|
      invariant 0 <= j <= |ms| && pb.Valid() && (pb.bytes == old(pb.bytes) || fresh(pb.bytes))
      invariant wire + Frames(Payloads(ms), j) == Frames(Payloads(ms), 0)
    {
      Regroup(wire, Frame(Payload(ms[j])), Frames(Payloads(ms), j + 1));
      var packet := Send(pb, ms[j]);
      wire := wire + packet[..];
      j := j + 1;
    }
    assert wire + [] == wire;
  }

  // The receiving host: the handler of a packet reads its fields, on a host of either kind.
  method Receive(ghost m: Message, body: Bytes, kinds: seq<Kind>, little: bool) returns (r: Option<seq<Field>>)
    requires Sendable(m) && AreKinds(kinds, m.fields, 0) && body == Sent(m).body
    ensures r == Some(ReadBackAll(m.fields, 0))
    ensures r == Some(m.fields) <==> AllPackable(m.fields, 0)
  {
    FieldsOfSent(m, kinds);
    var pr := new PacketReader(body, little);
    r := pr.ReadAll(kinds);
  }

  // Both hosts: however the bytes are cut on their way, the handler gets the packets of the messages, in their order.
  method Exchange(pb: PacketBuilder, stream: PacketStream, ms: seq<Message>, cut: Bytes -> seq<Bytes>) returns (alive: bool)
    requires pb.Valid() && AllSendable(ms) && forall s: Bytes :: Concat(cut(s), 0) == s
    requires stream.Valid() && stream.state == ReadLen && stream.packetSize == 0 && stream.varintPos == 0
    requires pb.bytes != stream.packetData
    modifies pb, pb.bytes, stream, stream.packetData
    ensures alive && stream.Valid() && stream.state == ReadLen && stream.packetSize == 0 && stream.varintPos == 0
    ensures stream.trace == old(stream.trace) + SentAll(ms, 0)
  {
    var wire := SendAll(pb, ms);
    PayloadsDeliver(ms, 0);
    alive := stream.ReadFrames(cut(wire), Payloads(ms));
  }
}

/** Framed packets: building one into a buffer, and reading it back. */
module Rpc {
  import opened Wrappers
  import opened Fragments
  import opened Buffers
  import opened BufferWriters
  import opened Codecs
  import opened Schemas
  import opened SchemaLocality
  import opened PacketWriters

  datatype Packet = NewPacket(opcode: int, value: Value)

  /** The packet types by opcode. */
  type Protocol = map<int, Type>

  predicate IsProtocol(p: Protocol) {
    forall op :: op in p ==> p[op].TMessage? && WellFormedFields(Mode.Packet, p[op])
  }

  // ---------------------------------------------------------------- frames

  /** A packet of the protocol whose C++ object exists. */
  predicate IsPacket(p: Protocol, k: Packet) {
    IsProtocol(p) && k.opcode in p && Typed(p[k.opcode], k.value)
  }

  function Payload(p: Protocol, k: Packet): seq<byte>
    requires IsPacket(p, k)
  {
    EncodeFields(Mode.Packet, p[k.opcode], k.value, 0)
  }

  function FrameSize(p: Protocol, k: Packet): nat
    requires IsPacket(p, k)
  {
    4 + 2 + |Payload(p, k)|
  }

  /** ToBuffer: the length of the whole frame, the opcode and the fields. */
  function Frame(p: Protocol, k: Packet): (f: seq<byte>)
    requires IsPacket(p, k)
    ensures |f| == FrameSize(p, k)
  {
    EncodeInt(4, Wrap(4, FrameSize(p, k))) + EncodeInt(2, Wrap(2, k.opcode)) + Payload(p, k)
  }

  /** Its opcode, its length and its fields fit what the wire has for them. */
  ghost predicate Sendable(p: Protocol, k: Packet) {
    && IsPacket(p, k) && InRange(2, k.opcode) && InRange(4, FrameSize(p, k))
    && FieldsEncodable(Mode.Packet, p[k.opcode], k.value, 0)
  }

  /** CreateFrom: no packet for an opcode that the protocol does not have. */
  function CreateFrom(p: Protocol, bytes: seq<byte>): Read<Option<Packet>>
    requires IsProtocol(p)
  {
    match TakeInt(2, bytes)
    case Throws => Throws
    case Ok(op, rest) =>
      if op !in p then Ok(None, rest)
      else
        match DecodeFields(Mode.Packet, p[op], [], rest)
        case Throws => Throws
        case Ok(v, rest') => Ok(Some(NewPacket(op, v)), rest')
  }

  /** The size a frame says it has. */
  lemma FrameStarts(p: Protocol, k: Packet, rest: seq<byte>)
    requires Sendable(p, k)
    ensures TakeInt(4, Frame(p, k) + rest) == Ok(FrameSize(p, k), EncodeInt(2, k.opcode) + Payload(p, k) + rest)
  {
    hide EncodeInt;
    hide TakeInt;
    hide FieldsEncodable;
    var n := Wrap(4, FrameSize(p, k));
    var body := EncodeInt(2, Wrap(2, k.opcode)) + Payload(p, k) + rest;
    hide Wrap;
    assert Frame(p, k) + rest == EncodeInt(4, n) + body;
    IntSurvives(4, n, body);
    WrapTwice(4, FrameSize(p, k));
    WrapTwice(2, k.opcode);
  }

  lemma WrapTwice(w: nat, x: int)
    requires w > 0 && InRange(w, x)
    ensures Wrap(w, x) == x && Wrap(w, Wrap(w, x)) == x
  {}

  /** What ToBuffer wrote, CreateFrom reads back, up to the end of the frame. */
  lemma FrameRoundTrip(p: Protocol, k: Packet, rest: seq<byte>)
    requires Sendable(p, k)
    ensures CreateFrom(p, EncodeInt(2, k.opcode) + Payload(p, k) + rest) == Ok(Some(k), rest)
  {
    var t := p[k.opcode];
    var body := Payload(p, k) + rest;
    assert EncodeInt(2, k.opcode) + Payload(p, k) + rest == EncodeInt(2, k.opcode) + body;
    IntSurvives(2, k.opcode, body);
    WrapTwice(2, k.opcode);
    FieldsRoundTrip(Mode.Packet, t, k.value, 0, rest);
    assert k.value.values[..0] == [];
    hide TakeInt;
    hide EncodeInt;
    hide DecodeFields;
    hide FieldsEncodable;
  }

  /** An opcode without a packet type is read and nothing else. */
  lemma UnknownOpcode(p: Protocol, op: int, rest: seq<byte>)
    requires IsProtocol(p) && InRange(2, op) && op !in p
    ensures CreateFrom(p, EncodeInt(2, op) + rest) == Ok(None, rest)
  {
    IntSurvives(2, op, rest);
  }

  /** A packet of which the end has not come in yet makes CreateFrom throw. */
  lemma CutShortThrows(p: Protocol, k: Packet, cut: seq<byte>)
    requires Sendable(p, k) && cut < EncodeInt(2, k.opcode) + Payload(p, k)
    ensures CreateFrom(p, cut).Throws?
  {
    var op := EncodeInt(2, k.opcode);
    if |cut| >= 2 {
      var tail := cut[2..];
      assert op + Payload(p, k) == cut + (op + Payload(p, k))[|cut|..];
      assert cut == op + tail && tail < Payload(p, k);
      IntSurvives(2, k.opcode, tail);
      CutShort(Mode.Packet, p[k.opcode], k.value, tail);
    }
    hide EncodeInt;
    hide DecodeFields;
    hide FieldsEncodable;
  }

  // ---------------------------------------------------------------- ToBuffer

  method WriteAll(adapter: BufferStreamAdapter, b: Buffer, bytes: seq<byte>)
    requires adapter.buffer == b && adapter.Valid() && |adapter.written| + |bytes| <= b.size
    modifies adapter, b, b.mem
    ensures adapter.Valid() && adapter.written == old(adapter.written) + bytes
    ensures b.size == old(b.size) && b.fragments == old(b.fragments) && b.mem.heap.frags == old(b.mem.heap.frags)
    ensures OthersRead(old(b.mem.heap), b.mem.heap, old(b.fragments))
  {
    hide *;
    ghost var w, h0, fs := adapter.written, b.mem.heap, b.fragments;
    Capacity(adapter);
    OthersSelf(h0, fs);
    for i := 0 to |bytes|
      invariant adapter.Valid() && adapter.written == w + bytes[..i]
      invariant b.size == old(b.size) == |b.Contents()| && b.fragments == fs && b.mem.heap.frags == h0.frags
      invariant OthersRead(h0, b.mem.heap, fs)
    {
      ghost var h := b.mem.heap;
      adapter.PushBack(bytes[i]);
      Capacity(adapter);
      OthersOn(h0, h, b.mem.heap, fs);
    }
    assert bytes[..|bytes|] == bytes;
  }

  /** The frame fills exactly the one fragment allocated for it; all older fragments are there and read the same. */
  method ToBuffer(m: Memory, p: Protocol, k: Packet) returns (buffer: Buffer)
    requires Fragments.Valid(m.heap) && IsPacket(p, k)
    modifies m
    ensures fresh(buffer) && buffer.mem == m && buffer.Valid() && buffer.Contents() == Frame(p, k)
    ensures (forall f :: f in buffer.fragments ==> f !in old(m.heap.frags)) && OthersRead(old(m.heap), m.heap, [])
  {
    hide *;
    PacketParts(p, k);
    ghost var h := m.heap;
    var packetWriter := new PacketWriter(m);
    packetWriter.WriteFields(p[k.opcode], k.value);
    ghost var h1 := m.heap;
    var payload := packetWriter.container;
    var packetSize := 4 + 2 + |payload|;
    buffer := new Buffer(m);
    var raw := Uninitialized(packetSize);
    FreshRope(m.heap, raw);
    var f := m.Create(raw);
    Unused(buffer);
    buffer.Add(f);
    assert buffer.fragments == [f];
    ghost var h2 := m.heap;
    var bufferWriter := new BufferStreamAdapter(buffer);
    WriteAll(bufferWriter, buffer, EncodeInt(4, Wrap(4, packetSize)));
    OthersSelf(h2, [f]);
    ghost var h3 := m.heap;
    WriteAll(bufferWriter, buffer, EncodeInt(2, Wrap(2, k.opcode)));
    OthersOn(h2, h3, m.heap, [f]);
    h3 := m.heap;
    WriteAll(bufferWriter, buffer, payload);
    OthersOn(h2, h3, m.heap, [f]);
    Capacity(bufferWriter);
    FrameIs(p, k, payload);
    OneMore(h, h1, h2, m.heap, f);
  }

  /** Only the new fragment was written to. */
  lemma OneMore(h: Heap, h1: Heap, h2: Heap, h3: Heap, f: int)
    requires OthersRead(h, h1, []) && OthersRead(h1, h2, []) && OthersRead(h2, h3, [f]) && f !in h1.frags
    ensures OthersRead(h, h3, []) && f !in h.frags
  {}

  lemma FrameIs(p: Protocol, k: Packet, payload: seq<byte>)
    requires IsPacket(p, k) && payload == EncodeFields(Mode.Packet, p[k.opcode], k.value, 0)
    ensures Frame(p, k) == [] + EncodeInt(4, Wrap(4, 4 + 2 + |payload|)) + EncodeInt(2, Wrap(2, k.opcode)) + payload
  {}

  lemma PacketParts(p: Protocol, k: Packet)
    requires IsPacket(p, k)
    ensures k.opcode in p && p[k.opcode].TMessage? && Typed(p[k.opcode], k.value)
    ensures WellFormedFields(Mode.Packet, p[k.opcode])
  {}
}

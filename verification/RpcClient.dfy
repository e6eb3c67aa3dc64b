/** The receive loop of the RPC client: bytes arrive in pieces of any size, packets come out. */
module RpcClients {
  import opened Wrappers
  import opened Fragments
  import opened Buffers
  import opened Codecs
  import opened Schemas
  import opened StreamIO
  import opened Rpc
  import opened RpcBuffers

  // ---------------------------------------------------------------- what a run of the inner loop does

  datatype Cut = Cut(packets: seq<Packet>, rest: seq<byte>, failed: bool)

  /** What is in front: less than its size field says, a frame that does not read as it says, or a packet. */
  datatype Front = Incomplete(size: int) | Broken | Complete(packet: Packet, size: int)

  function FrontOf(p: Protocol, bytes: seq<byte>): (front: Front)
    requires IsProtocol(p) && |bytes| >= 4
    ensures front.Incomplete? ==> |bytes| < front.size == DecodeInt(bytes[..4])
    ensures front.Complete? ==> 0 < front.size <= |bytes|
  {
    if |bytes| < DecodeInt(bytes[..4]) then Incomplete(DecodeInt(bytes[..4]))
    else ReadAs(CreateFrom(p, bytes[4..]), DecodeInt(bytes[..4]), |bytes|)
  }

  /** What CreateFrom answered, for a frame of `size` in front of `total` bytes. */
  function ReadAs(read: Read<Option<Packet>>, size: int, total: nat): Front {
    match read
    case Throws => Broken
    case Ok(None, _) => Broken
    case Ok(Some(k), rest) => if total - |rest| != size || size <= 0 then Broken else Complete(k, size)
  }

  /** Packets are cut off the front until too few bytes are left, or until one does not read as its frame says. */
  function CutPackets(p: Protocol, bytes: seq<byte>): Cut
    requires IsProtocol(p)
    decreases |bytes|
  {
    if |bytes| < 4 then Cut([], bytes, false)
    else
      match FrontOf(p, bytes)
      case Incomplete(_) => Cut([], bytes, false)
      case Broken => Cut([], bytes, true)
      case Complete(k, size) =>
        var more := CutPackets(p, bytes[size..]);
        Cut([k] + more.packets, more.rest, more.failed)
  }

  /** The frames of the packets, one after the other. */
  ghost function Stream(p: Protocol, ks: seq<Packet>): seq<byte>
    requires AllSendable(p, ks)
  {
    if ks == [] then [] else Frame(p, ks[0]) + Stream(p, ks[1..])
  }

  ghost predicate AllSendable(p: Protocol, ks: seq<Packet>) {
    forall i :: 0 <= i < |ks| ==> Sendable(p, ks[i])
  }

  lemma SendableParts(p: Protocol, a: seq<Packet>, b: seq<Packet>)
    requires AllSendable(p, a + b)
    ensures AllSendable(p, a) && AllSendable(p, b)
  {
    hide Sendable;
    assert forall i :: 0 <= i < |a| ==> (a + b)[i] == a[i];
    assert forall i :: 0 <= i < |b| ==> (a + b)[|a| + i] == b[i];
  }

  lemma SendableJoined(p: Protocol, a: seq<Packet>, b: seq<Packet>)
    requires AllSendable(p, a) && AllSendable(p, b)
    ensures AllSendable(p, a + b)
  {
    hide Sendable;
  }

  lemma SendableHead(p: Protocol, ks: seq<Packet>)
    requires AllSendable(p, ks) && ks != []
    ensures Sendable(p, ks[0]) && IsPacket(p, ks[0]) && AllSendable(p, ks[1..])
  {
    hide FieldsEncodable;
    hide IsPacket;
  }

  /** `bytes` are the frames of `now` and less than the first frame of what comes later. */
  ghost predicate CaughtUp(p: Protocol, now: seq<Packet>, later: seq<Packet>, bytes: seq<byte>, rest: seq<byte>)
    requires AllSendable(p, now) && AllSendable(p, later)
  {
    Stream(p, now) + rest == bytes && if later == [] then rest == [] else |rest| < |Frame(p, later[0])|
  }

  lemma CutEmpty(p: Protocol, bytes: seq<byte>)
    requires IsProtocol(p)
    ensures |bytes| < 4 ==> CutPackets(p, bytes) == Cut([], bytes, false)
    ensures |bytes| >= 4 && |bytes| < DecodeInt(bytes[..4]) ==> CutPackets(p, bytes) == Cut([], bytes, false)
  {}

  /** A complete frame in front is cut off as its packet. */
  lemma CutOne(p: Protocol, k: Packet, rest: seq<byte>)
    requires Sendable(p, k)
    ensures var more := CutPackets(p, rest);
            CutPackets(p, Frame(p, k) + rest) == Cut([k] + more.packets, more.rest, more.failed)
  {
    hide FieldsEncodable;
    FrameStarts(p, k, rest);
    FrameRoundTrip(p, k, rest);
    hide Sendable;
    hide Frame;
    hide CreateFrom;
    hide DecodeInt;
    var bytes := Frame(p, k) + rest;
    assert bytes[|Frame(p, k)|..] == rest;
  }

  lemma CutShort(p: Protocol, k: Packet, bytes: seq<byte>)
    requires Sendable(p, k) && bytes <= Frame(p, k) && |bytes| < |Frame(p, k)|
    ensures CutPackets(p, bytes) == Cut([], bytes, false)
  {
    hide FieldsEncodable;
    FrameStarts(p, k, []);
    hide Frame;
    hide CreateFrom;
    hide DecodeInt;
    assert Frame(p, k) + [] == Frame(p, k);
    if |bytes| >= 4 {
      assert bytes[..4] == Frame(p, k)[..4];
    }
    CutEmpty(p, bytes);
  }

  lemma {:induction false} StreamConcat(p: Protocol, a: seq<Packet>, b: seq<Packet>)
    requires AllSendable(p, a) && AllSendable(p, b) && AllSendable(p, a + b)
    ensures Stream(p, a + b) == Stream(p, a) + Stream(p, b)
  {
    hide Sendable;
    hide Frame;
    if a == [] {
      assert a + b == b;
    } else {
      assert (a + b)[1..] == a[1..] + b;
      StreamConcat(p, a[1..], b);
    }
  }

  lemma StreamCons(p: Protocol, k: Packet, ks: seq<Packet>)
    requires AllSendable(p, [k] + ks) && AllSendable(p, ks) && IsPacket(p, k)
    ensures Stream(p, [k] + ks) == Frame(p, k) + Stream(p, ks)
  {
    hide Sendable;
    hide Frame;
    assert ([k] + ks)[1..] == ks;
  }

  /** Any prefix of a stream of frames is cut into the packets it holds completely. */
  lemma {:induction false} CutStream(p: Protocol, ks: seq<Packet>, bytes: seq<byte>)
    returns (now: seq<Packet>, later: seq<Packet>)
    requires IsProtocol(p) && AllSendable(p, ks) && bytes <= Stream(p, ks)
    ensures now + later == ks && !CutPackets(p, bytes).failed && CutPackets(p, bytes).packets == now
    ensures AllSendable(p, now) && AllSendable(p, later) && CaughtUp(p, now, later, bytes, CutPackets(p, bytes).rest)
    decreases |ks|
  {
    hide Sendable;
    hide Frame;
    hide CutPackets;
    hide IsPacket;
    now, later := [], ks;
    if ks == [] {
      CutEmpty(p, bytes);
      return;
    }
    SendableHead(p, ks);
    var k, f := ks[0], Frame(p, ks[0]);
    if |bytes| < |f| {
      assert bytes <= f;
      CutShort(p, k, bytes);
      return;
    }
    var rest := bytes[|f|..];
    assert bytes == f + rest;
    now, later := CutStream(p, ks[1..], rest);
    CutOne(p, k, rest);
    CaughtUpNext(p, k, now, later, rest, CutPackets(p, rest).rest, ks);
    now := [k] + now;
  }

  lemma CaughtUpNext(p: Protocol, k: Packet, now: seq<Packet>, later: seq<Packet>, bytes: seq<byte>, rest: seq<byte>,
                     ks: seq<Packet>)
    requires AllSendable(p, now) && AllSendable(p, later) && CaughtUp(p, now, later, bytes, rest)
    requires AllSendable(p, ks) && ks != [] && ks[0] == k && ks[1..] == now + later && IsPacket(p, k)
    ensures [k] + now + later == ks && AllSendable(p, [k] + now)
            && CaughtUp(p, [k] + now, later, Frame(p, k) + bytes, rest)
  {
    hide Sendable;
    hide Frame;
    hide IsPacket;
    assert ks == ([k] + now) + later;
    SendableParts(p, [k] + now, later);
    StreamCons(p, k, now);
    hide Stream;
    assert Frame(p, k) + (Stream(p, now) + rest) == (Frame(p, k) + Stream(p, now)) + rest;
  }

  // ---------------------------------------------------------------- Run

  lemma PrefixAfter<T>(x: seq<T>, y: seq<T>, z: seq<T>)
    requires x + y <= x + z
    ensures y <= z
  {
    assert forall i :: 0 <= i < |y| ==> y[i] == (x + y)[|x| + i] == (x + z)[|x| + i];
  }

  /** What has not been dispatched yet is the front of the frames that are left. */
  lemma Remaining(p: Protocol, a: seq<Packet>, b: seq<Packet>, received: seq<byte>, chunk: seq<byte>)
    requires AllSendable(p, a) && AllSendable(p, b) && AllSendable(p, a + b)
    requires Stream(p, a) + received + chunk <= Stream(p, a + b)
    ensures received + chunk <= Stream(p, b)
  {
    hide *;
    StreamConcat(p, a, b);
    JoinedPrefix(Stream(p, a), received, chunk, Stream(p, b));
  }

  lemma JoinedPrefix<T>(x: seq<T>, y: seq<T>, z: seq<T>, w: seq<T>)
    requires x + y + z <= x + w
    ensures y + z <= w
  {
    assert x + y + z == x + (y + z);
    PrefixAfter(x, y + z, w);
  }

  lemma CaughtUpLater(p: Protocol, done: seq<Packet>, received: seq<byte>, now: seq<Packet>, later: seq<Packet>,
                      chunk: seq<byte>, rest: seq<byte>)
    requires AllSendable(p, done) && AllSendable(p, now) && AllSendable(p, later)
             && CaughtUp(p, now, later, received + chunk, rest)
    ensures AllSendable(p, done + now) && CaughtUp(p, done + now, later, Stream(p, done) + received + chunk, rest)
  {
    hide Sendable;
    hide Frame;
    hide IsPacket;
    SendableJoined(p, done, now);
    StreamConcat(p, done, now);
    hide Stream;
    Regrouped(Stream(p, done), Stream(p, now), rest, received, chunk);
  }

  lemma Regrouped<T>(x: seq<T>, y: seq<T>, rest: seq<T>, a: seq<T>, b: seq<T>)
    requires y + rest == a + b
    ensures (x + y) + rest == x + a + b
  {
    assert (x + y) + rest == x + (y + rest);
    assert x + a + b == x + (a + b);
  }

  lemma Associative<T>(x: seq<T>, y: seq<T>, z: seq<T>)
    ensures (x + y) + z == x + (y + z)
  {}

  /** A chunk takes the client from one state in step with the stream to the next. */
  lemma NextState(p: Protocol, done: seq<Packet>, todo: seq<Packet>, received: seq<byte>, input: seq<byte>,
                  chunk: seq<byte>)
    returns (now: seq<Packet>, later: seq<Packet>)
    requires IsProtocol(p) && AllSendable(p, done) && AllSendable(p, todo) && AllSendable(p, done + todo)
    requires CaughtUp(p, done, todo, input, received) && input + chunk <= Stream(p, done + todo)
    ensures CutPackets(p, received + chunk).packets == now && !CutPackets(p, received + chunk).failed
    ensures (done + now) + later == done + todo && AllSendable(p, done + now) && AllSendable(p, later)
    ensures CaughtUp(p, done + now, later, input + chunk, CutPackets(p, received + chunk).rest)
  {
    InputIs(p, done, todo, input, received);
    hide *;
    Remaining(p, done, todo, received, chunk);
    now, later := CutStream(p, todo, received + chunk);
    CaughtUpLater(p, done, received, now, later, chunk, CutPackets(p, received + chunk).rest);
    Associative(done, now, later);
  }

  lemma InputIs(p: Protocol, done: seq<Packet>, todo: seq<Packet>, input: seq<byte>, received: seq<byte>)
    requires AllSendable(p, done) && AllSendable(p, todo) && CaughtUp(p, done, todo, input, received)
    ensures input == Stream(p, done) + received
  {}

  /** One turn of the loop. */
  lemma CutTurn(p: Protocol, bytes: seq<byte>, handled: seq<Packet>)
    requires IsProtocol(p) && |bytes| >= 4
    ensures FrontOf(p, bytes).Incomplete? ==> CutPackets(p, bytes) == Cut([], bytes, false)
    ensures FrontOf(p, bytes).Broken? ==> CutPackets(p, bytes) == Cut([], bytes, true)
    ensures FrontOf(p, bytes).Complete? ==>
              var front, cut := FrontOf(p, bytes), CutPackets(p, bytes);
              var more := CutPackets(p, bytes[front.size..]);
              && cut.rest == more.rest && cut.failed == more.failed
              && handled + [front.packet] + more.packets == handled + cut.packets
  {
    hide FrontOf;
    match FrontOf(p, bytes)
    case Complete(k, size) => Associative(handled, [k], CutPackets(p, bytes[size..]).packets);
    case _ =>
  }

  /** A packet under a size that is not its own: the client waits for as many bytes as that says, and then fails. */
  lemma WrongSize(p: Protocol, k: Packet, n: int, rest: seq<byte>)
    requires Sendable(p, k) && InRange(4, n) && n != FrameSize(p, k)
    ensures var bytes := EncodeInt(4, n) + (EncodeInt(2, k.opcode) + Payload(p, k) + rest);
            CutPackets(p, bytes) == Cut([], bytes, n <= |bytes|)
  {
    hide FieldsEncodable;
    hide EncodeInt;
    hide DecodeInt;
    hide CreateFrom;
    var body := EncodeInt(2, k.opcode) + Payload(p, k) + rest;
    SizeRead(n, body);
    FrameRoundTrip(p, k, rest);
    hide IsPacket;
  }

  /** A frame of a packet type that the protocol does not have. */
  lemma UnknownPacket(p: Protocol, op: int, n: int, rest: seq<byte>)
    requires IsProtocol(p) && InRange(2, op) && op !in p && InRange(4, n)
    ensures var bytes := EncodeInt(4, n) + (EncodeInt(2, op) + rest);
            CutPackets(p, bytes) == Cut([], bytes, n <= |bytes|)
  {
    hide EncodeInt;
    hide DecodeInt;
    hide CreateFrom;
    SizeRead(n, EncodeInt(2, op) + rest);
    UnknownOpcode(p, op, rest);
  }

  lemma SizeRead(n: int, body: seq<byte>)
    requires InRange(4, n)
    ensures var bytes := EncodeInt(4, n) + body;
            |bytes| >= 4 && DecodeInt(bytes[..4]) == n && bytes[4..] == body
  {
    IntRoundTrip(4, n);
  }

  class RpcClient {
    const protocol: Protocol
    /** receiveBuffer and receivedBuffer */
    const buffers: ReceiveBuffers
    /** The packets dispatched by opcode. */
    var handled: seq<Packet>
    /** Run has ended with an exception, without a packet or with an assertion. */
    var failed: bool
    ghost var input: seq<byte>
    /** The packets still to come. */
    ghost var todo: seq<Packet>

    constructor (p: Protocol, m: Memory)
      requires IsProtocol(p) && Fragments.Valid(m.heap)
      ensures protocol == p && buffers.mem == m && fresh(buffers) && Usable() && Idle()
      ensures fresh(buffers.receiveBuffer) && fresh(buffers.receivedBuffer)
    {
      protocol, handled, failed, input, todo := p, [], false, [], [];
      buffers := new ReceiveBuffers(m);
    }

    ghost predicate Usable()
      reads this, buffers.Repr()
    {
      IsProtocol(protocol) && buffers.Valid() && !failed
    }

    /** Nothing has come in. */
    ghost predicate Idle()
      reads this, buffers.Repr()
    {
      input == [] && handled == [] && buffers.Received() == []
    }

    /** Everything that came in is in the dispatched packets, the first of `ks`, and in the front of the next one. */
    ghost predicate Follows(ks: seq<Packet>)
      reads this, buffers.Repr()
    {
      && Usable() && handled + todo == ks && AllSendable(protocol, handled) && AllSendable(protocol, todo)
      && CaughtUp(protocol, handled, todo, input, buffers.Received())
    }

    /** Before each ReceiveAsync. */
    method MakeRoom()
      requires buffers.Valid()
      modifies buffers.Repr()
      ensures buffers.Valid() && buffers.Received() == old(buffers.Received()) && buffers.Free() >= 4
      ensures buffers.Free() == old(buffers.Free()) + if old(buffers.Free()) < 4 then 4096 else 0
    {
      ReceivedSize(buffers);
      if buffers.receiveBuffer.size < 4 {
        buffers.Expand(4096);
      }
    }

    /** CreateFrom: None where Deserialize throws. */
    method Create(reader: StreamReader) returns (packet: Option<Option<Packet>>)
      requires IsProtocol(protocol) && reader.Valid()
      modifies reader
      ensures reader.Valid() && HasRead(CreateFrom(protocol, old(reader.Rest())), packet, reader.Rest())
    {
      var opcode := reader.ReadInt(2);
      if opcode.None? {
        return None;
      }
      if opcode.value !in protocol {
        return Some(None);
      }
      var item := DeserializeFields(reader, Mode.Packet, protocol[opcode.value]);
      if item.None? {
        return None;
      }
      return Some(Some(NewPacket(opcode.value, item.value)));
    }

    /** Reads the frame in front. */
    method ReadFront(bytes: seq<byte>) returns (front: Front)
      requires IsProtocol(protocol) && |bytes| >= 4
      ensures front == FrontOf(protocol, bytes)
    {
      hide DecodeInt;
      hide CreateFrom;
      hide IsProtocol;
      var reader, packetSize := Peek(bytes);
      if |bytes| < packetSize {
        return Incomplete(packetSize);
      }
      var packet := Create(reader);
      Consumed(reader);
      if packet.None? || packet.value.None? || reader.readSize != packetSize || packetSize <= 0 {
        return Broken;
      }
      return Complete(packet.value.value, packetSize);
    }

    /** One turn of the inner loop; false where the code breaks out of it. */
    method Next() returns (more: bool)
      requires Usable() && |buffers.Received()| >= 4
      modifies this`handled, this`failed, buffers.Repr()
      ensures buffers.Valid()
      ensures !more ==>
                && CutPackets(protocol, old(buffers.Received())) == Cut([], buffers.Received(), failed)
                && handled == old(handled)
      ensures !more && !failed ==>
                buffers.Free() == old(buffers.Free()) + 4096 + DecodeInt(old(buffers.Received())[..4])
      ensures more ==>
                var cut, rest := CutPackets(protocol, old(buffers.Received())),
                  CutPackets(protocol, buffers.Received());
                && !failed && |buffers.Received()| < |old(buffers.Received())|
                && cut.rest == rest.rest && cut.failed == rest.failed
                && handled + rest.packets == old(handled) + cut.packets
    {
      hide CutPackets;
      hide FrontOf;
      hide IsProtocol;
      hide ReceiveBuffers.Valid;
      hide ReceiveBuffers.Received;
      hide ReceiveBuffers.Free;
      var bytes := buffers.Read();
      CutTurn(protocol, bytes, handled);
      var front := ReadFront(bytes);
      match front
      case Incomplete(size) =>
        buffers.Expand(4096 + size);
        return false;
      case Broken =>
        failed := true;
        return false;
      case Complete(packet, size) =>
        var sliced := buffers.Drop(size);
        assert sliced;
        handled := handled + [packet];
        return true;
    }

    /** One completed read, which has put `chunk` into receiveBuffer, and the loop that follows it. */
    method OnReceive(chunk: seq<byte>)
      requires Usable() && 0 < |chunk| <= buffers.Free()
      modifies this`handled, this`failed, this`input, buffers.Repr()
      ensures buffers.Valid() && input == old(input) + chunk
      ensures var cut := CutPackets(protocol, old(buffers.Received()) + chunk);
              handled == old(handled) + cut.packets && buffers.Received() == cut.rest && failed == cut.failed
    {
      hide CutPackets;
      hide IsProtocol;
      input := input + chunk;
      buffers.Receive(chunk);
      ghost var all := CutPackets(protocol, buffers.Received());
      ReceivedSize(buffers);
      var more := true;
      while more && buffers.receivedBuffer.size >= 4
        invariant IsProtocol(protocol) && buffers.Valid() && input == old(input) + chunk
        invariant |buffers.Received()| == buffers.receivedBuffer.size
        invariant more ==>
                    var cut := CutPackets(protocol, buffers.Received());
                    && !failed && cut.rest == all.rest && cut.failed == all.failed
                    && handled + cut.packets == old(handled) + all.packets
        invariant !more ==>
                  all.rest == buffers.Received() && all.failed == failed && handled == old(handled) + all.packets
        decreases more, |buffers.Received()|
      {
        more := Next();
        ReceivedSize(buffers);
        assert handled + [] == handled;
      }
      CutEmpty(protocol, buffers.Received());
      assert handled + [] == handled;
    }

    /** Each read keeps the client in step with the packets sent. */
    method OnFrames(chunk: seq<byte>, ghost ks: seq<Packet>)
      requires AllSendable(protocol, ks) && Follows(ks)
      requires 0 < |chunk| <= buffers.Free() && input + chunk <= Stream(protocol, ks)
      modifies this, buffers.Repr()
      ensures Follows(ks) && input == old(input) + chunk
    {
      hide AllSendable;
      hide CutPackets;
      hide CaughtUp;
      hide Stream;
      hide IsProtocol;
      ghost var now, later := NextState(protocol, handled, todo, buffers.Received(), input, chunk);
      OnReceive(chunk);
      todo := later;
    }

    /** One turn of the outer loop, in which a part of what is on its way arrives, as much as there is room for. */
    method ReceiveSome(rest: seq<byte>, arrives: int, ghost ks: seq<Packet>) returns (n: nat)
      requires AllSendable(protocol, ks) && Follows(ks) && rest != [] && input + rest <= Stream(protocol, ks)
      modifies this, buffers.Repr()
      ensures Follows(ks) && 0 < n <= |rest| && input == old(input) + rest[..n]
    {
      hide AllSendable;
      hide CaughtUp;
      hide Stream;
      hide IsProtocol;
      MakeRoom();
      n := if arrives < 1 then 1 else arrives;
      n := if n > buffers.receiveBuffer.size then buffers.receiveBuffer.size else n;
      n := if n > |rest| then |rest| else n;
      assert input + rest[..n] <= input + rest;
      OnFrames(rest[..n], ks);
    }

    /** However the bytes are cut up on their way, exactly the packets sent are dispatched, in order. */
    method Run(wire: seq<byte>, arrives: nat -> nat, ghost ks: seq<Packet>)
      requires Usable() && Idle() && AllSendable(protocol, ks) && wire == Stream(protocol, ks)
      modifies this, buffers.Repr()
      ensures Usable() && handled == ks && buffers.Received() == []
    {
      hide Sendable;
      hide Stream;
      hide CaughtUp;
      hide IsProtocol;
      var done, round := 0, 0;
      todo := ks;
      FollowsNothing(protocol, ks);
      assert [] + ks == ks;
      while done < |wire|
        invariant 0 <= done <= |wire| && input == wire[..done] && Follows(ks)
        decreases |wire| - done
      {
        assert wire[..done] + wire[done..] == wire;
        var n := ReceiveSome(wire[done..], arrives(round), ks);
        assert wire[..done] + wire[done..][..n] == wire[..done + n];
        done, round := done + n, round + 1;
      }
      assert wire[..done] == wire;
      AllHandled(protocol, handled, todo, ks, input, buffers.Received());
      assert handled + [] == handled;
    }
  }

  lemma ReceivedSize(b: ReceiveBuffers)
    requires b.Valid()
    ensures |b.Received()| == b.receivedBuffer.size && b.Free() >= 0
  {
    BytesLength(b.mem.heap, b.receivedBuffer.fragments);
    BytesLength(b.mem.heap, b.receiveBuffer.fragments);
  }

  lemma FollowsNothing(p: Protocol, ks: seq<Packet>)
    requires AllSendable(p, ks)
    ensures AllSendable(p, []) && CaughtUp(p, [], ks, [], [])
  {
    if ks != [] {
      SendableHead(p, ks);
    }
    hide Sendable;
    hide IsPacket;
  }

  /** When all bytes of the stream have come in, nothing is left. */
  lemma AllHandled(p: Protocol, now: seq<Packet>, later: seq<Packet>, ks: seq<Packet>, bytes: seq<byte>,
                   rest: seq<byte>)
    requires AllSendable(p, now) && AllSendable(p, later) && AllSendable(p, ks) && now + later == ks
    requires CaughtUp(p, now, later, bytes, rest) && bytes == Stream(p, ks)
    ensures later == [] && rest == []
  {
    StreamConcat(p, now, later);
    if later != [] {
      SendableHead(p, later);
    }
    hide Sendable;
    hide Frame;
    hide IsPacket;
  }

  /** The size field of the frame in front. */
  method Peek(bytes: seq<byte>) returns (reader: StreamReader, size: int)
    requires |bytes| >= 4
    ensures fresh(reader) && reader.Valid() && reader.data == bytes && reader.Rest() == bytes[4..]
            && size == DecodeInt(bytes[..4])
  {
    reader := new StreamReader(bytes);
    hide DecodeInt;
    var r := reader.ReadInt(4);
    size := r.value;
  }

  lemma Consumed(reader: StreamReader)
    requires reader.Valid()
    ensures reader.readSize == |reader.data| - |reader.Rest()|
  {}
}

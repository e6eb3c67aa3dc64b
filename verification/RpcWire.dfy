/** From the server's packets to the client's dispatch: sending, writing and receiving in any order. */
module RpcWire {
  import opened Fragments
  import opened Buffers
  import opened BufferWriters
  import opened Sessions
  import opened Rpc
  import opened RpcBuffers
  import opened RpcClients

  /** What may happen next: a packet is sent, a write completes with so many bytes, so many bytes arrive, or something
      else is done in the memory of the server or the client. */
  datatype Act = Post | Write(bytes: int) | Arrive(bytes: int) | AtServer(op: Op) | AtClient(op: Op)

  /** session.Send(RPCPacket::ToBuffer(packet)) */
  method SendPacket(s: Sender, p: Protocol, k: Packet)
    requires s.Valid() && IsPacket(p, k)
    modifies s.Repr()
    ensures s.Valid() && s.sent == old(s.sent) + Frame(p, k) && s.written == old(s.written) && s.sendPending
    ensures s.closed == old(s.closed) && s.failed == old(s.failed)
  {
    hide Frame;
    hide IsPacket;
    hide Lined;
    hide Fragments.Valid;
    hide IsRope;
    hide OthersRead;
    hide Bytes;
    hide Total;
    ghost var h, own, queue := s.mem.heap, s.sendBuffer.fragments, s.sendWaitQueue;
    LinedParts(h, own, queue);
    var buffer := ToBuffer(s.mem, p, k);
    LineBeside(h, s.mem.heap, own, queue, buffer.fragments);
    FrameSized(p, k);
    BufferLength(buffer);
    s.Send(buffer);
  }

  lemma FrameSized(p: Protocol, k: Packet)
    requires IsPacket(p, k)
    ensures |Frame(p, k)| > 0
  {}

  /** A session's buffers next to one that has just been built. */
  lemma LineBeside(h: Heap, h': Heap, own: seq<int>, queue: seq<seq<int>>, fs: seq<int>)
    requires Lined(h, own, queue) && Fragments.Valid(h') && OthersRead(h, h', [])
    requires forall f :: f in fs ==> f !in h.frags
    ensures Lined(h', own, queue) && IsRope(h', own)
    ensures Bytes(h', own) == Bytes(h, own) && Total(h', own) == Total(h, own)
    ensures Bytes(h', Merged(queue)) == Bytes(h, Merged(queue)) && Disjoint(own + Merged(queue), fs)
  {
    OthersUntouched(h, h', []);
    LineKept(h, h', own, queue, Ids([]));
    LinedParts(h', own, queue);
    RopeMembers(h, own + Merged(queue));
  }

  /** A session of the server and the client at its other end, each with its own memory. */
  class Connection {
    const protocol: Protocol
    const server: Sender
    const client: RpcClient
    const packets: seq<Packet>
    var posted: nat
    /** Written by the server's socket and not yet received by the client's. */
    var wire: seq<byte>

    constructor (p: Protocol, m: Memory, m': Memory, ks: seq<Packet>)
      requires IsProtocol(p) && Fragments.Valid(m.heap) && Fragments.Valid(m'.heap) && m != m' && AllSendable(p, ks)
      ensures Valid() && packets == ks && protocol == p && posted == 0 && wire == []
      ensures server.mem == m && client.buffers.mem == m' && fresh(server) && fresh(server.sendBuffer) && fresh(client)
      ensures fresh(client.buffers) && fresh(client.buffers.receiveBuffer) && fresh(client.buffers.receivedBuffer)
    {
      hide AllSendable;
      hide IsProtocol;
      hide CaughtUp;
      hide Owns;
      hide Lined;
      hide Fragments.Valid;
      hide IsRope;
      hide Bytes;
      hide Total;
      protocol, packets, posted, wire := p, ks, 0, [];
      server := new Sender(m);
      client := new RpcClient(p, m');
      new;
      client.todo := ks;
      FollowsNothing(p, ks);
      assert [] + ks == ks && ks[..0] == [];
    }

    ghost function Repr(): set<object> {
      {this, server, server.sendBuffer, server.mem, client} + client.buffers.Repr()
    }

    ghost predicate Apart() {
      && server.mem != client.buffers.mem
      && server.sendBuffer != client.buffers.receiveBuffer && server.sendBuffer != client.buffers.receivedBuffer
    }

    ghost predicate Valid()
      reads Repr()
    {
      && Apart() && client.protocol == protocol && AllSendable(protocol, packets) && posted <= |packets|
      && AllSendable(protocol, packets[..posted])
      && server.Valid() && !server.closed && !server.failed && server.sent == Stream(protocol, packets[..posted])
      && client.Follows(packets) && client.input + wire == server.written
    }

    /** The next packet is sent. */
    method Post()
      requires Valid()
      modifies this`posted, server.Repr()
      ensures Valid() && posted == (if old(posted) < |packets| then old(posted) + 1 else old(posted))
    {
      hide AllSendable;
      hide Stream;
      hide Frame;
      hide IsPacket;
      hide IsProtocol;
      hide CaughtUp;
      hide Owns;
      hide Lined;
      hide Fragments.Valid;
      hide IsRope;
      hide Bytes;
      hide Total;
      if posted == |packets| {
        return;
      }
      NextFrame(protocol, packets, posted);
      SendPacket(server, protocol, packets[posted]);
      posted := posted + 1;
    }

    /** The socket has taken the front of the send buffer. */
    method Write(bytes: int)
      requires Valid()
      modifies this`wire, server.Repr()
      ensures Valid() && posted == old(posted)
      ensures old(server.sendPending) ==> |server.sent| - |server.written| < old(|server.sent| - |server.written|)
      ensures |server.written| <= |server.sent| && (!server.sendPending ==> server.written == server.sent)
    {
      hide AllSendable;
      hide Stream;
      hide IsProtocol;
      hide CaughtUp;
      hide Owns;
      hide Lined;
      hide Fragments.Valid;
      hide IsRope;
      hide Bytes;
      hide Total;
      if server.sendPending {
        var n := if bytes < 1 then 1 else if bytes > server.sendBuffer.size then server.sendBuffer.size else bytes;
        var taken := Iterate(server.sendBuffer);
        BufferLength(server.sendBuffer);
        wire := wire + taken[..n];
        server.OnWriteAsync(n);
      }
      WrittenIsSent(server);
    }

    /** A part of the bytes on the wire reaches the client. */
    method Arrive(bytes: int)
      requires Valid()
      modifies this`wire, client, client.buffers.Repr()
      ensures Valid() && posted == old(posted) && server.sendPending == old(server.sendPending)
      ensures server.written == old(server.written) && server.sent == old(server.sent)
      ensures old(wire) != [] ==> |wire| < |old(wire)|
    {
      hide AllSendable;
      hide Stream;
      hide IsProtocol;
      hide CaughtUp;
      hide Owns;
      hide Lined;
      hide Fragments.Valid;
      hide IsRope;
      hide Bytes;
      hide Total;
      if wire == [] {
        return;
      }
      WrittenIsSent(server);
      OnTheWire(protocol, packets, posted, server.sent, server.written, client.input, wire);
      var n := client.ReceiveSome(wire, bytes, packets);
      assert client.input + wire[n..] == server.written;
      wire := wire[n..];
    }

    /** An operation on the server's memory that leaves the session's fragments alone, or nothing. */
    method DoAtServer(op: Op)
      requires Valid()
      modifies server.mem
      ensures Valid()
    {
      hide AllSendable;
      hide Stream;
      hide IsProtocol;
      hide CaughtUp;
      hide Owns;
      hide Lined;
      hide Fragments.Valid;
      hide IsRope;
      hide Bytes;
      hide Total;
      var h, own, queue := server.mem.heap, server.sendBuffer.fragments, server.sendWaitQueue;
      LinedParts(h, own, queue);
      if Legal(h, op) && Touched(h, op) !! Ids(own + Merged(queue)) {
        LineStep(h, op, own, queue);
        server.mem.heap := Step(h, op);
        LinedParts(server.mem.heap, own, queue);
      }
    }

    /** The same for the client's memory; the fragments that its socket writes into are not copied either. */
    method DoAtClient(op: Op)
      requires Valid()
      modifies client.buffers.mem
      ensures Valid()
    {
      hide AllSendable;
      hide Stream;
      hide IsProtocol;
      hide CaughtUp;
      hide Owns;
      hide Lined;
      hide Fragments.Valid;
      hide IsRope;
      hide Bytes;
      hide Total;
      var h := client.buffers.mem.heap;
      var own, got := client.buffers.receiveBuffer.fragments, client.buffers.receivedBuffer.fragments;
      OwnsIs(h, own, got);
      if Legal(h, op) && Touched(h, op) !! Ids(own + got) && (op.OpCopy? ==> op.f !in own) {
        OwnsStep(h, op, own, got);
        client.buffers.mem.heap := Step(h, op);
        OwnsIs(client.buffers.mem.heap, own, got);
      }
    }

    /** Whatever happens, in any order and pieces: what the client has dispatched is the front of what was posted. */
    method Happen(acts: seq<Act>)
      requires Valid()
      modifies Repr()
      ensures Valid() && posted <= |packets| && client.handled <= packets[..posted]
    {
      hide Valid;
      for i := 0 to |acts|
        invariant Valid()
      {
        match acts[i]
        case Post => Post();
        case Write(n) => Write(n);
        case Arrive(n) => Arrive(n);
        case AtServer(op) => DoAtServer(op);
        case AtClient(op) => DoAtClient(op);
      }
      DispatchedPosted(this);
    }

    /** When at last everything is posted, written and received, exactly the frames of the packets went over the wire
        and exactly the packets were dispatched, in order. */
    method Exchange(acts: seq<Act>)
      requires Valid()
      modifies Repr()
      ensures Valid() && posted == |packets| && !server.sendPending && wire == []
      ensures server.written == Stream(protocol, packets)
      ensures client.handled == packets && client.buffers.Received() == []
    {
      hide Valid;
      hide Stream;
      Happen(acts);
      while posted < |packets|
        invariant Valid() && posted <= |packets|
      {
        Post();
      }
      Write(1);
      while server.sendPending
        invariant Valid() && posted == |packets|
        invariant |server.written| <= |server.sent| && (!server.sendPending ==> server.written == server.sent)
        decreases |server.sent| - |server.written|
      {
        Write(server.sendBuffer.size);
      }
      while wire != []
        invariant Valid() && posted == |packets| && !server.sendPending && server.written == server.sent
        decreases |wire|
      {
        Arrive(|wire|);
      }
      AtRest(this);
    }
  }

  lemma DispatchedPosted(c: Connection)
    requires c.Valid()
    ensures c.posted <= |c.packets| && c.client.handled <= c.packets[..c.posted]
  {
    hide AllSendable;
    hide Stream;
    hide CaughtUp;
    WrittenIsSent(c.server);
    NotBeforePosted(c.protocol, c.packets, c.posted, c.client.handled, c.client.todo, c.client.input,
      c.client.buffers.Received());
  }

  lemma AtRest(c: Connection)
    requires c.Valid() && c.posted == |c.packets| && c.wire == [] && c.server.written == c.server.sent
    ensures c.server.written == Stream(c.protocol, c.packets)
    ensures c.client.handled == c.packets && c.client.buffers.Received() == []
  {
    hide AllSendable;
    hide Stream;
    hide CaughtUp;
    assert c.packets[..c.posted] == c.packets && c.client.input + [] == c.client.input;
    AllHandled(c.protocol, c.client.handled, c.client.todo, c.packets, c.client.input, c.client.buffers.Received());
    assert c.client.handled + [] == c.client.handled;
  }

  lemma NextFrame(p: Protocol, ks: seq<Packet>, i: nat)
    requires AllSendable(p, ks) && i < |ks| && AllSendable(p, ks[..i])
    ensures IsPacket(p, ks[i]) && AllSendable(p, ks[..i + 1])
    ensures Stream(p, ks[..i + 1]) == Stream(p, ks[..i]) + Frame(p, ks[i])
  {
    hide Sendable;
    hide Frame;
    hide IsPacket;
    assert ks == ks[..i + 1] + ks[i + 1..] && ks[..i + 1] == ks[..i] + [ks[i]];
    SendableParts(p, ks[..i + 1], ks[i + 1..]);
    SendableParts(p, ks[..i], [ks[i]]);
    SendableHead(p, [ks[i]]);
    StreamConcat(p, ks[..i], [ks[i]]);
    assert Stream(p, [ks[i]]) == Frame(p, ks[i]) + [];
  }

  /** The frames posted so far are the front of all frames. */
  lemma PostedFirst(p: Protocol, ks: seq<Packet>, i: nat)
    requires AllSendable(p, ks) && i <= |ks| && AllSendable(p, ks[..i])
    ensures Stream(p, ks[..i]) <= Stream(p, ks)
  {
    hide Sendable;
    hide Frame;
    assert ks == ks[..i] + ks[i..];
    SendableParts(p, ks[..i], ks[i..]);
    StreamConcat(p, ks[..i], ks[i..]);
  }

  lemma OnTheWire(p: Protocol, ks: seq<Packet>, i: nat, sent: seq<byte>, written: seq<byte>, input: seq<byte>,
                  wire: seq<byte>)
    requires AllSendable(p, ks) && i <= |ks| && AllSendable(p, ks[..i]) && sent == Stream(p, ks[..i])
    requires written <= sent && input + wire == written
    ensures input + wire <= Stream(p, ks)
  {
    PostedFirst(p, ks, i);
  }

  /** No packet is dispatched that was not posted before. */
  lemma NotBeforePosted(p: Protocol, ks: seq<Packet>, i: nat, now: seq<Packet>, later: seq<Packet>, input: seq<byte>,
                        rest: seq<byte>)
    requires AllSendable(p, ks) && i <= |ks| && AllSendable(p, ks[..i]) && AllSendable(p, now) && AllSendable(p, later)
    requires now + later == ks && CaughtUp(p, now, later, input, rest) && input <= Stream(p, ks[..i])
    ensures now <= ks[..i]
  {
    hide Sendable;
    hide Frame;
    hide IsPacket;
    if |now| > i {
      assert now == ks[..i] + now[i..];
      SendableParts(p, ks[..i], now[i..]);
      SendableHead(p, now[i..]);
      FrameSized(p, now[i]);
      StreamConcat(p, ks[..i], now[i..]);
      assert false;
    }
  }
}

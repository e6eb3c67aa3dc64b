/** The RPC client's two buffers over one memory: the one the socket fills, and the one with what came in. */
module RpcBuffers {
  import opened Fragments
  import opened Buffers
  import opened BufferWriters

  /** The ropes are apart, and nobody else sees what is stored into the first. */
  ghost predicate Owns(h: Heap, own: seq<int>, got: seq<int>) {
    Valid(h) && IsRope(h, own) && IsRope(h, got) && Disjoint(own, got) && AllSole(h, own)
  }

  lemma Filled(h: Heap, h': Heap, own: seq<int>, got: seq<int>)
    requires Owns(h, own, got) && h'.frags == h.frags && OthersRead(h, h', own) && Fragments.Valid(h')
             && IsRope(h', own) && AllSole(h', own)
    ensures Owns(h', own, got) && Bytes(h', got) == Bytes(h, got) && Total(h', got) == Total(h, got)
  {
    hide Piece;
    hide AllSole;
    hide Fragments.Valid;
    SamePieces(h, h', got);
  }

  /** The front of `own` became `taken`, which joins `got`. */
  lemma Sliced(h: Heap, h': Heap, own: seq<int>, own': seq<int>, taken: seq<int>, got: seq<int>)
    requires Owns(h, own, got) && Fragments.Valid(h') && Follows(h, h', Ids(own) + Ids([]))
    requires IsRope(h', own') && IsRope(h', taken) && Disjoint(own', taken) && (forall f :: f in own' ==> f in own)
    requires forall f :: f in taken ==> f in own || f !in h.frags
    ensures Owns(h', own', got) && Owns(h', own', got + taken) && Disjoint(got, taken)
    ensures Bytes(h', got) == Bytes(h, got) && Total(h', got) == Total(h, got)
  {
    RopeMembers(h, got);
    RopeKept(h, h', got, Ids(own) + Ids([]));
    OwnKept(h, h', own, own', Ids(own) + Ids([]));
    hide Fragments.Valid;
    hide Follows;
    hide AllSole;
    hide IsRope;
    RopeJoined(h', got, taken);
  }

  lemma Grown(h: Heap, h': Heap, own: seq<int>, got: seq<int>, n: int, size: int)
    requires Owns(h, own, got) && Room(h, h', own, n, size)
    ensures IsRope(h', own) && Total(h', own) == Total(h, own) && n in h'.frags && n !in own && IsRope(h', own + [n])
    ensures Owns(h', own + [n], got) && Bytes(h', got) == Bytes(h, got) && Total(h', got) == Total(h, got)
  {
    RopeMembers(h, got);
    RopeKept(h, h', got, {});
    hide Fragments.Valid;
    hide Follows;
    hide AllSole;
    hide Bytes;
    hide Total;
    Extended(h', own, n);
  }

  /** The front of `got` was cut off and destroyed. */
  lemma Dropped(h: Heap, h': Heap, own: seq<int>, got: seq<int>, got': seq<int>)
    requires Owns(h, own, got) && Fragments.Valid(h') && Follows(h, h', Ids(got)) && IsRope(h', got')
    requires forall f :: f in got' ==> f in got
    ensures Owns(h', own, got') && Total(h', own) == Total(h, own)
  {
    RopeMembers(h, own);
    RopeKept(h, h', own, Ids(got));
    OwnKept(h, h', own, own, Ids(got));
    hide Fragments.Valid;
    hide Follows;
    hide AllSole;
    hide IsRope;
  }

  /** Nothing that is done to other fragments disturbs the two buffers, unless it copies one the socket writes into, or
      stores into bytes they share. */
  lemma OwnsStep(h: Heap, op: Op, own: seq<int>, got: seq<int>)
    requires Owns(h, own, got) && Legal(h, op) && Touched(h, op) !! Ids(own + got) && (op.OpCopy? ==> op.f !in own)
    ensures Owns(Step(h, op), own, got) && Total(Step(h, op), own) == Total(h, own)
    ensures Bytes(Step(h, op), got) == Bytes(h, got) && Total(Step(h, op), got) == Total(h, got)
  {
    assert Ids(own) <= Ids(own + got) && Ids(got) <= Ids(own + got);
    assert forall f :: f in own ==> f in Ids(own);
    RopeStep(h, op, own);
    RopeStep(h, op, got);
    hide Step;
    hide Legal;
    hide Touched;
    hide IsRope;
    forall f | f in own
      ensures Sole(Step(h, op), f)
    {
      StepSole(h, op, f);
    }
  }

  class ReceiveBuffers {
    const mem: Memory
    const receiveBuffer: Buffer
    const receivedBuffer: Buffer

    constructor (m: Memory)
      requires Fragments.Valid(m.heap)
      ensures mem == m && Valid() && Received() == [] && Free() == 0 && fresh(receiveBuffer) && fresh(receivedBuffer)
    {
      mem := m;
      receiveBuffer := new Buffer(m);
      receivedBuffer := new Buffer(m);
    }

    ghost function Repr(): set<object> { {mem, receiveBuffer, receivedBuffer} }

    ghost predicate Valid()
      reads Repr()
    {
      && receiveBuffer != receivedBuffer && receiveBuffer.mem == mem && receivedBuffer.mem == mem
      && receiveBuffer.Valid() && receivedBuffer.Valid()
      && Owns(mem.heap, receiveBuffer.fragments, receivedBuffer.fragments)
    }

    /** The bytes that have come in and are not used up. */
    function Received(): seq<byte>
      reads Repr()
    {
      Bytes(mem.heap, receivedBuffer.fragments)
    }

    function Free(): int
      reads Repr()
    {
      receiveBuffer.size
    }

    /** From cbegin() to cend(). */
    method Read() returns (bytes: seq<byte>)
      requires Valid()
      ensures bytes == Received()
    {
      bytes := Iterate(receivedBuffer);
    }

    /** New room of `n` bytes to receive into. */
    method Expand(n: int)
      requires Valid() && n > 0
      modifies Repr()
      ensures Valid() && Received() == old(Received()) && Free() == old(Free()) + n
    {
      hide Fragments.Valid;
      hide IsRope;
      hide Bytes;
      hide Total;
      hide Owns;
      hide AllSole;
      hide Disjoint;
      ghost var h, own, got := mem.heap, receiveBuffer.fragments, receivedBuffer.fragments;
      var raw := Uninitialized(n);
      OwnsIs(h, own, got);
      RoomMade(h, own, raw);
      Grown(h, Created(h, raw), own, got, h.nextFrag, n);
      RoomIs(h, Created(h, raw), own, h.nextFrag, n);
      var f := mem.Create(raw);
      receiveBuffer.Add(f);
      OwnsIs(mem.heap, receiveBuffer.fragments, got);
    }

    /** The socket has written `chunk`: it moves from the front of the one buffer to the end of the other. */
    method Receive(chunk: seq<byte>)
      requires Valid() && 0 < |chunk| <= Free()
      modifies Repr()
      ensures Valid() && Received() == old(Received()) + chunk && Free() == old(Free()) - |chunk|
    {
      hide Fragments.Valid;
      hide IsRope;
      hide Bytes;
      hide Total;
      hide Owns;
      hide AllSole;
      hide Disjoint;
      hide Follows;
      hide OthersRead;
      ghost var h, own, got := mem.heap, receiveBuffer.fragments, receivedBuffer.fragments;
      OwnsIs(h, own, got);
      Fill(receiveBuffer, chunk);
      ghost var h1 := mem.heap;
      Filled(h, h1, own, got);
      var temp := new Buffer(mem);
      FromFresh(h1, own);
      var sliced := receiveBuffer.SliceFront(temp, |chunk|);
      PrefixIs(chunk, temp.Contents(), receiveBuffer.Contents());
      Sliced(h1, mem.heap, own, receiveBuffer.fragments, temp.fragments, got);
      OwnsIs(mem.heap, receiveBuffer.fragments, got);
      receivedBuffer.MergeBack(temp);
    }

    /** The first `n` bytes that came in are used up. */
    method Drop(n: int) returns (sliced: bool)
      requires Valid()
      modifies Repr()
      ensures Valid() && Free() == old(Free()) && sliced == (0 < n <= |old(Received())|)
      ensures Received() == if sliced then old(Received())[n..] else old(Received())
    {
      hide Fragments.Valid;
      hide IsRope;
      hide Bytes;
      hide Total;
      hide Owns;
      hide AllSole;
      hide Disjoint;
      hide Follows;
      ghost var h, own, got := mem.heap, receiveBuffer.fragments, receivedBuffer.fragments;
      OwnsIs(h, own, got);
      BufferLength(receivedBuffer);
      sliced := DropFront(receivedBuffer, n);
      Dropped(h, mem.heap, own, got, receivedBuffer.fragments);
      OwnsIs(mem.heap, own, receivedBuffer.fragments);
    }
  }

  lemma OwnsIs(h: Heap, own: seq<int>, got: seq<int>)
    requires Owns(h, own, got)
    ensures Fragments.Valid(h) && IsRope(h, own) && IsRope(h, got) && Disjoint(own, got) && AllSole(h, own)
  {}

  lemma RoomIs(h: Heap, h': Heap, own: seq<int>, n: int, size: int)
    requires Room(h, h', own, n, size)
    ensures Fragments.Valid(h') && n in h'.frags && h'.frags[n].IsValid() && h'.frags[n].size == size && n !in own
  {}
}

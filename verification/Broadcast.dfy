/** Sessions that share the bytes they send: one buffer goes to all of them by shallow copies. */
module Broadcasts {
  import opened Fragments
  import opened Buffers
  import opened BufferWriters
  import opened Sessions

  /** Sessions over one memory, none of whose buffers is another's. */
  ghost predicate Side(m: Memory, sessions: seq<Sender>)
    reads m, set s | s in sessions, set s | s in sessions :: s.sendBuffer
  {
    && (forall i :: 0 <= i < |sessions| ==> sessions[i].mem == m && sessions[i].Valid())
    && (forall i, j :: 0 <= i < |sessions| && 0 <= j < |sessions| && i != j ==>
          && sessions[i] != sessions[j] && sessions[i].sendBuffer != sessions[j].sendBuffer
          && Disjoint(sessions[i].Line(), sessions[j].Line()))
  }

  /** The buffer is none of the sessions'. */
  ghost predicate Free(sessions: seq<Sender>, buffer: Buffer)
    reads buffer, buffer.mem, set s | s in sessions, set s | s in sessions :: s.sendBuffer,
          set s | s in sessions :: s.mem
  {
    forall i :: 0 <= i < |sessions| ==> sessions[i].Sendable(buffer)
  }

  /** One of the sessions sends a shallow copy; the others do not notice. */
  method CopyTo(m: Memory, sessions: seq<Sender>, i: nat, buffer: Buffer)
    requires i < |sessions| && Side(m, sessions) && Free(sessions, buffer)
    modifies sessions[i].Repr()
    ensures Side(m, sessions) && Free(sessions, buffer) && buffer.Contents() == old(buffer.Contents())
    ensures buffer.Valid() && unchanged(buffer) && m.heap.blocks.Keys <= old(m.heap.blocks.Keys)
    ensures sessions[i].sent == old(sessions[i].sent) + buffer.Contents()
            && sessions[i].written == old(sessions[i].written)
    ensures sessions[i].closed == old(sessions[i].closed) && sessions[i].failed == old(sessions[i].failed)
    ensures forall j :: 0 <= j < |sessions| && j != i ==> unchanged(sessions[j])
  {
    hide Fragments.Valid;
    hide IsRope;
    hide Lined;
    hide Bytes;
    hide Total;
    hide Follows;
    hide Untouched;
    hide NoForeign;
    hide Disjoint;
    var one := sessions[i];
    ghost var h := m.heap;
    ghost var line := one.Line();
    one.SendCopy(buffer);
    forall j | 0 <= j < |sessions| && j != i
      ensures sessions[j].Valid() && sessions[j].Sendable(buffer)
      ensures Disjoint(one.Line(), sessions[j].Line()) && Disjoint(sessions[j].Line(), one.Line())
    {
      var s := sessions[j];
      LineKept(h, m.heap, s.sendBuffer.fragments, s.sendWaitQueue, {});
      LinedParts(m.heap, s.sendBuffer.fragments, s.sendWaitQueue);
      LineMembers(h, s.sendBuffer.fragments, s.sendWaitQueue);
      StillApart(h, line, one.Line(), s.Line());
    }
  }

  /** A write of one of the sessions completes; the others do not notice. */
  method WriteOf(m: Memory, sessions: seq<Sender>, i: nat, bytes: int)
    requires i < |sessions| && Side(m, sessions) && sessions[i].inFlight.Some?
             && 0 < bytes <= sessions[i].sendBuffer.size
    modifies sessions[i].Repr()
    ensures Fragments.Valid(m.heap) && Side(m, sessions) && sessions[i].sent == old(sessions[i].sent)
    ensures |sessions[i].written| > |old(sessions[i].written)| && m.heap.blocks.Keys <= old(m.heap.blocks.Keys)
    ensures sessions[i].closed == old(sessions[i].closed) && sessions[i].failed == old(sessions[i].failed)
    ensures forall j :: 0 <= j < |sessions| && j != i ==> unchanged(sessions[j])
  {
    hide Fragments.Valid;
    hide IsRope;
    hide Lined;
    hide Bytes;
    hide Total;
    hide Follows;
    hide Untouched;
    hide NoForeign;
    hide Disjoint;
    var one := sessions[i];
    ghost var h, line := m.heap, one.Line();
    one.OnWriteAsync(bytes);
    FollowsUntouched(h, m.heap, Ids(line));
    forall j | 0 <= j < |sessions| && j != i
      ensures sessions[j].Valid()
      ensures Disjoint(one.Line(), sessions[j].Line()) && Disjoint(sessions[j].Line(), one.Line())
    {
      var s := sessions[j];
      Outside(line, s.Line());
      LineKept(h, m.heap, s.sendBuffer.fragments, s.sendWaitQueue, Ids(line));
      LinedParts(m.heap, s.sendBuffer.fragments, s.sendWaitQueue);
      LineMembers(h, s.sendBuffer.fragments, s.sendWaitQueue);
      StillApart(h, line, one.Line(), s.Line());
    }
  }

  lemma Outside(a: seq<int>, b: seq<int>)
    requires Disjoint(a, b)
    ensures Ids(a) !! Ids(b) && Ids(b) !! Ids(a)
  {
    forall f | f in Ids(a)
      ensures f !in Ids(b)
    {
      assert f in a;
    }
  }

  function Part(told: bool, data: seq<byte>): seq<byte> { if told then data else [] }

  ghost predicate AllOpen(sessions: seq<Sender>)
    reads set s | s in sessions
  {
    forall i :: 0 <= i < |sessions| ==> !sessions[i].closed && !sessions[i].failed
  }

  lemma SideMemory(m: Memory, sessions: seq<Sender>)
    requires Side(m, sessions)
    ensures forall i :: 0 <= i < |sessions| ==> sessions[i].mem == m
  {}

  method CopyToAll(m: Memory, sessions: seq<Sender>, to: set<nat>, buffer: Buffer)
    requires Side(m, sessions) && Free(sessions, buffer) && buffer.mem == m && buffer.Valid() && AllOpen(sessions)
    modifies m, set s | s in sessions, set s | s in sessions :: s.sendBuffer
    ensures Side(m, sessions) && AllOpen(sessions) && buffer.Valid() && unchanged(buffer)
    ensures m.heap.blocks.Keys <= old(m.heap.blocks.Keys)
    ensures Free(sessions, buffer) && buffer.Contents() == old(buffer.Contents())
    ensures forall j :: 0 <= j < |sessions| ==>
              && sessions[j].sent == old(sessions[j].sent) + Part(j in to, buffer.Contents())
              && sessions[j].written == old(sessions[j].written)
  {
    hide Side;
    hide Free;
    hide Bytes;
    SideMemory(m, sessions);
    for i := 0 to |sessions|
      invariant Side(m, sessions) && AllOpen(sessions) && buffer.Valid() && unchanged(buffer)
      invariant m.heap.blocks.Keys <= old(m.heap.blocks.Keys)
      invariant Free(sessions, buffer) && buffer.Contents() == old(buffer.Contents())
      invariant forall j :: 0 <= j < i ==>
                  sessions[j].sent == old(sessions[j].sent) + Part(j in to, buffer.Contents())
      invariant forall j :: i <= j < |sessions| ==> sessions[j].sent == old(sessions[j].sent)
      invariant forall j :: 0 <= j < |sessions| ==> sessions[j].written == old(sessions[j].written)
    {
      if i in to {
        CopyTo(m, sessions, i, buffer);
      }
    }
  }

  /** A buffer is built, copied to the sessions it is for, and destroyed: one block for all of them. */
  method Broadcast(m: Memory, sessions: seq<Sender>, to: set<nat>, data: seq<byte>)
    requires Fragments.Valid(m.heap) && Side(m, sessions) && AllOpen(sessions) && data != []
    modifies m, set s | s in sessions, set s | s in sessions :: s.sendBuffer
    ensures Fragments.Valid(m.heap) && Side(m, sessions) && AllOpen(sessions)
    ensures forall j :: 0 <= j < |sessions| ==>
              && sessions[j].sent == old(sessions[j].sent) + Part(j in to, data)
              && sessions[j].written == old(sessions[j].written)
    ensures m.heap.blocks.Keys <= old(m.heap.blocks.Keys) + {old(m.heap.nextBlock)}
  {
    hide Side;
    hide Free;
    hide Bytes;
    hide Fragments.Valid;
    var buffer := Holding(m, sessions, data);
    CopyToAll(m, sessions, to, buffer);
    Discard(m, sessions, buffer);
  }

  /** A new buffer that holds `data`. */
  method Holding(m: Memory, sessions: seq<Sender>, data: seq<byte>) returns (buffer: Buffer)
    requires Fragments.Valid(m.heap) && Side(m, sessions) && data != []
    modifies m
    ensures fresh(buffer) && buffer.mem == m && buffer.Valid() && buffer.Contents() == data
    ensures Side(m, sessions) && Free(sessions, buffer)
    ensures m.heap.blocks.Keys == old(m.heap.blocks.Keys) + {old(m.heap.nextBlock)}
  {
    hide Fragments.Valid;
    hide IsRope;
    hide Lined;
    hide Bytes;
    hide Total;
    hide Follows;
    hide Untouched;
    hide NoForeign;
    hide Disjoint;
    hide Ids;
    ghost var h := m.heap;
    NewRope(h, data);
    var f := m.Create(data);
    buffer := new Buffer(m);
    NoRope(m.heap);
    buffer.Add(f);
    assert buffer.fragments == [f];
    forall j | 0 <= j < |sessions|
      ensures sessions[j].Valid() && Disjoint(sessions[j].Line(), [f])
    {
      var s := sessions[j];
      LineMembers(h, s.sendBuffer.fragments, s.sendWaitQueue);
      LineKept(h, m.heap, s.sendBuffer.fragments, s.sendWaitQueue, {});
      LinedParts(m.heap, s.sendBuffer.fragments, s.sendWaitQueue);
      NewIsApart(h, s.Line(), f);
    }
  }

  lemma NewRope(h: Heap, data: seq<byte>)
    requires Fragments.Valid(h) && data != []
    ensures var h', n := Created(h, data), h.nextFrag;
            && Fragments.Valid(h') && Untouched(h, h', {}) && n !in h.frags
            && n in h'.frags && h'.frags[n].IsValid() && h'.frags[n].size == |data| && Piece(h', n) == data
  {
    CreateKeeps(h, data);
  }

  lemma NewIsApart(h: Heap, line: seq<int>, f: int)
    requires f !in h.frags && forall g :: g in line ==> g in h.frags
    ensures Disjoint(line, [f])
  {}

  /** The buffer is destroyed; its bytes live on in the copies. */
  method Discard(m: Memory, sessions: seq<Sender>, buffer: Buffer)
    requires Side(m, sessions) && Free(sessions, buffer) && buffer.mem == m && buffer.Valid()
    modifies m, buffer
    ensures Fragments.Valid(m.heap) && Side(m, sessions) && forall j :: 0 <= j < |sessions| ==> unchanged(sessions[j])
    ensures m.heap.blocks.Keys <= old(m.heap.blocks.Keys)
  {
    hide Fragments.Valid;
    hide IsRope;
    hide Lined;
    hide Bytes;
    hide Total;
    hide Follows;
    hide Untouched;
    hide NoForeign;
    hide Disjoint;
    hide Ids;
    ghost var h, fs := m.heap, buffer.fragments;
    buffer.Clear();
    FollowsUntouched(h, m.heap, Ids(fs));
    forall j | 0 <= j < |sessions|
      ensures sessions[j].Valid()
    {
      var s := sessions[j];
      Outside(s.Line(), fs);
      LineKept(h, m.heap, s.sendBuffer.fragments, s.sendWaitQueue, Ids(fs));
      LinedParts(m.heap, s.sendBuffer.fragments, s.sendWaitQueue);
    }
  }

  // ---------------------------------------------------------------- whole runs

  /** Something is broadcast to some sessions, or a write of a session completes with so many bytes. */
  datatype Act = Tell(to: set<nat>, data: seq<byte>) | Written(session: nat, bytes: int)

  /** All that was broadcast to session `j`. */
  function Told(acts: seq<Act>, j: nat): seq<byte> {
    if acts == [] then []
    else
      var act := acts[|acts| - 1];
      Told(acts[..|acts| - 1], j) + if act.Tell? then Part(j in act.to, act.data) else []
  }

  /** In any order of broadcasts and writes of any sizes, every session is sent all that is meant for it, and its
      socket has been given the front. */
  method Serve(m: Memory, sessions: seq<Sender>, acts: seq<Act>)
    requires Fragments.Valid(m.heap) && Side(m, sessions) && AllOpen(sessions)
    modifies m, set s | s in sessions, set s | s in sessions :: s.sendBuffer
    ensures Fragments.Valid(m.heap) && Side(m, sessions) && AllOpen(sessions)
    ensures forall j :: 0 <= j < |sessions| ==>
              sessions[j].sent == old(sessions[j].sent) + Told(acts, j) && sessions[j].written <= sessions[j].sent
  {
    hide Side;
    hide Fragments.Valid;
    SideMemory(m, sessions);
    assert acts[..|acts|] == acts;
    for i := 0 to |acts|
      invariant Fragments.Valid(m.heap) && Side(m, sessions) && AllOpen(sessions)
      invariant forall j :: 0 <= j < |sessions| ==> sessions[j].sent == old(sessions[j].sent) + Told(acts[..i], j)
    {
      assert acts[..i + 1][..i] == acts[..i];
      match acts[i]
      case Tell(to, data) =>
        if data != [] {
          Broadcast(m, sessions, to, data);
        }
      case Written(k, n) =>
        if k < |sessions| && sessions[k].sendPending {
          Pending(m, sessions, k);
          var most := sessions[k].sendBuffer.size;
          WriteOf(m, sessions, k, if n < 1 then 1 else if n > most then most else n);
        }
    }
    AllFronts(m, sessions);
  }

  lemma Pending(m: Memory, sessions: seq<Sender>, i: nat)
    requires Side(m, sessions) && AllOpen(sessions) && i < |sessions| && sessions[i].sendPending
    ensures sessions[i].inFlight.Some? && sessions[i].sendBuffer.size > 0
  {}

  lemma AllFronts(m: Memory, sessions: seq<Sender>)
    requires Side(m, sessions)
    ensures forall j :: 0 <= j < |sessions| ==>
              && sessions[j].written <= sessions[j].sent
              && (!sessions[j].sendPending ==> sessions[j].written == sessions[j].sent)
  {
    forall j | 0 <= j < |sessions|
      ensures sessions[j].written <= sessions[j].sent
      ensures !sessions[j].sendPending ==> sessions[j].written == sessions[j].sent
    {
      WrittenIsSent(sessions[j]);
    }
  }

  /** When the writes have come to an end, every socket has been given exactly what was broadcast to its session. */
  method ServeAll(m: Memory, sessions: seq<Sender>, acts: seq<Act>)
    requires Fragments.Valid(m.heap) && Side(m, sessions) && AllOpen(sessions)
    modifies m, set s | s in sessions, set s | s in sessions :: s.sendBuffer
    ensures Fragments.Valid(m.heap) && Side(m, sessions) && AllOpen(sessions)
    ensures forall j :: 0 <= j < |sessions| ==>
              sessions[j].written == sessions[j].sent == old(sessions[j].sent) + Told(acts, j)
  {
    hide Side;
    hide Fragments.Valid;
    Serve(m, sessions, acts);
    for i := 0 to |sessions|
      invariant Fragments.Valid(m.heap) && Side(m, sessions) && AllOpen(sessions)
      invariant forall j :: 0 <= j < |sessions| ==> sessions[j].sent == old(sessions[j].sent) + Told(acts, j)
      invariant forall j :: 0 <= j < i ==> !sessions[j].sendPending
    {
      Finish(m, sessions, i);
    }
    AllFronts(m, sessions);
  }

  method Finish(m: Memory, sessions: seq<Sender>, i: nat)
    requires Fragments.Valid(m.heap) && Side(m, sessions) && AllOpen(sessions) && i < |sessions|
    modifies m, sessions[i], sessions[i].sendBuffer
    ensures Fragments.Valid(m.heap) && Side(m, sessions) && AllOpen(sessions)
    ensures !sessions[i].sendPending && sessions[i].sent == old(sessions[i].sent)
    ensures forall j :: 0 <= j < |sessions| && j != i ==> unchanged(sessions[j])
  {
    hide Side;
    hide Fragments.Valid;
    SideMemory(m, sessions);
    AllFronts(m, sessions);
    while sessions[i].sendPending
      invariant Fragments.Valid(m.heap) && Side(m, sessions) && AllOpen(sessions)
      invariant sessions[i].written <= sessions[i].sent == old(sessions[i].sent)
      invariant forall j :: 0 <= j < |sessions| && j != i ==> unchanged(sessions[j])
      decreases |sessions[i].sent| - |sessions[i].written|
    {
      Pending(m, sessions, i);
      WriteOf(m, sessions, i, sessions[i].sendBuffer.size);
      AllFronts(m, sessions);
    }
  }
}

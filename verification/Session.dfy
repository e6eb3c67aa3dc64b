/** A session's two directions: the receive buffer the socket reads into, and the queue of buffers to send. */
module Sessions {
  import opened Wrappers
  import opened Fragments
  import opened Buffers
  import opened BufferWriters

  const RECEIVE_BUFFER_MIN_SIZE := 1024
  const RECEIVE_BUFFER_EXPAND_SIZE := 2048

  // ---------------------------------------------------------------- a buffer and a queue of buffers

  /** The fragments of buffers that wait in a queue, in order. */
  function Merged(queue: seq<seq<int>>): seq<int> {
    if queue == [] then [] else queue[0] + Merged(queue[1..])
  }

  lemma {:induction false} MergedConcat(a: seq<seq<int>>, b: seq<seq<int>>)
    ensures Merged(a + b) == Merged(a) + Merged(b)
  {
    if a == [] {
      assert a + b == b;
    } else {
      assert (a + b)[1..] == a[1..] + b;
      MergedConcat(a[1..], b);
    }
  }

  lemma MergedOne(b: seq<int>)
    ensures Merged([b]) == b
  {}

  /** A session's buffer and the queue of those that wait: no fragment twice, and no waiting buffer empty. */
  ghost predicate Lined(h: Heap, own: seq<int>, queue: seq<seq<int>>) {
    Fragments.Valid(h) && IsRope(h, own + Merged(queue)) && forall i :: 0 <= i < |queue| ==> queue[i] != []
  }

  lemma LinedParts(h: Heap, own: seq<int>, queue: seq<seq<int>>)
    requires Lined(h, own, queue)
    ensures Fragments.Valid(h) && IsRope(h, own) && IsRope(h, Merged(queue)) && Disjoint(own, Merged(queue))
    ensures queue == [] <==> |Bytes(h, Merged(queue))| == 0
  {
    RopeParts(h, own, Merged(queue));
    BytesLength(h, Merged(queue));
  }

  /** Another buffer waits. */
  lemma Enqueued(h: Heap, own: seq<int>, queue: seq<seq<int>>, fs: seq<int>)
    requires Lined(h, own, queue) && IsRope(h, fs) && fs != [] && Disjoint(own + Merged(queue), fs)
    ensures Lined(h, own, queue + [fs])
    ensures Bytes(h, Merged(queue + [fs])) == Bytes(h, Merged(queue)) + Bytes(h, fs)
  {
    hide IsRope;
    hide Fragments.Valid;
    hide Disjoint;
    MergedConcat(queue, [fs]);
    MergedOne(fs);
    RopeJoined(h, own + Merged(queue), fs);
    assert own + Merged(queue) + fs == own + Merged(queue + [fs]);
    BytesConcat(h, Merged(queue), fs);
  }

  lemma QueueItem(h: Heap, own: seq<int>, queue: seq<seq<int>>, i: nat)
    requires Lined(h, own, queue) && i < |queue|
    ensures IsRope(h, queue[i]) && Disjoint(Merged(queue[..i]), queue[i]) && Total(h, queue[i]) > 0
    ensures forall f :: f in queue[i] ==> f in Merged(queue)
    ensures Merged(queue[..i + 1]) == Merged(queue[..i]) + queue[i]
  {
    hide IsRope;
    hide Disjoint;
    hide Fragments.Valid;
    var front, item, back := Merged(queue[..i]), queue[i], Merged(queue[i + 1..]);
    assert queue == queue[..i + 1] + queue[i + 1..] && queue[..i + 1] == queue[..i] + [item];
    MergedConcat(queue[..i + 1], queue[i + 1..]);
    MergedConcat(queue[..i], [item]);
    MergedOne(item);
    RopeParts(h, own, Merged(queue));
    RopeParts(h, front + item, back);
    RopeParts(h, front, item);
    BytesLength(h, item);
    assert Merged(queue) == front + item + back;
  }

  lemma LineMembers(h: Heap, own: seq<int>, queue: seq<seq<int>>)
    requires Lined(h, own, queue)
    ensures forall f :: f in own + Merged(queue) ==> f in h.frags
  {
    RopeMembers(h, own + Merged(queue));
  }

  lemma LineGrows(h: Heap, own: seq<int>, queue: seq<seq<int>>, fs: seq<int>)
    ensures NoForeign(h, own + Merged(queue) + fs, own + Merged(queue + [fs]))
  {
    MergedConcat(queue, [fs]);
    MergedOne(fs);
  }

  lemma LineKept(h: Heap, h': Heap, own: seq<int>, queue: seq<seq<int>>, s: set<int>)
    requires Lined(h, own, queue) && Fragments.Valid(h') && Untouched(h, h', s) && s !! Ids(own + Merged(queue))
    ensures Lined(h', own, queue) && Bytes(h', own) == Bytes(h, own) && Total(h', own) == Total(h, own)
    ensures Bytes(h', Merged(queue)) == Bytes(h, Merged(queue))
  {
    LinedParts(h, own, queue);
    assert forall f :: f in own + Merged(queue) ==> f in Ids(own + Merged(queue));
    hide Bytes;
    hide Untouched;
    RopeUntouched(h, h', own + Merged(queue), s);
    RopeUntouched(h, h', own, s);
    RopeUntouched(h, h', Merged(queue), s);
  }

  /** No operation on other fragments, even of the same blocks, changes what a session has to send, but for a store into
      bytes it shares. */
  lemma LineStep(h: Heap, op: Op, own: seq<int>, queue: seq<seq<int>>)
    requires Lined(h, own, queue) && Legal(h, op) && Touched(h, op) !! Ids(own + Merged(queue))
    ensures Lined(Step(h, op), own, queue) && Total(Step(h, op), own) == Total(h, own)
    ensures Bytes(Step(h, op), own) == Bytes(h, own)
    ensures Bytes(Step(h, op), Merged(queue)) == Bytes(h, Merged(queue))
  {
    StepUntouched(h, op);
    LineKept(h, Step(h, op), own, queue, Touched(h, op));
  }

  /** Nor does any run of such operations. */
  lemma LineAfter(h: Heap, ops: seq<Op>, own: seq<int>, queue: seq<seq<int>>)
    requires Lined(h, own, queue) && Elsewhere(h, ops, Ids(own + Merged(queue)))
    ensures var h' := After(h, ops, Ids(own + Merged(queue)));
            && Lined(h', own, queue) && Bytes(h', own) == Bytes(h, own) && Total(h', own) == Total(h, own)
            && Bytes(h', Merged(queue)) == Bytes(h, Merged(queue))
  {
    LinedParts(h, own, queue);
    var keep := Ids(own + Merged(queue));
    assert Ids(own) <= keep && Ids(Merged(queue)) <= keep;
    RopeAfter(h, ops, own + Merged(queue), keep);
    RopeAfter(h, ops, own, keep);
    RopeAfter(h, ops, Merged(queue), keep);
  }

  // ---------------------------------------------------------------- receiving

  /** Each buffer in the channel still reads as the bytes that the socket delivered for it. */
  ghost predicate Delivered(h: Heap, own: seq<int>, channel: seq<seq<int>>, inputs: seq<seq<byte>>) {
    && Lined(h, own, channel) && |channel| == |inputs|
    && forall i :: 0 <= i < |channel| ==> Bytes(h, channel[i]) == inputs[i]
  }

  /** Slicing, filling or expanding the receive buffer changes no delivered byte. */
  lemma DeliveredKept(h: Heap, h': Heap, own: seq<int>, own': seq<int>, channel: seq<seq<int>>, inputs: seq<seq<byte>>)
    requires Delivered(h, own, channel, inputs) && Fragments.Valid(h') && Untouched(h, h', Ids(own))
    requires IsRope(h', own') && forall f :: f in own' ==> f in own || f !in h.frags
    ensures Delivered(h', own', channel, inputs)
  {
    LinedParts(h, own, channel);
    RopeMembers(h, Merged(channel));
    RopeUntouched(h, h', Merged(channel), Ids(own));
    RopeJoined(h', own', Merged(channel));
    forall i | 0 <= i < |channel|
      ensures Bytes(h', channel[i]) == inputs[i]
    {
      hide Bytes;
      hide Untouched;
      ItemUntouched(h, h', own, channel, i, Ids(own));
    }
  }

  lemma ItemUntouched(h: Heap, h': Heap, own: seq<int>, queue: seq<seq<int>>, i: nat, s: set<int>)
    requires Lined(h, own, queue) && i < |queue| && Untouched(h, h', s)
    requires forall f :: f in Merged(queue) ==> f !in s
    ensures Bytes(h', queue[i]) == Bytes(h, queue[i])
  {
    QueueItem(h, own, queue, i);
    hide Untouched;
    hide IsRope;
    RopeUntouched(h, h', queue[i], s);
  }

  lemma ChannelSent(h: Heap, own: seq<int>, channel: seq<seq<int>>, inputs: seq<seq<byte>>, out: seq<int>,
                    data: seq<byte>)
    requires Delivered(h, own, channel, inputs) && IsRope(h, out) && Bytes(h, out) == data != []
    requires Disjoint(own, out) && Disjoint(Merged(channel), out)
    ensures Delivered(h, own, channel + [out], inputs + [data])
  {
    hide IsRope;
    Enqueued(h, own, channel, out);
  }

  /** What is done to buffers taken out of the channel, or to any others, does not disturb the session. */
  lemma ReceiveStep(h: Heap, op: Op, own: seq<int>, channel: seq<seq<int>>, inputs: seq<seq<byte>>)
    requires Delivered(h, own, channel, inputs) && AllSole(h, own)
    requires Legal(h, op) && Touched(h, op) !! Ids(own + Merged(channel)) && (op.OpCopy? ==> op.f !in own)
    ensures Delivered(Step(h, op), own, channel, inputs) && AllSole(Step(h, op), own)
    ensures Total(Step(h, op), own) == Total(h, own)
  {
    LineStep(h, op, own, channel);
    StepUntouched(h, op);
    assert forall f :: f in own || f in Merged(channel) ==> f in own + Merged(channel);
    assert forall f :: f in own + Merged(channel) ==> f in Ids(own + Merged(channel));
    hide Step;
    hide Legal;
    hide Bytes;
    hide Total;
    hide Lined;
    hide Untouched;
    forall f | f in own
      ensures Sole(Step(h, op), f)
    {
      StepSole(h, op, f);
    }
    forall i | 0 <= i < |channel|
      ensures Bytes(Step(h, op), channel[i]) == inputs[i]
    {
      ItemUntouched(h, Step(h, op), own, channel, i, Touched(h, op));
    }
  }

  /** The first buffer is taken out of the channel. */
  lemma ChannelTaken(h: Heap, own: seq<int>, channel: seq<seq<int>>, inputs: seq<seq<byte>>)
    requires Delivered(h, own, channel, inputs) && channel != []
    ensures |inputs| == |channel| && Delivered(h, own, channel[1..], inputs[1..])
    ensures Fragments.Valid(h) && IsRope(h, channel[0]) && Bytes(h, channel[0]) == inputs[0]
    ensures Disjoint(own + Merged(channel[1..]), channel[0])
  {
    hide IsRope;
    hide Fragments.Valid;
    var first, rest := channel[0], Merged(channel[1..]);
    assert own + Merged(channel) == own + first + rest;
    RopeParts(h, own + first, rest);
    RopeParts(h, own, first);
    RopeParts(h, own, Merged(channel));
    assert forall f :: f in rest ==> f in Merged(channel);
    RopeJoined(h, own, rest);
  }

  class Receiver {
    const mem: Memory
    const receiveBuffer: Buffer
    /** The buffers moved into the event channel. */
    var channel: seq<seq<int>>
    var closed: bool
    /** What the socket delivered, read by read. */
    ghost var inputs: seq<seq<byte>>

    constructor (m: Memory)
      requires Fragments.Valid(m.heap)
      modifies m
      ensures mem == m && Valid() && channel == [] && inputs == [] && !closed && fresh(receiveBuffer)
    {
      mem, channel, inputs, closed := m, [], [], false;
      receiveBuffer := new Buffer(m);
      new;
      ExpandReceiveBuffer();
    }

    ghost predicate Owned()
      reads this, receiveBuffer, mem
    {
      && receiveBuffer.mem == mem && receiveBuffer.Valid() && AllSole(mem.heap, receiveBuffer.fragments)
      && Delivered(mem.heap, receiveBuffer.fragments, channel, inputs)
    }

    /** A read is outstanding, as ReceiveAsync asserts into at least the minimal size. */
    ghost predicate Valid()
      reads this, receiveBuffer, mem
    {
      Owned() && receiveBuffer.size >= RECEIVE_BUFFER_MIN_SIZE
    }

    method ExpandReceiveBuffer()
      requires Owned()
      modifies receiveBuffer, mem
      ensures Valid() && Untouched(old(mem.heap), mem.heap, {})
      ensures receiveBuffer.size == old(receiveBuffer.size) + if old(receiveBuffer.size) < 1024 then 2048 else 0
    {
      if receiveBuffer.size >= RECEIVE_BUFFER_MIN_SIZE {
        return;
      }
      hide Fragments.Valid;
      hide IsRope;
      hide Bytes;
      hide Total;
      hide Follows;
      hide AllSole;
      hide Delivered;
      hide Untouched;
      ghost var h, own := mem.heap, receiveBuffer.fragments;
      var raw := Uninitialized(RECEIVE_BUFFER_EXPAND_SIZE);
      Expanded(h, own, raw, channel, inputs);
      BufferLength(receiveBuffer);
      var f := mem.Create(raw);
      receiveBuffer.Add(f);
    }

    /** The outstanding read completes with `data`: it joins the channel, and everything that is in there reads as it
        did, as do all fragments outside the receive buffer. */
    method OnRead(data: seq<byte>)
      requires Valid() && 0 < |data| <= receiveBuffer.size
      modifies this, receiveBuffer, mem
      ensures Valid() && closed == old(closed) && inputs == old(inputs) + [data]
      ensures |channel| == |old(channel)| + 1 && channel[..|old(channel)|] == old(channel)
      ensures Untouched(old(mem.heap), mem.heap, old(Ids(receiveBuffer.fragments)))
    {
      hide Fragments.Valid;
      hide IsRope;
      hide Bytes;
      hide Total;
      hide AllSole;
      hide Delivered;
      hide OthersRead;
      hide Untouched;
      ghost var h, own := mem.heap, receiveBuffer.fragments;
      Fill(receiveBuffer, data);
      OthersUntouched(h, mem.heap, own);
      DeliveredKept(h, mem.heap, own, own, channel, inputs);
      ghost var h1 := mem.heap;
      HandleReceive(|data|, data);
      UntouchedOn(h, h1, mem.heap, Ids(own), Ids(own));
    }

    /** The completion handler. Into `data` went the bytes that the socket says it wrote, if it can have written that
        many. */
    method HandleReceive(bytes: int, ghost data: seq<byte>)
      requires Valid() && (0 < bytes <= receiveBuffer.size ==> |data| == bytes && data <= receiveBuffer.Contents())
      modifies this, receiveBuffer, mem
      ensures Valid() && Untouched(old(mem.heap), mem.heap, old(Ids(receiveBuffer.fragments)))
      ensures 0 < bytes <= old(receiveBuffer.size) ==>
                && inputs == old(inputs) + [data] && closed == old(closed)
                && |channel| == |old(channel)| + 1 && channel[..|old(channel)|] == old(channel)
      ensures !(0 < bytes <= old(receiveBuffer.size)) ==>
              closed && inputs == old(inputs) && channel == old(channel) && mem.heap == old(mem.heap)
    {
      hide Fragments.Valid;
      hide IsRope;
      hide Bytes;
      hide Total;
      hide AllSole;
      hide Delivered;
      hide Follows;
      hide Untouched;
      hide Disjoint;
      hide Ids;
      ghost var h, own := mem.heap, receiveBuffer.fragments;
      var buffer := new Buffer(mem);
      FromFresh(h, own);
      var sliced := receiveBuffer.SliceFront(buffer, bytes);
      FollowsUntouched(h, mem.heap, Ids(own));
      if !sliced {
        closed := true;
        return;
      }
      ghost var h1, own1 := mem.heap, receiveBuffer.fragments;
      PrefixIs(data, buffer.Contents(), receiveBuffer.Contents());
      OwnKept(h, h1, own, own1, Ids(own));
      SlicedOff(h, h1, own, own1, buffer.fragments, channel, inputs, data);
      channel, inputs := channel + [buffer.fragments], inputs + [data];
      ExpandReceiveBuffer();
      UntouchedOn(h, h1, mem.heap, Ids(own), {});
    }

    /** The consumer takes the first buffer out of the channel, and does what it likes with it. */
    method Take() returns (buffer: Buffer)
      requires Valid() && channel != []
      modifies this
      ensures Valid() && fresh(buffer) && buffer.mem == mem && buffer.Valid() && buffer.Contents() == old(inputs[0])
      ensures channel == old(channel[1..]) && inputs == old(inputs[1..]) && closed == old(closed)
      ensures Disjoint(receiveBuffer.fragments + Merged(channel), buffer.fragments)
    {
      hide Delivered;
      ChannelTaken(mem.heap, receiveBuffer.fragments, channel, inputs);
      buffer := new Buffer(mem);
      buffer.fragments, buffer.size := channel[0], Total(mem.heap, channel[0]);
      channel, inputs := channel[1..], inputs[1..];
    }
  }

  lemma OthersUntouched(h: Heap, h': Heap, own: seq<int>)
    requires Fragments.Valid(h) && Fragments.Valid(h') && OthersRead(h, h', own)
    ensures Untouched(h, h', Ids(own))
  {}

  lemma FollowsUntouched(h: Heap, h': Heap, s: set<int>)
    requires Follows(h, h', s)
    ensures Untouched(h, h', s)
  {}

  /** What the socket wrote was sliced off the front of the receive buffer, into the channel. */
  lemma SlicedOff(h: Heap, h': Heap, own: seq<int>, own': seq<int>, out: seq<int>, channel: seq<seq<int>>,
                  inputs: seq<seq<byte>>, data: seq<byte>)
    requires Delivered(h, own, channel, inputs) && Fragments.Valid(h') && Untouched(h, h', Ids(own))
    requires IsRope(h', own') && IsRope(h', out) && Disjoint(own', out) && Bytes(h', out) == data != []
    requires (forall f :: f in own' ==> f in own) && forall f :: f in out ==> f in own || f !in h.frags
    ensures Delivered(h', own', channel + [out], inputs + [data])
  {
    LinedParts(h, own, channel);
    RopeMembers(h, Merged(channel));
    DeliveredKept(h, h', own, own', channel, inputs);
    hide IsRope;
    hide Bytes;
    ChannelSent(h', own', channel, inputs, out, data);
  }

  lemma Expanded(h: Heap, own: seq<int>, raw: seq<byte>, channel: seq<seq<int>>, inputs: seq<seq<byte>>)
    requires Fragments.Valid(h) && IsRope(h, own) && AllSole(h, own) && Delivered(h, own, channel, inputs) && raw != []
    ensures Room(h, Created(h, raw), own, h.nextFrag, |raw|)
    ensures Delivered(Created(h, raw), own + [h.nextFrag], channel, inputs) && Untouched(h, Created(h, raw), {})
  {
    var h', n := Created(h, raw), h.nextFrag;
    RoomMade(h, own, raw);
    hide Fragments.Valid;
    hide IsRope;
    hide Delivered;
    hide Follows;
    hide AllSole;
    FollowsUntouched(h, h', {});
    Extended(h', own, n);
    DeliveredKept(h, h', own, own + [n], channel, inputs);
  }

  // ---------------------------------------------------------------- sending

  const MTU_SIZE := 1460

  /** How many writes of at most MTU_SIZE bytes `n` bytes take. */
  function Writes(n: nat): (w: nat)
    ensures MTU_SIZE * w >= n && MTU_SIZE * w < n + MTU_SIZE
  {
    (n + MTU_SIZE - 1) / MTU_SIZE
  }

  lemma WritesNext(n: nat)
    ensures n == 0 ==> Writes(n) == 0
    ensures n > 0 ==> Writes(n) == 1 + Writes(if n > MTU_SIZE then n - MTU_SIZE else 0)
  {}

  /** The front of the send buffer, or all of it, has been written. */
  lemma Shortened(h: Heap, h': Heap, own: seq<int>, own': seq<int>, queue: seq<seq<int>>)
    requires Lined(h, own, queue) && Fragments.Valid(h') && Follows(h, h', Ids(own)) && IsRope(h', own')
    requires forall f :: f in own' ==> f in own
    ensures Lined(h', own', queue) && Bytes(h', Merged(queue)) == Bytes(h, Merged(queue))
  {
    LinedParts(h, own, queue);
    hide Bytes;
    RopeMembers(h, Merged(queue));
    RopeKept(h, h', Merged(queue), Ids(own));
    RopeJoined(h', own', Merged(queue));
  }

  /** A line may shrink, and may gain fragments that did not exist. */
  ghost predicate NoForeign(h: Heap, before: seq<int>, now: seq<int>) {
    forall f :: f in now ==> f in before || f !in h.frags
  }

  lemma NoForeignFront(h: Heap, own: seq<int>, own': seq<int>, rest: seq<int>)
    requires forall f :: f in own' ==> f in own
    ensures NoForeign(h, own + rest, own' + rest)
  {}

  /** A fragment that is missing in `h'` was one of `own`. */
  lemma NoForeignOn(h: Heap, h': Heap, own: seq<int>, rest: seq<int>, now: seq<int>)
    requires Fragments.Valid(h) && Follows(h, h', Ids(own)) && NoForeign(h', rest, now)
    ensures NoForeign(h, own + rest, now)
  {
    forall f | f in now && f in h.frags
      ensures f in own + rest
    {
      assert InBlock(h.blocks, h.frags[f]);
    }
  }

  lemma StillApart(h: Heap, before: seq<int>, now: seq<int>, fs: seq<int>)
    requires NoForeign(h, before, now) && Disjoint(before, fs) && forall f :: f in fs ==> f in h.frags
    ensures Disjoint(now, fs) && Disjoint(fs, now)
  {}

  /** The fragments of a copy did not exist. */
  lemma NoForeignCopy(h: Heap, h': Heap, before: seq<int>, copy: seq<int>, now: seq<int>)
    requires Fragments.Valid(h) && Untouched(h, h', {}) && NoForeign(h', before + copy, now)
    requires forall f :: f in copy ==> f !in h.frags
    ensures NoForeign(h, before, now)
  {
    forall f | f in now && f in h.frags
      ensures f in before
    {
      assert InBlock(h.blocks, h.frags[f]);
      assert f in h'.frags;
    }
  }

  lemma NoForeignSelf(h: Heap, fs: seq<int>)
    ensures NoForeign(h, fs, fs)
  {}

  lemma LinedWhole(h: Heap, own: seq<int>)
    requires Fragments.Valid(h) && IsRope(h, own)
    ensures Lined(h, own, [])
  {
    assert own + [] == own;
  }

  lemma LinedHalves(h: Heap, own: seq<int>, rest: seq<int>)
    requires Fragments.Valid(h) && IsRope(h, own) && IsRope(h, rest) && Disjoint(own, rest) && rest != []
    ensures Lined(h, own, [rest]) && Merged([rest]) == rest
  {
    MergedOne(rest);
    RopeJoined(h, own, rest);
  }

  class Sender {
    const mem: Memory
    const sendBuffer: Buffer
    var sendPending: bool
    /** The buffers moved into the queue. */
    var sendWaitQueue: seq<seq<int>>
    var closed: bool
    /** The fragments the outstanding async_write reads from. */
    ghost var inFlight: Option<seq<int>>
    /** A write has failed, and no further one is issued. */
    ghost var failed: bool
    /** All bytes passed to Send, and all bytes the socket reported written, since the start. */
    ghost var sent: seq<byte>
    ghost var written: seq<byte>

    constructor (m: Memory)
      requires Fragments.Valid(m.heap)
      ensures mem == m && fresh(sendBuffer) && Valid() && sent == [] && written == []
      ensures !sendPending && !closed && !failed
    {
      mem, sendPending, sendWaitQueue, closed := m, false, [], false;
      inFlight, sent, written, failed := None, [], [], false;
      sendBuffer := new Buffer(m);
      new;
      LinedWhole(mem.heap, []);
    }

    ghost function Repr(): set<object> { {this, sendBuffer, mem} }

    ghost function Line(): seq<int>
      reads this, sendBuffer
    {
      sendBuffer.fragments + Merged(sendWaitQueue)
    }

    /** The bytes that wait behind the send buffer. */
    ghost function Waiting(): seq<byte>
      reads this, mem
    {
      Bytes(mem.heap, Merged(sendWaitQueue))
    }

    ghost predicate Ready()
      reads Repr()
    {
      && sendBuffer.mem == mem && sendBuffer.Valid() && Lined(mem.heap, sendBuffer.fragments, sendWaitQueue)
      && (inFlight.Some? ==> sendPending && inFlight.value == sendBuffer.fragments)
      && (sendPending && !closed && !failed ==> inFlight.Some?)
      && (if sendPending then 0 < sendBuffer.size <= MTU_SIZE else sendBuffer.fragments == [] && sendWaitQueue == [])
    }

    /** One FIFO stream; while a write is outstanding it is the only one, over the fragments of the send buffer. */
    ghost predicate Valid()
      reads Repr()
    {
      Ready() && written + sendBuffer.Contents() + Waiting() == sent
    }

    /** A buffer of its own to be sent. */
    ghost predicate Sendable(buffer: Buffer)
      reads Repr(), buffer
    {
      && buffer.mem == mem && buffer.Valid() && buffer.size > 0 && buffer != sendBuffer
      && Disjoint(Line(), buffer.fragments)
    }

    method WriteAsync()
      requires inFlight.None? && 0 < sendBuffer.size <= MTU_SIZE
      modifies this`inFlight
      ensures inFlight == Some(sendBuffer.fragments)
    {
      inFlight := Some(sendBuffer.fragments);
    }

    /** The bytes of the buffer follow all that was sent before, and a write in flight reads what it read. */
    method Send(buffer: Buffer)
      requires Valid() && Sendable(buffer)
      modifies Repr(), buffer
      ensures Valid() && sent == old(sent) + old(buffer.Contents()) && written == old(written) && closed == old(closed)
      ensures failed == old(failed) && sendPending && buffer.fragments == [] && buffer.size == 0
      ensures Follows(old(mem.heap), mem.heap, old(Ids(buffer.fragments)))
      ensures NoForeign(old(mem.heap), old(Line() + buffer.fragments), Line())
      ensures mem.heap.blocks.Keys <= old(mem.heap.blocks.Keys)
      ensures old(sendPending) ==>
                && mem.heap == old(mem.heap) && sendBuffer.fragments == old(sendBuffer.fragments)
                && inFlight == old(inFlight)
                && sendWaitQueue == old(sendWaitQueue) + [old(buffer.fragments)]
    {
      hide Fragments.Valid;
      hide IsRope;
      hide Lined;
      hide Bytes;
      hide Total;
      hide Follows;
      hide Disjoint;
      ghost var before, own, rest, last := written, sendBuffer.Contents(), Waiting(), buffer.Contents();
      sent := sent + last;
      SendAsync(buffer);
      assert before + own + rest + last == before + (own + rest + last);
      assert written + sendBuffer.Contents() + Waiting() == written + (sendBuffer.Contents() + Waiting());
    }

    /** A shallow copy of the buffer is sent: its bytes are shared from then on, and no older fragment is touched. */
    method SendCopy(buffer: Buffer)
      requires Valid() && Sendable(buffer)
      modifies Repr()
      ensures Valid() && sent == old(sent) + buffer.Contents() && written == old(written) && closed == old(closed)
      ensures failed == old(failed) && sendPending && buffer.Valid() && buffer.Contents() == old(buffer.Contents())
      ensures Untouched(old(mem.heap), mem.heap, {}) && NoForeign(old(mem.heap), old(Line()), Line())
      ensures Sendable(buffer) && mem.heap.blocks.Keys <= old(mem.heap.blocks.Keys)
    {
      hide Fragments.Valid;
      hide IsRope;
      hide Lined;
      hide Bytes;
      hide Total;
      hide Follows;
      hide Untouched;
      ghost var h, own, queue := mem.heap, sendBuffer.fragments, sendWaitQueue;
      NotEmpty(buffer);
      LinedParts(h, own, queue);
      var copy := buffer.ShallowCopy();
      ghost var h1, fs := mem.heap, copy.fragments;
      LineKept(h, h1, own, queue, {});
      LinedParts(h1, own, queue);
      LineMembers(h, own, queue);
      Send(copy);
      FollowsUntouched(h1, mem.heap, Ids(fs));
      UntouchedOn(h, h1, mem.heap, {}, Ids(fs));
      RopeUntouched(h, mem.heap, buffer.fragments, {});
      NoForeignCopy(h, h1, own + Merged(queue), fs, Line());
      RopeMembers(h, buffer.fragments);
      StillApart(h, own + Merged(queue), Line(), buffer.fragments);
    }

    method SendAsync(buffer: Buffer)
      requires Ready() && Sendable(buffer)
      modifies this`sendPending, this`sendWaitQueue, this`inFlight, sendBuffer, buffer, mem
      ensures buffer.fragments == [] && buffer.size == 0
      ensures Ready() && sendPending && Follows(old(mem.heap), mem.heap, old(Ids(buffer.fragments)))
      ensures NoForeign(old(mem.heap), old(Line() + buffer.fragments), Line())
      ensures mem.heap.blocks.Keys <= old(mem.heap.blocks.Keys)
      ensures sendBuffer.Contents() + Waiting() == old(sendBuffer.Contents() + Waiting() + buffer.Contents())
      ensures old(sendPending) ==>
                && mem.heap == old(mem.heap) && sendBuffer.fragments == old(sendBuffer.fragments)
                && inFlight == old(inFlight)
                && sendWaitQueue == old(sendWaitQueue) + [old(buffer.fragments)]
      ensures !old(sendPending) ==>
                && inFlight == Some(sendBuffer.fragments)
                && sendBuffer.size == if old(buffer.size) > MTU_SIZE then MTU_SIZE else old(buffer.size)
    {
      hide Fragments.Valid;
      hide IsRope;
      hide Lined;
      hide Bytes;
      hide Total;
      hide Follows;
      hide Disjoint;
      ghost var h, own, fs := mem.heap, sendBuffer.fragments, buffer.fragments;
      ghost var first, rest, last := sendBuffer.Contents(), Waiting(), buffer.Contents();
      NotEmpty(buffer);
      FollowsSelf(h, Ids(fs));
      if sendPending {
        Enqueued(h, own, sendWaitQueue, fs);
        LineGrows(h, own, sendWaitQueue, fs);
        sendWaitQueue := sendWaitQueue + [buffer.fragments];
        buffer.fragments, buffer.size := [], 0;
        assert first + (rest + last) == first + rest + last;
        return;
      }
      sendPending := true;
      NothingWaits(h);
      OwnApart(own, Merged(sendWaitQueue), fs);
      sendBuffer.MergeBack(buffer);
      assert sendBuffer.fragments == fs && sendBuffer.Contents() == last;
      assert first + rest + last == last;
      LinedWhole(h, fs);
      assert own + Merged([]) + fs == fs == fs + Merged([]);
      NoForeignSelf(h, fs);
      if sendBuffer.size > MTU_SIZE {
        KeepSegment();
      } else {
        assert last + [] == last;
      }
      WriteAsync();
    }

    /** The first segment stays in the send buffer, the rest waits. */
    method KeepSegment()
      requires sendBuffer.mem == mem && sendBuffer.Valid() && sendBuffer.size > MTU_SIZE && sendWaitQueue == []
      modifies this`sendWaitQueue, sendBuffer, mem
      ensures sendBuffer.Valid() && sendBuffer.size == MTU_SIZE && Lined(mem.heap, sendBuffer.fragments, sendWaitQueue)
      ensures sendBuffer.Contents() + Waiting() == old(sendBuffer.Contents())
      ensures Follows(old(mem.heap), mem.heap, old(Ids(sendBuffer.fragments)))
      ensures NoForeign(old(mem.heap), old(sendBuffer.fragments), Line())
      ensures mem.heap.blocks.Keys <= old(mem.heap.blocks.Keys)
    {
      hide Fragments.Valid;
      hide IsRope;
      hide Lined;
      hide Bytes;
      hide Total;
      hide Follows;
      hide Disjoint;
      hide Ids;
      ghost var own := sendBuffer.fragments;
      var temp := new Buffer(mem);
      FromFresh(mem.heap, own);
      var sliced := sendBuffer.SliceFront(temp, MTU_SIZE);
      assert sliced;
      NotEmpty(sendBuffer);
      temp.fragments, sendBuffer.fragments := sendBuffer.fragments, temp.fragments;
      temp.size, sendBuffer.size := sendBuffer.size, temp.size;
      Turned(temp.fragments, sendBuffer.fragments);
      LinedHalves(mem.heap, sendBuffer.fragments, temp.fragments);
      sendWaitQueue := [temp.fragments] + sendWaitQueue;
      assert sendWaitQueue == [temp.fragments];
    }

    /** The outstanding write completes, the socket says after `bytes` bytes. */
    method OnWriteAsync(bytes: int)
      requires Valid() && inFlight.Some?
      modifies Repr()
      ensures Valid() && sent == old(sent) && failed == old(failed)
      ensures Follows(old(mem.heap), mem.heap, old(Ids(Line()))) && NoForeign(old(mem.heap), old(Line()), Line())
      ensures mem.heap.blocks.Keys <= old(mem.heap.blocks.Keys)
      ensures closed == (old(closed) || !(0 < bytes <= old(sendBuffer.size)))
      ensures 0 < bytes <= old(sendBuffer.size) ==>
                bytes <= |old(sendBuffer.Contents())| && written == old(written) + old(sendBuffer.Contents())[..bytes]
      // no such part of the buffer: the session gives up
      ensures !(0 < bytes <= old(sendBuffer.size)) ==>
                && inFlight.None? && written == old(written) && mem.heap == old(mem.heap)
                && sendBuffer.fragments == old(sendBuffer.fragments) && sendWaitQueue == old(sendWaitQueue)
      // partly written: the rest is written again
      ensures 0 < bytes < old(sendBuffer.size) ==>
                && inFlight == Some(sendBuffer.fragments) && sendWaitQueue == old(sendWaitQueue)
                && bytes <= |old(sendBuffer.Contents())| && sendBuffer.Contents() == old(sendBuffer.Contents())[bytes..]
      // fully written: as much as fits of everything that waits
      ensures bytes == old(sendBuffer.size) ==>
                && sendPending == (|old(Waiting())| > 0) && sendBuffer.Contents() + Waiting() == old(Waiting())
                && sendBuffer.size == (if |old(Waiting())| > MTU_SIZE then MTU_SIZE else |old(Waiting())|)
                && inFlight == if sendPending then Some(sendBuffer.fragments) else None
    {
      hide Fragments.Valid;
      hide IsRope;
      hide Lined;
      hide Bytes;
      hide Total;
      hide Follows;
      hide Disjoint;
      ghost var h, own, queue := mem.heap, sendBuffer.fragments, sendWaitQueue;
      ghost var before, all, rest := written, sendBuffer.Contents(), Waiting();
      LinedParts(h, own, queue);
      inFlight := None;
      var sliced := DropFront(sendBuffer, bytes);
      FollowsWider(h, mem.heap, Ids(own), Ids(own + Merged(queue)));
      NoForeignFront(h, own, sendBuffer.fragments, Merged(queue));
      if !sliced {
        closed := true;
        return;
      }
      written := written + all[..bytes];
      assert before + all[..bytes] + all[bytes..] == before + all;
      Shortened(h, mem.heap, own, sendBuffer.fragments, queue);
      if sendBuffer.size > 0 {
        WriteAsync();
        return;
      }
      NoBytes(sendBuffer);
      ghost var h1 := mem.heap;
      SendWaiting();
      FollowsOn(h, h1, mem.heap, Ids(own + Merged(queue)), Ids(Merged(queue)));
      NoForeignOn(h, h1, own, Merged(queue), Line());
    }

    /** Nothing is left to write of the send buffer: as much as fits of everything that waits comes next. */
    method SendWaiting()
      requires sendBuffer.mem == mem && sendBuffer.Valid() && sendBuffer.size == 0 && inFlight.None?
      requires Lined(mem.heap, sendBuffer.fragments, sendWaitQueue)
      modifies this`sendPending, this`sendWaitQueue, this`inFlight, sendBuffer, mem
      ensures Ready() && sendPending == (|old(Waiting())| > 0) && sendBuffer.Contents() + Waiting() == old(Waiting())
      ensures sendBuffer.size == (if |old(Waiting())| > MTU_SIZE then MTU_SIZE else |old(Waiting())|)
      ensures inFlight == if sendPending then Some(sendBuffer.fragments) else None
      ensures Follows(old(mem.heap), mem.heap, old(Ids(Merged(sendWaitQueue))))
      ensures NoForeign(old(mem.heap), old(Merged(sendWaitQueue)), Line())
      ensures mem.heap.blocks.Keys <= old(mem.heap.blocks.Keys)
    {
      hide Fragments.Valid;
      hide IsRope;
      hide Lined;
      hide Bytes;
      hide Total;
      hide Follows;
      hide Disjoint;
      ghost var h, rest, all := mem.heap, Waiting(), Ids(Merged(sendWaitQueue));
      NoBytes(sendBuffer);
      LinedParts(h, [], sendWaitQueue);
      sendPending := false;
      sendBuffer.Clear();
      NoRope(mem.heap);
      Shortened(h, mem.heap, [], [], sendWaitQueue);
      FollowsWider(h, mem.heap, Ids([]), all);
      NoForeignSelf(h, []);
      assert [] + rest == rest;
      if sendWaitQueue != [] {
        var next := FlushSendWaitQueue();
        NothingWaits(mem.heap);
        LinedWhole(mem.heap, []);
        FromFresh(mem.heap, next.fragments);
        Turned(next.fragments, []);
        BufferLength(next);
        assert next.Contents() == rest;
        assert [] + [] + rest == rest;
        ghost var h1, waiting := mem.heap, next.fragments;
        SendAsync(next);
        FollowsOn(h, h1, mem.heap, all, all);
        assert [] + Merged([]) + waiting == waiting;
        NoForeignOn(h, h1, [], waiting, Line());
        assert [] + waiting == waiting;
      }
    }

    method FlushSendWaitQueue() returns (merged: Buffer)
      requires Lined(mem.heap, sendBuffer.fragments, sendWaitQueue)
      modifies this`sendWaitQueue
      ensures fresh(merged) && merged.mem == mem && merged.Valid()
      ensures merged.fragments == Merged(old(sendWaitQueue)) && sendWaitQueue == []
    {
      hide Fragments.Valid;
      hide IsRope;
      hide Lined;
      hide Bytes;
      hide Total;
      hide Disjoint;
      LinedParts(mem.heap, sendBuffer.fragments, sendWaitQueue);
      merged := new Buffer(mem);
      for i := 0 to |sendWaitQueue|
        invariant sendWaitQueue == old(sendWaitQueue) && fresh(merged) && merged.mem == mem && merged.Valid()
        invariant merged.fragments == Merged(sendWaitQueue[..i])
      {
        QueueItem(mem.heap, sendBuffer.fragments, sendWaitQueue, i);
        var buffer := new Buffer(mem);
        buffer.fragments, buffer.size := sendWaitQueue[i], Total(mem.heap, sendWaitQueue[i]);
        merged.MergeBack(buffer);
      }
      assert sendWaitQueue[..|sendWaitQueue|] == sendWaitQueue;
      sendWaitQueue := [];
    }

    /** A write fails: the error is reported and no further write is issued. */
    method OnWriteError()
      requires Valid() && inFlight.Some?
      modifies this
      ensures Valid() && failed && sent == old(sent) && written == old(written) && inFlight.None?
    {
      inFlight, failed := None, true;
    }

    /** With no new sends, the write in flight and one write per MTU_SIZE waiting bytes empty the session. */
    method Drain() returns (writes: nat)
      requires Valid() && inFlight.Some?
      modifies Repr()
      ensures Valid() && !sendPending && written == sent == old(sent) && closed == old(closed) && failed == old(failed)
      ensures writes == 1 + (|old(Waiting())| + 1459) / 1460
    {
      hide Lined;
      hide IsRope;
      hide Fragments.Valid;
      ghost var queued := |Waiting()|;
      writes := 0;
      while sendPending
        invariant Valid() && sent == old(sent) && closed == old(closed) && failed == old(failed)
        invariant sendPending ==> inFlight.Some?
        invariant writes + (if sendPending then 1 + Writes(|Waiting()|) else 0) == 1 + Writes(queued)
        decreases sendPending, |Waiting()|
      {
        WritesNext(|Waiting()|);
        OnWriteAsync(sendBuffer.size);
        BufferLength(sendBuffer);
        writes := writes + 1;
      }
      assert written + [] + [] == written;
    }
  }

  /** What the socket was given is the front of what was sent. */
  lemma WrittenIsSent(s: Sender)
    requires s.Valid()
    ensures s.written <= s.sent && (!s.sendPending ==> s.written == s.sent)
  {
    assert s.written <= s.written + s.sendBuffer.Contents() <= s.sent;
    if !s.sendPending {
      NothingWaits(s.mem.heap);
      assert s.written + [] + [] == s.written;
    }
  }

  lemma NotEmpty(b: Buffer)
    requires b.Valid() && b.size > 0
    ensures b.fragments != [] && IsRope(b.mem.heap, b.fragments)
  {}

  lemma NoBytes(b: Buffer)
    requires b.Valid() && b.size == 0
    ensures b.fragments == [] && b.Contents() == []
  {
    BytesLength(b.mem.heap, b.fragments);
  }

  lemma NothingWaits(h: Heap)
    ensures Merged([]) == [] && Bytes(h, []) == []
  {}

  lemma OwnApart(own: seq<int>, waiting: seq<int>, fs: seq<int>)
    requires Disjoint(own + waiting, fs)
    ensures Disjoint(own, fs)
  {
    assert forall f :: f in own ==> f in own + waiting;
  }

  lemma Turned(a: seq<int>, b: seq<int>)
    requires Disjoint(a, b)
    ensures Disjoint(b, a)
  {}
}

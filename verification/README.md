# zerosugar: verified models

A Dafny model of the concurrent, buffering and traversal code of the zerosugar game-server framework, and proofs of what
that code is for. `dafny verify dfyconfig.toml` checks everything. There is a group of modules per component:

- **Strand** (`Strand`, `StrandProofs`, `StrandProgress`, `StrandTrace`, `StrandTraceProofs`, `StrandTasks`): the serial
  executor on a thread pool. Its lock-protected sections and queue operations are steps of a machine with any number of
  threads, each a stack of frames; the class `Strand` performs the same sections in place. Every interleaving is a run.
  Proved: mutual exclusion, exact counting, no lost wakeup, FIFO order, no deadlock, a measure that bounds every run and
  leaves the strand at rest when it is used up, that what a thread does in any interleaving is what its program text says,
  and that no task is lost or run twice.
- **Behaviour tree** (`BehaviorTree`, `BehaviorTreeRun`): the explicit-stack traversal that suspends at leaves and is resumed,
  against the plain recursive evaluation `Eval`, for every tree of distinct nodes and every delay of every leaf. When a
  branch goes on and what a decorator makes of its child's answer are arbitrary, as in the virtual functions; sequence,
  selector, inverter and the two forcing decorators are constants.
- **Fragments and buffers** (`Fragment`, `Buffer`, `BufferWriter`): reference-counted blocks in a heap with aliasing, the rope
  over them, iteration, and the writer that doubles the buffer at its end.
- **Session** (`Session`, `Broadcast`): the receive buffer that the socket writes into while earlier slices of it are already
  handed out, and the send queue with one write in flight, both over the heap of shared blocks; and any number of sessions
  that are sent shallow copies of the same buffers, byte for byte, in any order of broadcasts and writes.
- **Wire format** (`Codec`, `Schema`, `SchemaLocality`, `StreamIO`, `PacketWriter`): the reads and writes that the code
  generators emit for a schema, on the stream reader and the two writers, with the exact set of values that survive a round
  trip, and what is read from bytes that are cut short or are no encoding.
- **RPC** (`Rpc`, `RpcBuffers`, `RpcClient`, `RpcWire`): framing a packet into a buffer, the client's two receive buffers over
  one heap, cutting received bytes into packets again, and the whole way from the server's packets to the client's dispatch,
  under any order of sends, partial writes and partial reads and with anything else going on in both memories.
- **Future** (`Future`, `FutureChain`): the completion race instruction by instruction, and chains of `Then` stages.
- **Chunky triangle mesh** (`ChunkyTriMesh`, `ChunkyTriMeshNodes`, `ChunkyTriMeshBuild`, `ChunkyTriMeshQuery`,
  `ChunkyTriMeshTriangles`): building the flat bounding-box tree in a preallocated array, and both queries with their
  escape jumps.
- **Navmesh pruning** (`NavMeshPrune`): the flood with persistent flags, and disabling what no click reaches.
- **Snowflake** (`Snowflake`): bit packing, sequence rollover and ids over whole runs of a generator.

Where the code and its promises differ, the model follows the code:

- A packet string longer than 32767 bytes or ending in a zero byte does not survive; nor does a string in a nested message
  longer than 32766 bytes. `Schemas.PacketString` and `Schemas.NestedString` give the exact conditions.
- A packet vector whose size field is negative is read as empty, in a nested message the read throws.
- A void `Get` after a failure returns normally exactly when another `Get` has taken the exception: `Futures.RunAnswers` for
  every run, and `Futures.ReturnsAfterFailure` shows one.
- Ids are ordered by the time since the epoch modulo 2^42, so they stop growing when it passes a multiple of that, and a
  clock behind the epoch wraps around: `Snowflakes.LaterIsLarger` gives the exact order, `Snowflakes.LimitPassed` who is
  smaller then, `Snowflakes.LimitReached` an instance.
- A store through a fragment that shares bytes with a queued buffer does change what is sent: `Buffers.RopeStored` says exactly
  when a store is seen by a buffer.
- A second `Finalize` of a behaviour tree does nothing, also when the tree has been run again in between.
- `NavmeshFlags::init` ends with `return false` also when it succeeds; its caller does not look.

## Model

| member | source | states |
|---|---|---|
| Strands.Strand.TryLockStep | zerosugar/shared/execution/executor/strand.cpp:16-28 | the locked section of try_lock: takes an unowned strand, and only that |
| Strands.Strand.ReleaseStep | zerosugar/shared/execution/executor/strand.cpp:30-48 | the section of release: one owner entry less, and whether tasks wait |
| Strands.Strand.PostStep | zerosugar/shared/execution/executor/strand.cpp:98-104 | the section of Post: the task is counted, and exactly the call that finds no flush posted owes one |
| Strands.Strand.EmplaceStep | zerosugar/shared/execution/executor/strand.cpp:106 | the queue push |
| Strands.Strand.DispatchStep | zerosugar/shared/execution/executor/strand.cpp:118-135 | inline exactly when called inside this strand and its owner list is empty or ends with the caller, who is then pushed; otherwise nothing changes |
| Strands.Strand.DispatchEndStep | zerosugar/shared/execution/executor/strand.cpp:148-161 | the section after an inline task |
| Strands.Strand.FlushStep | zerosugar/shared/execution/executor/strand.cpp:179-191 | a flush enters unless another thread owns the strand, and fixes its quota |
| Strands.Strand.TryPopStep | zerosugar/shared/execution/executor/strand.cpp:200-211 | the queue pop |
| Strands.Strand.FlushEndStep | zerosugar/shared/execution/executor/strand.cpp:213-228 | a flush leaves, subtracts its quota, and clears the posted flag exactly when nothing is left |
| StrandProofs.StepInv | zerosugar/shared/execution/executor/strand.cpp:16-233 | every step of every thread keeps exclusion, counting, wakeup and order |
| StrandProgress.ReachableSafe | zerosugar/shared/execution/executor/strand.cpp:16-233 | in every reachable state: one thread at most is inside and the owner list is its nesting depth; executed plus queued is enqueued; per-thread order; the count is queue plus what threads hold; posted exactly when the count is positive; a positive count has a flush pending, an owner, or a thread that owes a flush |
| StrandProgress.AssertionsHold | zerosugar/shared/execution/executor/strand.cpp:30-48 | the code's owner assertions hold wherever a thread is about to leave the strand |
| StrandProgress.NoDeadlock | zerosugar/shared/execution/executor/strand.cpp:177-233 | a state in which no thread can move is at rest: nothing owned, counted, posted or queued |
| StrandProgress.StepDecreases | zerosugar/shared/execution/executor/strand.cpp:96-233 | every step uses up some of a measure |
| StrandProgress.EveryRunDrains | zerosugar/shared/execution/executor/strand.cpp:96-233 | every schedule stops within the measure of its start, and then all posted tasks have been executed in order, each thread's in program order |
| StrandTraceProofs.StepTraced | zerosugar/shared/execution/executor/strand.cpp:96-233 | each step is the next move of what the thread's stack still has to do, and leaves the rest of it |
| StrandTraceProofs.FollowsProgram | zerosugar/shared/execution/executor/strand.cpp:96-233 | in every interleaving the moves of a thread on the shared state are those of its program text: a script's operations one after the other; a Dispatch inside the strand and not locked out enters, runs all of the task and leaves before what follows, any other posts; a flush takes the front of the queue and runs all of it before it takes the next; and a thread is idle if and only if its moves are all that its text asks for |
| StrandTasks.NothingLost | zerosugar/shared/execution/executor/strand.cpp:96-233 | over every run, how often a task is executed, run inline, passed over by a failed try_lock, and named in what is still to come, queue and stacks included, adds up to how often the initial scripts name it at any depth |
| StrandTasks.EveryTaskRuns | zerosugar/shared/execution/executor/strand.cpp:96-233 | at rest, the tasks executed and run inline are exactly all that the initial scripts name at any depth, but for the scopes of failed try_locks, and without exception when no try_lock is called |
| BehaviorTrees.StartKeeps | zerosugar/shared/ai/behavior_tree/behavior_tree.cpp:264-277 | entering a branch or decorator keeps: log so far plus what the stack still does is the recursive evaluation; a distance decreases |
| BehaviorTrees.ContinueKeeps | zerosugar/shared/ai/behavior_tree/behavior_tree.cpp:250-263 | so does handing out the next child |
| BehaviorTrees.EndKeeps | zerosugar/shared/ai/behavior_tree/behavior_tree.cpp:348-355 | so does a node that answers and is popped |
| BehaviorTrees.AllOrAny | zerosugar/shared/ai/behavior_tree/node/branch/sequence.cpp:5-18 | from any child on, a sequence succeeds if and only if all children that are left do, a selector if and only if one does |
| BehaviorTrees.Meaning | zerosugar/shared/ai/behavior_tree/node/decorator/inverter.cpp:5-10 | a sequence is a conjunction, a selector a disjunction, an inverter a negation, and the forcing decorators are constant |
| BehaviorTrees.Decided | zerosugar/shared/ai/behavior_tree/behavior_tree.cpp:250-277 | a branch runs its children in order up to the first whose answer ends it, or the last, answers what that one does, logs exactly theirs between its own start and end, and starts none after it |
| BehaviorTrees.Bracketed | zerosugar/shared/ai/behavior_tree/behavior_tree.cpp:348-355 | what a node logs begins with its start and ends with its end and its answer |
| BehaviorTreeRun.BehaviorTree.FinalizeTraverse | zerosugar/shared/ai/behavior_tree/behavior_tree.cpp:371-380 | exactly the visited nodes are reset |
| BehaviorTreeRun.BehaviorTree.Traverse | zerosugar/shared/ai/behavior_tree/behavior_tree.cpp:238-369 | ends with the evaluation's log and result and every node reset, or suspended at a leaf whose end is the evaluation's next event |
| BehaviorTreeRun.BehaviorTree.RunOnce | zerosugar/shared/ai/behavior_tree/behavior_tree.cpp:67-79 | starts a run afresh |
| BehaviorTreeRun.BehaviorTree.Resume | zerosugar/shared/ai/behavior_tree/behavior_tree.cpp:81-90 | goes on from the suspended leaf; another Running answer changes nothing |
| BehaviorTreeRun.BehaviorTree.NotifyAndResume | zerosugar/shared/ai/behavior_tree/behavior_tree.cpp:171-194 | an event nobody waits for changes nothing, one that is awaited resumes |
| BehaviorTreeRun.BehaviorTree.Finalize | zerosugar/shared/ai/behavior_tree/behavior_tree.cpp:149-169 | the first call makes the tree as good as new, at rest and at any suspension; any other changes nothing |
| BehaviorTreeRun.BehaviorTree.AwaitedEvent | zerosugar/shared/ai/behavior_tree/behavior_tree.cpp:310-346 | while a leaf is suspended the log is a proper prefix of the evaluation's and the next event is that leaf's end |
| BehaviorTreeRun.BehaviorTree.RunToEnd | zerosugar/shared/ai/behavior_tree/behavior_tree.cpp:67-90 | for any delays of the leaves, exactly as many resumes as the evaluated leaves are delayed produce exactly the recursive evaluation |
| BehaviorTreeRun.DelaysGrow | zerosugar/shared/ai/behavior_tree/behavior_tree.cpp:332-344 | of the leaves a call starts only the last may suspend |
| Fragments.CreateKeeps | zerosugar/shared/network/buffer/fragment.cpp:142-157 | a new block has one reference and the new fragment reads all of it |
| Fragments.SliceKeeps | zerosugar/shared/network/buffer/fragment.cpp:51-71 | the slice and the rest read as the front and the back of the old content; no other fragment changes |
| Fragments.CopyKeeps | zerosugar/shared/network/buffer/fragment.cpp:73-92 | the copy reads the same as the fragment, an invalid fragment copies to an empty one |
| Fragments.CopyShares | zerosugar/shared/network/buffer/fragment.cpp:73-92 | a copy makes no new block and its block has one owner more; a store at any place through the copy or through the original is read through both |
| Fragments.StoreSeen | zerosugar/shared/network/buffer/fragment.cpp:94-102 | a fragment sees a store if and only if its range covers the byte that was written, and then at that place |
| Fragments.SliceShares | zerosugar/shared/network/buffer/fragment.cpp:51-71 | slicing makes no new block, and an older fragment over the same bytes sees every store through the slice and through the rest |
| Fragments.MoveConstructKeeps | zerosugar/shared/network/buffer/fragment.cpp:8-13 | a move takes the content along and keeps the count |
| Fragments.MoveAssignKeeps | zerosugar/shared/network/buffer/fragment.cpp:15-29 | the old block is released, the other content taken over |
| Fragments.DestroyKeeps | zerosugar/shared/network/buffer/fragment.cpp:31-44 | the block is freed exactly when no other fragment holds it |
| Fragments.RunCounts | zerosugar/shared/network/buffer/fragment.cpp:8-157 | after any run of operations a block exists exactly while fragments hold it, and its count is their number |
| Fragments.RunApart | zerosugar/shared/network/buffer/fragment.cpp:51-71 | without shallow copies no two fragments ever share a byte |
| Fragments.PutKeeps | zerosugar/shared/network/buffer/fragment.cpp:94-102 | a store changes one byte of its fragment, and nothing in fragments apart from it |
| Fragments.StepUntouched | zerosugar/shared/network/buffer/fragment.cpp:8-157 | an operation leaves alone every fragment but its own, and for a store those that share bytes with its own |
| Fragments.StepSole | zerosugar/shared/network/buffer/fragment.cpp:8-157 | a fragment that shares its bytes with no other stays so, unless it is the one that is copied |
| Fragments.Memory.Create | zerosugar/shared/network/buffer/fragment.cpp:142-157 | allocates a block with one reference and its fragment |
| Fragments.Memory.ShallowCopy | zerosugar/shared/network/buffer/fragment.cpp:73-92 | a second fragment over the same range of the same block, which counts one owner more and is not copied; or an empty one for an invalid fragment |
| Fragments.Memory.MoveConstruct | zerosugar/shared/network/buffer/fragment.cpp:8-13 | the state after move construction |
| Fragments.Memory.Store | zerosugar/shared/network/buffer/fragment.cpp:94-102 | the state after a store through GetData |
| Fragments.Memory.SliceFront | zerosugar/shared/network/buffer/fragment.cpp:51-71 | slices exactly when the size is below the fragment's |
| Fragments.Memory.MoveAssign | zerosugar/shared/network/buffer/fragment.cpp:15-29 | the state after move assignment |
| Fragments.Memory.Destroy | zerosugar/shared/network/buffer/fragment.cpp:31-44 | the state after destruction |
| Buffers.Buffer.Add | zerosugar/shared/network/buffer/buffer.cpp:25-36 | appends the fragment's bytes; an invalid fragment is destroyed instead |
| Buffers.Buffer.TakeFront | zerosugar/shared/network/buffer/buffer.cpp:45-79 | the loop of SliceFront: takes the first bytes, splitting a fragment where needed, and disturbs no other fragment |
| Buffers.Buffer.SliceFront | zerosugar/shared/network/buffer/buffer.cpp:38-91 | succeeds exactly for 1 to size bytes; result and rest concatenate to the old contents; what result held before is released |
| Buffers.Buffer.MergeBack | zerosugar/shared/network/buffer/buffer.cpp:93-105 | contents and sizes are concatenated, the other buffer is left empty |
| Buffers.Buffer.ShallowCopy | zerosugar/shared/network/buffer/buffer.cpp:107-120 | a buffer with the same contents in new fragments over the same blocks, of which there is none more |
| Buffers.SameParts | zerosugar/shared/network/buffer/buffer.cpp:107-120 | in any heap, two buffers over the same parts of the same blocks, as a buffer and its shallow copy are, read the same, so that every store into those is seen through both |
| Buffers.Buffer.Clear | zerosugar/shared/network/buffer/buffer.cpp:127-131 | every fragment is destroyed |
| Buffers.Buffer.MoveAssign | zerosugar/shared/network/buffer/buffer.cpp:17-23 | takes the other's contents, releasing its own |
| Buffers.BytesLength | zerosugar/shared/network/buffer/buffer.cpp:211-218 | the sum of the fragment sizes is the number of bytes |
| Buffers.RopeUntouched | zerosugar/shared/network/buffer/buffer.cpp:38-120 | an operation that leaves the fragments of a buffer alone, as slicing, copying, clearing or assigning another buffer does, leaves its bytes alone |
| Buffers.RopeStep | zerosugar/shared/network/buffer/fragment.cpp:8-157 | no operation on other fragments, of the same blocks or not, changes the bytes of a buffer, but for a store into bytes it shares |
| Buffers.RopeAfter | zerosugar/shared/network/buffer/fragment.cpp:8-157 | nor does any run of such operations |
| Buffers.RopeStored | zerosugar/shared/network/buffer/fragment.cpp:94-102 | a store leaves the bytes of a buffer alone if and only if it writes the byte that is there or none of its fragments sees it |
| Buffers.DropFront | zerosugar/shared/network/session/session.cpp:277-288 | the first bytes are cut off into a local buffer and destroyed with it |
| BufferWriters.PositionReads | zerosugar/shared/network/buffer/buffer.cpp:293-321 | the byte under an iterator is the one at its position, and the end iterator is past the last byte |
| BufferWriters.Advance | zerosugar/shared/network/buffer/buffer.cpp:323-346 | operator++ moves on by one byte |
| BufferWriters.Iterate | zerosugar/shared/network/buffer/buffer.cpp:158-166 | iterating from begin to end yields the contents |
| BufferWriters.StoreInRope | zerosugar/shared/network/buffer/buffer_writer.cpp:31-32 | a store through an iterator changes one byte of the contents |
| BufferWriters.BufferStreamAdapter.PushBack | zerosugar/shared/network/buffer/buffer_writer.cpp:17-33 | the bytes written so far are a prefix of the contents; the capacity is the initial one or below twice what was written; other fragments read the same |
| BufferWriters.BufferStreamAdapter.Grow | zerosugar/shared/network/buffer/buffer_writer.cpp:19-29 | at the end, the buffer doubles |
| BufferWriters.BufferStreamAdapter.Overwrite | zerosugar/shared/network/buffer/buffer_writer.cpp:31-32 | writes the byte at the iterator's position and moves on |
| BufferWriters.Fill | zerosugar/shared/network/session/session.cpp:135-150 | a scatter read overwrites the front of the buffer and no fragment outside it |
| Sessions.Receiver.OnRead | zerosugar/shared/network/session/session.cpp:135-216 | each read joins the channel, every buffer in there still reads as it was delivered, and so do all fragments outside the receive buffer |
| Sessions.Receiver.HandleReceive | zerosugar/shared/network/session/session.cpp:160-186 | slices what was read, or closes the session when the size makes no sense |
| Sessions.Receiver.ExpandReceiveBuffer | zerosugar/shared/network/session/session.cpp:208-216 | at least the minimal size is always available for the next read |
| Sessions.DeliveredKept | zerosugar/shared/network/session/session.cpp:160-216 | slicing, filling and expanding the receive buffer change no delivered byte |
| Sessions.Receiver.Take | zerosugar/shared/network/session/session.cpp:198-206 | the consumer gets the oldest buffer of the channel, with the bytes delivered for it and no fragment of the session |
| Sessions.ReceiveStep | zerosugar/shared/network/session/session.cpp:135-216 | nothing that is done to buffers taken out of the channel, or to any others, disturbs the session |
| Sessions.Sender.Send | zerosugar/shared/network/session/session.cpp:44-50 | written plus send buffer plus queue is everything sent, in order; a write in flight keeps its fragments and their bytes; of all other fragments only the sent buffer's are touched; neither closed nor failed changes |
| Sessions.Sender.SendCopy | zerosugar/xr/server/game/client/game_client.cpp:56 | a shallow copy is sent: the buffer stays as it was and no older fragment is touched |
| Sessions.Sender.SendAsync | zerosugar/shared/network/session/session.cpp:218-252 | starts a write of at most 1460 bytes when none is pending and puts the rest in front of the queue, and queues otherwise |
| Sessions.Sender.KeepSegment | zerosugar/shared/network/session/session.cpp:235-249 | of a buffer longer than 1460 bytes the first 1460 stay to be written and the rest waits |
| Sessions.Sender.OnWriteAsync | zerosugar/shared/network/session/session.cpp:254-317 | what was written is removed; the rest of a partial write is written again; a full write goes on with all that waits; an impossible size closes |
| Sessions.Sender.SendWaiting | zerosugar/shared/network/session/session.cpp:310-317 | the next write takes as much as fits of everything that waits |
| Sessions.Sender.FlushSendWaitQueue | zerosugar/shared/network/session/session.cpp:319-333 | one buffer with the waiting buffers' fragments in order, and an empty queue |
| Sessions.Sender.OnWriteError | zerosugar/shared/network/session/session.cpp:350-366 | after an error no write is in flight, and what was sent and what was written stay as they were |
| Sessions.Sender.Drain | zerosugar/shared/network/session/session.cpp:254-333 | with no new sends, the write in flight and ceil(Q/1460) more full writes empty a session with Q queued bytes |
| Sessions.WritesNext | zerosugar/shared/network/session/session.cpp:230-249 | each further write takes one full segment or the rest |
| Sessions.LineStep | zerosugar/shared/network/session/session.cpp:218-333 | no operation on other fragments, even of the same blocks, changes what a session has to send, but for a store into bytes it shares |
| Sessions.LineAfter | zerosugar/shared/network/session/session.cpp:218-333 | nor does any run of such operations |
| Broadcasts.CopyTo | zerosugar/xr/server/game/client/game_client.cpp:56 | of many sessions one sends a shallow copy of a buffer, which takes no new block, and the others keep all they have to send |
| Broadcasts.WriteOf | zerosugar/shared/network/session/session.cpp:254-317 | of many sessions that may share all their bytes one completes a write, which takes no new block, and the others keep all they have to send |
| Broadcasts.Discard | zerosugar/shared/network/buffer/fragment.cpp:31-44 | the broadcast buffer is destroyed, and all sessions keep all they have to send |
| Broadcasts.Broadcast | zerosugar/xr/server/game/instance/snapshot/game_snapshot_view.cpp:167-189 | a buffer is built, sent to every session it is for and destroyed, with one new block at most for all of them |
| Broadcasts.Serve | zerosugar/xr/server/game/instance/snapshot/game_snapshot_view.cpp:167-189 | in any order of broadcasts and writes of any sizes, every session is sent all that was broadcast to it and its socket has been given the front of that |
| Broadcasts.ServeAll | zerosugar/xr/server/game/instance/snapshot/game_snapshot_view.cpp:167-189 | when the writes have come to an end, every socket has been given exactly all that was broadcast to its session, in order |
| Codecs.IntRoundTrip | zerosugar/shared/io/stream_writer.h:58-66 | an integer written low byte first reads back, cut to its width in two's complement |
| StreamIO.StreamReader.ReadInt | zerosugar/shared/io/stream_reader.h:136-160 | byte by byte in the integer's own arithmetic, reads the little-endian value, or throws and reads nothing |
| StreamIO.StreamReader.ReadRaw | zerosugar/shared/io/stream_reader.h:162-184 | reads the bytes of a floating point value |
| StreamIO.StreamReader.ReadString | zerosugar/shared/io/stream_reader.h:207-238 | reads the given number of bytes and drops a zero at the end |
| StreamIO.StreamReader.ReadTerminated | zerosugar/shared/io/stream_reader.h:186-205 | reads up to the first zero; without one, reads nothing |
| StreamIO.StreamReader.Skip | zerosugar/shared/io/stream_reader.h:260-278 | skips, or throws and stays; a size of zero or less is ignored |
| StreamIO.StreamWriter.WriteString | zerosugar/shared/io/stream_writer.h:69-76 | appends the bytes and a zero |
| StreamIO.StreamWriter.WriteInt | zerosugar/shared/io/stream_writer.h:58-66 | appends the integer's bytes, low byte first |
| StreamIO.StreamWriter.WriteBuffer | zerosugar/shared/io/stream_writer.h:78-83 | appends the bytes |
| StreamIO.SerializeField | zerosugar/tool/proto_code_generator/writer/xr_message_writer.cpp:199-228 | the emitted write of one field of a message |
| StreamIO.SerializeString | zerosugar/tool/proto_code_generator/writer/xr_message_writer.cpp:219-223 | length and bytes of a string in a message, counting and writing a zero |
| StreamIO.SerializeItems | zerosugar/shared/network/buffer/buffer_writer.h:97-104 | the items of a vector in a message, in order |
| StreamIO.SerializeFields | zerosugar/tool/proto_code_generator/writer/xr_message_writer.cpp:188-229 | the emitted Serialize of a message: the fields in order |
| PacketWriters.PacketWriter.WriteString | zerosugar/xr/network/packet_writer.cpp:7-17 | length and bytes of a string |
| PacketWriters.PacketWriter.WriteObject | zerosugar/xr/network/packet_writer.cpp:34-46 | a message is written through a buffer of its own, which doubles as needed and is gone afterwards: exactly its encoding is appended and no older fragment changes |
| PacketWriters.PacketWriter.WriteItems | zerosugar/tool/proto_code_generator/writer/xr_packet_writer.cpp:259-265 | the items of a vector, in order |
| PacketWriters.PacketWriter.WriteField | zerosugar/tool/proto_code_generator/writer/xr_packet_writer.cpp:247-270 | the emitted write of one field of a packet |
| PacketWriters.PacketWriter.WriteFields | zerosugar/tool/proto_code_generator/writer/xr_packet_writer.cpp:235-270 | the emitted Serialize of a packet: the fields in order |
| PacketWriters.PushAll | zerosugar/shared/network/buffer/buffer_writer.cpp:17-33 | bytes of any number are pushed, the fragments added for them are new, and no fragment from before changes |
| StreamIO.DeserializeField | zerosugar/tool/proto_code_generator/writer/xr_message_writer.cpp:154-181 | the emitted read of one field, or its exception |
| StreamIO.DeserializeString | zerosugar/xr/network/packet_reader.cpp:10-19 | length, then that many bytes |
| StreamIO.DeserializeVector | zerosugar/shared/network/buffer/buffer_reader.h:25-44 | in messages a negative count throws |
| StreamIO.DeserializeItems | zerosugar/tool/proto_code_generator/writer/xr_packet_writer.cpp:220-223 | the emitted loop over a vector |
| StreamIO.DeserializeFields | zerosugar/tool/proto_code_generator/writer/xr_packet_writer.cpp:201-229 | the emitted Deserialize: the fields in order, sizes taken from fields already read |
| Schemas.PacketString | zerosugar/xr/network/packet_writer.cpp:7-17 | a packet's string survives if and only if it has at most 32767 bytes and no zero at the end |
| Schemas.NestedString | zerosugar/tool/proto_code_generator/writer/xr_message_writer.cpp:219-223 | a message's string survives if and only if it has at most 32766 bytes |
| Schemas.RoundTrip | zerosugar/tool/proto_code_generator/writer/xr_message_writer.cpp:141-230 | for every well-formed type and every value: if encodable, the value comes back and exactly its bytes are consumed, through nested messages and vectors; if not, it does not come back |
| Schemas.FieldsRoundTrip | zerosugar/tool/proto_code_generator/writer/xr_packet_writer.cpp:188-271 | the same for the fields of a packet, from any field on |
| SchemaLocality.DecodeLocal | zerosugar/tool/proto_code_generator/writer/xr_packet_writer.cpp:201-229 | on any bytes at all, for every type: the bytes a value was read from are a front of what there was, and the same value is read from them whatever else follows |
| SchemaLocality.FieldsLocal | zerosugar/tool/proto_code_generator/writer/xr_packet_writer.cpp:201-229 | the same for the fields of a packet or message, from any field on |
| SchemaLocality.CutShort | zerosugar/shared/io/stream_reader.h:136-160 | every proper prefix of the encoding of an encodable value makes the reader throw, so that none is the front of another |
| SchemaLocality.NoString | zerosugar/xr/network/packet_reader.cpp:10-19 | a string length of zero or less is read as the empty string |
| SchemaLocality.NegativeCount | zerosugar/shared/network/buffer/buffer_reader.h:25-44 | a negative number of items throws in a message, whether counted or taken from a field, and is none in a packet |
| Rpc.FrameStarts | zerosugar/xr/network/rpc/rpc_packet_builder.cpp:17-25 | the first integer of a frame is the size of the whole frame |
| Rpc.FrameRoundTrip | zerosugar/tool/proto_code_generator/writer/xr_packet_writer.cpp:276-305 | CreateFrom reads back the packet that was framed, up to the end of the frame |
| Rpc.CutShortThrows | zerosugar/tool/proto_code_generator/writer/xr_packet_writer.cpp:276-305 | CreateFrom throws on every packet of which the end is missing |
| Rpc.UnknownOpcode | zerosugar/tool/proto_code_generator/writer/xr_packet_writer.cpp:276-305 | for an opcode that no packet type has, CreateFrom gives no packet and reads nothing more |
| Rpc.ToBuffer | zerosugar/xr/network/rpc/rpc_packet_builder.cpp:9-29 | the buffer contains exactly the frame, its fragments are new, and all older fragments are there and read the same |
| Rpc.WriteAll | zerosugar/xr/network/rpc/rpc_packet_builder.cpp:24-26 | bytes that fit are written without growing the buffer or touching other fragments |
| RpcBuffers.ReceiveBuffers.Read | zerosugar/xr/network/rpc/rpc_client.cpp:197 | the bytes from cbegin() to cend() are what came in |
| RpcBuffers.ReceiveBuffers.Expand | zerosugar/xr/network/rpc/rpc_client.cpp:175 | room is added at the end, and what came in stays |
| RpcBuffers.ReceiveBuffers.Receive | zerosugar/xr/network/rpc/rpc_client.cpp:182-193 | the bytes the socket wrote into the shared blocks move to the end of what came in, which reads as before |
| RpcBuffers.ReceiveBuffers.Drop | zerosugar/xr/network/rpc/rpc_client.cpp:210-212 | the front of what came in is cut off and destroyed, the rest and the free room stay |
| RpcBuffers.OwnsStep | zerosugar/xr/network/rpc/rpc_client.cpp:168-212 | nothing that is done to other fragments disturbs the two buffers, unless it copies one the socket writes into or stores into shared bytes |
| RpcClients.RpcClient.MakeRoom | zerosugar/xr/network/rpc/rpc_client.cpp:173-176 | every read has room for at least four bytes: 4096 bytes are added exactly when there is less |
| RpcClients.RpcClient.Create | zerosugar/tool/proto_code_generator/writer/xr_packet_writer.cpp:276-305 | the packet of the opcode, no packet for an unknown opcode, or the exception of Deserialize |
| RpcClients.RpcClient.ReadFront | zerosugar/xr/network/rpc/rpc_client.cpp:197-208 | reading the buffer front finds too little, a frame that does not read as it says, or its packet |
| RpcClients.RpcClient.Next | zerosugar/xr/network/rpc/rpc_client.cpp:195-212 | one turn of the inner loop cuts off the front packet, makes room for an incomplete one, 4096 bytes and its size more, or fails |
| RpcClients.CutStream | zerosugar/xr/network/rpc/rpc_client.cpp:195-212 | any prefix of a stream of frames is cut into the packets it holds completely, leaving a proper prefix of the next frame |
| RpcClients.WrongSize | zerosugar/xr/network/rpc/rpc_client.cpp:195-212 | a packet under a size that is not its own is never dispatched: the client waits for as many bytes as that says, and then fails |
| RpcClients.UnknownPacket | zerosugar/xr/network/rpc/rpc_client.cpp:197-208 | the same for a packet type that the protocol does not have |
| RpcClients.RpcClient.OnReceive | zerosugar/xr/network/rpc/rpc_client.cpp:180-212 | one read into the two buffers and the inner loop, which ends, do what cutting the received bytes says, failures included |
| RpcClients.RpcClient.OnFrames | zerosugar/xr/network/rpc/rpc_client.cpp:168-212 | each read keeps the dispatched packets in step with those sent |
| RpcClients.RpcClient.ReceiveSome | zerosugar/xr/network/rpc/rpc_client.cpp:171-212 | one turn of the outer loop takes in as much of what is on its way as arrives and has room |
| RpcClients.RpcClient.Run | zerosugar/xr/network/rpc/rpc_client.cpp:168-212 | however the bytes of the frames are divided, exactly the packets sent are dispatched, in order, and nothing is left in the buffers |
| RpcWire.SendPacket | zerosugar/xr/network/rpc/rpc_server.cpp:96-99 | the frame of the packet follows all that was sent before |
| RpcWire.Connection.Post | zerosugar/xr/network/rpc/rpc_server.cpp:96-99 | sending the next packet keeps sender, wire and client in step |
| RpcWire.Connection.Write | zerosugar/shared/network/session/session.cpp:254-317 | so does a write of any size, which puts the bytes read from the send buffer on the wire |
| RpcWire.Connection.Arrive | zerosugar/xr/network/rpc/rpc_client.cpp:171-212 | so does the arrival of any part of the wire |
| RpcWire.Connection.DoAtServer | zerosugar/shared/network/buffer/fragment.cpp:8-157 | so does any operation on the server's memory that leaves the session's fragments alone |
| RpcWire.Connection.Happen | zerosugar/xr/network/rpc/rpc_client.cpp:168-212 | in every order of these, what the client has dispatched is the front of the packets posted so far |
| RpcWire.Connection.Exchange | zerosugar/xr/network/rpc/rpc_client.cpp:168-212 | and when at last all is posted, written and received, exactly the frames went over the wire and exactly the packets were dispatched, in order |
| Futures.SharedContext.CompleteWith | zerosugar/shared/execution/future/shared_context.cpp:27-131 | OnSuccess, OnFailure and Cancel are these instructions |
| Futures.SharedContext.SetContinuation | zerosugar/shared/execution/future/shared_context.cpp:78-94 | SetContinuation is these instructions |
| Futures.SharedContext.Get | zerosugar/shared/execution/future/shared_context.h:111-148 | Get is these instructions |
| Futures.StepInv | zerosugar/shared/execution/future/shared_context.cpp:22-156 | every instruction of every thread keeps the context and all threads in agreement |
| Futures.RunSafe | zerosugar/shared/execution/future/shared_context.cpp:27-156 | at every moment: one winner; the continuation has run at most once and never while pending; one Get at most has the winner's outcome |
| Futures.RunAnswers | zerosugar/shared/execution/future/shared_context.h:111-148 | in every run, how a Get ends is settled by the winner and by whether another Get took the outcome: a void Get after a failure returns normally if and only if another took the exception |
| Futures.ReturnsAfterFailure | zerosugar/shared/execution/future/shared_context.cpp:133-156 | for every exception there is a run in which one void Get rethrows it and another returns normally |
| Futures.NeverUnset | zerosugar/shared/execution/future/shared_context.h:121-142 | a Get that saw Complete and holds the mutex finds the outcome stored, or taken by another Get, and how it then ends |
| Futures.StepDecreases | zerosugar/shared/execution/future/shared_context.cpp:22-156 | every instruction brings the end nearer |
| Futures.RunSettles | zerosugar/shared/execution/future/shared_context.cpp:27-131 | when no thread can go on, all are done, exactly one completer has won and the continuation has run exactly once |
| FutureChains.StepInv | zerosugar/shared/execution/future/future.h:138-193 | every registration, completion, cancellation and job step leaves each stage between its two futures |
| FutureChains.CalledOnce | zerosugar/shared/execution/future/future.h:155-187 | a callable is called at most once, with its future's value |
| FutureChains.QuietIsDone | zerosugar/shared/execution/future/future.h:138-193 | when nothing is left to do every stage has completed; a future that is not canceled ended with what its callable makes of the value before, its exception included, with the exception before, or after a cancellation with the aborted exception; the callable was called with that value, and not at all without one |
| FutureChains.StretchReturns | zerosugar/shared/execution/future/future.h:155-187 | an uncanceled stretch of callables that all return ends with their composition on the value before it |
| FutureChains.ThrownPasses | zerosugar/shared/execution/future/future.h:155-187 | an exception goes on unchanged to the end of an uncanceled stretch, and none of its callables is called |
| FutureChains.RunFolds | zerosugar/shared/execution/future/future.h:138-193 | the result of an uncanceled stretch is the fold of its callables in the error monad, and after a cancellation the aborted exception |
| FutureChains.RunIsBounded | zerosugar/shared/execution/future/future.h:138-193 | every order of jobs ends |
| ChunkyTriMeshNodes.NodeArraySuffices | zerosugar/xr/navigation/RecastDemo/ChunkyTriMesh.cpp:145-147 | halving n triangles makes fewer than 4 ceil(n/k) nodes |
| ChunkyTriMeshNodes.HalvedSize | zerosugar/xr/navigation/RecastDemo/ChunkyTriMesh.cpp:85-134 | the number of nodes depends on n and k only |
| ChunkyTriMeshBuild.CalcExtends | zerosugar/xr/navigation/RecastDemo/ChunkyTriMesh.cpp:53-72 | the least box around the items |
| ChunkyTriMeshBuild.CopyTriangles | zerosugar/xr/navigation/RecastDemo/ChunkyTriMesh.cpp:97-109 | a leaf's triangles are copied in order |
| ChunkyTriMeshBuild.SortRange | zerosugar/xr/navigation/RecastDemo/ChunkyTriMesh.cpp:119-128 | the range is sorted along the axis, the rest untouched |
| ChunkyTriMeshBuild.SortAndSplit | zerosugar/xr/navigation/RecastDemo/ChunkyTriMesh.cpp:119-128 | the range is sorted and split in half along the longer side of the box: no item of the left half has a larger lower bound there than one of the right |
| ChunkyTriMeshBuild.Subdivide | zerosugar/xr/navigation/RecastDemo/ChunkyTriMesh.cpp:79-137 | with room for the subtree, exactly its pre-order form is written: escape indices are subtree sizes, boxes the least around the items below, across each split of a box that is wider in x no item on the left begins right of one on the right, in y likewise, leaf ranges partition the output |
| ChunkyTriMeshQuery.TriangleBounds | zerosugar/xr/navigation/RecastDemo/ChunkyTriMesh.cpp:168-182 | the least box around the three corners, in x and z of the vertices |
| ChunkyTriMeshQuery.MakeItems | zerosugar/xr/navigation/RecastDemo/ChunkyTriMesh.cpp:159-183 | one item per triangle, in order, with the triangle's bounds |
| ChunkyTriMeshQuery.LargestLeaf | zerosugar/xr/navigation/RecastDemo/ChunkyTriMesh.cpp:189-198 | the largest triangle count of a leaf |
| ChunkyTriMeshQuery.Create | zerosugar/xr/navigation/RecastDemo/ChunkyTriMesh.cpp:142-201 | the mesh holds a halved tree over all triangles, split along the longer sides, never runs out of nodes, and knows its largest leaf |
| ChunkyTriMeshQuery.LeafHolds | zerosugar/xr/navigation/RecastDemo/ChunkyTriMesh.cpp:97-109 | of every leaf in the array, the range of output triangles it names holds exactly its items' triangles, and its box is the least around them |
| ChunkyTriMeshTriangles.NoTriangleLost | zerosugar/xr/navigation/RecastDemo/ChunkyTriMesh.cpp:97-109 | the output triangles are a permutation of the input triangles |
| ChunkyTriMeshQuery.RectMonotone | zerosugar/xr/navigation/RecastDemo/ChunkyTriMesh.cpp:204-211 | a box that overlaps the rectangle does so through every box around it |
| ChunkyTriMeshQuery.SegmentMonotone | zerosugar/xr/navigation/RecastDemo/ChunkyTriMesh.cpp:249-281 | a box the segment test hits is hit through every box around it, the epsilon cut-off included |
| ChunkyTriMeshQuery.RectMeaning | zerosugar/xr/navigation/RecastDemo/ChunkyTriMesh.cpp:204-211 | valid boxes overlap if and only if some point lies in both |
| ChunkyTriMeshQuery.SegmentMeaning | zerosugar/xr/navigation/RecastDemo/ChunkyTriMesh.cpp:249-281 | the slab test holds if and only if some parameter from 0 to 1 puts the segment in the box on both axes, an axis along which it moves by less than the epsilon counted as standing still |
| ChunkyTriMeshQuery.EscapeIsSafe | zerosugar/xr/navigation/RecastDemo/ChunkyTriMesh.cpp:238-242 | an escape jump stays in the array and skips no leaf that the scan would report |
| ChunkyTriMeshQuery.GetChunksOverlappingRect | zerosugar/xr/navigation/RecastDemo/ChunkyTriMesh.cpp:213-245 | exactly the first maxIds leaves, in order, whose box shares a point with the rectangle |
| ChunkyTriMeshQuery.GetChunksOverlappingSegment | zerosugar/xr/navigation/RecastDemo/ChunkyTriMesh.cpp:283-315 | exactly the first maxIds leaves, in order, whose box the segment meets |
| NavMeshPrune.FloodNavmesh | zerosugar/xr/navigation/RecastDemo/NavMeshPruneTool.cpp:132-167 | terminates, and adds exactly the polygons that can be reached from the start |
| NavMeshPrune.VisitLinks | zerosugar/xr/navigation/RecastDemo/NavMeshPruneTool.cpp:155-166 | all neighbours of a polygon become visited; each push marks a new polygon |
| NavMeshPrune.ClosedReaches | zerosugar/xr/navigation/RecastDemo/NavMeshPruneTool.cpp:132-167 | a set closed under links contains what can be reached from it |
| NavMeshPrune.NavMeshPruneTool.HandleClick | zerosugar/xr/navigation/RecastDemo/NavMeshPruneTool.cpp:232-260 | the flagged polygons are always those that can be reached from some click |
| NavMeshPrune.NavMeshPruneTool.PruneUnselected | zerosugar/xr/navigation/RecastDemo/NavMeshPruneTool.cpp:224-229 | exactly the polygons no click reaches are disabled, and no other flag changes |
| NavMeshPrune.NavMeshPruneTool.ClearSelection | zerosugar/xr/navigation/RecastDemo/NavMeshPruneTool.cpp:219-222 | nothing is flagged, as if nothing had been clicked |
| NavMeshPrune.NavMeshPruneTool.DisableUnvisitedPolys | zerosugar/xr/navigation/RecastDemo/NavMeshPruneTool.cpp:169-187 | sets the disabled flag of exactly the unvisited polygons |
| NavMeshPrune.NavmeshFlags.ClearAllFlags | zerosugar/xr/navigation/RecastDemo/NavMeshPruneTool.cpp:100-108 | no polygon is flagged |
| NavMeshPrune.NavmeshFlags.constructor | zerosugar/xr/navigation/RecastDemo/NavMeshPruneTool.cpp:66-98 | flags for the polygons of every tile with a header, none set |
| NavMeshPrune.NavmeshFlags.SetFlags | zerosugar/xr/navigation/RecastDemo/NavMeshPruneTool.cpp:120-128 | flags that polygon and no other |
| Snowflakes.FieldsReadBack | zerosugar/shared/snowflake/snowflake.h:111-115 | every field of an id can be read back; the time exactly when it is below 2^42 |
| Snowflakes.MinusIs | zerosugar/shared/snowflake/snowflake.h:111-115 | the time in an id is the distance from the epoch, exact from the epoch on and wrapped around before it |
| Snowflakes.SameId | zerosugar/shared/snowflake/snowflake.h:111-115 | ids are equal if and only if all fields are, times modulo 2^42 |
| Snowflakes.LaterIsLarger | zerosugar/shared/snowflake/snowflake.h:111-115 | one id is smaller than another if and only if its time, modulo 2^42, and then its number is |
| Snowflakes.LimitPassed | zerosugar/shared/snowflake/snowflake.h:111-115 | of two moments in order the later has the larger id when no multiple of the limit lies between them, and the smaller one when a multiple does and they are less than the limit apart |
| Snowflakes.LimitReached | zerosugar/shared/snowflake/snowflake.h:111-115 | an instance: the first id at the limit is smaller than the last before it |
| Snowflakes.SameParts | zerosugar/shared/snowflake/snowflake.h:65-69 | the one-argument constructor gives the same fields if and only if the ids agree modulo 1024 |
| Snowflakes.Snowflake.FromUniqueID | zerosugar/shared/snowflake/snowflake.h:65-69 | machine and data centre from the low ten bits |
| Snowflakes.NeverCollide | zerosugar/shared/snowflake/snowflake.h:71-78 | generators that differ in machine or data centre never make the same id |
| Snowflakes.RunsDisjoint | zerosugar/shared/snowflake/snowflake.h:71-116 | whole runs of such generators share no id, whatever their clocks and epochs |
| Snowflakes.Snowflake.Generate | zerosugar/shared/snowflake/snowflake.h:80-116 | the pair of time and number grows with every id; the number is 0 in a new millisecond and one more within the same, and exactly after number 4095 the clock is waited for, up to the first moment it moves on |
| Snowflakes.Snowflake.GenerateMany | zerosugar/shared/snowflake/snowflake.h:80-116 | any run's ids are the generator's own, made at increasing moments; any two of them grow if and only if their times modulo 2^42, and then their numbers, do; from the epoch to the limit the whole run grows |
| Snowflakes.RunGrows | zerosugar/shared/snowflake/snowflake.h:80-116 | of the ids of a run one is smaller than another if and only if its time since the epoch, modulo 2^42, and then its number is |
| Snowflakes.RunWithinLimit | zerosugar/shared/snowflake/snowflake.h:80-116 | from the epoch to the limit a later id is larger |

## Left out

- Integer widths of counters, sizes and clock readings: `_taskCount`, buffer sizes, node indices, vector counts and milliseconds are unbounded; only what goes over the wire and into ids is cut to its width.
- `ExecutionContext::GetExecutor` on an empty stack reads past a vector; the model takes the answer "not this strand".
- Dispatch of a task to a strand whose pool would run jobs inline: pool threads take flush jobs only when idle.
- Empty `try_pop` polls of a flush are no steps, and no fairness is assumed: the bound counts the other steps.
- Behaviour-tree cursors and coroutine handles are maps keyed by node instead of fields of node objects; one answer per leaf and run; concrete leaves, the blackboard and XML loading are not part of this model.
- `BehaviorTree::Signal`, `Notify` and stop requests: they only store callbacks and flags around the traversal.
- ReadBuffer and SetOffset of the stream reader: the first does nothing on a short stream, the second subtracts its offset twice and no emitted code calls it.
- Fragments live in a heap of maps keyed by identity instead of raw pointers; moving fragments between containers hands over their identity.
- Fragments.Memory.SliceFront: no size below zero, which the code does not refuse but no caller passes.
- Sockets, strands and logging around the session and the RPC client: reads arrive as byte pieces and write completions as sizes, and a local buffer is destroyed when it is last used instead of at the end of its block.
- The bytes that a message's Serialize pushes into a buffer are collected first and then pushed one by one.
- A failed assertion, an exception and a missing packet all end the RPC client's run, and the handlers of single packets are not modelled; the packet reader is given the bytes of one whole iteration.
- Maps, fixed char arrays, vectors of strings or of enums and the header text of the generators: unsupported by, or textual in, the emitted code.
- `SharedContext::Reset` and waking several waiters; coroutine awaiting; `ContinuationWith`, which differs from `Then` only in handing the future itself to the callable.
- FutureChains.StepInv: completing a context is one action there, as the race in `Futures` justifies, and no other code calls Get on the chained futures.
- Coordinates of the triangle mesh are real numbers instead of floats, and qsort's order of equal keys is that of an insertion sort.
- `rcCreateChunkyTriMesh` with failing allocations or a negative triangle count.
- Polygon links are lists instead of chains through the tile's link array, and references are decoded into fields without their bit layout.
- A click that finds no polygon floods from tile 0, polygon 0; it is covered when that polygon exists, which the code needs too.
- The mutex of `basic_snowflake`: Generate is one critical section.

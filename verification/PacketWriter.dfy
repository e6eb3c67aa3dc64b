/** PacketWriter: a packet's own fields go straight into its container, each message through a buffer of its own. */
module PacketWriters {
  import opened Wrappers
  import opened Fragments
  import opened Buffers
  import opened BufferWriters
  import opened Codecs
  import opened Schemas
  import opened StreamIO

  class PacketWriter {
    const mem: Memory
    var container: seq<byte>

    constructor (m: Memory)
      ensures mem == m && container == []
    {
      mem, container := m, [];
    }

    method WriteBytes(bytes: seq<byte>)
      modifies this
      ensures container == old(container) + bytes
    {
      for i := 0 to |bytes|
        invariant container == old(container) + bytes[..i]
      {
        container := container + [bytes[i]];
      }
    }

    method WriteInt(w: nat, x: int)
      modifies this
      ensures container == old(container) + EncodeInt(w, x)
    {
      WriteBytes(EncodeInt(w, x));
    }

    method WriteString(s: seq<byte>)
      modifies this
      ensures container == old(container) + EncodeString(Mode.Packet, s)
    {
      WriteInt(2, Wrap(2, |s|));
      if s == [] {
        return;
      }
      WriteBytes(s);
    }

    /** A message is written into a buffer of 256 bytes, which grows as needed, and copied from there. */
    method WriteObject(t: Type, v: Value)
      requires Fragments.Valid(mem.heap) && t.TMessage? && Typed(t, v)
      modifies this, mem
      ensures container == old(container) + EncodeFields(Nested, t, v, 0)
      ensures Fragments.Valid(mem.heap) && OthersRead(old(mem.heap), mem.heap, [])
    {
      hide *;
      ghost var h := mem.heap;
      var buffer := new Buffer(mem);
      var raw := Uninitialized(256);
      FreshRope(h, raw);
      var f := mem.Create(raw);
      Unused(buffer);
      buffer.Add(f);
      assert buffer.fragments == [f];
      var adapter := new BufferStreamAdapter(buffer);
      var writer := new StreamWriter();
      SerializeFields(writer, t, v);
      BesideNew(h, mem.heap, f);
      PushAll(adapter, writer.container, h);
      Capacity(adapter);
      var read := Iterate(buffer);
      assert read[..writer.writeSize] == writer.container;
      WriteBytes(read[..writer.writeSize]);
      ghost var h1, fs := mem.heap, buffer.fragments;
      buffer.Clear();
      BufferGone(h, h1, mem.heap, fs);
    }

    /** An item of a vector: a number or a message. */
    method WriteItem(e: Type, v: Value)
      requires Fragments.Valid(mem.heap) && Typed(e, v) && !e.TString? && !e.TVector? && !e.TEnum?
      modifies this, mem
      ensures container == old(container) + Encode(Nested, e, v)
      ensures Fragments.Valid(mem.heap) && OthersRead(old(mem.heap), mem.heap, [])
    {
      match e {
        case TInt(w) => { WriteInt(w, v.i); }
        case TFloat(_) => { WriteBytes(v.raw); }
        case TBool => { WriteBytes([if v.b then 1 else 0]); }
        case TMessage(_) => { WriteObject(e, v); }
      }
    }

    method WriteItems(e: Type, items: seq<Value>)
      requires Fragments.Valid(mem.heap) && !e.TString? && !e.TVector? && !e.TEnum?
      requires forall k :: 0 <= k < |items| ==> Typed(e, items[k])
      modifies this, mem
      ensures container == old(container) + EncodeItems(e, items)
      ensures Fragments.Valid(mem.heap) && OthersRead(old(mem.heap), mem.heap, [])
    {
      hide Encode;
      hide Typed;
      hide Fragments.Valid;
      hide OthersRead;
      ghost var h := mem.heap;
      OthersSelf(h, []);
      for k := 0 to |items|
        invariant container + EncodeItems(e, items[k..]) == old(container) + EncodeItems(e, items)
        invariant Fragments.Valid(mem.heap) && OthersRead(h, mem.heap, [])
      {
        assert items[k..][0] == items[k] && items[k..][1..] == items[k + 1..];
        ghost var h1 := mem.heap;
        WriteItem(e, items[k]);
        OthersOn(h, h1, mem.heap, []);
      }
      assert items[|items|..] == [];
    }

    method WriteField(t: Type, v: Value)
      requires Fragments.Valid(mem.heap) && WellFormed(Mode.Packet, t) && Typed(t, v)
      modifies this, mem
      ensures container == old(container) + Encode(Mode.Packet, t, v)
      ensures Fragments.Valid(mem.heap) && OthersRead(old(mem.heap), mem.heap, [])
    {
      hide EncodeInt;
      hide EncodeString;
      hide EncodeFields;
      hide EncodeItems;
      hide Fragments.Valid;
      hide InRange;
      hide OthersRead;
      OthersSelf(mem.heap, []);
      match t {
        case TInt(w) => { WriteInt(w, v.i); }
        case TFloat(_) => { WriteBytes(v.raw); }
        case TBool => { WriteBytes([if v.b then 1 else 0]); }
        case TEnum => { WriteInt(4, v.i); }
        case TString => { WriteString(v.s); }
        case TMessage(_) => { WriteObject(t, v); }
        case TVector(e, _) => { WriteItems(e, v.items); }
      }
    }

    /** Serialize of a packet: its fields in order. */
    method WriteFields(t: Type, v: Value)
      requires Fragments.Valid(mem.heap) && t.TMessage? && WellFormedFields(Mode.Packet, t) && Typed(t, v)
      modifies this, mem
      ensures container == old(container) + EncodeFields(Mode.Packet, t, v, 0)
      ensures Fragments.Valid(mem.heap) && OthersRead(old(mem.heap), mem.heap, [])
    {
      hide Encode;
      hide WellFormed;
      hide Fragments.Valid;
      hide OthersRead;
      ghost var h := mem.heap;
      OthersSelf(h, []);
      for k := 0 to |t.fields|
        invariant container + EncodeFields(Mode.Packet, t, v, k) == old(container) + EncodeFields(Mode.Packet, t, v, 0)
        invariant Fragments.Valid(mem.heap) && OthersRead(h, mem.heap, [])
      {
        ghost var h1 := mem.heap;
        WriteField(t.fields[k], v.values[k]);
        OthersOn(h, h1, mem.heap, []);
      }
    }
  }

  /** Bytes are pushed through the adapter; the fragments it adds to its buffer are new. */
  method PushAll(adapter: BufferStreamAdapter, bytes: seq<byte>, ghost h: Heap)
    requires adapter.Valid() && Beside(h, adapter.buffer.mem.heap, adapter.buffer.fragments)
    modifies adapter, adapter.buffer, adapter.buffer.mem
    ensures adapter.Valid() && adapter.written == old(adapter.written) + bytes
    ensures Beside(h, adapter.buffer.mem.heap, adapter.buffer.fragments)
  {
    hide *;
    ghost var w := adapter.written;
    for i := 0 to |bytes|
      invariant adapter.Valid() && adapter.written == w + bytes[..i]
      invariant Beside(h, adapter.buffer.mem.heap, adapter.buffer.fragments)
    {
      ghost var h1, fs := adapter.buffer.mem.heap, adapter.buffer.fragments;
      adapter.PushBack(bytes[i]);
      BesideOn(h, h1, adapter.buffer.mem.heap, fs, adapter.buffer.fragments);
    }
    assert bytes[..|bytes|] == bytes;
  }

  /** All of `h` is there and reads the same, and the rope has come since. */
  ghost predicate Beside(h: Heap, h': Heap, fs: seq<int>) {
    OthersRead(h, h', []) && forall f :: f in fs ==> f !in h.frags
  }

  lemma BesideNew(h: Heap, h': Heap, f: int)
    requires OthersRead(h, h', []) && f !in h.frags
    ensures Beside(h, h', [f])
  {}

  lemma BesideOn(h: Heap, h1: Heap, h2: Heap, fs: seq<int>, fs': seq<int>)
    requires Beside(h, h1, fs) && OthersRead(h1, h2, fs) && forall f :: f in fs' ==> f in fs || f !in h1.frags
    ensures Beside(h, h2, fs')
  {}

  lemma BufferGone(h: Heap, h1: Heap, h2: Heap, fs: seq<int>)
    requires Fragments.Valid(h1) && Beside(h, h1, fs) && Follows(h1, h2, Ids(fs))
    ensures OthersRead(h, h2, [])
  {}

  lemma Capacity(adapter: BufferStreamAdapter)
    requires adapter.Valid()
    ensures adapter.buffer.Valid() && |adapter.buffer.Contents()| == adapter.buffer.size
            && adapter.written <= adapter.buffer.Contents()
  {
    BytesLength(adapter.buffer.mem.heap, adapter.buffer.fragments);
  }

  lemma OthersSelf(h: Heap, fs: seq<int>)
    ensures OthersRead(h, h, fs)
  {}

  lemma OthersOn(h: Heap, h1: Heap, h2: Heap, fs: seq<int>)
    requires OthersRead(h, h1, fs) && OthersRead(h1, h2, fs)
    ensures OthersRead(h, h2, fs)
  {}

  lemma FreshRope(h: Heap, raw: seq<byte>)
    requires Fragments.Valid(h) && raw != []
    ensures var h', n := Created(h, raw), h.nextFrag;
            && Fragments.Valid(h') && n in h'.frags && h'.frags[n] == Fragment(Some(h.nextBlock), 0, |raw|)
            && h'.frags[n].IsValid()
            && AllSole(h', [n]) && n !in h.frags && OthersRead(h, h', [])
  {
    CreateKeeps(h, raw);
    CreateFollows(h, raw);
    hide Fragments.Valid;
    hide Follows;
    hide Sole;
  }

  lemma Unused(b: Buffer)
    requires Fragments.Valid(b.mem.heap) && b.fragments == [] && b.size == 0
    ensures b.Valid()
  {}
}

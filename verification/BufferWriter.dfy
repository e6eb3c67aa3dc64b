/** Iterating over a buffer, and writing through an iterator that grows the buffer at its end. */
module BufferWriters {
  import opened Fragments
  import opened Buffers

  // ---------------------------------------------------------------- positions in a rope

  /** An iterator: a fragment's place in the container and an index into it; the end is (number of fragments, 0). */
  ghost predicate At(h: Heap, fs: seq<int>, iter: int, index: int) {
    0 <= iter <= |fs| && 0 <= index && if iter < |fs| then index < PieceSize(h, fs[iter]) else index == 0
  }

  /** How many bytes lie before the iterator. */
  function Position(h: Heap, fs: seq<int>, iter: int, index: int): int
    requires 0 <= iter <= |fs|
  {
    Total(h, fs[..iter]) + index
  }

  lemma PositionSplit(h: Heap, fs: seq<int>, iter: int)
    requires Fragments.Valid(h) && IsRope(h, fs) && 0 <= iter < |fs|
    ensures fs[iter] in h.frags && h.frags[fs[iter]].IsValid()
            && Total(h, fs[..iter + 1]) == Total(h, fs[..iter]) + h.frags[fs[iter]].size
    ensures |Piece(h, fs[iter])| == h.frags[fs[iter]].size
    ensures Bytes(h, fs) == Bytes(h, fs[..iter]) + Piece(h, fs[iter]) + Bytes(h, fs[iter + 1..])
            && |Bytes(h, fs[..iter])| == Total(h, fs[..iter])
  {
    CutAt(h, fs, iter);
    SplitSizes(h, fs[..iter], fs[iter], fs[iter + 1..]);
  }

  /** The byte under the iterator is the one at its position; the end is past the last byte. */
  lemma PositionReads(h: Heap, fs: seq<int>, iter: int, index: int)
    requires Fragments.Valid(h) && IsRope(h, fs) && At(h, fs, iter, index)
    ensures |Bytes(h, fs)| == Total(h, fs)
    ensures iter == |fs| <==> Position(h, fs, iter, index) == |Bytes(h, fs)|
    ensures iter < |fs| ==> 0 <= Position(h, fs, iter, index) < |Bytes(h, fs)|
                            && index < |Piece(h, fs[iter])|
                            && Piece(h, fs[iter])[index] == Bytes(h, fs)[Position(h, fs, iter, index)]
  {
    hide Fragments.Valid;
    hide IsRope;
    hide Bytes;
    hide Piece;
    hide Total;
    BytesLength(h, fs);
    if iter < |fs| {
      PositionSplit(h, fs, iter);
      ByteBetween(Bytes(h, fs[..iter]), Piece(h, fs[iter]), Bytes(h, fs[iter + 1..]), index);
    } else {
      assert fs[..iter] == fs;
    }
  }

  lemma ByteBetween(a: seq<byte>, b: seq<byte>, c: seq<byte>, i: int)
    requires 0 <= i < |b|
    ensures |a| + i < |a + b + c| && (a + b + c)[|a| + i] == b[i]
  {}

  /** operator++ */
  method Advance(b: Buffer, iter: int, index: int) returns (iter': int, index': int)
    requires b.Valid() && At(b.mem.heap, b.fragments, iter, index) && iter < |b.fragments|
    ensures At(b.mem.heap, b.fragments, iter', index')
    ensures Position(b.mem.heap, b.fragments, iter', index') == Position(b.mem.heap, b.fragments, iter, index) + 1
  {
    hide Fragments.Valid;
    hide IsRope;
    hide Bytes;
    hide Piece;
    hide Total;
    PositionSplit(b.mem.heap, b.fragments, iter);
    iter', index' := iter, index + 1;
    if index' >= PieceSize(b.mem.heap, b.fragments[iter']) {
      iter', index' := iter' + 1, 0;
      while !(iter' == |b.fragments| || PieceSize(b.mem.heap, b.fragments[iter']) > 0)
        invariant iter < iter' <= |b.fragments| && index' == 0
        invariant Total(b.mem.heap, b.fragments[..iter']) == Total(b.mem.heap, b.fragments[..iter + 1])
        decreases |b.fragments| - iter'
      {
        EmptySkipped(b.mem.heap, b.fragments, iter');
        iter', index' := iter' + 1, 0;
      }
    }
  }

  lemma EmptySkipped(h: Heap, fs: seq<int>, i: int)
    requires Fragments.Valid(h) && 0 <= i < |fs| && PieceSize(h, fs[i]) <= 0
    ensures Total(h, fs[..i + 1]) == Total(h, fs[..i])
  {
    if fs[i] in h.frags {
      assert InBlock(h.blocks, h.frags[fs[i]]);
    }
    assert fs[..i + 1] == fs[..i] + [fs[i]];
    BytesSnoc(h, fs[..i], fs[i]);
  }

  /** A loop from begin() to end() reads the contents. */
  method Iterate(b: Buffer) returns (read: seq<byte>)
    requires b.Valid()
    ensures read == b.Contents()
  {
    hide Bytes;
    hide Piece;
    hide Total;
    hide Fragments.Valid;
    hide IsRope;
    ghost var h, fs := b.mem.heap, b.fragments;
    var iter, index := Begin(b);
    read := [];
    PositionReads(h, fs, iter, index);
    while iter != |b.fragments|
      invariant At(h, fs, iter, index) && 0 <= |read| == Position(h, fs, iter, index) <= |Bytes(h, fs)|
                && read == Bytes(h, fs)[..|read|]
      invariant iter == |fs| <==> |read| == |Bytes(h, fs)|
      decreases |Bytes(h, fs)| - |read|
    {
      PositionReads(h, fs, iter, index);
      read := read + [Piece(b.mem.heap, b.fragments[iter])[index]];
      iter, index := Advance(b, iter, index);
      PositionReads(h, fs, iter, index);
    }
  }

  method Begin(b: Buffer) returns (iter: int, index: int)
    requires b.Valid()
    ensures At(b.mem.heap, b.fragments, iter, index) && Position(b.mem.heap, b.fragments, iter, index) == 0
  {
    iter, index := 0, 0;
    if b.fragments != [] {
      PositionSplit(b.mem.heap, b.fragments, 0);
    }
    assert b.fragments[..0] == [];
  }

  // ---------------------------------------------------------------- stores

  lemma {:induction false} SamePieces(h: Heap, h': Heap, fs: seq<int>)
    requires forall f :: f in fs ==> Piece(h', f) == Piece(h, f) && PieceSize(h', f) == PieceSize(h, f)
    ensures Bytes(h', fs) == Bytes(h, fs) && Total(h', fs) == Total(h, fs)
  {
    if fs != [] {
      SamePieces(h, h', fs[..|fs| - 1]);
    }
  }

  /** A store into a fragment that shares no byte with another is seen in that fragment alone. */
  lemma StoreSeen(h: Heap, f: int, i: int, c: byte)
    requires Fragments.Valid(h) && f in h.frags && 0 <= i < h.frags[f].size && Sole(h, f)
    ensures var h' := Stored(h, f, i, c);
            && Fragments.Valid(h') && h'.frags == h.frags && h'.nextFrag == h.nextFrag
            && i < |Piece(h, f)| && Piece(h', f) == Piece(h, f)[i := c]
            && forall g :: g != f ==> Piece(h', g) == Piece(h, g)
  {
    PutKeeps(h, f, i, c);
    hide Counted;
    hide Stored;
  }

  /** What a store at the iterator makes of the rope. */
  ghost predicate StoredAt(h: Heap, h': Heap, fs: seq<int>, iter: int, index: int, c: byte)
    requires 0 <= iter < |fs|
  {
    var p := Position(h, fs, iter, index);
    && Valid(h') && h'.frags == h.frags && h'.nextFrag == h.nextFrag && IsRope(h', fs) && Total(h', fs) == Total(h, fs)
    && 0 <= p < |Bytes(h, fs)| && Bytes(h', fs) == Bytes(h, fs)[p := c]
    && At(h', fs, iter, index) && Position(h', fs, iter, index) == p
    && forall g :: g != fs[iter] ==> Piece(h', g) == Piece(h, g)
  }

  lemma SameFragments(h: Heap, h': Heap, fs: seq<int>, iter: int, index: int)
    requires h'.frags == h.frags && IsRope(h, fs) && At(h, fs, iter, index)
    ensures IsRope(h', fs) && At(h', fs, iter, index) && forall f :: PieceSize(h', f) == PieceSize(h, f)
  {}

  lemma AtBound(h: Heap, fs: seq<int>, iter: int, index: int)
    requires 0 <= iter < |fs| && At(h, fs, iter, index) && fs[iter] in h.frags
    ensures 0 <= index < h.frags[fs[iter]].size
  {}

  lemma StoreInRope(h: Heap, fs: seq<int>, iter: int, index: int, c: byte)
    requires Fragments.Valid(h) && IsRope(h, fs) && 0 <= iter < |fs| && At(h, fs, iter, index) && fs[iter] in h.frags
             && Sole(h, fs[iter])
    ensures 0 <= index < h.frags[fs[iter]].size
    ensures StoredAt(h, Stored(h, fs[iter], index, c), fs, iter, index, c)
  {
    hide Fragments.Valid;
    hide IsRope;
    hide At;
    hide Stored;
    hide Bytes;
    hide Piece;
    hide PieceSize;
    hide Total;
    hide Sole;
    hide Disjoint;
    AtBound(h, fs, iter, index);
    var f, pre, post := fs[iter], fs[..iter], fs[iter + 1..];
    PositionSplit(h, fs, iter);
    StoreSeen(h, f, index, c);
    var h' := Stored(h, f, index, c);
    SameFragments(h, h', fs, iter, index);
    SplitOff(h, fs, iter);
    StoredBytes(h, h', pre, f, post, index, c);
    SamePieces(h, h', pre);
  }

  lemma StoredBytes(h: Heap, h': Heap, pre: seq<int>, f: int, post: seq<int>, i: int, c: byte)
    requires Fragments.Valid(h) && Fragments.Valid(h') && f in h.frags && h'.frags == h.frags && f !in pre && f !in post
    requires IsRope(h, pre + [f] + post) && IsRope(h', pre + [f] + post)
    requires 0 <= i < |Piece(h, f)| && Piece(h', f) == Piece(h, f)[i := c]
             && forall g :: g != f ==> Piece(h', g) == Piece(h, g)
    ensures var fs, p := pre + [f] + post, Total(h, pre) + i;
            0 <= p < |Bytes(h, fs)| && Bytes(h', fs) == Bytes(h, fs)[p := c] && Total(h', fs) == Total(h, fs)
  {
    hide Fragments.Valid;
    hide IsRope;
    hide Bytes;
    hide Piece;
    hide Total;
    SamePieces(h, h', pre);
    SamePieces(h, h', post);
    SplitSizes(h, pre, f, post);
    SplitSizes(h', pre, f, post);
    ByteReplaced(Bytes(h, pre), Piece(h, f), Bytes(h, post), i, c);
  }

  lemma SplitOff(h: Heap, fs: seq<int>, iter: int)
    requires IsRope(h, fs) && 0 <= iter < |fs|
    ensures fs == fs[..iter] + [fs[iter]] + fs[iter + 1..] && fs[iter] !in fs[..iter] && fs[iter] !in fs[iter + 1..]
  {
    var f, pre, post := fs[iter], fs[..iter], fs[iter + 1..];
    assert fs == pre + [f] + post;
    DistinctParts(pre + [f], post);
    DistinctParts(pre, [f]);
    assert f in pre + [f] && f in [f];
  }

  lemma ByteReplaced(a: seq<byte>, b: seq<byte>, c: seq<byte>, i: int, x: byte)
    requires 0 <= i < |b|
    ensures |a| + i < |a + b + c| && a + b[i := x] + c == (a + b + c)[|a| + i := x]
  {}

  // ---------------------------------------------------------------- BufferStreamAdapter

  /** No byte of these fragments is seen through any other fragment. */
  ghost predicate AllSole(h: Heap, fs: seq<int>) {
    forall f :: f in fs ==> Sole(h, f)
  }

  /** Every fragment outside the rope is still there and reads the same. */
  ghost predicate OthersRead(h: Heap, h': Heap, fs: seq<int>) {
    forall g :: g in h.frags && g !in fs ==> g in h'.frags && h'.frags[g] == h.frags[g] && Piece(h', g) == Piece(h, g)
  }

  /** What a fresh allocation holds. */
  method Uninitialized(n: int) returns (raw: seq<byte>)
    requires n >= 0
    ensures |raw| == n
  {
    raw := seq(n, _ => 0);
  }

  /** The iterator stands behind the bytes written, which are the first of the rope. */
  ghost predicate Writing(h: Heap, fs: seq<int>, size: int, iter: int, index: int, written: seq<byte>) {
    && Valid(h) && IsRope(h, fs) && AllSole(h, fs) && size == Total(h, fs)
    && At(h, fs, iter, index) && Position(h, fs, iter, index) == |written|
    && written <= Bytes(h, fs)
  }

  lemma GrowthWrites(h: Heap, fs: seq<int>, size: int, iter: int, index: int, written: seq<byte>, raw: seq<byte>)
    requires Writing(h, fs, size, iter, index, written) && iter == |fs| && |raw| == size > 0
    ensures var h', fs' := Created(h, raw), fs + [h.nextFrag];
            && h.nextFrag !in h.frags && h.nextFrag !in fs && h.nextFrag in h'.frags && h'.frags[h.nextFrag].IsValid()
            && Valid(h') && Follows(h, h', {}) && size == |written| && h'.frags[h.nextFrag].size == size
            && IsRope(h', fs) && Total(h', fs) == size
            && Writing(h', fs', 2 * size, |fs|, 0, written) && Bytes(h, fs) == written
            && Bytes(h', fs') == written + raw
  {
    var h', n := Created(h, raw), h.nextFrag;
    PositionReads(h, fs, iter, index);
    CreateKeeps(h, raw);
    CreateFollows(h, raw);
    PieceLength(h', n);
    assert h'.frags[n].size == size && h'.frags[n].IsValid() && Piece(h', n) == raw;
    RopeMembers(h, fs);
    StillSole(h, h', fs);
    hide Fragments.Valid;
    hide Sole;
    hide Follows;
    hide Created;
    hide Piece;
    RopeKept(h, h', fs, {});
    Extended(h', fs, n);
    hide IsRope;
    hide Bytes;
    hide Total;
    assert (fs + [n])[..|fs|] == fs && (fs + [n])[|fs|] == n;
  }

  lemma StillSole(h: Heap, h': Heap, fs: seq<int>)
    requires Follows(h, h', {}) && Fragments.Valid(h) && IsRope(h, fs) && AllSole(h, fs)
    ensures AllSole(h', fs)
  {
    hide Sole;
    RopeKept(h, h', fs, {});
    RopeMembers(h', fs);
  }

  /** After the store, and before the iterator moves on. */
  lemma StoreWrites(h: Heap, fs: seq<int>, size: int, iter: int, index: int, written: seq<byte>, c: byte)
    requires Writing(h, fs, size, iter, index, written) && iter < |fs|
    ensures fs[iter] in h.frags && 0 <= index < h.frags[fs[iter]].size && |written| < |Bytes(h, fs)|
    ensures var h' := Stored(h, fs[iter], index, c);
            && Valid(h') && h'.frags == h.frags && IsRope(h', fs) && AllSole(h', fs) && size == Total(h', fs)
            && At(h', fs, iter, index) && Position(h', fs, iter, index) == |written|
            && Bytes(h', fs) == Bytes(h, fs)[|written| := c] && written + [c] <= Bytes(h', fs)
            && OthersRead(h, h', fs)
  {
    hide Bytes;
    hide Total;
    hide Sole;
    hide Fragments.Valid;
    hide Stored;
    hide Piece;
    assert fs[iter] in fs;
    AtBound(h, fs, iter, index);
    StoreInRope(h, fs, iter, index, c);
    SoleByFragments(h, Stored(h, fs[iter], index, c), fs);
  }

  lemma SoleByFragments(h: Heap, h': Heap, fs: seq<int>)
    requires h'.frags == h.frags && AllSole(h, fs)
    ensures AllSole(h', fs)
  {}

  class BufferStreamAdapter {
    const buffer: Buffer
    var iter: int
    var index: int
    ghost var written: seq<byte>
    ghost const initial: int

    constructor (b: Buffer)
      requires b.Valid() && b.size > 0 && AllSole(b.mem.heap, b.fragments)
      ensures buffer == b && written == [] && initial == b.size && Valid()
    {
      var i, x := Begin(b);
      buffer, iter, index, written, initial := b, i, x, [], b.size;
    }

    ghost predicate InPlace()
      reads this, buffer, buffer.mem
    {
      Writing(buffer.mem.heap, buffer.fragments, buffer.size, iter, index, written)
    }

    /** The bytes written are a prefix of the contents, and the capacity is the initial one or below twice what was
        written. */
    ghost predicate Valid()
      reads this, buffer, buffer.mem
    {
      InPlace() && 0 < initial && (buffer.size == initial || buffer.size < 2 * |written|)
    }

    method PushBack(c: byte)
      requires Valid()
      modifies this, buffer, buffer.mem
      ensures Valid() && written == old(written) + [c] && written <= buffer.Contents()
      ensures |old(written)| < |old(buffer.Contents())| ==>
                && buffer.Contents() == old(buffer.Contents())[|old(written)| := c]
                && buffer.fragments == old(buffer.fragments) && buffer.mem.heap.frags == old(buffer.mem.heap.frags)
      ensures OthersRead(old(buffer.mem.heap), buffer.mem.heap, old(buffer.fragments))
      ensures forall f :: f in buffer.fragments ==> f in old(buffer.fragments) || f !in old(buffer.mem.heap.frags)
    {
      ghost var h0, fs0 := buffer.mem.heap, buffer.fragments;
      EndReached(h0, fs0, buffer.size, iter, index, written);
      if iter == |buffer.fragments| {
        Grow();
      }
      ghost var h1, fs1 := buffer.mem.heap, buffer.fragments;
      Overwrite(c);
      GrownOthers(h0, h1, buffer.mem.heap, fs0, fs1);
    }

    /** At the end: a new fragment as large as the whole buffer so far. */
    method Grow()
      requires InPlace() && iter == |buffer.fragments| && buffer.size > 0
      modifies this, buffer, buffer.mem
      ensures InPlace() && written == old(written) && iter < |buffer.fragments| && buffer.size == 2 * |written|
      ensures buffer.fragments == old(buffer.fragments) + [old(buffer.mem.heap.nextFrag)]
              && old(buffer.mem.heap.nextFrag !in buffer.mem.heap.frags)
      ensures Follows(old(buffer.mem.heap), buffer.mem.heap, {})
    {
      hide Writing;
      hide Fragments.Valid;
      hide IsRope;
      hide Total;
      hide Follows;
      hide Created;
      ghost var h, fs := buffer.mem.heap, buffer.fragments;
      var size := buffer.size;
      var raw := Uninitialized(size);
      Unfolded(h, fs, size, iter, index, written);
      GrowthWrites(h, fs, size, iter, index, written, raw);
      var f := buffer.mem.Create(raw);
      buffer.Add(f);
      iter, index := |buffer.fragments| - 1, 0;
    }

    method Overwrite(c: byte)
      requires InPlace() && iter < |buffer.fragments|
      modifies this, buffer.mem
      ensures InPlace() && written == old(written) + [c] && |old(written)| < |old(buffer.Contents())|
      ensures written <= buffer.Contents() == old(buffer.Contents())[|old(written)| := c]
      ensures buffer.mem.heap.frags == old(buffer.mem.heap.frags)
      ensures OthersRead(old(buffer.mem.heap), buffer.mem.heap, buffer.fragments)
    {
      hide Fragments.Valid;
      hide IsRope;
      hide Bytes;
      hide Total;
      hide AllSole;
      hide OthersRead;
      hide Position;
      hide Stored;
      ghost var h, fs := buffer.mem.heap, buffer.fragments;
      StoreWrites(h, fs, buffer.size, iter, index, written, c);
      hide At;
      buffer.mem.Store(buffer.fragments[iter], index, c);
      iter, index := Advance(buffer, iter, index);
      written := written + [c];
    }
  }

  lemma Unfolded(h: Heap, fs: seq<int>, size: int, iter: int, index: int, written: seq<byte>)
    requires Writing(h, fs, size, iter, index, written)
    ensures Fragments.Valid(h) && IsRope(h, fs) && size == Total(h, fs)
  {}

  lemma EndReached(h: Heap, fs: seq<int>, size: int, iter: int, index: int, written: seq<byte>)
    requires Writing(h, fs, size, iter, index, written)
    ensures iter <= |fs| && size == |Bytes(h, fs)| && (iter == |fs| <==> |written| == size)
  {
    PositionReads(h, fs, iter, index);
  }

  lemma GrownOthers(h0: Heap, h1: Heap, h2: Heap, fs0: seq<int>, fs1: seq<int>)
    requires Fragments.Valid(h0)
    requires (h1 == h0 && fs1 == fs0) || (Follows(h0, h1, {}) && fs1 == fs0 + [h0.nextFrag] && h0.nextFrag !in h0.frags)
    requires OthersRead(h1, h2, fs1)
    ensures OthersRead(h0, h2, fs0)
  {}

  // ---------------------------------------------------------------- receive buffers

  /** A scatter read: the buffer's first bytes are overwritten with `data`. */
  method Fill(b: Buffer, data: seq<byte>)
    requires b.Valid() && 0 < b.size && |data| <= b.size && AllSole(b.mem.heap, b.fragments)
    modifies b, b.mem
    ensures b.Valid() && AllSole(b.mem.heap, b.fragments) && b.fragments == old(b.fragments) && b.size == old(b.size)
    ensures data <= b.Contents() && b.mem.heap.frags == old(b.mem.heap.frags)
    ensures OthersRead(old(b.mem.heap), b.mem.heap, b.fragments)
  {
    hide Bytes;
    hide Total;
    hide IsRope;
    hide Fragments.Valid;
    hide AllSole;
    hide Position;
    hide At;
    hide Piece;
    ghost var h := b.mem.heap;
    var adapter := new BufferStreamAdapter(b);
    BufferLength(b);
    for i := 0 to |data|
      invariant adapter.buffer == b && fresh(adapter) && adapter.Valid() && adapter.written == data[..i]
      invariant b.fragments == old(b.fragments) && b.size == old(b.size) && b.mem.heap.frags == h.frags
                && OthersRead(h, b.mem.heap, b.fragments)
    {
      BufferLength(b);
      adapter.PushBack(data[i]);
      BufferLength(b);
    }
    assert data[..|data|] == data;
  }

  lemma BufferLength(b: Buffer)
    requires b.Valid()
    ensures |b.Contents()| == b.size
  {
    BytesLength(b.mem.heap, b.fragments);
  }

  lemma OwnKept(h: Heap, h': Heap, own: seq<int>, own': seq<int>, s: set<int>)
    requires AllSole(h, own) && Follows(h, h', s) && IsRope(h', own') && forall f :: f in own' ==> f in own
    ensures AllSole(h', own')
  {
    RopeMembers(h', own');
    hide Sole;
  }

  lemma PrefixIs(data: seq<byte>, a: seq<byte>, b: seq<byte>)
    requires data <= a + b && |data| == |a|
    ensures a == data
  {}

  /** `n` is new room of `size` bytes behind the rope `own`. */
  ghost predicate Room(h: Heap, h': Heap, own: seq<int>, n: int, size: int) {
    && Valid(h') && Follows(h, h', {}) && IsRope(h', own) && Total(h', own) == Total(h, own)
    && n !in h.frags && n !in own && n in h'.frags && h'.frags[n].IsValid() && h'.frags[n].size == size
    && AllSole(h', own + [n])
  }

  lemma RoomMade(h: Heap, own: seq<int>, raw: seq<byte>)
    requires Fragments.Valid(h) && IsRope(h, own) && AllSole(h, own) && raw != []
    ensures Room(h, Created(h, raw), own, h.nextFrag, |raw|)
  {
    var h' := Created(h, raw);
    CreateKeeps(h, raw);
    CreateFollows(h, raw);
    RopeMembers(h, own);
    hide Fragments.Valid;
    hide IsRope;
    hide Total;
    hide Sole;
    hide Follows;
    RopeKept(h, h', own, {});
    StillSole(h, h', own);
  }
}

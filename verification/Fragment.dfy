/** Reference-counted fragments of shared memory blocks. */
module Fragments {
  import opened Wrappers

  type byte = x: int | 0 <= x < 256

  /** Impl: a block, its reference count and its bytes. */
  datatype Block = Block(refCount: int, bytes: seq<byte>)

  /** A fragment object: the block it holds, if any, and its part of the block. */
  datatype Fragment = Fragment(impl: Option<int>, start: int, size: int) {
    predicate IsValid() { impl.Some? && size > 0 }
  }

  const EMPTY := Fragment(None, 0, 0)

  /** All blocks not yet freed and all fragment objects not yet destroyed, by identity. */
  datatype Heap = Heap(blocks: map<int, Block>, frags: map<int, Fragment>, nextBlock: int, nextFrag: int)

  // ---------------------------------------------------------------- the operations

  function Retain(h: Heap, b: int): Heap
    requires b in h.blocks
  {
    h.(blocks := h.blocks[b := h.blocks[b].(refCount := h.blocks[b].refCount + 1)])
  }

  /** The destructor's effect on the block: the last reference frees it. */
  function Release(h: Heap, impl: Option<int>): Heap
    requires impl.Some? ==> impl.value in h.blocks
  {
    if impl.None? then h
    else if h.blocks[impl.value].refCount == 1 then h.(blocks := h.blocks - {impl.value})
    else h.(blocks := h.blocks[impl.value := h.blocks[impl.value].(refCount := h.blocks[impl.value].refCount - 1)])
  }

  function NewFragment(h: Heap, f: Fragment): Heap {
    h.(frags := h.frags[h.nextFrag := f], nextFrag := h.nextFrag + 1)
  }

  /** Create: `raw` is what the new memory happens to hold. */
  function Created(h: Heap, raw: seq<byte>): Heap {
    NewFragment(h.(blocks := h.blocks[h.nextBlock := Block(1, raw)], nextBlock := h.nextBlock + 1),
      Fragment(Some(h.nextBlock), 0, |raw|))
  }

  function Slices(h: Heap, f: int, size: int): bool
    requires f in h.frags
  {
    size < h.frags[f].size
  }

  /** SliceFront, where it succeeds: the new fragment takes the front. */
  function SlicedFront(h: Heap, f: int, size: int): Heap
    requires Valid(h) && f in h.frags && Slices(h, f, size) && 0 <= size
  {
    var fr := h.frags[f];
    var h1 := NewFragment(h, fr.(size := size));
    var h2 := h1.(frags := h1.frags[f := Fragment(fr.impl, fr.start + size, fr.size - size)]);
    Retain(h2, fr.impl.value)
  }

  function Copied(h: Heap, f: int): Heap
    requires Valid(h) && f in h.frags
  {
    if h.frags[f].IsValid() then Retain(NewFragment(h, h.frags[f]), h.frags[f].impl.value) else NewFragment(h, EMPTY)
  }

  function Moved(h: Heap, f: int): Heap
    requires f in h.frags
  {
    var h1 := NewFragment(h, h.frags[f]);
    h1.(frags := h1.frags[f := EMPTY])
  }

  function Assigned(h: Heap, f: int, other: int): Heap
    requires Valid(h) && f in h.frags && other in h.frags && f != other
  {
    var h1 := Release(h, h.frags[f].impl);
    h1.(frags := h1.frags[f := h.frags[other]][other := EMPTY])
  }

  function Destroyed(h: Heap, f: int): Heap
    requires Valid(h) && f in h.frags
  {
    var h1 := Release(h, h.frags[f].impl);
    h1.(frags := h1.frags - {f})
  }

  /** A store through GetData() + i. */
  function Stored(h: Heap, f: int, i: int, c: byte): Heap
    requires Valid(h) && f in h.frags && 0 <= i < h.frags[f].size
  {
    var b := h.frags[f].impl.value;
    h.(blocks := h.blocks[b := h.blocks[b].(bytes := h.blocks[b].bytes[h.frags[f].start + i := c])])
  }

  // ---------------------------------------------------------------- what holds in every state

  function Owners(frags: map<int, Fragment>, b: int): set<int> {
    set f | f in frags && frags[f].impl == Some(b)
  }

  /** Inside a block that exists; a fragment without a block is empty. */
  predicate InBlock(blocks: map<int, Block>, f: Fragment) {
    match f.impl
    case None => f == EMPTY
    case Some(b) => b in blocks && 0 <= f.start && 0 <= f.size && f.start + f.size <= |blocks[b].bytes|
  }

  predicate Counted(h: Heap, b: int) {
    b in h.blocks ==> h.blocks[b].refCount == |Owners(h.frags, b)| && Owners(h.frags, b) != {}
  }

  ghost predicate Valid(h: Heap) {
    && (forall b :: b in h.blocks ==> b < h.nextBlock)
    && (forall f :: f in h.frags ==> f < h.nextFrag && InBlock(h.blocks, h.frags[f]))
    && (forall b :: Counted(h, b))
  }

  /** The bytes a fragment stands for. */
  function Content(h: Heap, f: int): seq<byte>
    requires f in h.frags && InBlock(h.blocks, h.frags[f])
  {
    var fr := h.frags[f];
    if fr.impl.None? then [] else h.blocks[fr.impl.value].bytes[fr.start..fr.start + fr.size]
  }

  /** Every fragment but those in `s` is still there and reads as before. */
  ghost predicate Untouched(h: Heap, h': Heap, s: set<int>) {
    forall f :: f in h.frags && InBlock(h.blocks, h.frags[f]) && f !in s ==>
      f in h'.frags && h'.frags[f] == h.frags[f] && InBlock(h'.blocks, h'.frags[f]) && Content(h', f) == Content(h, f)
  }

  lemma OwnersPut(frags: map<int, Fragment>, k: int, v: Fragment, b: int)
    ensures Owners(frags[k := v], b) == if v.impl == Some(b) then Owners(frags, b) + {k} else Owners(frags, b) - {k}
  {}

  lemma OwnersRemove(frags: map<int, Fragment>, k: int, b: int)
    ensures Owners(frags - {k}, b) == Owners(frags, b) - {k}
  {}

  lemma CreateCounts(h: Heap, raw: seq<byte>, b: int)
    requires Valid(h)
    ensures Counted(Created(h, raw), b)
  {
    assert Counted(h, b);
    OwnersPut(h.frags, h.nextFrag, Fragment(Some(h.nextBlock), 0, |raw|), b);
    forall f | f in h.frags
      ensures h.frags[f].impl != Some(h.nextBlock)
    {
      assert InBlock(h.blocks, h.frags[f]);
    }
    assert Owners(h.frags, h.nextBlock) == {};
  }

  lemma CreateKeeps(h: Heap, raw: seq<byte>)
    requires Valid(h)
    ensures Valid(Created(h, raw)) && Untouched(h, Created(h, raw), {})
    ensures h.nextFrag !in h.frags && Content(Created(h, raw), h.nextFrag) == raw
  {
    forall b
      ensures Counted(Created(h, raw), b)
    {
      CreateCounts(h, raw, b);
    }
    hide Counted;
    hide Owners;
  }

  lemma SliceCounts(h: Heap, f: int, size: int, b: int)
    requires Valid(h) && f in h.frags && Slices(h, f, size) && 0 <= size
    ensures Counted(SlicedFront(h, f, size), b)
  {
    var h', n := SlicedFront(h, f, size), h.nextFrag;
    assert Counted(h, b);
    OwnersPut(h.frags, n, h'.frags[n], b);
    OwnersPut(h.frags[n := h'.frags[n]], f, h'.frags[f], b);
    var owners := Owners(h.frags, b);
    assert n !in owners;
    if h.frags[f].impl == Some(b) {
      assert f in owners && owners + {n} + {f} == owners + {n};
    } else {
      assert f !in owners && owners - {n} - {f} == owners;
    }
  }

  lemma SplitSlice<T>(s: seq<T>, from: int, size: int, len: int)
    requires 0 <= from && 0 <= size <= len && from + len <= |s|
    ensures s[from..from + len][..size] == s[from..from + size]
    ensures s[from..from + len][size..] == s[from + size..from + len]
  {}

  lemma SliceValid(h: Heap, f: int, size: int)
    requires Valid(h) && f in h.frags && Slices(h, f, size) && 0 <= size
    ensures Valid(SlicedFront(h, f, size)) && h.nextFrag !in h.frags
  {
    forall b
      ensures Counted(SlicedFront(h, f, size), b)
    {
      SliceCounts(h, f, size, b);
    }
    hide Counted;
    hide Owners;
  }

  lemma SliceUntouched(h: Heap, f: int, size: int)
    requires Valid(h) && f in h.frags && Slices(h, f, size) && 0 <= size
    ensures Untouched(h, SlicedFront(h, f, size), {f})
  {
    hide Counted;
    hide Owners;
  }

  /** The front and the rest are the old content, and only that fragment has changed. */
  lemma SliceKeeps(h: Heap, f: int, size: int)
    requires Valid(h) && f in h.frags && Slices(h, f, size) && 0 <= size
    ensures Valid(SlicedFront(h, f, size)) && Untouched(h, SlicedFront(h, f, size), {f}) && h.nextFrag !in h.frags
    ensures Content(SlicedFront(h, f, size), h.nextFrag) == Content(h, f)[..size]
    ensures Content(SlicedFront(h, f, size), f) == Content(h, f)[size..]
  {
    SliceValid(h, f, size);
    SliceUntouched(h, f, size);
    hide Untouched;
    hide Counted;
    hide Owners;
    var fr := h.frags[f];
    SplitSlice(h.blocks[fr.impl.value].bytes, fr.start, size, fr.size);
  }

  lemma CopyCounts(h: Heap, f: int, b: int)
    requires Valid(h) && f in h.frags
    ensures Counted(Copied(h, f), b)
  {
    assert Counted(h, b);
    OwnersPut(h.frags, h.nextFrag, Copied(h, f).frags[h.nextFrag], b);
  }

  lemma CopyKeeps(h: Heap, f: int)
    requires Valid(h) && f in h.frags
    ensures Valid(Copied(h, f)) && Untouched(h, Copied(h, f), {}) && h.nextFrag !in h.frags
    ensures Content(Copied(h, f), h.nextFrag) == Content(h, f)
  {
    forall b
      ensures Counted(Copied(h, f), b)
    {
      CopyCounts(h, f, b);
    }
    hide Counted;
    hide Owners;
  }

  lemma Swapped(s: set<int>, n: int, f: int)
    requires f in s && n !in s
    ensures |s + {n} - {f}| == |s| && s + {n} - {f} != {}
  {
    assert s + {n} - {f} == (s - {f}) + {n};
  }

  lemma MoveConstructCounts(h: Heap, f: int, b: int)
    requires Valid(h) && f in h.frags
    ensures Counted(Moved(h, f), b)
  {
    assert Counted(h, b);
    var n, moved := h.nextFrag, h.frags[f];
    OwnersPut(h.frags, n, moved, b);
    OwnersPut(h.frags[n := moved], f, EMPTY, b);
    if moved.impl == Some(b) {
      Swapped(Owners(h.frags, b), n, f);
    } else {
      assert Owners(h.frags, b) - {n} - {f} == Owners(h.frags, b);
    }
  }

  lemma MoveConstructKeeps(h: Heap, f: int)
    requires Valid(h) && f in h.frags
    ensures Valid(Moved(h, f)) && Untouched(h, Moved(h, f), {f}) && h.nextFrag !in h.frags
    ensures Content(Moved(h, f), h.nextFrag) == Content(h, f)
  {
    forall b
      ensures Counted(Moved(h, f), b)
    {
      MoveConstructCounts(h, f, b);
    }
    hide Counted;
    hide Owners;
  }

  lemma ReleaseCounts(h: Heap, f: int, b: int)
    requires Valid(h) && f in h.frags
    ensures var h' := Release(h, h.frags[f].impl);
            var owners := Owners(h.frags, b) - {f};
            (b in h'.blocks <==> b in h.blocks && owners != {})
              && (b in h'.blocks ==> h'.blocks[b] == Block(|owners|, h.blocks[b].bytes))
  {
    assert Counted(h, b);
    var owners := Owners(h.frags, b);
    if h.frags[f].impl == Some(b) {
      assert f in owners && |owners - {f}| == |owners| - 1;
      assert owners - {f} == {} <==> |owners - {f}| == 0;
    } else {
      assert owners - {f} == owners;
    }
  }

  /** After a release the bytes that other fragments hold are still there. */
  lemma OthersHold(h: Heap, f: int)
    requires Valid(h) && f in h.frags
    ensures var h' := Release(h, h.frags[f].impl);
            && (forall b :: b in h'.blocks ==> b in h.blocks && h'.blocks[b].bytes == h.blocks[b].bytes)
            && forall g :: g in h.frags && g != f ==> InBlock(h'.blocks, h.frags[g])
  {
    var h' := Release(h, h.frags[f].impl);
    forall g | g in h.frags && g != f
      ensures InBlock(h'.blocks, h.frags[g])
    {
      if h.frags[g].impl.Some? {
        var b := h.frags[g].impl.value;
        ReleaseCounts(h, f, b);
        assert g in Owners(h.frags, b) - {f};
      }
    }
  }

  lemma DestroyCounts(h: Heap, f: int, b: int)
    requires Valid(h) && f in h.frags
    ensures Counted(Destroyed(h, f), b)
    ensures b in h.blocks ==> (b !in Destroyed(h, f).blocks <==> Owners(h.frags, b) == {f})
  {
    ReleaseCounts(h, f, b);
    OwnersRemove(h.frags, f, b);
    assert Counted(h, b);
  }

  /** The block goes exactly when no other fragment holds it. */
  lemma DestroyKeeps(h: Heap, f: int)
    requires Valid(h) && f in h.frags
    ensures Valid(Destroyed(h, f)) && Untouched(h, Destroyed(h, f), {f})
    ensures forall b :: b in h.blocks ==> (b !in Destroyed(h, f).blocks <==> Owners(h.frags, b) == {f})
  {
    forall b
      ensures Counted(Destroyed(h, f), b)
              && (b in h.blocks ==> (b !in Destroyed(h, f).blocks <==> Owners(h.frags, b) == {f}))
    {
      DestroyCounts(h, f, b);
    }
    hide Counted;
    hide Owners;
    OthersHold(h, f);
    ReleasedFrags(h, f);
    hide Release;
  }

  lemma ReleasedFrags(h: Heap, f: int)
    requires Valid(h) && f in h.frags
    ensures var h' := Release(h, h.frags[f].impl);
            h'.frags == h.frags && h'.nextBlock == h.nextBlock && h'.nextFrag == h.nextFrag
  {}

  lemma MoveAssignCounts(h: Heap, f: int, other: int, b: int)
    requires Valid(h) && f in h.frags && other in h.frags && f != other
    ensures Counted(Assigned(h, f, other), b)
  {
    var h' := Assigned(h, f, other);
    var moved, owners := h.frags[other], Owners(h.frags, b);
    ReleaseCounts(h, f, b);
    ReleasedFrags(h, f);
    OwnersPut(h.frags, f, moved, b);
    OwnersPut(h.frags[f := moved], other, EMPTY, b);
    if moved.impl == Some(b) {
      assert other in owners - {f};
      Swapped(owners - {f}, f, other);
      assert Owners(h'.frags, b) == owners - {f} + {f} - {other};
    } else {
      assert other !in owners;
      assert Owners(h'.frags, b) == owners - {f};
    }
  }

  lemma MoveAssignKeeps(h: Heap, f: int, other: int)
    requires Valid(h) && f in h.frags && other in h.frags && f != other
    ensures Valid(Assigned(h, f, other)) && Untouched(h, Assigned(h, f, other), {f, other})
    ensures Content(Assigned(h, f, other), f) == Content(h, other)
  {
    forall b
      ensures Counted(Assigned(h, f, other), b)
    {
      MoveAssignCounts(h, f, other, b);
    }
    hide Counted;
    hide Owners;
    OthersHold(h, f);
    ReleasedFrags(h, f);
    hide Release;
  }

  // ---------------------------------------------------------------- aliasing

  /** The fragments share no byte. */
  predicate Apart(a: Fragment, b: Fragment) {
    a.impl != b.impl || a.impl.None? || a.start + a.size <= b.start || b.start + b.size <= a.start
  }

  ghost predicate AllApart(h: Heap) {
    forall f, g :: f in h.frags && g in h.frags && f != g ==> Apart(h.frags[f], h.frags[g])
  }

  /** A store changes one byte of its fragment, and nothing in the fragments apart from it. */
  lemma PutKeeps(h: Heap, f: int, i: int, c: byte)
    requires Valid(h) && f in h.frags && 0 <= i < h.frags[f].size
    ensures Valid(Stored(h, f, i, c)) && Stored(h, f, i, c).frags == h.frags
    ensures Content(Stored(h, f, i, c), f) == Content(h, f)[i := c]
    ensures forall g :: g in h.frags && Apart(h.frags[f], h.frags[g]) && g != f ==>
            Content(Stored(h, f, i, c), g) == Content(h, g)
  {
    forall b
      ensures Counted(Stored(h, f, i, c), b)
    {
      assert Counted(h, b);
    }
  }

  /** Byte `i` of fragment `f` is one of `g`'s bytes. */
  predicate Sees(h: Heap, g: int, f: int, i: int)
    requires f in h.frags
  {
    && g in h.frags && h.frags[g].impl == h.frags[f].impl
    && h.frags[g].start <= h.frags[f].start + i < h.frags[g].start + h.frags[g].size
  }

  /** A store is seen by exactly the fragments that see the byte, each at its own place. */
  lemma StoreSeen(h: Heap, f: int, i: int, c: byte, g: int)
    requires Valid(h) && f in h.frags && 0 <= i < h.frags[f].size && g in h.frags
    ensures Sees(h, g, f, i) ==>
              var k := h.frags[f].start + i - h.frags[g].start;
              0 <= k < |Content(h, g)| && Content(Stored(h, f, i, c), g) == Content(h, g)[k := c]
    ensures !Sees(h, g, f, i) ==> Content(Stored(h, f, i, c), g) == Content(h, g)
  {
    hide Counted;
  }

  /** A copy shares: no block is new, its block has one owner more, and a store through the one is read by the other. */
  lemma CopyShares(h: Heap, f: int)
    requires Valid(h) && f in h.frags && h.frags[f].IsValid()
    ensures var h', n, b := Copied(h, f), h.nextFrag, h.frags[f].impl.value;
            && Valid(h') && n in h'.frags && h'.frags == h.frags[n := h.frags[f]] && n !in h.frags
            && h'.blocks.Keys == h.blocks.Keys && b in h.blocks
            && h'.blocks[b] == Block(h.blocks[b].refCount + 1, h.blocks[b].bytes)
            && Owners(h'.frags, b) == Owners(h.frags, b) + {n}
    ensures var h', n := Copied(h, f), h.nextFrag;
            forall i, c: byte :: 0 <= i < h.frags[f].size ==>
              && i < |Content(h, f)|
              && Content(Stored(h', n, i, c), f) == Content(Stored(h', n, i, c), n) == Content(h, f)[i := c]
              && Content(Stored(h', f, i, c), f) == Content(Stored(h', f, i, c), n) == Content(h, f)[i := c]
  {
    CopyKeeps(h, f);
    var h', n := Copied(h, f), h.nextFrag;
    hide Counted;
    forall i, c: byte | 0 <= i < h.frags[f].size
      ensures i < |Content(h, f)|
      ensures Content(Stored(h', n, i, c), f) == Content(Stored(h', n, i, c), n) == Content(h, f)[i := c]
      ensures Content(Stored(h', f, i, c), f) == Content(Stored(h', f, i, c), n) == Content(h, f)[i := c]
    {
      StoreSeen(h', n, i, c, f);
      StoreSeen(h', n, i, c, n);
      StoreSeen(h', f, i, c, f);
      StoreSeen(h', f, i, c, n);
    }
  }

  lemma NoNewBlocks(h: Heap, f: int)
    requires Valid(h) && f in h.frags
    ensures Destroyed(h, f).blocks.Keys <= h.blocks.Keys
    ensures forall size :: 0 <= size && Slices(h, f, size) ==> SlicedFront(h, f, size).blocks.Keys == h.blocks.Keys
  {
    hide Counted;
    assert InBlock(h.blocks, h.frags[f]);
  }

  /** So does a slice: a store through it is read by everything that read that byte before, but not by the rest. */
  lemma SliceShares(h: Heap, f: int, size: int, i: int, c: byte, g: int)
    requires Valid(h) && f in h.frags && Slices(h, f, size) && 0 <= i < size && g in h.frags
    ensures var h', n, b := SlicedFront(h, f, size), h.nextFrag, h.frags[f].impl;
            && Valid(h') && n in h'.frags && n !in h.frags && h'.frags[n].size == size && g in h'.frags
            && h'.blocks.Keys == h.blocks.Keys && b.Some? && Owners(h'.frags, b.value) == Owners(h.frags, b.value) + {n}
    ensures var h', n := SlicedFront(h, f, size), h.nextFrag;
            && (g != f && Sees(h, g, f, i) ==>
                  var k := h.frags[f].start + i - h.frags[g].start;
                  0 <= k < |Content(h, g)| && Content(Stored(h', n, i, c), g) == Content(h, g)[k := c])
            && Content(Stored(h', n, i, c), f) == Content(h', f)
            && Content(Stored(h', n, i, c), n) == Content(h', n)[i := c]
  {
    SliceKeeps(h, f, size);
    var h', n := SlicedFront(h, f, size), h.nextFrag;
    hide Counted;
    StoreSeen(h', n, i, c, g);
    StoreSeen(h', n, i, c, f);
    StoreSeen(h', n, i, c, n);
  }

  /** No other fragment shares a byte with `f`. */
  ghost predicate Sole(h: Heap, f: int) {
    f in h.frags && forall g :: g in h.frags && g != f ==> Apart(h.frags[f], h.frags[g])
  }

  /** From `h` to `h'` only fragments in `s` were changed or destroyed, and no fragment that was sole got company. */
  ghost predicate Follows(h: Heap, h': Heap, s: set<int>) {
    && h.nextFrag <= h'.nextFrag && (forall f :: f in h'.frags ==> f in h.frags || f >= h.nextFrag)
    && Untouched(h, h', s)
    && forall f :: f in h'.frags && Sole(h, f) ==> Sole(h', f)
  }

  lemma FollowsSelf(h: Heap, s: set<int>)
    ensures Follows(h, h, s)
  {}

  lemma FollowsWider(h: Heap, h': Heap, s: set<int>, t: set<int>)
    requires Follows(h, h', s) && s <= t
    ensures Follows(h, h', t)
  {}

  lemma UntouchedOn(h: Heap, h': Heap, h'': Heap, s: set<int>, t: set<int>)
    requires Untouched(h, h', s) && Untouched(h', h'', t) && forall f :: f in t && f in h.frags ==> f in s
    ensures Untouched(h, h'', s)
  {}

  lemma FollowsOn(h: Heap, h': Heap, h'': Heap, s: set<int>, t: set<int>)
    requires Valid(h) && Follows(h, h', s) && Follows(h', h'', t) && forall f :: f in t && f in h.frags ==> f in s
    ensures Follows(h, h'', s)
  {
    hide Sole;
    hide Content;
    hide InBlock;
    forall f | f in h''.frags && Sole(h, f)
      ensures Sole(h'', f)
    {
      assert f in h.frags by { SoleHere(h, f); }
      assert f in h'.frags;
    }
  }

  lemma SoleHere(h: Heap, f: int)
    requires Sole(h, f)
    ensures f in h.frags
  {}

  lemma CreateFollows(h: Heap, raw: seq<byte>)
    requires Valid(h)
    ensures Follows(h, Created(h, raw), {}) && Sole(Created(h, raw), h.nextFrag)
  {
    CreateKeeps(h, raw);
    hide Counted;
    hide Untouched;
    forall f | f in h.frags
      ensures h.frags[f].impl != Some(h.nextBlock)
    {
      assert InBlock(h.blocks, h.frags[f]);
    }
  }

  lemma SliceFollows(h: Heap, f: int, size: int)
    requires Valid(h) && f in h.frags && Slices(h, f, size) && 0 <= size
    ensures Follows(h, SlicedFront(h, f, size), {f})
  {
    SliceUntouched(h, f, size);
    hide Untouched;
    hide Counted;
  }

  lemma DestroyFollows(h: Heap, f: int)
    requires Valid(h) && f in h.frags
    ensures Follows(h, Destroyed(h, f), {f})
  {
    DestroyKeeps(h, f);
    ReleasedFrags(h, f);
    hide Release;
    hide Valid;
    hide Untouched;
  }

  // ---------------------------------------------------------------- runs

  datatype Op =
    | OpCreate(raw: seq<byte>)
    | OpSlice(f: int, size: nat)
    | OpCopy(f: int)
    | OpMove(f: int)
    | OpAssign(f: int, other: int)
    | OpDestroy(f: int)
    | OpPut(f: int, i: nat, c: byte)

  /** Operations on objects that exist; every other call is as the code allows it. */
  predicate Legal(h: Heap, op: Op) {
    match op
    case OpCreate(raw) => raw != []
    case OpSlice(f, _) => f in h.frags
    case OpCopy(f) => f in h.frags
    case OpMove(f) => f in h.frags
    case OpAssign(f, other) => f in h.frags && other in h.frags && f != other
    case OpDestroy(f) => f in h.frags
    case OpPut(f, i, _) => f in h.frags && i < h.frags[f].size
  }

  function Step(h: Heap, op: Op): Heap
    requires Valid(h) && Legal(h, op)
  {
    match op
    case OpCreate(raw) => Created(h, raw)
    case OpSlice(f, size) => if Slices(h, f, size) then SlicedFront(h, f, size) else h
    case OpCopy(f) => Copied(h, f)
    case OpMove(f) => Moved(h, f)
    case OpAssign(f, other) => Assigned(h, f, other)
    case OpDestroy(f) => Destroyed(h, f)
    case OpPut(f, i, c) => Stored(h, f, i, c)
  }

  /** The fragments an operation may change: its own objects, and for a store all that share bytes with its fragment. */
  function Touched(h: Heap, op: Op): set<int>
    requires Legal(h, op)
  {
    match op
    case OpCreate(_) => {}
    case OpSlice(f, _) => {f}
    case OpCopy(_) => {}
    case OpMove(f) => {f}
    case OpAssign(f, other) => {f, other}
    case OpDestroy(f) => {f}
    case OpPut(f, _, _) => {f} + set g | g in h.frags && !Apart(h.frags[f], h.frags[g])
  }

  lemma StepUntouched(h: Heap, op: Op)
    requires Valid(h) && Legal(h, op)
    ensures Valid(Step(h, op)) && Untouched(h, Step(h, op), Touched(h, op))
  {
    match op {
      case OpCreate(raw) => { CreateKeeps(h, raw); }
      case OpSlice(f, size) => { if Slices(h, f, size) { SliceKeeps(h, f, size); } }
      case OpCopy(f) => { CopyKeeps(h, f); }
      case OpMove(f) => { MoveConstructKeeps(h, f); }
      case OpAssign(f, other) => { MoveAssignKeeps(h, f, other); }
      case OpDestroy(f) => { DestroyKeeps(h, f); }
      case OpPut(f, i, c) => { PutKeeps(h, f, i, c); }
    }
  }

  lemma StepValid(h: Heap, op: Op)
    requires Valid(h) && Legal(h, op)
    ensures Valid(Step(h, op))
  {
    StepUntouched(h, op);
  }

  /** A fragment that shares its bytes with no other stays so, unless it is the one that is copied. */
  lemma StepSole(h: Heap, op: Op, f: int)
    requires Valid(h) && Legal(h, op) && Sole(h, f) && f !in Touched(h, op) && op != OpCopy(f)
    ensures Sole(Step(h, op), f)
  {
    hide Counted;
    hide Owners;
    match op {
      case OpCreate(raw) => { assert InBlock(h.blocks, h.frags[f]); }
      case OpSlice(g, size) => { assert InBlock(h.blocks, h.frags[g]); }
      case OpCopy(g) => {}
      case OpMove(g) => {}
      case OpAssign(g, other) => {}
      case OpDestroy(g) => {}
      case OpPut(g, i, c) => {}
    }
  }

  /** Operations that leave the fragments in `keep` alone, one after the other. */
  ghost predicate Elsewhere(h: Heap, ops: seq<Op>, keep: set<int>)
    requires Valid(h)
    decreases |ops|
  {
    ops == [] ||
    (Legal(h, ops[0]) && Touched(h, ops[0]) !! keep
     && (StepValid(h, ops[0]); Elsewhere(Step(h, ops[0]), ops[1..], keep)))
  }

  ghost function After(h: Heap, ops: seq<Op>, keep: set<int>): Heap
    requires Valid(h) && Elsewhere(h, ops, keep)
    decreases |ops|
  {
    if ops == [] then h
    else
      StepValid(h, ops[0]);
      After(Step(h, ops[0]), ops[1..], keep)
  }

  /** `hs` are the states of a run of `ops`. */
  ghost predicate IsRun(hs: seq<Heap>, ops: seq<Op>) {
    && |hs| == |ops| + 1 && hs[0] == Heap(map[], map[], 0, 0)
    && forall i :: 0 <= i < |ops| ==> Valid(hs[i]) ==> Legal(hs[i], ops[i]) && hs[i + 1] == Step(hs[i], ops[i])
  }

  lemma RunStep(hs: seq<Heap>, ops: seq<Op>, i: nat)
    requires IsRun(hs, ops) && i < |ops| && Valid(hs[i])
    ensures Legal(hs[i], ops[i]) && hs[i + 1] == Step(hs[i], ops[i])
  {
    hide Legal;
    hide Step;
    hide Valid;
  }

  /** After any run a block exists exactly while a fragment holds it, and its count is the number of those. */
  lemma {:induction false} RunCounts(hs: seq<Heap>, ops: seq<Op>, i: nat, b: int)
    requires IsRun(hs, ops) && i < |hs|
    ensures Valid(hs[i])
    ensures b in hs[i].blocks <==> Owners(hs[i].frags, b) != {}
    ensures b in hs[i].blocks ==> hs[i].blocks[b].refCount == |Owners(hs[i].frags, b)|
  {
    hide Step;
    hide Owners;
    hide InBlock;
    if i > 0 {
      RunCounts(hs, ops, i - 1, b);
      hide Legal;
      hide Valid;
      RunStep(hs, ops, i - 1);
      StepValid(hs[i - 1], ops[i - 1]);
    } else {
      NothingYet();
    }
    HeldExists(hs[i], b);
  }

  lemma NothingYet()
    ensures Valid(Heap(map[], map[], 0, 0))
  {}

  lemma HeldExists(h: Heap, b: int)
    requires Valid(h)
    ensures b in h.blocks <==> Owners(h.frags, b) != {}
    ensures Counted(h, b)
  {
    assert Counted(h, b);
    if b !in h.blocks {
      forall f | f in h.frags
        ensures h.frags[f].impl != Some(b)
      {
        assert InBlock(h.blocks, h.frags[f]);
      }
      assert Owners(h.frags, b) == {};
    }
  }

  lemma StepApart(h: Heap, op: Op)
    requires Valid(h) && Legal(h, op) && AllApart(h) && !op.OpCopy?
    ensures AllApart(Step(h, op))
  {
    hide Counted;
    hide Owners;
    match op {
      case OpCreate(raw) => {
        assert forall f :: f in h.frags ==> InBlock(h.blocks, h.frags[f]) && h.frags[f].impl != Some(h.nextBlock);
      }
      case OpSlice(f, size) => {}
      case OpMove(f) => {}
      case OpAssign(f, other) => {}
      case OpDestroy(f) => {}
      case OpPut(f, i, c) => {}
    }
  }

  /** Without shallow copies no two fragments ever share a byte. */
  lemma {:induction false} RunApart(hs: seq<Heap>, ops: seq<Op>, i: nat)
    requires IsRun(hs, ops) && i < |hs| && forall j :: 0 <= j < |ops| ==> !ops[j].OpCopy?
    ensures Valid(hs[i]) && AllApart(hs[i])
  {
    RunCounts(hs, ops, i, 0);
    if i > 0 {
      RunApart(hs, ops, i - 1);
      hide Valid;
      hide Step;
      hide Legal;
      hide AllApart;
      RunStep(hs, ops, i - 1);
      StepApart(hs[i - 1], ops[i - 1]);
    }
  }

  // ---------------------------------------------------------------- the objects in memory

  class Memory {
    var heap: Heap

    constructor ()
      ensures heap == Heap(map[], map[], 0, 0) && Valid(heap)
    {
      heap := Heap(map[], map[], 0, 0);
    }

    method Create(raw: seq<byte>) returns (f: int)
      requires Valid(heap) && raw != []
      modifies this
      ensures heap == Created(old(heap), raw) && f == old(heap.nextFrag)
    {
      var b := heap.nextBlock;
      heap := heap.(blocks := heap.blocks[b := Block(1, raw)], nextBlock := b + 1);
      f := heap.nextFrag;
      heap := heap.(frags := heap.frags[f := Fragment(Some(b), 0, |raw|)], nextFrag := f + 1);
    }

    method SliceFront(f: int, size: int) returns (result: Option<int>)
      requires Valid(heap) && f in heap.frags && 0 <= size
      modifies this
      ensures result.Some? == Slices(old(heap), f, size)
      ensures heap == if result.Some? then SlicedFront(old(heap), f, size) else old(heap)
      ensures result.Some? ==> result.value == old(heap.nextFrag)
    {
      var fr := heap.frags[f];
      if size >= fr.size {
        return None;
      }
      var n := heap.nextFrag;
      heap := heap.(frags := heap.frags[n := Fragment(fr.impl, fr.start, size)], nextFrag := n + 1);
      heap := heap.(frags := heap.frags[f := Fragment(fr.impl, fr.start + size, fr.size - size)]);
      heap := Retain(heap, fr.impl.value);
      return Some(n);
    }

    method ShallowCopy(f: int) returns (result: int)
      requires Valid(heap) && f in heap.frags
      modifies this
      ensures heap == Copied(old(heap), f) && result == old(heap.nextFrag)
      ensures heap.frags ==
              old(heap.frags)[result := if old(heap.frags[f].IsValid()) then old(heap.frags[f]) else EMPTY]
      ensures heap.blocks.Keys == old(heap.blocks.Keys) && result !in old(heap.frags)
    {
      var fr := heap.frags[f];
      result := heap.nextFrag;
      if !fr.IsValid() {
        heap := heap.(frags := heap.frags[result := EMPTY], nextFrag := result + 1);
        return;
      }
      heap := heap.(frags := heap.frags[result := fr], nextFrag := result + 1);
      heap := Retain(heap, fr.impl.value);
    }

    method MoveConstruct(other: int) returns (f: int)
      requires Valid(heap) && other in heap.frags
      modifies this
      ensures heap == Moved(old(heap), other) && f == old(heap.nextFrag)
    {
      f := heap.nextFrag;
      heap := heap.(frags := heap.frags[f := heap.frags[other]][other := EMPTY], nextFrag := f + 1);
    }

    method MoveAssign(f: int, other: int)
      requires Valid(heap) && f in heap.frags && other in heap.frags && f != other
      modifies this
      ensures heap == Assigned(old(heap), f, other)
    {
      if heap.frags[f].impl.Some? {
        heap := Release(heap, heap.frags[f].impl);
      }
      heap := heap.(frags := heap.frags[f := heap.frags[other]][other := EMPTY]);
    }

    method Destroy(f: int)
      requires Valid(heap) && f in heap.frags
      modifies this
      ensures heap == Destroyed(old(heap), f)
    {
      if heap.frags[f].impl.Some? {
        heap := Release(heap, heap.frags[f].impl);
      }
      heap := heap.(frags := heap.frags - {f});
    }

    method Store(f: int, i: int, c: byte)
      requires Valid(heap) && f in heap.frags && 0 <= i < heap.frags[f].size
      modifies this
      ensures heap == Stored(old(heap), f, i, c)
    {
      var fr := heap.frags[f];
      var b := fr.impl.value;
      heap := heap.(blocks := heap.blocks[b := heap.blocks[b].(bytes := heap.blocks[b].bytes[fr.start + i := c])]);
    }
  }
}

/** A buffer: a rope of fragments that reads as one sequence of bytes. */
module Buffers {
  import opened Fragments

  function Piece(h: Heap, f: int): seq<byte> {
    if f in h.frags && InBlock(h.blocks, h.frags[f]) then Content(h, f) else []
  }

  /** What iterating over the fragments yields. */
  function Bytes(h: Heap, fs: seq<int>): seq<byte> {
    if fs == [] then [] else Bytes(h, fs[..|fs| - 1]) + Piece(h, fs[|fs| - 1])
  }

  function PieceSize(h: Heap, f: int): int {
    if f in h.frags then h.frags[f].size else 0
  }

  /** CalculateSize */
  function Total(h: Heap, fs: seq<int>): int {
    if fs == [] then 0 else Total(h, fs[..|fs| - 1]) + PieceSize(h, fs[|fs| - 1])
  }

  predicate Distinct(fs: seq<int>) {
    forall i, j :: 0 <= i < j < |fs| ==> fs[i] != fs[j]
  }

  ghost predicate IsRope(h: Heap, fs: seq<int>) {
    && Distinct(fs)
    && (forall f :: f in fs ==> f in h.frags && h.frags[f].IsValid())
  }

  ghost predicate Disjoint(a: seq<int>, b: seq<int>) { forall f :: f in a ==> f !in b }

  function Ids(fs: seq<int>): set<int> { set f | f in fs }

  lemma BytesOne(h: Heap, f: int)
    ensures Bytes(h, [f]) == Piece(h, f) && Total(h, [f]) == PieceSize(h, f)
  {
    assert [f][..0] == [];
  }

  lemma BytesSnoc(h: Heap, a: seq<int>, f: int)
    ensures Bytes(h, a + [f]) == Bytes(h, a) + Piece(h, f) && Total(h, a + [f]) == Total(h, a) + PieceSize(h, f)
  {
    assert (a + [f])[..|a|] == a;
  }

  lemma BytesNone(h: Heap)
    ensures Bytes(h, []) == [] && Total(h, []) == 0
  {}

  lemma {:induction false} BytesConcat(h: Heap, a: seq<int>, b: seq<int>)
    ensures Bytes(h, a + b) == Bytes(h, a) + Bytes(h, b) && Total(h, a + b) == Total(h, a) + Total(h, b)
  {
    hide *;
    if b == [] {
      assert a + b == a;
      BytesNone(h);
    } else {
      var b', f := b[..|b| - 1], b[|b| - 1];
      assert a + b == (a + b') + [f] && b == b' + [f];
      BytesConcat(h, a, b');
      BytesSnoc(h, a + b', f);
      BytesSnoc(h, b', f);
    }
  }

  lemma PieceLength(h: Heap, f: int)
    requires Fragments.Valid(h) && f in h.frags
    ensures |Piece(h, f)| == PieceSize(h, f) && InBlock(h.blocks, h.frags[f])
  {}

  lemma {:induction false} BytesLength(h: Heap, fs: seq<int>)
    requires Fragments.Valid(h) && IsRope(h, fs)
    ensures |Bytes(h, fs)| == Total(h, fs) >= |fs|
  {
    if fs != [] {
      hide Valid;
      hide Piece;
      BytesLength(h, fs[..|fs| - 1]);
      PieceLength(h, fs[|fs| - 1]);
    }
  }

  /** A rope that lies outside `s` is not affected by what happens in `s`. */
  lemma {:induction false} RopeUntouched(h: Heap, h': Heap, fs: seq<int>, s: set<int>)
    requires Fragments.Valid(h) && IsRope(h, fs) && Untouched(h, h', s) && forall f :: f in fs ==> f !in s
    ensures IsRope(h', fs) && Bytes(h', fs) == Bytes(h, fs) && Total(h', fs) == Total(h, fs)
  {
    hide Counted;
    hide Content;
    hide InBlock;
    if fs != [] {
      RopeUntouched(h, h', fs[..|fs| - 1], s);
    }
  }

  lemma RopeKept(h: Heap, h': Heap, fs: seq<int>, s: set<int>)
    requires Fragments.Valid(h) && IsRope(h, fs) && Follows(h, h', s) && forall f :: f in fs ==> f !in s
    ensures IsRope(h', fs) && Bytes(h', fs) == Bytes(h, fs) && Total(h', fs) == Total(h, fs)
  {
    RopeUntouched(h, h', fs, s);
  }

  /** What is done to other fragments, of the same blocks or not, leaves a rope alone, but for stores into bytes it
      shares. */
  lemma RopeStep(h: Heap, op: Op, fs: seq<int>)
    requires Fragments.Valid(h) && IsRope(h, fs) && Legal(h, op) && Touched(h, op) !! Ids(fs)
    ensures Fragments.Valid(Step(h, op)) && IsRope(Step(h, op), fs)
    ensures Bytes(Step(h, op), fs) == Bytes(h, fs) && Total(Step(h, op), fs) == Total(h, fs)
  {
    StepUntouched(h, op);
    assert forall f :: f in fs ==> f in Ids(fs);
    hide Touched;
    hide Step;
    RopeUntouched(h, Step(h, op), fs, Touched(h, op));
  }

  lemma {:induction false} RopeAfter(h: Heap, ops: seq<Op>, fs: seq<int>, keep: set<int>)
    requires Fragments.Valid(h) && IsRope(h, fs) && Elsewhere(h, ops, keep) && Ids(fs) <= keep
    ensures var h' := After(h, ops, keep);
            && Fragments.Valid(h') && IsRope(h', fs) && Bytes(h', fs) == Bytes(h, fs) && Total(h', fs) == Total(h, fs)
    decreases |ops|
  {
    if ops != [] {
      RopeStep(h, ops[0], fs);
      hide Step;
      hide Legal;
      hide Touched;
      hide Fragments.Valid;
      hide IsRope;
      RopeAfter(Step(h, ops[0]), ops[1..], fs, keep);
    }
  }

  /** A store leaves a rope alone if and only if it writes the byte that is there, or none of its fragments sees it. */
  lemma RopeStored(h: Heap, f: int, i: int, c: byte, fs: seq<int>)
    requires Fragments.Valid(h) && IsRope(h, fs) && f in h.frags && 0 <= i < h.frags[f].size
    ensures i < |Content(h, f)|
    ensures Bytes(Stored(h, f, i, c), fs) == Bytes(h, fs) <==>
            c == Content(h, f)[i] || forall g :: g in fs ==> !Sees(h, g, f, i)
  {
    var h' := Stored(h, f, i, c);
    PutKeeps(h, f, i, c);
    forall g | g in fs
      ensures |Piece(h', g)| == |Piece(h, g)|
      ensures Piece(h', g) == Piece(h, g) <==> c == Content(h, f)[i] || !Sees(h, g, f, i)
    {
      PieceStored(h, f, i, c, g);
    }
    hide Fragments.Valid;
    hide Stored;
    hide Content;
    hide Piece;
    hide IsRope;
    SameAsPieces(h, h', fs);
  }

  lemma PieceStored(h: Heap, f: int, i: int, c: byte, g: int)
    requires Fragments.Valid(h) && f in h.frags && g in h.frags && 0 <= i < h.frags[f].size
    ensures |Piece(Stored(h, f, i, c), g)| == |Piece(h, g)|
    ensures Piece(Stored(h, f, i, c), g) == Piece(h, g) <==> c == Content(h, f)[i] || !Sees(h, g, f, i)
  {
    hide Counted;
    var h', fr := Stored(h, f, i, c), h.frags[g];
    if Sees(h, g, f, i) {
      var k := h.frags[f].start + i - fr.start;
      assert Piece(h, g)[k] == Content(h, f)[i] && Piece(h', g)[k] == c;
    }
  }

  /** Two ropes whose pieces have the same lengths read the same if and only if all their pieces do. */
  lemma {:induction false} SameAsPieces(h: Heap, h': Heap, fs: seq<int>)
    requires forall g :: g in fs ==> |Piece(h', g)| == |Piece(h, g)|
    ensures |Bytes(h', fs)| == |Bytes(h, fs)|
    ensures Bytes(h', fs) == Bytes(h, fs) <==> forall g :: g in fs ==> Piece(h', g) == Piece(h, g)
  {
    hide Piece;
    if fs != [] {
      var a, f := fs[..|fs| - 1], fs[|fs| - 1];
      SameAsPieces(h, h', a);
      assert fs == a + [f];
      JoinedSame(Bytes(h, a), Piece(h, f), Bytes(h', a), Piece(h', f));
    }
  }

  lemma JoinedSame<T>(a: seq<T>, b: seq<T>, a': seq<T>, b': seq<T>)
    requires |a| == |a'|
    ensures a + b == a' + b' <==> a == a' && b == b'
  {
    if a + b == a' + b' {
      assert a == (a + b)[..|a|] && a' == (a' + b')[..|a|] && b == (a + b)[|a|..] && b' == (a' + b')[|a|..];
    }
  }

  lemma RopeParts(h: Heap, a: seq<int>, b: seq<int>)
    requires IsRope(h, a + b)
    ensures IsRope(h, a) && IsRope(h, b) && Disjoint(a, b)
  {
    var fs := a + b;
    assert forall i :: 0 <= i < |a| ==> fs[i] == a[i];
    assert forall j :: 0 <= j < |b| ==> fs[|a| + j] == b[j];
    assert forall f :: f in a || f in b ==> f in fs;
    DistinctParts(a, b);
    hide Distinct;
  }

  lemma DistinctParts(a: seq<int>, b: seq<int>)
    requires Distinct(a + b)
    ensures Distinct(a) && Distinct(b) && Disjoint(a, b)
  {
    var fs := a + b;
    assert forall i :: 0 <= i < |a| ==> fs[i] == a[i];
    assert forall j :: 0 <= j < |b| ==> fs[|a| + j] == b[j];
    forall i, j | 0 <= i < j < |b|
      ensures b[i] != b[j]
    {
      assert fs[|a| + i] != fs[|a| + j];
    }
    forall f | f in a
      ensures f !in b
    {
      var i :| 0 <= i < |a| && a[i] == f;
      forall j | 0 <= j < |b|
        ensures b[j] != f
      {
        assert fs[i] != fs[|a| + j];
      }
    }
  }

  lemma RopeJoined(h: Heap, a: seq<int>, b: seq<int>)
    requires IsRope(h, a) && IsRope(h, b) && Disjoint(a, b)
    ensures IsRope(h, a + b)
  {
    var fs := a + b;
    forall i, j | 0 <= i < j < |fs|
      ensures fs[i] != fs[j]
    {
      if i < |a| <= j {
        assert fs[i] in a && fs[j] in b;
      }
    }
  }

  lemma SliceTarget(h: Heap, f: int, k: int)
    requires Fragments.Valid(h) && f in h.frags && 0 < k < h.frags[f].size
    ensures Slices(h, f, k)
    ensures var h', n := SlicedFront(h, f, k), h.nextFrag;
            && Valid(h') && Follows(h, h', {f}) && n !in h.frags && n != f
            && IsRope(h', [n]) && IsRope(h', [f])
            && Bytes(h', [n]) == Piece(h, f)[..k] && Bytes(h', [f]) == Piece(h, f)[k..]
            && Total(h', [f]) == h.frags[f].size - k
  {
    var h', n := SlicedFront(h, f, k), h.nextFrag;
    SliceKeeps(h, f, k);
    SliceFollows(h, f, k);
    PieceLength(h, f);
    PieceLength(h', n);
    PieceLength(h', f);
    BytesOne(h', n);
    BytesOne(h', f);
    hide Valid;
    hide Follows;
    hide Content;
    hide Bytes;
    hide Total;
  }

  /** Slicing a fragment in the middle of a rope splits the rope there. */
  lemma SplitRope(h: Heap, pre: seq<int>, f: int, post: seq<int>, k: int)
    requires Fragments.Valid(h) && IsRope(h, pre + [f] + post) && f in h.frags && 0 < k < h.frags[f].size
    ensures Slices(h, f, k)
    ensures var h', n := SlicedFront(h, f, k), h.nextFrag;
            && Valid(h') && Follows(h, h', {f}) && n !in h.frags
            && IsRope(h', pre + [n]) && IsRope(h', [f] + post) && Disjoint(pre + [n], [f] + post)
            && Bytes(h', pre + [n]) == Bytes(h, pre) + Piece(h, f)[..k]
            && Bytes(h', [f] + post) == Piece(h, f)[k..] + Bytes(h, post)
            && Total(h', [f] + post) == h.frags[f].size - k + Total(h, post)
  {
    var h', n := SlicedFront(h, f, k), h.nextFrag;
    RopeParts(h, pre + [f], post);
    RopeParts(h, pre, [f]);
    RopeMembers(h, pre);
    RopeMembers(h, post);
    SliceTarget(h, f, k);
    hide *;
    DisjointFour(pre, f, post, n);
    RopeKept(h, h', pre, {f});
    RopeKept(h, h', post, {f});
    RopeJoined(h', pre, [n]);
    RopeJoined(h', [f], post);
    BytesConcat(h', pre, [n]);
    BytesConcat(h', [f], post);
  }

  lemma RopeMembers(h: Heap, fs: seq<int>)
    requires IsRope(h, fs)
    ensures forall f :: f in fs ==> f in h.frags
  {}

  lemma DisjointFour(pre: seq<int>, f: int, post: seq<int>, n: int)
    requires Disjoint(pre + [f], post) && Disjoint(pre, [f]) && n !in pre && n !in post && n != f
    ensures Disjoint(pre, [n]) && Disjoint([f], post) && Disjoint(pre + [n], [f] + post)
    ensures (forall g :: g in pre ==> g !in {f}) && (forall g :: g in post ==> g !in {f})
  {
    assert f in pre + [f];
    assert forall g :: g in pre ==> g in pre + [f];
  }

  /** The rope `all` became `taken`, its first `n` bytes, and `rest`; other fragments are as they were. */
  ghost predicate Cut(h: Heap, all: seq<int>, n: int, h': Heap, taken: seq<int>, rest: seq<int>) {
    && Valid(h') && Follows(h, h', Ids(all))
    && IsRope(h', taken) && IsRope(h', rest) && Disjoint(taken, rest)
    && (forall f :: f in taken ==> f in all || f !in h.frags) && (forall f :: f in rest ==> f in all)
    && Bytes(h', taken) + Bytes(h', rest) == Bytes(h, all)
    && |Bytes(h', taken)| == Total(h', taken) == n && Total(h', rest) == Total(h, all) - n
  }

  // ---------------------------------------------------------------- the class

  class Buffer {
    const mem: Memory
    var size: int
    var fragments: seq<int>

    constructor (m: Memory)
      requires Fragments.Valid(m.heap)
      ensures mem == m && fragments == [] && size == 0 && Valid()
    {
      mem, size, fragments := m, 0, [];
    }

    ghost predicate Valid()
      reads this, mem
    {
      Fragments.Valid(mem.heap) && IsRope(mem.heap, fragments) && size == Total(mem.heap, fragments)
    }

    /** The bytes of the buffer, in order. */
    function Contents(): seq<byte>
      reads this, mem
    {
      Bytes(mem.heap, fragments)
    }

    /** Takes the fragment; an invalid one is dropped, which destroys it. */
    method Add(f: int)
      requires Valid() && f in mem.heap.frags && f !in fragments
      modifies this, mem
      ensures Valid() && Follows(old(mem.heap), mem.heap, {f})
      ensures fragments == (if old(mem.heap.frags[f].IsValid()) then old(fragments) + [f] else old(fragments))
      ensures Contents() == old(Contents()) + old(Piece(mem.heap, f))
      ensures size == old(size) + (if old(mem.heap.frags[f].IsValid()) then old(mem.heap.frags[f].size) else 0)
      ensures old(mem.heap.frags[f].IsValid()) ==> mem.heap == old(mem.heap)
    {
      ghost var h := mem.heap;
      if !mem.heap.frags[f].IsValid() {
        mem.Destroy(f);
        InvalidDropped(h, fragments, f);
        return;
      }
      size := size + mem.heap.frags[f].size;
      fragments := fragments + [f];
      Extended(h, old(fragments), f);
      FollowsSelf(h, {f});
    }

    method Clear()
      requires Valid()
      modifies this, mem
      ensures Fragments.Valid(mem.heap) && fragments == [] && size == 0
      ensures Follows(old(mem.heap), mem.heap, old(Ids(fragments)))
      ensures forall f :: f in old(fragments) ==> f !in mem.heap.frags
      ensures mem.heap.blocks.Keys <= old(mem.heap.blocks.Keys)
    {
      hide *;
      ghost var h := mem.heap;
      Opened(this);
      size := 0;
      FollowsSelf(h, Ids(fragments));
      var i := 0;
      assert fragments[0..] == fragments;
      while i < |fragments|
        invariant 0 <= i <= |fragments| && fragments == old(fragments) && size == 0
        invariant Fragments.Valid(mem.heap) && IsRope(mem.heap, fragments[i..])
        invariant Follows(h, mem.heap, Ids(fragments)) && mem.heap.blocks.Keys <= h.blocks.Keys
        invariant forall j :: 0 <= j < i ==> fragments[j] !in mem.heap.frags
      {
        OneDestroyed(h, mem.heap, fragments, i);
        NoNewBlocks(mem.heap, fragments[i]);
        mem.Destroy(fragments[i]);
        i := i + 1;
      }
      fragments := [];
    }

    /** `*this = std::move(other)`: the fragments held so far are destroyed. */
    method MoveAssign(other: Buffer)
      requires Valid() && other.Valid() && other != this && other.mem == mem && Disjoint(fragments, other.fragments)
      modifies this, other, mem
      ensures Valid() && other.fragments == [] && other.size == 0
      ensures fragments == old(other.fragments) && size == old(other.size) && Contents() == old(other.Contents())
      ensures Follows(old(mem.heap), mem.heap, old(Ids(fragments)))
      ensures mem.heap.blocks.Keys <= old(mem.heap.blocks.Keys)
    {
      ghost var h := mem.heap;
      Opened(other);
      Clear();
      RopeKept(h, mem.heap, other.fragments, old(Ids(fragments)));
      size, other.size := other.size, 0;
      fragments, other.fragments := other.fragments, [];
    }

    /** Moves the first `n` bytes to `result`, or does nothing when there are not that many. */
    method SliceFront(result: Buffer, n: int) returns (ok: bool)
      requires Valid() && result.Valid() && result != this && result.mem == mem && Disjoint(fragments, result.fragments)
      modifies this, result, mem
      ensures ok == (0 < n <= old(size))
      ensures !ok ==> mem.heap == old(mem.heap) && unchanged(this) && unchanged(result)
      ensures Valid() && result.Valid() && Disjoint(fragments, result.fragments)
      ensures ok ==> result.Contents() + Contents() == old(Contents())
      ensures ok ==> |result.Contents()| == result.size == n && size == old(size) - n
      ensures forall f :: f in fragments ==> f in old(fragments)
      ensures ok ==> forall f :: f in result.fragments ==> f in old(fragments) || f !in old(mem.heap.frags)
      ensures Follows(old(mem.heap), mem.heap, old(Ids(fragments)) + old(Ids(result.fragments)))
      ensures mem.heap.blocks.Keys <= old(mem.heap.blocks.Keys)
    {
      hide Bytes;
      hide Total;
      hide IsRope;
      hide Follows;
      hide Fragments.Valid;
      hide Cut;
      hide Disjoint;
      hide Ids;
      ghost var h, all, before := mem.heap, fragments, result.fragments;
      FollowsSelf(h, Ids(all) + Ids(before));
      if n <= 0 || size < n {
        return false;
      }
      var newBuffer := new Buffer(mem);
      var taken := TakeFront(n);
      newBuffer.size, newBuffer.fragments, size := n, taken, size - n;
      ghost var h1 := mem.heap;
      AfterCut(h, all, n, h1, taken, fragments, before);
      result.MoveAssign(newBuffer);
      AfterMove(h, all, n, h1, taken, fragments, before, mem.heap);
      return true;
    }

    /** Takes over all the fragments of `other`. */
    method MergeBack(other: Buffer)
      requires Valid() && other.Valid() && other != this && other.mem == mem && Disjoint(fragments, other.fragments)
      requires other.size > 0
      modifies this, other
      ensures Valid() && other.Valid() && other.fragments == []
      ensures fragments == old(fragments) + old(other.fragments) && size == old(size) + old(other.size)
      ensures Contents() == old(Contents()) + old(other.Contents())
    {
      hide Bytes;
      hide Total;
      RopeJoined(mem.heap, fragments, other.fragments);
      BytesConcat(mem.heap, fragments, other.fragments);
      hide IsRope;
      size := size + other.size;
      fragments := fragments + other.fragments;
      other.size, other.fragments := 0, [];
      NoRope(mem.heap);
    }

    /** Another buffer over the same blocks, byte for byte equal. */
    method ShallowCopy() returns (result: Buffer)
      requires Valid()
      modifies mem
      ensures fresh(result) && result.mem == mem && Valid() && result.Valid() && result.size == size
      ensures result.Contents() == Contents() == old(Contents())
      ensures Untouched(old(mem.heap), mem.heap, {})
      ensures forall f :: f in result.fragments ==> f !in old(mem.heap.frags)
      ensures SharedSoFar(old(mem.heap), fragments, |fragments|, mem.heap, result.fragments)
    {
      assert Contents() == Bytes(mem.heap, fragments);
      hide *;
      Opened(this);
      var copies := CopyAll(mem, fragments);
      result := new Buffer(mem);
      result.size, result.fragments := size, copies;
      CopyEnd(this, result, old(mem.heap));
    }

    /** The loop of SliceFront: the fragments of the first `n` bytes leave, the last of them split if need be. */
    method TakeFront(n: int) returns (taken: seq<int>)
      requires Valid() && 0 < n <= size
      modifies this, mem
      ensures Cut(old(mem.heap), old(fragments), n, mem.heap, taken, fragments) && size == old(size)
      ensures mem.heap.blocks.Keys <= old(mem.heap.blocks.Keys)
    {
      hide *;
      ghost var h, all := mem.heap, fragments;
      Opened(this);
      var sum, i := 0, 0;
      assert all[..0] == [] && all[..|all|] == all;
      BytesNone(h);
      while i < |fragments|
        invariant 0 <= i <= |all| && mem.heap == h && fragments == all && size == old(size)
        invariant sum == Total(h, all[..i]) < n
      {
        CutAt(h, all, i);
        var f := fragments[i];
        var newSum := sum + mem.heap.frags[f].size;
        if newSum > n {
          taken, fragments := fragments[..i], fragments[i..];
          TakenSplit(h, all, i, n);
          NoNewBlocks(h, f);
          var sliced := mem.SliceFront(f, n - sum);
          taken := taken + [sliced.value];
          return;
        } else if newSum == n {
          taken, fragments := fragments[..i + 1], fragments[i + 1..];
          TakenWhole(h, all, i + 1);
          return;
        }
        sum, i := newSum, i + 1;
      }
      assert false;
    }
  }

  lemma AfterCut(h: Heap, all: seq<int>, n: int, h1: Heap, taken: seq<int>, rest: seq<int>, before: seq<int>)
    requires Fragments.Valid(h) && Cut(h, all, n, h1, taken, rest) && IsRope(h, before) && Disjoint(all, before)
    ensures Fragments.Valid(h1) && IsRope(h1, before) && Total(h1, before) == Total(h, before)
    ensures IsRope(h1, taken) && IsRope(h1, rest) && Total(h1, taken) == n && Total(h1, rest) == Total(h, all) - n
    ensures Disjoint(before, taken) && Disjoint(rest, before)
    ensures Bytes(h1, taken) + Bytes(h1, rest) == Bytes(h, all) && |Bytes(h1, taken)| == n
  {
    RopeMembers(h, before);
    assert forall f :: f in before ==> f !in Ids(all);
    RopeKept(h, h1, before, Ids(all));
    hide Fragments.Valid;
    hide IsRope;
    hide Follows;
    hide Bytes;
    hide Total;
  }

  lemma AfterMove(h: Heap, all: seq<int>, n: int, h1: Heap, taken: seq<int>, rest: seq<int>, before: seq<int>, h2: Heap)
    requires Fragments.Valid(h) && Cut(h, all, n, h1, taken, rest) && IsRope(h, before) && Disjoint(rest, before)
    requires Follows(h1, h2, Ids(before))
    ensures IsRope(h2, rest) && Bytes(h2, rest) == Bytes(h1, rest) && Total(h2, rest) == Total(h1, rest)
            && Disjoint(rest, taken)
    ensures Follows(h, h2, Ids(all) + Ids(before))
    ensures (forall f :: f in taken ==> f in all || f !in h.frags) && (forall f :: f in rest ==> f in all)
  {
    RopeKept(h1, h2, rest, Ids(before));
    FollowsWider(h, h1, Ids(all), Ids(all) + Ids(before));
    FollowsOn(h, h1, h2, Ids(all) + Ids(before), Ids(before));
    hide Fragments.Valid;
    hide IsRope;
    hide Follows;
    hide Bytes;
    hide Total;
  }

  lemma NoRope(h: Heap)
    ensures IsRope(h, []) && Bytes(h, []) == [] && Total(h, []) == 0
  {}

  /** The first `i` fragments of `all` have their copies in `out`. */
  ghost predicate CopiedSoFar(h: Heap, all: seq<int>, i: int, h': Heap, out: seq<int>)
    requires 0 <= i <= |all|
  {
    && Valid(h) && Valid(h') && Untouched(h, h', {}) && h.nextFrag <= h'.nextFrag
    && IsRope(h, all) && IsRope(h', all) && IsRope(h', out) && Bytes(h', out) == Bytes(h, all[..i])
    && Total(h', out) == Total(h, all[..i])
    && forall f :: f in out ==> f >= h.nextFrag
  }

  /** The copies made so far are of the same parts of the same blocks, and no block is new. */
  ghost predicate SharedSoFar(h: Heap, all: seq<int>, i: int, h': Heap, out: seq<int>)
    requires 0 <= i <= |all|
  {
    && |out| == i && h'.blocks.Keys == h.blocks.Keys
    && forall j :: 0 <= j < i ==>
         all[j] in h.frags && all[j] in h'.frags && out[j] in h'.frags && out[j] < h'.nextFrag
         && h'.frags[out[j]] == h'.frags[all[j]] == h.frags[all[j]]
  }

  lemma SharedNext(h: Heap, all: seq<int>, i: int, h': Heap, out: seq<int>)
    requires 0 <= i < |all| && SharedSoFar(h, all, i, h', out) && Fragments.Valid(h) && Fragments.Valid(h')
    requires all[i] in h.frags && h.frags[all[i]].IsValid() && Untouched(h, h', {})
    ensures all[i] in h'.frags && SharedSoFar(h, all, i + 1, Copied(h', all[i]), out + [h'.nextFrag])
  {
    PieceLength(h, all[i]);
    CopyShares(h', all[i]);
  }

  /** Ropes over the same parts of the same blocks read the same, whatever is stored in those. */
  lemma {:induction false} SameParts(h: Heap, a: seq<int>, b: seq<int>)
    requires |a| == |b|
    requires forall j :: 0 <= j < |a| ==> a[j] in h.frags && b[j] in h.frags && h.frags[a[j]] == h.frags[b[j]]
    ensures Bytes(h, a) == Bytes(h, b)
  {
    if a != [] {
      SameParts(h, a[..|a| - 1], b[..|b| - 1]);
    }
  }

  lemma CopyStart(h: Heap, all: seq<int>)
    requires Fragments.Valid(h) && IsRope(h, all)
    ensures CopiedSoFar(h, all, 0, h, [])
  {
    assert all[..0] == [];
  }

  lemma CopyOpened(h: Heap, all: seq<int>, i: int, h1: Heap, out: seq<int>)
    requires 0 <= i <= |all| && CopiedSoFar(h, all, i, h1, out)
    ensures Fragments.Valid(h) && Fragments.Valid(h1) && Untouched(h, h1, {}) && IsRope(h, all) && IsRope(h1, all)
            && IsRope(h1, out)
    ensures Bytes(h1, out) == Bytes(h, all[..i]) && Total(h1, out) == Total(h, all[..i])
  {
    hide Fragments.Valid;
    hide IsRope;
    hide Bytes;
    hide Total;
    hide Untouched;
  }

  lemma CopyNext(h: Heap, all: seq<int>, i: int, h1: Heap, out: seq<int>)
    requires 0 <= i < |all| && CopiedSoFar(h, all, i, h1, out)
    ensures all[i] in h1.frags && Fragments.Valid(h1)
            && CopiedSoFar(h, all, i + 1, Copied(h1, all[i]), out + [h1.nextFrag])
  {
    hide *;
    CopyOpened(h, all, i, h1, out);
    var f, n := all[i], h1.nextFrag;
    CopiedPiece(h, h1, all, i);
    CopyKeeps(h1, f);
    var h2 := Copied(h1, f);
    RopeMembers(h1, out);
    RopeUntouched(h1, h2, all, {});
    RopeUntouched(h1, h2, out, {});
    Extended(h2, out, n);
    assert all[..i + 1] == all[..i] + [f];
    BytesSnoc(h, all[..i], f);
    CopyState(h, all, i, h1, out, h2, n);
  }

  lemma CopiedPiece(h: Heap, h1: Heap, all: seq<int>, i: int)
    requires Fragments.Valid(h) && Fragments.Valid(h1) && Untouched(h, h1, {}) && IsRope(h, all) && IsRope(h1, all)
             && 0 <= i < |all|
    ensures all[i] in h.frags && all[i] in h1.frags
    ensures var h2, n := Copied(h1, all[i]), h1.nextFrag;
            && n in h2.frags && h2.frags[n].IsValid()
            && h2.frags[n].size == h.frags[all[i]].size == PieceSize(h, all[i]) && Piece(h2, n) == Piece(h, all[i])
            && h2.nextFrag == n + 1
  {
    CopyKeeps(h1, all[i]);
  }

  lemma CopyState(h: Heap, all: seq<int>, i: int, h1: Heap, out: seq<int>, h2: Heap, n: int)
    requires 0 <= i < |all| && CopiedSoFar(h, all, i, h1, out) && n == h1.nextFrag && h2.nextFrag == n + 1
    requires Fragments.Valid(h2) && Untouched(h1, h2, {}) && IsRope(h2, all) && IsRope(h2, out + [n])
    requires Bytes(h2, out + [n]) == Bytes(h, all[..i + 1]) && Total(h2, out + [n]) == Total(h, all[..i + 1])
    ensures CopiedSoFar(h, all, i + 1, h2, out + [n])
  {
    hide Fragments.Valid;
    hide IsRope;
    hide Bytes;
    hide Total;
    hide InBlock;
    hide Content;
  }

  method CopyAll(mem: Memory, fs: seq<int>) returns (copies: seq<int>)
    requires Fragments.Valid(mem.heap) && IsRope(mem.heap, fs)
    modifies mem
    ensures CopiedSoFar(old(mem.heap), fs, |fs|, mem.heap, copies) && Fragments.Valid(mem.heap)
    ensures SharedSoFar(old(mem.heap), fs, |fs|, mem.heap, copies)
  {
    SharedNone(mem.heap, fs);
    hide *;
    ghost var h := mem.heap;
    copies := [];
    CopyStart(h, fs);
    var i := 0;
    while i < |fs|
      invariant 0 <= i <= |fs| && CopiedSoFar(h, fs, i, mem.heap, copies) && SharedSoFar(h, fs, i, mem.heap, copies)
    {
      CopyOpened(h, fs, i, mem.heap, copies);
      ItemOf(h, fs, i);
      SharedNext(h, fs, i, mem.heap, copies);
      CopyNext(h, fs, i, mem.heap, copies);
      var f := mem.ShallowCopy(fs[i]);
      copies := copies + [f];
      i := i + 1;
    }
    CopyOpened(h, fs, i, mem.heap, copies);
  }

  lemma SharedNone(h: Heap, all: seq<int>)
    ensures SharedSoFar(h, all, 0, h, [])
  {}

  lemma ItemOf(h: Heap, fs: seq<int>, i: int)
    requires IsRope(h, fs) && 0 <= i < |fs|
    ensures fs[i] in h.frags && h.frags[fs[i]].IsValid()
  {
    assert fs[i] in fs;
  }

  lemma CopyEnd(b: Buffer, r: Buffer, h: Heap)
    requires r.mem == b.mem && CopiedSoFar(h, b.fragments, |b.fragments|, b.mem.heap, r.fragments)
    requires b.size == Total(h, b.fragments) == r.size
    ensures b.Valid() && r.Valid() && r.Contents() == b.Contents() == Bytes(h, b.fragments)
            && Untouched(h, b.mem.heap, {})
    ensures forall f :: f in r.fragments ==> f !in h.frags
  {
    assert b.fragments[..|b.fragments|] == b.fragments;
    RopeUntouched(h, b.mem.heap, b.fragments, {});
    hide IsRope;
    hide Bytes;
    hide Total;
    hide Untouched;
  }

  lemma OneDestroyed(h: Heap, h1: Heap, all: seq<int>, i: int)
    requires Fragments.Valid(h) && Fragments.Valid(h1) && 0 <= i < |all| && IsRope(h1, all[i..])
             && Follows(h, h1, Ids(all))
    ensures all[i] in h1.frags
    ensures var h2 := Destroyed(h1, all[i]);
            && Fragments.Valid(h2) && IsRope(h2, all[i + 1..]) && Follows(h, h2, Ids(all))
            && h2.frags.Keys == h1.frags.Keys - {all[i]}
  {
    var f := all[i];
    assert all[i..] == [f] + all[i + 1..];
    RopeParts(h1, [f], all[i + 1..]);
    assert f in [f] && f in all;
    DestroyKeeps(h1, f);
    DestroyFollows(h1, f);
    ReleasedFrags(h1, f);
    RopeKept(h1, Destroyed(h1, f), all[i + 1..], {f});
    FollowsOn(h, h1, Destroyed(h1, f), Ids(all), {f});
  }

  lemma Opened(b: Buffer)
    requires b.Valid()
    ensures Fragments.Valid(b.mem.heap) && IsRope(b.mem.heap, b.fragments) && b.size == Total(b.mem.heap, b.fragments)
  {}

  /** Where a rope is cut before its fragment `i`. */
  lemma CutAt(h: Heap, all: seq<int>, i: int)
    requires Fragments.Valid(h) && IsRope(h, all) && 0 <= i < |all|
    ensures all[i] in h.frags && h.frags[all[i]].size > 0
            && Total(h, all[..i + 1]) == Total(h, all[..i]) + h.frags[all[i]].size
    ensures all == all[..i] + [all[i]] + all[i + 1..]
  {
    assert all[..i + 1] == all[..i] + [all[i]];
    BytesSnoc(h, all[..i], all[i]);
  }

  lemma TakenWhole(h: Heap, all: seq<int>, i: int)
    requires Fragments.Valid(h) && IsRope(h, all) && 0 <= i <= |all|
    ensures Cut(h, all, Total(h, all[..i]), h, all[..i], all[i..])
  {
    assert all == all[..i] + all[i..];
    RopeParts(h, all[..i], all[i..]);
    BytesConcat(h, all[..i], all[i..]);
    BytesLength(h, all[..i]);
    FollowsSelf(h, Ids(all));
    hide Bytes;
    hide Total;
    hide IsRope;
    hide Follows;
    hide Fragments.Valid;
  }

  lemma TakenSplit(h: Heap, all: seq<int>, i: int, n: int)
    requires Fragments.Valid(h) && IsRope(h, all) && 0 <= i < |all| && all[i] in h.frags
    requires Total(h, all[..i]) < n < Total(h, all[..i]) + h.frags[all[i]].size
    ensures var k := n - Total(h, all[..i]);
            && Slices(h, all[i], k)
            && Cut(h, all, n, SlicedFront(h, all[i], k), all[..i] + [h.nextFrag], all[i..])
  {
    hide *;
    var pre, f, post := all[..i], all[i], all[i + 1..];
    CutAt(h, all, i);
    assert pre + [f] + post == all && [f] + post == all[i..];
    SplitCut(h, pre, f, post, n - Total(h, pre));
  }

  lemma SplitCut(h: Heap, pre: seq<int>, f: int, post: seq<int>, k: int)
    requires Fragments.Valid(h) && IsRope(h, pre + [f] + post) && f in h.frags && 0 < k < h.frags[f].size
    ensures Slices(h, f, k)
    ensures Cut(h, pre + [f] + post, Total(h, pre) + k, SlicedFront(h, f, k), pre + [h.nextFrag], [f] + post)
  {
    hide *;
    SplitRope(h, pre, f, post, k);
    var h', n, all := SlicedFront(h, f, k), h.nextFrag, pre + [f] + post;
    SplitSizes(h, pre, f, post);
    BytesLength(h', pre + [n]);
    JoinedAround(Bytes(h, pre), Piece(h, f), Bytes(h, post), k);
    InIds(pre, f, post);
    FollowsWider(h, h', {f}, Ids(all));
    IsCut(h, all, Total(h, pre) + k, h', pre + [n], [f] + post, n);
  }

  lemma IsCut(h: Heap, all: seq<int>, n: int, h': Heap, taken: seq<int>, rest: seq<int>, id: int)
    requires Fragments.Valid(h') && Follows(h, h', Ids(all)) && IsRope(h', taken) && IsRope(h', rest)
             && Disjoint(taken, rest)
    requires (forall f :: f in taken ==> f in all || f == id) && (forall f :: f in rest ==> f in all) && id !in h.frags
    requires Bytes(h', taken) + Bytes(h', rest) == Bytes(h, all)
    requires |Bytes(h', taken)| == Total(h', taken) == n && Total(h', rest) == Total(h, all) - n
    ensures Cut(h, all, n, h', taken, rest)
  {}

  lemma SplitSizes(h: Heap, pre: seq<int>, f: int, post: seq<int>)
    requires Fragments.Valid(h) && IsRope(h, pre + [f] + post) && f in h.frags
    ensures Bytes(h, pre + [f] + post) == Bytes(h, pre) + Piece(h, f) + Bytes(h, post)
    ensures Total(h, pre + [f] + post) == Total(h, pre) + h.frags[f].size + Total(h, post)
    ensures |Bytes(h, pre)| == Total(h, pre) && |Piece(h, f)| == h.frags[f].size
  {
    RopeParts(h, pre + [f], post);
    RopeParts(h, pre, [f]);
    BytesLength(h, pre);
    PieceLength(h, f);
    hide *;
    BytesConcat(h, pre + [f], post);
    BytesConcat(h, pre, [f]);
    PieceOne(h, f);
  }

  lemma PieceOne(h: Heap, f: int)
    requires f in h.frags
    ensures Bytes(h, [f]) == Piece(h, f) && Total(h, [f]) == h.frags[f].size
  {
    BytesOne(h, f);
  }

  lemma JoinedAround(a: seq<byte>, b: seq<byte>, c: seq<byte>, k: int)
    requires 0 <= k <= |b|
    ensures (a + b[..k]) + (b[k..] + c) == a + b + c && |a + b[..k]| == |a| + k
  {}

  lemma InIds(pre: seq<int>, f: int, post: seq<int>)
    ensures {f} <= Ids(pre + [f] + post)
    ensures forall g, n :: g in pre + [n] ==> g in pre + [f] + post || g == n
    ensures forall g :: g in [f] + post ==> g in pre + [f] + post
  {
    assert f in pre + [f] + post;
  }

  lemma InvalidDropped(h: Heap, fs: seq<int>, f: int)
    requires Fragments.Valid(h) && IsRope(h, fs) && f in h.frags && !h.frags[f].IsValid() && f !in fs
    ensures var h' := Destroyed(h, f);
            && Fragments.Valid(h') && Follows(h, h', {f}) && IsRope(h', fs)
            && Bytes(h', fs) == Bytes(h, fs) && Total(h', fs) == Total(h, fs) && Piece(h, f) == []
  {
    PieceLength(h, f);
    hide *;
    DestroyKeeps(h, f);
    DestroyFollows(h, f);
    RopeKept(h, Destroyed(h, f), fs, {f});
  }

  lemma Extended(h: Heap, fs: seq<int>, f: int)
    requires Fragments.Valid(h) && IsRope(h, fs) && f in h.frags && h.frags[f].IsValid() && f !in fs
    ensures IsRope(h, fs + [f]) && Bytes(h, fs + [f]) == Bytes(h, fs) + Piece(h, f)
            && Total(h, fs + [f]) == Total(h, fs) + h.frags[f].size
  {
    RopeJoined(h, fs, [f]);
    BytesSnoc(h, fs, f);
  }

  /** SliceFront into a local buffer, whose fragments are destroyed with it. */
  method DropFront(b: Buffer, n: int) returns (ok: bool)
    requires b.Valid()
    modifies b, b.mem
    ensures b.Valid() && ok == (0 < n <= old(b.size)) && Follows(old(b.mem.heap), b.mem.heap, old(Ids(b.fragments)))
    ensures !ok ==> unchanged(b) && b.mem.heap == old(b.mem.heap)
    ensures ok ==> n <= |old(b.Contents())| && b.Contents() == old(b.Contents())[n..] && b.size == old(b.size) - n
    ensures forall f :: f in b.fragments ==> f in old(b.fragments)
    ensures b.mem.heap.blocks.Keys <= old(b.mem.heap.blocks.Keys)
  {
    hide Fragments.Valid;
    hide IsRope;
    hide Bytes;
    hide Total;
    hide Follows;
    hide Disjoint;
    hide Ids;
    ghost var h, all, before := b.mem.heap, b.fragments, b.Contents();
    var temp := new Buffer(b.mem);
    FromFresh(h, all);
    ok := b.SliceFront(temp, n);
    if !ok {
      FollowsSelf(h, Ids(all));
      return;
    }
    ghost var h1, taken := b.mem.heap, temp.fragments;
    assert before[n..] == b.Contents();
    temp.Clear();
    Thrown(h, h1, b.mem.heap, all, b.fragments, taken);
  }

  lemma FromFresh(h: Heap, all: seq<int>)
    ensures Disjoint(all, []) && Ids(all) + Ids([]) == Ids(all)
  {}

  /** The slice `taken` of `all` is destroyed. */
  lemma Thrown(h: Heap, h1: Heap, h2: Heap, all: seq<int>, rest: seq<int>, taken: seq<int>)
    requires Fragments.Valid(h) && Fragments.Valid(h1) && IsRope(h1, rest) && Disjoint(rest, taken)
    requires Follows(h, h1, Ids(all)) && Follows(h1, h2, Ids(taken))
    requires forall f :: f in taken ==> f in all || f !in h.frags
    ensures Follows(h, h2, Ids(all))
    ensures IsRope(h2, rest) && Bytes(h2, rest) == Bytes(h1, rest) && Total(h2, rest) == Total(h1, rest)
  {
    FollowsOn(h, h1, h2, Ids(all), Ids(taken));
    RopeKept(h1, h2, rest, Ids(taken));
  }
}

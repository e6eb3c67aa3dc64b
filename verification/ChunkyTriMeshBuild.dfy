/** rcCreateChunkyTriMesh: the items are halved in place, the nodes and triangles written in pre-order. */
module ChunkyTriMeshBuild {
  import opened ChunkyTriMesh
  import opened ChunkyTriMeshNodes

  // ---------------------------------------------------------------- calcExtends

  predicate BoxIsExtents(b: Box, items: seq<BoundsItem>, lo: int, hi: int)
    requires 0 <= lo <= hi <= |items|
  {
    && (forall j :: lo <= j < hi ==> Contains(b, items[j].box))
    && (exists j :: lo <= j < hi && items[j].box.minX == b.minX)
    && (exists j :: lo <= j < hi && items[j].box.minY == b.minY)
    && (exists j :: lo <= j < hi && items[j].box.maxX == b.maxX)
    && (exists j :: lo <= j < hi && items[j].box.maxY == b.maxY)
  }

  method CalcExtends(items: array<BoundsItem>, imin: int, imax: int) returns (b: Box)
    requires 0 <= imin < imax <= items.Length
    ensures IsExtents(b, items[imin..imax])
  {
    b := items[imin].box;
    ghost var s := items[..];
    for i := imin + 1 to imax
      invariant BoxIsExtents(b, s, imin, i)
    {
      var it := items[i].box;
      ghost var b0 := b;
      if it.minX < b.minX { b := b.(minX := it.minX); }
      if it.minY < b.minY { b := b.(minY := it.minY); }
      if it.maxX > b.maxX { b := b.(maxX := it.maxX); }
      if it.maxY > b.maxY { b := b.(maxY := it.maxY); }
      assert s[i].box == it;
      Widened(b0, b, s, imin, i);
    }
    ExtentsOfRange(b, s, imin, imax);
    assert s[imin..imax] == items[imin..imax];
  }

  lemma Widened(b0: Box, b: Box, items: seq<BoundsItem>, lo: int, i: int)
    requires 0 <= lo < i < |items| && BoxIsExtents(b0, items, lo, i)
    requires var it := items[i].box;
             && b.minX == (if it.minX < b0.minX then it.minX else b0.minX)
             && b.minY == (if it.minY < b0.minY then it.minY else b0.minY)
             && b.maxX == (if it.maxX > b0.maxX then it.maxX else b0.maxX)
             && b.maxY == (if it.maxY > b0.maxY then it.maxY else b0.maxY)
    ensures BoxIsExtents(b, items, lo, i + 1)
  {}

  lemma ExtentsOfRange(b: Box, items: seq<BoundsItem>, lo: int, hi: int)
    requires 0 <= lo <= hi <= |items| && BoxIsExtents(b, items, lo, hi)
    ensures IsExtents(b, items[lo..hi])
  {
    var s := items[lo..hi];
    forall j | lo <= j < hi
      ensures items[j] in s
    {
      assert s[j - lo] == items[j];
    }
  }

  // ---------------------------------------------------------------- qsort on one axis

  function Key(it: BoundsItem, axis: int): real {
    if axis == 0 then it.box.minX else it.box.minY
  }

  ghost predicate Sorted(s: seq<BoundsItem>, axis: int) {
    forall i, j :: 0 <= i < j < |s| ==> Key(s[i], axis) <= Key(s[j], axis)
  }

  function Insert(it: BoundsItem, s: seq<BoundsItem>, axis: int): (r: seq<BoundsItem>)
    ensures multiset(r) == multiset(s) + multiset{it}
  {
    if s == [] then [it]
    else if Key(it, axis) <= Key(s[0], axis) then [it] + s
    else
      assert s == [s[0]] + s[1..];
      [s[0]] + Insert(it, s[1..], axis)
  }

  lemma {:induction false} InsertSorted(it: BoundsItem, s: seq<BoundsItem>, axis: int)
    requires Sorted(s, axis)
    ensures Sorted(Insert(it, s, axis), axis)
  {
    if s != [] && Key(it, axis) > Key(s[0], axis) {
      InsertSorted(it, s[1..], axis);
      var r := Insert(it, s[1..], axis);
      forall x | x in r
        ensures Key(s[0], axis) <= Key(x, axis)
      {
        assert x in multiset(r);
        assert x in s[1..] || x == it;
      }
    }
  }

  function SortedBy(s: seq<BoundsItem>, axis: int): (r: seq<BoundsItem>)
    ensures multiset(r) == multiset(s)
  {
    if s == [] then [] else
    assert s == [s[0]] + s[1..];
    Insert(s[0], SortedBy(s[1..], axis), axis)
  }

  lemma {:induction false} SortedBySorts(s: seq<BoundsItem>, axis: int)
    ensures Sorted(SortedBy(s, axis), axis)
  {
    if s != [] {
      SortedBySorts(s[1..], axis);
      InsertSorted(s[0], SortedBy(s[1..], axis), axis);
    }
  }

  /** qsort of a range by the lower bound on one axis. Callers know no more of the order than the C library says. */
  method SortRange(items: array<BoundsItem>, lo: int, hi: int, axis: int)
    requires 0 <= lo <= hi <= items.Length
    modifies items
    ensures Sorted(items[lo..hi], axis) && multiset(items[lo..hi]) == multiset(old(items[lo..hi]))
    ensures items[..lo] == old(items[..lo]) && items[hi..] == old(items[hi..])
  {
    hide SortedBy;
    var s := SortedBy(items[lo..hi], axis);
    SortedBySorts(items[lo..hi], axis);
    assert |s| == |multiset(s)| == hi - lo;
    forall j | lo <= j < hi {
      items[j] := s[j - lo];
    }
    assert items[lo..hi] == s;
  }

  // ---------------------------------------------------------------- triangles

  predicate HasTriangle(inTris: seq<int>, k: int) {
    0 <= 3 * k && 3 * k + 3 <= |inTris|
  }

  /** The three vertex indices of triangle `k` (immaterial when there is none). */
  function Triangle(inTris: seq<int>, k: int): (r: seq<int>)
    ensures |r| == 3
  {
    if HasTriangle(inTris, k) then inTris[3 * k..3 * k + 3] else [0, 0, 0]
  }

  /** The triangles of the items, in the items' order. */
  function Gather(inTris: seq<int>, items: seq<BoundsItem>): (r: seq<int>)
    ensures |r| == 3 * |items|
  {
    if items == [] then [] else Gather(inTris, items[..|items| - 1]) + Triangle(inTris, items[|items| - 1].i)
  }

  lemma GatherSnoc(inTris: seq<int>, a: seq<BoundsItem>, x: BoundsItem)
    ensures Gather(inTris, a + [x]) == Gather(inTris, a) + Triangle(inTris, x.i)
  {
    assert (a + [x])[..|a|] == a;
  }

  lemma {:induction false} GatherConcat(inTris: seq<int>, a: seq<BoundsItem>, b: seq<BoundsItem>)
    ensures Gather(inTris, a + b) == Gather(inTris, a) + Gather(inTris, b)
  {
    if b == [] {
      assert a + b == a;
    } else {
      var b', x := b[..|b| - 1], b[|b| - 1];
      assert a + b == (a + b') + [x] && b == b' + [x];
      GatherConcat(inTris, a, b');
      GatherSnoc(inTris, a + b', x);
      GatherSnoc(inTris, b', x);
    }
  }

  ghost predicate InRange(items: seq<BoundsItem>, inTris: seq<int>) {
    forall it :: it in items ==> HasTriangle(inTris, it.i)
  }

  lemma WriteThree(o: seq<int>, o': seq<int>, from: int, dst: int, three: seq<int>)
    requires 0 <= from <= dst && dst + 3 <= |o| == |o'| && |three| == 3
    requires o' == o[dst := three[0]][dst + 1 := three[1]][dst + 2 := three[2]]
    ensures o'[..from] == o[..from] && o'[from..dst + 3] == o[from..dst] + three
  {}

  /** Writes the triangles of items[imin..imax] from triangle `curTri` on. */
  method CopyTriangles(items: array<BoundsItem>, imin: int, imax: int, curTri: int, outTris: array<int>,
                       inTris: array<int>)
    returns (next: int)
    requires 0 <= imin <= imax <= items.Length && 0 <= curTri && 3 * (curTri + imax - imin) <= outTris.Length
    requires outTris != inTris && InRange(items[imin..imax], inTris[..])
    modifies outTris
    ensures next == curTri + imax - imin
    ensures outTris[..3 * curTri] == old(outTris[..3 * curTri])
    ensures outTris[3 * curTri..3 * next] == Gather(inTris[..], items[imin..imax])
  {
    hide Gather;
    next := curTri;
    var i := imin;
    ghost var ins, its := inTris[..], items[imin..imax];
    GatherNone(ins);
    while i < imax
      invariant imin <= i <= imax && next == curTri + i - imin
      invariant outTris[..3 * curTri] == old(outTris[..3 * curTri])
      invariant outTris[3 * curTri..3 * next] == Gather(ins, its[..i - imin])
    {
      assert its[i - imin] == items[i] && HasTriangle(ins, items[i].i);
      assert its[..i + 1 - imin] == its[..i - imin] + [items[i]];
      GatherSnoc(ins, its[..i - imin], items[i]);
      var src := items[i].i * 3;
      var dst := next * 3;
      next := next + 1;
      ghost var before := outTris[..];
      outTris[dst] := inTris[src];
      outTris[dst + 1] := inTris[src + 1];
      outTris[dst + 2] := inTris[src + 2];
      WriteThree(before, outTris[..], 3 * curTri, dst, ins[src..src + 3]);
      i := i + 1;
    }
    assert its[..imax - imin] == its;
  }

  lemma GatherNone(inTris: seq<int>)
    ensures Gather(inTris, []) == []
  {}

  // ---------------------------------------------------------------- subdivide

  /** What a call of Subdivide that had room leaves behind: `ns` its nodes, `out` its triangles, `its` its items. */
  ghost predicate Built(ns: seq<Node>, out: seq<int>, its: seq<BoundsItem>, t: Tree, tri: int, k: int, ins: seq<int>) {
    Items(t) == its && Halved(t, k) && Encodes(ns, t, tri) && out == Gather(ins, its)
  }

  lemma BuiltLeaf(node: Node, out: seq<int>, its: seq<BoundsItem>, tri: int, k: int, ins: seq<int>)
    requires 0 < |its| <= k && IsExtents(node.box, its) && node.i == tri && node.n == |its| && out == Gather(ins, its)
    ensures Built([node], out, its, Leaf(its), tri, k, ins)
  {}

  lemma EncodesSplit(node: Node, nl: seq<Node>, nr: seq<Node>, l: Tree, r: Tree, tri: int)
    requires Encodes(nl, l, tri) && Encodes(nr, r, tri + |Items(l)|)
    requires IsExtents(node.box, Items(l) + Items(r)) && node.i == -(1 + |nl| + |nr|)
    requires Parted(node.box, Items(l), Items(r))
    ensures Encodes([node] + nl + nr, Split(l, r), tri)
  {
    hide IsExtents;
    hide Parted;
    var ns := [node] + nl + nr;
    assert ns[1..1 + |nl|] == nl && ns[1 + |nl|..] == nr && ns[0] == node;
  }

  lemma BuiltSplit(node: Node, nl: seq<Node>, nr: seq<Node>, ol: seq<int>, or: seq<int>, il: seq<BoundsItem>,
                   ir: seq<BoundsItem>, l: Tree, r: Tree, tri: int, k: int, ins: seq<int>)
    requires Built(nl, ol, il, l, tri, k, ins) && Built(nr, or, ir, r, tri + |il|, k, ins)
    requires |il| + |ir| > k && |il| == (|il| + |ir|) / 2
    requires IsExtents(node.box, il + ir) && node.i == -(1 + |nl| + |nr|) && Parted(node.box, il, ir)
    ensures Built([node] + nl + nr, ol + or, il + ir, Split(l, r), tri, k, ins)
  {
    hide IsExtents;
    hide Gather;
    hide Parted;
    GatherConcat(ins, il, ir);
    EncodesSplit(node, nl, nr, l, r, tri);
    hide Encodes;
  }

  /** Only the range from `lo` to `hi` has been rearranged. */
  ghost predicate Permuted(s: seq<BoundsItem>, s': seq<BoundsItem>, lo: int, hi: int)
    requires 0 <= lo <= hi <= |s|
  {
    |s'| == |s| && s'[..lo] == s[..lo] && s'[hi..] == s[hi..] && multiset(s'[lo..hi]) == multiset(s[lo..hi])
  }

  lemma PermutedWider(s: seq<BoundsItem>, s': seq<BoundsItem>, lo: int, a: int, b: int, hi: int)
    requires 0 <= lo <= a <= b <= hi <= |s| && Permuted(s, s', a, b)
    ensures Permuted(s, s', lo, hi)
  {
    assert s[lo..hi] == s[lo..a] + s[a..b] + s[b..hi];
    assert s'[lo..hi] == s'[lo..a] + s'[a..b] + s'[b..hi];
    assert s'[lo..a] == s'[..a][lo..] == s[lo..a];
    assert s'[b..hi] == s'[b..][..hi - b] == s[b..hi];
    assert s'[..lo] == s'[..a][..lo] == s[..lo];
    assert s'[hi..] == s'[b..][hi - b..] == s[hi..];
  }

  lemma PermutedInRange(s: seq<BoundsItem>, s': seq<BoundsItem>, lo: int, hi: int, ins: seq<int>)
    requires 0 <= lo <= hi <= |s| && Permuted(s, s', lo, hi) && InRange(s[lo..hi], ins)
    ensures InRange(s'[lo..hi], ins)
  {
    SameMembers(s[lo..hi], s'[lo..hi]);
  }

  lemma InRangePart(s: seq<BoundsItem>, lo: int, a: int, b: int, hi: int, ins: seq<int>)
    requires 0 <= lo <= a <= b <= hi <= |s| && InRange(s[lo..hi], ins)
    ensures InRange(s[a..b], ins)
  {
    forall it | it in s[a..b]
      ensures it in s[lo..hi]
    {
      var j :| 0 <= j < b - a && s[a..b][j] == it;
      assert s[lo..hi][j + a - lo] == it;
    }
  }

  method Subdivide(items: array<BoundsItem>, imin: int, imax: int, k: int, curNode: int, nodes: array<Node>,
                   maxNodes: int, curTri: int, outTris: array<int>, inTris: array<int>)
    returns (nextNode: int, nextTri: int, ghost t: Tree)
    requires 0 <= imin <= imax <= items.Length && k >= 1 && 0 <= curNode <= maxNodes <= nodes.Length
    requires imin == imax ==> curNode == maxNodes
    requires 0 <= curTri && 3 * (curTri + imax - imin) <= outTris.Length
    requires outTris != inTris && InRange(items[imin..imax], inTris[..])
    modifies items, nodes, outTris
    ensures curNode <= nextNode <= maxNodes && curTri <= nextTri <= curTri + imax - imin
    ensures Permuted(old(items[..]), items[..], imin, imax)
    ensures nodes[..curNode] == old(nodes[..curNode]) && outTris[..3 * curTri] == old(outTris[..3 * curTri])
    // with room for the whole subtree, nothing is dropped
    ensures imin < imax && curNode + NodeCount(imax - imin, k) <= maxNodes ==>
              && nextNode == curNode + NodeCount(imax - imin, k) && nextTri == curTri + imax - imin
              && Built(nodes[curNode..nextNode], outTris[3 * curTri..3 * nextTri], items[imin..imax], t, curTri, k,
                   inTris[..])
    decreases imax - imin, 1
  {
    hide Gather;
    hide NodeCount;
    hide IsExtents;
    hide Permuted;
    var inum := imax - imin;
    NodeCountUnfold(inum, k);
    PermutedSame(items[..], imin, imax);
    t := Leaf([]);
    if curNode >= maxNodes {
      return curNode, curTri, t;
    }
    var box := CalcExtends(items, imin, imax);
    if inum <= k {
      nextNode := curNode + 1;
      nextTri := CopyTriangles(items, imin, imax, curTri, outTris, inTris);
      nodes[curNode] := Node(box, curTri, inum);
      t := Leaf(items[imin..imax]);
      BuiltLeaf(nodes[curNode], outTris[3 * curTri..3 * nextTri], items[imin..imax], curTri, k, inTris[..]);
      assert nodes[curNode..nextNode] == [nodes[curNode]];
    } else {
      nextNode, nextTri, t := Halve(items, imin, imax, k, curNode, nodes, maxNodes, curTri, outTris, inTris, box);
    }
  }

  lemma PermutedSame(s: seq<BoundsItem>, lo: int, hi: int)
    requires 0 <= lo <= hi <= |s|
    ensures Permuted(s, s, lo, hi)
  {}

  /** The splitting branch of Subdivide. */
  method Halve(items: array<BoundsItem>, imin: int, imax: int, k: int, curNode: int, nodes: array<Node>, maxNodes: int,
               curTri: int, outTris: array<int>, inTris: array<int>, box: Box)
    returns (nextNode: int, nextTri: int, ghost t: Tree)
    requires 0 <= imin <= imax <= items.Length && k >= 1 && 0 <= curNode < maxNodes <= nodes.Length && imax - imin > k
    requires 0 <= curTri && 3 * (curTri + imax - imin) <= outTris.Length
    requires outTris != inTris && InRange(items[imin..imax], inTris[..]) && IsExtents(box, items[imin..imax])
    modifies items, nodes, outTris
    ensures curNode <= nextNode <= maxNodes && curTri <= nextTri <= curTri + imax - imin
    ensures Permuted(old(items[..]), items[..], imin, imax)
    ensures nodes[..curNode] == old(nodes[..curNode]) && outTris[..3 * curTri] == old(outTris[..3 * curTri])
    ensures curNode + NodeCount(imax - imin, k) <= maxNodes ==>
              && nextNode == curNode + NodeCount(imax - imin, k) && nextTri == curTri + imax - imin
              && Built(nodes[curNode..nextNode], outTris[3 * curTri..3 * nextTri], items[imin..imax], t, curTri, k,
                   inTris[..])
    decreases imax - imin, 0
  {
    hide Gather;
    hide NodeCount;
    hide IsExtents;
    hide Built;
    hide Permuted;
    hide InRange;
    hide Parted;
    var inum := imax - imin;
    NodeCountUnfold(inum, k);
    nodes[curNode] := nodes[curNode].(box := box);
    var isplit := SortAndSplit(items, imin, imax, box, inTris);
    assert NodeCount(inum, k) == 1 + NodeCount(isplit - imin, k) + NodeCount(imax - isplit, k);
    ghost var ins, s1, out1 := inTris[..], items[..], outTris[..];
    ghost var l, r;
    var midNode, midTri;
    midNode, midTri, l := Subdivide(items, imin, isplit, k, curNode + 1, nodes, maxNodes, curTri, outTris, inTris);
    ghost var s2, ns2, out2 := items[..], nodes[..], outTris[..];
    RightUntouched(s1, s2, imin, isplit, imax, ins);
    nextNode, nextTri, r := Subdivide(items, isplit, imax, k, midNode, nodes, maxNodes, midTri, outTris, inTris);
    ghost var s3, ns3, out3 := items[..], nodes[..], outTris[..];
    PrefixKept(out1, out2, out3, 3 * curTri, 3 * midTri);
    HalvesPermuted(old(items[..]), s1, s2, s3, imin, isplit, imax);
    KeptBox(old(nodes[..]), box, ns2, ns3, curNode, midNode);
    nodes[curNode] := nodes[curNode].(i := -(nextNode - curNode));
    t := Split(l, r);
    if curNode + NodeCount(inum, k) <= maxNodes {
      PermutedExtents(box, old(items[..]), s3, imin, imax);
      PartedKept(box, s1, s2, s3, imin, isplit, imax);
      HalvesBuilt(box, nodes[..], ns2, ns3, out2, out3, s2, s3, l, r, k, ins, curNode, midNode, nextNode, curTri,
        midTri, nextTri, imin, isplit, imax);
    }
  }

  lemma PrefixKept(o1: seq<int>, o2: seq<int>, o3: seq<int>, i: int, j: int)
    requires 0 <= i <= j <= |o1| == |o2| == |o3| && o2[..i] == o1[..i] && o3[..j] == o2[..j]
    ensures o3[..i] == o1[..i]
  {
    assert o3[..i] == o3[..j][..i] == o2[..i];
  }

  lemma PermutedExtents(b: Box, s: seq<BoundsItem>, s': seq<BoundsItem>, lo: int, hi: int)
    requires 0 <= lo <= hi <= |s| && Permuted(s, s', lo, hi) && IsExtents(b, s[lo..hi])
    ensures IsExtents(b, s'[lo..hi])
  {
    ExtentsPermuted(b, s[lo..hi], s'[lo..hi]);
  }

  lemma RightUntouched(s1: seq<BoundsItem>, s2: seq<BoundsItem>, lo: int, mid: int, hi: int, ins: seq<int>)
    requires 0 <= lo <= mid <= hi <= |s1| && Permuted(s1, s2, lo, mid) && InRange(s1[lo..hi], ins)
    ensures InRange(s2[mid..hi], ins)
  {
    assert s2[mid..hi] == s2[mid..][..hi - mid] == s1[mid..hi];
    InRangePart(s1, lo, mid, hi, hi, ins);
  }

  /** Sorts the range along its longer side; the halves start and end at its middle. */
  method SortAndSplit(items: array<BoundsItem>, imin: int, imax: int, box: Box, inTris: array<int>)
    returns (isplit: int)
    requires 0 <= imin <= imax <= items.Length && InRange(items[imin..imax], inTris[..])
    modifies items
    ensures isplit == imin + (imax - imin) / 2 && Permuted(old(items[..]), items[..], imin, imax)
    ensures Sorted(items[imin..imax], if box.maxY - box.minY > box.maxX - box.minX then 1 else 0)
    ensures Parted(box, items[imin..isplit], items[isplit..imax])
    ensures inTris[..] == old(inTris[..]) && InRange(items[imin..imax], inTris[..])
            && InRange(items[imin..isplit], inTris[..])
  {
    hide Sorted;
    hide Parted;
    hide InRange;
    var axis := if box.maxY - box.minY > box.maxX - box.minX then 1 else 0;
    SortRange(items, imin, imax, axis);
    isplit := imin + (imax - imin) / 2;
    SortedParts(box, items[imin..imax], isplit - imin, axis);
    assert items[imin..imax][..isplit - imin] == items[imin..isplit];
    assert items[imin..imax][isplit - imin..] == items[isplit..imax];
    PermutedInRange(old(items[..]), items[..], imin, imax, inTris[..]);
    InRangePart(items[..], imin, imin, isplit, imax, inTris[..]);
  }

  lemma SortedParts(box: Box, s: seq<BoundsItem>, m: int, axis: int)
    requires 0 <= m <= |s| && Sorted(s, axis) && axis == if box.maxY - box.minY > box.maxX - box.minX then 1 else 0
    ensures Parted(box, s[..m], s[m..])
  {
    forall x, y | x in s[..m] && y in s[m..]
      ensures Key(x, axis) <= Key(y, axis)
    {
      var i :| 0 <= i < m && s[..m][i] == x;
      var j :| 0 <= j < |s| - m && s[m..][j] == y;
      assert s[i] == x && s[m + j] == y;
    }
  }

  /** Rearranging the halves leaves them parted. */
  lemma PartedKept(box: Box, s1: seq<BoundsItem>, s2: seq<BoundsItem>, s3: seq<BoundsItem>, lo: int, mid: int, hi: int)
    requires 0 <= lo <= mid <= hi <= |s1| == |s2| && Permuted(s1, s2, lo, mid) && Permuted(s2, s3, mid, hi)
    requires Parted(box, s1[lo..mid], s1[mid..hi])
    ensures Parted(box, s2[lo..mid], s3[mid..hi])
  {
    SameMembers(s1[lo..mid], s2[lo..mid]);
    SameMembers(s2[mid..hi], s3[mid..hi]);
    assert s2[mid..hi] == s2[mid..][..hi - mid] == s1[mid..hi];
  }

  lemma HalvesPermuted(s0: seq<BoundsItem>, s1: seq<BoundsItem>, s2: seq<BoundsItem>, s3: seq<BoundsItem>, lo: int,
                       mid: int, hi: int)
    requires 0 <= lo <= mid <= hi <= |s0| && |s0| == |s1| == |s2|
    requires Permuted(s0, s1, lo, hi) && Permuted(s1, s2, lo, mid) && Permuted(s2, s3, mid, hi)
    ensures Permuted(s0, s3, lo, hi)
  {
    PermutedWider(s1, s2, lo, lo, mid, hi);
    PermutedWider(s2, s3, lo, mid, hi, hi);
  }

  lemma KeptBox(ns0: seq<Node>, box: Box, ns2: seq<Node>, ns3: seq<Node>, cur: int, mid: int)
    requires 0 <= cur < mid <= |ns0| == |ns2| == |ns3|
    requires ns2[..cur + 1] == ns0[cur := ns0[cur].(box := box)][..cur + 1] && ns3[..mid] == ns2[..mid]
    ensures ns3[..cur] == ns0[..cur] && ns3[cur].box == box
  {
    assert ns3[..cur] == ns3[..mid][..cur] == ns2[..cur + 1][..cur] == ns0[..cur];
    assert ns3[cur] == ns3[..mid][cur] == ns2[..cur + 1][cur];
  }

  lemma HalvesBuilt(box: Box, ns: seq<Node>, ns2: seq<Node>, ns3: seq<Node>, out2: seq<int>, out3: seq<int>,
                    s2: seq<BoundsItem>, s3: seq<BoundsItem>, l: Tree, r: Tree, k: int, ins: seq<int>,
                    cur: int, mid: int, next: int, tri: int, midTri: int, nextTri: int, lo: int, half: int, hi: int)
    requires 0 <= lo <= half <= hi <= |s2| == |s3| && hi - lo > k && half == lo + (hi - lo) / 2
    requires 0 <= cur < mid <= next <= |ns2| == |ns3| && ns == ns3[cur := ns3[cur].(i := -(next - cur))]
             && ns3[cur].box == box
    requires 0 <= tri <= midTri <= nextTri && 3 * nextTri <= |out2| == |out3| && midTri == tri + half - lo
    requires Permuted(s2, s3, half, hi) && ns3[..mid] == ns2[..mid] && out3[..3 * midTri] == out2[..3 * midTri]
    requires Built(ns2[cur + 1..mid], out2[3 * tri..3 * midTri], s2[lo..half], l, tri, k, ins)
    requires Built(ns3[mid..next], out3[3 * midTri..3 * nextTri], s3[half..hi], r, midTri, k, ins)
    requires IsExtents(box, s3[lo..hi]) && Parted(box, s2[lo..half], s3[half..hi])
    ensures Built(ns[cur..next], out3[3 * tri..3 * nextTri], s3[lo..hi], Split(l, r), tri, k, ins)
  {
    hide Built;
    hide IsExtents;
    hide Parted;
    var node := ns[cur];
    var nl, nr := ns2[cur + 1..mid], ns3[mid..next];
    var ol, or := out2[3 * tri..3 * midTri], out3[3 * midTri..3 * nextTri];
    var il, ir := s2[lo..half], s3[half..hi];
    assert il == s3[..half][lo..] == s3[lo..half];
    assert nl == ns3[..mid][cur + 1..] == ns[cur + 1..mid];
    assert ol == out3[..3 * midTri][3 * tri..] == out3[3 * tri..3 * midTri];
    assert il + ir == s3[lo..hi] && ol + or == out3[3 * tri..3 * nextTri];
    assert [node] + nl + nr == ns[cur..next];
    BuiltSplit(node, nl, nr, ol, or, il, ir, l, r, tri, k, ins);
  }
}

/** The finished mesh: its construction, and the two queries that skip whole subtrees. */
module ChunkyTriMeshQuery {
  import opened ChunkyTriMesh
  import opened ChunkyTriMeshNodes
  import opened ChunkyTriMeshBuild

  class ChunkyMesh {
    var nodes: array<Node>
    var nnodes: int
    var tris: array<int>
    var ntris: int
    var maxTrisPerChunk: int

    constructor ()
      ensures fresh(nodes) && fresh(tris) && nodes.Length == 0 && tris.Length == 0
      ensures nnodes == 0 && ntris == 0 && maxTrisPerChunk == 0
    {
      nodes, tris := new Node[0], new int[0];
      nnodes, ntris, maxTrisPerChunk := 0, 0, 0;
    }

    /** The array is the pre-order form of `t`; an empty mesh has no nodes. */
    ghost predicate Indexes(t: Tree)
      reads this, nodes
    {
      0 <= nnodes <= nodes.Length && PreOrder(nodes[..nnodes], t)
    }
  }

  /** Boxes, escape indices and triangle ranges of all nodes are those of `t`; with no triangles there are no nodes. */
  ghost predicate PreOrder(ns: seq<Node>, t: Tree) {
    ns != [] ==> Encodes(ns, t, 0) && AllValid(Items(t))
  }

  // ---------------------------------------------------------------- rcCreateChunkyTriMesh

  predicate GoodMesh(verts: seq<real>, tris: seq<int>, ntris: int) {
    && 0 <= 3 * ntris <= |tris|
    && forall j :: 0 <= j < 3 * ntris ==> 0 <= 3 * tris[j] && 3 * tris[j] + 2 < |verts|
  }

  /** Vertex `j` of triangle `i`, in the XZ plane. */
  function Corner(verts: seq<real>, tris: seq<int>, ntris: int, i: int, j: int): (real, real)
    requires GoodMesh(verts, tris, ntris) && 0 <= i < ntris && 0 <= j < 3
  {
    (verts[3 * tris[3 * i + j]], verts[3 * tris[3 * i + j] + 2])
  }

  /** The least box around the first `m` corners of triangle `i`. */
  ghost predicate Around(b: Box, verts: seq<real>, tris: seq<int>, ntris: int, i: int, m: int)
    requires GoodMesh(verts, tris, ntris) && 0 <= i < ntris && 0 < m <= 3
  {
    && (forall j :: 0 <= j < m ==> var p := Corner(verts, tris, ntris, i, j);
         b.minX <= p.0 <= b.maxX && b.minY <= p.1 <= b.maxY)
    && (exists j :: 0 <= j < m && Corner(verts, tris, ntris, i, j).0 == b.minX)
    && (exists j :: 0 <= j < m && Corner(verts, tris, ntris, i, j).0 == b.maxX)
    && (exists j :: 0 <= j < m && Corner(verts, tris, ntris, i, j).1 == b.minY)
    && (exists j :: 0 <= j < m && Corner(verts, tris, ntris, i, j).1 == b.maxY)
  }

  function Least(a: real, b: real, c: real): real { if a <= b && a <= c then a else if b <= c then b else c }

  function Most(a: real, b: real, c: real): real { if a >= b && a >= c then a else if b >= c then b else c }

  method TriangleBounds(verts: seq<real>, tris: array<int>, ntris: int, i: int) returns (b: Box)
    requires GoodMesh(verts, tris[..], ntris) && 0 <= i < ntris
    ensures Around(b, verts, tris[..], ntris, i, 3)
    ensures var u, v, w := 3 * tris[3 * i], 3 * tris[3 * i + 1], 3 * tris[3 * i + 2];
            && b.minX == Least(verts[u], verts[v], verts[w]) && b.maxX == Most(verts[u], verts[v], verts[w])
            && b.minY == Least(verts[u + 2], verts[v + 2], verts[w + 2])
            && b.maxY == Most(verts[u + 2], verts[v + 2], verts[w + 2])
  {
    hide Around;
    hide Least;
    hide Most;
    ghost var ins := tris[..];
    var x, y := verts[tris[3 * i] * 3], verts[tris[3 * i] * 3 + 2];
    b := Box(x, y, x, y);
    AroundFirst(b, verts, ins, ntris, i);
    for j := 1 to 3
      invariant Around(b, verts, ins, ntris, i, j)
    {
      var v := tris[3 * i + j] * 3;
      ghost var b0 := b;
      assert Corner(verts, ins, ntris, i, j) == (verts[v], verts[v + 2]);
      if verts[v] < b.minX { b := b.(minX := verts[v]); }
      if verts[v + 2] < b.minY { b := b.(minY := verts[v + 2]); }
      if verts[v] > b.maxX { b := b.(maxX := verts[v]); }
      if verts[v + 2] > b.maxY { b := b.(maxY := verts[v + 2]); }
      AroundNext(b0, b, verts, ins, ntris, i, j);
    }
    AroundMeans(b, verts, ins, ntris, i);
  }

  lemma AroundMeans(b: Box, verts: seq<real>, tris: seq<int>, ntris: int, i: int)
    requires GoodMesh(verts, tris, ntris) && 0 <= i < ntris && Around(b, verts, tris, ntris, i, 3)
    ensures var u, v, w := 3 * tris[3 * i], 3 * tris[3 * i + 1], 3 * tris[3 * i + 2];
            && b.minX == Least(verts[u], verts[v], verts[w]) && b.maxX == Most(verts[u], verts[v], verts[w])
            && b.minY == Least(verts[u + 2], verts[v + 2], verts[w + 2])
            && b.maxY == Most(verts[u + 2], verts[v + 2], verts[w + 2])
  {
    assert Corner(verts, tris, ntris, i, 0) == (verts[3 * tris[3 * i]], verts[3 * tris[3 * i] + 2]);
    assert Corner(verts, tris, ntris, i, 1) == (verts[3 * tris[3 * i + 1]], verts[3 * tris[3 * i + 1] + 2]);
    assert Corner(verts, tris, ntris, i, 2) == (verts[3 * tris[3 * i + 2]], verts[3 * tris[3 * i + 2] + 2]);
  }

  lemma AroundFirst(b: Box, verts: seq<real>, tris: seq<int>, ntris: int, i: int)
    requires GoodMesh(verts, tris, ntris) && 0 <= i < ntris
    requires var p := Corner(verts, tris, ntris, i, 0); b == Box(p.0, p.1, p.0, p.1)
    ensures Around(b, verts, tris, ntris, i, 1)
  {}

  lemma AroundNext(b0: Box, b: Box, verts: seq<real>, tris: seq<int>, ntris: int, i: int, m: int)
    requires GoodMesh(verts, tris, ntris) && 0 <= i < ntris && 0 < m < 3 && Around(b0, verts, tris, ntris, i, m)
    requires var p := Corner(verts, tris, ntris, i, m);
             && b.minX == (if p.0 < b0.minX then p.0 else b0.minX) && b.maxX == (if p.0 > b0.maxX then p.0 else b0.maxX)
             && b.minY == (if p.1 < b0.minY then p.1 else b0.minY) && b.maxY == (if p.1 > b0.maxY then p.1 else b0.maxY)
    ensures Around(b, verts, tris, ntris, i, m + 1)
  {}

  /** One item per triangle, in order, with the triangle's bounds. */
  ghost predicate ItemsOf(its: seq<BoundsItem>, verts: seq<real>, tris: seq<int>, ntris: int, m: int)
    requires GoodMesh(verts, tris, ntris) && 0 <= m <= |its| && m <= ntris
  {
    forall i :: 0 <= i < m ==> its[i].i == i && Around(its[i].box, verts, tris, ntris, i, 3)
  }

  method MakeItems(verts: seq<real>, tris: array<int>, ntris: int) returns (items: array<BoundsItem>)
    requires GoodMesh(verts, tris[..], ntris)
    ensures fresh(items) && items.Length == ntris && ItemsOf(items[..], verts, tris[..], ntris, ntris)
  {
    items := new BoundsItem[ntris];
    ghost var ins := tris[..];
    for i := 0 to ntris
      invariant tris[..] == ins && ItemsOf(items[..], verts, ins, ntris, i)
    {
      var b := TriangleBounds(verts, tris, ntris, i);
      items[i] := BoundsItem(b, i);
    }
  }

  lemma ItemsGood(its: seq<BoundsItem>, verts: seq<real>, tris: seq<int>, ntris: int)
    requires GoodMesh(verts, tris, ntris) && |its| == ntris && ItemsOf(its, verts, tris, ntris, ntris)
    ensures InRange(its, tris) && AllValid(its)
  {}

  function LeafTriangles(n: Node): int { if n.i >= 0 then n.n else 0 }

  /** At least every leaf's triangle count, and attained unless it is zero. */
  ghost predicate IsLargestLeaf(m: int, ns: seq<Node>) {
    m >= 0 && (forall n :: n in ns ==> LeafTriangles(n) <= m)
      && (m == 0 || exists n :: n in ns && LeafTriangles(n) == m)
  }

  method LargestLeaf(nodes: array<Node>, nnodes: int) returns (m: int)
    requires 0 <= nnodes <= nodes.Length
    ensures IsLargestLeaf(m, nodes[..nnodes])
  {
    m := 0;
    for i := 0 to nnodes
      invariant IsLargestLeaf(m, nodes[..i])
    {
      assert nodes[..i + 1] == nodes[..i] + [nodes[i]];
      ghost var m0 := m;
      if nodes[i].i >= 0 && nodes[i].n > m {
        m := nodes[i].n;
      }
      LargerLeaf(m0, nodes[..i], nodes[i]);
    }
  }

  lemma LargerLeaf(m: int, ns: seq<Node>, n: Node)
    requires IsLargestLeaf(m, ns)
    ensures IsLargestLeaf(if n.i >= 0 && n.n > m then n.n else m, ns + [n])
  {
    assert n in ns + [n] && forall x :: x in ns ==> x in ns + [n];
  }

  /** rcCreateChunkyTriMesh. `its` are the triangles' bounds in input order, `t` the tree the mesh holds. */
  method Create(verts: seq<real>, tris: array<int>, ntris: int, k: int, cm: ChunkyMesh)
    returns (ghost its: seq<BoundsItem>, ghost t: Tree)
    requires GoodMesh(verts, tris[..], ntris) && k >= 1
    modifies cm
    ensures fresh(cm.nodes) && fresh(cm.tris) && cm.ntris == ntris && cm.Indexes(t) && tris[..] == old(tris[..])
    ensures |its| == ntris && ItemsOf(its, verts, tris[..], ntris, ntris)
    ensures ntris == 0 ==> cm.nnodes == 0 && cm.tris.Length == 0
    ensures ntris > 0 ==>
              && cm.nnodes == NodeCount(ntris, k) < cm.nodes.Length
              && multiset(Items(t)) == multiset(its) && Halved(t, k)
              && cm.tris[..] == Gather(tris[..], Items(t))
    ensures IsLargestLeaf(cm.maxTrisPerChunk, cm.nodes[..cm.nnodes])
  {
    assert ntris >= 0;
    hide *;
    ghost var ins := tris[..];
    var items := MakeItems(verts, tris, ntris);
    its := items[..];
    assert tris[..] == ins;
    ItemsGood(its, verts, ins, ntris);
    var nodes, nextNode, out;
    nodes, nextNode, out, t := BuildTree(items, k, tris);
    var largest := LargestLeaf(nodes, nextNode);
    cm.nodes, cm.tris, cm.ntris, cm.nnodes, cm.maxTrisPerChunk := nodes, out, ntris, nextNode, largest;
    Indexing(cm, t);
  }

  /** The tree over all the items, in arrays of the size allocated for it. */
  method BuildTree(items: array<BoundsItem>, k: int, tris: array<int>)
    returns (nodes: array<Node>, nextNode: int, out: array<int>, ghost t: Tree)
    requires k >= 1 && InRange(items[..], tris[..]) && AllValid(items[..])
    modifies items
    ensures fresh(nodes) && fresh(out) && 0 <= nextNode <= nodes.Length && out.Length == 3 * items.Length
    ensures items.Length == 0 ==> nextNode == 0
    ensures PreOrder(nodes[..nextNode], t)
    ensures items.Length > 0 ==>
              && nextNode == NodeCount(items.Length, k) < nodes.Length
              && multiset(Items(t)) == multiset(old(items[..])) && Halved(t, k)
              && out[..] == Gather(tris[..], Items(t))
  {
    hide *;
    var n := items.Length;
    var nchunks := ChunkCount(n, k);
    ChunksFor(n, k);
    nodes, out := new Node[nchunks * 4], new int[n * 3];
    var nextTri;
    ghost var its := items[..];
    assert items[0..n] == its;
    nextNode, nextTri, t := Subdivide(items, 0, n, k, 0, nodes, nodes.Length, 0, out, tris);
    assert nodes[0..nextNode] == nodes[..nextNode] && out[..] == out[0..3 * n] && items[..] == items[0..n];
    if n > 0 {
      BuiltMesh(nodes[..nextNode], out[..], its, items[..], t, k, tris[..]);
    } else {
      NoNodes(nodes[..nextNode], t);
    }
  }

  lemma ChunksFor(n: int, k: int)
    requires n >= 0 && k >= 1
    ensures ChunkCount(n, k) >= 0
    ensures n == 0 ==> ChunkCount(n, k) == 0
    ensures n > 0 ==> 0 < NodeCount(n, k) < 4 * ChunkCount(n, k)
  {
    NodeCountUnfold(n, k);
    if n > 0 {
      NodeArraySuffices(n, k);
    }
  }

  lemma BuiltMesh(ns: seq<Node>, out: seq<int>, its: seq<BoundsItem>, its': seq<BoundsItem>, t: Tree, k: int,
                  ins: seq<int>)
    requires Permuted(its, its', 0, |its|) && AllValid(its) && Built(ns, out, its', t, 0, k, ins)
    ensures PreOrder(ns, t) && multiset(Items(t)) == multiset(its) && Halved(t, k) && out == Gather(ins, Items(t))
  {
    hide Encodes;
    hide Halved;
    hide Gather;
    assert its[0..|its|] == its && its'[0..|its|] == its';
    SameMembers(its, its');
  }

  lemma Indexing(cm: ChunkyMesh, t: Tree)
    requires 0 <= cm.nnodes <= cm.nodes.Length && PreOrder(cm.nodes[..cm.nnodes], t)
    ensures cm.Indexes(t)
  {}

  lemma NoNodes(ns: seq<Node>, t: Tree)
    requires ns == []
    ensures PreOrder(ns, t)
  {}

  // ---------------------------------------------------------------- overlap tests

  /** checkOverlapRect: the boxes share a point. */
  predicate OverlapsRect(q: Box, b: Box) {
    !(q.minX > b.maxX || q.maxX < b.minX) && !(q.minY > b.maxY || q.maxY < b.minY)
  }

  const EPSILON := 0.000001

  datatype Clip = Missed | Within(tmin: real, tmax: real)

  /** Clips the parameters from `tmin` to `tmax` by those from `a` to `b`, whichever is the lower. */
  function ClipTo(a: real, b: real, tmin: real, tmax: real): Clip {
    var t1, t2 := if a > b then b else a, if a > b then a else b;
    var tmin', tmax' := if t1 > tmin then t1 else tmin, if t2 < tmax then t2 else tmax;
    if tmin' > tmax' then Missed else Within(tmin', tmax')
  }

  function ClipSlab(p: real, ood: real, lo: real, hi: real, tmin: real, tmax: real): Clip {
    ClipTo(Scaled(lo, p, ood), Scaled(hi, p, ood), tmin, tmax)
  }

  function Scaled(x: real, p: real, ood: real): real { (x - p) * ood }

  /** checkOverlapSegment on one axis: clips the segment's parameters by the slab from `lo` to `hi`. */
  function ClipAxis(p: real, d: real, lo: real, hi: real, tmin: real, tmax: real): Clip {
    if -EPSILON < d < EPSILON then (if p < lo || p > hi then Missed else Within(tmin, tmax))
    else ClipSlab(p, 1.0 / d, lo, hi, tmin, tmax)
  }

  predicate OverlapsSegment(p: (real, real), q: (real, real), b: Box) {
    match ClipAxis(p.0, q.0 - p.0, b.minX, b.maxX, 0.0, 1.0)
    case Missed => false
    case Within(tmin, tmax) => ClipAxis(p.1, q.1 - p.1, b.minY, b.maxY, tmin, tmax).Within?
  }

  // ---------------------------------------------------------------- what the tests mean

  predicate InBox(x: real, y: real, b: Box) { b.minX <= x <= b.maxX && b.minY <= y <= b.maxY }

  ghost predicate SharePoint(q: Box, b: Box) {
    exists x: real, y: real :: InBox(x, y, q) && InBox(x, y, b)
  }

  lemma RectMeaning(q: Box, b: Box)
    requires ValidBox(q) && ValidBox(b)
    ensures OverlapsRect(q, b) <==> SharePoint(q, b)
  {
    if OverlapsRect(q, b) {
      var x := if q.minX > b.minX then q.minX else b.minX;
      var y := if q.minY > b.minY then q.minY else b.minY;
      assert InBox(x, y, q) && InBox(x, y, b);
    }
  }

  /** Where the segment is at parameter `u`, on one axis; one that hardly moves counts as standing still. */
  predicate OnAxis(p: real, d: real, lo: real, hi: real, u: real) {
    if -0.000001 < d < 0.000001 then lo <= p <= hi else lo <= p + u * d <= hi
  }

  predicate MeetsAt(p: (real, real), q: (real, real), b: Box, u: real) {
    OnAxis(p.0, q.0 - p.0, b.minX, b.maxX, u) && OnAxis(p.1, q.1 - p.1, b.minY, b.maxY, u)
  }

  /** At some parameter from 0 to 1 the segment is in the box. */
  ghost predicate Meets(p: (real, real), q: (real, real), b: Box) {
    exists u: real :: 0.0 <= u <= 1.0 && MeetsAt(p, q, b, u)
  }

  lemma Crossing(p: real, d: real, x: real, u: real)
    requires d != 0.0
    ensures d > 0.0 ==>
            (u <= Scaled(x, p, 1.0 / d) <==> p + u * d <= x) && (Scaled(x, p, 1.0 / d) <= u <==> x <= p + u * d)
    ensures d < 0.0 ==>
            (u <= Scaled(x, p, 1.0 / d) <==> x <= p + u * d) && (Scaled(x, p, 1.0 / d) <= u <==> p + u * d <= x)
  {
    var s, o := Scaled(x, p, 1.0 / d), 1.0 / d;
    assert s * d == x - p by {
      assert o * d == 1.0;
      assert s * d == (x - p) * (o * d);
    }
    assert (u - s) * d == u * d - s * d;
    if d > 0.0 {
      assert u - s >= 0.0 <==> (u - s) * d >= 0.0;
      assert u - s <= 0.0 <==> (u - s) * d <= 0.0;
    } else {
      assert u - s >= 0.0 <==> (u - s) * d <= 0.0;
      assert u - s <= 0.0 <==> (u - s) * d >= 0.0;
    }
  }

  /** The clip leaves exactly the parameters at which the segment is between the two bounds. */
  lemma ClipMeaning(p: real, d: real, lo: real, hi: real, tmin: real, tmax: real, u: real)
    requires lo <= hi
    ensures var c := ClipAxis(p, d, lo, hi, tmin, tmax);
            c.Within? && c.tmin <= u <= c.tmax <==> tmin <= u <= tmax && OnAxis(p, d, lo, hi, u)
    ensures var c := ClipAxis(p, d, lo, hi, tmin, tmax); tmin <= tmax && c.Within? ==> c.tmin <= c.tmax
  {
    if !(-EPSILON < d < EPSILON) {
      Crossing(p, d, lo, u);
      Crossing(p, d, hi, u);
      ScaledOrder(p, 1.0 / d, lo, hi, lo, hi);
      hide Scaled;
    }
  }

  lemma SegmentMeaning(p: (real, real), q: (real, real), b: Box)
    requires ValidBox(b)
    ensures OverlapsSegment(p, q, b) <==> Meets(p, q, b)
  {
    hide ClipAxis;
    hide OnAxis;
    var c := ClipAxis(p.0, q.0 - p.0, b.minX, b.maxX, 0.0, 1.0);
    ClipMeaning(p.0, q.0 - p.0, b.minX, b.maxX, 0.0, 1.0, 0.0);
    if OverlapsSegment(p, q, b) {
      var c' := ClipAxis(p.1, q.1 - p.1, b.minY, b.maxY, c.tmin, c.tmax);
      ClipMeaning(p.1, q.1 - p.1, b.minY, b.maxY, c.tmin, c.tmax, c'.tmin);
      ClipMeaning(p.0, q.0 - p.0, b.minX, b.maxX, 0.0, 1.0, c'.tmin);
      assert MeetsAt(p, q, b, c'.tmin);
    }
    if u: real :| 0.0 <= u <= 1.0 && MeetsAt(p, q, b, u) {
      ClipMeaning(p.0, q.0 - p.0, b.minX, b.maxX, 0.0, 1.0, u);
      ClipMeaning(p.1, q.1 - p.1, b.minY, b.maxY, c.tmin, c.tmax, u);
    }
  }

  /** A box that is hit is hit through every box around it. */
  ghost predicate Monotone(hit: Box -> bool) {
    forall inner, outer :: ValidBox(inner) && Contains(outer, inner) && hit(inner) ==> hit(outer)
  }

  lemma RectMonotone(q: Box)
    ensures Monotone((b: Box) => OverlapsRect(q, b))
  {}

  lemma ScaleOrder(a: real, b: real, c: real)
    requires a <= b
    ensures c >= 0.0 ==> a * c <= b * c
    ensures c <= 0.0 ==> b * c <= a * c
  {
    assert c >= 0.0 ==> (b - a) * c >= 0.0;
    assert c <= 0.0 ==> (b - a) * c <= 0.0;
  }

  ghost predicate Wider(c': Clip, c: Clip) {
    c.Within? ==> c'.Within? && c'.tmin <= c.tmin && c.tmax <= c'.tmax
  }

  lemma ClipToWider(a: real, b: real, a': real, b': real, tmin: real, tmax: real, tmin': real, tmax': real)
    requires (a' <= a <= b <= b') || (b' <= b <= a <= a')
    requires tmin' <= tmin && tmax <= tmax'
    ensures Wider(ClipTo(a', b', tmin', tmax'), ClipTo(a, b, tmin, tmax))
  {}

  lemma ScaledOrder(p: real, c: real, lo: real, hi: real, lo': real, hi': real)
    requires lo' <= lo <= hi <= hi'
    ensures var a, b, a', b' := Scaled(lo, p, c), Scaled(hi, p, c), Scaled(lo', p, c), Scaled(hi', p, c);
            (a' <= a <= b <= b') || (b' <= b <= a <= a')
  {
    ScaleOrder(lo' - p, lo - p, c);
    ScaleOrder(lo - p, hi - p, c);
    ScaleOrder(hi - p, hi' - p, c);
  }

  lemma SlabWider(p: real, c: real, lo: real, hi: real, lo': real, hi': real, tmin: real, tmax: real, tmin': real,
                  tmax': real)
    requires lo' <= lo <= hi <= hi' && tmin' <= tmin && tmax <= tmax'
    ensures Wider(ClipSlab(p, c, lo', hi', tmin', tmax'), ClipSlab(p, c, lo, hi, tmin, tmax))
  {
    hide ClipTo;
    hide Wider;
    hide Scaled;
    ScaledOrder(p, c, lo, hi, lo', hi');
    ClipToWider(Scaled(lo, p, c), Scaled(hi, p, c), Scaled(lo', p, c), Scaled(hi', p, c), tmin, tmax, tmin', tmax');
  }

  /** A wider slab and a wider interval clip to a wider interval. */
  lemma ClipWider(p: real, d: real, lo: real, hi: real, lo': real, hi': real, tmin: real, tmax: real, tmin': real,
                  tmax': real)
    requires lo' <= lo <= hi <= hi' && tmin' <= tmin && tmax <= tmax'
    ensures Wider(ClipAxis(p, d, lo', hi', tmin', tmax'), ClipAxis(p, d, lo, hi, tmin, tmax))
  {
    hide ClipSlab;
    if !(-EPSILON < d < EPSILON) {
      SlabWider(p, 1.0 / d, lo, hi, lo', hi', tmin, tmax, tmin', tmax');
    }
  }

  lemma SegmentMonotone(p: (real, real), q: (real, real))
    ensures Monotone((b: Box) => OverlapsSegment(p, q, b))
  {
    forall inner: Box, outer: Box | ValidBox(inner) && Contains(outer, inner) && OverlapsSegment(p, q, inner)
      ensures OverlapsSegment(p, q, outer)
    {
      hide ClipAxis;
      ClipWider(p.0, q.0 - p.0, inner.minX, inner.maxX, outer.minX, outer.maxX, 0.0, 1.0, 0.0, 1.0);
      var i, o := ClipAxis(p.0, q.0 - p.0, inner.minX, inner.maxX, 0.0, 1.0),
        ClipAxis(p.0, q.0 - p.0, outer.minX, outer.maxX, 0.0, 1.0);
      ClipWider(p.1, q.1 - p.1, inner.minY, inner.maxY, outer.minY, outer.maxY, i.tmin, i.tmax, o.tmin, o.tmax);
    }
  }

  // ---------------------------------------------------------------- the linear scan

  /** The indices, from `from` on, of the leaves that are hit. */
  function Scan(ns: seq<Node>, from: int, hit: Box -> bool): seq<int> {
    if ns == [] then []
    else (if ns[0].i >= 0 && hit(ns[0].box) then [from] else []) + Scan(ns[1..], from + 1, hit)
  }

  lemma {:induction false} ScanConcat(a: seq<Node>, b: seq<Node>, from: int, hit: Box -> bool)
    ensures Scan(a + b, from, hit) == Scan(a, from, hit) + Scan(b, from + |a|, hit)
  {
    if a == [] {
      assert a + b == b;
    } else {
      assert (a + b)[1..] == a[1..] + b && (a + b)[0] == a[0];
      ScanConcat(a[1..], b, from + 1, hit);
    }
  }

  /** The pre-order form of `t` starts at index `k` of the array. */
  ghost predicate EncodedAt(ns: seq<Node>, k: int, t: Tree, tri: int)
    decreases t
  {
    && 0 <= k && k + Size(t) <= |ns| && IsExtents(ns[k].box, Items(t))
    && match t
       case Leaf(items) => ns[k].i == tri && ns[k].n == |items|
       case Split(l, r) =>
         ns[k].i == -Size(t) && EncodedAt(ns, k + 1, l, tri) && EncodedAt(ns, k + 1 + Size(l), r, tri + |Items(l)|)
  }

  ghost predicate Window(part: seq<Node>, ns: seq<Node>, k: int) {
    0 <= k && k + |part| <= |ns| && forall x :: 0 <= x < |part| ==> part[x] == ns[k + x]
  }

  lemma Narrower(part: seq<Node>, ns: seq<Node>, k: int, a: int, b: int)
    requires Window(part, ns, k) && 0 <= a <= b <= |part|
    ensures Window(part[a..b], ns, k + a)
  {}

  lemma WindowFits(part: seq<Node>, ns: seq<Node>, k: int)
    requires Window(part, ns, k) && part != []
    ensures 0 <= k && k + |part| <= |ns| && ns[k] == part[0]
  {}

  lemma {:induction false} EncodedFrom(part: seq<Node>, ns: seq<Node>, k: int, t: Tree, tri: int)
    requires Window(part, ns, k) && Encodes(part, t, tri)
    ensures EncodedAt(ns, k, t, tri)
    decreases t
  {
    hide *;
    EncodesUnfold(part, t, tri);
    WindowFits(part, ns, k);
    if t.Leaf? {
      EncodedLeaf(ns, k, t, tri);
    } else {
      var l, r := t.left, t.right;
      var m := 1 + Size(l);
      Narrower(part, ns, k, 1, m);
      Narrower(part, ns, k, m, |part|);
      assert part[m..] == part[m..|part|];
      EncodedFrom(part[1..m], ns, k + 1, l, tri);
      EncodedFrom(part[m..], ns, k + m, r, tri + |Items(l)|);
      EncodedSplit(ns, k, t, tri);
    }
  }

  lemma EncodedSplit(ns: seq<Node>, k: int, t: Tree, tri: int)
    requires t.Split? && 0 <= k && k + Size(t) <= |ns| && IsExtents(ns[k].box, Items(t)) && ns[k].i == -Size(t)
    requires EncodedAt(ns, k + 1, t.left, tri) && EncodedAt(ns, k + 1 + Size(t.left), t.right, tri + |Items(t.left)|)
    ensures EncodedAt(ns, k, t, tri)
  {
    hide IsExtents;
    hide Items;
  }

  lemma EncodedLeaf(ns: seq<Node>, k: int, t: Tree, tri: int)
    requires t.Leaf? && 0 <= k < |ns| && IsExtents(ns[k].box, Items(t)) && ns[k].i == tri && ns[k].n == |Items(t)|
    ensures EncodedAt(ns, k, t, tri)
  {}

  lemma EncodesUnfold(ns: seq<Node>, t: Tree, tri: int)
    requires Encodes(ns, t, tri)
    ensures |ns| == Size(t) >= 1 && IsExtents(ns[0].box, Items(t))
    ensures t.Leaf? ==> ns[0].i == tri && ns[0].n == |Items(t)|
    ensures t.Split? ==>
              && ns[0].i == -Size(t) && Size(t.left) >= 1 && Size(t.right) >= 1
              && Size(t) == 1 + Size(t.left) + Size(t.right)
              && Encodes(ns[1..1 + Size(t.left)], t.left, tri)
              && Encodes(ns[1 + Size(t.left)..], t.right, tri + |Items(t.left)|)
  {}

  predicate Below(some: seq<BoundsItem>, all: seq<BoundsItem>) {
    forall it :: it in some ==> it in all
  }


  /** A subtree lies in the boxes of the nodes above it. */
  lemma BoxAround(outer: Box, all: seq<BoundsItem>, inner: Box, some: seq<BoundsItem>)
    requires IsExtents(outer, all) && IsExtents(inner, some) && AllValid(all)
    requires Below(some, all)
    ensures ValidBox(inner) && Contains(outer, inner)
  {
    var it :| it in some && it.box.minX == inner.minX;
    assert Contains(inner, it.box) && ValidBox(it.box);
  }

  lemma BelowSplit(some: seq<BoundsItem>, left: seq<BoundsItem>, right: seq<BoundsItem>)
    requires Below(some, left) || Below(some, right)
    ensures Below(some, left + right)
  {}

  /** Every index of a subtree is the root of a subtree that starts there. */
  lemma {:induction false} SubtreeAt(ns: seq<Node>, k: int, t: Tree, tri: int, i: int) returns (sub: Tree, subTri: int)
    requires EncodedAt(ns, k, t, tri) && k <= i < k + Size(t) && tri >= 0
    ensures EncodedAt(ns, i, sub, subTri) && subTri >= 0 && Below(Items(sub), Items(t))
    decreases t
  {
    hide IsExtents;
    if i == k {
      return t, tri;
    }
    hide Below;
    var l, r := t.left, t.right;
    if i < k + 1 + Size(l) {
      sub, subTri := SubtreeAt(ns, k + 1, l, tri, i);
    } else {
      sub, subTri := SubtreeAt(ns, k + 1 + Size(l), r, tri + |Items(l)|, i);
    }
    BelowSplit(Items(sub), Items(l), Items(r));
  }

  /** A leaf names the part of the output that holds the triangles of its items. */
  lemma {:induction false} LeafRange(ns: seq<Node>, k: int, t: Tree, tri: int, out: seq<int>, ins: seq<int>, i: int)
    returns (items: seq<BoundsItem>)
    requires EncodedAt(ns, k, t, tri) && k <= i < k + Size(t) && tri >= 0 && ns[i].i >= 0
    requires 3 * (tri + |Items(t)|) <= |out| && out[3 * tri..3 * (tri + |Items(t)|)] == Gather(ins, Items(t))
    ensures |items| == ns[i].n && 3 * (ns[i].i + ns[i].n) <= |out| && Below(items, Items(t))
    ensures out[3 * ns[i].i..3 * (ns[i].i + ns[i].n)] == Gather(ins, items) && IsExtents(ns[i].box, items)
    decreases t
  {
    hide IsExtents;
    hide Gather;
    match t
    case Leaf(its) =>
      items := its;
    case Split(l, r) =>
      assert i != k;
      var mid := tri + |Items(l)|;
      GatherConcat(ins, Items(l), Items(r));
      var all := out[3 * tri..3 * (tri + |Items(t)|)];
      assert out[3 * tri..3 * mid] == all[..3 * |Items(l)|] == Gather(ins, Items(l));
      assert out[3 * mid..3 * (mid + |Items(r)|)] == all[3 * |Items(l)|..] == Gather(ins, Items(r));
      if i < k + 1 + Size(l) {
        items := LeafRange(ns, k + 1, l, tri, out, ins, i);
      } else {
        items := LeafRange(ns, k + 1 + Size(l), r, mid, out, ins, i);
      }
  }

  lemma MeshEncoded(cm: ChunkyMesh, t: Tree)
    requires cm.Indexes(t) && cm.nnodes > 0
    ensures cm.nnodes <= cm.nodes.Length && EncodedAt(cm.nodes[..cm.nnodes], 0, t, 0) && Size(t) == cm.nnodes
  {
    var ns := cm.nodes[..cm.nnodes];
    EncodedFrom(ns, ns, 0, t, 0);
    SizeOfAll(ns, t);
  }

  /** So a leaf that a query reports holds `n` triangles from `i` on, and its box is the least around them. */
  lemma LeafHolds(cm: ChunkyMesh, t: Tree, ins: seq<int>, i: int) returns (items: seq<BoundsItem>)
    requires cm.Indexes(t) && cm.tris[..] == Gather(ins, Items(t))
    requires 0 <= i < cm.nnodes <= cm.nodes.Length && cm.nodes[i].i >= 0
    ensures |items| == cm.nodes[i].n && 3 * (cm.nodes[i].i + cm.nodes[i].n) <= |cm.tris[..]|
    ensures cm.tris[..][3 * cm.nodes[i].i..3 * (cm.nodes[i].i + cm.nodes[i].n)] == Gather(ins, items)
    ensures IsExtents(cm.nodes[i].box, items) && Below(items, Items(t))
  {
    var ns, out := cm.nodes[..cm.nnodes], cm.tris[..];
    MeshEncoded(cm, t);
    assert ns[i] == cm.nodes[i];
    hide *;
    assert out[3 * 0..3 * (0 + |Items(t)|)] == out;
    items := LeafRange(ns, 0, t, 0, out, ins, i);
  }

  lemma SubtreeBox(ns: seq<Node>, k: int, t: Tree, tri: int, i: int)
    requires EncodedAt(ns, k, t, tri) && k <= i < k + Size(t) && tri >= 0 && AllValid(Items(t))
    ensures ValidBox(ns[i].box) && Contains(ns[k].box, ns[i].box)
  {
    var sub, subTri := SubtreeAt(ns, k, t, tri, i);
    hide IsExtents;
    hide Items;
    BoxAround(ns[k].box, Items(t), ns[i].box, Items(sub));
  }

  lemma {:induction false} NothingHit(ns: seq<Node>, from: int, hit: Box -> bool)
    requires forall j :: 0 <= j < |ns| ==> !hit(ns[j].box)
    ensures Scan(ns, from, hit) == []
  {
    if ns != [] {
      NothingHit(ns[1..], from + 1, hit);
    }
  }

  /** Nothing below a missed box is hit. */
  lemma MissedSubtree(ns: seq<Node>, k: int, t: Tree, tri: int, hit: Box -> bool)
    requires EncodedAt(ns, k, t, tri) && tri >= 0 && AllValid(Items(t)) && Monotone(hit) && !hit(ns[k].box)
    ensures Scan(ns[k..k + Size(t)], k, hit) == []
  {
    hide Scan;
    hide AllValid;
    hide Items;
    forall i | k <= i < k + Size(t)
      ensures !hit(ns[i].box)
    {
      hide EncodedAt;
      SubtreeBox(ns, k, t, tri, i);
    }
    NothingHit(ns[k..k + Size(t)], k, hit);
  }

  /** What the queries need: a built tree, and a test that no box around a hit box fails. */
  ghost predicate Searchable(ns: seq<Node>, t: Tree, hit: Box -> bool) {
    Monotone(hit) && (ns != [] ==> EncodedAt(ns, 0, t, 0) && Size(t) == |ns| && AllValid(Items(t)))
  }

  /** Where the code jumps over a missed inner node, the scan finds nothing in between. */
  lemma EscapeIsSafe(ns: seq<Node>, t: Tree, i: int, hit: Box -> bool)
    requires Searchable(ns, t, hit) && 0 <= i < |ns| && ns[i].i < 0 && !hit(ns[i].box)
    ensures 0 < -ns[i].i && i - ns[i].i <= |ns|
    ensures Scan(ns[..i - ns[i].i], 0, hit) == Scan(ns[..i], 0, hit)
  {
    hide Monotone;
    hide Scan;
    hide Items;
    var sub, tri := SubtreeAt(ns, 0, t, 0, i);
    var j := i + Size(sub);
    MissedSubtree(ns, i, sub, tri, hit);
    assert ns[..j] == ns[..i] + ns[i..j];
    ScanConcat(ns[..i], ns[i..j], 0, hit);
  }

  lemma ScanNext(ns: seq<Node>, i: int, hit: Box -> bool)
    requires 0 <= i < |ns|
    ensures Scan(ns[..i + 1], 0, hit) == if ns[i].i >= 0 && hit(ns[i].box) then Scan(ns[..i], 0, hit) + [i]
            else Scan(ns[..i], 0, hit)
  {
    assert ns[..i + 1] == ns[..i] + [ns[i]];
    ScanConcat(ns[..i], [ns[i]], 0, hit);
    assert Scan([ns[i]], i, hit) == if ns[i].i >= 0 && hit(ns[i].box) then [i] else [];
  }

  /** Tests that agree on the boxes of the nodes find the same leaves. */
  lemma {:induction false} ScanSame(ns: seq<Node>, from: int, hit: Box -> bool, hit': Box -> bool)
    requires forall n :: n in ns ==> hit(n.box) == hit'(n.box)
    ensures Scan(ns, from, hit) == Scan(ns, from, hit')
  {
    if ns != [] {
      assert ns[0] in ns;
      ScanSame(ns[1..], from + 1, hit, hit');
    }
  }

  lemma BoxesValid(cm: ChunkyMesh, t: Tree)
    requires cm.Indexes(t)
    ensures 0 <= cm.nnodes <= cm.nodes.Length && forall n :: n in cm.nodes[..cm.nnodes] ==> ValidBox(n.box)
  {
    var ns := cm.nodes[..cm.nnodes];
    forall n | n in ns
      ensures ValidBox(n.box)
    {
      var i :| 0 <= i < |ns| && ns[i] == n;
      EncodedFrom(ns, ns, 0, t, 0);
      hide EncodedAt;
      SizeOfAll(ns, t);
      SubtreeBox(ns, 0, t, 0, i);
    }
  }

  lemma SizeOfAll(ns: seq<Node>, t: Tree)
    requires Encodes(ns, t, 0)
    ensures Size(t) == |ns|
  {}

  /** The first `max` of the scan's results. */
  ghost predicate FirstOf(ids: seq<int>, n: int, scan: seq<int>, max: int) {
    0 <= n <= |ids| && n == (if max < 0 then 0 else if |scan| < max then |scan| else max) && ids[..n] == scan[..n]
  }

  lemma Recorded(ids: seq<int>, n: int, scan: seq<int>, max: int, i: int)
    requires FirstOf(ids, n, scan, max) && max <= |ids|
    ensures n < max ==> FirstOf(ids[n := i], n + 1, scan + [i], max)
    ensures n >= max ==> FirstOf(ids, n, scan + [i], max)
  {}

  // ---------------------------------------------------------------- the queries

  lemma IndexBounds(cm: ChunkyMesh, t: Tree)
    requires cm.Indexes(t)
    ensures 0 <= cm.nnodes <= cm.nodes.Length
  {}

  lemma Indexed(cm: ChunkyMesh, t: Tree, hit: Box -> bool)
    requires cm.Indexes(t) && Monotone(hit)
    ensures Searchable(cm.nodes[..cm.nnodes], t, hit)
  {
    var ns := cm.nodes[..cm.nnodes];
    if cm.nnodes > 0 {
      EncodedFrom(ns, ns, 0, t, 0);
    }
  }

  lemma ScanStart(ns: seq<Node>, hit: Box -> bool, ids: seq<int>, max: int)
    ensures FirstOf(ids, 0, Scan(ns[..0], 0, hit), max)
  {}

  method GetChunksOverlappingRect(cm: ChunkyMesh, q: Box, ids: array<int>, maxIds: int, ghost t: Tree) returns (n: int)
    requires cm.Indexes(t) && maxIds <= ids.Length && ids != cm.tris
    modifies ids
    ensures FirstOf(ids[..], n, Scan(cm.nodes[..cm.nnodes], 0, (b: Box) => OverlapsRect(q, b)), maxIds)
    ensures ValidBox(q) ==>
              FirstOf(ids[..], n, Scan(cm.nodes[..cm.nnodes], 0, (b: Box) => SharePoint(q, b)), maxIds)
  {
    hide *;
    IndexBounds(cm, t);
    ghost var ns, hit := cm.nodes[..cm.nnodes], (b: Box) => OverlapsRect(q, b);
    RectMonotone(q);
    Indexed(cm, t, hit);
    ScanStart(ns, hit, ids[..], maxIds);
    var i := 0;
    n := 0;
    while i < cm.nnodes
      invariant 0 <= i <= cm.nnodes && ns == cm.nodes[..cm.nnodes]
      invariant 0 <= n <= ids.Length && FirstOf(ids[..], n, Scan(ns[..i], 0, hit), maxIds)
      decreases cm.nnodes - i
    {
      var node := cm.nodes[i];
      assert node == ns[i];
      var overlap := OverlapsRect(q, node.box);
      var isLeafNode := node.i >= 0;
      ScanNext(ns, i, hit);
      if isLeafNode && overlap {
        Recorded(ids[..], n, Scan(ns[..i], 0, hit), maxIds, i);
        if n < maxIds {
          ghost var before := ids[..];
          ids[n] := i;
          assert ids[..] == before[n := i];
          n := n + 1;
        }
      }
      if overlap || isLeafNode {
        i := i + 1;
      } else {
        EscapeIsSafe(ns, t, i, hit);
        i := i + -node.i;
      }
    }
    assert ns[..i] == ns;
    if ValidBox(q) {
      RectScan(cm, t, q);
    }
  }

  lemma RectScan(cm: ChunkyMesh, t: Tree, q: Box)
    requires cm.Indexes(t) && ValidBox(q)
    ensures 0 <= cm.nnodes <= cm.nodes.Length
    ensures Scan(cm.nodes[..cm.nnodes], 0, (b: Box) => OverlapsRect(q, b)) ==
            Scan(cm.nodes[..cm.nnodes], 0, (b: Box) => SharePoint(q, b))
  {
    BoxesValid(cm, t);
    var ns := cm.nodes[..cm.nnodes];
    forall n | n in ns
      ensures OverlapsRect(q, n.box) == SharePoint(q, n.box)
    {
      RectMeaning(q, n.box);
    }
    ScanSame(ns, 0, (b: Box) => OverlapsRect(q, b), (b: Box) => SharePoint(q, b));
  }

  lemma SegmentScan(cm: ChunkyMesh, t: Tree, p: (real, real), q: (real, real))
    requires cm.Indexes(t)
    ensures 0 <= cm.nnodes <= cm.nodes.Length
    ensures Scan(cm.nodes[..cm.nnodes], 0, (b: Box) => OverlapsSegment(p, q, b)) ==
            Scan(cm.nodes[..cm.nnodes], 0, (b: Box) => Meets(p, q, b))
  {
    BoxesValid(cm, t);
    var ns := cm.nodes[..cm.nnodes];
    forall n | n in ns
      ensures OverlapsSegment(p, q, n.box) == Meets(p, q, n.box)
    {
      SegmentMeaning(p, q, n.box);
    }
    ScanSame(ns, 0, (b: Box) => OverlapsSegment(p, q, b), (b: Box) => Meets(p, q, b));
  }

  method GetChunksOverlappingSegment(cm: ChunkyMesh, p: (real, real), q: (real, real), ids: array<int>, maxIds: int,
                                     ghost t: Tree) returns (n: int)
    requires cm.Indexes(t) && maxIds <= ids.Length && ids != cm.tris
    modifies ids
    ensures FirstOf(ids[..], n, Scan(cm.nodes[..cm.nnodes], 0, (b: Box) => OverlapsSegment(p, q, b)), maxIds)
    ensures FirstOf(ids[..], n, Scan(cm.nodes[..cm.nnodes], 0, (b: Box) => Meets(p, q, b)), maxIds)
  {
    hide *;
    IndexBounds(cm, t);
    ghost var ns, hit := cm.nodes[..cm.nnodes], (b: Box) => OverlapsSegment(p, q, b);
    SegmentMonotone(p, q);
    Indexed(cm, t, hit);
    ScanStart(ns, hit, ids[..], maxIds);
    var i := 0;
    n := 0;
    while i < cm.nnodes
      invariant 0 <= i <= cm.nnodes && ns == cm.nodes[..cm.nnodes]
      invariant 0 <= n <= ids.Length && FirstOf(ids[..], n, Scan(ns[..i], 0, hit), maxIds)
      decreases cm.nnodes - i
    {
      var node := cm.nodes[i];
      assert node == ns[i];
      var overlap := OverlapsSegment(p, q, node.box);
      var isLeafNode := node.i >= 0;
      ScanNext(ns, i, hit);
      if isLeafNode && overlap {
        Recorded(ids[..], n, Scan(ns[..i], 0, hit), maxIds, i);
        if n < maxIds {
          ghost var before := ids[..];
          ids[n] := i;
          assert ids[..] == before[n := i];
          n := n + 1;
        }
      }
      if overlap || isLeafNode {
        i := i + 1;
      } else {
        EscapeIsSafe(ns, t, i, hit);
        i := i + -node.i;
      }
    }
    assert ns[..i] == ns;
    SegmentScan(cm, t, p, q);
  }
}

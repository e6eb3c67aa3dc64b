/** The chunky triangle mesh of RecastDemo: a bounding-box tree kept as a flat pre-order array of nodes in which an
    inner node holds, negated, the number of nodes to skip when its box is missed. Coordinates are real numbers. */
module ChunkyTriMesh {
  /** bmin and bmax of the code: a box in the XZ plane. */
  datatype Box = Box(minX: real, minY: real, maxX: real, maxY: real)

  datatype BoundsItem = BoundsItem(box: Box, i: int)

  /** A leaf when `i >= 0`: its first triangle, and `n` triangles. Otherwise `-i` nodes make up its subtree. */
  datatype Node = Node(box: Box, i: int, n: int)

  // ---------------------------------------------------------------- boxes

  predicate ValidBox(b: Box) { b.minX <= b.maxX && b.minY <= b.maxY }

  predicate Contains(outer: Box, inner: Box) {
    outer.minX <= inner.minX && outer.minY <= inner.minY && inner.maxX <= outer.maxX && inner.maxY <= outer.maxY
  }

  /** `b` is the least box around all the items. */
  ghost predicate IsExtents(b: Box, items: seq<BoundsItem>) {
    && (forall it :: it in items ==> Contains(b, it.box))
    && (exists it :: it in items && it.box.minX == b.minX)
    && (exists it :: it in items && it.box.minY == b.minY)
    && (exists it :: it in items && it.box.maxX == b.maxX)
    && (exists it :: it in items && it.box.maxY == b.maxY)
  }

  ghost predicate AllValid(items: seq<BoundsItem>) {
    forall it :: it in items ==> ValidBox(it.box)
  }

  lemma ExtentsPermuted(b: Box, items: seq<BoundsItem>, items': seq<BoundsItem>)
    requires IsExtents(b, items) && multiset(items) == multiset(items')
    ensures IsExtents(b, items')
  {
    SameMembers(items, items');
  }

  lemma SameMembers(s: seq<BoundsItem>, s': seq<BoundsItem>)
    requires multiset(s) == multiset(s')
    ensures forall x :: x in s <==> x in s'
  {
    forall x
      ensures x in s <==> x in s'
    {
      assert x in s <==> x in multiset(s);
      assert x in s' <==> x in multiset(s');
    }
  }

  // ---------------------------------------------------------------- the tree behind the array

  datatype Tree = Leaf(items: seq<BoundsItem>) | Split(left: Tree, right: Tree)

  function Items(t: Tree): seq<BoundsItem> {
    match t
    case Leaf(items) => items
    case Split(l, r) => Items(l) + Items(r)
  }

  function Size(t: Tree): (s: int)
    ensures s >= 1
  {
    match t
    case Leaf(_) => 1
    case Split(l, r) => 1 + Size(l) + Size(r)
  }

  /** Divided along the longer side of the box, the x side if there is none. */
  ghost predicate Parted(b: Box, left: seq<BoundsItem>, right: seq<BoundsItem>) {
    forall x, y :: x in left && y in right ==>
      if b.maxY - b.minY > b.maxX - b.minX then x.box.minY <= y.box.minY else x.box.minX <= y.box.minX
  }

  /** `ns` is the pre-order array of `t`, whose triangles start at `tri` of the output. */
  ghost predicate Encodes(ns: seq<Node>, t: Tree, tri: int)
    decreases t
  {
    && |ns| == Size(t) && IsExtents(ns[0].box, Items(t))
    && match t
       case Leaf(items) => ns[0].i == tri && ns[0].n == |items|
       case Split(l, r) =>
         && ns[0].i == -Size(t) && Parted(ns[0].box, Items(l), Items(r))
         && Encodes(ns[1..1 + Size(l)], l, tri)
         && Encodes(ns[1 + Size(l)..], r, tri + |Items(l)|)
  }

  /** Halved until at most `k` items are left. */
  predicate Halved(t: Tree, k: int) {
    match t
    case Leaf(items) => 0 < |items| <= k
    case Split(l, r) => |Items(t)| > k && |Items(l)| == |Items(t)| / 2 && Halved(l, k) && Halved(r, k)
  }
}

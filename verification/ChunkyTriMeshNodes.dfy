/** How many nodes the tree takes, and why the array allocated for them is large enough. */
module ChunkyTriMeshNodes {
  import opened ChunkyTriMesh

  /** Nodes made for `n` triangles. */
  function NodeCount(n: int, k: int): (c: int)
    requires k >= 1
    ensures c >= 1
    decreases if n > 0 then n else 0
  {
    if n <= k then 1 else 1 + NodeCount(n / 2, k) + NodeCount(n - n / 2, k)
  }

  lemma NodeCountUnfold(n: int, k: int)
    requires k >= 1
    ensures NodeCount(n, k) == if n <= k then 1 else 1 + NodeCount(n / 2, k) + NodeCount(n - n / 2, k)
  {}

  lemma {:induction false} HalvedSize(t: Tree, k: int)
    requires k >= 1 && Halved(t, k)
    ensures Size(t) == NodeCount(|Items(t)|, k)
  {
    hide NodeCount;
    NodeCountUnfold(|Items(t)|, k);
    match t
    case Leaf(_) =>
    case Split(l, r) =>
      HalvedSize(l, k);
      HalvedSize(r, k);
      assert |Items(t)| == |Items(l)| + |Items(r)|;
  }

  /** Every leaf has at least half of `k` triangles, so there are at most 2n/k leaves and twice as many nodes. */
  lemma {:induction false} NodesPerTriangle(n: int, k: int)
    requires k >= 1 && 2 * n >= k && n >= 1
    ensures k * (NodeCount(n, k) + 1) <= 4 * n
    decreases n
  {
    if n > k {
      NodesPerTriangle(n / 2, k);
      NodesPerTriangle(n - n / 2, k);
      var a, b := NodeCount(n / 2, k), NodeCount(n - n / 2, k);
      assert k * (a + 1) + k * (b + 1) == k * (1 + a + b + 1);
    } else {
      assert NodeCount(n, k) == 1;
    }
  }

  function ChunkCount(n: int, k: int): int
    requires k >= 1
  {
    (n + k - 1) / k
  }

  lemma ChunksCover(n: int, k: int)
    requires k >= 1 && n >= 1
    ensures n <= k * ChunkCount(n, k) && ChunkCount(n, k) >= 1
  {
    var a := n + k - 1;
    assert a == k * (a / k) + a % k;
    if a / k <= 0 {
      MulOrder(k, a / k, 0);
    }
  }

  lemma MulOrder(k: int, a: int, b: int)
    requires k >= 1
    ensures k * a <= k * b <==> a <= b
  {
    if a <= b {
      assert k * (b - a) >= 0;
    } else {
      assert k * (a - b - 1) >= 0;
    }
  }

  lemma LeafBound(n: int, k: int, m: int, c: int)
    requires k >= 1 && k * m <= 4 * n && n <= k * c
    ensures m <= 4 * c
  {
    assert 4 * (k * c) == k * (4 * c);
    MulOrder(k, m, 4 * c);
  }

  /** The array allocated for the nodes is always larger than the tree. */
  lemma NodeArraySuffices(n: int, k: int)
    requires k >= 1 && n >= 1
    ensures NodeCount(n, k) < 4 * ChunkCount(n, k)
  {
    hide NodeCount;
    hide ChunkCount;
    NodeCountUnfold(n, k);
    ChunksCover(n, k);
    if n > k {
      NodesPerTriangle(n, k);
      LeafBound(n, k, NodeCount(n, k) + 1, ChunkCount(n, k));
    }
  }
}

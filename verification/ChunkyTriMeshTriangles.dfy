/** The triangles of a finished mesh are those it was made from, in another order. */
module ChunkyTriMeshTriangles {
  import opened ChunkyTriMesh
  import opened ChunkyTriMeshBuild

  /** An index array, three at a time. */
  function Triangles(s: seq<int>): seq<seq<int>> {
    if |s| < 3 then [] else Triangles(s[..|s| - 3]) + [s[|s| - 3..]]
  }

  lemma TrianglesSnoc(s: seq<int>, three: seq<int>)
    requires |three| == 3
    ensures Triangles(s + three) == Triangles(s) + [three]
  {
    assert (s + three)[..|s|] == s && (s + three)[|s|..] == three;
  }

  function Numbered(ins: seq<int>, items: seq<BoundsItem>): seq<seq<int>> {
    if items == [] then [] else Numbered(ins, items[..|items| - 1]) + [Triangle(ins, items[|items| - 1].i)]
  }

  lemma {:induction false} TrianglesGathered(ins: seq<int>, items: seq<BoundsItem>)
    ensures Triangles(Gather(ins, items)) == Numbered(ins, items)
  {
    if items != [] {
      var init := items[..|items| - 1];
      TrianglesGathered(ins, init);
      TrianglesSnoc(Gather(ins, init), Triangle(ins, items[|items| - 1].i));
    }
  }

  lemma {:induction false} NumberedConcat(ins: seq<int>, a: seq<BoundsItem>, b: seq<BoundsItem>)
    ensures Numbered(ins, a + b) == Numbered(ins, a) + Numbered(ins, b)
  {
    if b == [] {
      assert a + b == a;
    } else {
      assert (a + b)[..|a + b| - 1] == a + b[..|b| - 1];
      NumberedConcat(ins, a, b[..|b| - 1]);
    }
  }

  lemma NumberedOne(ins: seq<int>, x: BoundsItem)
    ensures Numbered(ins, [x]) == [Triangle(ins, x.i)]
  {}

  lemma NumberedAround(ins: seq<int>, before: seq<BoundsItem>, x: BoundsItem, after: seq<BoundsItem>)
    ensures multiset(Numbered(ins, before + [x] + after)) ==
            multiset(Numbered(ins, before + after)) + multiset{Triangle(ins, x.i)}
  {
    hide Numbered;
    NumberedConcat(ins, before, after);
    NumberedConcat(ins, before + [x], after);
    NumberedConcat(ins, before, [x]);
    NumberedOne(ins, x);
  }

  lemma TakeOut(b: seq<BoundsItem>, x: BoundsItem) returns (before: seq<BoundsItem>, after: seq<BoundsItem>)
    requires x in multiset(b)
    ensures b == before + [x] + after
  {
    var j :| 0 <= j < |b| && b[j] == x;
    before, after := b[..j], b[j + 1..];
  }

  lemma SameRest(a: seq<BoundsItem>, before: seq<BoundsItem>, x: BoundsItem, after: seq<BoundsItem>)
    requires multiset(a + [x]) == multiset(before + [x] + after)
    ensures multiset(a) == multiset(before + after)
  {
    assert multiset(a) + multiset{x} == multiset(before + after) + multiset{x};
    assert multiset(a) + multiset{x} - multiset{x} == multiset(a);
    assert multiset(before + after) + multiset{x} - multiset{x} == multiset(before + after);
  }

  lemma {:induction false} NumberedPermuted(ins: seq<int>, a: seq<BoundsItem>, b: seq<BoundsItem>)
    requires multiset(a) == multiset(b)
    ensures multiset(Numbered(ins, a)) == multiset(Numbered(ins, b))
    decreases |a|
  {
    if a == [] {
      assert |multiset(b)| == |b| == 0;
    } else {
      hide Numbered;
      hide Triangle;
      var a', x := a[..|a| - 1], a[|a| - 1];
      assert a == a' + [x] && x in multiset(b);
      var before, after := TakeOut(b, x);
      SameRest(a', before, x, after);
      NumberedPermuted(ins, a', before + after);
      NumberedAround(ins, before, x, after);
      NumberedAround(ins, a', x, []);
      assert a' + [x] + [] == a && a' + [] == a';
    }
  }

  lemma {:induction false} NumberedInOrder(ins: seq<int>, its: seq<BoundsItem>)
    requires 3 * |its| <= |ins| && forall i :: 0 <= i < |its| ==> its[i].i == i
    ensures Numbered(ins, its) == Triangles(ins[..3 * |its|])
  {
    var n := |its|;
    if n > 0 {
      NumberedInOrder(ins, its[..n - 1]);
      assert ins[..3 * n] == ins[..3 * (n - 1)] + ins[3 * (n - 1)..3 * n];
      TrianglesSnoc(ins[..3 * (n - 1)], ins[3 * (n - 1)..3 * n]);
    }
  }

  /** Every input triangle appears in the mesh, as often as it was given. */
  lemma NoTriangleLost(ins: seq<int>, its: seq<BoundsItem>, t: Tree)
    requires 3 * |its| <= |ins| && (forall i :: 0 <= i < |its| ==> its[i].i == i) && multiset(Items(t)) == multiset(its)
    ensures multiset(Triangles(Gather(ins, Items(t)))) == multiset(Triangles(ins[..3 * |its|]))
  {
    TrianglesGathered(ins, Items(t));
    NumberedPermuted(ins, Items(t), its);
    NumberedInOrder(ins, its);
  }
}

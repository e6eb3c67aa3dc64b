/** The navmesh prune tool: clicks flood the polygons that can be reached, pruning disables all the others. */
module NavMeshPrune {
  /** dtPolyRef, as decodePolyId takes it apart. */
  datatype Ref = Ref(salt: int, it: int, ip: int)

  const NULL := Ref(0, 0, 0)

  datatype Poly = Poly(tile: int, index: int)

  /** `polys` lists the links of each polygon, in the order of its chain. */
  datatype Tile = Tile(salt: int, hasHeader: bool, polys: seq<seq<Ref>>)

  datatype Mesh = Mesh(tiles: seq<Tile>)

  /** The salt is not looked at. */
  function Decode(r: Ref): Poly { Poly(r.it, r.ip) }

  predicate HasPoly(nav: Mesh, p: Poly) {
    0 <= p.tile < |nav.tiles| && nav.tiles[p.tile].hasHeader && 0 <= p.index < |nav.tiles[p.tile].polys|
  }

  function Links(nav: Mesh, p: Poly): seq<Ref>
    requires HasPoly(nav, p)
  {
    nav.tiles[p.tile].polys[p.index]
  }

  /** Links lead to polygons of the mesh. */
  ghost predicate ValidMesh(nav: Mesh) {
    forall p, i :: HasPoly(nav, p) && 0 <= i < |Links(nav, p)| ==>
      Links(nav, p)[i] == NULL || HasPoly(nav, Decode(Links(nav, p)[i]))
  }

  ghost predicate Linked(nav: Mesh, p: Poly, q: Poly) {
    && HasPoly(nav, p)
    && var links := nav.tiles[p.tile].polys[p.index];
       exists i :: 0 <= i < |links| && links[i] != NULL && Decode(links[i]) == q
  }

  // ---------------------------------------------------------------- reachability

  ghost predicate IsPath(nav: Mesh, path: seq<Poly>) {
    path != [] && HasPoly(nav, path[0]) && forall i :: 0 < i < |path| ==> Linked(nav, path[i - 1], path[i])
  }

  ghost predicate Reaches(nav: Mesh, a: Poly, b: Poly) {
    exists path :: IsPath(nav, path) && path[0] == a && path[|path| - 1] == b
  }

  lemma ReachesSelf(nav: Mesh, a: Poly)
    requires HasPoly(nav, a)
    ensures Reaches(nav, a, a)
  {
    assert IsPath(nav, [a]);
  }

  lemma ReachesNext(nav: Mesh, a: Poly, b: Poly, c: Poly)
    requires Reaches(nav, a, b) && Linked(nav, b, c)
    ensures Reaches(nav, a, c)
  {
    var path :| IsPath(nav, path) && path[0] == a && path[|path| - 1] == b;
    assert IsPath(nav, path + [c]);
  }

  ghost predicate Closed(nav: Mesh, s: set<Poly>) {
    forall p, q :: p in s && Linked(nav, p, q) ==> q in s
  }

  lemma {:induction false} ClosedAlong(nav: Mesh, s: set<Poly>, path: seq<Poly>, i: nat)
    requires Closed(nav, s) && IsPath(nav, path) && path[0] in s && i < |path|
    ensures path[i] in s
  {
    if i > 0 {
      ClosedAlong(nav, s, path, i - 1);
      assert Linked(nav, path[i - 1], path[i]);
    }
  }

  lemma ClosedReaches(nav: Mesh, s: set<Poly>, a: Poly, b: Poly)
    requires Closed(nav, s) && a in s && Reaches(nav, a, b)
    ensures b in s
  {
    var path :| IsPath(nav, path) && path[0] == a && path[|path| - 1] == b;
    ClosedAlong(nav, s, path, |path| - 1);
  }

  // ---------------------------------------------------------------- NavmeshFlags

  ghost function AllPolys(nav: Mesh): set<Poly> {
    set i, j | 0 <= i < |nav.tiles| && nav.tiles[i].hasHeader && 0 <= j < |nav.tiles[i].polys| :: Poly(i, j)
  }

  lemma AllPolysIs(nav: Mesh, p: Poly)
    ensures p in AllPolys(nav) <==> HasPoly(nav, p)
  {}

  class NavmeshFlags {
    const nav: Mesh
    /** The flags of each tile's polygons; none for a tile without header. */
    var tiles: seq<seq<int>>

    constructor (n: Mesh)
      ensures nav == n && Shaped() && Flagged() == {}
    {
      nav := n;
      tiles := seq(|n.tiles|, i requires 0 <= i < |n.tiles| =>
        if n.tiles[i].hasHeader then seq(|n.tiles[i].polys|, _ => 0) else []);
    }

    ghost predicate Shaped()
      reads this
    {
      && |tiles| == |nav.tiles|
      && forall i :: 0 <= i < |tiles| ==> |tiles[i]| == if nav.tiles[i].hasHeader then |nav.tiles[i].polys| else 0
    }

    /** The visited polygons. */
    ghost function Flagged(): set<Poly>
      reads this
    {
      set p | p in AllPolys(nav) && p.tile < |tiles| && p.index < |tiles[p.tile]| && tiles[p.tile][p.index] != 0
    }

    function GetFlags(r: Ref): int
      requires Shaped() && HasPoly(nav, Decode(r))
      reads this
    {
      tiles[r.it][r.ip]
    }

    method SetFlags(r: Ref, flag: int)
      requires Shaped() && HasPoly(nav, Decode(r)) && flag != 0
      modifies this
      ensures Shaped() && Flagged() == old(Flagged()) + {Decode(r)}
    {
      AllPolysIs(nav, Decode(r));
      tiles := tiles[r.it := tiles[r.it][r.ip := flag]];
    }

    method ClearAllFlags()
      requires Shaped()
      modifies this
      ensures Shaped() && Flagged() == {}
    {
      for i := 0 to |tiles|
        invariant Shaped() && forall k, j :: 0 <= k < i && 0 <= j < |tiles[k]| ==> tiles[k][j] == 0
      {
        tiles := tiles[i := seq(|tiles[i]|, _ => 0)];
      }
    }
  }

  // ---------------------------------------------------------------- floodNavmesh

  /** All that the visited polygons in `done` link to is visited. */
  ghost predicate Spread(nav: Mesh, visited: set<Poly>, done: set<Poly>) {
    forall p, q :: p in visited && p in done && Linked(nav, p, q) ==> q in visited
  }

  ghost function Pending(open: seq<Ref>): set<Poly> { set i | 0 <= i < |open| :: Decode(open[i]) }

  /** Between two turns of the flood from `start`; `now` is the polygon being left, if any. */
  ghost predicate Flooding(nav: Mesh, before: set<Poly>, visited: set<Poly>, open: seq<Ref>, start: Poly,
                           now: set<Poly>) {
    && before <= visited && start in visited && visited <= AllPolys(nav)
    && (forall p :: p in visited && p !in before ==> Reaches(nav, start, p))
    && (forall p :: p in Pending(open) ==> p in visited && p !in before)
    && Spread(nav, visited, visited - Pending(open) - now)
  }

  lemma FloodStarts(nav: Mesh, before: set<Poly>, start: Ref)
    requires HasPoly(nav, Decode(start)) && Closed(nav, before) && before <= AllPolys(nav) && Decode(start) !in before
    ensures Flooding(nav, before, before + {Decode(start)}, [start], Decode(start), {})
  {
    AllPolysIs(nav, Decode(start));
    ReachesSelf(nav, Decode(start));
    assert Decode([start][0]) == Decode(start);
  }

  lemma Popped(nav: Mesh, before: set<Poly>, visited: set<Poly>, open: seq<Ref>, start: Poly)
    requires open != [] && Flooding(nav, before, visited, open, start, {})
    ensures var r := open[|open| - 1]; var rest := open[..|open| - 1];
            && Decode(r) in visited && Decode(r) !in before && HasPoly(nav, Decode(r)) && Reaches(nav, start, Decode(r))
            && Flooding(nav, before, visited, rest, start, {Decode(r)})
  {
    var r, rest := open[|open| - 1], open[..|open| - 1];
    assert Decode(r) in Pending(open);
    AllPolysIs(nav, Decode(r));
    assert Pending(open) == Pending(rest) + {Decode(r)} by {
      assert open == rest + [r];
      PendingPushed(rest, r);
    }
    assert visited - Pending(rest) - {Decode(r)} == visited - Pending(open) - {};
  }

  lemma PendingPushed(open: seq<Ref>, r: Ref)
    ensures Pending(open + [r]) == Pending(open) + {Decode(r)}
  {
    var all := open + [r];
    assert forall i :: 0 <= i < |open| ==> all[i] == open[i];
    assert Decode(r) in Pending(all) by {
      assert all[|open|] == r;
    }
    forall p | p in Pending(open)
      ensures p in Pending(all)
    {
      var i :| 0 <= i < |open| && Decode(open[i]) == p;
      assert Decode(all[i]) == p;
    }
  }

  /** A neighbour that has not been visited is marked and put on the list. */
  lemma Pushed(nav: Mesh, before: set<Poly>, visited: set<Poly>, open: seq<Ref>, start: Poly, now: Poly, i: int)
    requires Flooding(nav, before, visited, open, start, {now}) && Reaches(nav, start, now) && HasPoly(nav, now)
             && 0 <= i < |Links(nav, now)|
    requires var r := Links(nav, now)[i]; r != NULL && HasPoly(nav, Decode(r)) && Decode(r) !in visited
    ensures var r := Links(nav, now)[i]; Flooding(nav, before, visited + {Decode(r)}, open + [r], start, {now})
  {
    var r := Links(nav, now)[i];
    assert Linked(nav, now, Decode(r));
    ReachesNext(nav, start, now, Decode(r));
    PendingPushed(open, r);
    AllPolysIs(nav, Decode(r));
    var visited' := visited + {Decode(r)};
    forall p, q | p in visited' && p in visited' - Pending(open + [r]) - {now} && Linked(nav, p, q)
      ensures q in visited'
    {
      assert p in visited - Pending(open) - {now};
    }
  }

  /** Once all its neighbours are visited, the polygon is done with. */
  lemma Left(nav: Mesh, before: set<Poly>, visited: set<Poly>, open: seq<Ref>, start: Poly, now: Poly)
    requires Flooding(nav, before, visited, open, start, {now}) && HasPoly(nav, now)
    requires forall i :: 0 <= i < |Links(nav, now)| ==>
             Links(nav, now)[i] == NULL || Decode(Links(nav, now)[i]) in visited
    ensures Flooding(nav, before, visited, open, start, {})
  {
    forall p, q | p in visited && p in visited - Pending(open) - {} && Linked(nav, p, q)
      ensures q in visited
    {
      if p == now {
        var links := nav.tiles[now.tile].polys[now.index];
        var i :| 0 <= i < |links| && links[i] != NULL && Decode(links[i]) == q;
        assert Links(nav, now)[i] == links[i];
      } else {
        assert p in visited - Pending(open) - {now};
      }
    }
  }

  /** What the flood leaves behind. */
  ghost predicate Flooded(nav: Mesh, before: set<Poly>, after: set<Poly>, start: Poly) {
    Closed(nav, after) && forall p :: p in after <==> p in before || Reaches(nav, start, p)
  }

  lemma FloodEnds(nav: Mesh, before: set<Poly>, visited: set<Poly>, start: Poly)
    requires Flooding(nav, before, visited, [], start, {})
    ensures Flooded(nav, before, visited, start)
  {
    assert visited - Pending([]) - {} == visited;
    assert Closed(nav, visited);
    forall p | Reaches(nav, start, p)
      ensures p in visited
    {
      ClosedReaches(nav, visited, start, p);
    }
  }

  lemma AlreadyFlooded(nav: Mesh, before: set<Poly>, start: Poly)
    requires Closed(nav, before) && start in before
    ensures Flooded(nav, before, before, start)
  {
    forall p | Reaches(nav, start, p)
      ensures p in before
    {
      ClosedReaches(nav, before, start, p);
    }
  }

  lemma FewerLeft(all: set<Poly>, visited: set<Poly>, p: Poly)
    requires p in all && p !in visited
    ensures |all - (visited + {p})| < |all - visited|
  {
    assert all - (visited + {p}) == (all - visited) - {p};
  }

  method FloodNavmesh(nav: Mesh, flags: NavmeshFlags, start: Ref, flag: int)
    requires flags.nav == nav && flags.Shaped() && ValidMesh(nav) && HasPoly(nav, Decode(start)) && flag != 0
             && Closed(nav, flags.Flagged())
    modifies flags
    ensures flags.Shaped() && Flooded(nav, old(flags.Flagged()), flags.Flagged(), Decode(start))
  {
    ghost var before := flags.Flagged();
    Subset(flags);
    if flags.GetFlags(start) != 0 {
      IsFlagged(flags, start);
      AlreadyFlooded(nav, before, Decode(start));
      return;
    }
    IsFlagged(flags, start);
    hide *;
    flags.SetFlags(start, flag);
    var openList := [start];
    FloodStarts(nav, before, start);
    while openList != []
      invariant flags.Shaped() && Flooding(nav, before, flags.Flagged(), openList, Decode(start), {})
      decreases |AllPolys(nav) - flags.Flagged()|, |openList|
    {
      var ref := openList[|openList| - 1];
      ghost var visited := flags.Flagged();
      Popped(nav, before, visited, openList, Decode(start));
      openList := openList[..|openList| - 1];
      openList := VisitLinks(nav, flags, ref, flag, openList, before, Decode(start));
    }
    FloodEnds(nav, before, flags.Flagged(), Decode(start));
  }

  /** The inner loop: the neighbours of `ref` that have not been visited are marked and pushed. */
  method VisitLinks(nav: Mesh, flags: NavmeshFlags, ref: Ref, flag: int, open: seq<Ref>, ghost before: set<Poly>,
                    ghost start: Poly)
    returns (openList: seq<Ref>)
    requires flags.nav == nav && flags.Shaped() && ValidMesh(nav) && HasPoly(nav, Decode(ref)) && flag != 0
             && Reaches(nav, start, Decode(ref))
    requires Flooding(nav, before, flags.Flagged(), open, start, {Decode(ref)})
    modifies flags
    ensures flags.Shaped() && Flooding(nav, before, flags.Flagged(), openList, start, {})
    ensures (flags.Flagged() == old(flags.Flagged()) && openList == open)
            || |AllPolys(nav) - flags.Flagged()| < |AllPolys(nav) - old(flags.Flagged())|
  {
    hide *;
    openList := open;
    var links := Links(nav, Decode(ref));
    ghost var all := AllPolys(nav);
    for i := 0 to |links|
      invariant flags.Shaped() && Flooding(nav, before, flags.Flagged(), openList, start, {Decode(ref)})
      invariant old(flags.Flagged()) <= flags.Flagged()
      invariant (flags.Flagged() == old(flags.Flagged()) && openList == open)
                || |all - flags.Flagged()| < |all - old(flags.Flagged())|
      invariant forall k :: 0 <= k < i ==> links[k] == NULL || Decode(links[k]) in flags.Flagged()
    {
      var neiRef := links[i];
      LinkValid(nav, Decode(ref), i);
      if neiRef == NULL {
        continue;
      }
      IsFlagged(flags, neiRef);
      if flags.GetFlags(neiRef) != 0 {
        continue;
      }
      Pushed(nav, before, flags.Flagged(), openList, start, Decode(ref), i);
      AllPolysIs(nav, Decode(neiRef));
      FewerLeft(all, flags.Flagged(), Decode(neiRef));
      flags.SetFlags(neiRef, flag);
      openList := openList + [neiRef];
    }
    Left(nav, before, flags.Flagged(), openList, start, Decode(ref));
  }

  lemma LinkValid(nav: Mesh, p: Poly, i: int)
    requires ValidMesh(nav) && HasPoly(nav, p) && 0 <= i < |Links(nav, p)|
    ensures Links(nav, p)[i] == NULL || HasPoly(nav, Decode(Links(nav, p)[i]))
  {}

  lemma Subset(flags: NavmeshFlags)
    ensures flags.Flagged() <= AllPolys(flags.nav)
  {}

  lemma IsFlagged(flags: NavmeshFlags, r: Ref)
    requires flags.Shaped() && HasPoly(flags.nav, Decode(r))
    ensures Decode(r) in flags.Flagged() <==> flags.GetFlags(r) != 0
  {
    AllPolysIs(flags.nav, Decode(r));
  }

  // ---------------------------------------------------------------- the tool

  const SAMPLE_POLYFLAGS_DISABLED: bv16 := 0x10

  class NavMeshPruneTool {
    const nav: Mesh
    var flags: NavmeshFlags?
    /** The navmesh's own flags of each polygon. */
    var polyFlags: map<Poly, bv16>
    /** The polygons clicked on since the flags were created or cleared. */
    ghost var clicks: set<Poly>

    constructor (n: Mesh, f: map<Poly, bv16>)
      requires ValidMesh(n) && forall p :: HasPoly(n, p) ==> p in f
      ensures nav == n && polyFlags == f && flags == null && clicks == {} && Valid()
    {
      nav, polyFlags, flags, clicks := n, f, null, {};
    }

    /** The flagged polygons are those that can be reached from a click. */
    ghost predicate Valid()
      reads this, flags
    {
      && ValidMesh(nav) && (forall p :: HasPoly(nav, p) ==> p in polyFlags)
      && (if flags == null then clicks == {}
          else
            && flags.nav == nav && flags.Shaped() && Closed(nav, flags.Flagged())
            && forall p :: p in flags.Flagged() <==> FromClick(nav, clicks, p))
    }

    /** `ref` is the polygon found nearest to the hit. */
    method HandleClick(ref: Ref)
      requires Valid() && HasPoly(nav, Decode(ref))
      modifies this, flags
      ensures Valid() && clicks == old(clicks) + {Decode(ref)} && polyFlags == old(polyFlags)
      ensures flags != null && (old(flags) != null ==> flags == old(flags)) && (old(flags) == null ==> fresh(flags))
    {
      if flags == null {
        flags := new NavmeshFlags(nav);
      }
      ghost var before := flags.Flagged();
      ghost var was := clicks;
      assert Closed(nav, before);
      FloodNavmesh(nav, flags, ref, 1);
      clicks := clicks + {Decode(ref)};
      ClicksAdded(nav, was, Decode(ref), before, flags.Flagged());
    }

    method ClearSelection()
      requires Valid() && flags != null
      modifies this`clicks, flags
      ensures Valid() && clicks == {} && flags.Flagged() == {}
    {
      flags.ClearAllFlags();
      clicks := {};
    }

    /** Disables exactly the polygons that no click reaches, and keeps every other flag of every polygon. */
    method PruneUnselected()
      requires Valid() && flags != null
      modifies this
      ensures Valid() && flags == null && clicks == {}
      ensures forall p :: HasPoly(nav, p) ==>
                polyFlags[p] == if FromClick(nav, old(clicks), p) then old(polyFlags)[p]
                  else old(polyFlags)[p] | 0x10
    {
      DisableUnvisitedPolys();
      flags := null;
      clicks := {};
    }

    method DisableUnvisitedPolys()
      requires Valid() && flags != null
      modifies this`polyFlags
      ensures forall p :: HasPoly(nav, p) ==>
                p in polyFlags && polyFlags[p] == if p in flags.Flagged() then old(polyFlags)[p]
                  else old(polyFlags)[p] | SAMPLE_POLYFLAGS_DISABLED
    {
      hide Closed;
      hide ValidMesh;
      hide FromClick;
      hide Pruned;
      ghost var visited := flags.Flagged();
      PrunedIs();
      for i := 0 to |nav.tiles|
        invariant forall p :: HasPoly(nav, p) ==> p in polyFlags
        invariant forall p :: HasPoly(nav, p) ==> polyFlags[p] == Pruned(old(polyFlags)[p], p.tile < i && p !in visited)
      {
        if !nav.tiles[i].hasHeader {
          continue;
        }
        for j := 0 to |nav.tiles[i].polys|
          invariant forall p :: HasPoly(nav, p) ==> p in polyFlags
          invariant forall p :: HasPoly(nav, p) ==>
                      polyFlags[p] ==
                        Pruned(old(polyFlags)[p], (p.tile < i || (p.tile == i && p.index < j)) && p !in visited)
        {
          var ref := Ref(nav.tiles[i].salt, i, j);
          IsFlagged(flags, ref);
          if flags.GetFlags(ref) == 0 {
            polyFlags := polyFlags[Decode(ref) := polyFlags[Decode(ref)] | SAMPLE_POLYFLAGS_DISABLED];
          }
        }
      }
    }
  }

  function Pruned(f: bv16, disable: bool): bv16 { if disable then f | SAMPLE_POLYFLAGS_DISABLED else f }

  lemma PrunedIs()
    ensures forall f :: Pruned(f, false) == f && Pruned(f, true) == f | SAMPLE_POLYFLAGS_DISABLED
  {}

  ghost predicate FromClick(nav: Mesh, clicks: set<Poly>, p: Poly) {
    exists c :: c in clicks && Reaches(nav, c, p)
  }

  lemma ClicksAdded(nav: Mesh, clicks: set<Poly>, c: Poly, before: set<Poly>, after: set<Poly>)
    requires (forall p :: p in before <==> FromClick(nav, clicks, p)) && Flooded(nav, before, after, c)
    ensures Closed(nav, after) && forall p :: p in after <==> FromClick(nav, clicks + {c}, p)
  {
    hide Reaches;
    forall p
      ensures p in after <==> FromClick(nav, clicks + {c}, p)
    {
      if FromClick(nav, clicks, p) {
        var d :| d in clicks && Reaches(nav, d, p);
        assert d in clicks + {c};
      }
      if Reaches(nav, c, p) {
        assert c in clicks + {c};
      }
    }
  }
}

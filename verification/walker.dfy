/** The topology walker (getNeighbourVertices) and the collapse feasibility
    test (countCommonVertices, canEdgeCollapse), as functions over a graph
    snapshot. The class methods in module MeshEngine are proved equal to them. */
module Walker {
  import opened MeshTypes

  /** The two ways of stepping around a vertex. `OppositeNext` moves from an
      outgoing half-edge to the next outgoing one (`opposite->next`, the
      walker); `NextOpposite` moves from an incoming half-edge to the next
      incoming one (`next->opposite`, the head rewrite of collapseEdge). */
  datatype StepKind = OppositeNext | NextOpposite

  function Step(g: Graph, kind: StepKind, h: int): int
  {
    match kind
    case OppositeNext => Next(g, Opp(g, h))
    case NextOpposite => Opp(g, Next(g, h))
  }

  /** The half-edges a do-while loop of the engine visits when it is at
      `curr` with `fuel` iterations left: it records `curr`, steps, and stops
      once it is back at `first`. The fuel bound (the number of half-edge
      slots) replaces the source's unbounded loop. */
  function Walk(g: Graph, kind: StepKind, first: int, curr: int, fuel: nat): (r: seq<int>)
    requires WellFormed(g) && 0 <= curr < |g.halfEdges|
    ensures |r| <= fuel
    ensures forall k :: 0 <= k < |r| ==> 0 <= r[k] < |g.halfEdges|
    decreases fuel
  {
    if fuel == 0 then []
    else
      var nx := Step(g, kind, curr);
      if nx == first then [curr] else [curr] + Walk(g, kind, first, nx, fuel - 1)
  }

  /** One step of a walk: it records `curr` and either stops at `first` or goes on. */
  lemma WalkFirstStep(g: Graph, kind: StepKind, first: int, curr: int, fuel: nat)
    requires WellFormed(g) && 0 <= curr < |g.halfEdges| && fuel > 0
    ensures Step(g, kind, curr) == first ==> Walk(g, kind, first, curr, fuel) == [curr]
    ensures Step(g, kind, curr) != first ==>
      Walk(g, kind, first, curr, fuel) == [curr] + Walk(g, kind, first, Step(g, kind, curr), fuel - 1)
  {
  }

  /** The walk is the orbit of `curr` under Step, cut at the first return to
      `first` or when the fuel runs out. */
  lemma {:induction false} WalkShape(g: Graph, kind: StepKind, first: int, curr: int, fuel: nat)
    requires WellFormed(g) && 0 <= curr < |g.halfEdges|
    decreases fuel
    ensures var r := Walk(g, kind, first, curr, fuel);
      && (fuel > 0 ==> |r| > 0 && r[0] == curr)
      && (0 < |r| < fuel ==> Step(g, kind, r[|r| - 1]) == first)
    ensures forall k :: 1 <= k < |Walk(g, kind, first, curr, fuel)| ==>
      Walk(g, kind, first, curr, fuel)[k] == Step(g, kind, Walk(g, kind, first, curr, fuel)[k - 1])
      && Walk(g, kind, first, curr, fuel)[k] != first
  {
    if fuel > 0 {
      var nx := Step(g, kind, curr);
      if nx != first {
        WalkShape(g, kind, first, nx, fuel - 1);
        var r := Walk(g, kind, first, curr, fuel);
        var t := Walk(g, kind, first, nx, fuel - 1);
        assert r == [curr] + t;
        assert fuel - 1 > 0 ==> t[0] == nx;
        forall k | 1 <= k < |r|
          ensures r[k] == Step(g, kind, r[k - 1]) && r[k] != first
        {
          if k > 1 {
            assert r[k - 1] == t[k - 2] && r[k] == t[k - 1];
          }
        }
      }
    }
  }

  /** On a valid mesh a step takes a live half-edge to a live one. */
  lemma StepLive(g: Graph, kind: StepKind, h: int)
    requires Valid(g) && h in g.hee
    ensures Step(g, kind, h) in g.hee
  {
    assert LiveEdgeOk(g, h);
    match kind
    case OppositeNext => assert LiveEdgeOk(g, Opp(g, h));
    case NextOpposite => assert LiveEdgeOk(g, Next(g, h));
  }

  /** On a valid mesh a step is one-to-one on live half-edges: `opposite`
      is its own inverse and `next` is undone by two more `next`s. */
  lemma StepInjective(g: Graph, kind: StepKind, a: int, b: int)
    requires Valid(g) && a in g.hee && b in g.hee
    ensures Step(g, kind, a) == Step(g, kind, b) ==> a == b
  {
    assert LiveEdgeOk(g, a) && LiveEdgeOk(g, b);
    match kind
    case OppositeNext =>
      assert LiveEdgeOk(g, Opp(g, a)) && LiveEdgeOk(g, Opp(g, b));
    case NextOpposite =>
      assert LiveEdgeOk(g, Next(g, a)) && LiveEdgeOk(g, Next(g, b));
  }

  /** s is a stretch of the orbit of `first` under Step that has not yet
      come back to `first`. */
  predicate Orbit(g: Graph, kind: StepKind, first: int, s: seq<int>)
  {
    && |s| > 0 && s[0] == first
    && forall k :: 1 <= k < |s| ==> s[k] == Step(g, kind, s[k - 1]) && s[k] != first
  }

  /** Every half-edge of an orbit stretch from a live half-edge is live. */
  lemma {:induction false} OrbitLive(g: Graph, kind: StepKind, first: int, s: seq<int>, k: int)
    requires Valid(g) && first in g.hee && Orbit(g, kind, first, s) && 0 <= k < |s|
    decreases k
    ensures s[k] in g.hee
  {
    if k > 0 {
      OrbitLive(g, kind, first, s, k - 1);
      StepLive(g, kind, s[k - 1]);
    }
  }

  /** An orbit stretch of live half-edges never repeats itself: an earliest
      repeat would either be `first` again or, the step being one-to-one,
      have an earlier repeat before it. */
  lemma {:induction false} OrbitDistinct(g: Graph, kind: StepKind, first: int, s: seq<int>, i: int, j: int)
    requires Valid(g) && first in g.hee && Orbit(g, kind, first, s) && 0 <= i < j < |s|
    decreases i
    ensures s[i] != s[j]
  {
    if i > 0 {
      OrbitDistinct(g, kind, first, s, i - 1, j - 1);
      OrbitLive(g, kind, first, s, i - 1);
      OrbitLive(g, kind, first, s, j - 1);
      StepInjective(g, kind, s[i - 1], s[j - 1]);
    }
  }

  /** A sequence longer than the set its entries are drawn from repeats an
      entry. */
  lemma {:induction false} Pigeonhole(s: seq<int>, S: set<int>)
    requires forall k :: 0 <= k < |s| ==> s[k] in S
    decreases |s|
    ensures |s| > |S| ==> exists i, j :: 0 <= i < j < |s| && s[i] == s[j]
  {
    if |s| > |S| {
      var n := |s| - 1;
      var init := s[..n];
      if s[n] in init {
        var i :| 0 <= i < n && init[i] == s[n];
        assert s[i] == s[n];
      } else {
        var S' := S - {s[n]};
        assert S == S' + {s[n]};
        assert |S'| == |S| - 1;
        forall k | 0 <= k < |init|
          ensures init[k] in S'
        {
          assert init[k] == s[k];
        }
        Pigeonhole(init, S');
        var i, j :| 0 <= i < j < n && init[i] == init[j];
        assert s[i] == s[j];
      }
    }
  }

  /** On a valid mesh the walk from a live half-edge, with the engine's
      fuel of one step per half-edge slot, closes: its last half-edge steps
      back to `first`, so the fuel bound never cuts it short, and it visits
      at most |HEE| half-edges, all live and none twice. */
  lemma {:induction false} WalkCloses(g: Graph, kind: StepKind, first: int)
    requires Valid(g) && first in g.hee
    ensures var r := Walk(g, kind, first, first, |g.halfEdges|);
      && 0 < |r| <= |g.hee|
      && Step(g, kind, r[|r| - 1]) == first
      && (forall k :: 0 <= k < |r| ==> r[k] in g.hee)
      && (forall i, j :: 0 <= i < j < |r| ==> r[i] != r[j])
  {
    var fuel := |g.halfEdges|;
    var r := Walk(g, kind, first, first, fuel);
    WalkShape(g, kind, first, first, fuel);
    assert Orbit(g, kind, first, r);
    forall k | 0 <= k < |r|
      ensures r[k] in g.hee
    {
      OrbitLive(g, kind, first, r, k);
    }
    forall i, j | 0 <= i < j < |r|
      ensures r[i] != r[j]
    {
      OrbitDistinct(g, kind, first, r, i, j);
    }
    Pigeonhole(r, g.hee);
    var last := r[|r| - 1];
    StepLive(g, kind, last);
    if Step(g, kind, last) != first {
      var s := r + [Step(g, kind, last)];
      assert Orbit(g, kind, first, s) by {
        forall k | 1 <= k < |s|
          ensures s[k] == Step(g, kind, s[k - 1]) && s[k] != first
        {
          if k < |r| {
            assert s[k] == r[k] && s[k - 1] == r[k - 1];
          }
        }
      }
      forall i, j | 0 <= i < j < |s|
        ensures s[i] != s[j]
      {
        OrbitDistinct(g, kind, first, s, i, j);
      }
      forall k | 0 <= k < |s|
        ensures s[k] in Range(fuel)
      {
      }
      RangeSize(fuel);
      Pigeonhole(s, Range(fuel));
      assert false;
    }
  }

  /** The outgoing half-edges visited from vertex v's representative; empty
      when the representative is null or no longer live. */
  function StarEdges(g: Graph, v: int): (r: seq<int>)
    requires WellFormed(g) && 0 <= v < |g.vertices|
    ensures forall k :: 0 <= k < |r| ==> 0 <= r[k] < |g.halfEdges|
  {
    var first := Rep(g, v);
    if first == Null || !g.halfEdges[first].alive then []
    else Walk(g, OppositeNext, first, first, |g.halfEdges|)
  }

  /** The head vertices of a sequence of half-edges. */
  function Heads(g: Graph, es: seq<int>): (r: seq<int>)
    requires forall k :: 0 <= k < |es| ==> 0 <= es[k] < |g.halfEdges|
    ensures |r| == |es|
    ensures forall k :: 0 <= k < |es| ==> r[k] == Head(g, es[k])
  {
    seq(|es|, k requires 0 <= k < |es| => g.halfEdges[es[k]].head)
  }

  /** Heads of one more half-edge. */
  lemma HeadsSnoc(g: Graph, es: seq<int>, h: int)
    requires forall k :: 0 <= k < |es| ==> 0 <= es[k] < |g.halfEdges|
    requires 0 <= h < |g.halfEdges|
    ensures Heads(g, es + [h]) == Heads(g, es) + [Head(g, h)]
  {
    assert Heads(g, es + [h])[..|es|] == Heads(g, es);
  }

  /** getNeighbourVertices: the head vertices of v's star walk. */
  function Neighbours(g: Graph, v: int): seq<int>
    requires WellFormed(g) && 0 <= v < |g.vertices|
  {
    Heads(g, StarEdges(g, v))
  }

  /** The walker's observable behaviour: empty when the representative is
      null or dead; otherwise it starts with the representative's head, each
      further neighbour is the head of the next `opposite->next` step, and
      the walk never revisits the start before it ends. On a valid mesh
      with a live representative the walk is not empty and closes: its last
      half-edge steps back to the representative. */
  lemma NeighboursSpec(g: Graph, v: int)
    requires WellFormed(g) && 0 <= v < |g.vertices|
    ensures var first := Rep(g, v);
      var es := StarEdges(g, v);
      && (first == Null || !g.halfEdges[first].alive <==> Neighbours(g, v) == [])
      && |Neighbours(g, v)| == |es| <= |g.halfEdges|
      && (es != [] ==> es[0] == first && Neighbours(g, v)[0] == Head(g, first))
    ensures forall k :: 1 <= k < |StarEdges(g, v)| ==>
      StarEdges(g, v)[k] == Step(g, OppositeNext, StarEdges(g, v)[k - 1]) && StarEdges(g, v)[k] != Rep(g, v)
    ensures forall k :: 0 <= k < |StarEdges(g, v)| ==> Neighbours(g, v)[k] == Head(g, StarEdges(g, v)[k])
    ensures Valid(g) && Rep(g, v) in g.hee ==>
      var es := StarEdges(g, v);
      es != [] && Step(g, OppositeNext, es[|es| - 1]) == Rep(g, v) && |es| <= |g.hee|
  {
    var first := Rep(g, v);
    if first != Null && g.halfEdges[first].alive {
      WalkShape(g, OppositeNext, first, first, |g.halfEdges|);
    }
    if Valid(g) && first in g.hee {
      WalkCloses(g, OppositeNext, first);
    }
  }

  /** The positions of a sequence of vertex handles. */
  function Positions(g: Graph, vs: seq<int>): (r: seq<Position>)
    requires forall k :: 0 <= k < |vs| ==> 0 <= vs[k] < |g.vertices|
    ensures |r| == |vs|
    ensures forall k :: 0 <= k < |vs| ==> r[k] == g.vertices[vs[k]].pos
  {
    seq(|vs|, k requires 0 <= k < |vs| => g.vertices[vs[k]].pos)
  }

  /** The number of indices j with ys[j] == p. */
  function Occurrences(p: Position, ys: seq<Position>): nat
  {
    if ys == [] then 0
    else Occurrences(p, ys[..|ys| - 1]) + (if p == ys[|ys| - 1] then 1 else 0)
  }

  /** The plain pair count of countCommonVertices: the number of index pairs
      (i, j) with xs[i] == ys[j]. */
  function PairCount(xs: seq<Position>, ys: seq<Position>): nat
  {
    if xs == [] then 0
    else PairCount(xs[..|xs| - 1], ys) + Occurrences(xs[|xs| - 1], ys)
  }

  lemma {:induction false} PairCountEmpty(xs: seq<Position>)
    ensures PairCount(xs, []) == 0
  {
    if xs != [] {
      PairCountEmpty(xs[..|xs| - 1]);
    }
  }

  lemma {:induction false} OccurrencesDistinct(p: Position, ys: seq<Position>)
    requires forall i, j :: 0 <= i < j < |ys| ==> ys[i] != ys[j]
    ensures Occurrences(p, ys) == if p in ys then 1 else 0
  {
    if ys != [] {
      var init := ys[..|ys| - 1];
      OccurrencesDistinct(p, init);
      assert ys == init + [ys[|ys| - 1]];
      if p == ys[|ys| - 1] {
        assert p !in init by {
          forall i | 0 <= i < |init| ensures init[i] != p {
            assert init[i] == ys[i];
          }
        }
      }
    }
  }

  /** When neither neighbour list repeats a position, the pair count is the
      size of the set intersection; otherwise it may exceed it
      (PairCountOvercounts). */
  lemma {:induction false} PairCountIsIntersection(xs: seq<Position>, ys: seq<Position>)
    requires forall i, j :: 0 <= i < j < |xs| ==> xs[i] != xs[j]
    requires forall i, j :: 0 <= i < j < |ys| ==> ys[i] != ys[j]
    ensures PairCount(xs, ys) == |set p | p in xs && p in ys|
  {
    if xs == [] {
      assert (set p | p in xs && p in ys) == {};
    } else {
      var init, x := xs[..|xs| - 1], xs[|xs| - 1];
      DistinctInit(xs, init);
      PairCountIsIntersection(init, ys);
      OccurrencesDistinct(x, ys);
      CommonSnoc(xs, ys);
    }
  }

  /** Dropping the last element keeps a list free of repeats, and the last
      element is not among the others. */
  lemma DistinctInit(xs: seq<Position>, init: seq<Position>)
    requires xs != [] && init == xs[..|xs| - 1]
    requires forall i, j :: 0 <= i < j < |xs| ==> xs[i] != xs[j]
    ensures forall i, j :: 0 <= i < j < |init| ==> init[i] != init[j]
    ensures xs[|xs| - 1] !in init
  {
    forall i | 0 <= i < |init| ensures init[i] != xs[|xs| - 1] {
      assert init[i] == xs[i];
    }
  }

  /** The common positions grow by the last element of xs when ys has it. */
  lemma CommonSnoc(xs: seq<Position>, ys: seq<Position>)
    requires xs != [] && xs[|xs| - 1] !in xs[..|xs| - 1]
    ensures var s0 := set p | p in xs[..|xs| - 1] && p in ys;
      |set p | p in xs && p in ys| == |s0| + (if xs[|xs| - 1] in ys then 1 else 0)
  {
    var init, x := xs[..|xs| - 1], xs[|xs| - 1];
    assert xs == init + [x];
    var s0 := set p | p in init && p in ys;
    var s1 := set p | p in xs && p in ys;
    if x in ys {
      assert s1 == s0 + {x};
    } else {
      assert s1 == s0;
    }
  }

  /** A repeated position is counted once per pair: [p, p] against [p]
      counts 2 although the lists share one position. */
  lemma PairCountOvercounts(p: Position)
    ensures PairCount([p, p], [p]) == 2
    ensures |set q | q in [p, p] && q in [p]| == 1
  {
    assert [p, p][..1] == [p];
    assert [p][..0] == [];
    assert Occurrences(p, [p]) == 1;
    assert PairCount([p], [p]) == 1;
    assert (set q | q in [p, p] && q in [p]) == {p};
  }

  /** countCommonVertices(v1, v2). */
  function CommonCount(g: Graph, v1: int, v2: int): nat
    requires WellFormed(g) && 0 <= v1 < |g.vertices| && 0 <= v2 < |g.vertices|
  {
    PairCount(Positions(g, Neighbours(g, v1)), Positions(g, Neighbours(g, v2)))
  }

  /** canEdgeCollapse(e): e is non-null, live, and its two endpoints have a
      pair count of exactly 2. */
  predicate CanCollapse(g: Graph, e: int)
    requires WellFormed(g) && (e == Null || 0 <= e < |g.halfEdges|)
  {
    && e != Null
    && g.halfEdges[e].alive
    && CommonCount(g, Head(g, e), Head(g, Opp(g, e))) == 2
  }

  /** An accepted edge has live representatives at both endpoints: a vertex
      whose representative is dead has no neighbours, so its count is 0. */
  lemma CanCollapseLiveEnds(g: Graph, e: int)
    requires WellFormed(g) && 0 <= e < |g.halfEdges|
    requires CanCollapse(g, e)
    ensures var v1, v2 := Head(g, e), Head(g, Opp(g, e));
      && Rep(g, v1) != Null && g.halfEdges[Rep(g, v1)].alive
      && Rep(g, v2) != Null && g.halfEdges[Rep(g, v2)].alive
      && Neighbours(g, v1) != [] && Neighbours(g, v2) != []
  {
    var v1, v2 := Head(g, e), Head(g, Opp(g, e));
    NeighboursSpec(g, v1);
    NeighboursSpec(g, v2);
    if Neighbours(g, v2) == [] {
      PairCountEmpty(Positions(g, Neighbours(g, v1)));
    }
  }

  /** A vertex with a dead representative blocks every edge that touches
      it: no edge with that vertex as head or as tail is ever accepted. */
  lemma StaleVertexIsFrozen(g: Graph, e: int)
    requires WellFormed(g) && 0 <= e < |g.halfEdges|
    requires var v1, v2 := Head(g, e), Head(g, Opp(g, e));
      || (Rep(g, v1) != Null && !g.halfEdges[Rep(g, v1)].alive)
      || (Rep(g, v2) != Null && !g.halfEdges[Rep(g, v2)].alive)
    ensures !CanCollapse(g, e)
  {
    if CanCollapse(g, e) {
      CanCollapseLiveEnds(g, e);
    }
  }
}

/** The engine's Mesh class: the face-vertex tables V and F, the arena of
    vertex, half-edge and face records, and the live collections HEV, HEE
    and HEF, with the engine's operations as methods that change them in
    place. Every method is proved to leave the state that the matching
    function of the value model computes from the state it started in. */
module MeshEngine {
  import opened MeshTypes
  import opened Walker
  import opened EdgeCollapse
  import opened Builder
  import opened Revert
  import opened Driver

  /** Vertex records with positions V and representatives reps. */
  function VertexTable(V: seq<Position>, reps: seq<int>): (r: seq<VertexSlot>)
    requires |reps| == |V|
    ensures |r| == |V|
    ensures forall v :: 0 <= v < |V| ==> r[v] == VertexSlot(V[v], reps[v])
  {
    seq(|V|, v requires 0 <= v < |V| => VertexSlot(V[v], reps[v]))
  }

  /** The half-edge records of the first |twins| / 3 triangles of F. */
  function SlotTable(F: seq<Triangle>, twins: seq<int>): (r: seq<HalfEdgeSlot>)
    requires |twins| <= 3 * |F|
    ensures |r| == |twins|
    ensures forall h :: 0 <= h < |twins| ==> r[h] == BuiltSlot(F, h, twins[h])
  {
    seq(|twins|, h requires 0 <= h < |twins| => BuiltSlot(F, h, twins[h]))
  }

  /** The face records of the first k triangles. */
  function FaceTable(k: nat): (r: seq<FaceSlot>)
    ensures |r| == k
    ensures forall j :: 0 <= j < k ==> r[j] == FaceSlot(3 * j)
  {
    seq(k, j => FaceSlot(3 * j))
  }

  /** Setting a representative in the table is setting it in reps. */
  lemma VertexTableSet(V: seq<Position>, reps: seq<int>, v: int, o: int)
    requires |reps| == |V| && 0 <= v < |V|
    ensures VertexTable(V, reps)[v := VertexTable(V, reps)[v].(edge := o)] == VertexTable(V, reps[v := o])
  {
  }

  /** Setting a twin in the table is setting it in twins. */
  lemma SlotTableSet(F: seq<Triangle>, twins: seq<int>, h: int, o: int)
    requires |twins| <= 3 * |F| && 0 <= h < |twins|
    ensures SlotTable(F, twins)[h := SlotTable(F, twins)[h].(opposite := o)] == SlotTable(F, SetAt(twins, h, o))
  {
  }

  /** The records of triangle i appended to those of the triangles before
      it, with null twins. */
  lemma SlotTableAppend(F: seq<Triangle>, twins: seq<int>, i: int)
    requires 0 <= i < |F| && |twins| == 3 * i
    ensures var t, n := F[i], 3 * i;
      SlotTable(F, twins) + [
        HalfEdgeSlot(i, t.c - 1, Null, n + 1, n, true),
        HalfEdgeSlot(i, t.b - 1, Null, n + 2, n + 1, true),
        HalfEdgeSlot(i, t.a - 1, Null, n, n + 2, true)]
      == SlotTable(F, twins + [Null, Null, Null])
  {
    Thirds(i);
    var n := 3 * i;
    assert BuiltSlot(F, n, Null) == HalfEdgeSlot(i, F[i].c - 1, Null, n + 1, n, true);
    assert BuiltSlot(F, n + 1, Null) == HalfEdgeSlot(i, F[i].b - 1, Null, n + 2, n + 1, true);
    assert BuiltSlot(F, n + 2, Null) == HalfEdgeSlot(i, F[i].a - 1, Null, n, n + 2, true);
  }

  /** The tables after the whole face loop are the built graph. */
  lemma TablesAreBuild(V: seq<Position>, F: seq<Triangle>)
    requires WellIndexed(|V|, F)
    ensures var s := BuildUpTo(|V|, F, |F|);
      Graph(VertexTable(V, s.reps), SlotTable(F, s.twins), FaceTable(|F|), Range(|V|), Range(3 * |F|), Range(|F|))
      == Build(V, F)
  {
    var s := BuildUpTo(|V|, F, |F|);
    var g := Build(V, F);
    assert g == Assemble(V, F, s);
    assert VertexTable(V, s.reps) == g.vertices;
    assert SlotTable(F, s.twins) == g.halfEdges;
    assert FaceTable(|F|) == g.faces;
  }

  /** The slot table after lines 389-393 re-link the outer twins. */
  function Relinked(es: seq<HalfEdgeSlot>, c: Corners): (r: seq<HalfEdgeSlot>)
    requires 0 <= c.ent < |es| && 0 <= c.ept < |es| && 0 <= c.etnt < |es| && 0 <= c.etpt < |es|
    ensures |r| == |es|
  {
    var es1 := es[c.ent := es[c.ent].(opposite := c.ept)];
    var es2 := es1[c.ept := es1[c.ept].(opposite := c.ent)];
    var es3 := es2[c.etnt := es2[c.etnt].(opposite := c.etpt)];
    es3[c.etpt := es3[c.etpt].(opposite := c.etnt)]
  }

  lemma RelinkedSlots(es: seq<HalfEdgeSlot>, c: Corners)
    requires 0 <= c.ent < |es| && 0 <= c.ept < |es| && 0 <= c.etnt < |es| && 0 <= c.etpt < |es|
    ensures forall h :: 0 <= h < |es| ==> Relinked(es, c)[h] == es[h].(opposite := TwinAfter(es, c, h))
  {
    var es1 := es[c.ent := es[c.ent].(opposite := c.ept)];
    var es2 := es1[c.ept := es1[c.ept].(opposite := c.ent)];
    var es3 := es2[c.etnt := es2[c.etnt].(opposite := c.etpt)];
    forall h | 0 <= h < |es|
      ensures Relinked(es, c)[h] == es[h].(opposite := TwinAfter(es, c, h))
    {
      assert es1[h] == es[h].(opposite := es1[h].opposite);
      assert es2[h] == es[h].(opposite := es2[h].opposite);
      assert es3[h] == es[h].(opposite := es3[h].opposite);
    }
  }

  /** The slot table after the liveness flags of the half-edges xs are
      cleared one after the other (lines 414-419). */
  function Retired(es: seq<HalfEdgeSlot>, xs: seq<int>): (r: seq<HalfEdgeSlot>)
    requires forall k :: 0 <= k < |xs| ==> 0 <= xs[k] < |es|
    ensures |r| == |es|
    decreases |xs|
  {
    if xs == [] then es else Retired(es[xs[0] := es[xs[0]].(alive := false)], xs[1..])
  }

  /** A half-edge is live after the clearing exactly when it was live before
      and is not one of xs; nothing else of a slot changes. */
  lemma {:induction false} RetiredSlots(es: seq<HalfEdgeSlot>, xs: seq<int>)
    requires forall k :: 0 <= k < |xs| ==> 0 <= xs[k] < |es|
    ensures forall h :: 0 <= h < |es| ==> Retired(es, xs)[h] == es[h].(alive := es[h].alive && h !in xs)
    decreases |xs|
  {
    if xs != [] {
      var es1 := es[xs[0] := es[xs[0]].(alive := false)];
      RetiredSlots(es1, xs[1..]);
      forall h | 0 <= h < |es|
        ensures Retired(es, xs)[h] == es[h].(alive := es[h].alive && h !in xs)
      {
        assert h in xs <==> h == xs[0] || h in xs[1..];
      }
    }
  }

  /** The records es with the head of every half-edge of w set to v2, one
      after the other. Only heads change. */
  function HeadsSet(es: seq<HalfEdgeSlot>, w: seq<int>, v2: int): (r: seq<HalfEdgeSlot>)
    requires forall k :: 0 <= k < |w| ==> 0 <= w[k] < |es|
    ensures |r| == |es|
    ensures forall h :: 0 <= h < |es| ==>
      r[h].next == es[h].next && r[h].opposite == es[h].opposite && r[h].id == es[h].id
  {
    if w == [] then es
    else
      var p := HeadsSet(es, w[..|w| - 1], v2);
      p[w[|w| - 1] := p[w[|w| - 1]].(head := v2)]
  }

  /** A record's head is v2 after HeadsSet exactly when it is on w. */
  lemma {:induction false} HeadsSetSlots(es: seq<HalfEdgeSlot>, w: seq<int>, v2: int)
    requires forall k :: 0 <= k < |w| ==> 0 <= w[k] < |es|
    ensures forall h :: 0 <= h < |es| ==> HeadsSet(es, w, v2)[h] == es[h].(head := if h in w then v2 else es[h].head)
  {
    if w != [] {
      var w0 := w[..|w| - 1];
      HeadsSetSlots(es, w0, v2);
      forall h | 0 <= h < |es|
        ensures HeadsSet(es, w, v2)[h] == es[h].(head := if h in w then v2 else es[h].head)
      {
        assert w == w0 + [w[|w| - 1]];
        assert h in w <==> h in w0 || h == w[|w| - 1];
      }
    }
  }

  /** Renaming one more half-edge is one more record update. */
  lemma HeadsSetAppend(es: seq<HalfEdgeSlot>, walk: seq<int>, curr: int, v2: int)
    requires forall k :: 0 <= k < |walk| ==> 0 <= walk[k] < |es|
    requires 0 <= curr < |es|
    ensures var p := HeadsSet(es, walk, v2);
      HeadsSet(es, walk + [curr], v2) == p[curr := p[curr].(head := v2)]
  {
    var w := walk + [curr];
    assert w[..|w| - 1] == walk;
  }

  /** What the renaming loop knows at the top of each iteration, where
      target is the whole walk: it has renamed the first |walk| half-edges
      of the walk, it has fuel for the rest of the |g.halfEdges| steps, and
      while fuel is left it is at the next half-edge of the walk. */
  predicate RenameInv(g: Graph, v2: int, target: seq<int>, es: seq<HalfEdgeSlot>, walk: seq<int>, curr: int, fuel: nat)
  {
    && 0 <= curr < |g.halfEdges|
    && |walk| + fuel == |g.halfEdges|
    && |walk| <= |target| && walk == target[..|walk|]
    && (fuel > 0 ==> |walk| < |target| && curr == target[|walk|])
    && (forall k :: 0 <= k < |walk| ==> 0 <= walk[k] < |g.halfEdges|)
    && es == HeadsSet(g.halfEdges, walk, v2)
  }

  /** One iteration of the renaming loop: rename curr, then step to
      `curr->next->opposite` through the records being rewritten. The step
      lands on `first` exactly when the identifiers agree, and then the
      whole walk is done. */
  lemma RenameStep(g: Graph, first: int, v2: int, target: seq<int>, es: seq<HalfEdgeSlot>, walk: seq<int>, curr: int, fuel: nat)
    requires WellFormed(g) && 0 <= first < |g.halfEdges| && fuel > 0
    requires target == Walk(g, NextOpposite, first, first, |g.halfEdges|)
    requires RenameInv(g, v2, target, es, walk, curr, fuel)
    ensures var es' := es[curr := es[curr].(head := v2)];
      var nx := es'[es'[curr].next].opposite;
      && 0 <= es'[curr].next < |es'| && 0 <= nx < |es'|
      && (es'[nx].id == es'[first].id <==> nx == first)
      && (nx == first ==> es' == HeadsSet(g.halfEdges, walk + [curr], v2) && walk + [curr] == target)
      && (nx != first ==> RenameInv(g, v2, target, es', walk + [curr], nx, fuel - 1))
  {
    RenameRecord(g, first, v2, es, walk, curr);
    RenameAdvance(g, first, target, walk, curr, fuel);
  }

  /** The record side of one renaming step: only curr's head changes, so the
      step through the rewritten records is the graph's `next->opposite`. */
  lemma RenameRecord(g: Graph, first: int, v2: int, es: seq<HalfEdgeSlot>, walk: seq<int>, curr: int)
    requires WellFormed(g) && 0 <= first < |g.halfEdges| && 0 <= curr < |g.halfEdges|
    requires forall k :: 0 <= k < |walk| ==> 0 <= walk[k] < |g.halfEdges|
    requires es == HeadsSet(g.halfEdges, walk, v2)
    ensures var es' := es[curr := es[curr].(head := v2)];
      var nx := es'[es'[curr].next].opposite;
      && 0 <= es'[curr].next < |es'| && 0 <= nx < |es'|
      && nx == Step(g, NextOpposite, curr)
      && (es'[nx].id == es'[first].id <==> nx == first)
      && es' == HeadsSet(g.halfEdges, walk + [curr], v2)
  {
    HeadsSetAppend(g.halfEdges, walk, curr, v2);
    var w := walk + [curr];
    var es' := es[curr := es[curr].(head := v2)];
    HeadsSetSlots(g.halfEdges, w, v2);
    assert SlotOk(g, g.halfEdges[curr], curr);
    var n1 := g.halfEdges[curr].next;
    assert es'[curr].next == n1;
    assert SlotOk(g, g.halfEdges[n1], n1);
    var nx := g.halfEdges[n1].opposite;
    assert es'[n1].opposite == nx;
    assert SlotOk(g, g.halfEdges[nx], nx) && SlotOk(g, g.halfEdges[first], first);
    assert es'[nx].id == nx && es'[first].id == first;
  }

  /** The walk side of one renaming step: curr joins the renamed prefix of
      the walk, which is the whole walk once the step is back at `first`. */
  lemma RenameAdvance(g: Graph, first: int, target: seq<int>, walk: seq<int>, curr: int, fuel: nat)
    requires WellFormed(g) && 0 <= first < |g.halfEdges| && 0 <= curr < |g.halfEdges| && fuel > 0
    requires target == Walk(g, NextOpposite, first, first, |g.halfEdges|)
    requires |walk| + fuel == |g.halfEdges|
    requires |walk| < |target| && walk == target[..|walk|] && curr == target[|walk|]
    ensures var w, nx := walk + [curr], Step(g, NextOpposite, curr);
      && |w| <= |target| && w == target[..|w|]
      && (nx == first ==> w == target)
      && (nx != first && fuel - 1 > 0 ==> |w| < |target| && nx == target[|w|])
  {
    WalkShape(g, NextOpposite, first, first, |g.halfEdges|);
    var w := walk + [curr];
    var nx := Step(g, NextOpposite, curr);
    assert w == target[..|w|];
    assert target[|w| - 1] == curr;
    if |w| < |target| {
      assert target[|w|] == nx && nx != first;
    } else {
      assert w == target;
      assert |target| < |g.halfEdges| ==> nx == first;
    }
  }

  /** Lines 378-383: from `first`, set the head of every half-edge met
      stepping `next->opposite` to v2, until the walk comes round to
      `first` again or has made |es0| steps. The walk reads the records it
      is rewriting, as the engine does; g is the graph they belong to. */
  method RenameAlong(es0: seq<HalfEdgeSlot>, ghost g: Graph, first: int, v2: int) returns (es: seq<HalfEdgeSlot>, walk: seq<int>)
    requires WellFormed(g) && es0 == g.halfEdges && 0 <= first < |es0|
    ensures walk == Walk(g, NextOpposite, first, first, |es0|)
    ensures es == HeadsSet(es0, walk, v2)
  {
    ghost var target := Walk(g, NextOpposite, first, first, |es0|);
    WalkShape(g, NextOpposite, first, first, |es0|);
    es := es0;
    var curr := first;
    walk := [];
    var fuel: nat := |es|;
    while fuel > 0
      invariant RenameInv(g, v2, target, es, walk, curr, fuel)
      decreases fuel
    {
      RenameStep(g, first, v2, target, es, walk, curr, fuel);
      es := es[curr := es[curr].(head := v2)];
      walk := walk + [curr];
      curr := es[es[curr].next].opposite;
      if es[curr].id == es[first].id {
        return;
      }
      fuel := fuel - 1;
    }
  }

  /** The six half-edges of the two triangles beside e, in the order the
      engine retires them. */
  function Six(c: Corners): (r: seq<int>)
    ensures forall h :: h in r <==> h in Doomed(c)
  {
    [c.e, c.en, c.ep, c.et, c.etn, c.etp]
  }

  /** The six handles, the four outer twins and the walk are handles of es. */
  predicate InTable(es: seq<HalfEdgeSlot>, c: Corners, w: seq<int>)
  {
    && 0 <= c.e < |es| && 0 <= c.en < |es| && 0 <= c.ep < |es|
    && 0 <= c.et < |es| && 0 <= c.etn < |es| && 0 <= c.etp < |es|
    && 0 <= c.ent < |es| && 0 <= c.ept < |es| && 0 <= c.etnt < |es| && 0 <= c.etpt < |es|
    && (forall k :: 0 <= k < |w| ==> 0 <= w[k] < |es|)
  }

  /** Renaming the heads of w, re-linking the twins and retiring the six
      half-edges, one after the other, change each record in the three
      respects independently. */
  lemma ChainSlots(es: seq<HalfEdgeSlot>, c: Corners, w: seq<int>)
    requires InTable(es, c, w)
    ensures |Retired(Relinked(HeadsSet(es, w, c.v2), c), Six(c))| == |es|
    ensures forall h :: 0 <= h < |es| ==>
        Retired(Relinked(HeadsSet(es, w, c.v2), c), Six(c))[h] == es[h].(head := if h in w then c.v2 else es[h].head,
                       opposite := TwinAfter(es, c, h),
                       alive := es[h].alive && h !in Doomed(c))
  {
    var es1 := HeadsSet(es, w, c.v2);
    var es2 := Relinked(es1, c);
    HeadsSetSlots(es, w, c.v2);
    RelinkedSlots(es1, c);
    RetiredSlots(es2, Six(c));
    forall h | 0 <= h < |es|
      ensures TwinAfter(es1, c, h) == TwinAfter(es, c, h)
    {
    }
  }

  /** CollapsedSlot changes the three fields of a record independently. */
  lemma CollapsedSlotFields(g: Graph, c: Corners, w: seq<int>, h: int)
    requires 0 <= h < |g.halfEdges|
    ensures var s := g.halfEdges[h];
      CollapsedSlot(g, c, w, h) == s.(head := if h in w then c.v2 else s.head,
                                      opposite := TwinAfter(g.halfEdges, c, h),
                                      alive := s.alive && h !in Doomed(c))
  {
  }

  /** The three steps leave the records Collapse computes. */
  lemma CollapseSlots(g: Graph, e: int, rule: RepairRule, c: Corners, w: seq<int>)
    requires CollapseReady(g, e) && InTable(g.halfEdges, c, w)
    requires forall h :: 0 <= h < |g.halfEdges| ==> Collapse(g, e, rule).halfEdges[h] == CollapsedSlot(g, c, w, h)
    ensures Retired(Relinked(HeadsSet(g.halfEdges, w, c.v2), c), Six(c)) == Collapse(g, e, rule).halfEdges
  {
    var r := Collapse(g, e, rule).halfEdges;
    var es3 := Retired(Relinked(HeadsSet(g.halfEdges, w, c.v2), c), Six(c));
    ChainSlots(g.halfEdges, c, w);
    SlotsAgree(g, c, w, es3, r);
  }

  lemma SlotsAgree(g: Graph, c: Corners, w: seq<int>, es3: seq<HalfEdgeSlot>, r: seq<HalfEdgeSlot>)
    requires |es3| == |g.halfEdges| && |r| == |g.halfEdges|
    requires forall h :: 0 <= h < |g.halfEdges| ==>
      es3[h] == g.halfEdges[h].(head := if h in w then c.v2 else g.halfEdges[h].head,
                                opposite := TwinAfter(g.halfEdges, c, h),
                                alive := g.halfEdges[h].alive && h !in Doomed(c))
    requires forall h :: 0 <= h < |g.halfEdges| ==> r[h] == CollapsedSlot(g, c, w, h)
    ensures es3 == r
  {
    forall h | 0 <= h < |g.halfEdges|
      ensures es3[h] == r[h]
    {
      CollapsedSlotFields(g, c, w, h);
    }
  }

  /** Records that agree with the repaired representatives are the vertex
      records Collapse computes. */
  lemma CollapseVertices(g: Graph, e: int, rule: RepairRule, vs: seq<VertexSlot>)
    requires CollapseReady(g, e) && |vs| == |g.vertices|
    requires forall v :: 0 <= v < |vs| ==> vs[v] == g.vertices[v].(edge := RepairedRep(g, CornersOf(g, e), rule, v))
    ensures vs == Collapse(g, e, rule).vertices
  {
  }

  /** The slot table after one twin check of lines 539-558: when key x is
      filed, the half-edge filed under y and the one filed under x become
      each other's twins. */
  method LinkPair(es0: seq<HalfEdgeSlot>, ghost F: seq<Triangle>, ghost twins: seq<int>, edges: map<Key, int>, x: Key, y: Key)
    returns (es: seq<HalfEdgeSlot>)
    requires |twins| <= 3 * |F| && es0 == SlotTable(F, twins)
    requires y in edges && forall k :: k in edges ==> 0 <= edges[k] < |twins|
    ensures es == SlotTable(F, Link(twins, edges, x, y))
  {
    es := es0;
    if x in edges {
      var hx, hy := edges[x], edges[y];
      SlotTableSet(F, twins, hy, hx);
      es := es[hy := es[hy].(opposite := hx)];
      SlotTableSet(F, SetAt(twins, hy, hx), hx, hy);
      es := es[hx := es[hx].(opposite := hy)];
    }
  }

  /** The vertex records after lines 512-521 make a's representative n,
      b's n + 2 and c's n + 1. */
  lemma FaceRepsTable(V: seq<Position>, reps: seq<int>, t: Triangle, n: int)
    requires |reps| == |V| && 1 <= t.a <= |V| && 1 <= t.b <= |V| && 1 <= t.c <= |V|
    ensures var vs := VertexTable(V, reps);
      var vs1 := vs[t.a - 1 := vs[t.a - 1].(edge := n)];
      var vs2 := vs1[t.b - 1 := vs1[t.b - 1].(edge := n + 2)];
      vs2[t.c - 1 := vs2[t.c - 1].(edge := n + 1)] == VertexTable(V, FaceReps(reps, t, n))
  {
    VertexTableSet(V, reps, t.a - 1, n);
    VertexTableSet(V, reps[t.a - 1 := n], t.b - 1, n + 2);
    VertexTableSet(V, reps[t.a - 1 := n][t.b - 1 := n + 2], t.c - 1, n + 1);
  }

  /** The vertex loop of convertMesh (lines 484-492): one record per input
      vertex, with a null representative, each inserted into HEV. */
  method AddVertices(V: seq<Position>) returns (vs: seq<VertexSlot>, hv: set<int>)
    ensures vs == VertexTable(V, Initial(|V|).reps) && hv == Range(|V|)
  {
    vs, hv := [], {};
    var i := 0;
    while i < |V|
      invariant 0 <= i <= |V| && |vs| == i && hv == Range(i)
      invariant forall v :: 0 <= v < i ==> vs[v] == VertexSlot(V[v], Null)
    {
      vs := vs + [VertexSlot(V[i], Null)];
      hv := hv + {i};
      i := i + 1;
    }
  }

  /** The face loop's tables after the first k triangles. */
  predicate FacesInv(V: seq<Position>, F: seq<Triangle>, k: nat, vs: seq<VertexSlot>, es: seq<HalfEdgeSlot>,
    fs: seq<FaceSlot>, he: set<int>, hf: set<int>, edges: map<Key, int>)
    requires WellIndexed(|V|, F) && k <= |F|
  {
    var s := BuildUpTo(|V|, F, k);
    && vs == VertexTable(V, s.reps) && es == SlotTable(F, s.twins) && fs == FaceTable(k)
    && he == Range(3 * k) && hf == Range(k) && edges == s.edges
  }

  /** The first half of one iteration of the face loop (lines 496-536)
      for triangle t = F[k]: a face record naming halfedge1, three
      half-edge records with null twins and the ids n, n + 1, n + 2 in
      creation order, the representatives of a, b and c, and the three keys
      filed in the edge map. */
  method AppendFace(V: seq<Position>, F: seq<Triangle>, k: nat, ghost reps: seq<int>, ghost twins: seq<int>,
    vs0: seq<VertexSlot>, es0: seq<HalfEdgeSlot>, fs0: seq<FaceSlot>, edges0: map<Key, int>)
    returns (vs: seq<VertexSlot>, es: seq<HalfEdgeSlot>, fs: seq<FaceSlot>, edges: map<Key, int>)
    requires WellIndexed(|V|, F) && k < |F| && |reps| == |V| && |twins| == 3 * k
    requires vs0 == VertexTable(V, reps) && es0 == SlotTable(F, twins) && fs0 == FaceTable(k)
    ensures vs == VertexTable(V, FaceReps(reps, F[k], 3 * k))
    ensures es == SlotTable(F, twins + [Null, Null, Null])
    ensures fs == FaceTable(k + 1)
    ensures edges == FaceEdges(edges0, F[k], 3 * k)
  {
    var t, n := F[k], 3 * k;
    fs := fs0 + [FaceSlot(n)];
    FaceTableAppend(k);
    SlotTableAppend(F, twins, k);
    es := es0 + [
      HalfEdgeSlot(k, t.c - 1, Null, n + 1, n, true),
      HalfEdgeSlot(k, t.b - 1, Null, n + 2, n + 1, true),
      HalfEdgeSlot(k, t.a - 1, Null, n, n + 2, true)];
    FaceRepsTable(V, reps, t, n);
    vs := vs0[t.a - 1 := vs0[t.a - 1].(edge := n)];
    vs := vs[t.b - 1 := vs[t.b - 1].(edge := n + 2)];
    vs := vs[t.c - 1 := vs[t.c - 1].(edge := n + 1)];
    edges := edges0[(t.b, t.a) := n + 2][(t.c, t.b) := n + 1][(t.a, t.c) := n];
  }

  /** One iteration of the face loop (lines 495-579) for triangle k: the
      records and keys of AppendFace, the three twin checks, and the
      insertions into HEF and HEE. */
  method AddFaceRecords(V: seq<Position>, F: seq<Triangle>, k: nat, vs0: seq<VertexSlot>, es0: seq<HalfEdgeSlot>,
    fs0: seq<FaceSlot>, he0: set<int>, hf0: set<int>, edges0: map<Key, int>)
    returns (vs: seq<VertexSlot>, es: seq<HalfEdgeSlot>, fs: seq<FaceSlot>, he: set<int>, hf: set<int>, edges: map<Key, int>)
    requires WellIndexed(|V|, F) && k < |F|
    requires FacesInv(V, F, k, vs0, es0, fs0, he0, hf0, edges0)
    ensures FacesInv(V, F, k + 1, vs, es, fs, he, hf, edges)
  {
    ghost var s := BuildUpTo(|V|, F, k);
    vs, es, fs, edges := AppendFace(V, F, k, s.reps, s.twins, vs0, es0, fs0, edges0);
    FaceStep(V, F, k);
    es := LinkFace(es, F, s.twins + [Null, Null, Null], edges, F[k]);
    hf := hf0 + {k};
    he := he0 + {3 * k, 3 * k + 1, 3 * k + 2};
    RangeStep(k);
  }

  lemma FaceTableAppend(k: nat)
    ensures FaceTable(k) + [FaceSlot(3 * k)] == FaceTable(k + 1)
  {
  }

  /** The handle ranges after one more face: its handle and its three
      half-edge handles. */
  lemma RangeStep(k: nat)
    ensures Range(k + 1) == Range(k) + {k}
    ensures Range(3 * (k + 1)) == Range(3 * k) + {3 * k, 3 * k + 1, 3 * k + 2}
  {
    assert 3 * (k + 1) == 3 * k + 3;
    RangeThree(3 * k);
  }

  lemma RangeThree(n: nat)
    ensures Range(n + 3) == Range(n) + {n, n + 1, n + 2}
  {
    assert Range(n + 3) == Range(n + 2) + {n + 2};
    assert Range(n + 2) == Range(n + 1) + {n + 1};
    assert Range(n + 1) == Range(n) + {n};
  }

  /** The state of the face loop after triangle k, spelt out. */
  lemma FaceStep(V: seq<Position>, F: seq<Triangle>, k: nat)
    requires WellIndexed(|V|, F) && k < |F|
    ensures forall key :: key in FaceEdges(BuildUpTo(|V|, F, k).edges, F[k], 3 * k) ==>
      0 <= FaceEdges(BuildUpTo(|V|, F, k).edges, F[k], 3 * k)[key] < 3 * k + 3
    ensures var s, t, n := BuildUpTo(|V|, F, k), F[k], 3 * k;
      var m := FaceEdges(s.edges, t, n);
      && (t.b, t.a) in m && (t.c, t.b) in m && (t.a, t.c) in m
      && BuildUpTo(|V|, F, k + 1) == BuildState(FaceReps(s.reps, t, n), FaceTwins(s.twins + [Null, Null, Null], m, t), m)
  {
  }

  /** The three twin checks of lines 539-558 for triangle t. */
  method LinkFace(es0: seq<HalfEdgeSlot>, ghost F: seq<Triangle>, ghost twins: seq<int>, edges: map<Key, int>, t: Triangle)
    returns (es: seq<HalfEdgeSlot>)
    requires |twins| <= 3 * |F| && es0 == SlotTable(F, twins)
    requires (t.b, t.a) in edges && (t.c, t.b) in edges && (t.a, t.c) in edges
    requires forall k :: k in edges ==> 0 <= edges[k] < |twins|
    ensures es == SlotTable(F, FaceTwins(twins, edges, t))
  {
    es := LinkPair(es0, F, twins, edges, (t.a, t.b), (t.b, t.a));
    ghost var tw1 := Link(twins, edges, (t.a, t.b), (t.b, t.a));
    es := LinkPair(es, F, tw1, edges, (t.b, t.c), (t.c, t.b));
    ghost var tw2 := Link(tw1, edges, (t.b, t.c), (t.c, t.b));
    es := LinkPair(es, F, tw2, edges, (t.c, t.a), (t.a, t.c));
  }

  /** convertMesh's two loops on an empty arena: the records and live
      collections of the built graph. */
  method BuildArena(V: seq<Position>, F: seq<Triangle>)
    returns (vs: seq<VertexSlot>, es: seq<HalfEdgeSlot>, fs: seq<FaceSlot>, hv: set<int>, he: set<int>, hf: set<int>)
    requires WellIndexed(|V|, F)
    ensures Graph(vs, es, fs, hv, he, hf) == Build(V, F)
  {
    vs, hv := AddVertices(V);
    es, fs, he, hf := [], [], {}, {};
    var edges: map<Key, int> := map[];
    var k := 0;
    while k < |F|
      invariant 0 <= k <= |F| && hv == Range(|V|)
      invariant FacesInv(V, F, k, vs, es, fs, he, hf, edges)
    {
      vs, es, fs, he, hf, edges := AddFaceRecords(V, F, k, vs, es, fs, he, hf, edges);
      k := k + 1;
    }
    TablesAreBuild(V, F);
  }

  /** The star walk of v is `visited` followed by the rest of the walk from `curr`. */
  predicate StarPrefix(g: Graph, v: int, first: int, visited: seq<int>, curr: int, fuel: nat)
    requires WellFormed(g) && 0 <= v < |g.vertices| && 0 <= curr < |g.halfEdges|
  {
    visited + Walk(g, OppositeNext, first, curr, fuel) == StarEdges(g, v)
  }

  /** One iteration of getNeighbourVertices' loop, on the arena `g`: the half-edge
      `curr` is recorded and the walk steps to `opposite->next`, which is a slot
      whose id equals `first`'s exactly when it is `first`. */
  lemma StarLoopStep(g: Graph, v: int, first: int, visited: seq<int>, curr: int, fuel: nat)
    requires WellFormed(g) && 0 <= v < |g.vertices| && 0 <= curr < |g.halfEdges| && 0 <= first < |g.halfEdges|
    requires fuel > 0
    requires forall k :: 0 <= k < |visited| ==> 0 <= visited[k] < |g.halfEdges|
    requires StarPrefix(g, v, first, visited, curr, fuel)
    ensures var nx := g.halfEdges[g.halfEdges[curr].opposite].next;
      && 0 <= g.halfEdges[curr].opposite < |g.halfEdges| && 0 <= nx < |g.halfEdges|
      && (g.halfEdges[nx].id == g.halfEdges[first].id <==> nx == first)
      && (nx == first ==> visited + [curr] == StarEdges(g, v))
      && (nx != first ==> StarPrefix(g, v, first, visited + [curr], nx, fuel - 1))
    ensures Heads(g, visited + [curr]) == Heads(g, visited) + [g.halfEdges[curr].head]
  {
    assert SlotOk(g, g.halfEdges[curr], curr);
    var nx := g.halfEdges[g.halfEdges[curr].opposite].next;
    assert SlotOk(g, g.halfEdges[nx], nx) && SlotOk(g, g.halfEdges[first], first);
    WalkFirstStep(g, OppositeNext, first, curr, fuel);
    HeadsSnoc(g, visited, curr);
  }

    class Mesh {
    /** The face-vertex mesh: the vertex table and the triangle table. */
    var V: seq<Position>
    var F: seq<Triangle>
    /** The records the engine allocates, addressed by handle. */
    var vertices: seq<VertexSlot>
    var halfEdges: seq<HalfEdgeSlot>
    var faces: seq<FaceSlot>
    /** The live collections HEV, HEE and HEF. */
    var hev: set<int>
    var hee: set<int>
    var hef: set<int>

    /** The half-edge graph the object holds. */
    function Snapshot(): Graph
      reads this
    {
      Graph(vertices, halfEdges, faces, hev, hee, hef)
    }

    /** `Mesh()`: an empty mesh. */
    constructor()
      ensures V == [] && F == []
      ensures Snapshot() == Graph([], [], [], {}, {}, {})
    {
      V, F := [], [];
      vertices, halfEdges, faces := [], [], [];
      hev, hee, hef := {}, {}, {};
    }

    /** Vcnt: the number of live vertices. */
    method Vcnt() returns (n: int)
      ensures n == |hev|
    {
      n := |hev|;
    }

    /** Fcnt: the number of live faces. */
    method Fcnt() returns (n: int)
      ensures n == |hef|
    {
      n := |hef|;
    }

    /** getNeighbourVertices: nothing when v's representative is null or
        dead; otherwise the heads met while stepping `opposite->next` from
        the representative until it comes round again. The walk is cut
        after |halfEdges| steps. */
    method GetNeighbourVertices(v: int) returns (tmp: seq<int>)
      requires WellFormed(Snapshot()) && 0 <= v < |vertices|
      ensures tmp == Neighbours(Snapshot(), v)
    {
      ghost var g := Snapshot();
      tmp := [];
      var curr := vertices[v].edge;
      var first := vertices[v].edge;
      if first == Null || !halfEdges[first].alive {
        return;
      }
      ghost var visited: seq<int> := [];
      var fuel: nat := |halfEdges|;
      while fuel > 0
        invariant 0 <= curr < |halfEdges| && fuel <= |halfEdges|
        invariant forall k :: 0 <= k < |visited| ==> 0 <= visited[k] < |halfEdges|
        invariant StarPrefix(g, v, first, visited, curr, fuel)
        invariant tmp == Heads(g, visited)
        decreases fuel
      {
        assert halfEdges == g.halfEdges;
        StarLoopStep(g, v, first, visited, curr, fuel);
        tmp := tmp + [halfEdges[curr].head];
        visited := visited + [curr];
        curr := halfEdges[halfEdges[curr].opposite].next;
        if halfEdges[curr].id == halfEdges[first].id {
          return;
        }
        fuel := fuel - 1;
      }
    }

    /** countCommonVertices: the number of pairs (i, j) whose i-th neighbour
        of v1 and j-th neighbour of v2 are at the same position. */
    method CountCommonVertices(v1: int, v2: int) returns (count: int)
      requires WellFormed(Snapshot()) && 0 <= v1 < |vertices| && 0 <= v2 < |vertices|
      ensures count == CommonCount(Snapshot(), v1, v2)
    {
      ghost var g := Snapshot();
      count := 0;
      var n1 := GetNeighbourVertices(v1);
      var n2 := GetNeighbourVertices(v2);
      ghost var xs, ys := Positions(g, n1), Positions(g, n2);
      var i := 0;
      while i < |n1|
        invariant 0 <= i <= |n1|
        invariant count == PairCount(xs[..i], ys)
      {
        var c := CountMatches(vertices[n1[i]].pos, n2);
        count := count + c;
        assert xs[..i + 1][..i] == xs[..i];
        i := i + 1;
      }
      assert xs[..i] == xs;
    }

    /** The inner loop of countCommonVertices: how many of the vertices ns sit at p. */
    method CountMatches(p: Position, ns: seq<int>) returns (c: nat)
      requires forall k :: 0 <= k < |ns| ==> 0 <= ns[k] < |vertices|
      ensures c == Occurrences(p, Positions(Snapshot(), ns))
    {
      ghost var ys := Positions(Snapshot(), ns);
      c := 0;
      var j := 0;
      while j < |ns|
        invariant 0 <= j <= |ns|
        invariant c == Occurrences(p, ys[..j])
      {
        if p == vertices[ns[j]].pos {
          c := c + 1;
        }
        assert ys[..j + 1][..j] == ys[..j];
        j := j + 1;
      }
      assert ys[..j] == ys;
    }

    /** canEdgeCollapse: e is not null, is live, and its two endpoints have
        exactly two common neighbours. */
    method CanEdgeCollapse(e: int) returns (b: bool)
      requires WellFormed(Snapshot()) && (e == Null || 0 <= e < |halfEdges|)
      ensures b == CanCollapse(Snapshot(), e)
    {
      if e == Null || !halfEdges[e].alive {
        return false;
      }
      assert SlotOk(Snapshot(), halfEdges[e], e);
      var n := CountCommonVertices(halfEdges[e].head, halfEdges[halfEdges[e].opposite].head);
      b := n == 2;
    }

    /** Lines 378-383 on the half-edge records: see Renamed. */
    method RenameHeads(first: int, v2: int) returns (ghost walk: seq<int>)
      requires WellFormed(Snapshot()) && 0 <= first < |halfEdges|
      modifies this
      ensures walk == Walk(old(Snapshot()), NextOpposite, first, first, |old(halfEdges)|)
      ensures halfEdges == HeadsSet(old(halfEdges), walk, v2)
      ensures vertices == old(vertices) && faces == old(faces)
      ensures hev == old(hev) && hee == old(hee) && hef == old(hef) && V == old(V) && F == old(F)
    {
      var es;
      es, walk := RenameAlong(halfEdges, Snapshot(), first, v2);
      halfEdges := es;
    }

    /** Lines 385-388 under `rule`: the representative repair, given the
        corners c of the collapse read from the graph g before it began. */
    method RepairReps(ghost g: Graph, c: Corners, va: int, vb: int, rule: RepairRule)
      requires CollapseReady(g, c.e) && c == CornersOf(g, c.e)
      requires va == Head(g, c.en) && vb == Head(g, c.etn)
      requires vertices == g.vertices && |halfEdges| == |g.halfEdges|
      requires forall h :: 0 <= h < |halfEdges| ==>
        halfEdges[h].id == g.halfEdges[h].id && halfEdges[h].opposite == g.halfEdges[h].opposite
      modifies this
      ensures |vertices| == |g.vertices|
      ensures forall v :: 0 <= v < |vertices| ==> vertices[v] == g.vertices[v].(edge := RepairedRep(g, c, rule, v))
      ensures halfEdges == old(halfEdges) && faces == old(faces)
      ensures hev == old(hev) && hee == old(hee) && hef == old(hef) && V == old(V) && F == old(F)
    {
      CornersInRange(g, c.e);
      match rule {
        case AsWritten =>
          var rep := vertices[c.v2].edge;
          assert SlotOk(g, g.halfEdges[rep], rep) && SlotOk(g, g.halfEdges[c.e], c.e) && SlotOk(g, g.halfEdges[c.en], c.en);
          assert halfEdges[c.etp].opposite == c.etpt;
          RepairAsWritten(g, c);
        case AllEnds =>
          assert halfEdges[c.etp].opposite == c.etpt && halfEdges[c.en].opposite == c.ent;
          assert halfEdges[c.etn].opposite == c.etnt;
          RepairAllEnds(g, c, va, vb);
      }
    }

    /** Line 385 as written: v2's representative becomes `et_prev->opposite`
        when its identifier is that of e or of e_next. */
    method RepairAsWritten(ghost g: Graph, c: Corners)
      requires WellFormed(g) && vertices == g.vertices && |halfEdges| == |g.halfEdges|
      requires 0 <= c.v2 < |vertices| && 0 <= c.e < |halfEdges| && 0 <= c.en < |halfEdges| && 0 <= c.etp < |halfEdges|
      requires 0 <= vertices[c.v2].edge < |halfEdges|
      requires halfEdges[c.e].id == c.e && halfEdges[c.en].id == c.en && halfEdges[c.etp].opposite == c.etpt
      requires forall h :: 0 <= h < |halfEdges| ==> halfEdges[h].id == g.halfEdges[h].id
      modifies this
      ensures |vertices| == |g.vertices|
      ensures forall v :: 0 <= v < |vertices| ==> vertices[v] == g.vertices[v].(edge := RepairedRep(g, c, AsWritten, v))
      ensures halfEdges == old(halfEdges) && faces == old(faces)
      ensures hev == old(hev) && hee == old(hee) && hef == old(hef) && V == old(V) && F == old(F)
    {
      var rep := vertices[c.v2].edge;
      assert SlotOk(g, g.halfEdges[rep], rep);
      if halfEdges[rep].id == halfEdges[c.e].id || halfEdges[rep].id == halfEdges[c.en].id {
        vertices := vertices[c.v2 := vertices[c.v2].(edge := halfEdges[c.etp].opposite)];
      }
    }

    /** The corrected repair: the three updates in order, each reading the
        representative the previous one left. */
    method RepairAllEnds(ghost g: Graph, c: Corners, va: int, vb: int)
      requires vertices == g.vertices && 0 <= c.v2 < |vertices| && 0 <= va < |vertices| && 0 <= vb < |vertices|
      requires va == Head(g, c.en) && vb == Head(g, c.etn)
      requires 0 <= c.etp < |halfEdges| && 0 <= c.en < |halfEdges| && 0 <= c.etn < |halfEdges|
      requires halfEdges[c.etp].opposite == c.etpt && halfEdges[c.en].opposite == c.ent && halfEdges[c.etn].opposite == c.etnt
      modifies this
      ensures |vertices| == |g.vertices|
      ensures forall v :: 0 <= v < |vertices| ==> vertices[v] == g.vertices[v].(edge := RepairedRep(g, c, AllEnds, v))
      ensures halfEdges == old(halfEdges) && faces == old(faces)
      ensures hev == old(hev) && hee == old(hee) && hef == old(hef) && V == old(V) && F == old(F)
    {
      if vertices[c.v2].edge == c.e || vertices[c.v2].edge == c.etn {
        vertices := vertices[c.v2 := vertices[c.v2].(edge := halfEdges[c.etp].opposite)];
      }
      if vertices[va].edge == c.ep {
        vertices := vertices[va := vertices[va].(edge := halfEdges[c.en].opposite)];
      }
      if vertices[vb].edge == c.etp {
        vertices := vertices[vb := vertices[vb].(edge := halfEdges[c.etn].opposite)];
      }
    }

    /** Lines 389-393: link the outer twins of the two triangles beside e
        to each other, in the source's order, so a later write wins. */
    method Relink(c: Corners)
      requires 0 <= c.ent < |halfEdges| && 0 <= c.ept < |halfEdges|
      requires 0 <= c.etnt < |halfEdges| && 0 <= c.etpt < |halfEdges|
      modifies this
      ensures halfEdges == Relinked(old(halfEdges), c)
      ensures vertices == old(vertices) && faces == old(faces)
      ensures hev == old(hev) && hee == old(hee) && hef == old(hef) && V == old(V) && F == old(F)
    {
      halfEdges := Relinked(halfEdges, c);
    }

    /** Lines 402-419: clear the liveness flags of the six half-edges of the
        two triangles beside e and drop them, the two faces fa and fb and
        the vertex v1 from the live collections. */
    method Retire(c: Corners, fa: int, fb: int)
      requires 0 <= c.e < |halfEdges| && 0 <= c.en < |halfEdges| && 0 <= c.ep < |halfEdges|
      requires 0 <= c.et < |halfEdges| && 0 <= c.etn < |halfEdges| && 0 <= c.etp < |halfEdges|
      modifies this
      ensures halfEdges == Retired(old(halfEdges), Six(c))
      ensures hev == old(hev) - {c.v1} && hee == old(hee) - Doomed(c) && hef == old(hef) - {fa, fb}
      ensures vertices == old(vertices) && faces == old(faces) && V == old(V) && F == old(F)
    {
      hev := hev - {c.v1};
      hef := hef - {fa};
      hef := hef - {fb};
      hee := hee - {c.e, c.en, c.ep, c.et, c.etn, c.etp};
      halfEdges := Retired(halfEdges, [c.e, c.en, c.ep, c.et, c.etn, c.etp]);
    }

    /** Lines 360-377: the half-edges and vertices collapseEdge reads around
        e before it changes anything, the far ends va and vb of e_next and
        et_next, and the faces fa and fb of e and its twin. */
    method ReadCorners(e: int) returns (c: Corners, va: int, vb: int, fa: int, fb: int)
      requires CollapseReady(Snapshot(), e)
      ensures c == CornersOf(Snapshot(), e)
      ensures va == Head(Snapshot(), c.en) && vb == Head(Snapshot(), c.etn)
      ensures fa == FaceOf(Snapshot(), e) && fb == FaceOf(Snapshot(), c.et)
    {
      ghost var g := Snapshot();
      CornersInRange(g, e);
      var et := halfEdges[e].opposite;
      var v1 := halfEdges[e].head;
      var v2 := halfEdges[et].head;
      var en := halfEdges[e].next;
      var ep := halfEdges[halfEdges[e].next].next;
      var ent := halfEdges[en].opposite;
      var ept := halfEdges[ep].opposite;
      var etn := halfEdges[et].next;
      var etp := halfEdges[halfEdges[et].next].next;
      var etnt := halfEdges[etn].opposite;
      var etpt := halfEdges[etp].opposite;
      c := Corners(e, en, ep, ent, ept, et, etn, etp, etnt, etpt, v1, v2);
      va := halfEdges[en].head;
      vb := halfEdges[etn].head;
      fa := halfEdges[e].face;
      fb := halfEdges[et].face;
    }

    /** collapseEdge(e): merge e's head v1 into its tail v2. It renames v1
        to v2 along the `next->opposite` walk around v1 (lines 378-383),
        repairs representatives under `rule` (lines 385-388 as written),
        links the outer twins of the two triangles beside e to each other
        (lines 389-393), and retires v1, the two faces and their six
        half-edges (lines 402-419). */
    method CollapseEdge(e: int, rule: RepairRule)
      requires CollapseReady(Snapshot(), e)
      modifies this
      ensures Snapshot() == Collapse(old(Snapshot()), e, rule)
      ensures V == old(V) && F == old(F)
    {
      ghost var g := Snapshot();
      var corners, va, vb, fa, fb := ReadCorners(e);
      CornersInRange(g, e);
      var v1, v2 := corners.v1, corners.v2;
      assert SlotOk(g, g.halfEdges[vertices[v1].edge], vertices[v1].edge);
      ghost var walk := RenameHeads(halfEdges[vertices[v1].edge].opposite, v2);
      assert walk == HeadWalk(g, e);
      RepairReps(g, corners, va, vb, rule);
      Relink(corners);
      Retire(corners, fa, fb);
      CollapseSlots(g, e, rule, corners, walk);
      CollapseVertices(g, e, rule, vertices);
      ghost var r := Collapse(g, e, rule);
      assert halfEdges == r.halfEdges && vertices == r.vertices && faces == r.faces;
      assert hev == r.hev && hee == r.hee && hef == r.hef;
    }

    /** Lines 440-446: collapse the drawn half-edge e that canEdgeCollapse
        accepted; the run of the value model goes on from the collapsed
        graph with the rejection counter reset. */
    method Accept(e: int, target: int, rand: nat -> nat, draws: nat, timeout: nat, rule: RepairRule)
      requires WellFormed(Snapshot()) && timeout <= MaxTimeout + 1 && AboveTarget(Snapshot(), target)
      requires |hee| > 0 && e == Drawn(Snapshot(), rand, draws) && CanCollapse(Snapshot(), e)
      modifies this
      ensures WellFormed(Snapshot()) && |hee| < old(|hee|)
      ensures Run(Snapshot(), target, rand, draws + 1, 0, rule).g == Run(old(Snapshot()), target, rand, draws, timeout, rule).g
      ensures V == old(V) && F == old(F)
    {
      ghost var g := Snapshot();
      RunAccepts(g, target, rand, draws, timeout, rule);
      StrictSubsetSmaller(Collapse(g, e, rule).hee, g.hee);
      CollapseEdge(e, rule);
    }

    /** Lines 447-456: the drawn half-edge e was rejected; stop once the
        counter was above MaxTimeout, otherwise count the rejection. */
    method Reject(e: int, target: int, rand: nat -> nat, draws: nat, timeout: nat, rule: RepairRule) returns (stop: bool, next: nat)
      requires WellFormed(Snapshot()) && timeout <= MaxTimeout + 1 && AboveTarget(Snapshot(), target)
      requires |hee| > 0 && e == Drawn(Snapshot(), rand, draws) && !CanCollapse(Snapshot(), e)
      ensures stop <==> timeout > MaxTimeout
      ensures next == if stop then timeout else timeout + 1
      ensures stop ==> Snapshot() == Run(Snapshot(), target, rand, draws, timeout, rule).g
      ensures timeout <= MaxTimeout ==>
        Run(Snapshot(), target, rand, draws + 1, timeout + 1, rule).g == Run(Snapshot(), target, rand, draws, timeout, rule).g
    {
      RejectEnds(Snapshot(), target, rand, draws, timeout, rule);
      if timeout > MaxTimeout {
        return true, timeout;
      }
      return false, timeout + 1;
    }

    /** One iteration of collapseRandomEdges (lines 429-459), from a graph
        with more than `target` live faces: draw, then collapse or count the
        rejection. It reports whether the loop stops, and the run of the
        value model from the new state ends where the run from the old one
        does. */
    method Attempt(target: int, rand: nat -> nat, draws: nat, timeout: nat, rule: RepairRule) returns (stop: bool, next: nat)
      requires WellFormed(Snapshot()) && timeout <= MaxTimeout + 1 && AboveTarget(Snapshot(), target)
      modifies this
      ensures WellFormed(Snapshot()) && next <= MaxTimeout + 1
      ensures stop ==> Snapshot() == Run(old(Snapshot()), target, rand, draws, timeout, rule).g
      ensures !stop ==> (next == 0 && |hee| < old(|hee|)) || (next == timeout + 1 && hee == old(hee))
      ensures !stop ==>
        Run(Snapshot(), target, rand, draws + 1, next, rule).g == Run(old(Snapshot()), target, rand, draws, timeout, rule).g
      ensures V == old(V) && F == old(F)
    {
      ghost var g := Snapshot();
      if |hee| == 0 {
        // The source divides by zero here; the model stops.
        RunNoEdges(g, target, rand, draws, timeout, rule);
        return true, timeout;
      }
      var e := Pick(Snapshot(), rand(draws) % |hee|);
      var ok := CanEdgeCollapse(e);
      if ok {
        Accept(e, target, rand, draws, timeout, rule);
        return false, 0;
      }
      stop, next := Reject(e, target, rand, draws, timeout, rule);
    }

    /** collapseRandomEdges(faceCnt) (lines 423-461): while more than
        `target` faces are live, draw a live half-edge with the injected
        random source, collapse it when canEdgeCollapse accepts it, and give
        up after more than MaxTimeout rejections in a row. The final graph
        is the one the value model's run reaches. */
    method CollapseRandomEdges(target: int, rand: nat -> nat, rule: RepairRule)
      requires WellFormed(Snapshot())
      modifies this
      ensures Snapshot() == Driver.CollapseRandomEdges(old(Snapshot()), target, rand, rule).g
      ensures V == old(V) && F == old(F)
    {
      ghost var g0 := Snapshot();
      var draws: nat := 0;
      var timeout: nat := 0;
      while target >= 0 && |hef| > target
        invariant WellFormed(Snapshot()) && timeout <= MaxTimeout + 1
        invariant Run(Snapshot(), target, rand, draws, timeout, rule).g == Run(g0, target, rand, 0, 0, rule).g
        invariant V == old(V) && F == old(F)
        decreases |hee|, MaxTimeout + 1 - timeout
      {
        var stop, next := Attempt(target, rand, draws, timeout, rule);
        if stop {
          return;
        }
        draws, timeout := draws + 1, next;
      }
    }

    /** convertMesh (lines 477-596) on an empty arena: the vertex loop and
        the face loop leave the records and live collections of the built
        graph, and V and F are cleared. */
    method ConvertMesh()
      requires vertices == [] && halfEdges == [] && faces == [] && hev == {} && hee == {} && hef == {}
      requires WellIndexed(|V|, F)
      modifies this
      ensures Snapshot() == Build(old(V), old(F))
      ensures V == [] && F == []
    {
      var vs, es, fs, hv, he, hf := BuildArena(V, F);
      vertices, halfEdges, faces, hev, hee, hef := vs, es, fs, hv, he, hf;
      V, F := [], [];
    }

    /** revertMesh (lines 598-637): append the position of every live
        vertex to V, numbering them from 1 in a map keyed by position, then
        one triangle per live face to F; the half-edge graph is untouched. */
    method RevertMesh()
      requires Readable(Snapshot())
      modifies this
      ensures FaceVertex(V, F) == Revert.RevertMesh(old(Snapshot()), FaceVertex(old(V), old(F)))
      ensures Snapshot() == old(Snapshot())
    {
      ghost var g := Snapshot();
      var indices := AppendVertices(g);
      AppendFaces(g, indices);
    }

    /** revertMesh's first loop (lines 602-614). */
    method AppendVertices(ghost g: Graph) returns (indices: map<Position, int>)
      requires g == Snapshot() && Readable(g)
      modifies this
      ensures V == old(V) + seq(|LiveVertices(g)|, j requires 0 <= j < |LiveVertices(g)| => g.vertices[LiveVertices(g)[j]].pos)
      ensures indices == VertexIndices(g)
      ensures F == old(F) && Snapshot() == g
    {
      var vs := LiveVertices(Snapshot());
      indices := map[];
      var i := 0;
      while i < |vs|
        invariant 0 <= i <= |vs| && Snapshot() == g
        invariant V == old(V) + seq(i, j requires 0 <= j < i => g.vertices[vs[j]].pos)
        invariant indices == Indices(g, vs, i) && F == old(F)
      {
        var p := vertices[vs[i]].pos;
        V := V + [p];
        indices := indices[p := i + 1];
        i := i + 1;
      }
    }

    /** revertMesh's second loop (lines 618-632), with the index map of the first. */
    method AppendFaces(ghost g: Graph, indices: map<Position, int>)
      requires g == Snapshot() && Readable(g)
      modifies this
      ensures F == old(F) + seq(|LiveFaces(g)|, j requires 0 <= j < |LiveFaces(g)| => FaceTriangle(g, indices, LiveFaces(g)[j]))
      ensures V == old(V) && Snapshot() == g
    {
      var fs := LiveFaces(Snapshot());
      var k := 0;
      while k < |fs|
        invariant 0 <= k <= |fs| && Snapshot() == g && V == old(V)
        invariant F == old(F) + seq(k, j requires 0 <= j < k => FaceTriangle(g, indices, fs[j]))
      {
        var e := faces[fs[k]].edge;
        var h3 := halfEdges[e].head;
        var h2 := halfEdges[halfEdges[e].next].head;
        var h1 := halfEdges[halfEdges[halfEdges[e].next].next].head;
        F := F + [Triangle(Lookup(indices, vertices[h1].pos), Lookup(indices, vertices[h2].pos), Lookup(indices, vertices[h3].pos))];
        k := k + 1;
      }
    }
  }
}

/** The collapse executor (collapseEdge) as a function over a graph
    snapshot, and what it does to the mesh invariants. */
module EdgeCollapse {
  import opened MeshTypes
  import opened Walker

  /** The half-edges and vertices collapseEdge names before it changes
      anything (lines 362-375): the collapsed half-edge e, its next and
      previous half-edges and their twins, the same four for e's twin et,
      the absorbed vertex v1 (e's head) and the surviving vertex v2 (et's
      head). */
  datatype Corners = Corners(
    e: int, en: int, ep: int, ent: int, ept: int,
    et: int, etn: int, etp: int, etnt: int, etpt: int,
    v1: int, v2: int)

  function CornersOf(g: Graph, e: int): Corners
  {
    var et := Opp(g, e);
    var en := Next(g, e);
    var ep := Next(g, en);
    var etn := Next(g, et);
    var etp := Next(g, etn);
    Corners(e, en, ep, Opp(g, en), Opp(g, ep), et, etn, etp, Opp(g, etn), Opp(g, etp), Head(g, e), Head(g, et))
  }

  /** What collapseEdge dereferences: a live half-edge of the arena whose
      endpoints both have a representative. canEdgeCollapse establishes it
      (CanCollapseReady). */
  predicate CollapseReady(g: Graph, e: int)
  {
    && WellFormed(g)
    && 0 <= e < |g.halfEdges|
    && g.halfEdges[e].alive
    && Rep(g, Head(g, e)) != Null
    && Rep(g, Head(g, Opp(g, e))) != Null
  }

  lemma CanCollapseReady(g: Graph, e: int)
    requires WellFormed(g) && 0 <= e < |g.halfEdges| && CanCollapse(g, e)
    ensures CollapseReady(g, e)
    ensures Rep(g, Head(g, e)) in g.hee && Rep(g, Head(g, Opp(g, e))) in g.hee
  {
    CanCollapseLiveEnds(g, e);
  }

  /** The half-edges whose head collapseEdge rewrites (lines 378-383): the
      walk from the twin of v1's representative by `next->opposite`. */
  function HeadWalk(g: Graph, e: int): seq<int>
    requires CollapseReady(g, e)
  {
    var first := Opp(g, Rep(g, Head(g, e)));
    Walk(g, NextOpposite, first, first, |g.halfEdges|)
  }

  /** The six half-edges of the two triangles beside the collapsed edge. */
  function Doomed(c: Corners): set<int>
  {
    {c.e, c.en, c.ep, c.et, c.etn, c.etp}
  }

  /** How collapseEdge repairs vertex representatives that point at one of
      the six retired half-edges. */
  datatype RepairRule =
      /** Lines 385-388 as written: only v2's representative, and only when
          it is edgeToRemove or e_next; it becomes et_prev's twin. */
    | AsWritten
      /** The three checks a complete repair makes, in this order: v2's
          representative, when it is edgeToRemove or et_next, becomes
          et_prev's twin; the representative of e_next's head, when it is
          e_prev, becomes e_next's twin; the representative of et_next's
          head, when it is et_prev, becomes et_next's twin. Each
          replacement leaves the same vertex after the collapse. */
    | AllEnds

  /** The representative of vertex v after the collapse of c.e. */
  function RepairedRep(g: Graph, c: Corners, rule: RepairRule, v: int): int
  {
    var x := Rep(g, v);
    match rule
    case AsWritten => if v == c.v2 && (x == c.e || x == c.en) then c.etpt else x
    case AllEnds => AllEndsRep(c, v, x, Head(g, c.en), Head(g, c.etn))
  }

  /** The corrected repair of vertex v, whose representative was x, where va
      and vb are the heads of e_next and et_next: the three replacements in
      order, each seeing the representative the previous one left. */
  function AllEndsRep(c: Corners, v: int, x: int, va: int, vb: int): int
  {
    var x1 := if v == c.v2 && (x == c.e || x == c.etn) then c.etpt else x;
    var x2 := if v == va && x1 == c.ep then c.ent else x1;
    if v == vb && x2 == c.etp then c.etnt else x2
  }

  /** When x leaves v, the corrected repair keeps x unless it is retired, and
      otherwise replaces it by one of the outer twins. */
  lemma AllEndsRepCases(c: Corners, v: int, x: int, va: int, vb: int)
    requires c.e != c.etn && c.e != c.ep && c.e != c.etp && c.etn != c.ep && c.etn != c.etp && c.ep != c.etp
    requires c.ent !in Doomed(c) && c.ept !in Doomed(c) && c.etnt !in Doomed(c) && c.etpt !in Doomed(c)
    requires x != c.en && x != c.et
    requires (x == c.e || x == c.etn) ==> v == c.v2
    requires x == c.ep ==> v == va
    requires x == c.etp ==> v == vb
    ensures var y := AllEndsRep(c, v, x, va, vb);
      (y == x && x !in Doomed(c)) || y == c.etpt || y == c.ent || y == c.etnt
  {
  }

  /** The twin of h after the four assignments of lines 389-393, which run in
      that order, so a later one wins where two name the same half-edge. */
  function TwinAfter(es: seq<HalfEdgeSlot>, c: Corners, h: int): int
    requires 0 <= h < |es|
  {
    if h == c.etpt then c.etnt
    else if h == c.etnt then c.etpt
    else if h == c.ept then c.ent
    else if h == c.ent then c.ept
    else es[h].opposite
  }

  /** Half-edge slot h after collapseEdge: its head is v2 when it is on the
      head walk, its twin is re-linked, and it is retired when it is one of
      the six. Face, next and identifier never change. */
  function CollapsedSlot(g: Graph, c: Corners, walk: seq<int>, h: int): (s: HalfEdgeSlot)
    requires 0 <= h < |g.halfEdges|
    ensures s.face == g.halfEdges[h].face && s.next == g.halfEdges[h].next && s.id == g.halfEdges[h].id
    ensures s.head == c.v2 || s.head == g.halfEdges[h].head
    ensures s.alive ==> g.halfEdges[h].alive
  {
    var s := g.halfEdges[h];
    s.(head := if h in walk then c.v2 else s.head,
       opposite := TwinAfter(g.halfEdges, c, h),
       alive := s.alive && h !in Doomed(c))
  }

  /** collapseEdge(e) under a repair rule: rewrite the heads along the walk
      around v1, repair representatives, re-link the four outer twins, and
      retire the six half-edges, the two faces and v1. The contract is the
      effect on every slot: nothing else changes. */
  function Collapse(g: Graph, e: int, rule: RepairRule): (r: Graph)
    requires CollapseReady(g, e)
    ensures |r.vertices| == |g.vertices| && |r.halfEdges| == |g.halfEdges| && r.faces == g.faces
    ensures forall v :: 0 <= v < |g.vertices| ==>
      r.vertices[v] == g.vertices[v].(edge := RepairedRep(g, CornersOf(g, e), rule, v))
    ensures forall h :: 0 <= h < |g.halfEdges| ==> r.halfEdges[h] == CollapsedSlot(g, CornersOf(g, e), HeadWalk(g, e), h)
    ensures r.hev == g.hev - {Head(g, e)}
    ensures r.hee == g.hee - Doomed(CornersOf(g, e))
    ensures r.hef == g.hef - {FaceOf(g, e), FaceOf(g, Opp(g, e))}
  {
    var c := CornersOf(g, e);
    var w := HeadWalk(g, e);
    var vs := seq(|g.vertices|, v requires 0 <= v < |g.vertices| => g.vertices[v].(edge := RepairedRep(g, c, rule, v)));
    var es := seq(|g.halfEdges|, h requires 0 <= h < |g.halfEdges| => CollapsedSlot(g, c, w, h));
    Graph(vs, es, g.faces, g.hev - {c.v1}, g.hee - Doomed(c), g.hef - {FaceOf(g, c.e), FaceOf(g, c.et)})
  }

  /** The handles collapseEdge reads around e are handles of the arena. */
  lemma CornersInRange(g: Graph, e: int)
    requires CollapseReady(g, e)
    ensures var c := CornersOf(g, e);
      && 0 <= c.en < |g.halfEdges| && 0 <= c.ep < |g.halfEdges|
      && 0 <= c.ent < |g.halfEdges| && 0 <= c.ept < |g.halfEdges|
      && 0 <= c.et < |g.halfEdges| && 0 <= c.etn < |g.halfEdges| && 0 <= c.etp < |g.halfEdges|
      && 0 <= c.etnt < |g.halfEdges| && 0 <= c.etpt < |g.halfEdges|
      && 0 <= c.v1 < |g.vertices| && 0 <= c.v2 < |g.vertices|
  {
    var c := CornersOf(g, e);
    assert SlotOk(g, g.halfEdges[e], e);
    assert SlotOk(g, g.halfEdges[c.en], c.en);
    assert SlotOk(g, g.halfEdges[c.ep], c.ep);
    assert SlotOk(g, g.halfEdges[c.et], c.et);
    assert SlotOk(g, g.halfEdges[c.etn], c.etn);
    assert SlotOk(g, g.halfEdges[c.etp], c.etp);
  }

  lemma CollapseSlotOk(g: Graph, e: int, rule: RepairRule, h: int)
    requires CollapseReady(g, e) && 0 <= h < |g.halfEdges|
    ensures SlotOk(Collapse(g, e, rule), Collapse(g, e, rule).halfEdges[h], h)
  {
    CornersInRange(g, e);
    assert SlotOk(g, g.halfEdges[h], h);
  }

  /** A collapse keeps the arena a consistent memory image whatever the
      mesh: it only ever stores handles it read from the arena. */
  lemma CollapseWellFormed(g: Graph, e: int, rule: RepairRule)
    requires CollapseReady(g, e)
    ensures WellFormed(Collapse(g, e, rule))
  {
    var c := CornersOf(g, e);
    var r := Collapse(g, e, rule);
    CornersInRange(g, e);
    forall h | 0 <= h < |r.halfEdges|
      ensures SlotOk(r, r.halfEdges[h], h)
    {
      CollapseSlotOk(g, e, rule, h);
    }
    forall v | 0 <= v < |r.vertices|
      ensures Null <= r.vertices[v].edge < |r.halfEdges|
    {
      assert Null <= g.vertices[v].edge < |g.halfEdges|;
    }
    assert r.hee == LiveSet(r.halfEdges) by {
      forall h ensures h in r.hee <==> h in LiveSet(r.halfEdges) {
        if 0 <= h < |r.halfEdges| {
          assert r.halfEdges[h].alive == (g.halfEdges[h].alive && h !in Doomed(c));
        }
      }
    }
  }

  /** The two triangles beside e share only e, the outer triangles across
      each of them are two different faces, and e joins two distinct
      vertices. The feasibility test does not imply this on every mesh: on
      a mesh with coincident positions it can accept an edge of a
      two-triangle pillow. */
  predicate CollapsePre(g: Graph, e: int)
  {
    var c := CornersOf(g, e);
    && c.ent != c.etn && c.ent != c.etp
    && c.ept != c.etn && c.ept != c.etp
    && FaceOf(g, c.ent) != FaceOf(g, c.ept)
    && FaceOf(g, c.etnt) != FaceOf(g, c.etpt)
    && c.v1 != c.v2
  }

  /** What Valid says about one live half-edge. */
  lemma HalfEdgeFacts(g: Graph, h: int)
    requires Valid(g) && h in g.hee
    ensures Next(g, h) in g.hee && Next(g, h) != h && Next(g, Next(g, Next(g, h))) == h
    ensures FaceOf(g, Next(g, h)) == FaceOf(g, h)
    ensures Opp(g, h) in g.hee && Opp(g, Opp(g, h)) == h && FaceOf(g, Opp(g, h)) != FaceOf(g, h)
    ensures Head(g, Opp(g, h)) == Tail(g, h)
    ensures Head(g, h) in g.hev && FaceOf(g, h) in g.hef
  {
    assert LiveEdgeOk(g, h);
  }

  /** Two live half-edges of one face lie on one 3-cycle. */
  lemma SameFace(g: Graph, h: int, k: int)
    requires Valid(g) && h in g.hee && k in g.hee && FaceOf(g, h) == FaceOf(g, k)
    ensures k == h || k == Next(g, h) || k == Next(g, Next(g, h))
  {
    assert LiveEdgeOk(g, h) && LiveEdgeOk(g, k);
    var f0 := FaceEdge(g, FaceOf(g, h));
    assert LiveFaceOk(g, FaceOf(g, h));
    assert LiveEdgeOk(g, f0);
    HalfEdgeFacts(g, Next(g, f0));
  }

  /** The ten half-edges around e are live, with the expected next and twin
      links. */
  lemma CornersLive(g: Graph, e: int)
    requires Valid(g) && CollapseReady(g, e)
    ensures var c := CornersOf(g, e);
      && c.e in g.hee && c.en in g.hee && c.ep in g.hee
      && c.et in g.hee && c.etn in g.hee && c.etp in g.hee
      && c.ent in g.hee && c.ept in g.hee && c.etnt in g.hee && c.etpt in g.hee
      && Next(g, c.e) == c.en && Next(g, c.en) == c.ep && Next(g, c.ep) == c.e
      && Next(g, c.et) == c.etn && Next(g, c.etn) == c.etp && Next(g, c.etp) == c.et
      && Opp(g, c.e) == c.et && Opp(g, c.et) == c.e
      && Opp(g, c.en) == c.ent && Opp(g, c.ent) == c.en
      && Opp(g, c.ep) == c.ept && Opp(g, c.ept) == c.ep
      && Opp(g, c.etn) == c.etnt && Opp(g, c.etnt) == c.etn
      && Opp(g, c.etp) == c.etpt && Opp(g, c.etpt) == c.etp
  {
    var c := CornersOf(g, e);
    assert e in g.hee;
    HalfEdgeFacts(g, e);
    HalfEdgeFacts(g, c.en);
    HalfEdgeFacts(g, c.et);
    HalfEdgeFacts(g, c.etn);
    HalfEdgeFacts(g, c.ep);
    HalfEdgeFacts(g, c.etp);
  }

  /** The faces around e: the two triangles beside e are distinct live
      faces, and each outer twin lies on neither. */
  lemma CornersFaces(g: Graph, e: int)
    requires Valid(g) && CollapseReady(g, e)
    ensures var c := CornersOf(g, e);
      var f1, f2 := FaceOf(g, c.e), FaceOf(g, c.et);
      && FaceOf(g, c.en) == f1 && FaceOf(g, c.ep) == f1
      && FaceOf(g, c.etn) == f2 && FaceOf(g, c.etp) == f2
      && f1 != f2 && f1 in g.hef && f2 in g.hef
      && FaceOf(g, c.ent) != f1 && FaceOf(g, c.ept) != f1
      && FaceOf(g, c.etnt) != f2 && FaceOf(g, c.etpt) != f2
  {
    var c := CornersOf(g, e);
    CornersLive(g, e);
    HalfEdgeFacts(g, c.e);
    HalfEdgeFacts(g, c.en);
    HalfEdgeFacts(g, c.ep);
    HalfEdgeFacts(g, c.et);
    HalfEdgeFacts(g, c.etn);
    HalfEdgeFacts(g, c.etp);
  }

  /** The vertices around e: both ends are live, e_prev ends at v2 and
      et_prev at v1. */
  lemma CornersHeads(g: Graph, e: int)
    requires Valid(g) && CollapseReady(g, e)
    ensures var c := CornersOf(g, e);
      && c.v1 in g.hev && c.v2 in g.hev
      && Head(g, c.ep) == c.v2 && Head(g, c.etp) == c.v1
      && Tail(g, c.e) == c.v2 && Tail(g, c.et) == c.v1
  {
    var c := CornersOf(g, e);
    CornersLive(g, e);
    HalfEdgeFacts(g, c.e);
    HalfEdgeFacts(g, c.et);
  }

  /** The six retired half-edges are distinct, and the four outer twins are
      four distinct survivors. */
  lemma CornersDistinct(g: Graph, e: int)
    requires Valid(g) && CollapseReady(g, e) && CollapsePre(g, e)
    ensures var c := CornersOf(g, e);
      && |Doomed(c)| == 6
      && c.e != c.en && c.e != c.ep && c.en != c.ep && c.et != c.etn && c.et != c.etp && c.etn != c.etp
      && c.e !in {c.et, c.etn, c.etp} && c.en !in {c.et, c.etn, c.etp} && c.ep !in {c.et, c.etn, c.etp}
      && c.ent !in Doomed(c) && c.ept !in Doomed(c) && c.etnt !in Doomed(c) && c.etpt !in Doomed(c)
      && c.ent != c.ept && c.ent != c.etnt && c.ent != c.etpt
      && c.ept != c.etnt && c.ept != c.etpt && c.etnt != c.etpt
  {
    var c := CornersOf(g, e);
    CornersLive(g, e);
    CornersFaces(g, e);
    HalfEdgeFacts(g, c.e);
    HalfEdgeFacts(g, c.et);
    assert c.e != c.ep && c.et != c.etp;
    SixDistinct(c.e, c.en, c.ep, c.et, c.etn, c.etp);
  }

  /** Six pairwise distinct handles make a set of six. */
  lemma SixDistinct(a: int, b: int, c: int, d: int, e: int, f: int)
    requires a != b && a != c && b != c && d != e && d != f && e != f
    requires a !in {d, e, f} && b !in {d, e, f} && c !in {d, e, f}
    ensures |{a, b, c, d, e, f}| == 6
  {
    assert {a, b, c, d, e, f} == {a, b, c} + {d, e, f};
    assert |{a, b, c}| == 3;
    assert |{d, e, f}| == 3;
  }

  /** v1's incoming half-edges form one fan reached from its live
      representative: every live half-edge into v1 is on the head walk. */
  predicate SingleFan(g: Graph, e: int)
    requires CollapseReady(g, e)
  {
    && Rep(g, Head(g, e)) in g.hee
    && forall h :: h in g.hee && Head(g, h) == Head(g, e) ==> h in HeadWalk(g, e)
  }

  /** The setting in which collapseEdge keeps the mesh invariants: a valid
      mesh, an edge the feasibility test accepts, two triangles that share
      only that edge, and a single fan around v1. */
  predicate Setting(g: Graph, e: int)
  {
    && Valid(g)
    && 0 <= e < |g.halfEdges|
    && CanCollapse(g, e)
    && CollapsePre(g, e)
    && CollapseReady(g, e)
    && SingleFan(g, e)
  }

  /** What the proofs below use of the setting. */
  predicate Ready(g: Graph, e: int)
  {
    && Valid(g)
    && CollapseReady(g, e)
    && CollapsePre(g, e)
    && SingleFan(g, e)
  }

  lemma SettingReady(g: Graph, e: int)
    requires Valid(g) && 0 <= e < |g.halfEdges| && CanCollapse(g, e) && CollapsePre(g, e)
    requires CollapseReady(g, e) && forall h :: h in g.hee && Head(g, h) == Head(g, e) ==> h in HeadWalk(g, e)
    ensures Setting(g, e) && Ready(g, e)
  {
    CanCollapseReady(g, e);
  }

  /** Every half-edge on the head walk is live and heads v1, when v1's
      representative is live. */
  lemma HeadWalkIntoV1(g: Graph, e: int)
    requires Valid(g) && CollapseReady(g, e) && Rep(g, Head(g, e)) in g.hee
    ensures forall h :: h in HeadWalk(g, e) ==> h in g.hee && Head(g, h) == Head(g, e)
  {
    var v1 := Head(g, e);
    var rep := Rep(g, v1);
    var first := Opp(g, rep);
    var w := HeadWalk(g, e);
    WalkShape(g, NextOpposite, first, first, |g.halfEdges|);
    HalfEdgeFacts(g, e);
    HalfEdgeFacts(g, rep);
    assert RepOk(g, v1);
    var k := 0;
    while k < |w|
      invariant 0 <= k <= |w|
      invariant forall j :: 0 <= j < k ==> w[j] in g.hee && Head(g, w[j]) == v1
    {
      if k > 0 {
        var p := w[k - 1];
        HalfEdgeFacts(g, p);
        HalfEdgeFacts(g, Next(g, p));
        assert w[k] == Opp(g, Next(g, p));
      }
      k := k + 1;
    }
  }

  /** On a valid mesh with v1's representative live, the head walk is not
      empty and closes: its last half-edge steps back to the twin of the
      representative it started from. */
  lemma HeadWalkCloses(g: Graph, e: int)
    requires Valid(g) && CollapseReady(g, e) && Rep(g, Head(g, e)) in g.hee
    ensures var w := HeadWalk(g, e);
      w != [] && w[0] == Opp(g, Rep(g, Head(g, e)))
      && Step(g, NextOpposite, w[|w| - 1]) == Opp(g, Rep(g, Head(g, e)))
  {
    var first := Opp(g, Rep(g, Head(g, e)));
    HalfEdgeFacts(g, Rep(g, Head(g, e)));
    WalkCloses(g, NextOpposite, first);
    WalkShape(g, NextOpposite, first, first, |g.halfEdges|);
  }

  /** v1 renamed to v2. */
  function Renamed(c: Corners, v: int): int
  {
    if v == c.v1 then c.v2 else v
  }

  /** The head rewrite renames v1 to v2 in every live half-edge and leaves
      dead half-edges alone. */
  lemma HeadAfter(g: Graph, e: int, rule: RepairRule, h: int)
    requires Ready(g, e) && 0 <= h < |g.halfEdges|
    ensures Head(Collapse(g, e, rule), h) == if h in g.hee then Renamed(CornersOf(g, e), Head(g, h)) else Head(g, h)
  {
    HeadWalkIntoV1(g, e);
    var c := CornersOf(g, e);
    var r := Collapse(g, e, rule);
    assert r.halfEdges[h] == CollapsedSlot(g, c, HeadWalk(g, e), h);
    if h in g.hee && Head(g, h) == c.v1 {
      assert h in HeadWalk(g, e);
    }
  }

  /** The tail of a live half-edge is renamed the same way. */
  lemma TailAfter(g: Graph, e: int, rule: RepairRule, h: int)
    requires Ready(g, e) && h in g.hee
    ensures Tail(Collapse(g, e, rule), h) == Renamed(CornersOf(g, e), Tail(g, h))
  {
    var r := Collapse(g, e, rule);
    HalfEdgeFacts(g, h);
    HalfEdgeFacts(g, Next(g, h));
    var p := Next(g, Next(g, h));
    assert Next(r, h) == Next(g, h);
    assert Next(r, Next(g, h)) == p;
    HeadAfter(g, e, rule, p);
  }

  /** Links, faces and twins of the survivors as seen after the collapse. */
  lemma LinksAfter(g: Graph, e: int, rule: RepairRule, h: int)
    requires CollapseReady(g, e) && 0 <= h < |g.halfEdges|
    ensures var r, c := Collapse(g, e, rule), CornersOf(g, e);
      && Next(r, h) == Next(g, h) && FaceOf(r, h) == FaceOf(g, h)
      && Opp(r, h) == TwinAfter(g.halfEdges, c, h)
  {
    var r := Collapse(g, e, rule);
    assert r.halfEdges[h] == CollapsedSlot(g, CornersOf(g, e), HeadWalk(g, e), h);
  }

  /** A live half-edge off the 3-cycle of a lies on another face. */
  lemma OtherFace(g: Graph, a: int, h: int)
    requires Valid(g) && a in g.hee && h in g.hee
    requires h != a && h != Next(g, a) && h != Next(g, Next(g, a))
    ensures FaceOf(g, h) != FaceOf(g, a)
  {
    if FaceOf(g, h) == FaceOf(g, a) {
      SameFace(g, a, h);
    }
  }

  /** A survivor of the collapse was live, lies on neither removed face, and
      so do the other two half-edges of its triangle. */
  lemma Survivor(g: Graph, e: int, rule: RepairRule, h: int)
    requires Valid(g) && CollapseReady(g, e) && h in Collapse(g, e, rule).hee
    ensures var c := CornersOf(g, e);
      && h in g.hee && h !in Doomed(c)
      && FaceOf(g, h) != FaceOf(g, c.e) && FaceOf(g, h) != FaceOf(g, c.et)
      && Next(g, h) !in Doomed(c) && Next(g, Next(g, h)) !in Doomed(c)
  {
    var c := CornersOf(g, e);
    CornersLive(g, e);
    CornersFaces(g, e);
    assert h in g.hee && h !in Doomed(c);
    OtherFace(g, c.e, h);
    OtherFace(g, c.et, h);
    HalfEdgeFacts(g, h);
    HalfEdgeFacts(g, Next(g, h));
  }

  /** A collapse retires exactly 6 half-edges, 2 faces and 1 vertex, and so
      keeps the Euler characteristic V - E + F (E = |HEE| / 2). */
  lemma CollapseCounts(g: Graph, e: int, rule: RepairRule)
    requires Valid(g) && CollapseReady(g, e) && CollapsePre(g, e)
    ensures var r := Collapse(g, e, rule);
      && |r.hee| == |g.hee| - 6
      && |r.hef| == |g.hef| - 2
      && |r.hev| == |g.hev| - 1
      && |r.hev| - |r.hee| / 2 + |r.hef| == |g.hev| - |g.hee| / 2 + |g.hef|
  {
    var c := CornersOf(g, e);
    CornersLive(g, e);
    CornersFaces(g, e);
    CornersDistinct(g, e);
    CornersHeads(g, e);
    assert Doomed(c) <= g.hee;
    assert |g.hee - Doomed(c)| == |g.hee| - |Doomed(c)|;
    assert {FaceOf(g, e), FaceOf(g, Opp(g, e))} <= g.hef;
    assert |g.hef - {FaceOf(g, e), FaceOf(g, Opp(g, e))}| == |g.hef| - 2;
  }

  /** The assertion of lines 395-397 holds: after the head rewrite no
      half-edge still in HEE, the six about to be retired included, heads
      v1. */
  lemma HeadRewriteComplete(g: Graph, e: int, rule: RepairRule)
    requires Ready(g, e)
    ensures forall h :: h in g.hee ==> Head(Collapse(g, e, rule), h) != Head(g, e)
  {
    forall h | h in g.hee
      ensures Head(Collapse(g, e, rule), h) != Head(g, e)
    {
      HeadAfter(g, e, rule, h);
    }
  }

  /** The assertion loop at lines 395-397 as the engine evaluates it: no
      half-edge of HEE heads, after the head rewrite, a vertex equal to v1,
      where HEVertex's operator!= compares vertices by position. */
  predicate PositionsAsserted(g: Graph, e: int, rule: RepairRule)
    requires Ready(g, e)
  {
    CollapseWellFormed(g, e, rule);
    var r := Collapse(g, e, rule);
    forall h :: h in g.hee ==> r.vertices[Head(r, h)].pos != g.vertices[Head(g, e)].pos
  }

  /** The assertion at lines 395-397 holds exactly when v2, and every other
      vertex a live half-edge heads, lies at a position other than v1's; it
      fails on a zero-length edge or beside a second vertex at v1's
      position, neither of which a valid mesh rules out. */
  lemma PositionsAssertedIff(g: Graph, e: int, rule: RepairRule)
    requires Ready(g, e)
    ensures PositionsAsserted(g, e, rule) <==>
      && g.vertices[Head(g, Opp(g, e))].pos != g.vertices[Head(g, e)].pos
      && forall h :: h in g.hee && Head(g, h) != Head(g, e) ==>
           g.vertices[Head(g, h)].pos != g.vertices[Head(g, e)].pos
  {
    var c := CornersOf(g, e);
    var r := Collapse(g, e, rule);
    CollapseWellFormed(g, e, rule);
    assert e in g.hee;
    forall h | h in g.hee
      ensures r.vertices[Head(r, h)].pos == g.vertices[Renamed(c, Head(g, h))].pos
    {
      HeadAfter(g, e, rule, h);
    }
  }

  /** A survivor keeps its 3-cycle and its place in its face's cycle. */
  lemma CycleAfter(g: Graph, e: int, rule: RepairRule, h: int)
    requires Ready(g, e) && h in Collapse(g, e, rule).hee
    ensures var r := Collapse(g, e, rule);
      var f0 := FaceEdge(r, FaceOf(r, h));
      && Next(r, h) in r.hee
      && Next(r, h) != h
      && Next(r, Next(r, Next(r, h))) == h
      && FaceOf(r, Next(r, h)) == FaceOf(r, h)
      && (h == f0 || h == Next(r, f0) || h == Next(r, Next(r, f0)))
  {
    Survivor(g, e, rule, h);
    assert LiveEdgeOk(g, h);
    var f0 := FaceEdge(g, FaceOf(g, h));
    assert LiveFaceOk(g, FaceOf(g, h));
    LinksAfter(g, e, rule, h);
    LinksAfter(g, e, rule, Next(g, h));
    LinksAfter(g, e, rule, Next(g, Next(g, h)));
    LinksAfter(g, e, rule, f0);
    LinksAfter(g, e, rule, Next(g, f0));
    HalfEdgeFacts(g, f0);
  }

  /** A survivor's twin after the re-linking is a survivor whose twin it
      is, on another face, heading where it starts. */
  lemma TwinOkAfter(g: Graph, e: int, rule: RepairRule, h: int)
    requires Ready(g, e) && h in Collapse(g, e, rule).hee
    ensures var r := Collapse(g, e, rule);
      && Opp(r, h) in r.hee
      && Opp(r, Opp(r, h)) == h
      && FaceOf(r, Opp(r, h)) != FaceOf(r, h)
      && Head(r, Opp(r, h)) == Tail(r, h)
  {
    var c := CornersOf(g, e);
    Survivor(g, e, rule, h);
    TwinAfterFacts(g, e, h);
    var o := TwinAfter(g.halfEdges, c, h);
    LinksAfter(g, e, rule, h);
    TailAfter(g, e, rule, h);
    LinksAfter(g, e, rule, o);
    HeadAfter(g, e, rule, o);
  }

  /** On the graph before the collapse: the re-linked twin o of a survivor h
      is a survivor whose re-linked twin is h, on another face, heading
      where h starts once v1 is renamed to v2. */
  lemma TwinAfterFacts(g: Graph, e: int, h: int)
    requires Valid(g) && CollapseReady(g, e) && CollapsePre(g, e)
    requires h in g.hee && h !in Doomed(CornersOf(g, e))
    ensures var c := CornersOf(g, e);
      var o := TwinAfter(g.halfEdges, c, h);
      && 0 <= o < |g.halfEdges|
      && o in g.hee && o !in Doomed(c)
      && TwinAfter(g.halfEdges, c, o) == h
      && FaceOf(g, o) != FaceOf(g, h)
      && Renamed(c, Head(g, o)) == Renamed(c, Tail(g, h))
  {
    var c := CornersOf(g, e);
    CornersLive(g, e);
    CornersFaces(g, e);
    CornersDistinct(g, e);
    CornersHeads(g, e);
    HalfEdgeFacts(g, h);
    if h == c.ent {
      HalfEdgeFacts(g, c.ep);
      HalfEdgeFacts(g, c.ent);
    } else if h == c.ept {
      HalfEdgeFacts(g, c.en);
      HalfEdgeFacts(g, c.ept);
    } else if h == c.etnt {
      HalfEdgeFacts(g, c.etp);
      HalfEdgeFacts(g, c.etnt);
    } else if h == c.etpt {
      HalfEdgeFacts(g, c.etn);
      HalfEdgeFacts(g, c.etpt);
    } else {
      var o := Opp(g, h);
      assert TwinAfter(g.halfEdges, c, h) == o && Opp(g, o) == h;
      assert o != c.e && o != c.en && o != c.ep;
      assert o != c.et && o != c.etn && o != c.etp;
    }
  }

  /** A survivor's head vertex and face survive. */
  lemma IncidentAfter(g: Graph, e: int, rule: RepairRule, h: int)
    requires Ready(g, e) && h in Collapse(g, e, rule).hee
    ensures var r := Collapse(g, e, rule);
      Head(r, h) in r.hev && FaceOf(r, h) in r.hef
  {
    CornersHeads(g, e);
    Survivor(g, e, rule, h);
    HalfEdgeFacts(g, h);
    HeadAfter(g, e, rule, h);
    LinksAfter(g, e, rule, h);
  }

  /** A surviving face still names one of its own live half-edges. */
  lemma FaceAfter(g: Graph, e: int, rule: RepairRule, f: int)
    requires Ready(g, e) && f in Collapse(g, e, rule).hef
    ensures LiveFaceOk(Collapse(g, e, rule), f)
  {
    var c := CornersOf(g, e);
    CornersLive(g, e);
    CornersFaces(g, e);
    assert LiveFaceOk(g, f);
    var k := FaceEdge(g, f);
    assert k !in Doomed(c);
    LinksAfter(g, e, rule, k);
  }

  /** A surviving vertex's representative, when set, still leaves it: the
      head rewrite renames only v1, which is removed. */
  lemma RepAfter(g: Graph, e: int, rule: RepairRule, v: int)
    requires Ready(g, e) && v in Collapse(g, e, rule).hev
    ensures RepOk(Collapse(g, e, rule), v)
  {
    var c := CornersOf(g, e);
    var r := Collapse(g, e, rule);
    CornersLive(g, e);
    CornersHeads(g, e);
    assert RepOk(g, v);
    var x := Rep(g, v);
    var y := Rep(r, v);
    assert y == RepairedRep(g, c, rule, v);
    if y == x {
      if x != Null {
        assert SlotOk(g, g.halfEdges[x], x);
        var n := Next(g, x);
        assert SlotOk(g, g.halfEdges[n], n);
        LinksAfter(g, e, rule, x);
        LinksAfter(g, e, rule, n);
        HeadAfter(g, e, rule, Next(g, n));
      }
    } else if y == c.etpt {
      TailAfter(g, e, rule, c.etpt);
      HalfEdgeFacts(g, c.etpt);
    } else if y == c.ent {
      TailAfter(g, e, rule, c.ent);
      HalfEdgeFacts(g, c.ent);
    } else {
      assert y == c.etnt;
      TailAfter(g, e, rule, c.etnt);
      HalfEdgeFacts(g, c.etnt);
    }
  }

  /** The invariants of a closed triangle mesh survive the collapse of an
      edge in its setting, under either repair rule. */
  lemma CollapseKeepsValid(g: Graph, e: int, rule: RepairRule)
    requires Ready(g, e)
    ensures Valid(Collapse(g, e, rule))
  {
    var r := Collapse(g, e, rule);
    CollapseWellFormed(g, e, rule);
    forall h | h in r.hee
      ensures LiveEdgeOk(r, h)
    {
      CycleAfter(g, e, rule, h);
      TwinOkAfter(g, e, rule, h);
      IncidentAfter(g, e, rule, h);
    }
    forall f | f in r.hef
      ensures LiveFaceOk(r, f)
    {
      FaceAfter(g, e, rule, f);
    }
    forall v | v in r.hev
      ensures RepOk(r, v)
    {
      RepAfter(g, e, rule, v);
    }
    CollapseCounts(g, e, rule);
  }

  /** The second test of line 385 never fires: e_next leaves v1, so on a
      valid mesh it is never v2's representative. */
  lemma ENextNeverV2Rep(g: Graph, e: int)
    requires Ready(g, e)
    ensures Rep(g, CornersOf(g, e).v2) != CornersOf(g, e).en
  {
    var c := CornersOf(g, e);
    CornersLive(g, e);
    CornersHeads(g, e);
    assert RepOk(g, c.v2);
  }

  /** As written, the repair misses retired representatives: a surviving
      vertex whose representative is one of the six, other than
      edgeToRemove itself, is left with a dead representative. On a valid
      mesh this happens exactly for v2 with et_next, for e_next's head with
      e_prev and for et_next's head with et_prev. */
  lemma AsWrittenLeavesDeadRep(g: Graph, e: int, v: int)
    requires Ready(g, e)
    requires v in Collapse(g, e, AsWritten).hev
    requires Rep(g, v) in Doomed(CornersOf(g, e)) && Rep(g, v) != e
    ensures Rep(Collapse(g, e, AsWritten), v) == Rep(g, v)
    ensures Rep(Collapse(g, e, AsWritten), v) !in Collapse(g, e, AsWritten).hee
    ensures !RepsLive(Collapse(g, e, AsWritten))
  {
    ENextNeverV2Rep(g, e);
    CornersInRange(g, e);
  }

  /** With every retired representative replaced, live vertices keep live
      representatives. */
  lemma AllEndsKeepsRepsLive(g: Graph, e: int)
    requires Ready(g, e) && RepsLive(g)
    ensures RepsLive(Collapse(g, e, AllEnds))
  {
    var r := Collapse(g, e, AllEnds);
    forall v | v in r.hev && Rep(r, v) != Null
      ensures Rep(r, v) in r.hee
    {
      AllEndsRepLive(g, e, v);
    }
  }

  /** One vertex of AllEndsKeepsRepsLive. */
  lemma AllEndsRepLive(g: Graph, e: int, v: int)
    requires Ready(g, e) && RepsLive(g)
    requires v in Collapse(g, e, AllEnds).hev && Rep(Collapse(g, e, AllEnds), v) != Null
    ensures Rep(Collapse(g, e, AllEnds), v) in Collapse(g, e, AllEnds).hee
  {
    var c := CornersOf(g, e);
    var r := Collapse(g, e, AllEnds);
    CornersInRange(g, e);
    CornersLive(g, e);
    CornersDistinct(g, e);
    CornersHeads(g, e);
    assert v in g.hev && v != c.v1;
    assert RepOk(g, v);
    var x := Rep(g, v);
    assert Rep(r, v) == AllEndsRep(c, v, x, Head(g, c.en), Head(g, c.etn));
    assert x == Null ==> AllEndsRep(c, v, x, Head(g, c.en), Head(g, c.etn)) == Null;
    assert x in g.hee;
    assert Tail(g, c.en) == c.v1 && Tail(g, c.etn) == c.v2;
    assert Tail(g, c.ep) == Head(g, c.en) && Tail(g, c.etp) == Head(g, c.etn);
    AllEndsRepCases(c, v, x, Head(g, c.en), Head(g, c.etn));
  }
}

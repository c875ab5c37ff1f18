/** revertMesh: the half-edge graph back to a face-vertex mesh, as
    functions over a graph snapshot. The live vertices and faces are visited
    in increasing handle order. */
module Revert {
  import opened MeshTypes
  import opened Builder

  /** A face-vertex mesh: the vertex table V and the triangle table F. */
  datatype FaceVertex = FaceVertex(V: seq<Position>, F: seq<Triangle>)

  /** The positions of the first k vertices of vs, mapped to their 1-based
      rank; a later vertex at the same position overwrites an earlier one,
      as `indices[**it] = tempindex++` does with a map keyed by position. */
  function Indices(g: Graph, vs: seq<int>, k: nat): map<Position, int>
    requires k <= |vs| && forall i :: 0 <= i < |vs| ==> 0 <= vs[i] < |g.vertices|
  {
    if k == 0 then map[] else Indices(g, vs, k - 1)[g.vertices[vs[k - 1]].pos := k]
  }

  /** The entry under p names a vertex among the first k at position p. */
  predicate RankOk(g: Graph, vs: seq<int>, k: nat, m: map<Position, int>, p: Position)
    requires k <= |vs| && forall i :: 0 <= i < |vs| ==> 0 <= vs[i] < |g.vertices|
    requires p in m
  {
    1 <= m[p] <= k && g.vertices[vs[m[p] - 1]].pos == p
  }

  /** The index map holds the position of every one of the first k
      vertices, and each entry is the rank of a vertex at that position. */
  lemma {:induction false} IndicesSpec(g: Graph, vs: seq<int>, k: nat)
    requires k <= |vs| && forall i :: 0 <= i < |vs| ==> 0 <= vs[i] < |g.vertices|
    ensures forall i :: 0 <= i < k ==> g.vertices[vs[i]].pos in Indices(g, vs, k)
    ensures forall p {:trigger RankOk(g, vs, k, Indices(g, vs, k), p)} ::
      p in Indices(g, vs, k) ==> RankOk(g, vs, k, Indices(g, vs, k), p)
  {
    if k > 0 {
      IndicesSpec(g, vs, k - 1);
      var m0, m := Indices(g, vs, k - 1), Indices(g, vs, k);
      forall p | p in m
        ensures RankOk(g, vs, k, m, p)
      {
        if p != g.vertices[vs[k - 1]].pos {
          assert RankOk(g, vs, k - 1, m0, p);
        }
      }
    }
  }

  /** No two of the vertices vs share a position. */
  predicate DistinctPositions(g: Graph, vs: seq<int>)
    requires forall i :: 0 <= i < |vs| ==> 0 <= vs[i] < |g.vertices|
  {
    forall i, j :: 0 <= i < |vs| && 0 <= j < |vs| && g.vertices[vs[i]].pos == g.vertices[vs[j]].pos ==> i == j
  }

  /** With distinct positions, the i-th vertex's index is i + 1. */
  lemma IndexOfDistinct(g: Graph, vs: seq<int>, i: int)
    requires forall i :: 0 <= i < |vs| ==> 0 <= vs[i] < |g.vertices|
    requires DistinctPositions(g, vs) && 0 <= i < |vs|
    ensures var m := Indices(g, vs, |vs|);
      g.vertices[vs[i]].pos in m && m[g.vertices[vs[i]].pos] == i + 1
  {
    IndicesSpec(g, vs, |vs|);
    var m := Indices(g, vs, |vs|);
    assert RankOk(g, vs, |vs|, m, g.vertices[vs[i]].pos);
  }

  /** `indices[v]`: the recorded index, or 0, the value operator[] inserts
      for a position it has not seen. */
  function Lookup(m: map<Position, int>, p: Position): (r: int)
    ensures p in m ==> r == m[p]
    ensures p !in m ==> r == 0
  {
    if p in m then m[p] else 0
  }

  /** What revertMesh dereferences is a handle of the graph: every head,
      every `next`, every face's half-edge, every live vertex and face. */
  predicate Readable(g: Graph)
  {
    && (forall h :: 0 <= h < |g.halfEdges| ==>
          0 <= g.halfEdges[h].head < |g.vertices| && 0 <= g.halfEdges[h].next < |g.halfEdges|)
    && (forall f :: 0 <= f < |g.faces| ==> 0 <= g.faces[f].edge < |g.halfEdges|)
    && (forall v :: v in g.hev ==> 0 <= v < |g.vertices|)
    && (forall f :: f in g.hef ==> 0 <= f < |g.faces|)
  }

  lemma WellFormedReadable(g: Graph)
    requires WellFormed(g)
    ensures Readable(g)
  {
    forall h | 0 <= h < |g.halfEdges|
      ensures 0 <= g.halfEdges[h].head < |g.vertices| && 0 <= g.halfEdges[h].next < |g.halfEdges|
    {
      assert SlotOk(g, g.halfEdges[h], h);
    }
  }

  /** The live vertices, in increasing handle order. */
  function LiveVertices(g: Graph): (r: seq<int>)
    requires Readable(g)
    ensures forall i :: 0 <= i < |r| ==> 0 <= r[i] < |g.vertices|
  {
    Ascending(g.hev, |g.vertices|)
  }

  /** The live faces, in increasing handle order. */
  function LiveFaces(g: Graph): (r: seq<int>)
    requires Readable(g)
    ensures forall i :: 0 <= i < |r| ==> 0 <= r[i] < |g.faces|
  {
    Ascending(g.hef, |g.faces|)
  }

  /** The index map of revertMesh's first loop. */
  function VertexIndices(g: Graph): map<Position, int>
    requires Readable(g)
  {
    Indices(g, LiveVertices(g), |LiveVertices(g)|)
  }

  /** The triangle revertMesh writes for face f: with e the face's
      half-edge, its corners are the indices of the heads of next(next(e)),
      next(e) and e (lines 622-628). */
  function FaceTriangle(g: Graph, m: map<Position, int>, f: int): Triangle
    requires Readable(g) && 0 <= f < |g.faces|
  {
    var e := FaceEdge(g, f);
    Triangle(
      Lookup(m, g.vertices[Head(g, Next(g, Next(g, e)))].pos),
      Lookup(m, g.vertices[Head(g, Next(g, e))].pos),
      Lookup(m, g.vertices[Head(g, e)].pos))
  }

  /** revertMesh: the live vertices' positions appended to V, and one
      triangle per live face appended to F. */
  function RevertMesh(g: Graph, out: FaceVertex): (r: FaceVertex)
    requires Readable(g)
  {
    var vs, fs, m := LiveVertices(g), LiveFaces(g), VertexIndices(g);
    FaceVertex(
      out.V + seq(|vs|, i requires 0 <= i < |vs| => g.vertices[vs[i]].pos),
      out.F + seq(|fs|, k requires 0 <= k < |fs| => FaceTriangle(g, m, fs[k])))
  }

  /** The two size assertions of revertMesh (lines 616 and 634): one vertex
      per live vertex and one triangle per live face are appended. */
  lemma RevertCounts(g: Graph, out: FaceVertex)
    requires Readable(g)
    ensures |RevertMesh(g, out).V| == |out.V| + |g.hev|
    ensures |RevertMesh(g, out).F| == |out.F| + |g.hef|
  {
    AscendingCount(g.hev, |g.vertices|);
    AscendingCount(g.hef, |g.faces|);
    assert Below(g.hev, |g.vertices|) == g.hev;
    assert Below(g.hef, |g.faces|) == g.hef;
  }

  /** Every corner index revertMesh writes is 0 (a vertex it did not list)
      or a 1-based index into the vertices it appended, so the live vertices
      are renumbered consecutively from 1. */
  lemma RevertIndexRange(g: Graph, f: int)
    requires Readable(g) && 0 <= f < |g.faces|
    ensures var t, n := FaceTriangle(g, VertexIndices(g), f), |LiveVertices(g)|;
      0 <= t.a <= n && 0 <= t.b <= n && 0 <= t.c <= n
  {
    var vs := LiveVertices(g);
    IndicesSpec(g, vs, |vs|);
    var m := VertexIndices(g);
    var e := FaceEdge(g, f);
    var pa := g.vertices[Head(g, Next(g, Next(g, e)))].pos;
    var pb := g.vertices[Head(g, Next(g, e))].pos;
    var pc := g.vertices[Head(g, e)].pos;
    if pa in m { assert RankOk(g, vs, |vs|, m, pa); }
    if pb in m { assert RankOk(g, vs, |vs|, m, pb); }
    if pc in m { assert RankOk(g, vs, |vs|, m, pc); }
  }

  /** The appended vertex with index Lookup(m, pos v) is at v's position,
      when v is live and live positions are distinct. */
  lemma LookupLive(g: Graph, v: int)
    requires Readable(g) && v in g.hev && DistinctPositions(g, LiveVertices(g))
    ensures var vs, p := LiveVertices(g), g.vertices[v].pos;
      && 1 <= Lookup(VertexIndices(g), p) <= |vs|
      && g.vertices[vs[Lookup(VertexIndices(g), p) - 1]].pos == p
      && vs[Lookup(VertexIndices(g), p) - 1] == v
  {
    var vs := LiveVertices(g);
    AscendingSpec(g.hev, |g.vertices|);
    var i :| 0 <= i < |vs| && vs[i] == v;
    IndexOfDistinct(g, vs, i);
  }

  /** On a valid graph whose live vertices have distinct positions, the
      triangle revertMesh writes for a live face has the face's topology:
      with e the face's half-edge, corner c is the 1-based rank of head(e)
      among the live vertices, b that of head(next e) and a that of
      head(next next e). */
  lemma RevertFaithful(g: Graph, f: int)
    requires Valid(g)
    requires Readable(g) && DistinctPositions(g, LiveVertices(g))
    requires f in g.hef
    ensures var vs, t, e := LiveVertices(g), FaceTriangle(g, VertexIndices(g), f), FaceEdge(g, f);
      && 1 <= t.a <= |vs| && 1 <= t.b <= |vs| && 1 <= t.c <= |vs|
      && vs[t.c - 1] == Head(g, e)
      && vs[t.b - 1] == Head(g, Next(g, e))
      && vs[t.a - 1] == Head(g, Next(g, Next(g, e)))
  {
    var e := FaceEdge(g, f);
    assert LiveFaceOk(g, f);
    assert LiveEdgeOk(g, e);
    assert LiveEdgeOk(g, Next(g, e));
    assert LiveEdgeOk(g, Next(g, Next(g, e)));
    LookupLive(g, Head(g, e));
    LookupLive(g, Head(g, Next(g, e)));
    LookupLive(g, Head(g, Next(g, Next(g, e))));
  }

  /** No two input vertices share a position. */
  predicate DistinctInput(V: seq<Position>)
  {
    forall i, j :: 0 <= i < |V| && 0 <= j < |V| && V[i] == V[j] ==> i == j
  }

  /** Every graph convertMesh builds can be reverted. */
  lemma BuildReadable(V: seq<Position>, F: seq<Triangle>)
    requires WellIndexed(|V|, F)
    ensures Readable(Build(V, F))
  {
    var g := Build(V, F);
    BuildCounts(V, F);
    forall h | 0 <= h < |g.halfEdges|
      ensures 0 <= g.halfEdges[h].head < |g.vertices| && 0 <= g.halfEdges[h].next < |g.halfEdges|
    {
      var j := h / 3;
      assert h == 3 * j || h == 3 * j + 1 || h == 3 * j + 2;
      BuiltFace(V, F, j);
    }
    forall j | 0 <= j < |g.faces|
      ensures 0 <= g.faces[j].edge < |g.halfEdges|
    {
      BuiltFace(V, F, j);
    }
  }

  /** The built graph lists every vertex and every face, in input order. */
  lemma BuildLiveOrder(V: seq<Position>, F: seq<Triangle>)
    requires WellIndexed(|V|, F)
    ensures Readable(Build(V, F))
    ensures LiveVertices(Build(V, F)) == seq(|V|, i => i)
    ensures LiveFaces(Build(V, F)) == seq(|F|, i => i)
  {
    BuildReadable(V, F);
    BuildCounts(V, F);
    AscendingRange(|V|);
    AscendingRange(|F|);
  }

  /** The j-th reverted triangle of a built graph is the j-th input
      triangle when no two input vertices share a position. */
  lemma RoundTripFace(V: seq<Position>, F: seq<Triangle>, j: int)
    requires WellIndexed(|V|, F) && DistinctInput(V) && 0 <= j < |F|
    ensures Readable(Build(V, F))
    ensures FaceTriangle(Build(V, F), VertexIndices(Build(V, F)), j) == F[j]
  {
    var g := Build(V, F);
    BuildLiveOrder(V, F);
    BuildCounts(V, F);
    var vs := LiveVertices(g);
    assert DistinctPositions(g, vs);
    BuiltFace(V, F, j);
    IndexOfDistinct(g, vs, F[j].a - 1);
    IndexOfDistinct(g, vs, F[j].b - 1);
    IndexOfDistinct(g, vs, F[j].c - 1);
  }

  /** The reverted vertex table of a built graph is the input one. */
  lemma RoundTripVertices(V: seq<Position>, F: seq<Triangle>)
    requires WellIndexed(|V|, F)
    ensures Readable(Build(V, F))
    ensures RevertMesh(Build(V, F), FaceVertex([], [])).V == V
  {
    var g := Build(V, F);
    BuildLiveOrder(V, F);
    BuildCounts(V, F);
    var r := RevertMesh(g, FaceVertex([], []));
    var vs := LiveVertices(g);
    assert |r.V| == |V|;
    forall i | 0 <= i < |V|
      ensures r.V[i] == V[i]
    {
      RevertedVertex(g, FaceVertex([], []), i);
      assert vs[i] == i;
    }
  }

  /** The i-th vertex revertMesh appends is the position of the i-th live vertex. */
  lemma RevertedVertex(g: Graph, out: FaceVertex, i: int)
    requires Readable(g) && 0 <= i < |LiveVertices(g)|
    ensures |RevertMesh(g, out).V| == |out.V| + |LiveVertices(g)|
    ensures RevertMesh(g, out).V[|out.V| + i] == g.vertices[LiveVertices(g)[i]].pos
  {
  }

  /** convertMesh then revertMesh, both on empty tables, gives back the
      input mesh when no two input vertices share a position. */
  lemma RoundTrip(V: seq<Position>, F: seq<Triangle>)
    requires WellIndexed(|V|, F) && DistinctInput(V)
    ensures Readable(Build(V, F))
    ensures RevertMesh(Build(V, F), FaceVertex([], [])) == FaceVertex(V, F)
  {
    var g := Build(V, F);
    BuildLiveOrder(V, F);
    RoundTripVertices(V, F);
    var r := RevertMesh(g, FaceVertex([], []));
    var fs := LiveFaces(g);
    assert |r.F| == |F|;
    forall j | 0 <= j < |F|
      ensures r.F[j] == F[j]
    {
      assert fs[j] == j;
      RoundTripFace(V, F, j);
    }
  }
}

/** The builder (convertMesh) as a fold over the face list, and what the
    half-edge graph it builds looks like. */
module Builder {
  import opened MeshTypes

  /** A key of convertMesh's edge map: the 1-based (tail, head) vertex
      indices of a half-edge. */
  type Key = (int, int)

  /** Every corner of every triangle is a 1-based index into a vertex table
      of nv entries: convertMesh indexes its vertex table with them
      unchecked. */
  predicate WellIndexed(nv: int, F: seq<Triangle>)
  {
    forall i :: 0 <= i < |F| ==> 1 <= F[i].a <= nv && 1 <= F[i].b <= nv && 1 <= F[i].c <= nv
  }

  /** The 0-based head of corner r of triangle t: halfedge1 (r = 0) heads c,
      halfedge2 heads b and halfedge3 heads a. */
  function CornerHead(t: Triangle, r: int): int
  {
    if r == 0 then t.c - 1 else if r == 1 then t.b - 1 else t.a - 1
  }

  /** The 0-based tail of corner r: the head of the corner before it. */
  function CornerTail(t: Triangle, r: int): int
  {
    if r == 0 then t.a - 1 else if r == 1 then t.c - 1 else t.b - 1
  }

  /** The edge-map key convertMesh files half-edge h under: (a, c), (c, b)
      and (b, a) for the three half-edges of triangle (a, b, c). */
  function KeyOf(F: seq<Triangle>, h: int): Key
    requires 0 <= h < 3 * |F|
  {
    (CornerTail(F[h / 3], h % 3) + 1, CornerHead(F[h / 3], h % 3) + 1)
  }

  /** The half-edge after h in its triangle. */
  function NextInFace(h: int): int
  {
    if h % 3 == 2 then h - 2 else h + 1
  }

  /** The reverse of a key. */
  function Reverse(k: Key): Key
  {
    (k.1, k.0)
  }

  /** No two half-edges share a key: every directed edge is used once, as
      in an oriented manifold mesh. */
  predicate DistinctKeys(F: seq<Triangle>)
  {
    forall h, h' :: 0 <= h < 3 * |F| && 0 <= h' < 3 * |F| && KeyOf(F, h) == KeyOf(F, h') ==> h == h'
  }

  /** No triangle repeats a vertex. */
  predicate NonDegenerate(F: seq<Triangle>)
  {
    forall i :: 0 <= i < |F| ==> F[i].a != F[i].b && F[i].b != F[i].c && F[i].c != F[i].a
  }

  /** The set of keys of all half-edges. */
  function Keys(F: seq<Triangle>): set<Key>
  {
    set h | 0 <= h < 3 * |F| :: KeyOf(F, h)
  }

  /** Every directed edge has its reverse: the mesh is closed. */
  predicate Closed(F: seq<Triangle>)
  {
    forall h :: 0 <= h < 3 * |F| ==> Reverse(KeyOf(F, h)) in Keys(F)
  }

  /** What convertMesh's face loop accumulates besides the fixed shape of
      each triangle: every vertex's representative, every half-edge's twin
      (Null until linked), and the edge map from keys to half-edges. */
  datatype BuildState = BuildState(reps: seq<int>, twins: seq<int>, edges: map<Key, int>)

  /** `xs` with entry h set to o. */
  function SetAt(xs: seq<int>, h: int, o: int): (r: seq<int>)
    requires 0 <= h < |xs|
    ensures |r| == |xs|
    ensures forall k :: 0 <= k < |xs| ==> r[k] == if k == h then o else xs[k]
  {
    xs[h := o]
  }

  /** One twin check of lines 539-558: when key x is in the map, the
      half-edge filed under y gets the one filed under x as twin, and then
      the other way round. */
  function Link(twins: seq<int>, m: map<Key, int>, x: Key, y: Key): (r: seq<int>)
    requires y in m && 0 <= m[y] < |twins|
    requires forall k :: k in m ==> 0 <= m[k] < |twins|
    ensures |r| == |twins|
  {
    if x in m then SetAt(SetAt(twins, m[y], m[x]), m[x], m[y]) else twins
  }

  /** Before the first face: no representative, no half-edge, an empty
      edge map. */
  function Initial(nv: nat): (s: BuildState)
    ensures |s.reps| == nv && s.twins == [] && s.edges == map[]
    ensures forall v :: 0 <= v < nv ==> s.reps[v] == Null
  {
    BuildState(seq(nv, v => Null), [], map[])
  }

  /** The representatives after triangle t with half-edges n, n + 1, n + 2:
      a gets halfedge1, b halfedge3 and c halfedge2, in that order
      (lines 512-521). */
  function FaceReps(reps: seq<int>, t: Triangle, n: int): (r: seq<int>)
    requires 1 <= t.a <= |reps| && 1 <= t.b <= |reps| && 1 <= t.c <= |reps|
    ensures |r| == |reps|
  {
    reps[t.a - 1 := n][t.b - 1 := n + 2][t.c - 1 := n + 1]
  }

  /** The edge map after filing the three half-edges of t under their keys
      (lines 534-536). */
  function FaceEdges(m: map<Key, int>, t: Triangle, n: int): (r: map<Key, int>)
    ensures r.Keys == m.Keys + {(t.b, t.a), (t.c, t.b), (t.a, t.c)}
  {
    m[(t.b, t.a) := n + 2][(t.c, t.b) := n + 1][(t.a, t.c) := n]
  }

  /** The twins after the three twin checks of lines 539-558, on the edge
      map m that already holds t's keys. */
  function FaceTwins(twins: seq<int>, m: map<Key, int>, t: Triangle): (r: seq<int>)
    requires (t.b, t.a) in m && (t.c, t.b) in m && (t.a, t.c) in m
    requires forall k :: k in m ==> 0 <= m[k] < |twins|
    ensures |r| == |twins|
  {
    var tw1 := Link(twins, m, (t.a, t.b), (t.b, t.a));
    var tw2 := Link(tw1, m, (t.b, t.c), (t.c, t.b));
    Link(tw2, m, (t.c, t.a), (t.a, t.c))
  }

  /** One iteration of the face loop of convertMesh for triangle t, whose
      half-edges are n, n + 1 and n + 2 (n = |twins|, fresh twins null). */
  function AddFace(s: BuildState, t: Triangle): (r: BuildState)
    requires 1 <= t.a <= |s.reps| && 1 <= t.b <= |s.reps| && 1 <= t.c <= |s.reps|
    requires forall k :: k in s.edges ==> 0 <= s.edges[k] < |s.twins|
    ensures |r.reps| == |s.reps| && |r.twins| == |s.twins| + 3
    ensures forall k :: k in r.edges ==> 0 <= r.edges[k] < |r.twins|
  {
    var n := |s.twins|;
    var m := FaceEdges(s.edges, t, n);
    BuildState(FaceReps(s.reps, t, n), FaceTwins(s.twins + [Null, Null, Null], m, t), m)
  }

  /** convertMesh's face loop after its first k faces. */
  function BuildUpTo(nv: nat, F: seq<Triangle>, k: nat): (s: BuildState)
    requires WellIndexed(nv, F) && k <= |F|
    ensures |s.reps| == nv && |s.twins| == 3 * k
    ensures forall key :: key in s.edges ==> 0 <= s.edges[key] < 3 * k
  {
    if k == 0 then Initial(nv) else AddFace(BuildUpTo(nv, F, k - 1), F[k - 1])
  }

  /** Half-edge h of the built graph: on face h / 3, heading the corner's
      vertex, followed by the next half-edge of its triangle, identified
      by its creation index, live, with twin `twin`. */
  function BuiltSlot(F: seq<Triangle>, h: int, twin: int): HalfEdgeSlot
    requires 0 <= h < 3 * |F|
  {
    HalfEdgeSlot(h / 3, CornerHead(F[h / 3], h % 3), twin, NextInFace(h), h, true)
  }

  /** The graph convertMesh leaves from the state s of its face loop: one
      vertex per input vertex, three half-edges per triangle, one face per
      triangle naming its first half-edge, all of them live. */
  function Assemble(V: seq<Position>, F: seq<Triangle>, s: BuildState): (g: Graph)
    requires WellIndexed(|V|, F) && |s.reps| == |V| && |s.twins| == 3 * |F|
    ensures |g.vertices| == |V| && |g.halfEdges| == 3 * |F| && |g.faces| == |F|
  {
    Graph(
      seq(|V|, v requires 0 <= v < |V| => VertexSlot(V[v], s.reps[v])),
      seq(3 * |F|, h requires 0 <= h < 3 * |F| => BuiltSlot(F, h, s.twins[h])),
      seq(|F|, j => FaceSlot(3 * j)),
      Range(|V|), Range(3 * |F|), Range(|F|))
  }

  /** convertMesh on an empty arena. */
  function Build(V: seq<Position>, F: seq<Triangle>): (g: Graph)
    requires WellIndexed(|V|, F)
    ensures |g.vertices| == |V| && |g.halfEdges| == 3 * |F| && |g.faces| == |F|
  {
    Assemble(V, F, BuildUpTo(|V|, F, |F|))
  }

  /** The corner after corner r heads where corner r starts. */
  lemma CornerCycle(F: seq<Triangle>, h: int)
    requires 0 <= h < 3 * |F|
    ensures NextInFace(NextInFace(h)) / 3 == h / 3
    ensures CornerHead(F[h / 3], NextInFace(NextInFace(h)) % 3) == CornerTail(F[h / 3], h % 3)
    ensures NextInFace(NextInFace(NextInFace(h))) == h
  {
  }

  /** Half-edge h of the assembled graph, field by field. */
  lemma AssembledSlot(V: seq<Position>, F: seq<Triangle>, s: BuildState, h: int)
    requires WellIndexed(|V|, F) && |s.reps| == |V| && |s.twins| == 3 * |F| && 0 <= h < 3 * |F|
    ensures var g := Assemble(V, F, s);
      && Next(g, h) == NextInFace(h) && FaceOf(g, h) == h / 3
      && Head(g, h) == CornerHead(F[h / 3], h % 3) && Opp(g, h) == s.twins[h]
      && g.halfEdges[h].id == h && g.halfEdges[h].alive
  {
  }

  lemma Thirds(j: int)
    ensures (3 * j) / 3 == j && (3 * j + 1) / 3 == j && (3 * j + 2) / 3 == j
    ensures (3 * j) % 3 == 0 && (3 * j + 1) % 3 == 1 && (3 * j + 2) % 3 == 2
  {
  }

  /** The j-th triangle (lines 495-579): its half-edges are 3j, 3j+1 and
      3j+2 in creation order, linked 3j -> 3j+1 -> 3j+2 -> 3j, all on face
      j, which names 3j; they head c, b and a. */
  lemma AssembledFace(V: seq<Position>, F: seq<Triangle>, s: BuildState, j: int)
    requires WellIndexed(|V|, F) && |s.reps| == |V| && |s.twins| == 3 * |F| && 0 <= j < |F|
    ensures var g := Assemble(V, F, s);
      && FaceEdge(g, j) == 3 * j
      && Next(g, 3 * j) == 3 * j + 1 && Next(g, 3 * j + 1) == 3 * j + 2 && Next(g, 3 * j + 2) == 3 * j
      && FaceOf(g, 3 * j) == j && FaceOf(g, 3 * j + 1) == j && FaceOf(g, 3 * j + 2) == j
      && Head(g, 3 * j) == F[j].c - 1 && Head(g, 3 * j + 1) == F[j].b - 1 && Head(g, 3 * j + 2) == F[j].a - 1
  {
    Thirds(j);
    AssembledSlot(V, F, s, 3 * j);
    AssembledSlot(V, F, s, 3 * j + 1);
    AssembledSlot(V, F, s, 3 * j + 2);
  }

  /** The sizes of the assembled graph and its creation-order identifiers
      (lines 589-591); it is well formed once every twin is a handle. */
  lemma AssembledCounts(V: seq<Position>, F: seq<Triangle>, s: BuildState)
    requires WellIndexed(|V|, F) && |s.reps| == |V| && |s.twins| == 3 * |F|
    ensures var g := Assemble(V, F, s);
      |g.hev| == |V| && |g.hef| == |F| && |g.hee| == 3 * |g.hef|
    ensures forall h :: 0 <= h < 3 * |F| ==>
      Assemble(V, F, s).halfEdges[h].id == h && Assemble(V, F, s).halfEdges[h].alive
  {
    RangeSize(|V|);
    RangeSize(|F|);
    RangeSize(3 * |F|);
  }

  /** Vertex v's representative is null, or one of the first 3k half-edges
      and one that leaves v. */
  predicate RepAt(reps: seq<int>, F: seq<Triangle>, k: nat, v: int)
    requires 0 <= v < |reps| && k <= |F|
  {
    reps[v] == Null || (0 <= reps[v] < 3 * k && CornerTail(F[reps[v] / 3], reps[v] % 3) == v)
  }

  /** Representatives so far: a vertex's representative is null until a
      triangle uses it, and then it is a half-edge leaving it. */
  ghost predicate RepsInv(s: BuildState, F: seq<Triangle>, k: nat)
    requires k <= |F|
  {
    forall v {:trigger RepAt(s.reps, F, k, v)} :: 0 <= v < |s.reps| ==> RepAt(s.reps, F, k, v)
  }

  /** Adding the k-th triangle keeps every representative null or leaving
      its vertex. */
  lemma AddFaceReps(s: BuildState, F: seq<Triangle>, k: nat)
    requires 0 < k <= |F| && |s.twins| == 3 * (k - 1)
    requires 1 <= F[k - 1].a <= |s.reps| && 1 <= F[k - 1].b <= |s.reps| && 1 <= F[k - 1].c <= |s.reps|
    requires forall key :: key in s.edges ==> 0 <= s.edges[key] < |s.twins|
    requires RepsInv(s, F, k - 1)
    ensures RepsInv(AddFace(s, F[k - 1]), F, k)
  {
    var r := AddFace(s, F[k - 1]);
    var n := 3 * (k - 1);
    assert r.reps == FaceReps(s.reps, F[k - 1], n);
    assert n / 3 == k - 1 && (n + 1) / 3 == k - 1 && (n + 2) / 3 == k - 1;
    assert n % 3 == 0 && (n + 1) % 3 == 1 && (n + 2) % 3 == 2;
    forall v | 0 <= v < |r.reps|
      ensures RepAt(r.reps, F, k, v)
    {
      assert RepAt(s.reps, F, k - 1, v);
    }
  }

  lemma BuildRepsStep(nv: nat, F: seq<Triangle>, k: nat)
    requires WellIndexed(nv, F) && 0 < k <= |F|
    requires RepsInv(BuildUpTo(nv, F, k - 1), F, k - 1)
    ensures RepsInv(BuildUpTo(nv, F, k), F, k)
  {
    AddFaceReps(BuildUpTo(nv, F, k - 1), F, k);
  }

  lemma {:induction false} BuildReps(nv: nat, F: seq<Triangle>, k: nat)
    requires WellIndexed(nv, F) && k <= |F|
    ensures RepsInv(BuildUpTo(nv, F, k), F, k)
  {
    if k > 0 {
      BuildReps(nv, F, k - 1);
      BuildRepsStep(nv, F, k);
    }
  }

  /** Half-edge h (one of the first 3k) is filed in the edge map. */
  predicate Filed(m: map<Key, int>, F: seq<Triangle>, k: nat, h: int)
    requires 0 <= h < 3 * k <= 3 * |F|
  {
    KeyOf(F, h) in m
  }

  /** The entry under key names one of the first 3k half-edges, and one
      whose key it is. */
  predicate EntryOk(m: map<Key, int>, F: seq<Triangle>, k: nat, key: Key)
    requires key in m && k <= |F|
  {
    0 <= m[key] < 3 * k && KeyOf(F, m[key]) == key
  }

  /** The edge map after k faces: every half-edge so far is filed, and every
      entry is filed under its own key. */
  ghost predicate EdgesInv(s: BuildState, F: seq<Triangle>, k: nat)
    requires k <= |F|
  {
    && (forall h {:trigger Filed(s.edges, F, k, h)} :: 0 <= h < 3 * k ==> Filed(s.edges, F, k, h))
    && (forall key {:trigger EntryOk(s.edges, F, k, key)} :: key in s.edges ==> EntryOk(s.edges, F, k, key))
  }

  /** The keys of the three half-edges of the k-th triangle. */
  lemma FaceKeys(F: seq<Triangle>, k: nat)
    requires 0 < k <= |F|
    ensures var t, n := F[k - 1], 3 * (k - 1);
      && KeyOf(F, n) == (t.a, t.c) && KeyOf(F, n + 1) == (t.c, t.b) && KeyOf(F, n + 2) == (t.b, t.a)
  {
    Thirds(k - 1);
  }

  lemma AddFaceEdges(s: BuildState, F: seq<Triangle>, k: nat)
    requires 0 < k <= |F| && |s.twins| == 3 * (k - 1)
    requires 1 <= F[k - 1].a <= |s.reps| && 1 <= F[k - 1].b <= |s.reps| && 1 <= F[k - 1].c <= |s.reps|
    requires forall key :: key in s.edges ==> 0 <= s.edges[key] < |s.twins|
    requires EdgesInv(s, F, k - 1)
    ensures EdgesInv(AddFace(s, F[k - 1]), F, k)
  {
    var t, n := F[k - 1], 3 * (k - 1);
    var m := AddFace(s, t).edges;
    assert m == FaceEdges(s.edges, t, n);
    FaceKeys(F, k);
    forall h | 0 <= h < 3 * k
      ensures Filed(m, F, k, h)
    {
      if h < n {
        assert Filed(s.edges, F, k - 1, h);
      }
    }
    forall key | key in m
      ensures EntryOk(m, F, k, key)
    {
      if key != (t.a, t.c) && key != (t.c, t.b) && key != (t.b, t.a) {
        assert EntryOk(s.edges, F, k - 1, key);
      }
    }
  }

  lemma BuildEdgesStep(nv: nat, F: seq<Triangle>, k: nat)
    requires WellIndexed(nv, F) && 0 < k <= |F|
    requires EdgesInv(BuildUpTo(nv, F, k - 1), F, k - 1)
    ensures EdgesInv(BuildUpTo(nv, F, k), F, k)
  {
    AddFaceEdges(BuildUpTo(nv, F, k - 1), F, k);
  }

  /** After k faces the edge map files exactly the first 3k half-edges,
      each under its own key. */
  lemma {:induction false} BuildEdges(nv: nat, F: seq<Triangle>, k: nat)
    requires WellIndexed(nv, F) && k <= |F|
    ensures EdgesInv(BuildUpTo(nv, F, k), F, k)
  {
    if k > 0 {
      BuildEdges(nv, F, k - 1);
      BuildEdgesStep(nv, F, k);
    }
  }

  /** With distinct keys, the map entry under a half-edge's key is that
      half-edge. */
  lemma FiledUnder(s: BuildState, F: seq<Triangle>, k: nat, h: int)
    requires k <= |F| && DistinctKeys(F) && EdgesInv(s, F, k) && 0 <= h < 3 * k
    ensures KeyOf(F, h) in s.edges && s.edges[KeyOf(F, h)] == h
  {
    assert Filed(s.edges, F, k, h);
    assert EntryOk(s.edges, F, k, KeyOf(F, h));
  }

  /** Link sets the entries of the half-edges filed under x and y to each
      other, when x is filed, and changes nothing else. */
  lemma LinkSpec(twins: seq<int>, m: map<Key, int>, x: Key, y: Key, j: int)
    requires y in m && 0 <= m[y] < |twins|
    requires forall k :: k in m ==> 0 <= m[k] < |twins|
    requires 0 <= j < |twins|
    ensures Link(twins, m, x, y)[j] ==
      if x in m && j == m[x] then m[y] else if x in m && j == m[y] then m[x] else twins[j]
  {
  }

  /** The twin convertMesh gives a half-edge with key `key` once the map is
      m: the half-edge filed under the reverse key, or null. */
  function Partner(m: map<Key, int>, key: Key): int
  {
    if Reverse(key) in m then m[Reverse(key)] else Null
  }

  /** Half-edge h's twin entry is its partner in m. */
  predicate TwinAt(twins: seq<int>, m: map<Key, int>, F: seq<Triangle>, k: nat, h: int)
    requires 0 <= h < 3 * k <= 3 * |F| && 3 * k <= |twins|
  {
    twins[h] == Partner(m, KeyOf(F, h))
  }

  /** After k faces, every half-edge so far has its partner as twin. */
  ghost predicate TwinsInv(s: BuildState, F: seq<Triangle>, k: nat)
    requires k <= |F| && 3 * k <= |s.twins|
  {
    forall h {:trigger TwinAt(s.twins, s.edges, F, k, h)} :: 0 <= h < 3 * k ==> TwinAt(s.twins, s.edges, F, k, h)
  }

  /** Key x is filed in m exactly when it was filed in m0, and then under
      the same half-edge, one of the first n, whose key is x. */
  predicate KeptEntry(m: map<Key, int>, m0: map<Key, int>, F: seq<Triangle>, n: int, x: Key)
  {
    && (x in m <==> x in m0)
    && (x in m ==> x in m0 && m[x] == m0[x] && 0 <= m[x] < n <= 3 * |F| && KeyOf(F, m[x]) == x)
  }

  /** The edge map after the k-th triangle (a, b, c): its three keys name
      its three half-edges, and each reverse key is filed afterwards exactly
      when it was before, under an earlier half-edge with that key. */
  lemma FaceMap(s: BuildState, F: seq<Triangle>, k: nat)
    requires 0 < k <= |F| && |s.twins| == 3 * (k - 1)
    requires NonDegenerate(F) && EdgesInv(s, F, k - 1)
    ensures var t, n := F[k - 1], 3 * (k - 1);
      var m := FaceEdges(s.edges, t, n);
      && m[(t.b, t.a)] == n + 2 && m[(t.c, t.b)] == n + 1 && m[(t.a, t.c)] == n
      && KeptEntry(m, s.edges, F, n, (t.a, t.b))
      && KeptEntry(m, s.edges, F, n, (t.b, t.c))
      && KeptEntry(m, s.edges, F, n, (t.c, t.a))
  {
    var t, n := F[k - 1], 3 * (k - 1);
    assert t.a != t.b && t.b != t.c && t.c != t.a;
    var x1, x2, x3 := (t.a, t.b), (t.b, t.c), (t.c, t.a);
    if x1 in s.edges { assert EntryOk(s.edges, F, k - 1, x1); }
    if x2 in s.edges { assert EntryOk(s.edges, F, k - 1, x2); }
    if x3 in s.edges { assert EntryOk(s.edges, F, k - 1, x3); }
  }

  /** The twin entries after the three twin checks of triangle (a, b, c),
      on the map m that holds its keys. */
  lemma FaceTwinsAt(twins: seq<int>, m: map<Key, int>, t: Triangle, h: int)
    requires (t.b, t.a) in m && (t.c, t.b) in m && (t.a, t.c) in m
    requires forall k :: k in m ==> 0 <= m[k] < |twins|
    requires 0 <= h < |twins|
    ensures var x1, x2, x3 := (t.a, t.b), (t.b, t.c), (t.c, t.a);
      var tw0 := twins;
      var tw1 := if x1 in m && h == m[x1] then m[(t.b, t.a)] else if x1 in m && h == m[(t.b, t.a)] then m[x1] else tw0[h];
      var tw2 := if x2 in m && h == m[x2] then m[(t.c, t.b)] else if x2 in m && h == m[(t.c, t.b)] then m[x2] else tw1;
      FaceTwins(twins, m, t)[h] ==
        if x3 in m && h == m[x3] then m[(t.a, t.c)] else if x3 in m && h == m[(t.a, t.c)] then m[x3] else tw2
  {
    var x1, x2, x3 := (t.a, t.b), (t.b, t.c), (t.c, t.a);
    var tw1 := Link(twins, m, x1, (t.b, t.a));
    var tw2 := Link(tw1, m, x2, (t.c, t.b));
    LinkSpec(twins, m, x1, (t.b, t.a), h);
    LinkSpec(tw1, m, x2, (t.c, t.b), h);
    LinkSpec(tw2, m, x3, (t.a, t.c), h);
  }

  /** A new half-edge of the k-th triangle (a, b, c) gets as twin the
      earlier half-edge filed under its reverse key, or null. */
  lemma NewHalfEdgeTwin(s: BuildState, F: seq<Triangle>, k: nat, h: int)
    requires 0 < k <= |F| && |s.twins| == 3 * (k - 1)
    requires forall key :: key in s.edges ==> 0 <= s.edges[key] < |s.twins|
    requires NonDegenerate(F) && EdgesInv(s, F, k - 1)
    requires 3 * (k - 1) <= h < 3 * k
    ensures var m := FaceEdges(s.edges, F[k - 1], 3 * (k - 1));
      TwinAt(FaceTwins(s.twins + [Null, Null, Null], m, F[k - 1]), m, F, k, h)
  {
    var t, n := F[k - 1], 3 * (k - 1);
    var m := FaceEdges(s.edges, t, n);
    FaceKeys(F, k);
    FaceMap(s, F, k);
    FaceTwinsAt(s.twins + [Null, Null, Null], m, t, h);
  }

  /** An earlier half-edge gets a new twin exactly when it is filed under
      the reverse of one of the new keys; otherwise, with distinct keys,
      its partner is unchanged. */
  lemma OldHalfEdgeTwin(s: BuildState, F: seq<Triangle>, k: nat, h: int)
    requires 0 < k <= |F| && |s.twins| == 3 * (k - 1)
    requires forall key :: key in s.edges ==> 0 <= s.edges[key] < |s.twins|
    requires DistinctKeys(F) && NonDegenerate(F)
    requires EdgesInv(s, F, k - 1) && TwinsInv(s, F, k - 1)
    requires 0 <= h < 3 * (k - 1)
    ensures var m := FaceEdges(s.edges, F[k - 1], 3 * (k - 1));
      TwinAt(FaceTwins(s.twins + [Null, Null, Null], m, F[k - 1]), m, F, k, h)
  {
    var t, n := F[k - 1], 3 * (k - 1);
    var m := FaceEdges(s.edges, t, n);
    FaceKeys(F, k);
    FaceMap(s, F, k);
    FaceTwinsAt(s.twins + [Null, Null, Null], m, t, h);
    assert TwinAt(s.twins, s.edges, F, k - 1, h);
    FiledUnder(s, F, k - 1, h);
  }

  lemma AddFaceTwins(s: BuildState, F: seq<Triangle>, k: nat)
    requires 0 < k <= |F| && |s.twins| == 3 * (k - 1)
    requires 1 <= F[k - 1].a <= |s.reps| && 1 <= F[k - 1].b <= |s.reps| && 1 <= F[k - 1].c <= |s.reps|
    requires forall key :: key in s.edges ==> 0 <= s.edges[key] < |s.twins|
    requires DistinctKeys(F) && NonDegenerate(F)
    requires EdgesInv(s, F, k - 1) && TwinsInv(s, F, k - 1)
    ensures TwinsInv(AddFace(s, F[k - 1]), F, k)
  {
    var r := AddFace(s, F[k - 1]);
    assert r.edges == FaceEdges(s.edges, F[k - 1], 3 * (k - 1));
    assert r.twins == FaceTwins(s.twins + [Null, Null, Null], r.edges, F[k - 1]);
    forall h | 0 <= h < 3 * k
      ensures TwinAt(r.twins, r.edges, F, k, h)
    {
      if h < 3 * (k - 1) {
        OldHalfEdgeTwin(s, F, k, h);
      } else {
        NewHalfEdgeTwin(s, F, k, h);
      }
    }
  }

  lemma BuildTwinsStep(nv: nat, F: seq<Triangle>, k: nat)
    requires WellIndexed(nv, F) && 0 < k <= |F| && DistinctKeys(F) && NonDegenerate(F)
    requires EdgesInv(BuildUpTo(nv, F, k - 1), F, k - 1) && TwinsInv(BuildUpTo(nv, F, k - 1), F, k - 1)
    ensures TwinsInv(BuildUpTo(nv, F, k), F, k)
  {
    AddFaceTwins(BuildUpTo(nv, F, k - 1), F, k);
  }

  /** After k faces of a mesh with distinct keys and no degenerate
      triangle, every half-edge's twin is the half-edge filed under its
      reverse key, or null when there is none yet. */
  lemma {:induction false} BuildTwins(nv: nat, F: seq<Triangle>, k: nat)
    requires WellIndexed(nv, F) && k <= |F| && DistinctKeys(F) && NonDegenerate(F)
    ensures TwinsInv(BuildUpTo(nv, F, k), F, k)
  {
    if k > 0 {
      BuildTwins(nv, F, k - 1);
      BuildEdges(nv, F, k - 1);
      BuildTwinsStep(nv, F, k);
    }
  }

  /** Two half-edges of one non-degenerate triangle never have reverse
      keys. */
  lemma NoReverseInTriangle(F: seq<Triangle>, h: int, h': int)
    requires NonDegenerate(F) && 0 <= h < 3 * |F| && 0 <= h' < 3 * |F| && h / 3 == h' / 3
    ensures KeyOf(F, h') != Reverse(KeyOf(F, h))
  {
    var t := F[h / 3];
    assert t.a != t.b && t.b != t.c && t.c != t.a;
  }

  /** The final state of the face loop satisfies all three invariants. */
  lemma FinalState(nv: nat, F: seq<Triangle>)
    requires WellIndexed(nv, F) && DistinctKeys(F) && NonDegenerate(F)
    ensures var s := BuildUpTo(nv, F, |F|);
      RepsInv(s, F, |F|) && EdgesInv(s, F, |F|) && TwinsInv(s, F, |F|)
  {
    BuildReps(nv, F, |F|);
    BuildEdges(nv, F, |F|);
    BuildTwins(nv, F, |F|);
  }

  /** The twin convertMesh gives half-edge h (lines 539-558): when the
      triangles use every directed edge once, it is the half-edge with the
      reverse key, and it is null exactly when no triangle has that key. */
  lemma BuildTwin(V: seq<Position>, F: seq<Triangle>, h: int)
    requires WellIndexed(|V|, F) && DistinctKeys(F) && NonDegenerate(F) && 0 <= h < 3 * |F|
    ensures var g := Build(V, F);
      && (Opp(g, h) == Null <==> Reverse(KeyOf(F, h)) !in Keys(F))
      && (Opp(g, h) != Null ==> 0 <= Opp(g, h) < 3 * |F| && KeyOf(F, Opp(g, h)) == Reverse(KeyOf(F, h)))
  {
    var s := BuildUpTo(|V|, F, |F|);
    var g := Build(V, F);
    assert g == Assemble(V, F, s);
    FinalState(|V|, F);
    AssembledSlot(V, F, s, h);
    assert TwinAt(s.twins, s.edges, F, |F|, h);
    var rk := Reverse(KeyOf(F, h));
    if rk in s.edges {
      assert EntryOk(s.edges, F, |F|, rk);
    }
    if rk in Keys(F) {
      var h' :| 0 <= h' < 3 * |F| && KeyOf(F, h') == rk;
      assert Filed(s.edges, F, |F|, h');
    }
  }

  /** The triangle of half-edge h once built: a 3-cycle of live half-edges
      on one live face that names one of them, heading live vertices; and
      h leaves the head of the half-edge two steps on. */
  lemma BuiltCycleOk(V: seq<Position>, F: seq<Triangle>, h: int)
    requires WellIndexed(|V|, F) && 0 <= h < 3 * |F|
    ensures var g := Build(V, F);
      var f0 := FaceEdge(g, FaceOf(g, h));
      && Next(g, h) in g.hee && Next(g, h) != h && Next(g, Next(g, Next(g, h))) == h
      && FaceOf(g, Next(g, h)) == FaceOf(g, h)
      && (h == f0 || h == Next(g, f0) || h == Next(g, Next(g, f0)))
      && Head(g, h) in g.hev && FaceOf(g, h) in g.hef
      && Head(g, h) == CornerHead(F[h / 3], h % 3) && Tail(g, h) == CornerTail(F[h / 3], h % 3)
  {
    var s := BuildUpTo(|V|, F, |F|);
    var g := Build(V, F);
    assert g == Assemble(V, F, s);
    AssembledSlot(V, F, s, h);
    AssembledSlot(V, F, s, NextInFace(h));
    AssembledSlot(V, F, s, NextInFace(NextInFace(h)));
    AssembledFace(V, F, s, h / 3);
    CornerCycle(F, h);
  }

  /** The twin of half-edge h of a closed mesh with distinct keys and no
      degenerate triangle, once built: live, on another face, with h as its
      twin, and heading where h starts. */
  lemma BuiltTwinOk(V: seq<Position>, F: seq<Triangle>, h: int)
    requires WellIndexed(|V|, F) && DistinctKeys(F) && NonDegenerate(F) && Closed(F)
    requires 0 <= h < 3 * |F|
    ensures var g := Build(V, F);
      && Opp(g, h) in g.hee && Opp(g, Opp(g, h)) == h
      && FaceOf(g, Opp(g, h)) != FaceOf(g, h) && Head(g, Opp(g, h)) == Tail(g, h)
  {
    var g := Build(V, F);
    BuildTwin(V, F, h);
    assert Reverse(KeyOf(F, h)) in Keys(F);
    var h' := Opp(g, h);
    BuildTwin(V, F, h');
    BuiltCycleOk(V, F, h);
    BuiltCycleOk(V, F, h');
    if h / 3 == h' / 3 {
      NoReverseInTriangle(F, h, h');
    }
  }

  /** The sizes of the built graph, the assertions closing convertMesh
      (lines 589-591): one live vertex per input vertex, one live face per
      triangle, three live half-edges per face. */
  lemma BuildCounts(V: seq<Position>, F: seq<Triangle>)
    requires WellIndexed(|V|, F)
    ensures var g := Build(V, F);
      && |g.hev| == |V| && |g.hef| == |F| && |g.hee| == 3 * |g.hef|
      && g.hev == Range(|V|) && g.hef == Range(|F|) && g.hee == Range(3 * |F|)
    ensures forall v :: 0 <= v < |V| ==> Build(V, F).vertices[v].pos == V[v]
  {
    var s := BuildUpTo(|V|, F, |F|);
    assert Build(V, F) == Assemble(V, F, s);
    AssembledCounts(V, F, s);
  }

  /** The j-th triangle of the built graph: half-edges 3j, 3j+1, 3j+2
      heading c, b and a, linked in that order, on face j, which names 3j;
      every slot of the graph addresses the graph. */
  lemma BuiltFace(V: seq<Position>, F: seq<Triangle>, j: int)
    requires WellIndexed(|V|, F) && 0 <= j < |F|
    ensures var g := Build(V, F);
      && FaceEdge(g, j) == 3 * j
      && Next(g, 3 * j) == 3 * j + 1 && Next(g, 3 * j + 1) == 3 * j + 2 && Next(g, 3 * j + 2) == 3 * j
      && FaceOf(g, 3 * j) == j && FaceOf(g, 3 * j + 1) == j && FaceOf(g, 3 * j + 2) == j
      && Head(g, 3 * j) == F[j].c - 1 && Head(g, 3 * j + 1) == F[j].b - 1 && Head(g, 3 * j + 2) == F[j].a - 1
  {
    var s := BuildUpTo(|V|, F, |F|);
    assert Build(V, F) == Assemble(V, F, s);
    AssembledFace(V, F, s, j);
  }

  /** A representative of the built graph is null, or a live half-edge
      leaving its vertex. */
  lemma BuiltRep(V: seq<Position>, F: seq<Triangle>, v: int)
    requires WellIndexed(|V|, F) && 0 <= v < |V|
    ensures var g := Build(V, F);
      Rep(g, v) == Null || (0 <= Rep(g, v) < 3 * |F| && Tail(g, Rep(g, v)) == v)
  {
    var s := BuildUpTo(|V|, F, |F|);
    assert Build(V, F) == Assemble(V, F, s);
    BuildReps(|V|, F, |F|);
    assert RepAt(s.reps, F, |F|, v);
    if s.reps[v] != Null {
      BuiltCycleOk(V, F, s.reps[v]);
    }
  }

  /** The built graph is well formed when the mesh is closed. */
  lemma BuildWellFormed(V: seq<Position>, F: seq<Triangle>)
    requires WellIndexed(|V|, F) && DistinctKeys(F) && NonDegenerate(F) && Closed(F)
    ensures WellFormed(Build(V, F))
  {
    var s := BuildUpTo(|V|, F, |F|);
    var g := Build(V, F);
    assert g == Assemble(V, F, s);
    AssembledCounts(V, F, s);
    forall h | 0 <= h < |g.halfEdges|
      ensures SlotOk(g, g.halfEdges[h], h)
    {
      AssembledSlot(V, F, s, h);
      BuildTwin(V, F, h);
    }
    forall v | 0 <= v < |g.vertices|
      ensures Null <= g.vertices[v].edge < |g.halfEdges|
    {
      BuiltRep(V, F, v);
    }
    assert g.hee == LiveSet(g.halfEdges);
  }

  /** Every vertex of the built graph satisfies the representative
      invariant with a live representative. */
  lemma BuiltRepsOk(V: seq<Position>, F: seq<Triangle>)
    requires WellIndexed(|V|, F)
    ensures forall v :: v in Build(V, F).hev ==>
      RepOk(Build(V, F), v) && (Rep(Build(V, F), v) != Null ==> Rep(Build(V, F), v) in Build(V, F).hee)
  {
    var g := Build(V, F);
    BuildCounts(V, F);
    forall v | v in g.hev
      ensures RepOk(g, v) && (Rep(g, v) != Null ==> Rep(g, v) in g.hee)
    {
      BuiltRep(V, F, v);
    }
  }

  /** Every live half-edge of the built graph of a closed mesh satisfies
      the half-edge invariants. */
  lemma BuiltEdgesOk(V: seq<Position>, F: seq<Triangle>)
    requires WellIndexed(|V|, F) && DistinctKeys(F) && NonDegenerate(F) && Closed(F)
    ensures forall h :: h in Build(V, F).hee ==> LiveEdgeOk(Build(V, F), h)
  {
    var g := Build(V, F);
    BuildCounts(V, F);
    forall h | h in g.hee
      ensures LiveEdgeOk(g, h)
    {
      BuiltCycleOk(V, F, h);
      BuiltTwinOk(V, F, h);
    }
  }

  /** Every face of the built graph names its first half-edge, which is
      live and on that face. */
  lemma BuiltFacesOk(V: seq<Position>, F: seq<Triangle>)
    requires WellIndexed(|V|, F)
    ensures forall f :: f in Build(V, F).hef ==> LiveFaceOk(Build(V, F), f)
  {
    var g := Build(V, F);
    BuildCounts(V, F);
    forall f | f in g.hef
      ensures LiveFaceOk(g, f)
    {
      BuiltCycleOk(V, F, 3 * f);
      Thirds(f);
    }
  }

  /** convertMesh on a closed mesh whose triangles use every directed edge
      once and repeat no vertex builds a valid half-edge graph whose every
      representative is live. */
  lemma BuildValid(V: seq<Position>, F: seq<Triangle>)
    requires WellIndexed(|V|, F) && DistinctKeys(F) && NonDegenerate(F) && Closed(F)
    ensures Valid(Build(V, F)) && RepsLive(Build(V, F))
  {
    BuildCounts(V, F);
    BuildWellFormed(V, F);
    BuiltEdgesOk(V, F);
    BuiltFacesOk(V, F);
    BuiltRepsOk(V, F);
  }
}

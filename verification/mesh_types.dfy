/** Value types of the half-edge mesh engine.

    The engine's pointer graph is an arena: vertex, half-edge and face slots
    addressed by integer handles, with the handle `Null` standing for a null
    pointer. A half-edge's liveness flag is a tombstone bit in its slot; the
    live collections HEV, HEE and HEF are sets of handles. */
module MeshTypes {

  /** A vertex position. The engine only compares positions with `==`, so a
      position is a plain value; no floating-point behaviour is modelled. */
  datatype Position = Position(x: real, y: real, z: real)

  /** A triangle of the face-vertex model: three 1-based vertex indices. */
  datatype Triangle = Triangle(a: int, b: int, c: int)

  /** The handle that stands for a null pointer. */
  const Null: int := -1

  /** HEVertex: a position and a representative outgoing half-edge. */
  datatype VertexSlot = VertexSlot(pos: Position, edge: int)

  /** HEEdge: its face, head vertex, twin, next half-edge in its triangle,
      identifier and liveness flag. */
  datatype HalfEdgeSlot = HalfEdgeSlot(face: int, head: int, opposite: int, next: int, id: int, alive: bool)

  /** HEFace: one of its three boundary half-edges. */
  datatype FaceSlot = FaceSlot(edge: int)

  /** A snapshot of the half-edge graph: the three slot tables and the live
      collections HEV, HEE and HEF. */
  datatype Graph = Graph(
    vertices: seq<VertexSlot>,
    halfEdges: seq<HalfEdgeSlot>,
    faces: seq<FaceSlot>,
    hev: set<int>,
    hee: set<int>,
    hef: set<int>)

  /** The handles of the live half-edges of a slot table. */
  function LiveSet(es: seq<HalfEdgeSlot>): set<int>
  {
    set h | 0 <= h < |es| && es[h].alive
  }

  /** Every pointer of a half-edge slot is a handle of the graph (the mesh is
      closed, so a twin is never null), and its identifier is its handle. */
  predicate SlotOk(g: Graph, s: HalfEdgeSlot, h: int)
  {
    && 0 <= s.face < |g.faces|
    && 0 <= s.head < |g.vertices|
    && 0 <= s.opposite < |g.halfEdges|
    && 0 <= s.next < |g.halfEdges|
    && s.id == h
  }

  /** The arena is consistent as a memory image: every pointer that the
      engine dereferences is a handle of the arena, the live collections
      name slots of the arena, and HEE holds exactly the half-edges whose
      liveness flag is set. */
  predicate WellFormed(g: Graph)
  {
    && (forall h :: 0 <= h < |g.halfEdges| ==> SlotOk(g, g.halfEdges[h], h))
    && (forall v :: 0 <= v < |g.vertices| ==> Null <= g.vertices[v].edge < |g.halfEdges|)
    && (forall f :: 0 <= f < |g.faces| ==> 0 <= g.faces[f].edge < |g.halfEdges|)
    && (forall v :: v in g.hev ==> 0 <= v < |g.vertices|)
    && (forall f :: f in g.hef ==> 0 <= f < |g.faces|)
    && g.hee == LiveSet(g.halfEdges)
  }

  function Next(g: Graph, h: int): int
  {
    if 0 <= h < |g.halfEdges| then g.halfEdges[h].next else Null
  }

  function Opp(g: Graph, h: int): int
  {
    if 0 <= h < |g.halfEdges| then g.halfEdges[h].opposite else Null
  }

  function Head(g: Graph, h: int): int
  {
    if 0 <= h < |g.halfEdges| then g.halfEdges[h].head else Null
  }

  function FaceOf(g: Graph, h: int): int
  {
    if 0 <= h < |g.halfEdges| then g.halfEdges[h].face else Null
  }

  /** The vertex a half-edge leaves: the head of the half-edge before it. */
  function Tail(g: Graph, h: int): int
  {
    Head(g, Next(g, Next(g, h)))
  }

  function FaceEdge(g: Graph, f: int): int
  {
    if 0 <= f < |g.faces| then g.faces[f].edge else Null
  }

  function Rep(g: Graph, v: int): int
  {
    if 0 <= v < |g.vertices| then g.vertices[v].edge else Null
  }

  /** What a closed triangle mesh requires of a live half-edge h: it lies
      on a 3-cycle of `next` within one face, and it is one of the three
      half-edges of the cycle its face names; its twin is live, lies on
      another face, has h as twin, and heads where h starts; its head
      vertex and its face are live. */
  predicate LiveEdgeOk(g: Graph, h: int)
  {
    var f0 := FaceEdge(g, FaceOf(g, h));
    && Next(g, h) in g.hee
    && Next(g, h) != h
    && Next(g, Next(g, Next(g, h))) == h
    && FaceOf(g, Next(g, h)) == FaceOf(g, h)
    && (h == f0 || h == Next(g, f0) || h == Next(g, Next(g, f0)))
    && Opp(g, h) in g.hee
    && Opp(g, Opp(g, h)) == h
    && FaceOf(g, Opp(g, h)) != FaceOf(g, h)
    && Head(g, Opp(g, h)) == Tail(g, h)
    && Head(g, h) in g.hev
    && FaceOf(g, h) in g.hef
  }

  /** A live face names one of its own half-edges, and that one is live. */
  predicate LiveFaceOk(g: Graph, f: int)
  {
    FaceEdge(g, f) in g.hee && FaceOf(g, FaceEdge(g, f)) == f
  }

  /** A live vertex's representative, when set, leaves that vertex. */
  predicate RepOk(g: Graph, v: int)
  {
    Rep(g, v) == Null || Tail(g, Rep(g, v)) == v
  }

  /** The structural invariants of a closed triangle mesh: every live
      half-edge, face and vertex is as above, and there are three live
      half-edges per live face. */
  predicate Valid(g: Graph)
  {
    && WellFormed(g)
    && (forall h {:trigger LiveEdgeOk(g, h)} :: h in g.hee ==> LiveEdgeOk(g, h))
    && (forall f {:trigger LiveFaceOk(g, f)} :: f in g.hef ==> LiveFaceOk(g, f))
    && (forall v {:trigger RepOk(g, v)} :: v in g.hev ==> RepOk(g, v))
    && |g.hee| == 3 * |g.hef|
  }

  /** Every live vertex that has a representative has a live one. The
      engine relies on it: the walker returns nothing from a dead
      representative. */
  predicate RepsLive(g: Graph)
  {
    forall v :: v in g.hev && Rep(g, v) != Null ==> Rep(g, v) in g.hee
  }

  /** The handles 0 .. n-1. */
  function Range(n: nat): (r: set<int>)
    ensures forall h :: h in r <==> 0 <= h < n
  {
    if n == 0 then {} else Range(n - 1) + {n - 1}
  }
  /** Range(n) has n members. */
  lemma {:induction false} RangeSize(n: nat)
    ensures |Range(n)| == n
  {
    if n > 0 {
      var prev := Range(n - 1);
      RangeSize(n - 1);
      assert Range(n) == prev + {n - 1};
      assert n - 1 !in prev;
      assert |prev + {n - 1}| == |prev| + 1;
    }
  }


  /** The members of s below n, in increasing order. */
  function Ascending(s: set<int>, n: nat): (r: seq<int>)
    ensures forall i :: 0 <= i < |r| ==> 0 <= r[i] < n
  {
    if n == 0 then [] else Ascending(s, n - 1) + (if n - 1 in s then [n - 1] else [])
  }

  /** The ascending list holds exactly the members of s below n, strictly
      increasing. */
  lemma {:induction false} AscendingSpec(s: set<int>, n: nat)
    ensures forall i :: 0 <= i < |Ascending(s, n)| ==> Ascending(s, n)[i] in s
    ensures forall i, j :: 0 <= i < j < |Ascending(s, n)| ==> Ascending(s, n)[i] < Ascending(s, n)[j]
    ensures forall x :: x in s && 0 <= x < n ==> x in Ascending(s, n)
  {
    if n > 0 {
      AscendingSpec(s, n - 1);
      var r0 := Ascending(s, n - 1);
      assert forall i :: 0 <= i < |r0| ==> r0[i] in s;
      var r := r0 + (if n - 1 in s then [n - 1] else []);
      assert Ascending(s, n) == r;
      forall i | 0 <= i < |r|
        ensures r[i] in s
      {
        if i < |r0| {
          assert r[i] == r0[i];
          assert r0[i] in s;
        } else {
          assert n - 1 in s;
          assert r[i] == n - 1;
        }
      }
      forall i, j | 0 <= i < j < |r|
        ensures r[i] < r[j]
      {
        assert i < |r0| && r[i] == r0[i];
        if j < |r0| {
          assert r[j] == r0[j];
        } else {
          assert r[j] == n - 1 && r0[i] < n - 1;
        }
      }
      forall x | x in s && 0 <= x < n
        ensures x in r
      {
        if x < n - 1 {
          var i :| 0 <= i < |r0| && r0[i] == x;
          assert r[i] == x;
        } else {
          assert r[|r| - 1] == x;
        }
      }
    }
  }

  /** The members of s below n. */
  function Below(s: set<int>, n: nat): set<int>
  {
    set x | x in s && 0 <= x < n
  }

  /** The ascending list has one entry per member. */
  lemma {:induction false} AscendingCount(s: set<int>, n: nat)
    ensures |Ascending(s, n)| == |Below(s, n)|
  {
    if n == 0 {
      assert Below(s, n) == {};
    } else {
      AscendingCount(s, n - 1);
      var b0, b := Below(s, n - 1), Below(s, n);
      assert n - 1 !in b0;
      if n - 1 in s {
        assert b == b0 + {n - 1};
        assert |Ascending(s, n)| == |Ascending(s, n - 1)| + 1;
      } else {
        assert b == b0;
        assert Ascending(s, n) == Ascending(s, n - 1);
      }
    }
  }

  /** Two sets that agree below n list the same members. */
  lemma {:induction false} AscendingAgree(s: set<int>, t: set<int>, n: nat)
    requires forall x :: 0 <= x < n ==> (x in s <==> x in t)
    ensures Ascending(s, n) == Ascending(t, n)
  {
    if n > 0 {
      AscendingAgree(s, t, n - 1);
    }
  }

  /** All of 0 .. n-1, in order. */
  lemma {:induction false} AscendingRange(n: nat)
    ensures Ascending(Range(n), n) == seq(n, i => i)
  {
    if n > 0 {
      AscendingRange(n - 1);
      AscendingAgree(Range(n), Range(n - 1), n - 1);
      var a0 := seq(n - 1, i => i);
      assert n - 1 in Range(n);
      assert Ascending(Range(n), n) == Ascending(Range(n), n - 1) + [n - 1];
      assert a0 + [n - 1] == seq(n, i => i);
    }
  }
}

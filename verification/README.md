# Half-edge mesh simplifier, modelled in Dafny

This project models the core of a triangle-mesh simplifier. The simplifier turns a
face-vertex mesh (a vertex table `V` and 1-based triangles `F`) into a half-edge graph.
It removes edges one at a time by edge collapse, chosen at random and filtered by a
shared-neighbour test, and then turns the graph back into a face-vertex mesh.

The engine's pointer graph is an arena of slots addressed by integer handles:
- `MeshTypes.VertexSlot`, `MeshTypes.HalfEdgeSlot` and `MeshTypes.FaceSlot` stand for
  HEVertex, HEEdge and HEFace;
- handle `-1` stands for a null pointer;
- the `exists` flag of a half-edge is the slot field `alive`;
- the live collections HEV, HEE and HEF are sets of handles.

`MeshTypes.Graph` is one snapshot of the whole arena. `MeshTypes.Valid` states the
invariants of a closed triangle mesh:
- every live half-edge is on a 3-cycle of `next` on one face;
- twins are symmetric, lie on different faces, and head where their partner starts;
- every live face names one of its own half-edges;
- every live vertex's representative is null or leaves it.

The code is organised in layers:

- **Value model.** Each engine operation is a function over a snapshot:
  - `Walker`: the star walker and the feasibility test;
  - `EdgeCollapse`: the collapse executor;
  - `Builder`: convertMesh;
  - `Revert`: revertMesh;
  - `Driver`: collapseRandomEdges.

  Lemmas state what the source promises of each.
- **Class model.** `MeshEngine.Mesh` is the engine's `Mesh` class:
  - the fields `V` and `F`, the three slot tables, and the three live sets;
  - the operations as methods that update those fields in place, with loops and
    their invariants.

  Every method is proved to leave `Snapshot()` equal to the value-model function
  applied to the state it started in. The read-only methods are proved to return
  what the value-model function returns.

The collapse's representative repair is a parameter, `EdgeCollapse.RepairRule`:
- `AsWritten` is the repair at Source.cpp line 385, exactly as written;
- `AllEnds` is the corrected repair (see "## Findings").

Positions are triples of reals. The engine only compares them with `==`.

Three facts about the code that the model follows:
- **Winding of a built triangle.** For a triangle (a, b, c), half-edge 1 heads c,
  half-edge 2 heads b and half-edge 3 heads a, linked 1 → 2 → 3.
- **Tetrahedron.** The pair count accepts a tetrahedron's edges: the two endpoints
  share exactly two neighbours, so a tetrahedron can be collapsed further.
- **Input errors.** The code does not check its input; it asserts or reads
  unchecked. The model makes the conditions the code relies on into
  preconditions:
  - `Builder.WellIndexed`: every corner index is in range;
  - `Builder.DistinctKeys`, `Builder.NonDegenerate` and `Builder.Closed`, where a
    property needs them.

## Model

| member | source | states |
|---|---|---|
| MeshEngine.Mesh.constructor | meshsimp/Source.cpp:197 | A new mesh has empty tables and empty live collections. |
| MeshEngine.Mesh.Vcnt | meshsimp/Source.cpp:648-650 | Returns the number of live vertices. |
| MeshEngine.Mesh.Fcnt | meshsimp/Source.cpp:652-654 | Returns the number of live faces. |
| MeshTypes.RangeSize | meshsimp/Source.cpp:589-591 | The handles 0 .. n-1 number n, which is what the size assertions count. |
| MeshTypes.AscendingSpec | meshsimp/Source.cpp:435-438 | Listing a live set in handle order gives exactly its members, strictly increasing. |
| MeshTypes.AscendingCount | meshsimp/Source.cpp:435-438 | The ordered listing of a live set has one entry per member, so `advance(begin, k)` is defined for every k below the size. |
| MeshTypes.AscendingRange | meshsimp/Source.cpp:602-614 | All handles below n, listed in order, are 0, 1, ..., n-1. |
| Walker.Walk | meshsimp/Source.cpp:291-296 | A do-while walk visits at most its fuel of half-edges, all of them handles of the arena. |
| Walker.WalkShape | meshsimp/Source.cpp:291-296 | A walk starts at its start, each entry is the step from the one before, no later entry is the start, and a walk that ends before its fuel runs out ends where the next step returns to the start. |
| Walker.StarEdges | meshsimp/Source.cpp:274-299 | The half-edges the walker visits around v are handles of the arena. |
| Walker.HeadsSnoc | meshsimp/Source.cpp:293 | Recording one more half-edge appends its head to the neighbour list. |
| Walker.NeighboursSpec | meshsimp/Source.cpp:274-299 | getNeighbourVertices is empty exactly when v's representative is null or dead. Otherwise it starts with the representative's head, advances by `opposite->next`, never revisits the start, and returns one head per visited half-edge. On a valid mesh with a live representative the walk closes: its last half-edge steps back to the representative. |
| Walker.StepLive | meshsimp/Source.cpp:295 | On a valid mesh a step of either kind takes a live half-edge to a live one. |
| Walker.StepInjective | meshsimp/Source.cpp:295 | On a valid mesh a step of either kind is one-to-one on live half-edges. |
| Walker.OrbitLive | meshsimp/Source.cpp:291-296 | Every half-edge of a walk from a live half-edge is live. |
| Walker.OrbitDistinct | meshsimp/Source.cpp:291-296 | A walk from a live half-edge on a valid mesh never visits a half-edge twice. |
| Walker.WalkCloses | meshsimp/Source.cpp:291-296 | On a valid mesh the walk from a live half-edge returns to its start within the fuel bound: it has at most one entry per live half-edge, all live and distinct, and its last entry steps back to the start. |
| Walker.PairCountEmpty | meshsimp/Source.cpp:301-319 | A vertex with no neighbours shares no pair with any other. |
| Walker.OccurrencesDistinct | meshsimp/Source.cpp:309-313 | The inner loop counts one match for a position that appears in a list without repeats, and none otherwise. |
| Walker.PairCountIsIntersection | meshsimp/Source.cpp:301-319 | When neither neighbour list repeats a position, the pair count is the size of the set of shared positions. |
| Walker.DistinctInit | meshsimp/Source.cpp:307-315 | Dropping the last entry of a list without repeats leaves a list without repeats that does not contain that entry. |
| Walker.CommonSnoc | meshsimp/Source.cpp:307-315 | One more distinct position adds one shared position exactly when the other list contains it. |
| Walker.PairCountOvercounts | meshsimp/Source.cpp:307-315 | The count is a plain pair count, not a set intersection: a repeated position is counted once per pair. |
| Walker.CanCollapseLiveEnds | meshsimp/Source.cpp:328-337 | An edge that canEdgeCollapse accepts has live representatives and non-empty neighbour lists at both ends. |
| Walker.StaleVertexIsFrozen | meshsimp/Source.cpp:283-286 | A vertex whose representative is dead blocks every edge at it, because the walker's empty result makes its count 0. |
| EdgeCollapse.CanCollapseReady | meshsimp/Source.cpp:328-337 | An accepted edge is one that collapseEdge can dereference, and both endpoint representatives are in HEE. |
| EdgeCollapse.AllEndsRepCases | meshsimp/Source.cpp:385-388 | The corrected repair keeps a representative unless it is retired, and otherwise replaces it by one of the outer twins. |
| EdgeCollapse.CollapsedSlot | meshsimp/Source.cpp:378-419 | collapseEdge never changes a half-edge's face, next or id. It changes a head only to v2, and it only ever clears the live flag. |
| EdgeCollapse.Collapse | meshsimp/Source.cpp:360-421 | The whole effect of collapseEdge slot by slot: representatives repaired by the rule, half-edges as CollapsedSlot, faces unchanged, v1 removed from HEV, the six half-edges removed from HEE, the two faces removed from HEF. Nothing else changes. |
| EdgeCollapse.CornersInRange | meshsimp/Source.cpp:362-375 | Every half-edge and vertex collapseEdge reads is a handle of the arena. |
| EdgeCollapse.CollapseSlotOk | meshsimp/Source.cpp:378-419 | Every half-edge slot after the collapse addresses the arena and keeps its id. |
| EdgeCollapse.CollapseWellFormed | meshsimp/Source.cpp:360-421 | A collapse of any edge it can dereference leaves the arena a consistent memory image. |
| EdgeCollapse.HalfEdgeFacts | meshsimp/Source.cpp:115-155 | In a valid mesh a live half-edge is on a 3-cycle of one face, its twin is live on another face and has it as twin and heads where it starts, and its head and face are live. |
| EdgeCollapse.SameFace | meshsimp/Source.cpp:115-155 | Two live half-edges of one face lie on one 3-cycle. |
| EdgeCollapse.OtherFace | meshsimp/Source.cpp:115-155 | A live half-edge off a 3-cycle lies on another face. |
| EdgeCollapse.CornersLive | meshsimp/Source.cpp:362-375 | The ten half-edges collapseEdge names are live, with the expected next and twin links. |
| EdgeCollapse.CornersFaces | meshsimp/Source.cpp:362-375 | The two triangles beside the edge are distinct live faces, and no outer twin lies on its neighbour triangle. |
| EdgeCollapse.CornersHeads | meshsimp/Source.cpp:362-375 | v1 and v2 are live; e_prev heads v2 and et_prev heads v1. |
| EdgeCollapse.CornersDistinct | meshsimp/Source.cpp:402-412 | The six half-edges erased are six distinct handles, and the four outer twins are four distinct survivors. |
| EdgeCollapse.SixDistinct | meshsimp/Source.cpp:402-412 | Six pairwise distinct handles form a set of six. |
| EdgeCollapse.SettingReady | meshsimp/Source.cpp:328-337 | An accepted edge of a valid mesh, whose triangles share only it and around whose v1 the fan is single, is in the setting the invariant proofs use. |
| EdgeCollapse.HeadWalkIntoV1 | meshsimp/Source.cpp:378-383 | Every half-edge on the head-rewrite walk is live and heads v1. |
| EdgeCollapse.HeadWalkCloses | meshsimp/Source.cpp:378-383 | On a valid mesh the head-rewrite walk starts at the twin of v1's representative and returns to it within the fuel bound. |
| EdgeCollapse.HeadAfter | meshsimp/Source.cpp:378-383 | After the collapse every live half-edge's head is its old head with v1 renamed to v2, and dead half-edges keep theirs. |
| EdgeCollapse.TailAfter | meshsimp/Source.cpp:378-383 | The tail of a live half-edge is renamed the same way. |
| EdgeCollapse.Survivor | meshsimp/Source.cpp:402-419 | A half-edge still in HEE after the collapse was live, is none of the six, and neither it nor the rest of its triangle lies on a removed face. |
| EdgeCollapse.CollapseCounts | meshsimp/Source.cpp:402-419 | A collapse removes exactly 6 half-edges, 2 faces and 1 vertex, so it keeps V - E + F. |
| EdgeCollapse.HeadRewriteComplete | meshsimp/Source.cpp:378-383 | When v1's incoming half-edges form one fan, the head rewrite reaches them all: afterwards no half-edge in HEE has v1's handle as its head. |
| EdgeCollapse.PositionsAssertedIff | meshsimp/Source.cpp:395-397 | The assertion loop, which compares vertices by position with the operator!= of lines 92-97, holds exactly when v2 and every other vertex a live half-edge heads lie at positions other than v1's. |
| EdgeCollapse.CycleAfter | meshsimp/Source.cpp:360-421 | A surviving half-edge keeps its 3-cycle on one face, and its face still names a half-edge of that cycle. |
| EdgeCollapse.TwinAfterFacts | meshsimp/Source.cpp:389-393 | The re-linked twin of a survivor is a survivor whose re-linked twin is the survivor, on another face, heading where the survivor starts once v1 is renamed to v2. |
| EdgeCollapse.TwinOkAfter | meshsimp/Source.cpp:389-393 | After the collapse a survivor's twin is live, has it as twin, lies on another face and heads where it starts. |
| EdgeCollapse.IncidentAfter | meshsimp/Source.cpp:360-421 | A survivor's head vertex and face are still live. |
| EdgeCollapse.FaceAfter | meshsimp/Source.cpp:360-421 | A surviving face still names one of its own live half-edges. |
| EdgeCollapse.RepAfter | meshsimp/Source.cpp:385-388 | A surviving vertex's representative, when set, still leaves it. |
| EdgeCollapse.CollapseKeepsValid | meshsimp/Source.cpp:360-421 | The closed-triangle-mesh invariants survive the collapse of an edge in its setting, under either repair rule. |
| EdgeCollapse.ENextNeverV2Rep | meshsimp/Source.cpp:385 | The second test of line 385 never fires on a valid mesh: e_next leaves v1, never v2. |
| EdgeCollapse.AsWrittenLeavesDeadRep | meshsimp/Source.cpp:385-388 | As written, a surviving vertex whose representative is one of the six retired half-edges, other than edgeToRemove, keeps that dead representative. |
| EdgeCollapse.AllEndsKeepsRepsLive | meshsimp/Source.cpp:385-388 | With the corrected repair every live vertex keeps a live representative. |
| EdgeCollapse.AllEndsRepLive | meshsimp/Source.cpp:385-388 | The corrected repair gives one surviving vertex a live representative. |
| Builder.SetAt | meshsimp/Source.cpp:539-558 | Setting one twin entry changes that entry and no other. |
| Builder.Link | meshsimp/Source.cpp:539-558 | One twin check keeps the table's length. |
| Builder.LinkSpec | meshsimp/Source.cpp:539-558 | One twin check: when the reverse key is in the map, the two half-edges get each other as twin, and nothing else changes. |
| Builder.Initial | meshsimp/Source.cpp:484-492 | Before the face loop every vertex has a null representative, there are no half-edges, and the edge map is empty. |
| Builder.FaceReps | meshsimp/Source.cpp:512-521 | The representative assignments of one triangle keep one entry per vertex. |
| Builder.FaceEdges | meshsimp/Source.cpp:534-536 | Filing one triangle adds exactly its three keys (a, c), (c, b) and (b, a) to the edge map. |
| Builder.FaceTwins | meshsimp/Source.cpp:539-558 | The three twin checks of one triangle keep the twin table's length. |
| Builder.FaceTwinsAt | meshsimp/Source.cpp:539-558 | The twin entries after the three checks, one check after another. |
| Builder.AddFace | meshsimp/Source.cpp:495-579 | One face-loop iteration adds three half-edges and keeps every map entry a half-edge handle. |
| Builder.BuildUpTo | meshsimp/Source.cpp:495-580 | After k faces there are 3k half-edges, and every map entry names one of them. |
| Builder.Assemble | meshsimp/Source.cpp:477-596 | The built arena has one vertex per input vertex, three half-edges per triangle and one face per triangle. |
| Builder.Build | meshsimp/Source.cpp:477-596 | convertMesh on an empty arena yields |V| vertices, 3|F| half-edges and |F| faces. |
| Builder.CornerCycle | meshsimp/Source.cpp:524-526 | Three next steps return to the start, and the half-edge two steps on heads where the start leaves. |
| Builder.AssembledSlot | meshsimp/Source.cpp:524-570 | A built half-edge has face h/3, the corner's head and the next of its triangle; its id is its creation index, it is live, and its twin is the one the loop linked. |
| Builder.AssembledFace | meshsimp/Source.cpp:495-579 | Triangle j is built as half-edges 3j, 3j+1, 3j+2 on face j, linked in that order and heading c, b, a; face j names 3j. |
| Builder.AssembledCounts | meshsimp/Source.cpp:589-591 | The live counts are |V| and |F| with |HEE| = 3·|HEF|, and the ids are 0, 1, 2, ... in creation order. |
| Builder.AddFaceReps | meshsimp/Source.cpp:512-521 | One triangle keeps every representative null or leaving its vertex. |
| Builder.BuildRepsStep | meshsimp/Source.cpp:512-521 | The representative invariant carries from k-1 faces to k faces. |
| Builder.BuildReps | meshsimp/Source.cpp:512-521 | After every face a representative is null until a triangle uses the vertex, and a half-edge leaving it afterwards. |
| Builder.FaceKeys | meshsimp/Source.cpp:534-536 | The three half-edges of triangle k are filed under (a, c), (c, b) and (b, a). |
| Builder.AddFaceEdges | meshsimp/Source.cpp:534-536 | One triangle keeps every half-edge so far filed, under its own key. |
| Builder.BuildEdgesStep | meshsimp/Source.cpp:534-536 | The edge-map invariant carries from k-1 faces to k faces. |
| Builder.BuildEdges | meshsimp/Source.cpp:534-536 | After k faces the edge map files exactly the first 3k half-edges, each under its own (tail, head) key. |
| Builder.FiledUnder | meshsimp/Source.cpp:534-536 | With distinct keys, the map entry under a half-edge's key is that half-edge. |
| Builder.FaceMap | meshsimp/Source.cpp:534-536 | After filing triangle k its keys name its half-edges, and each reverse key is filed exactly as before. |
| Builder.NewHalfEdgeTwin | meshsimp/Source.cpp:539-558 | A new half-edge gets as twin the earlier half-edge under its reverse key, or null. |
| Builder.OldHalfEdgeTwin | meshsimp/Source.cpp:539-558 | An earlier half-edge keeps its partner unless it is filed under the reverse of a new key, and then it gets the new half-edge. |
| Builder.AddFaceTwins | meshsimp/Source.cpp:539-558 | One triangle keeps every half-edge's twin equal to its reverse-key partner. |
| Builder.BuildTwinsStep | meshsimp/Source.cpp:539-558 | The twin invariant carries from k-1 faces to k faces. |
| Builder.BuildTwins | meshsimp/Source.cpp:539-558 | After k faces every half-edge's twin is the half-edge filed under its reverse key, or null when there is none yet. |
| Builder.NoReverseInTriangle | meshsimp/Source.cpp:539-558 | Two half-edges of one non-degenerate triangle never have reverse keys. |
| Builder.FinalState | meshsimp/Source.cpp:495-580 | The final face-loop state satisfies the representative, edge-map and twin invariants. |
| Builder.BuildTwin | meshsimp/Source.cpp:539-558 | A built half-edge's twin is null exactly when no triangle uses the reverse key, and otherwise it is the half-edge with the reverse key. |
| Builder.BuiltCycleOk | meshsimp/Source.cpp:524-531 | A built triangle is a 3-cycle of live half-edges on one live face that names one of them. Each half-edge heads the corner's vertex and leaves the head of the half-edge two steps on. |
| Builder.BuiltTwinOk | meshsimp/Source.cpp:582-585 | On a closed mesh every built twin is live, has the half-edge as twin, lies on another face and heads where the half-edge starts. |
| Builder.BuildCounts | meshsimp/Source.cpp:589-591 | After convertMesh, HEV holds exactly the |V| vertices, HEF the |F| faces, and HEE 3·|HEF| half-edges; every vertex keeps its input position. |
| Builder.BuiltFace | meshsimp/Source.cpp:495-579 | Built triangle j heads c, b, a along half-edges 3j -> 3j+1 -> 3j+2 -> 3j on face j, which names 3j. |
| Builder.BuiltRep | meshsimp/Source.cpp:512-521 | A built representative is null, or a half-edge leaving its vertex. |
| Builder.BuildWellFormed | meshsimp/Source.cpp:477-596 | convertMesh of a closed mesh builds a consistent arena. |
| Builder.BuiltRepsOk | meshsimp/Source.cpp:512-521 | Every built vertex's representative is null or a live half-edge leaving it. |
| Builder.BuiltEdgesOk | meshsimp/Source.cpp:524-558 | Every built half-edge of a closed mesh satisfies the half-edge invariants. |
| Builder.BuiltFacesOk | meshsimp/Source.cpp:529-531 | Every built face names its first half-edge, which is live and on that face. |
| Builder.BuildValid | meshsimp/Source.cpp:477-596 | convertMesh of a closed mesh that uses each directed edge once and repeats no vertex builds a valid half-edge mesh in which every representative is live. |
| Revert.IndicesSpec | meshsimp/Source.cpp:602-614 | The index map holds every listed vertex's position, and each entry is the 1-based rank of a vertex at that position. |
| Revert.IndexOfDistinct | meshsimp/Source.cpp:602-614 | With distinct positions the i-th listed vertex gets index i + 1. |
| Revert.Lookup | meshsimp/Source.cpp:622-628 | `indices[p]` is the recorded index, or 0 for a position not recorded. |
| Revert.WellFormedReadable | meshsimp/Source.cpp:598-637 | Every well-formed arena can be reverted. |
| Revert.LiveVertices | meshsimp/Source.cpp:602-614 | The vertices revertMesh lists are handles of the arena. |
| Revert.LiveFaces | meshsimp/Source.cpp:618-632 | The faces revertMesh lists are handles of the arena. |
| Revert.RevertCounts | meshsimp/Source.cpp:616-634 | revertMesh appends one vertex per live vertex and one triangle per live face. |
| Revert.RevertIndexRange | meshsimp/Source.cpp:622-628 | Every corner index written is 0 or a 1-based index among the appended vertices. |
| Revert.LookupLive | meshsimp/Source.cpp:622-628 | With distinct live positions, a live vertex's index names that vertex among the appended ones. |
| Revert.RevertFaithful | meshsimp/Source.cpp:618-632 | On a valid mesh with distinct live positions, a face's triangle is (head of next(next e), head of next e, head of e) by rank. |
| Revert.RevertedVertex | meshsimp/Source.cpp:602-614 | The i-th appended vertex is the position of the i-th live vertex. |
| Revert.BuildReadable | meshsimp/Source.cpp:598-637 | Every arena convertMesh builds can be reverted. |
| Revert.BuildLiveOrder | meshsimp/Source.cpp:598-637 | A freshly built arena lists its vertices and faces in input order. |
| Revert.RoundTripFace | meshsimp/Source.cpp:618-632 | With distinct input positions, the j-th reverted triangle of a built arena is the j-th input triangle, same orientation. |
| Revert.RoundTripVertices | meshsimp/Source.cpp:602-614 | The reverted vertex table of a built arena is the input one. |
| Revert.RoundTrip | meshsimp/Source.cpp:598-637 | convertMesh then revertMesh gives back the input mesh when no two input vertices share a position. |
| Driver.Pick | meshsimp/Source.cpp:435-438 | The k-th element of HEE is a live half-edge. |
| Driver.CollapseShrinks | meshsimp/Source.cpp:440-446 | A collapse strictly shrinks HEE and does not grow HEV or HEF. |
| Driver.RunNoEdges | meshsimp/Source.cpp:432 | With HEE empty the loop stops where it is. The source divides by zero there. |
| Driver.RejectEnds | meshsimp/Source.cpp:447-456 | A helper unfolding of Run at a rejected draw: past the counter limit the graph is unchanged; otherwise the run ends where the run with one more draw and one more rejection ends. |
| Driver.RejectedOutcome | meshsimp/Source.cpp:447-456 | A counted rejection does not change the run's outcome. |
| Driver.RunAccepts | meshsimp/Source.cpp:440-446 | An accepted draw is collapsed, the collapse shrinks HEE, and the run continues with the counter reset to 0. |
| Driver.RunRejects | meshsimp/Source.cpp:447-456 | A helper unfolding of Run at a rejected draw: it gives up when the counter exceeds 10000 and otherwise increments it. |
| Driver.AcceptPromised | meshsimp/Source.cpp:440-446 | An accepted collapse in front of a run that keeps the driver's promise gives a run that keeps it. |
| Driver.RunSpec | meshsimp/Source.cpp:423-461 | Every run keeps the driver's promise. The result is the replay of the reported collapses, each accepted when it was made; HEV, HEE and HEF only shrink; the run reports Reached exactly when it ends at or below the target; and NoEdges only with HEE empty. What a Stagnated stop implies is Driver.StagnatedRejected. |
| Driver.AcceptSpec | meshsimp/Source.cpp:440-446 | The driver's promise after an accepted draw. |
| Driver.RejectSpec | meshsimp/Source.cpp:447-456 | The driver's promise after a rejected draw. |
| Driver.StagnatedPromised | meshsimp/Source.cpp:449-454 | Giving up on the counter keeps the promise with the graph unchanged. |
| Driver.PromisedEarlier | meshsimp/Source.cpp:423-461 | A promise about a run started later holds for an earlier start. |
| Driver.NothingBelowTarget | meshsimp/Source.cpp:429 | At or below the target face count the driver collapses nothing and draws nothing. |
| Driver.FirstDrawDefined | meshsimp/Source.cpp:432 | On a valid mesh above a non-negative target HEE holds at least 3 half-edges, so the first draw does not divide by zero. |
| Driver.RejectsNext | meshsimp/Source.cpp:447-456 | A run of rejected draws begins with a rejected draw and continues with a shorter run. |
| Driver.StagnatesStep | meshsimp/Source.cpp:447-456 | One more rejection in front of a stagnating run is a stagnating run. |
| Driver.StagnatesLast | meshsimp/Source.cpp:449 | With the counter past 10000 one rejection ends the run. |
| Driver.Stagnation | meshsimp/Source.cpp:447-456 | If every draw the counter still allows is rejected, the driver stops after exactly those draws (10002 from a fresh counter), above the target, with the graph unchanged. |
| Driver.StagnatedRejected | meshsimp/Source.cpp:429-456 | The converse of Stagnation: a run that stops with Stagnated ends above the target with HEE not empty, and the 10002 draws before it stopped (those the counter allowed, when it made no collapse) were all rejected on the final graph; with no collapse the graph is the one it started from. |
| MeshEngine.VertexTable | meshsimp/Source.cpp:484-492 | The vertex records hold the input positions with the given representatives. |
| MeshEngine.SlotTable | meshsimp/Source.cpp:495-579 | The half-edge records of the built triangles, with the given twins. |
| MeshEngine.FaceTable | meshsimp/Source.cpp:529-531 | Face j's record names half-edge 3j. |
| MeshEngine.VertexTableSet | meshsimp/Source.cpp:512-521 | Setting a vertex record's representative sets it in the representative table. |
| MeshEngine.SlotTableSet | meshsimp/Source.cpp:539-558 | Setting a half-edge record's twin sets it in the twin table. |
| MeshEngine.SlotTableAppend | meshsimp/Source.cpp:495-570 | Appending a triangle's three records extends the record table with three null-twin slots. |
| MeshEngine.TablesAreBuild | meshsimp/Source.cpp:477-596 | The records after the face loop form the arena convertMesh builds. |
| MeshEngine.Relinked | meshsimp/Source.cpp:389-393 | The four re-link assignments keep the record table's length. |
| MeshEngine.RelinkedSlots | meshsimp/Source.cpp:389-393 | The four re-link assignments change only twins, each to the twin the assignments leave. |
| MeshEngine.Retired | meshsimp/Source.cpp:414-419 | Retiring records keeps the table's length. |
| MeshEngine.RetiredSlots | meshsimp/Source.cpp:414-419 | Retiring clears the live flag of exactly the listed records. |
| MeshEngine.HeadsSet | meshsimp/Source.cpp:378-383 | The head rewrite sets the head of every half-edge on the walk to v2 and changes nothing else. |
| MeshEngine.HeadsSetSlots | meshsimp/Source.cpp:378-383 | After the head rewrite, a record is the old one with its head set to v2 when it is on the walk. |
| MeshEngine.HeadsSetAppend | meshsimp/Source.cpp:378-383 | Rewriting one more half-edge extends the rewrite by that half-edge. |
| MeshEngine.RenameStep | meshsimp/Source.cpp:378-383 | One iteration of the head-rewrite loop keeps its invariant. |
| MeshEngine.RenameRecord | meshsimp/Source.cpp:380 | Rewriting the current record is the rewrite along the walk extended by it. |
| MeshEngine.RenameAdvance | meshsimp/Source.cpp:381 | Stepping by `next->opposite` advances along the walk or ends it. |
| MeshEngine.RenameAlong | meshsimp/Source.cpp:378-383 | The head-rewrite loop sets to v2 the head of exactly the half-edges on the `next->opposite` walk from v1's representative's twin. |
| MeshEngine.Six | meshsimp/Source.cpp:402-419 | The list of retired half-edges holds exactly the six of the two triangles. |
| MeshEngine.ChainSlots | meshsimp/Source.cpp:378-419 | Head rewrite, re-link and retire, applied in that order, change each record as CollapsedSlot says. |
| MeshEngine.CollapseSlots | meshsimp/Source.cpp:378-419 | The three record passes produce the collapsed half-edge table. |
| MeshEngine.SlotsAgree | meshsimp/Source.cpp:378-419 | Two record tables that agree slot by slot are equal. |
| MeshEngine.CollapseVertices | meshsimp/Source.cpp:385-388 | The repaired vertex table is the collapsed one. |
| MeshEngine.LinkPair | meshsimp/Source.cpp:539-558 | One twin check on the records is the twin check on the twin table. |
| MeshEngine.FaceRepsTable | meshsimp/Source.cpp:512-521 | The three representative assignments on the records are FaceReps on the table. |
| MeshEngine.AddVertices | meshsimp/Source.cpp:484-492 | The vertex loop creates one record per input vertex with a null representative, and HEV holds them all. |
| MeshEngine.AppendFace | meshsimp/Source.cpp:495-536 | Creating one triangle's records appends three half-edges and a face, sets the representatives, and files the three keys. |
| MeshEngine.AddFaceRecords | meshsimp/Source.cpp:495-579 | One face-loop iteration keeps the records equal to the value model after one more face. |
| MeshEngine.FaceTableAppend | meshsimp/Source.cpp:561 | Inserting one face record extends the face table by face k. |
| MeshEngine.RangeStep | meshsimp/Source.cpp:561-570 | Inserting a face and its three half-edges extends HEF and HEE by exactly those handles. |
| MeshEngine.RangeThree | meshsimp/Source.cpp:568-570 | Three half-edges inserted extend the handle range by three. |
| MeshEngine.FaceStep | meshsimp/Source.cpp:495-579 | The state after face k is the state before it with the triangle added. |
| MeshEngine.LinkFace | meshsimp/Source.cpp:539-558 | The three twin checks on the records are FaceTwins on the twin table. |
| MeshEngine.BuildArena | meshsimp/Source.cpp:477-596 | The two loops of convertMesh build exactly the arena Build describes. |
| MeshEngine.StarLoopStep | meshsimp/Source.cpp:291-296 | One iteration of the walker loop keeps the visited prefix of the star walk and the neighbour list in step. |
| MeshEngine.Mesh.GetNeighbourVertices | meshsimp/Source.cpp:274-299 | Returns exactly Neighbours of the current graph and changes nothing. |
| MeshEngine.Mesh.CountCommonVertices | meshsimp/Source.cpp:301-319 | Returns exactly the pair count of the two neighbour lists. |
| MeshEngine.Mesh.CountMatches | meshsimp/Source.cpp:309-313 | The inner loop counts the neighbours of v2 at position p. |
| MeshEngine.Mesh.CanEdgeCollapse | meshsimp/Source.cpp:328-337 | Returns true exactly when the edge is non-null, live, and its ends have pair count 2, and changes nothing. |
| MeshEngine.Mesh.RenameHeads | meshsimp/Source.cpp:378-383 | Rewrites the heads along the walk to v2 and changes nothing else. |
| MeshEngine.Mesh.RepairReps | meshsimp/Source.cpp:385-388 | Sets every vertex's representative as the repair rule says and changes nothing else. |
| MeshEngine.Mesh.RepairAsWritten | meshsimp/Source.cpp:385-388 | The repair as written: v2's representative becomes et_prev's twin when its id is e's or e_next's. |
| MeshEngine.Mesh.RepairAllEnds | meshsimp/Source.cpp:385-388 | The corrected repair, with its three checks in order. |
| MeshEngine.Mesh.Relink | meshsimp/Source.cpp:389-393 | The four twin assignments, in order, and nothing else. |
| MeshEngine.Mesh.Retire | meshsimp/Source.cpp:402-419 | Erases v1, the six half-edges and the two faces from the live collections, and clears the six live flags. |
| MeshEngine.Mesh.ReadCorners | meshsimp/Source.cpp:362-375 | Reads the half-edges, vertices and faces collapseEdge names. |
| MeshEngine.Mesh.CollapseEdge | meshsimp/Source.cpp:360-421 | Leaves the arena equal to Collapse of the arena it started from, and V and F unchanged. |
| MeshEngine.Mesh.Accept | meshsimp/Source.cpp:440-446 | An accepted draw collapses the edge, shrinks HEE, and the run from the new state ends where the run from the old one ends. |
| MeshEngine.Mesh.Reject | meshsimp/Source.cpp:447-456 | A rejected draw stops exactly when the counter exceeds 10000, otherwise increments it, and changes nothing. |
| MeshEngine.Mesh.Attempt | meshsimp/Source.cpp:429-459 | One loop iteration: it stops where the run stops, or continues with the counter reset and HEE shrunk, or with the counter incremented and HEE unchanged. |
| MeshEngine.Mesh.CollapseRandomEdges | meshsimp/Source.cpp:423-461 | Leaves the arena equal to the final graph of Driver.CollapseRandomEdges from the arena it started from. |
| MeshEngine.Mesh.ConvertMesh | meshsimp/Source.cpp:477-596 | Leaves the arena equal to Build of the input tables, and clears V and F. |
| MeshEngine.Mesh.RevertMesh | meshsimp/Source.cpp:598-637 | Appends to V and F exactly what Revert.RevertMesh computes from the arena, and leaves the arena unchanged. |
| MeshEngine.Mesh.AppendVertices | meshsimp/Source.cpp:602-614 | Appends the live vertices' positions in handle order and returns the index map. |
| MeshEngine.Mesh.AppendFaces | meshsimp/Source.cpp:618-632 | Appends one triangle per live face, in handle order. |

## Left out

- File I/O and the console are not modelled: `loadMF`, `writeMF`, `simplifyMesh`, `main`, and every `cout`, including the driver's give-up message.
- Floating-point positions are triples of reals compared with `==`. The position ordering, NaN and rounding are not modelled.
- `rand()` is a parameter `rand: nat -> nat`: the value of the k-th call.
- HEV, HEE and HEF are sets of handles iterated in increasing handle order. The source iterates a `std::set` of pointers in address order. A fresh build lists its records in creation order, which the round-trip lemmas use.
- Memory is not modelled: allocation, the missing `delete`, and dangling pointers. Records are arena slots, and retired ones keep their slot with the live flag cleared.
- Open meshes are outside the model. A null twin is dereferenced by the walker and the collapse; `MeshTypes.WellFormed` makes every twin a handle.
- Walker.Walk: the do-while loops of the walker and the head rewrite run for at most one iteration per half-edge slot (a fuel bound). The source loops until it returns to its start. On a valid mesh the bound never cuts a walk short (Walker.WalkCloses); on a corrupt graph the source might never terminate, which the model does not capture.
- Driver.RunNoEdges: with HEE empty the source computes `rand() % 0`, which is undefined behaviour. The model stops with reason `NoEdges`.
- MeshEngine.Mesh.ConvertMesh: requires an empty arena. The source appends to whatever is there, but it is only ever called on a new mesh.
- Builder.Build: input errors the code does not check are preconditions: out-of-range indices, repeated directed edges, degenerate triangles and open meshes.
- Revert.RevertMesh: the index map is keyed by position, as in the source, so vertices at one position share an index. The round-trip and faithfulness lemmas assume distinct positions.
- Revert.Lookup: models `indices[p]` for a position never recorded as 0, the value `std::map::operator[]` inserts.
- EdgeCollapse.Collapse: identifiers are set when a record is created. The assignment loop at lines 564-566 is folded into creation.
- The assertion loop at lines 395-397 is not a method of its own. It compares vertices with HEVertex's operator!= (lines 92-97), which compares positions, not handles. EdgeCollapse.PositionsAssertedIff shows that it fails when v2, or another vertex a live half-edge heads, lies at v1's position; a valid mesh does not rule that out. EdgeCollapse.HeadRewriteComplete proves the handle form of the check.
- The twin assertion loop at lines 582-585 is not a method of its own; Builder.BuiltTwinOk proves it holds on a closed mesh.
- EdgeCollapse.CollapseKeepsValid: assumes the two triangles share only the collapsed edge and v1's fan is single. The shared-neighbour test does not imply this on every mesh, for example a two-triangle pillow with coincident positions.
- `collapseVertices` is not modelled: it only prints.
- `debugAdjacentEdges` is not modelled: it has no effect.
- `neighborFaces` and `adjacentVertices` are not modelled: they return empty lists.

## Findings

| source | as written | input that shows it | evidently intended | confidence | as-written member | corrected member |
|---|---|---|---|---|---|---|
| meshsimp/Source.cpp:385 | Only v2's representative is repaired, and only when it is edgeToRemove or e_next. e_next leaves v1, so it is never v2's representative; et_next, which does leave v2 and is retired, is not checked. The representatives of the two apex vertices are never checked either, though e_prev and et_prev, which leave them, are retired. | A tetrahedron with faces (1,2,3), (1,3,4), (1,4,2), (2,4,3), collapsing half-edge 7, the second half-edge of face (1,4,2), from vertex 2 to vertex 4. Vertex 2 survives, and its representative is half-edge 9, which is et_next and is retired, so vertex 2 keeps a dead representative. After that, the walker returns no neighbours for it and no edge at it is ever collapsed. | Every retired representative is replaced by a surviving half-edge that leaves the same vertex: et_next by et_prev's twin, e_prev by e_next's twin, et_prev by et_next's twin. | not executed | EdgeCollapse.AsWrittenLeavesDeadRep | EdgeCollapse.AllEndsKeepsRepsLive |

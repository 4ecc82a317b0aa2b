# Neighbour tracking of a Voronoi cell

This project models `neighbor_track` from voro++ (`neighbor.cc`). For one
convex Voronoi cell, the tracker records which neighbour lies across each
face. The neighbour is either a particle id or a negative wall code. The
tracker keeps one slot `ne[i][j]` per directed edge `(i, j)` of the cell's
vertex/edge graph. The edge graph itself belongs to the owning cell: `p`
vertices, degrees `nu`, the edge table `ed` and the rotation `cycle_up`.

The model has four modules.

- `Faces` (Faces.dfy) describes the cell's edge graph as a value.
  - The face walk is the chain of successor edges `Succ`: at the
    destination, take the slot after the mate slot.
  - `Scan` finds the faces in vertex-major, slot-minor order, as the
    traversals do. It tracks the visited edges as a set.
  - It proves that the faces found partition the directed edges.
  - On a closed mesh, where the edges split into face cycles, it proves
    that every face walk closes (`Tiled`, `FacesClose`).
- `CellTables` (CellTables.dfy) is the owning cell's side. It holds the
  edge table as an `array<array<int>>`. It also holds the imperative face
  walk and the restore pass, which mark and unmark entries in place by
  `ed[k][l] = -1 - ed[k][l]`.
  - The walk (`WalkFace`, `WalkOn`) is proved to return the one face
    `Face(i, j, visited)`. It leaves the table as `Marked(T, visited)`
    plus that face's edges.
  - The restore pass (`Restore`) is proved to return the table to its
    original contents. It computes no faces.
  - The scan over all edges, which finds `Faces.Scan`'s faces, is
    `Tracking.NeighborTrack.ScanRows`.
- `FaceActions` (FaceActions.dfy) states on values what each traversal does
  with the faces it finds.
  - Labelling writes the face number to every edge (`Labelled`).
  - Listing reads the first edge's id (`Listing`).
  - Checking reports the edges whose id differs from the first edge's
    (`Mismatches`).
- `Tracking` (Tracking.dfy) is the class `NeighborTrack`.
  - It has the fields `ne`, `mne`, `paux1` and `paux2`.
  - A row pointer is a handle: a buffer and an offset, so pointer
    arithmetic and aliasing into `mne` are kept.
  - The class holds the row and pointer primitives, the two seed
    initialisers and the three traversals `label_facets`, `neighbors` and
    `facet_check`.
  - Each traversal is proved against the functions above: the resulting
    rows, output ids or reports, and the edge table restored.

## Model

| member | source | states |
|---|---|---|
| Faces.Flip | neighbor.cc:184 | Marking sends a non-negative entry to a negative one and back, and marking twice gives the entry back. |
| Faces.MarkedToggle | neighbor.cc:184-189 | Flipping one entry of a table that carries the marks `S` gives the table with that edge's mark toggled. |
| Faces.Graph.WalkStep | neighbor.cc:187-193 | One pass of the do-while either closes the walk at an edge leading back to `i` or continues from the successor edge, with that edge marked. |
| Faces.Graph.WalkShape | neighbor.cc:187-193 | A successful walk is a chain of successor edges. None of them was visited before, and only the last leads back to the start vertex. |
| Faces.Graph.FaceShape | neighbor.cc:182-193 | A face walked from `(i, j)` starts at `(i, j)` and has at least two edges. It is a successor chain that only closes at its last edge. |
| Faces.Graph.FaceClosed | neighbor.cc:182-193 | Every successfully walked face is a closed walk. |
| Faces.Graph.FaceElems | neighbor.cc:182-193 | The edges of a walked face are edges of the cell, include `(i, j)` and were all unvisited. |
| Faces.Graph.ScanFace | neighbor.cc:182-193 | An unmarked edge met by the scan adds its face next, or ends the scan with that walk's fault. |
| Faces.Graph.ScanFresh | neighbor.cc:180-196 | Each face the scan finds is a closed walk that avoids all edges visited before it. |
| Faces.Graph.ScanCovers | neighbor.cc:180-196 | Every unvisited edge at or after the scan position lies on some face the scan finds. |
| Faces.FreshDisjoint | neighbor.cc:180-196 | Faces found this way are pairwise disjoint closed walks. |
| Faces.Graph.RotateCycle | neighbor.cc:187-193 | A face cycle read from any of its edges is a face cycle with the same edges. |
| Faces.Graph.WalkAlong | neighbor.cc:187-193 | On a face cycle that starts at vertex `i`, with none of its edges visited, the do-while crosses the rest of the cycle and stops at its last edge. |
| Faces.Graph.FaceOnCycle | neighbor.cc:182-193 | The walk from the first edge of an unvisited face cycle returns exactly that cycle. |
| Faces.Graph.FaceOfTiling | neighbor.cc:182-193 | On a closed mesh, the walk from an unmarked edge closes. Marking its edges keeps the visited set made of whole face cycles. |
| Faces.Graph.StepOnTiling | neighbor.cc:181-183 | One step of the scan on a closed mesh keeps the visited set made of whole face cycles. |
| Faces.Graph.ScanOnTiling | neighbor.cc:180-196 | On a closed mesh, the scan over whole visited cycles never meets a walk that fails to close. |
| Faces.Graph.FacesClose | neighbor.cc:199 | On a closed mesh (`Tiled`: the edges split into successor cycles that meet no vertex twice), `Faces()` succeeds, so no fatal error is raised. |
| Faces.FacesPartition | neighbor.cc:180-196 | When every walk closes, the faces partition the directed edges: each face is closed, no edge lies on two faces, and every edge lies on one. |
| CellTables.Cell.RowOfTable | neighbor.cc:178 | Row `a` of the table value is the array row `ed[a]`. |
| CellTables.Cell.FlipEntry | neighbor.cc:184 | `ed[k][l] = -1 - ed[k][l]` flips exactly that entry of the table value. |
| CellTables.Cell.ReadEntry | neighbor.cc:182-186 | In a table carrying marks, an entry is the original flipped exactly when its edge is marked. Mate slots are never marked. |
| CellTables.Cell.MarkStep | neighbor.cc:188-191 | Reading a negative entry means the edge was already marked, and nothing changes. Otherwise the edge is marked, and the destination and next edge are `Dest` and `Succ`. |
| CellTables.Cell.WalkFace | neighbor.cc:182-193 | The walk from `(i, j)` returns `Face(i, j, visited)` and leaves exactly the visited and walked edges marked. |
| CellTables.Cell.WalkOn | neighbor.cc:187-193 | The do-while continues the walk as `WalkFrom` does, and marks each edge it crosses. |
| CellTables.Cell.Restore | neighbor.cc:197-202 | Starting with every edge marked, the restore pass returns the edge table to its original contents. |
| CellTables.Cell.RestoreRow | neighbor.cc:198-201 | In row `i`, each entry is found marked and unmarked, so the fatal branch cannot be taken. |
| CellTables.Cell.Unmark | neighbor.cc:199-200 | A marked entry reads negative and is unmarked. |
| FaceActions.PaintAt | neighbor.cc:242-247 | After painting a walk with `q`, the edges on the walk hold `q` and every other entry is unchanged. |
| FaceActions.LabelledOn | neighbor.cc:236-253 | After labelling disjoint faces, every edge of face `k` holds `k + 1`. |
| FaceActions.LabelledOff | neighbor.cc:236-253 | Labelling leaves an edge that lies on no face unchanged. |
| FaceActions.ListingAt | neighbor.cc:209-213 | Entry `k` of the listing is the id of face `k`'s first edge. |
| FaceActions.ListingAfterLabel | neighbor.cc:236-253 | Listing disjoint faces right after labelling them gives `1, 2, .., n`. |
| FaceActions.MisNoneIff | neighbor.cc:187-193 | A walk gets no report exactly when every edge on it holds the expected id. |
| FaceActions.MisSound | neighbor.cc:190 | Every report names an edge of the walk and the id it holds, which differs from the expected one. It also names the face's first edge and id. |
| FaceActions.MisComplete | neighbor.cc:190 | Every edge of the walk whose id differs from the expected one is reported, with the id it holds. |
| FaceActions.FaceReportsSound | neighbor.cc:185-193 | Every report for a face names an edge after its first, that edge's differing id, and the face's first edge and id. |
| FaceActions.MismatchesSound | neighbor.cc:180-196 | Every report of the check is one made for some face: an edge after the first, holding an id other than the first edge's. |
| FaceActions.MismatchesComplete | neighbor.cc:180-196 | Every edge after the first of a face whose id differs from the first edge's is reported. With MismatchesSound, an edge is reported exactly when its id differs. |
| FaceActions.FaceReportsNoneIff | neighbor.cc:185-193 | A face gets no report exactly when it is uniform. |
| FaceActions.CheckCleanIffUniform | neighbor.cc:180-196 | The check reports nothing exactly when every face is uniform. |
| FaceActions.LabelThenCheckClean | neighbor.cc:240-252 | The check run right after labelling reports nothing. |
| Tracking.CopyWindow | neighbor.cc:125 | The element-by-element copy loop replaces the destination window with the source window and changes nothing else in the destination. |
| Tracking.WriteSeed | neighbor.cc:61-68 | Writing the seed values in order leaves them in the storage from the offset on, with the rest untouched. |
| Tracking.Grow | neighbor.cc:41-43 | The grown pointer array is fresh, has the new length and keeps the first `keep` pointers. The new slots hold no pointer. |
| Tracking.SetAux2CopyLosesRow | neighbor.cc:123-126 | The copy as written makes the row hold the staging values. Whenever the two differ, the row's own ids are lost. |
| Tracking.BoxRowsOfSeed | neighbor.cc:61-70 | Corner `v` of the box gets ids `3v .. 3v+2` of the seed. |
| Tracking.OctahedronRowsOfSeed | neighbor.cc:77-83 | Vertex `v` of the octahedron gets ids `4v .. 4v+3` of the seed. |
| Tracking.BoxCorners | neighbor.cc:61-68 | Each box corner names three distinct walls, one from each opposite pair. |
| Tracking.BoxWalls | neighbor.cc:61-68 | Every box id lies in `-6 .. -1`, and each wall is named at exactly the four corners on its side. |
| Tracking.OctahedronVertices | neighbor.cc:77-82 | Every octahedron id lies in `-8 .. -1`. Each vertex names four distinct faces, and opposite vertices share none. |
| Tracking.OctahedronFaces | neighbor.cc:77-82 | Each octahedron face is named at exactly one vertex of each opposite pair. |
| Tracking.NextRowFits | neighbor.cc:90 | The row at `mne[n] + n * mec[n]` lies inside storage for `mem[n]` rows while `mec[n] < mem[n]`. |
| Tracking.TallyStep | neighbor.cc:240-252 | Handling one more face extends the rows, ids and reports by that face. |
| Tracking.ScanStep | neighbor.cc:182-193 | A successful walk from an unmarked edge advances the scan by one face, with that face's edges marked. |
| Tracking.StageStep | neighbor.cc:182-193 | One walked face advances both the scan and what the traversal has made of the faces. |
| Tracking.RowEnd | neighbor.cc:181 | The end of row `i` is the start of row `i + 1`. |
| Tracking.StageRowEnd | neighbor.cc:181 | The same step, for the traversal's whole state. |
| Tracking.TallyStart | neighbor.cc:236 | A traversal starts at label 1, with nothing written and nothing reported. |
| Tracking.ScanStart | neighbor.cc:180 | The scan starts with nothing marked and nothing found. |
| Tracking.ScanEnd | neighbor.cc:180-197 | At the end of the scan every edge is marked, and the faces found are all the faces. |
| Tracking.LabelEveryEdge | neighbor.cc:237-253 | After labelling, each edge holds the number of the face it lies on, a number from 1 to the face count. |
| Tracking.LabelThenList | neighbor.cc:236-253 | Listing after labelling gives `1, 2, .., n`, with no gaps. |
| Tracking.LabelThenCheck | neighbor.cc:236-253 | Checking after labelling reports nothing. |
| Tracking.NeighborTrack.RowEntry | neighbor.cc:185 | The id of edge `(v, s)` in the rows is the slot `ne[v][s]`. |
| Tracking.NeighborTrack.Set | neighbor.cc:99-101 | `ne[a][b] = c` writes one slot. On laid-out rows it changes the id of edge `(a, b)` and no other. |
| Tracking.NeighborTrack.Copy | neighbor.cc:94-96 | `ne[a][b] = ne[c][d]`: edge `(a, b)` takes the old id of `(c, d)`, and nothing else changes. |
| Tracking.NeighborTrack.SetPointer | neighbor.cc:89-91 | `ne[p]` becomes `mne[n] + n * mec[n]`, and no other pointer changes. The row fits while `mec[n] < mem[n]`. |
| Tracking.NeighborTrack.SetAux1 | neighbor.cc:106-108 | `paux1` becomes the first unused row of degree `k`, which fits while `mec[k] < mem[k]`. |
| Tracking.NeighborTrack.CopyAux1 | neighbor.cc:111-113 | `paux1[b] = ne[a][b]` changes one slot. Rows clear of that slot are unchanged. |
| Tracking.NeighborTrack.CopyAux1Shift | neighbor.cc:117-119 | `paux1[b] = ne[a][b + 1]` changes one slot. Rows clear of that slot are unchanged. |
| Tracking.NeighborTrack.CopyToAux1 | neighbor.cc:166-168 | `paux1[m] = mne[i][m]` changes one slot. Rows clear of that slot are unchanged. |
| Tracking.NeighborTrack.CopyPointer | neighbor.cc:129-131 | `ne[a] = ne[b]`; no other pointer changes. |
| Tracking.NeighborTrack.SetToAux1 | neighbor.cc:134-136 | `ne[j] = paux1`; no other pointer changes. |
| Tracking.NeighborTrack.SetToAux2 | neighbor.cc:139-141 | `ne[j] = paux2`; no other pointer changes. |
| Tracking.NeighborTrack.SetToAux1Offset | neighbor.cc:171-173 | `ne[k] = paux1 + m`; no other pointer changes. |
| Tracking.NeighborTrack.SwitchToAux1 | neighbor.cc:159-162 | `mne[i] = paux1`; no other storage pointer changes. |
| Tracking.NeighborTrack.SetAux2Copy | neighbor.cc:123-126 | As written: `paux2` points at the first unused row of degree `b`, and `ne[a][0 .. b-1]` is overwritten with that row's values. The staging row keeps its own values. |
| Tracking.NeighborTrack.SetAux2CopyInto | neighbor.cc:121-126 | As documented: `paux2` points at the first unused row of degree `b`, and that row receives `ne[a][0 .. b-1]`. Row `a` keeps its ids. |
| Tracking.NeighborTrack.AddMemoryVertices | neighbor.cc:39-44 | `ne` is replaced by a fresh array of `i` pointers that keeps the first `current_vertices`. The rows are unchanged. |
| Tracking.NeighborTrack.AddMemoryVorder | neighbor.cc:48-53 | `mne` is replaced by a fresh array of `i` pointers that keeps the first `current_vertex_order`. The rows are unchanged. |
| Tracking.NeighborTrack.SeededLaid | neighbor.cc:69-70 | Rows of degree `n` laid back to back are in bounds and do not overlap. |
| Tracking.NeighborTrack.SeededRows | neighbor.cc:58-71 | Such rows are the consecutive chunks of the seed values. |
| Tracking.NeighborTrack.SeededRow | neighbor.cc:69-70 | A row pointed at offset `a` of the stored seed holds the seed values from `a` on, as many as its degree. |
| Tracking.NeighborTrack.Init | neighbor.cc:58-71 | The box seed is written to `mne[3]`, and `ne[v] = mne[3] + 3v` for `v < 8`, with every later pointer unchanged. On a cell of eight degree-3 corners, the rows are the box rows. |
| Tracking.NeighborTrack.InitOctahedron | neighbor.cc:74-84 | The octahedron seed is written to `mne[4]`, and `ne[v] = mne[4] + 4v` for `v < 6`. On a cell of six degree-4 vertices, the rows are the octahedron rows. |
| Tracking.NeighborTrack.Separate | neighbor.cc:242 | The neighbour rows and the edge-table rows are different arrays, so writing one never changes the other. |
| Tracking.NeighborTrack.PaintFace | neighbor.cc:241-250 | Writing `q` to each edge of the walk gives `Paint(rows, walk, q)`. The edge table is untouched. |
| Tracking.NeighborTrack.CheckFace | neighbor.cc:185-193 | The reports for one face are `FaceReports` of the rows. The rows and edge table are unchanged. |
| Tracking.NeighborTrack.Walk | neighbor.cc:186-193 | The face walk returns `Face(i, j, vis)`, marks exactly its edges and leaves the neighbour rows alone. |
| Tracking.NeighborTrack.TakeFace | neighbor.cc:240-252 | Per mode: labelling paints the face with `q`, listing appends the first edge's id, checking appends the face's reports. `q` goes up by one. |
| Tracking.NeighborTrack.VisitEdge | neighbor.cc:181-183 | A marked edge is passed over. An unmarked one adds one face to the traversal's state, or ends it with the walk's fault. |
| Tracking.NeighborTrack.NewFace | neighbor.cc:182-193 | From an unmarked edge, the face is walked and handled, and the traversal's state advances by that face. |
| Tracking.NeighborTrack.ScanRow | neighbor.cc:181-195 | Visiting the slots of row `i` in order advances the state from row `i` to row `i + 1`. |
| Tracking.NeighborTrack.StartScanning | neighbor.cc:180 | The traversal's state holds before the first row. |
| Tracking.NeighborTrack.ScanRows | neighbor.cc:180-196 | The first pass either fails exactly as `Faces()` does, or ends with every edge marked. In that case the rows, ids and reports are what the mode makes of all faces. |
| Tracking.NeighborTrack.RestorePass | neighbor.cc:197-202 | With every edge marked, the second pass returns the edge table to its original contents and leaves the rows alone. |
| Tracking.NeighborTrack.Traverse | neighbor.cc:177-203 | A traversal either fails as `Faces()` does, or finds exactly `Faces()`, restores the edge table and makes the mode's result. |
| Tracking.NeighborTrack.LabelFacets | neighbor.cc:234-261 | The rows become `Labelled(rows, faces)`, numbering the faces 1.. in scan order, and the face count is returned. The edge table comes back unchanged. On a closed mesh no fatal error is raised. |
| Tracking.NeighborTrack.Neighbors | neighbor.cc:206-231 | The output is the first-edge id of each face, in scan order. The rows are not written, and the edge table comes back unchanged. On a closed mesh no fatal error is raised. |
| Tracking.NeighborTrack.FacetCheck | neighbor.cc:177-203 | The output is every edge whose id differs from its face's first edge, face by face. The rows are not written, and the edge table comes back unchanged. On a closed mesh no fatal error is raised. |

## Left out

- The constructor, destructor, `allocate` and `allocate_aux1` (neighbor.cc:13-35, 153-155) allocate and free memory. The model's constructor takes already allocated arrays.
- Tracking.NeighborTrack.SwitchToAux1: does not model the `delete []` of the old storage; only the pointer swap is modelled.
- `print_edges` and `print` (neighbor.cc:144-149, 263-265) are text output and are not modelled.
- The output formatting is left out. `neighbors` returns the sequence of ids instead of writing them to a stream. `facet_check` returns a `Report` per inconsistency (edge, id found, first edge, id expected) instead of writing a message.
- `cycle_up`, `ed`, `nu`, `p`, `mec`, `mem`, `current_vertices` and `current_vertex_order` belong to the owning cell, and the cell's source is not part of this model. They are constants of `CellTables.Cell`, and `cycle_up` is a function value. `Graph.WellFormed` states what the model assumes about them: destinations are vertices, mate indices are slots of the destination, and the rotation stays within a vertex's slots.
- The source does not guard a face walk that reaches an edge it has already marked before returning to its start vertex: the next loop step indexes the edge table with a negative vertex. The model ends the traversal there with the result `Fatal(FaceNotClosed(edge))` instead.
- The traversals fail exactly when `Faces()` fails. `Faces()` is proved to succeed on a closed mesh (`Graph.Tiled`), so there no fatal error is raised. A table that is only `WellFormed` can still fail: where two edges share a successor, a walk can reach an edge it already marked before it returns to its start vertex. Nothing is proved about such tables beyond that failure being reported. When the scan succeeds, the fatal error of the second pass (neighbor.cc:199, 227, 257) is proved unreachable.
- In `label_facets` the source writes each label as it walks. The model walks the face first and then writes its labels. The walk reads and writes only the edge table, labelling touches only the neighbour rows, and the two are proved to be different arrays, so the result is the same.
- Tracking.NeighborTrack.LabelFacets: also returns the number of faces labelled (`q - 1`), which the source keeps local.
- Tracking.NeighborTrack.SetAux2Copy: requires the row and the staging window not to overlap, which the source does not demand. With an overlap, the element-by-element copy would read slots it has already written.
- Tracking.NeighborTrack.SetAux2CopyInto: has the same no-overlap requirement.
- Tracking.NeighborTrack.Set: states the effect on the rows only when they are laid out (in bounds, not overlapping) and `(a, b)` is an edge. Otherwise it states only the one slot written.
- Tracking.NeighborTrack.CopyAux1: states that the rows are unchanged only when the written slot is clear of every live row. The same holds for CopyAux1Shift and CopyToAux1.
- Tracking.NeighborTrack.Init: concludes the box rows only for a cell of eight degree-3 corners whose storage is not an edge-table row, which the owning cell guarantees. The same holds for InitOctahedron with six degree-4 vertices.
- Tracking.NeighborTrack.AddMemoryVertices: new slots hold `Null`, where the source leaves them uninitialised. The same holds for AddMemoryVorder.
- Integers are unbounded. An overflow of `n * mec[n]` or of the label counter is not modelled.

## Findings

| source | as written | input that shows it | evidently intended | confidence | as-written member | corrected member |
|---|---|---|---|---|---|---|
| neighbor.cc:123-126 | `ne[a][i] = paux2[i]` copies the fresh row over row `a` | Row `a` = (-1, -2, -3), fresh row (0, 0, 0), `b = 3`: row `a` becomes (0, 0, 0) (Tracking.SetAux2CopyLosesRow), and the fresh row keeps (0, 0, 0), so it never receives (-1, -2, -3) (second ensures of Tracking.NeighborTrack.SetAux2Copy) | `paux2[i] = ne[a][i]`: copy row `a` into the fresh row, as the function's own comment says | not executed | Tracking.NeighborTrack.SetAux2Copy | Tracking.NeighborTrack.SetAux2CopyInto |

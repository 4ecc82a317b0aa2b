/**
  The neighbour tracker of a Voronoi cell. For every vertex `v` of the cell,
  `ne[v]` points at a row of `nu[v]` neighbour ids, one per edge leaving `v`:
  the id of the plane (or wall) whose face lies on that edge's left. Rows of
  degree `n` are carved out of the storage `mne[n]`, `n` entries per vertex,
  and `mec[n]` counts the rows of that degree in use. Two scratch pointers,
  `paux1` and `paux2`, stage rows while the cell is being cut.

  A pointer is modelled as a handle: the buffer it points into and an offset.
  Pointer arithmetic moves the offset; two pointers alias when they share the
  buffer and their windows overlap.
*/
module Tracking {
  import opened Faces
  import opened FaceActions
  import opened CellTables

  /** A pointer into a buffer of ids, or no pointer at all. */
  datatype Ptr = Null | Into(buf: array<int>, off: int)

  /** Pointer arithmetic: `q + d`. */
  function Offset(q: Ptr, d: int): (r: Ptr)
    ensures r.Into? <==> q.Into?
    ensures r.Into? ==> r.buf == q.buf && r.off == q.off + d
  {
    match q
    case Null => Null
    case Into(b, o) => Into(b, o + d)
  }

  /** `q[0 .. n-1]` are slots of its buffer. */
  predicate Fits(q: Ptr, n: int) {
    q.Into? && 0 <= q.off && 0 <= n && q.off + n <= q.buf.Length
  }

  /** The windows `q[0 .. n-1]` and `r[0 .. m-1]` share no slot. */
  predicate Apart(q: Ptr, n: int, r: Ptr, m: int) {
    q.Null? || r.Null? || q.buf != r.buf || q.off + n <= r.off || r.off + m <= q.off
  }

  /** The `n` values from offset `off` of `s`. */
  function Window(s: seq<int>, off: int, n: int): seq<int>
    requires 0 <= off && 0 <= n && off + n <= |s|
  {
    s[off .. off + n]
  }

  /** `s` with the values from offset `off` on replaced by `w`. */
  function Overwrite(s: seq<int>, off: int, w: seq<int>): (t: seq<int>)
    requires 0 <= off && off + |w| <= |s|
    ensures |t| == |s| && t[off .. off + |w|] == w
    ensures t[..off] == s[..off] && t[off + |w|..] == s[off + |w|..]
  {
    s[..off] + w + s[off + |w|..]
  }

  /** Writing the next value of `w` extends an overwrite by one slot. */
  lemma OverwriteStep(s: seq<int>, off: int, w: seq<int>, i: int)
    requires 0 <= off && off + |w| <= |s| && 0 <= i < |w|
    ensures Overwrite(s, off, w[..i])[off + i := w[i]] == Overwrite(s, off, w[..i + 1])
  {
    var t := Overwrite(s, off, w[..i])[off + i := w[i]];
    var u := Overwrite(s, off, w[..i + 1]);
    forall k | 0 <= k < |s| ensures t[k] == u[k] {
      if k < off {
        assert t[k] == s[k] == u[k];
      } else if k < off + i {
        assert t[k] == w[k - off] == u[k];
      } else if k > off + i {
        assert t[k] == s[k] == u[k];
      }
    }
  }

  /** An overwrite leaves a window apart from it as it was. */
  lemma OverwriteApart(s: seq<int>, off: int, w: seq<int>, off2: int, n: int)
    requires 0 <= off && off + |w| <= |s| && 0 <= off2 && 0 <= n && off2 + n <= |s|
    requires off + |w| <= off2 || off2 + n <= off
    ensures Window(Overwrite(s, off, w), off2, n) == Window(s, off2, n)
  {
    var t := Overwrite(s, off, w);
    forall k | off2 <= k < off2 + n ensures t[k] == s[k] {
      if k < off {
        assert t[..off][k] == s[..off][k];
      } else {
        assert t[off + |w|..][k - off - |w|] == s[off + |w|..][k - off - |w|];
      }
    }
  }

  /** A write to slot `k` changes a window only at that slot. */
  lemma WindowWrite(s: seq<int>, off: int, n: int, k: int, x: int)
    requires 0 <= off && 0 <= n && off + n <= |s| && 0 <= k < |s|
    ensures Window(s[k := x], off, n) ==
      if off <= k < off + n then Window(s, off, n)[k - off := x] else Window(s, off, n)
  {
  }

  /** Copying the staging window over a row, as `set_aux2_copy` does, loses
      the row's ids whenever the two differ: the row ends up holding the
      staging values, and the staging window never receives the row's. */
  lemma SetAux2CopyLosesRow(row: seq<int>, off: int, staged: seq<int>, soff: int, b: int)
    requires 0 <= off && 0 <= b && off + b <= |row| && 0 <= soff && soff + b <= |staged|
    requires Window(staged, soff, b) != Window(row, off, b)
    ensures Window(Overwrite(row, off, Window(staged, soff, b)), off, b) == Window(staged, soff, b)
    ensures Window(Overwrite(row, off, Window(staged, soff, b)), off, b) != Window(row, off, b)
  {
  }

  /** Copies `src[soff .. soff+n-1]` over `dst[doff .. doff+n-1]`, slot by
      slot from the first; the two windows do not overlap. */
  method CopyWindow(dst: array<int>, doff: int, src: array<int>, soff: int, n: int)
    requires 0 <= n && 0 <= doff && doff + n <= dst.Length && 0 <= soff && soff + n <= src.Length
    requires dst != src || doff + n <= soff || soff + n <= doff
    modifies dst
    ensures dst[..] == Overwrite(old(dst[..]), doff, old(Window(src[..], soff, n)))
  {
    ghost var w := Window(src[..], soff, n);
    ghost var orig := dst[..];
    var i := 0;
    while i < n
      invariant 0 <= i <= n
      invariant Window(src[..], soff, n) == w
      invariant dst[..] == Overwrite(orig, doff, w[..i])
    {
      ghost var before := dst[..];
      dst[doff + i] := src[soff + i];
      OverwriteStep(orig, doff, w, i);
      if dst == src {
        WindowWrite(before, soff, n, doff + i, w[i]);
      }
      i := i + 1;
    }
    assert w[..n] == w;
  }

  /** Writes the values `w` to `dst[off ..]`, in order. */
  method WriteSeed(dst: array<int>, off: int, w: seq<int>)
    requires 0 <= off && off + |w| <= dst.Length
    modifies dst
    ensures dst[..] == Overwrite(old(dst[..]), off, w)
  {
    ghost var orig := dst[..];
    var i := 0;
    while i < |w|
      invariant 0 <= i <= |w|
      invariant dst[..] == Overwrite(orig, off, w[..i])
    {
      dst[off + i] := w[i];
      OverwriteStep(orig, off, w, i);
      i := i + 1;
    }
    assert w[..|w|] == w;
  }

  /** A fresh pointer array of length `n` holding the first `keep` pointers
      of `a`, and no pointer after them. */
  method Grow(a: array<Ptr>, keep: nat, n: int) returns (b: array<Ptr>)
    requires keep <= n && keep <= a.Length
    ensures fresh(b) && b.Length == n
    ensures b[..keep] == a[..keep]
    ensures forall k :: keep <= k < n ==> b[k] == Null
  {
    b := new Ptr[n](_ => Null);
    var j := 0;
    while j < keep
      invariant 0 <= j <= keep
      invariant b[..j] == a[..j]
      invariant forall k :: keep <= k < n ==> b[k] == Null
    {
      b[j] := a[j];
      j := j + 1;
    }
  }

  /** The neighbour ids of the rectangular box, three per corner: corner `v`
      gets slots `3v .. 3v+2`. Walls are numbered `-1`/`-2` (x), `-3`/`-4` (y)
      and `-5`/`-6` (z). */
  function BoxSeed(): seq<int> {
    [-5, -3, -1,  -5, -2, -3,  -5, -1, -4,  -5, -4, -2,
     -6, -1, -3,  -6, -3, -2,  -6, -4, -1,  -6, -2, -4]
  }

  /** The neighbour ids of the octahedron, four per vertex: vertex `v` gets
      slots `4v .. 4v+3`; the faces are numbered `-1 .. -8`. */
  function OctahedronSeed(): seq<int> {
    [-5, -6, -7, -8,  -1, -2, -3, -4,  -6, -5, -2, -1,
     -8, -7, -4, -3,  -5, -8, -3, -2,  -7, -6, -1, -4]
  }

  /** The pointers `q, q + n, .., q + n(k-1)`: `k` rows of degree `n` laid
      back to back. */
  function Strided(q: Ptr, n: int, k: nat): (ps: seq<Ptr>)
    ensures |ps| == k && forall v :: 0 <= v < k ==> ps[v] == Offset(q, n * v)
  {
    seq(k, v => Offset(q, n * v))
  }

  /** Chunk `v` of `flat` cut into pieces of `n`. */
  function Chunk(flat: seq<int>, n: nat, v: int): seq<int>
    requires 0 <= v && n * v + n <= |flat|
  {
    flat[n * v .. n * v + n]
  }

  lemma SliceOfSlice(s: seq<int>, off: int, flat: seq<int>, a: int, n: int)
    requires 0 <= off && off + |flat| <= |s| && s[off .. off + |flat|] == flat
    requires 0 <= a && 0 <= n && a + n <= |flat|
    ensures s[off + a .. off + a + n] == flat[a .. a + n]
  {
    forall k | a <= k < a + n ensures s[off + k] == flat[k] {
      assert s[off .. off + |flat|][k] == s[off + k];
    }
  }

  /** The box seed cut into its eight rows. */
  function BoxRows(): seq<seq<int>> {
    [[-5, -3, -1], [-5, -2, -3], [-5, -1, -4], [-5, -4, -2],
     [-6, -1, -3], [-6, -3, -2], [-6, -4, -1], [-6, -2, -4]]
  }

  /** The octahedron seed cut into its six rows. */
  function OctahedronRows(): seq<seq<int>> {
    [[-5, -6, -7, -8], [-1, -2, -3, -4], [-6, -5, -2, -1],
     [-8, -7, -4, -3], [-5, -8, -3, -2], [-7, -6, -1, -4]]
  }

  /** A slice of three elements, written out. */
  lemma SliceOfThree(s: seq<int>, i: nat)
    requires i + 3 <= |s|
    ensures s[i..i + 3] == [s[i], s[i + 1], s[i + 2]]
  {
  }

  /** A slice of four elements, written out. */
  lemma SliceOfFour(s: seq<int>, i: nat)
    requires i + 4 <= |s|
    ensures s[i..i + 4] == [s[i], s[i + 1], s[i + 2], s[i + 3]]
  {
  }

  lemma BoxRowsOfSeed()
    ensures |BoxRows()| == 8 && forall v :: 0 <= v < 8 ==> BoxRows()[v] == Chunk(BoxSeed(), 3, v)
  {
    var s := BoxSeed();
    forall v | 0 <= v < 8
      ensures BoxRows()[v] == Chunk(s, 3, v)
    {
      SliceOfThree(s, 3 * v);
    }
  }

  lemma OctahedronRowsOfSeed()
    ensures |OctahedronRows()| == 6 && forall v :: 0 <= v < 6 ==> OctahedronRows()[v] == Chunk(OctahedronSeed(), 4, v)
  {
    var s := OctahedronSeed();
    forall v | 0 <= v < 6
      ensures OctahedronRows()[v] == Chunk(s, 4, v)
    {
      SliceOfFour(s, 4 * v);
    }
  }

  /** No id occurs twice in `row`. */
  predicate DistinctIds(row: seq<int>) {
    forall i, j :: 0 <= i < j < |row| ==> row[i] != row[j]
  }

  /** Each corner of the box touches three distinct walls, one across each
      axis. */
  lemma BoxCorners()
    ensures forall v :: 0 <= v < 8 ==> |BoxRows()[v]| == 3 && DistinctIds(BoxRows()[v])
    ensures forall v :: 0 <= v < 8 ==>
      ((-1 in BoxRows()[v]) != (-2 in BoxRows()[v])) &&
      ((-3 in BoxRows()[v]) != (-4 in BoxRows()[v])) &&
      ((-5 in BoxRows()[v]) != (-6 in BoxRows()[v]))
  {
  }

  /** Corner `v` of the box lies on wall `-1` when `v` is even, on wall `-3`
      when `v mod 4 < 2` and on wall `-5` when `v < 4` (and on the opposite
      wall otherwise), so each wall is named at exactly four corners; no other
      id is named. */
  lemma BoxWalls()
    ensures forall v :: 0 <= v < 8 ==>
      (-1 in BoxRows()[v] <==> v % 2 == 0) &&
      (-3 in BoxRows()[v] <==> v % 4 < 2) &&
      (-5 in BoxRows()[v] <==> v < 4)
    ensures forall k :: 0 <= k < 24 ==> -6 <= BoxSeed()[k] <= -1
  {
  }

  /** Each vertex of the octahedron touches four distinct faces, numbered
      `-1 .. -8`; the opposite vertices `0, 1`, `2, 3` and `4, 5` share none. */
  lemma OctahedronVertices()
    ensures forall v :: 0 <= v < 6 ==> |OctahedronRows()[v]| == 4 && DistinctIds(OctahedronRows()[v])
    ensures forall k :: 0 <= k < 24 ==> -8 <= OctahedronSeed()[k] <= -1
    ensures forall k, x :: 0 <= k < 3 && x in OctahedronRows()[2 * k] ==> x !in OctahedronRows()[2 * k + 1]
  {
  }

  /** Each face of the octahedron is named at exactly one vertex of each
      opposite pair, so at three vertices: it is a triangle. */
  lemma OctahedronFaces()
    ensures forall x, k :: -8 <= x <= -1 && 0 <= k < 3 ==>
      (x in OctahedronRows()[2 * k]) != (x in OctahedronRows()[2 * k + 1])
  {
  }

  /** The first unused row of degree `n`, after `used` rows of `n` slots,
      ends within storage for `cap` rows when `used < cap`. */
  lemma {:induction false} NextRowFits(n: int, used: int, cap: int)
    requires 0 <= n && 0 <= used < cap
    ensures 0 <= n * used && n * used + n <= n * cap
    decreases n
  {
    if n > 0 {
      NextRowFits(n - 1, used, cap);
      assert n * used == (n - 1) * used + used;
      assert n * cap == (n - 1) * cap + cap;
    }
  }

  /** Which of the three traversals runs: `label_facets`, `neighbors` or
      `facet_check`. They share the scan and the face walk and differ in what
      they do with each face. */
  datatype Mode = Label | List | Check

  /** What a traversal has produced so far: the next label `q` (one more than
      the faces found), the ids written out and the inconsistencies reported. */
  datatype Tally = Tally(q: int, ids: seq<int>, reports: seq<Report>)

  /** The state of a traversal, as values, when its scan reaches edge
      `(i, j)`: the edge table `T` holds the marks `vis`, which cover every
      edge before `(i, j)`; `found` are the faces found so far, and the faces
      still to come are what the scan from `(i, j)` finds; the rows `R` and
      the tally `t` are what the traversal has made of `found` from the rows
      `R0` it started with. */
  ghost predicate Stage(mode: Mode, g: Graph, R0: seq<seq<int>>, vis: set<Edge>, i: int, j: int,
                        found: seq<seq<Edge>>, t: Tally, R: seq<seq<int>>, T: seq<seq<int>>)
  {
    Scanned(g, vis, i, j, found, T) && Made(mode, R0, found, t, R)
  }

  /** The scan has reached `(i, j)` with the marks `vis` in the table `T`,
      having found `found`. */
  ghost predicate Scanned(g: Graph, vis: set<Edge>, i: int, j: int, found: seq<seq<Edge>>, T: seq<seq<int>>) {
    g.WellFormed() && |g.T| == g.p &&
    0 <= i <= g.p && 0 <= j && (i < g.p ==> j <= g.nu[i]) &&
    g.Covers(vis, i, j) && T == Marked(g.T, vis) &&
    g.Faces() == Then(found, g.Scan(i, j, vis))
  }

  /** The rows `R` and the tally `t` are what the traversal has made of the
      faces `found`, from the rows `R0` it started with. */
  ghost predicate Made(mode: Mode, R0: seq<seq<int>>, found: seq<seq<Edge>>, t: Tally, R: seq<seq<int>>) {
    t.q == |found| + 1 &&
    R == (if mode == Label then Labelled(R0, found) else R0) &&
    t.ids == (if mode == List then Listing(R0, found) else []) &&
    t.reports == (if mode == Check then Mismatches(R0, found) else [])
  }

  /** What the traversal has made of the faces found, one face later: the
      rows, the ids and the reports follow the face just found. */
  lemma TallyStep(mode: Mode, R0: seq<seq<int>>, found: seq<seq<Edge>>, t: Tally, R: seq<seq<int>>,
                  face: seq<Edge>, first: int, t': Tally)
    requires Made(mode, R0, found, t, R)
    requires mode == List ==> first == StartId(R, face)
    requires t'.q == t.q + 1
    requires t'.ids == if mode == List then t.ids + [first] else t.ids
    requires t'.reports == if mode == Check then t.reports + FaceReports(R, face) else t.reports
    ensures Made(mode, R0, found + [face], t', if mode == Label then Paint(R, face, t.q) else R)
  {
    var fs := found + [face];
    assert fs[..|found|] == found && fs[|found|] == face;
  }

  /** The scan at an unmarked edge `(i, j)` whose face walk succeeded moves
      to `(i, j + 1)` with the face's edges marked and the face found. */
  lemma ScanStep(g: Graph, vis: set<Edge>, i: int, j: int, found: seq<seq<Edge>>, face: seq<Edge>)
    requires Scanned(g, vis, i, j, found, Marked(g.T, vis))
    requires g.IsEdge(Edge(i, j)) && Edge(i, j) !in vis && g.Face(i, j, vis) == Ok(face)
    ensures Scanned(g, vis + Elems(face), i, j + 1, found + [face], Marked(g.T, vis + Elems(face)))
    ensures face[0] == Edge(i, j)
  {
    g.FaceElems(i, j, vis);
    g.FaceShape(i, j, vis);
    g.CoversStep(vis, Elems(face), i, j);
    g.ScanFace(found, i, j, vis, g.Faces());
  }

  /** The scan at an unmarked edge `(i, j)` whose face walk succeeded moves
      the traversal to `(i, j + 1)` with one more face found. */
  lemma StageStep(mode: Mode, g: Graph, R0: seq<seq<int>>, vis: set<Edge>, i: int, j: int,
                  found: seq<seq<Edge>>, t: Tally, R: seq<seq<int>>, face: seq<Edge>, first: int, t': Tally)
    requires Stage(mode, g, R0, vis, i, j, found, t, R, Marked(g.T, vis))
    requires g.IsEdge(Edge(i, j)) && Edge(i, j) !in vis && g.Face(i, j, vis) == Ok(face)
    requires mode == List ==> first == At(R, Edge(i, j))
    requires t'.q == t.q + 1
    requires t'.ids == if mode == List then t.ids + [first] else t.ids
    requires t'.reports == if mode == Check then t.reports + FaceReports(R, face) else t.reports
    ensures Stage(mode, g, R0, vis + Elems(face), i, j + 1, found + [face], t',
                  if mode == Label then Paint(R, face, t.q) else R, Marked(g.T, vis + Elems(face)))
  {
    ScanStep(g, vis, i, j, found, face);
    TallyStep(mode, R0, found, t, R, face, first, t');
  }

  /** The scan moves from the end of row `i` to the start of row `i + 1`. */
  lemma RowEnd(g: Graph, vis: set<Edge>, i: int, found: seq<seq<Edge>>, T: seq<seq<int>>)
    requires 0 <= i < g.p && g.WellFormed() && Scanned(g, vis, i, g.nu[i], found, T)
    ensures Scanned(g, vis, i + 1, 0, found, T)
  {
    g.ScanRowEnd(i, vis);
    g.CoversRow(vis, i);
  }

  /** The traversal moves from the end of row `i` to the start of row
      `i + 1`. */
  lemma StageRowEnd(mode: Mode, g: Graph, R0: seq<seq<int>>, vis: set<Edge>, i: int,
                    found: seq<seq<Edge>>, t: Tally, R: seq<seq<int>>, T: seq<seq<int>>)
    requires 0 <= i < g.p && g.WellFormed() && Stage(mode, g, R0, vis, i, g.nu[i], found, t, R, T)
    ensures Stage(mode, g, R0, vis, i + 1, 0, found, t, R, T)
  {
    RowEnd(g, vis, i, found, T);
  }

  /** Where the scan starts: nothing marked, nothing found. */
  lemma TallyStart(mode: Mode, R0: seq<seq<int>>)
    ensures Made(mode, R0, [], Tally(1, [], []), R0)
  {
    assert Labelled(R0, []) == R0 && Listing(R0, []) == [] && Mismatches(R0, []) == [];
  }

  lemma ScanStart(g: Graph)
    requires g.WellFormed() && |g.T| == g.p
    ensures Scanned(g, {}, 0, 0, [], g.T)
  {
    g.CoversStart();
    MarkedNone(g.T);
    assert Then([], g.Scan(0, 0, {})) == g.Scan(0, 0, {}) by {
      if g.Scan(0, 0, {}).Ok? {
        assert [] + g.Scan(0, 0, {}).value == g.Scan(0, 0, {}).value;
      }
    }
  }

  /** Where the scan ends: every edge is marked, and the faces found are all
      the faces of the cell. */
  lemma ScanEnd(g: Graph, vis: set<Edge>, found: seq<seq<Edge>>, T: seq<seq<int>>)
    requires g.WellFormed() && Scanned(g, vis, g.p, 0, found, T)
    ensures g.AllEdges(vis) && g.Faces() == Ok(found)
  {
    g.CoversAll(vis);
    assert found + [] == found;
  }

  /** `R` has one neighbour id per edge of the cell: the shape of the rows
      the tracker keeps. */
  ghost predicate Shaped(g: Graph, R: seq<seq<int>>) {
    |R| == g.p && g.p <= |g.nu| && forall v :: 0 <= v < g.p ==> |R[v]| == g.nu[v]
  }

  /** After labelling, every edge of the cell holds the number of the one
      face it lies on, a number from 1 to the face count. */
  lemma LabelEveryEdge(g: Graph, R: seq<seq<int>>, x: Edge)
    requires g.WellFormed() && g.Faces().Ok? && Shaped(g, R) && g.IsEdge(x)
    ensures var fs := g.Faces().value;
      exists k :: 0 <= k < |fs| && x in fs[k] && At(Labelled(R, fs), x) == k + 1
    ensures 1 <= At(Labelled(R, g.Faces().value), x) <= |g.Faces().value|
  {
    var fs := g.Faces().value;
    FacesPartition(g);
    var k :| 0 <= k < |fs| && x in fs[k];
    LabelledOn(R, fs, k, x);
  }

  /** Listing the faces right after labelling them gives `1, 2, .., n`. */
  lemma LabelThenList(g: Graph, R: seq<seq<int>>)
    requires g.WellFormed() && g.Faces().Ok? && Shaped(g, R)
    ensures Listing(Labelled(R, g.Faces().value), g.Faces().value) == Numbers(|g.Faces().value|)
  {
    var fs := g.Faces().value;
    FacesPartition(g);
    forall k | 0 <= k < |fs| ensures |fs[k]| > 0 && InRange(R, fs[k][0]) {
      assert g.IsEdge(fs[k][0]);
    }
    ListingAfterLabel(R, fs);
  }

  /** Checking the faces right after labelling them reports nothing. */
  lemma LabelThenCheck(g: Graph, R: seq<seq<int>>)
    requires g.WellFormed() && g.Faces().Ok? && Shaped(g, R)
    ensures Mismatches(Labelled(R, g.Faces().value), g.Faces().value) == []
  {
    var fs := g.Faces().value;
    FacesPartition(g);
    forall k, e | 0 <= k < |fs| && e in fs[k] ensures InRange(R, e) {
      assert g.IsEdge(e);
    }
    LabelThenCheckClean(R, fs);
  }

  class NeighborTrack {
    const vc: Cell
    var ne: array<Ptr>
    var mne: array<Ptr>
    var paux1: Ptr
    var paux2: Ptr

    constructor (vc: Cell, ne: array<Ptr>, mne: array<Ptr>)
      ensures this.vc == vc && this.ne == ne && this.mne == mne
      ensures paux1 == Null && paux2 == Null
    {
      this.vc, this.ne, this.mne := vc, ne, mne;
      paux1, paux2 := Null, Null;
    }

    /** The rows of the live vertices lie in bounds, no two of them overlap,
        and none of them is a row of the edge table. */
    ghost predicate Laid()
      reads this`ne, ne, vc, vc.ed
    {
      vc.Valid() && vc.p <= ne.Length &&
      (forall v :: 0 <= v < vc.p ==> Fits(ne[v], vc.nu[v])) &&
      (forall v, w :: 0 <= v < w < vc.p ==> Apart(ne[v], vc.nu[v], ne[w], vc.nu[w])) &&
      (forall v, a :: 0 <= v < vc.p && 0 <= a < vc.p && ne[v].Into? ==> ne[v].buf != vc.ed[a])
    }

    /** The buffers holding the rows of the live vertices. */
    ghost function NeBufs(): set<array<int>>
      reads this`ne, ne, vc
    {
      set v | 0 <= v < vc.p && v < ne.Length && ne[v].Into? :: ne[v].buf
    }

    /** The neighbour ids of the first `n` vertices, one row per vertex. */
    ghost function RowsUpTo(n: nat): (R: seq<seq<int>>)
      requires Laid() && n <= vc.p
      reads this`ne, ne, vc, vc.ed, NeBufs()
      ensures |R| == n && forall v :: 0 <= v < n ==> |R[v]| == vc.nu[v]
    {
      if n == 0 then [] else RowsUpTo(n - 1) + [Window(ne[n - 1].buf[..], ne[n - 1].off, vc.nu[n - 1])]
    }

    /** The neighbour ids of every live vertex. */
    ghost function Rows(): (R: seq<seq<int>>)
      requires Laid()
      reads this`ne, ne, vc, vc.ed, NeBufs()
      ensures |R| == vc.p && forall v :: 0 <= v < vc.p ==> |R[v]| == vc.nu[v]
    {
      RowsUpTo(vc.p)
    }

    lemma {:induction false} RowOfRows(n: nat, v: int)
      requires Laid() && n <= vc.p && 0 <= v < n
      ensures RowsUpTo(n)[v] == Window(ne[v].buf[..], ne[v].off, vc.nu[v])
      decreases n
    {
      if v < n - 1 {
        RowOfRows(n - 1, v);
      }
    }

    /** Entry `s` of row `v` is the slot `ne[v][s]`. */
    lemma RowEntry(v: int, s: int)
      requires Laid() && 0 <= v < vc.p && 0 <= s < vc.nu[v]
      ensures Rows()[v][s] == ne[v].buf[ne[v].off + s]
    {
      RowOfRows(vc.p, v);
    }

    /** Each row is the window of its buffer. */
    lemma RowsWindows()
      requires Laid()
      ensures forall v :: 0 <= v < vc.p ==> Rows()[v] == Window(ne[v].buf[..], ne[v].off, vc.nu[v])
    {
      forall v | 0 <= v < vc.p ensures Rows()[v] == Window(ne[v].buf[..], ne[v].off, vc.nu[v]) {
        RowOfRows(vc.p, v);
      }
    }

    /** `ne[a][b] = c`. On laid-out rows, this changes the one id and no other. */
    method Set(a: int, b: int, c: int)
      requires 0 <= a < ne.Length && ne[a].Into? && 0 <= ne[a].off + b < ne[a].buf.Length
      modifies ne[a].buf
      ensures ne[a].buf[..] == old(ne[a].buf[..])[ne[a].off + b := c]
      ensures old(Laid()) && a < vc.p && 0 <= b < vc.nu[a] ==> Laid() && Rows() == Put(old(Rows()), Edge(a, b), c)
    {
      ghost var laid := Laid() && a < vc.p && 0 <= b < vc.nu[a];
      ghost var S := ne[a].buf[..];
      ghost var before := if laid then Rows() else [];
      if laid {
        RowsWindows();
      }
      ne[a].buf[ne[a].off + b] := c;
      if laid {
        forall v | 0 <= v < vc.p ensures Rows()[v] == Put(before, Edge(a, b), c)[v] {
          RowAfterSet(v, a, b, c, S, old(ne[v].buf[..]), before);
        }
      }
    }

    /** Row `v` after `ne[a][b] = c`, from its contents `B` before. */
    lemma RowAfterSet(v: int, a: int, b: int, c: int, S: seq<int>, B: seq<int>, before: seq<seq<int>>)
      requires Laid() && 0 <= v < vc.p && 0 <= a < vc.p && 0 <= b < vc.nu[a]
      requires |before| == vc.p && |before[a]| == vc.nu[a] && |B| == ne[v].buf.Length && |S| == ne[a].buf.Length
      requires before[v] == Window(B, ne[v].off, vc.nu[v])
      requires ne[v].buf == ne[a].buf ==> B == S && ne[v].buf[..] == S[ne[a].off + b := c]
      requires ne[v].buf != ne[a].buf ==> ne[v].buf[..] == B
      ensures Rows()[v] == Put(before, Edge(a, b), c)[v]
    {
      RowOfRows(vc.p, v);
      if ne[v].buf == ne[a].buf {
        WindowWrite(S, ne[v].off, vc.nu[v], ne[a].off + b, c);
      }
    }

    /** Every live row lies clear of the window `q[0 .. n-1]`. */
    ghost predicate Clear(q: Ptr, n: int)
      reads this`ne, ne, vc
    {
      forall v :: 0 <= v < vc.p && v < ne.Length && v < |vc.nu| ==> Apart(ne[v], vc.nu[v], q, n)
    }

    /** `q[t] = x` through a pointer that need not be a row. A store that is
        clear of every live row leaves the rows as they were. */
    method Store(q: Ptr, t: int, x: int)
      requires q.Into? && 0 <= q.off + t < q.buf.Length
      modifies q.buf
      ensures q.buf[..] == old(q.buf[..])[q.off + t := x]
      ensures old(Laid()) && Clear(Offset(q, t), 1) ==> Laid() && Rows() == old(Rows())
    {
      ghost var laid := Laid() && Clear(Offset(q, t), 1);
      ghost var before := if laid then Rows() else [];
      if laid {
        RowsWindows();
      }
      q.buf[q.off + t] := x;
      if laid {
        forall v | 0 <= v < vc.p ensures Rows()[v] == before[v] {
          RowAfterStore(v, q, t, x, old(ne[v].buf[..]), before);
        }
      }
    }

    /** Row `v` after a store clear of it, from its contents `B` before. */
    lemma RowAfterStore(v: int, q: Ptr, t: int, x: int, B: seq<int>, before: seq<seq<int>>)
      requires Laid() && 0 <= v < vc.p && q.Into? && 0 <= q.off + t < q.buf.Length
      requires Clear(Offset(q, t), 1) && |B| == ne[v].buf.Length
      requires |before| == vc.p && before[v] == Window(B, ne[v].off, vc.nu[v])
      requires ne[v].buf == q.buf ==> ne[v].buf[..] == B[q.off + t := x]
      requires ne[v].buf != q.buf ==> ne[v].buf[..] == B
      ensures Rows()[v] == before[v]
    {
      RowOfRows(vc.p, v);
      if ne[v].buf == q.buf {
        WindowWrite(B, ne[v].off, vc.nu[v], q.off + t, x);
      }
    }

    /** `ne[a][b] = ne[c][d]`. On laid-out rows, edge `(a, b)` takes the id
        of edge `(c, d)` and nothing else changes. */
    method Copy(a: int, b: int, c: int, d: int)
      requires 0 <= a < ne.Length && ne[a].Into? && 0 <= ne[a].off + b < ne[a].buf.Length
      requires 0 <= c < ne.Length && ne[c].Into? && 0 <= ne[c].off + d < ne[c].buf.Length
      modifies ne[a].buf
      ensures ne[a].buf[..] == old(ne[a].buf[..])[ne[a].off + b := old(ne[c].buf[ne[c].off + d])]
      ensures old(Laid()) && a < vc.p && 0 <= b < vc.nu[a] && c < vc.p && 0 <= d < vc.nu[c] ==>
        Laid() && Rows() == Put(old(Rows()), Edge(a, b), old(Rows())[c][d])
    {
      if Laid() && c < vc.p && 0 <= d < vc.nu[c] {
        RowEntry(c, d);
      }
      var x := ne[c].buf[ne[c].off + d];
      Set(a, b, x);
    }

    /** `mne[n] + n * mec[n]`: the first unused row of degree `n`. */
    function NextRow(n: int): Ptr
      requires 0 <= n < mne.Length && n < |vc.mec|
      reads this`mne, mne, vc
    {
      Offset(mne[n], n * vc.mec[n])
    }

    /** `ne[p] = mne[n] + n * mec[n]`: vertex `p` gets the first unused row
        of degree `n`, which lies inside the storage for that degree while
        fewer than `mem[n]` rows are in use. */
    method SetPointer(p: int, n: int)
      requires 0 <= p < ne.Length && 0 <= n < mne.Length && n < |vc.mec| && ne != mne
      modifies ne
      ensures ne[..] == old(ne[..])[p := Offset(mne[n], n * vc.mec[n])]
      ensures n < |vc.mem| && Fits(mne[n], n * vc.mem[n]) && 0 <= vc.mec[n] < vc.mem[n] ==> Fits(ne[p], n)
    {
      ne[p] := Offset(mne[n], n * vc.mec[n]);
      if n < |vc.mem| && 0 <= vc.mec[n] < vc.mem[n] {
        NextRowFits(n, vc.mec[n], vc.mem[n]);
      }
    }

    /** `paux1 = mne[k] + k * mec[k]`: the first unused row of degree `k`. */
    method SetAux1(k: int)
      requires 0 <= k < mne.Length && k < |vc.mec|
      modifies this`paux1
      ensures paux1 == Offset(mne[k], k * vc.mec[k])
      ensures k < |vc.mem| && Fits(mne[k], k * vc.mem[k]) && 0 <= vc.mec[k] < vc.mem[k] ==> Fits(paux1, k)
    {
      paux1 := Offset(mne[k], k * vc.mec[k]);
      if k < |vc.mem| && 0 <= vc.mec[k] < vc.mem[k] {
        NextRowFits(k, vc.mec[k], vc.mem[k]);
      }
    }

    /** `paux1[b] = ne[a][b]`. A staging slot clear of the live rows leaves
        them as they were. */
    method CopyAux1(a: int, b: int)
      requires 0 <= a < ne.Length && ne[a].Into? && 0 <= ne[a].off + b < ne[a].buf.Length
      requires paux1.Into? && 0 <= paux1.off + b < paux1.buf.Length
      modifies paux1.buf
      ensures paux1.buf[..] == old(paux1.buf[..])[paux1.off + b := old(ne[a].buf[ne[a].off + b])]
      ensures old(Laid()) && Clear(Offset(paux1, b), 1) ==> Laid() && Rows() == old(Rows())
    {
      var x := ne[a].buf[ne[a].off + b];
      Store(paux1, b, x);
    }

    /** `paux1[b] = ne[a][b + 1]`: the copy that closes the gap left by a
        deleted edge. */
    method CopyAux1Shift(a: int, b: int)
      requires 0 <= a < ne.Length && ne[a].Into? && 0 <= ne[a].off + b + 1 < ne[a].buf.Length
      requires paux1.Into? && 0 <= paux1.off + b < paux1.buf.Length
      modifies paux1.buf
      ensures paux1.buf[..] == old(paux1.buf[..])[paux1.off + b := old(ne[a].buf[ne[a].off + b + 1])]
      ensures old(Laid()) && Clear(Offset(paux1, b), 1) ==> Laid() && Rows() == old(Rows())
    {
      var x := ne[a].buf[ne[a].off + b + 1];
      Store(paux1, b, x);
    }

    /** `paux1[m] = mne[i][m]`: copies one slot of the storage for degree `i`
        into the staging buffer. */
    method CopyToAux1(i: int, m: int)
      requires 0 <= i < mne.Length && mne[i].Into? && 0 <= mne[i].off + m < mne[i].buf.Length
      requires paux1.Into? && 0 <= paux1.off + m < paux1.buf.Length
      modifies paux1.buf
      ensures paux1.buf[..] == old(paux1.buf[..])[paux1.off + m := old(mne[i].buf[mne[i].off + m])]
      ensures old(Laid()) && Clear(Offset(paux1, m), 1) ==> Laid() && Rows() == old(Rows())
    {
      var x := mne[i].buf[mne[i].off + m];
      Store(paux1, m, x);
    }

    /** `ne[a] = ne[b]`. */
    method CopyPointer(a: int, b: int)
      requires 0 <= a < ne.Length && 0 <= b < ne.Length
      modifies ne
      ensures ne[..] == old(ne[..])[a := old(ne[b])]
    {
      ne[a] := ne[b];
    }

    /** `ne[j] = paux1`. */
    method SetToAux1(j: int)
      requires 0 <= j < ne.Length
      modifies ne
      ensures ne[..] == old(ne[..])[j := paux1]
    {
      ne[j] := paux1;
    }

    /** `ne[j] = paux2`. */
    method SetToAux2(j: int)
      requires 0 <= j < ne.Length
      modifies ne
      ensures ne[..] == old(ne[..])[j := paux2]
    {
      ne[j] := paux2;
    }

    /** `ne[k] = paux1 + m`. */
    method SetToAux1Offset(k: int, m: int)
      requires 0 <= k < ne.Length
      modifies ne
      ensures ne[..] == old(ne[..])[k := Offset(paux1, m)]
    {
      ne[k] := Offset(paux1, m);
    }

    /** `mne[i] = paux1`: the staging buffer becomes the storage for degree `i`. */
    method SwitchToAux1(i: int)
      requires 0 <= i < mne.Length
      modifies mne
      ensures mne[..] == old(mne[..])[i := paux1]
    {
      mne[i] := paux1;
    }

    /** `set_aux2_copy` as written: points `paux2` at the first unused row
        of degree `b`, then copies that row's `b` slots over `ne[a][0 .. b-1]`,
        which is the opposite direction to the one documented. */
    method SetAux2Copy(a: int, b: int)
      requires 0 <= a < ne.Length && 0 <= b < mne.Length && b < |vc.mec|
      requires Fits(ne[a], b) && Fits(Offset(mne[b], b * vc.mec[b]), b)
      requires Apart(ne[a], b, Offset(mne[b], b * vc.mec[b]), b)
      modifies this`paux2, ne[a].buf
      ensures paux2 == Offset(mne[b], b * vc.mec[b])
      ensures ne[a].buf[..] == Overwrite(old(ne[a].buf[..]), ne[a].off, Window(old(NextRow(b).buf[..]), paux2.off, b))
      ensures Window(paux2.buf[..], paux2.off, b) == Window(old(NextRow(b).buf[..]), paux2.off, b)
    {
      paux2 := Offset(mne[b], b * vc.mec[b]);
      ghost var before := ne[a].buf[..];
      CopyWindow(ne[a].buf, ne[a].off, paux2.buf, paux2.off, b);
      if paux2.buf == ne[a].buf {
        OverwriteApart(before, ne[a].off, Window(before, paux2.off, b), paux2.off, b);
      }
    }

    /** `set_aux2_copy` as documented: points `paux2` at the first unused
        row of degree `b` and copies `ne[a][0 .. b-1]` into it. */
    method SetAux2CopyInto(a: int, b: int)
      requires 0 <= a < ne.Length && 0 <= b < mne.Length && b < |vc.mec|
      requires Fits(ne[a], b) && Fits(Offset(mne[b], b * vc.mec[b]), b)
      requires Apart(ne[a], b, Offset(mne[b], b * vc.mec[b]), b)
      modifies this`paux2, NextRow(b).buf
      ensures paux2 == Offset(mne[b], b * vc.mec[b])
      ensures paux2.buf[..] == Overwrite(old(NextRow(b).buf[..]), paux2.off, old(Window(ne[a].buf[..], ne[a].off, b)))
      ensures Window(ne[a].buf[..], ne[a].off, b) == old(Window(ne[a].buf[..], ne[a].off, b))
    {
      paux2 := Offset(mne[b], b * vc.mec[b]);
      ghost var before := paux2.buf[..];
      CopyWindow(paux2.buf, paux2.off, ne[a].buf, ne[a].off, b);
      if paux2.buf == ne[a].buf {
        OverwriteApart(before, paux2.off, Window(before, ne[a].off, b), ne[a].off, b);
      }
    }

    /** Grows `ne` to `i` pointers, keeping the first `currentVertices`; the
        new slots hold no pointer. On laid-out rows that all lie among the
        kept pointers, the rows are unchanged. */
    method AddMemoryVertices(i: int)
      requires vc.currentVertices <= i && vc.currentVertices <= ne.Length
      modifies this`ne
      ensures fresh(ne) && ne.Length == i
      ensures ne[..vc.currentVertices] == old(ne[..vc.currentVertices])
      ensures forall k :: vc.currentVertices <= k < i ==> ne[k] == Null
      ensures old(Laid()) && vc.p <= vc.currentVertices ==> Laid() && Rows() == old(Rows())
    {
      ghost var laid := Laid() && vc.p <= vc.currentVertices;
      ghost var before := if laid then Rows() else [];
      if laid {
        RowsWindows();
      }
      ghost var kept := ne[..vc.currentVertices];
      ne := Grow(ne, vc.currentVertices, i);
      if laid {
        assert forall v :: 0 <= v < vc.p ==> ne[v] == kept[v];
        RowsWindows();
      }
    }

    /** Grows `mne` to `i` pointers, keeping the first `currentVertexOrder`;
        the new slots hold no pointer. The rows do not change. */
    method AddMemoryVorder(i: int)
      requires vc.currentVertexOrder <= i && vc.currentVertexOrder <= mne.Length
      modifies this`mne
      ensures fresh(mne) && mne.Length == i
      ensures mne[..vc.currentVertexOrder] == old(mne[..vc.currentVertexOrder])
      ensures forall k :: vc.currentVertexOrder <= k < i ==> mne[k] == Null
      ensures old(Laid()) ==> Laid() && Rows() == old(Rows())
    {
      mne := Grow(mne, vc.currentVertexOrder, i);
      assert NeBufs() == old(NeBufs());
    }

    /** A cell of `k` vertices, all of degree `n`, none of whose edge rows is
        the buffer `q` points into. */
    ghost predicate Seedable(q: Ptr, n: int, k: int)
      reads vc, vc.ed
    {
      vc.Valid() && vc.p == k && (forall v :: 0 <= v < k ==> vc.nu[v] == n) &&
      q.Into? && forall a :: 0 <= a < k ==> q.buf != vc.ed[a]
    }

    /** Rows of degree `n` laid out back to back from `q`, one per vertex,
        neither overlap nor leave the buffer. */
    lemma SeededLaid(q: Ptr, n: nat, k: nat)
      requires Seedable(q, n, k) && k <= ne.Length && Fits(q, n * k)
      requires ne[..k] == Strided(q, n, k)
      ensures Laid()
    {
      forall v | 0 <= v < k ensures Fits(ne[v], n) {
        NextRowFits(n, v, k);
      }
      forall v, w | 0 <= v < w < k ensures Apart(ne[v], n, ne[w], n) {
        NextRowFits(n, v, w);
      }
    }

    /** Such rows are the consecutive chunks of the values `flat` stored there. */
    lemma SeededRows(q: Ptr, n: nat, flat: seq<int>, rows: seq<seq<int>>)
      requires Seedable(q, n, |rows|) && |rows| <= ne.Length && |flat| == n * |rows|
      requires Fits(q, |flat|) && q.buf[q.off .. q.off + |flat|] == flat
      requires ne[..|rows|] == Strided(q, n, |rows|)
      requires forall v :: 0 <= v < |rows| && n * v + n <= |flat| ==> rows[v] == Chunk(flat, n, v)
      ensures Laid() && Rows() == rows
    {
      SeededLaid(q, n, |rows|);
      forall v | 0 <= v < vc.p ensures Rows()[v] == rows[v] {
        NextRowFits(n, v, |rows|);
        assert ne[v] == ne[..|rows|][v] == Offset(q, n * v);
        SeededRow(q, n, flat, v, n * v);
      }
    }

    /** Row `v`, pointed at offset `a` of the values `flat` stored from `q`,
        is the `n` values of `flat` from `a` on. */
    lemma SeededRow(q: Ptr, n: nat, flat: seq<int>, v: int, a: int)
      requires Laid() && 0 <= v < vc.p && vc.nu[v] == n && ne[v] == Offset(q, a)
      requires Fits(q, |flat|) && q.buf[q.off .. q.off + |flat|] == flat
      requires 0 <= a && a + n <= |flat|
      ensures Rows()[v] == flat[a .. a + n]
    {
      RowOfRows(vc.p, v);
      SliceOfSlice(q.buf[..], q.off, flat, a, n);
    }

    /** Lays out the rectangular box: writes the box seed into the storage
        for degree 3 and points corner `v` at slots `3v .. 3v+2`. For a cell
        with eight corners of degree 3, the rows are then the box's rows. */
    method Init()
      requires 3 < mne.Length && Fits(mne[3], 24) && 8 <= ne.Length && ne != mne
      modifies mne[3].buf, ne
      ensures mne[3].buf[..] == Overwrite(old(mne[3].buf[..]), mne[3].off, BoxSeed())
      ensures ne[..8] == Strided(mne[3], 3, 8)
      ensures ne[8..] == old(ne[8..])
      ensures Seedable(mne[3], 3, 8) ==> Laid() && Rows() == BoxRows()
    {
      var q := mne[3];
      WriteSeed(q.buf, q.off, BoxSeed());
      ne[0] := q; ne[1] := Offset(q, 3); ne[2] := Offset(q, 6); ne[3] := Offset(q, 9);
      ne[4] := Offset(q, 12); ne[5] := Offset(q, 15); ne[6] := Offset(q, 18); ne[7] := Offset(q, 21);
      assert ne[..8] == Strided(q, 3, 8);
      if Seedable(q, 3, 8) {
        BoxRowsOfSeed();
        SeededRows(q, 3, BoxSeed(), BoxRows());
      }
    }

    /** Lays out the octahedron: writes the octahedron seed into the storage
        for degree 4 and points vertex `v` at slots `4v .. 4v+3`. For a cell
        with six vertices of degree 4, the rows are then the octahedron's. */
    method InitOctahedron()
      requires 4 < mne.Length && Fits(mne[4], 24) && 6 <= ne.Length && ne != mne
      modifies mne[4].buf, ne
      ensures mne[4].buf[..] == Overwrite(old(mne[4].buf[..]), mne[4].off, OctahedronSeed())
      ensures ne[..6] == Strided(mne[4], 4, 6)
      ensures ne[6..] == old(ne[6..])
      ensures Seedable(mne[4], 4, 6) ==> Laid() && Rows() == OctahedronRows()
    {
      var q := mne[4];
      WriteSeed(q.buf, q.off, OctahedronSeed());
      ne[0] := q; ne[1] := Offset(q, 4); ne[2] := Offset(q, 8);
      ne[3] := Offset(q, 12); ne[4] := Offset(q, 16); ne[5] := Offset(q, 20);
      assert ne[..6] == Strided(q, 4, 6);
      if Seedable(q, 4, 6) {
        OctahedronRowsOfSeed();
        SeededRows(q, 4, OctahedronSeed(), OctahedronRows());
      }
    }

    /** The rows of the neighbour table and the rows of the edge table are
        different arrays. */
    lemma Separate()
      requires Laid()
      ensures NeBufs() !! vc.EdRows()
    {
      forall b | b in NeBufs() ensures b !in vc.EdRows() {
        var v :| 0 <= v < vc.p && v < ne.Length && ne[v].Into? && ne[v].buf == b;
        forall a | 0 <= a < vc.p ensures vc.ed[a] != b {
        }
      }
    }

    /** Labels every edge of the walk `w` with `q`, in walk order. */
    method PaintFace(w: seq<Edge>, q: int, ghost g: Graph)
      requires Laid() && g.p == vc.p && g.nu == vc.nu
      requires forall x :: x in w ==> g.IsEdge(x)
      modifies NeBufs()
      ensures Laid() && Rows() == Paint(old(Rows()), w, q)
      ensures vc.Table() == old(vc.Table()) && NeBufs() == old(NeBufs())
    {
      Separate();
      ghost var R := Rows();
      var t := 0;
      while t < |w|
        invariant 0 <= t <= |w|
        invariant Laid() && Rows() == Paint(R, w[..t], q)
        invariant NeBufs() == old(NeBufs()) && unchanged(vc.EdRows())
      {
        var e := w[t];
        assert g.IsEdge(e) && e.v < vc.p && e.s < vc.nu[e.v];
        assert ne[e.v].buf in NeBufs();
        Set(e.v, e.s, q);
        PaintSnoc(R, w, t, q);
        t := t + 1;
      }
      assert w[..t] == w;
    }

    /** Compares every edge of the face `w` after the first with the id of
        the first, and reports each that differs. */
    method CheckFace(w: seq<Edge>, ghost g: Graph) returns (reports: seq<Report>)
      requires Laid() && g.p == vc.p && g.nu == vc.nu && |w| > 0
      requires forall x :: x in w ==> g.IsEdge(x)
      ensures reports == FaceReports(Rows(), w)
      ensures Laid() && Rows() == old(Rows()) && vc.Table() == old(vc.Table())
    {
      ghost var R := Rows();
      var start := w[0];
      assert g.IsEdge(start);
      RowEntry(start.v, start.s);
      var q := ne[start.v].buf[ne[start.v].off + start.s];
      assert At(R, start) == q;
      reports := [];
      var t := 1;
      while t < |w|
        invariant 1 <= t <= |w|
        invariant Laid() && R == Rows() && vc.Table() == old(vc.Table())
        invariant reports == Mis(R, w[1..t], start, q)
      {
        var e := w[t];
        assert g.IsEdge(e);
        RowEntry(e.v, e.s);
        var x := ne[e.v].buf[ne[e.v].off + e.s];
        assert At(R, e) == x;
        if x != q {
          reports := reports + [Report(e, x, start, q)];
        }
        assert w[1..t + 1][..t - 1] == w[1..t];
        t := t + 1;
      }
      assert w[1..t] == w[1..];
    }

    /** The traversal's graph is this cell's. */
    ghost predicate Agrees(g: Graph)
      reads vc
    {
      g.p == vc.p && g.nu == vc.nu && g.rot == vc.cycleUp
    }

    /** The face walk from `(i, j)`, which marks the edges of the face in the
        edge table and leaves the neighbour rows alone. */
    method Walk(i: int, j: int, ghost g: Graph, ghost vis: set<Edge>) returns (w: Result<seq<Edge>>)
      requires Laid() && Agrees(g) && g.WellFormed() && |g.T| == vc.p
      requires g.Within(vis) && vc.Table() == Marked(g.T, vis)
      requires g.IsEdge(Edge(i, j)) && Edge(i, j) !in vis
      modifies vc.EdRows()
      ensures w == g.Face(i, j, vis)
      ensures w.Ok? ==> vc.Table() == Marked(g.T, vis + Elems(w.value))
      ensures Laid() && Rows() == old(Rows()) && NeBufs() == old(NeBufs())
    {
      Separate();
      w := vc.WalkFace(i, j, g, vis);
    }

    /** What the traversal does with the face `face` it has just walked:
        labelling writes `t.q` to every edge of it, listing records `first`
        (the id of its first edge, read before the walk), checking compares
        its edges with its first. */
    method TakeFace(mode: Mode, face: seq<Edge>, t: Tally, first: int, ghost g: Graph) returns (t': Tally)
      requires Laid() && Agrees(g) && |face| > 0 && forall x :: x in face ==> g.IsEdge(x)
      modifies if mode == Label then NeBufs() else {}
      ensures Laid() && vc.Table() == old(vc.Table()) && NeBufs() == old(NeBufs())
      ensures Rows() == if mode == Label then Paint(old(Rows()), face, t.q) else old(Rows())
      ensures t'.q == t.q + 1
      ensures t'.ids == if mode == List then t.ids + [first] else t.ids
      ensures t'.reports == if mode == Check then t.reports + FaceReports(old(Rows()), face) else t.reports
    {
      match mode
      case Label =>
        PaintFace(face, t.q, g);
        t' := Tally(t.q + 1, t.ids, t.reports);
      case List =>
        t' := Tally(t.q + 1, t.ids + [first], t.reports);
      case Check =>
        var reports := CheckFace(face, g);
        t' := Tally(t.q + 1, t.ids, t.reports + reports);
    }

    /** One step of the scan at edge `(i, j)`: a marked edge is passed over;
        an unmarked one starts a face walk, and the face found is labelled,
        listed or checked. */
    method VisitEdge(mode: Mode, i: int, j: int, ghost g: Graph, ghost R0: seq<seq<int>>,
                     ghost vis: set<Edge>, ghost found: seq<seq<Edge>>, t: Tally)
      returns (r: Result<Tally>, ghost vis': set<Edge>, ghost found': seq<seq<Edge>>)
      requires Laid() && Agrees(g) && Stage(mode, g, R0, vis, i, j, found, t, Rows(), vc.Table())
      requires i < vc.p && j < vc.nu[i]
      modifies vc.EdRows(), if mode == Label then NeBufs() else {}
      ensures r.Fatal? ==> g.Faces() == Fatal(r.fault)
      ensures r.Ok? ==> Laid() && Stage(mode, g, R0, vis', i, j + 1, found', r.value, Rows(), vc.Table())
      ensures r.Ok? ==> NeBufs() == old(NeBufs())
    {
      vc.ReadEntry(g, vis, i, j);
      var k := vc.ed[i][j];
      if k < 0 {
        g.ScanSkip(i, j, vis);
        g.CoversStep(vis, {}, i, j);
        assert vis + {} == vis;
        return Ok(t), vis, found;
      }
      r, vis', found' := NewFace(mode, i, j, g, R0, vis, found, t);
    }

    /** The scan meets the unmarked edge `(i, j)`: the listing reads the id
        of the edge, the face is walked, and the face found is labelled,
        listed or checked. */
    method NewFace(mode: Mode, i: int, j: int, ghost g: Graph, ghost R0: seq<seq<int>>,
                   ghost vis: set<Edge>, ghost found: seq<seq<Edge>>, t: Tally)
      returns (r: Result<Tally>, ghost vis': set<Edge>, ghost found': seq<seq<Edge>>)
      requires Laid() && Agrees(g) && Stage(mode, g, R0, vis, i, j, found, t, Rows(), vc.Table())
      requires g.IsEdge(Edge(i, j)) && Edge(i, j) !in vis
      modifies vc.EdRows(), if mode == Label then NeBufs() else {}
      ensures r.Fatal? ==> g.Faces() == Fatal(r.fault)
      ensures r.Ok? ==> Laid() && Stage(mode, g, R0, vis', i, j + 1, found', r.value, Rows(), vc.Table())
      ensures r.Ok? ==> NeBufs() == old(NeBufs())
    {
      vis', found' := vis, found;
      var first := 0;
      if mode == List {
        RowEntry(i, j);
        first := ne[i].buf[ne[i].off + j];
      }
      ghost var R := Rows();
      assert mode == List ==> first == At(R, Edge(i, j));
      var w := Walk(i, j, g, vis);
      g.ScanFace(found, i, j, vis, g.Faces());
      if w.Fatal? {
        return Fatal(w.fault), vis, found;
      }
      var face := w.value;
      g.FaceElems(i, j, vis);
      var t' := TakeFace(mode, face, t, first, g);
      r := Ok(t');
      vis', found' := vis + Elems(face), found + [face];
      StageStep(mode, g, R0, vis, i, j, found, t, R, face, first, t');
    }

    ghost predicate Scanning(mode: Mode, g: Graph, R0: seq<seq<int>>, vis: set<Edge>, i: int, found: seq<seq<Edge>>, t: Tally)
      reads this`ne, ne, vc, vc.ed, NeBufs(), vc.EdRows()
    {
      Laid() && Agrees(g) && Stage(mode, g, R0, vis, i, 0, found, t, Rows(), vc.Table())
    }

    /** The scan over row `i`: visits its edges `(i, 0) .. (i, nu[i] - 1)`
        in order. */
    method ScanRow(mode: Mode, i: int, ghost g: Graph, ghost R0: seq<seq<int>>,
                   ghost vis: set<Edge>, ghost found: seq<seq<Edge>>, t: Tally)
      returns (r: Result<Tally>, ghost vis': set<Edge>, ghost found': seq<seq<Edge>>)
      requires Scanning(mode, g, R0, vis, i, found, t)
      requires i < vc.p
      modifies vc.EdRows(), if mode == Label then NeBufs() else {}
      ensures r.Fatal? ==> g.Faces() == Fatal(r.fault)
      ensures r.Ok? ==> Scanning(mode, g, R0, vis', i + 1, found', r.value)
      ensures r.Ok? ==> NeBufs() == old(NeBufs())
    {
      vis', found' := vis, found;
      var u := t;
      var j := 0;
      while j < vc.nu[i]
        invariant j <= vc.nu[i]
        invariant Laid() && Agrees(g) && Stage(mode, g, R0, vis', i, j, found', u, Rows(), vc.Table())
        invariant NeBufs() == old(NeBufs())
      {
        var step;
        step, vis', found' := VisitEdge(mode, i, j, g, R0, vis', found', u);
        if step.Fatal? {
          return Fatal(step.fault), vis', found';
        }
        u := step.value;
        j := j + 1;
      }
      StageRowEnd(mode, g, R0, vis', i, found', u, Rows(), vc.Table());
      r := Ok(u);
    }

    /** The pass that follows the scan: every edge is marked, and the marks
        are cleared again, leaving the neighbour rows alone. */
    method RestorePass(ghost g: Graph, ghost vis: set<Edge>)
      requires Laid() && Agrees(g) && g.WellFormed() && |g.T| == vc.p
      requires g.AllEdges(vis) && vc.Table() == Marked(g.T, vis)
      modifies vc.EdRows()
      ensures vc.Table() == g.T
      ensures Laid() && Rows() == old(Rows()) && NeBufs() == old(NeBufs())
    {
      Separate();
      vc.Restore(g, vis);
    }

    lemma StartScanning(mode: Mode, g: Graph, R0: seq<seq<int>>)
      requires Laid() && Agrees(g) && g.WellFormed() && |g.T| == vc.p
      requires g.T == vc.Table() && R0 == Rows()
      ensures Scanning(mode, g, R0, {}, 0, [], Tally(1, [], []))
    {
      ScanStart(g);
      TallyStart(mode, R0);
    }

    /** The first pass of a traversal: scans the rows in order, walking a
        face from every unmarked edge and handling it as `mode` says. */
    method ScanRows(mode: Mode, ghost g: Graph, ghost R0: seq<seq<int>>)
      returns (r: Result<Tally>, ghost vis: set<Edge>, ghost found: seq<seq<Edge>>)
      requires Laid() && Agrees(g) && g.WellFormed() && |g.T| == vc.p
      requires g.T == vc.Table() && R0 == Rows()
      modifies vc.EdRows(), if mode == Label then NeBufs() else {}
      ensures r.Fatal? ==> g.Faces() == Fatal(r.fault)
      ensures r.Ok? ==> Scanning(mode, g, R0, vis, vc.p, found, r.value)
      ensures r.Ok? ==> NeBufs() == old(NeBufs())
    {
      vis := {};
      found := [];
      var t := Tally(1, [], []);
      StartScanning(mode, g, R0);
      var i := 0;
      while i < vc.p
        invariant i <= vc.p
        invariant Scanning(mode, g, R0, vis, i, found, t)
        invariant NeBufs() == old(NeBufs())
      {
        var step;
        step, vis, found := ScanRow(mode, i, g, R0, vis, found, t);
        if step.Fatal? {
          return Fatal(step.fault), vis, found;
        }
        t := step.value;
        i := i + 1;
      }
      r := Ok(t);
    }

    /** The shared body of the three traversals: the scan, then the restore
        pass over the edge table. */
    method Traverse(mode: Mode, ghost g: Graph) returns (r: Result<Tally>, ghost found: seq<seq<Edge>>)
      requires Laid() && Agrees(g) && g.WellFormed() && |g.T| == vc.p && g.T == vc.Table()
      modifies vc.EdRows(), if mode == Label then NeBufs() else {}
      ensures r.Fatal? ==> g.Faces() == Fatal(r.fault)
      ensures r.Ok? ==> g.Faces() == Ok(found) && Laid() && vc.Table() == g.T
      ensures r.Ok? ==> Made(mode, old(Rows()), found, r.value, Rows())
    {
      ghost var vis;
      r, vis, found := ScanRows(mode, g, Rows());
      if r.Ok? {
        ScanEnd(g, vis, found, vc.Table());
        RestorePass(g, vis);
      }
    }

    /** `label_facets`: numbers the faces of the cell from 1 in the order the
        scan finds them, writing each face's number to the neighbour entry of
        every edge on it, and leaves the edge table as it found it. Returns
        how many faces were numbered. */
    method LabelFacets() returns (r: Result<int>)
      requires Laid() && vc.Graph().WellFormed()
      modifies vc.EdRows(), NeBufs()
      ensures r.Fatal? ==> old(vc.Graph()).Faces() == Fatal(r.fault)
      ensures old(vc.Graph()).Tiled() ==> r.Ok?
      ensures r.Ok? ==> old(vc.Graph()).Faces().Ok? && r.value == |old(vc.Graph()).Faces().value|
      ensures r.Ok? ==> Laid() && vc.Table() == old(vc.Table())
      ensures r.Ok? ==> Rows() == Labelled(old(Rows()), old(vc.Graph()).Faces().value)
    {
      ghost var g := vc.Graph();
      var t;
      ghost var found;
      t, found := Traverse(Label, g);
      if g.Tiled() {
        g.FacesClose();
      }
      if t.Fatal? {
        return Fatal(t.fault);
      }
      r := Ok(t.value.q - 1);
    }

    /** `neighbors`: writes out, for each face of the cell in the order the
        scan finds them, the neighbour id stored for the face's first edge.
        The neighbour rows are only read. */
    method Neighbors() returns (r: Result<seq<int>>)
      requires Laid() && vc.Graph().WellFormed()
      modifies vc.EdRows()
      ensures Laid() && Rows() == old(Rows())
      ensures r.Fatal? ==> old(vc.Graph()).Faces() == Fatal(r.fault)
      ensures old(vc.Graph()).Tiled() ==> r.Ok?
      ensures r.Ok? ==> old(vc.Graph()).Faces().Ok?
      ensures r.Ok? ==> r.value == Listing(old(Rows()), old(vc.Graph()).Faces().value)
      ensures r.Ok? ==> vc.Table() == old(vc.Table())
    {
      ghost var g := vc.Graph();
      Separate();
      var t;
      ghost var found;
      t, found := Traverse(List, g);
      if g.Tiled() {
        g.FacesClose();
      }
      if t.Fatal? {
        return Fatal(t.fault);
      }
      r := Ok(t.value.ids);
    }

    /** `facet_check`: reports every edge whose neighbour id differs from the
        id of the first edge of its face, face by face in the order the scan
        finds them. The neighbour rows are only read. */
    method FacetCheck() returns (r: Result<seq<Report>>)
      requires Laid() && vc.Graph().WellFormed()
      modifies vc.EdRows()
      ensures Laid() && Rows() == old(Rows())
      ensures r.Fatal? ==> old(vc.Graph()).Faces() == Fatal(r.fault)
      ensures old(vc.Graph()).Tiled() ==> r.Ok?
      ensures r.Ok? ==> old(vc.Graph()).Faces().Ok?
      ensures r.Ok? ==> r.value == Mismatches(old(Rows()), old(vc.Graph()).Faces().value)
      ensures r.Ok? ==> vc.Table() == old(vc.Table())
    {
      ghost var g := vc.Graph();
      Separate();
      var t;
      ghost var found;
      t, found := Traverse(Check, g);
      if g.Tiled() {
        g.FacesClose();
      }
      if t.Fatal? {
        return Fatal(t.fault);
      }
      r := Ok(t.value.reports);
    }
  }
}

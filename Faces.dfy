/**
  The face structure of a convex cell's vertex/edge graph, as the neighbour
  tracker walks it.

  A vertex `k` of the cell has degree `nu[k]`; its row `T[k]` of the edge table
  holds the destination vertex of each outgoing directed edge in slots
  `0 .. nu[k]-1` and, in slot `nu[k] + l`, the index at the destination of the
  edge that leads back (the mate index). The rotation `rot(a, k)` is the owning
  cell's `cycle_up`: the slot after `a` around vertex `k`.

  The functions here describe the traversal with an explicit visited SET; the
  imperative traversals in module CellTables and module Tracking mark visited edges by sign inversion
  inside the edge table and are proved to compute the same faces.
*/
module Faces {

  /** A directed edge: slot `s` of vertex `v`. */
  datatype Edge = Edge(v: int, s: int)

  /** The fatal structural error of a traversal: a face walk came back to an
      edge it had already marked before returning to its starting vertex. */
  datatype Fault = FaceNotClosed(at: Edge)

  datatype Result<T> = Ok(value: T) | Fatal(fault: Fault)

  /** Puts `prefix` in front of a successful result, passes a failure through. */
  function Then<T>(prefix: seq<T>, r: Result<seq<T>>): (o: Result<seq<T>>)
    ensures o.Ok? <==> r.Ok?
    ensures o.Ok? ==> o.value == prefix + r.value
    ensures o.Fatal? ==> o.fault == r.fault
  {
    match r
    case Ok(rest) => Ok(prefix + rest)
    case Fatal(f) => Fatal(f)
  }

  lemma ThenThen<T>(a: seq<T>, b: seq<T>, r: Result<seq<T>>)
    ensures Then(a, Then(b, r)) == Then(a + b, r)
  {
    if r.Ok? {
      assert a + (b + r.value) == (a + b) + r.value;
    }
  }

  /** The edges on a walk, as a set. */
  function Elems(w: seq<Edge>): set<Edge> {
    if w == [] then {} else Elems(w[..|w| - 1]) + {w[|w| - 1]}
  }

  lemma ElemsSnoc(w: seq<Edge>, e: Edge)
    ensures Elems(w + [e]) == Elems(w) + {e}
  {
    assert (w + [e])[..|w|] == w;
  }

  lemma {:induction false} ElemsIn(w: seq<Edge>, e: Edge)
    ensures e in Elems(w) <==> e in w
  {
    if w != [] {
      ElemsIn(w[..|w| - 1], e);
      assert w == w[..|w| - 1] + [w[|w| - 1]];
    }
  }

  /** Scan order: vertex-major, slot-minor. */
  predicate Before(a: Edge, b: Edge) {
    a.v < b.v || (a.v == b.v && a.s < b.s)
  }

  /** Marking an edge-table entry, as the traversals do: `-1 - x`. */
  function Flip(x: int): (y: int)
    ensures x >= 0 <==> y < 0
    ensures -1 - y == x
  {
    -1 - x
  }

  /** Whether `e` names an entry of the table `T`. */
  predicate InRange(T: seq<seq<int>>, e: Edge) {
    0 <= e.v < |T| && 0 <= e.s < |T[e.v]|
  }

  /** The entry of `T` at `e`; 0 off the table. */
  function At(T: seq<seq<int>>, e: Edge): int {
    if InRange(T, e) then T[e.v][e.s] else 0
  }

  /** `T` with the entry at `e` replaced by `x`; `T` itself off the table. */
  function Put(T: seq<seq<int>>, e: Edge, x: int): (U: seq<seq<int>>)
    ensures |U| == |T| && forall a :: 0 <= a < |T| ==> |U[a]| == |T[a]|
    ensures InRange(T, e) ==> At(U, e) == x
    ensures forall d :: d != e ==> At(U, d) == At(T, d)
  {
    if InRange(T, e) then T[e.v := T[e.v][e.s := x]] else T
  }

  /** `T` with the entry at `e` marked (or unmarked): one step of a traversal. */
  function FlipAt(T: seq<seq<int>>, e: Edge): (U: seq<seq<int>>)
  {
    if InRange(T, e) then T[e.v := T[e.v][e.s := Flip(T[e.v][e.s])]] else T
  }

  /** The table `T` with exactly the edges of `S` marked. */
  function Marked(T: seq<seq<int>>, S: set<Edge>): (M: seq<seq<int>>)
    ensures |M| == |T| && forall a :: 0 <= a < |T| ==> |M[a]| == |T[a]|
  {
    seq(|T|, a requires 0 <= a < |T| =>
      seq(|T[a]|, b requires 0 <= b < |T[a]| =>
        if Edge(a, b) in S then Flip(T[a][b]) else T[a][b]))
  }

  /** Marking is self-inverse: flipping the entry of an edge toggles whether
      that edge is in the marked set. */
  lemma MarkedToggle(T: seq<seq<int>>, S: set<Edge>, e: Edge)
    requires InRange(T, e)
    ensures FlipAt(Marked(T, S), e) == Marked(T, if e in S then S - {e} else S + {e})
  {
    var S' := if e in S then S - {e} else S + {e};
    var L, R := FlipAt(Marked(T, S), e), Marked(T, S');
    forall a | 0 <= a < |T| ensures L[a] == R[a] {
      forall b | 0 <= b < |T[a]| ensures L[a][b] == R[a][b] {
        if Edge(a, b) == e {
          assert e in S <==> Edge(a, b) !in S';
        } else {
          assert Edge(a, b) in S <==> Edge(a, b) in S';
        }
      }
    }
  }

  /** With nothing marked, the table is itself. */
  lemma MarkedNone(T: seq<seq<int>>)
    ensures Marked(T, {}) == T
  {
    forall a | 0 <= a < |T| ensures Marked(T, {})[a] == T[a] {
    }
  }

  /** The cell's edge graph as the traversals see it. */
  datatype Graph = Graph(T: seq<seq<int>>, nu: seq<int>, p: nat, rot: (int, int) -> int)
  {
    /** `e` is one of the directed edges `(k, l)` with `k < p` and `l < nu[k]`. */
    predicate IsEdge(e: Edge) {
      0 <= e.v < p && e.v < |nu| && 0 <= e.s < nu[e.v]
    }

    /** What the owning cell guarantees about its tables: every row holds its
        destinations and mate indices, every destination is a vertex, every
        mate index is a slot of the destination, and the rotation stays within
        the slots of its vertex. No edge is marked. */
    ghost predicate WellFormed() {
      p <= |nu| && p <= |T| &&
      (forall k :: 0 <= k < p ==> 0 <= nu[k] && 2 * nu[k] <= |T[k]|) &&
      (forall e {:trigger IsEdge(e)} :: IsEdge(e) ==> 0 <= T[e.v][e.s] < p && 0 <= Mate(e) < nu[T[e.v][e.s]]) &&
      (forall k, a :: 0 <= k < p && 0 <= a < nu[k] ==> 0 <= rot(a, k) < nu[k])
    }

    /** The mate index stored for `e`: slot `nu[v] + s` of its row. */
    function Mate(e: Edge): int {
      if 0 <= e.v < |T| && e.v < |nu| && 0 <= nu[e.v] + e.s < |T[e.v]| then T[e.v][nu[e.v] + e.s] else -1
    }

    /** The directed edges of the first `k` vertices. */
    function EdgesBelow(k: int): set<Edge>
      requires k <= |nu|
      decreases k
    {
      if k <= 0 then {} else EdgesBelow(k - 1) + SlotsOf(k - 1, nu[k - 1])
    }

    /** The first `n` directed edges of vertex `k`. */
    static function SlotsOf(k: int, n: int): set<Edge>
      decreases n
    {
      if n <= 0 then {} else SlotsOf(k, n - 1) + {Edge(k, n - 1)}
    }

    static lemma {:induction false} InSlotsOf(k: int, n: int, e: Edge)
      ensures e in SlotsOf(k, n) <==> e.v == k && 0 <= e.s < n
      decreases n
    {
      if n > 0 {
        InSlotsOf(k, n - 1, e);
      }
    }

    lemma {:induction false} InEdgesBelow(k: int, e: Edge)
      requires 0 <= k <= |nu|
      ensures e in EdgesBelow(k) <==> 0 <= e.v < k && 0 <= e.s < nu[e.v]
      decreases k
    {
      if k > 0 {
        InEdgesBelow(k - 1, e);
        InSlotsOf(k - 1, nu[k - 1], e);
      }
    }

    /** Every directed edge of the cell. */
    function Edges(): set<Edge>
      requires p <= |nu|
    {
      EdgesBelow(p)
    }

    lemma EdgeInEdges(e: Edge)
      requires p <= |nu|
      ensures IsEdge(e) <==> e in Edges()
    {
      InEdgesBelow(p, e);
    }

    /** Every member of `S` is an edge of the cell. */
    ghost predicate Within(S: set<Edge>) {
      forall x :: x in S ==> IsEdge(x)
    }

    /** `S` is the set of all edges of the cell. */
    ghost predicate AllEdges(S: set<Edge>) {
      forall x :: x in S <==> IsEdge(x)
    }

    /** The destination vertex of `e`. */
    function Dest(e: Edge): (k: int)
      requires WellFormed() && IsEdge(e)
      ensures 0 <= k < p
    {
      T[e.v][e.s]
    }

    /** The next edge around the same face: at the destination `k`, the slot
        after the one that leads back along `e`. */
    function Succ(e: Edge): (n: Edge)
      requires WellFormed() && IsEdge(e)
      ensures IsEdge(n) && n.v == Dest(e)
    {
      var k := T[e.v][e.s];
      Edge(k, rot(Mate(e), k))
    }

    /** The rest of the face walk that started at vertex `i`, from edge `e`
        on, given the edges already `visited`: each edge is marked in turn and
        the walk stops after the edge that leads back to `i`. */
    function WalkFrom(i: int, e: Edge, visited: set<Edge>): Result<seq<Edge>>
      requires WellFormed() && IsEdge(e)
      decreases Edges() - visited
    {
      if e in visited then Fatal(FaceNotClosed(e))
      else if Dest(e) == i then Ok([e])
      else
        EdgeInEdges(e);
        Then([e], WalkFrom(i, Succ(e), visited + {e}))
    }

    /** One step of the walk in its accumulated form: having walked `walked`
        and marked `seen`, crossing the unmarked edge `e` either closes the
        walk or continues it from the next edge around the face. */
    lemma WalkStep(i: int, walked: seq<Edge>, visited: set<Edge>, seen: set<Edge>, e: Edge, whole: Result<seq<Edge>>)
      requires WellFormed() && IsEdge(e) && e !in seen
      requires Within(seen) && seen == visited + Elems(walked)
      requires whole == Then(walked, WalkFrom(i, e, seen))
      ensures Within(seen + {e}) && seen + {e} == visited + Elems(walked + [e])
      ensures Dest(e) == i ==> whole == Ok(walked + [e])
      ensures Dest(e) != i ==> whole == Then(walked + [e], WalkFrom(i, Succ(e), seen + {e}))
    {
      ElemsSnoc(walked, e);
      if Dest(e) != i {
        ThenThen(walked, [e], WalkFrom(i, Succ(e), seen + {e}));
      }
    }

    /** The face walk started from the unvisited edge `(i, j)`. */
    function Face(i: int, j: int, visited: set<Edge>): Result<seq<Edge>>
      requires WellFormed() && IsEdge(Edge(i, j))
    {
      Then([Edge(i, j)], WalkFrom(i, Succ(Edge(i, j)), visited + {Edge(i, j)}))
    }

    /** The faces discovered by the scan from edge `(i, j)` on: every unvisited
        edge the scan reaches starts a new face. */
    function Scan(i: int, j: int, visited: set<Edge>): Result<seq<seq<Edge>>>
      requires WellFormed() && 0 <= i <= p && 0 <= j && (i < p ==> j <= nu[i])
      decreases p - i, if i < p then nu[i] - j else 0
    {
      if i == p then Ok([])
      else if j == nu[i] then Scan(i + 1, 0, visited)
      else if Edge(i, j) in visited then Scan(i, j + 1, visited)
      else
        match Face(i, j, visited)
        case Fatal(f) => Fatal(f)
        case Ok(face) => Then([face], Scan(i, j + 1, visited + Elems(face)))
    }

    /** All faces of the cell, in the order the traversals discover them. */
    function Faces(): Result<seq<seq<Edge>>>
      requires WellFormed()
    {
      Scan(0, 0, {})
    }

    /** `vis` holds exactly the edges at or after `(i, j)` in scan order: the
        marks the restore pass has still to clear when it reaches `(i, j)`. */
    ghost predicate Pending(vis: set<Edge>, i: int, j: int)
      requires p <= |nu|
    {
      Within(vis) &&
      (forall e :: e in vis ==> !Before(e, Edge(i, j))) &&
      (forall e :: IsEdge(e) && !Before(e, Edge(i, j)) ==> e in vis)
    }

    lemma PendingAll(vis: set<Edge>)
      requires p <= |nu| && AllEdges(vis)
      ensures Pending(vis, 0, 0)
    {
    }

    lemma PendingStep(vis: set<Edge>, i: int, j: int)
      requires p <= |nu| && Pending(vis, i, j) && IsEdge(Edge(i, j))
      ensures Edge(i, j) in vis && Pending(vis - {Edge(i, j)}, i, j + 1)
    {
    }

    lemma PendingRow(vis: set<Edge>, i: int)
      requires p <= |nu| && 0 <= i < p && Pending(vis, i, nu[i])
      ensures Pending(vis, i + 1, 0)
    {
    }

    lemma PendingNone(vis: set<Edge>)
      requires p <= |nu| && Pending(vis, p, 0)
      ensures vis == {}
    {
      forall e | e in vis ensures false {
      }
    }

    /** `vis` holds only edges, among them every edge before `(i, j)` in scan
        order: what the first pass has marked when it reaches `(i, j)`. */
    ghost predicate Covers(vis: set<Edge>, i: int, j: int)
      requires p <= |nu|
    {
      Within(vis) &&
      forall e :: IsEdge(e) && Before(e, Edge(i, j)) ==> e in vis
    }

    lemma CoversStart()
      requires p <= |nu|
      ensures Covers({}, 0, 0)
    {
    }

    lemma CoversStep(vis: set<Edge>, more: set<Edge>, i: int, j: int)
      requires p <= |nu| && Covers(vis, i, j) && Within(more)
      requires Edge(i, j) in vis + more
      ensures Covers(vis + more, i, j + 1)
    {
    }

    lemma CoversRow(vis: set<Edge>, i: int)
      requires p <= |nu| && 0 <= i < p && Covers(vis, i, nu[i])
      ensures Covers(vis, i + 1, 0)
    {
    }

    lemma CoversAll(vis: set<Edge>)
      requires p <= |nu| && Covers(vis, p, 0)
      ensures AllEdges(vis)
    {
    }

    /** The scan moves from the end of row `i` to the start of row `i + 1`. */
    lemma ScanRowEnd(i: int, vis: set<Edge>)
      requires WellFormed() && 0 <= i < p
      ensures Scan(i, nu[i], vis) == Scan(i + 1, 0, vis)
    {
    }

    /** The scan passes over an edge that is already marked. */
    lemma ScanSkip(i: int, j: int, vis: set<Edge>)
      requires WellFormed() && IsEdge(Edge(i, j)) && Edge(i, j) in vis
      ensures Scan(i, j, vis) == Scan(i, j + 1, vis)
    {
    }

    /** The scan meets an unmarked edge: the face walked from it is the next
        face found, or its failure ends the scan. */
    lemma ScanFace(found: seq<seq<Edge>>, i: int, j: int, vis: set<Edge>, whole: Result<seq<seq<Edge>>>)
      requires WellFormed() && IsEdge(Edge(i, j)) && Edge(i, j) !in vis
      requires whole == Then(found, Scan(i, j, vis))
      ensures Face(i, j, vis).Fatal? ==> whole == Fatal(Face(i, j, vis).fault)
      ensures Face(i, j, vis).Ok? ==>
                whole == Then(found + [Face(i, j, vis).value], Scan(i, j + 1, vis + Elems(Face(i, j, vis).value)))
    {
      var f := Face(i, j, vis);
      if f.Ok? {
        ThenThen(found, [f.value], Scan(i, j + 1, vis + Elems(f.value)));
      }
    }

    /** What a successful walk from `e` is: a chain of edges, each the
        successor of the one before, none of them visited, in which only the
        last leads back to vertex `i`. */
    lemma {:induction false} WalkShape(i: int, e: Edge, visited: set<Edge>)
      requires WellFormed() && IsEdge(e)
      requires WalkFrom(i, e, visited).Ok?
      ensures var w := WalkFrom(i, e, visited).value;
        |w| > 0 && w[0] == e &&
        (forall x :: x in w ==> IsEdge(x) && x !in visited) && Dest(w[|w| - 1]) == i &&
        (forall n :: 0 <= n < |w| - 1 ==> Dest(w[n]) != i && w[n + 1] == Succ(w[n]))
      decreases Edges() - visited
    {
      if Dest(e) != i {
        EdgeInEdges(e);
        WalkShape(i, Succ(e), visited + {e});
        var rest := WalkFrom(i, Succ(e), visited + {e}).value;
        var w := [e] + rest;
        assert WalkFrom(i, e, visited).value == w;
        forall n | 0 <= n < |w| - 1 ensures Dest(w[n]) != i && w[n + 1] == Succ(w[n]) {
          if n > 0 {
            assert w[n] == rest[n - 1] && w[n + 1] == rest[n];
          }
        }
      }
    }

    /** What a successful face walk from `(i, j)` is: the chain of successors
        of `(i, j)` up to the first edge that leads back to `i`, none of them
        visited before. */
    lemma FaceShape(i: int, j: int, visited: set<Edge>)
      requires WellFormed() && IsEdge(Edge(i, j))
      requires Face(i, j, visited).Ok?
      ensures var w := Face(i, j, visited).value;
        |w| > 1 && w[0] == Edge(i, j) &&
        (forall x :: x in w ==> IsEdge(x) && (x in visited ==> x == Edge(i, j))) && Dest(w[|w| - 1]) == i &&
        (forall n :: 0 <= n < |w| - 1 ==> w[n + 1] == Succ(w[n])) &&
        (forall n :: 1 <= n < |w| - 1 ==> Dest(w[n]) != i)
    {
      var e := Edge(i, j);
      EdgeInEdges(e);
      WalkShape(i, Succ(e), visited + {e});
      var rest := WalkFrom(i, Succ(e), visited + {e}).value;
      var w := [e] + rest;
      assert Face(i, j, visited).value == w;
      forall n | 1 <= n < |w| - 1 ensures Dest(w[n]) != i && w[n + 1] == Succ(w[n]) {
        assert w[n] == rest[n - 1] && w[n + 1] == rest[n];
      }
    }

    /** The edges of a successful face walk, as a set: the edges on it,
        all of them edges of the cell, the first `(i, j)` and none visited. */
    lemma FaceElems(i: int, j: int, vis: set<Edge>)
      requires WellFormed() && IsEdge(Edge(i, j)) && Edge(i, j) !in vis
      requires Face(i, j, vis).Ok?
      ensures var face := Face(i, j, vis).value;
        (forall x :: x in Elems(face) <==> x in face) && Within(Elems(face)) &&
        Edge(i, j) in Elems(face) && Elems(face) !! vis &&
        |face| > 1 && forall x :: x in face ==> IsEdge(x) && x !in vis
    {
      var face := Face(i, j, vis).value;
      FaceShape(i, j, vis);
      forall x ensures x in Elems(face) <==> x in face {
        ElemsIn(face, x);
      }
    }

    /** `face` is a closed walk around one face: at least two edges of the
        cell, each the successor of the one before, of which only the last
        leads back to the vertex the first starts from. */
    ghost predicate Closed(face: seq<Edge>)
      requires WellFormed()
    {
      |face| > 1 && (forall x :: x in face ==> IsEdge(x)) &&
      Dest(face[|face| - 1]) == face[0].v &&
      (forall n :: 0 <= n < |face| - 1 ==> face[n + 1] == Succ(face[n])) &&
      (forall n :: 1 <= n < |face| - 1 ==> Dest(face[n]) != face[0].v)
    }

    /** Each face of `fs` is a closed walk none of whose edges is in `vis` or
        on an earlier face: what the scan's visited set guarantees. */
    ghost predicate Fresh(fs: seq<seq<Edge>>, vis: set<Edge>)
      requires WellFormed()
      decreases |fs|
    {
      fs == [] ||
      (Closed(fs[0]) && (forall x :: x in fs[0] ==> x !in vis) && Fresh(fs[1..], vis + Elems(fs[0])))
    }

    /** The scan moves from the end of row `i` to the start of row `i + 1`. */
    lemma RowEndOk(i: int, vis: set<Edge>, fs: seq<seq<Edge>>)
      requires WellFormed() && 0 <= i < p && Scan(i, nu[i], vis) == Ok(fs)
      ensures Scan(i + 1, 0, vis) == Ok(fs)
    {
    }

    /** The scan passes over an edge that is already marked. */
    lemma SkipOk(i: int, j: int, vis: set<Edge>, fs: seq<seq<Edge>>)
      requires WellFormed() && IsEdge(Edge(i, j)) && Edge(i, j) in vis && Scan(i, j, vis) == Ok(fs)
      ensures Scan(i, j + 1, vis) == Ok(fs)
    {
    }

    /** A successful scan meeting an unmarked edge finds its face first. */
    lemma FaceOk(i: int, j: int, vis: set<Edge>, fs: seq<seq<Edge>>)
      requires WellFormed() && IsEdge(Edge(i, j)) && Edge(i, j) !in vis && Scan(i, j, vis) == Ok(fs)
      ensures Face(i, j, vis).Ok? && |fs| > 0 && fs[0] == Face(i, j, vis).value
      ensures |fs[0]| > 0 && fs[0][0] == Edge(i, j)
      ensures Scan(i, j + 1, vis + Elems(fs[0])) == Ok(fs[1..])
    {
    }

    /** The faces `fs` the scan from `(i, j)` finds are fresh. */
    lemma {:induction false} ScanFresh(i: int, j: int, vis: set<Edge>, fs: seq<seq<Edge>>)
      requires WellFormed() && 0 <= i <= p && 0 <= j && (i < p ==> j <= nu[i])
      requires Scan(i, j, vis) == Ok(fs)
      ensures Fresh(fs, vis)
      decreases p - i, if i < p then nu[i] - j else 0
    {
      if i == p {
      } else if j == nu[i] {
        RowEndOk(i, vis, fs);
        ScanFresh(i + 1, 0, vis, fs);
      } else if Edge(i, j) in vis {
        SkipOk(i, j, vis, fs);
        ScanFresh(i, j + 1, vis, fs);
      } else {
        FaceOk(i, j, vis, fs);
        var face := fs[0];
        var rest := fs[1..];
        FaceClosed(i, j, vis);
        FaceElems(i, j, vis);
        ScanFresh(i, j + 1, vis + Elems(face), rest);
        FreshCons(face, rest, vis);
        assert fs == [face] + rest;
      }
    }

    /** A successful face walk is a closed walk. */
    lemma FaceClosed(i: int, j: int, vis: set<Edge>)
      requires WellFormed() && IsEdge(Edge(i, j)) && Face(i, j, vis).Ok?
      ensures Closed(Face(i, j, vis).value)
    {
      FaceShape(i, j, vis);
    }

    lemma FreshCons(face: seq<Edge>, rest: seq<seq<Edge>>, vis: set<Edge>)
      requires WellFormed() && Closed(face) && (forall x :: x in face ==> x !in vis)
      requires Fresh(rest, vis + Elems(face))
      ensures Fresh([face] + rest, vis)
    {
      assert ([face] + rest)[0] == face && ([face] + rest)[1..] == rest;
    }

    /** An unvisited edge `x` at or after `(i, j)` in scan order lies on one
        of the faces `fs` the scan from `(i, j)` finds. */
    lemma {:induction false} ScanCovers(i: int, j: int, vis: set<Edge>, fs: seq<seq<Edge>>, x: Edge)
      requires WellFormed() && 0 <= i <= p && 0 <= j && (i < p ==> j <= nu[i])
      requires Scan(i, j, vis) == Ok(fs)
      requires IsEdge(x) && !Before(x, Edge(i, j)) && x !in vis
      ensures x in Union(fs)
      decreases p - i, if i < p then nu[i] - j else 0
    {
      if i == p {
        assert false;
      } else if j == nu[i] {
        RowEndOk(i, vis, fs);
        ScanCovers(i + 1, 0, vis, fs, x);
      } else if Edge(i, j) in vis {
        SkipOk(i, j, vis, fs);
        ScanCovers(i, j + 1, vis, fs, x);
      } else {
        FaceOk(i, j, vis, fs);
        var face := fs[0];
        var more := Elems(face);
        UnionCons(face, fs[1..]);
        assert fs == [face] + fs[1..];
        if x !in more {
          ElemsIn(face, Edge(i, j));
          assert x != Edge(i, j);
          ScanCovers(i, j + 1, vis + more, fs[1..], x);
        }
      }
    }

    /** `c` is the boundary of one face of a closed mesh: at least two edges
        of the cell, each the successor of the one before and the first the
        successor of the last, with no vertex met twice. */
    ghost predicate Cycle(c: seq<Edge>)
      requires WellFormed()
    {
      |c| > 1 && (forall x :: x in c ==> IsEdge(x)) &&
      (forall n :: 0 <= n < |c| - 1 ==> Succ(c[n]) == c[n + 1]) &&
      Succ(c[|c| - 1]) == c[0] &&
      (forall a, b :: 0 <= a < b < |c| ==> c[a].v != c[b].v)
    }

    /** The cycles `cs` tile the directed edges: each edge lies on exactly
        one of them. */
    ghost predicate Tiling(cs: seq<seq<Edge>>)
      requires WellFormed()
    {
      (forall k :: 0 <= k < |cs| ==> Cycle(cs[k])) && Disjoint(cs) &&
      (forall x :: x in Edges() ==> exists k :: 0 <= k < |cs| && x in cs[k])
    }

    /** The cell is a closed mesh: its directed edges split into face
        cycles. */
    ghost predicate Tiled()
      requires WellFormed()
    {
      exists cs :: Tiling(cs)
    }

    /** A cycle read from position `p` on is a cycle with the same edges. */
    lemma RotateCycle(c: seq<Edge>, p: int)
      requires WellFormed() && Cycle(c) && 0 <= p < |c|
      ensures var r := c[p..] + c[..p];
        Cycle(r) && r[0] == c[p] && forall x :: x in r <==> x in c
    {
      var r := c[p..] + c[..p];
      var L := |c|;
      forall m | 0 <= m < L ensures r[m] == c[if m < L - p then p + m else m - (L - p)] {
      }
      forall m | 0 <= m < L - 1 ensures Succ(r[m]) == r[m + 1] {
        if m == L - p - 1 {
          assert r[m] == c[L - 1] && r[m + 1] == c[0];
        }
      }
      forall a, b | 0 <= a < b < L ensures r[a].v != r[b].v {
        var ia := if a < L - p then p + a else a - (L - p);
        var ib := if b < L - p then p + b else b - (L - p);
        assert r[a] == c[ia] && r[b] == c[ib] && ia != ib;
      }
      forall x | x in c ensures x in r {
        var n :| 0 <= n < L && c[n] == x;
        if n >= p {
          assert r[n - p] == x;
        } else {
          assert r[L - p + n] == x;
        }
      }
    }

    /** Walking a face cycle `r` that starts at vertex `i`, from position
        `m` on, through edges none of which is visited, crosses the rest of
        the cycle and stops. */
    lemma {:induction false} WalkAlong(i: int, r: seq<Edge>, m: int, visited: set<Edge>)
      requires WellFormed() && Cycle(r) && r[0].v == i && 1 <= m < |r|
      requires forall x :: x in r[m..] ==> x !in visited
      ensures WalkFrom(i, r[m], visited) == Ok(r[m..])
      decreases |r| - m
    {
      var x := r[m];
      assert x in r[m..];
      if m == |r| - 1 {
        assert Dest(x) == Succ(x).v == i;
        assert r[m..] == [x];
      } else {
        assert Succ(x) == r[m + 1] && r[m + 1].v != r[0].v;
        forall y | y in r[m + 1..] ensures y !in visited + {x} {
          var n :| m + 1 <= n < |r| && r[n] == y;
          assert r[n].v != r[m].v;
          assert y in r[m..];
        }
        WalkAlong(i, r, m + 1, visited + {x});
        EdgeInEdges(x);
        assert [x] + r[m + 1..] == r[m..];
      }
    }

    /** The face walk from the first edge of an unvisited face cycle walks
        exactly that cycle. */
    lemma FaceOnCycle(i: int, j: int, visited: set<Edge>, r: seq<Edge>)
      requires WellFormed() && Cycle(r) && r[0] == Edge(i, j)
      requires forall x :: x in r ==> x !in visited
      ensures Face(i, j, visited) == Ok(r)
    {
      assert r[0] in r;
      forall y | y in r[1..] ensures y !in visited + {r[0]} {
        var n :| 1 <= n < |r| && r[n] == y;
        assert r[n].v != r[0].v;
        assert y in r;
      }
      WalkAlong(i, r, 1, visited);
      WalkAlong(i, r, 1, visited + {r[0]});
      assert [r[0]] + r[1..] == r;
    }

    /** `vis` holds whole cycles of `cs`: an edge of a cycle is visited only
        together with the rest of its cycle. */
    ghost predicate Saturated(vis: set<Edge>, cs: seq<seq<Edge>>) {
      forall k, x, y :: 0 <= k < |cs| && x in cs[k] && y in cs[k] && x in vis ==> y in vis
    }

    /** The unvisited edge `(i, j)` lies on a cycle of the tiling; read from
        `(i, j)`, that cycle is the face walked from it, and marking it
        keeps the visited set made of whole cycles. */
    lemma FaceOfTiling(cs: seq<seq<Edge>>, i: int, j: int, vis: set<Edge>)
      requires WellFormed() && Tiling(cs) && Within(vis) && Saturated(vis, cs)
      requires IsEdge(Edge(i, j)) && Edge(i, j) !in vis
      ensures Face(i, j, vis).Ok?
      ensures Within(vis + Elems(Face(i, j, vis).value)) && Saturated(vis + Elems(Face(i, j, vis).value), cs)
    {
      var e := Edge(i, j);
      EdgeInEdges(e);
      var k :| 0 <= k < |cs| && e in cs[k];
      var c := cs[k];
      var p :| 0 <= p < |c| && c[p] == e;
      var r := c[p..] + c[..p];
      RotateCycle(c, p);
      forall x | x in r ensures x !in vis {
        assert x in c;
      }
      FaceOnCycle(i, j, vis, r);
      var vis' := vis + Elems(r);
      forall x ensures x in Elems(r) <==> x in c {
        ElemsIn(r, x);
      }
      forall k', x, y | 0 <= k' < |cs| && x in cs[k'] && y in cs[k'] && x in vis' ensures y in vis' {
        if x !in vis {
          assert x in c;
        }
      }
    }

    /** On a tiled cell, the scan from `(i, j)` over whole visited cycles
        finds its faces without fault. */
    lemma {:induction false} ScanOnTiling(cs: seq<seq<Edge>>, i: int, j: int, vis: set<Edge>)
      requires WellFormed() && Tiling(cs) && 0 <= i <= p && 0 <= j && (i < p ==> j <= nu[i])
      requires Within(vis) && Saturated(vis, cs)
      ensures Scan(i, j, vis).Ok?
      decreases p - i, if i < p then nu[i] - j else 0
    {
      if i == p {
        assert Scan(i, j, vis) == Ok([]);
      } else if j == nu[i] {
        ScanOnTiling(cs, i + 1, 0, vis);
        RowEndOpens(i, vis);
      } else {
        var vis' := StepOnTiling(cs, i, j, vis);
        ScanOnTiling(cs, i, j + 1, vis');
      }
    }

    /** One step of the scan on a tiled cell: at `(i, j)` the visited set
        grows to `vis'`, still made of whole cycles, and the scan succeeds
        when the scan from `(i, j + 1)` over `vis'` does. */
    lemma StepOnTiling(cs: seq<seq<Edge>>, i: int, j: int, vis: set<Edge>) returns (vis': set<Edge>)
      requires WellFormed() && Tiling(cs) && 0 <= i < p && 0 <= j < nu[i]
      requires Within(vis) && Saturated(vis, cs)
      ensures Within(vis') && Saturated(vis', cs)
      ensures Scan(i, j + 1, vis').Ok? ==> Scan(i, j, vis).Ok?
    {
      if Edge(i, j) in vis {
        vis' := vis;
        if Scan(i, j + 1, vis').Ok? {
          SkipOpens(i, j, vis);
        }
      } else {
        FaceOfTiling(cs, i, j, vis);
        vis' := vis + Elems(Face(i, j, vis).value);
        if Scan(i, j + 1, vis').Ok? {
          ScanOpens(i, j, vis);
        }
      }
    }

    /** A scan at the end of row `i` succeeds when the scan of row `i + 1`
        does. */
    lemma RowEndOpens(i: int, vis: set<Edge>)
      requires WellFormed() && 0 <= i < p && Scan(i + 1, 0, vis).Ok?
      ensures Scan(i, nu[i], vis).Ok?
    {
    }

    /** A scan at a marked edge succeeds when the scan after it does. */
    lemma SkipOpens(i: int, j: int, vis: set<Edge>)
      requires WellFormed() && IsEdge(Edge(i, j)) && Edge(i, j) in vis && Scan(i, j + 1, vis).Ok?
      ensures Scan(i, j, vis).Ok?
    {
    }

    /** A scan meeting an unmarked edge succeeds when the edge's face walk
        and the scan after it both succeed. */
    lemma ScanOpens(i: int, j: int, vis: set<Edge>)
      requires WellFormed() && IsEdge(Edge(i, j)) && Edge(i, j) !in vis && Face(i, j, vis).Ok?
      requires Scan(i, j + 1, vis + Elems(Face(i, j, vis).value)).Ok?
      ensures Scan(i, j, vis).Ok?
    {
    }

    /** On a closed mesh every face walk closes: the traversals raise no
        fatal error. */
    lemma FacesClose()
      requires WellFormed() && Tiled()
      ensures Faces().Ok?
    {
      var cs :| Tiling(cs);
      ScanOnTiling(cs, 0, 0, {});
    }
  }

  /** The edges on the faces `fs`. */
  function Union(fs: seq<seq<Edge>>): set<Edge>
    decreases |fs|
  {
    if fs == [] then {} else Elems(fs[0]) + Union(fs[1..])
  }

  /** No edge lies on two of the faces `fs`. */
  ghost predicate Disjoint(fs: seq<seq<Edge>>) {
    forall k, m, x :: 0 <= k < m < |fs| && x in fs[k] ==> x !in fs[m]
  }

  /** Fresh faces are disjoint closed walks that avoid the edges visited
      before. */
  lemma {:induction false} FreshDisjoint(g: Graph, fs: seq<seq<Edge>>, vis: set<Edge>)
    requires g.WellFormed() && g.Fresh(fs, vis)
    ensures Disjoint(fs)
    ensures forall k :: 0 <= k < |fs| ==> g.Closed(fs[k]) && forall x :: x in fs[k] ==> x !in vis
    decreases |fs|
  {
    if fs != [] {
      var more := Elems(fs[0]);
      FreshDisjoint(g, fs[1..], vis + more);
      forall x | x in fs[0] ensures x in more {
        ElemsIn(fs[0], x);
      }
      forall k, m, x | 0 <= k < m < |fs| && x in fs[k] ensures x !in fs[m] {
        assert fs[m] == fs[1..][m - 1];
        if k > 0 {
          assert fs[k] == fs[1..][k - 1];
        }
      }
      forall k | 0 < k < |fs| ensures g.Closed(fs[k]) && forall x :: x in fs[k] ==> x !in vis {
        assert fs[k] == fs[1..][k - 1];
      }
    }
  }

  lemma UnionCons(face: seq<Edge>, rest: seq<seq<Edge>>)
    ensures Union([face] + rest) == Elems(face) + Union(rest)
  {
    assert ([face] + rest)[1..] == rest;
  }

  lemma {:induction false} InUnion(fs: seq<seq<Edge>>, x: Edge)
    ensures x in Union(fs) <==> exists k :: 0 <= k < |fs| && x in fs[k]
    decreases |fs|
  {
    if fs != [] {
      InUnion(fs[1..], x);
      ElemsIn(fs[0], x);
      if x in Union(fs[1..]) {
        var k :| 0 <= k < |fs[1..]| && x in fs[1..][k];
        assert x in fs[k + 1];
      }
      if exists k :: 0 <= k < |fs| && x in fs[k] {
        var k :| 0 <= k < |fs| && x in fs[k];
        if k > 0 {
          assert x in fs[1..][k - 1];
        }
      }
    }
  }

  /** The faces of a cell whose walks all close partition its directed
      edges: every face is a closed walk of at least two edges, no edge lies
      on two faces, and every edge lies on one. */
  lemma FacesPartition(g: Graph)
    requires g.WellFormed() && g.Faces().Ok?
    ensures var fs := g.Faces().value;
      (forall k :: 0 <= k < |fs| ==> g.Closed(fs[k])) &&
      Disjoint(fs) &&
      (forall x :: g.IsEdge(x) ==> exists k :: 0 <= k < |fs| && x in fs[k])
  {
    var fs := g.Faces().value;
    g.ScanFresh(0, 0, {}, fs);
    FreshDisjoint(g, fs, {});
    forall x | g.IsEdge(x) ensures exists k :: 0 <= k < |fs| && x in fs[k] {
      g.ScanCovers(0, 0, {}, fs, x);
      InUnion(fs, x);
    }
  }
}

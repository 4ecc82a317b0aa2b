/**
  The owning cell's side of the interface the neighbour tracker uses: the
  vertex count `p`, the degrees `nu`, the edge table `ed` (one row per vertex),
  the per-degree occupancy counters `mec` and capacities `mem`, the current
  table sizes, and the rotation `cycleUp` used to step around a face. The
  tracker only reads these, so they are constants of the cell here; what it
  changes are the entries of the rows of `ed`, which it marks and restores
  during its traversals. The face walk and the restore pass are modelled here
  because they act on `ed` alone.
*/
module CellTables {
  import opened Faces

  class Cell {
    const p: nat
    const nu: seq<int>
    const ed: array<array<int>>
    const mec: seq<int>
    const mem: seq<int>
    const currentVertices: nat
    const currentVertexOrder: nat
    const cycleUp: (int, int) -> int

    constructor (p: nat, nu: seq<int>, ed: array<array<int>>, mec: seq<int>, mem: seq<int>,
                 currentVertices: nat, currentVertexOrder: nat, cycleUp: (int, int) -> int)
      ensures this.p == p && this.nu == nu && this.ed == ed && this.mec == mec && this.mem == mem
      ensures this.currentVertices == currentVertices && this.currentVertexOrder == currentVertexOrder
      ensures this.cycleUp == cycleUp
    {
      this.p, this.nu, this.ed, this.mec, this.mem := p, nu, ed, mec, mem;
      this.currentVertices, this.currentVertexOrder, this.cycleUp := currentVertices, currentVertexOrder, cycleUp;
    }

    /** Every live vertex has a degree and a row of its own. */
    ghost predicate Valid()
      reads this, ed
    {
      p <= |nu| && p <= ed.Length &&
      forall a, b :: 0 <= a < b < p ==> ed[a] != ed[b]
    }

    /** The rows of the live vertices. */
    ghost function EdRows(): set<array<int>>
      reads this, ed
    {
      set a | 0 <= a < p && a < ed.Length :: ed[a]
    }

    /** The contents of the first `n` rows of the edge table. */
    ghost function RowsUpTo(n: nat): (T: seq<seq<int>>)
      requires Valid() && n <= p
      reads this, ed, EdRows()
      ensures |T| == n
    {
      if n == 0 then [] else RowsUpTo(n - 1) + [ed[n - 1][..]]
    }

    /** The edge table's contents, one sequence per live vertex. */
    ghost function Table(): (T: seq<seq<int>>)
      requires Valid()
      reads this, ed, EdRows()
      ensures |T| == p
    {
      RowsUpTo(p)
    }

    lemma {:induction false} RowOfTable(n: nat, a: int)
      requires Valid() && n <= p && 0 <= a < n
      ensures RowsUpTo(n)[a] == ed[a][..]
    {
      if a < n - 1 {
        RowOfTable(n - 1, a);
      }
    }

    /** The edge graph the traversals walk. */
    ghost function Graph(): Graph
      requires Valid()
      reads this, ed, EdRows()
    {
      Faces.Graph(Table(), nu, p, cycleUp)
    }

    /** Marks (or unmarks) one entry of the edge table: `ed[k][l] = -1 - ed[k][l]`. */
    method FlipEntry(k: int, l: int)
      requires Valid() && 0 <= k < p && 0 <= l < ed[k].Length
      modifies ed[k]
      ensures Table() == FlipAt(old(Table()), Edge(k, l))
    {
      ghost var before := Table();
      forall a | 0 <= a < p ensures before[a] == ed[a][..] {
        RowOfTable(p, a);
      }
      ed[k][l] := -1 - ed[k][l];
      forall a | 0 <= a < p ensures Table()[a] == FlipAt(before, Edge(k, l))[a] {
        RowOfTable(p, a);
      }
    }
  
    /** The entry for `(k, l)` read from the table equals the original entry,
        flipped exactly when the edge is marked; mate slots are never marked. */
    lemma ReadEntry(g: Graph, seen: set<Edge>, k: int, l: int)
      requires Valid() && g.WellFormed() && |g.T| == p && g.nu == nu && g.p == p
      requires g.Within(seen) && Table() == Marked(g.T, seen)
      requires g.IsEdge(Edge(k, l))
      ensures l < nu[k] + l < ed[k].Length
      ensures ed[k][l] == if Edge(k, l) in seen then Flip(g.T[k][l]) else g.T[k][l]
      ensures ed[k][nu[k] + l] == g.Mate(Edge(k, l))
    {
      RowOfTable(p, k);
      g.EdgeInEdges(Edge(k, nu[k] + l));
    }

    /** One step of a face walk at edge `(k, l)`: reads its destination `m`;
        if the edge is unmarked, marks it and finds the next edge of the face
        from the mate index and the rotation around `m`. */
    method MarkStep(k: int, l: int, ghost g: Graph, ghost seen: set<Edge>) returns (m: int, next: Edge)
      requires Valid() && g.WellFormed()
      requires g.p == p && g.nu == nu && g.rot == cycleUp && |g.T| == p
      requires g.Within(seen) && Table() == Marked(g.T, seen)
      requires g.IsEdge(Edge(k, l))
      modifies EdRows()
      ensures m < 0 <==> Edge(k, l) in seen
      ensures m < 0 ==> Table() == old(Table())
      ensures m >= 0 ==> m == g.Dest(Edge(k, l)) && next == g.Succ(Edge(k, l))
      ensures m >= 0 ==> Table() == Marked(g.T, seen + {Edge(k, l)})
    {
      ReadEntry(g, seen, k, l);
      m := ed[k][l];
      next := Edge(k, l);
      if m >= 0 {
        FlipEntry(k, l);
        MarkedToggle(g.T, seen, Edge(k, l));
        g.EdgeInEdges(Edge(k, l));
        ReadEntry(g, seen + {Edge(k, l)}, k, l);
        next := Edge(m, cycleUp(ed[k][nu[k] + l], m));
      }
    }

    /** Walks one face from the unmarked edge `(i, j)`, marking each edge it
        crosses, until it has crossed an edge leading back to vertex `i`. */
    method WalkFace(i: int, j: int, ghost g: Graph, ghost visited: set<Edge>) returns (r: Result<seq<Edge>>)
      requires Valid() && g.WellFormed()
      requires g.p == p && g.nu == nu && g.rot == cycleUp && |g.T| == p
      requires g.Within(visited) && Table() == Marked(g.T, visited)
      requires g.IsEdge(Edge(i, j)) && Edge(i, j) !in visited
      modifies EdRows()
      ensures r == g.Face(i, j, visited)
      ensures r.Ok? ==> g.Within(Elems(r.value))
      ensures r.Ok? ==> Table() == Marked(g.T, visited + Elems(r.value))
    {
      var m, next := MarkStep(i, j, g, visited);
      g.EdgeInEdges(Edge(i, j));
      ElemsSnoc([], Edge(i, j));
      assert [] + [Edge(i, j)] == [Edge(i, j)];
      r := WalkOn(i, g, visited, [Edge(i, j)], visited + {Edge(i, j)}, next);
    }

    /** The do-while loop of a face walk: having walked `walked` and marked
        `seen`, continues from `next` until an edge leads back to vertex `i`. */
    method WalkOn(i: int, ghost g: Graph, ghost visited: set<Edge>, walked0: seq<Edge>,
                  ghost seen0: set<Edge>, next0: Edge) returns (r: Result<seq<Edge>>)
      requires Valid() && g.WellFormed()
      requires g.p == p && g.nu == nu && g.rot == cycleUp && |g.T| == p
      requires g.Within(seen0) && Table() == Marked(g.T, seen0)
      requires seen0 == visited + Elems(walked0) && g.IsEdge(next0)
      modifies EdRows()
      ensures r == Then(walked0, g.WalkFrom(i, next0, seen0))
      ensures r.Ok? ==> g.Within(Elems(r.value))
      ensures r.Ok? ==> Table() == Marked(g.T, visited + Elems(r.value))
    {
      ghost var whole := Then(walked0, g.WalkFrom(i, next0, seen0));
      var walked, next := walked0, next0;
      ghost var seen := seen0;
      while true
        invariant g.Within(seen) && Table() == Marked(g.T, seen)
        invariant seen == visited + Elems(walked)
        invariant g.IsEdge(next)
        invariant whole == Then(walked, g.WalkFrom(i, next, seen))
        decreases g.Edges() - seen
      {
        var e := next;
        var m;
        m, next := MarkStep(e.v, e.s, g, seen);
        if m < 0 {
          return Fatal(FaceNotClosed(e));
        }
        g.WalkStep(i, walked, visited, seen, e, whole);
        g.EdgeInEdges(e);
        seen := seen + {e};
        walked := walked + [e];
        if m == i {
          return Ok(walked);
        }
      }
    }

    /** The pass that follows every traversal: each entry of the first half
        of every row must be marked (an unmarked one would mean the traversal
        missed an edge), and is unmarked again. */
    method Restore(ghost g: Graph, ghost all: set<Edge>)
      requires Valid() && g.WellFormed()
      requires g.p == p && g.nu == nu && |g.T| == p
      requires g.AllEdges(all) && Table() == Marked(g.T, all)
      modifies EdRows()
      ensures Table() == g.T
    {
      ghost var vis := all;
      g.PendingAll(vis);
      var i := 0;
      while i < p
        invariant 0 <= i <= p
        invariant g.Pending(vis, i, 0) && Table() == Marked(g.T, vis)
      {
        vis := RestoreRow(i, g, vis);
        g.PendingRow(vis, i);
        i := i + 1;
      }
      g.PendingNone(vis);
      MarkedNone(g.T);
    }

    /** The restore pass over row `i`: checks and unmarks its first `nu[i]`
        entries, which are the last marks before row `i + 1`. */
    method RestoreRow(i: int, ghost g: Graph, ghost vis0: set<Edge>) returns (ghost vis: set<Edge>)
      requires Valid() && g.WellFormed()
      requires g.p == p && g.nu == nu && |g.T| == p && 0 <= i < p
      requires g.Pending(vis0, i, 0) && Table() == Marked(g.T, vis0)
      modifies EdRows()
      ensures g.Pending(vis, i, nu[i]) && Table() == Marked(g.T, vis)
    {
      vis := vis0;
      var j := 0;
      while j < nu[i]
        invariant 0 <= j <= nu[i]
        invariant g.Pending(vis, i, j) && Table() == Marked(g.T, vis)
      {
        g.PendingStep(vis, i, j);
        var x := Unmark(i, j, g, vis);
        if x >= 0 {
          assert false;
        }
        vis := vis - {Edge(i, j)};
        j := j + 1;
      }
    }

    /** Unmarks the marked entry for edge `(k, l)`. */
    method Unmark(k: int, l: int, ghost g: Graph, ghost seen: set<Edge>) returns (x: int)
      requires Valid() && g.WellFormed()
      requires g.p == p && g.nu == nu && |g.T| == p
      requires g.Within(seen) && Table() == Marked(g.T, seen)
      requires g.IsEdge(Edge(k, l)) && Edge(k, l) in seen
      modifies ed[k]
      ensures x < 0 && Table() == Marked(g.T, seen - {Edge(k, l)})
    {
      ReadEntry(g, seen, k, l);
      x := ed[k][l];
      FlipEntry(k, l);
      MarkedToggle(g.T, seen, Edge(k, l));
    }
  }
}

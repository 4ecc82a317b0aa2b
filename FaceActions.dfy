/**
  What the three traversals do with the faces they find, stated on the
  neighbour rows as values: `R[v][s]` is the neighbour id stored for edge
  `(v, s)` of the cell. Labelling writes the face's number into every edge of
  the face, listing reads the id of each face's first edge, and checking
  reports every edge of a face whose id differs from the id of the face's
  first edge.
*/
module FaceActions {
  import opened Faces

  /** `R` with the id `q` written to every edge of the walk `w`, in walk order. */
  function Paint(R: seq<seq<int>>, w: seq<Edge>, q: int): (U: seq<seq<int>>)
    ensures |U| == |R| && forall a :: 0 <= a < |R| ==> |U[a]| == |R[a]|
    decreases |w|
  {
    if w == [] then R else Put(Paint(R, w[..|w| - 1], q), w[|w| - 1], q)
  }

  /** Painting one more edge of the walk. */
  lemma PaintSnoc(R: seq<seq<int>>, w: seq<Edge>, t: int, q: int)
    requires 0 <= t < |w|
    ensures Paint(R, w[..t + 1], q) == Put(Paint(R, w[..t], q), w[t], q)
  {
    assert w[..t + 1][..t] == w[..t];
  }

  /** The rows after labelling the faces `fs` in order: face `k` gets `k + 1`. */
  function Labelled(R: seq<seq<int>>, fs: seq<seq<Edge>>): (U: seq<seq<int>>)
    ensures |U| == |R| && forall a :: 0 <= a < |R| ==> |U[a]| == |R[a]|
    decreases |fs|
  {
    if fs == [] then R else Paint(Labelled(R, fs[..|fs| - 1]), fs[|fs| - 1], |fs|)
  }

  /** The id of a face: the one stored for its first edge. */
  function StartId(R: seq<seq<int>>, face: seq<Edge>): int {
    if face == [] then 0 else At(R, face[0])
  }

  /** The ids the listing writes, one per face, in the order found. */
  function Listing(R: seq<seq<int>>, fs: seq<seq<Edge>>): (ids: seq<int>)
    ensures |ids| == |fs|
    decreases |fs|
  {
    if fs == [] then [] else Listing(R, fs[..|fs| - 1]) + [StartId(R, fs[|fs| - 1])]
  }

  /** One inconsistency the check reports: edge `at` holds `found`, while the
      face it lies on started from edge `start` holding `expected`. */
  datatype Report = Report(at: Edge, found: int, start: Edge, expected: int)

  /** The reports for the edges of `w`, on a face that started from `start`
      with id `q`, in walk order. */
  function Mis(R: seq<seq<int>>, w: seq<Edge>, start: Edge, q: int): seq<Report>
    decreases |w|
  {
    if w == [] then []
    else
      var e := w[|w| - 1];
      Mis(R, w[..|w| - 1], start, q) + (if At(R, e) != q then [Report(e, At(R, e), start, q)] else [])
  }

  /** The reports for one face: every edge after the first is compared with it. */
  function FaceReports(R: seq<seq<int>>, face: seq<Edge>): seq<Report> {
    if face == [] then [] else Mis(R, face[1..], face[0], At(R, face[0]))
  }

  /** Everything the check reports for the faces `fs`, in the order found. */
  function Mismatches(R: seq<seq<int>>, fs: seq<seq<Edge>>): seq<Report>
    decreases |fs|
  {
    if fs == [] then [] else Mismatches(R, fs[..|fs| - 1]) + FaceReports(R, fs[|fs| - 1])
  }

  /** Painting writes `q` exactly to the edges of the walk that name an entry
      of `R`, and leaves every other entry as it was. */
  lemma {:induction false} PaintAt(R: seq<seq<int>>, w: seq<Edge>, q: int, e: Edge)
    ensures At(Paint(R, w, q), e) == if e in w && InRange(R, e) then q else At(R, e)
    decreases |w|
  {
    if w != [] {
      var w' := w[..|w| - 1];
      PaintAt(R, w', q, e);
      assert w == w' + [w[|w| - 1]];
      assert InRange(Paint(R, w', q), e) <==> InRange(R, e);
    }
  }

  lemma DisjointPrefix(fs: seq<seq<Edge>>, n: nat)
    requires Disjoint(fs) && n <= |fs|
    ensures Disjoint(fs[..n])
  {
    var gs := fs[..n];
    forall k, m, x | 0 <= k < m < |gs| && x in gs[k] ensures x !in gs[m] {
      assert gs[k] == fs[k] && gs[m] == fs[m];
    }
  }

  /** After labelling disjoint faces, every edge on face `k` holds `k + 1`. */
  lemma {:induction false} LabelledOn(R: seq<seq<int>>, fs: seq<seq<Edge>>, k: int, e: Edge)
    requires Disjoint(fs) && 0 <= k < |fs| && e in fs[k] && InRange(R, e)
    ensures At(Labelled(R, fs), e) == k + 1
    decreases |fs|
  {
    var n := |fs|;
    var fs' := fs[..n - 1];
    PaintAt(Labelled(R, fs'), fs[n - 1], n, e);
    assert InRange(Labelled(R, fs'), e);
    if k < n - 1 {
      DisjointPrefix(fs, n - 1);
      assert fs'[k] == fs[k];
      LabelledOn(R, fs', k, e);
    }
  }

  /** Labelling leaves every edge on none of the faces as it was. */
  lemma {:induction false} LabelledOff(R: seq<seq<int>>, fs: seq<seq<Edge>>, e: Edge)
    requires forall k :: 0 <= k < |fs| ==> e !in fs[k]
    ensures At(Labelled(R, fs), e) == At(R, e)
    decreases |fs|
  {
    if fs != [] {
      var n := |fs|;
      var fs' := fs[..n - 1];
      PaintAt(Labelled(R, fs'), fs[n - 1], n, e);
      LabelledOff(R, fs', e);
    }
  }

  lemma {:induction false} ListingAt(R: seq<seq<int>>, fs: seq<seq<Edge>>, k: int)
    requires 0 <= k < |fs|
    ensures Listing(R, fs)[k] == StartId(R, fs[k])
    decreases |fs|
  {
    if k < |fs| - 1 {
      ListingAt(R, fs[..|fs| - 1], k);
    }
  }

  /** The numbers `1 .. n` in order. */
  function Numbers(n: nat): (ns: seq<int>)
    ensures |ns| == n
  {
    seq(n, k => k + 1)
  }

  /** Listing the faces after labelling them gives `1, 2, .., n`: every face
      got its own number, in the order the faces were found, with no gaps. */
  lemma ListingAfterLabel(R: seq<seq<int>>, fs: seq<seq<Edge>>)
    requires Disjoint(fs)
    requires forall k :: 0 <= k < |fs| ==> |fs[k]| > 0 && InRange(R, fs[k][0])
    ensures Listing(Labelled(R, fs), fs) == Numbers(|fs|)
  {
    forall k | 0 <= k < |fs| ensures Listing(Labelled(R, fs), fs)[k] == k + 1 {
      ListingAt(Labelled(R, fs), fs, k);
      LabelledOn(R, fs, k, fs[k][0]);
    }
  }

  /** The check reports nothing for a walk exactly when every edge on it
      holds the expected id. */
  lemma {:induction false} MisNoneIff(R: seq<seq<int>>, w: seq<Edge>, start: Edge, q: int)
    ensures Mis(R, w, start, q) == [] <==> forall e :: e in w ==> At(R, e) == q
    decreases |w|
  {
    if w != [] {
      var w' := w[..|w| - 1];
      MisNoneIff(R, w', start, q);
      assert w == w' + [w[|w| - 1]];
    }
  }

  /** Every report names an edge of the walk, the id it holds, which differs
      from the expected one, and the face's first edge and id. */
  lemma {:induction false} MisSound(R: seq<seq<int>>, w: seq<Edge>, start: Edge, q: int)
    ensures forall r :: r in Mis(R, w, start, q) ==>
      r.at in w && r.found == At(R, r.at) && r.found != q && r.start == start && r.expected == q
    decreases |w|
  {
    if w != [] {
      var w' := w[..|w| - 1];
      MisSound(R, w', start, q);
      assert w == w' + [w[|w| - 1]];
    }
  }

  /** Every edge of the walk whose id differs from the expected one is
      reported, with the id it holds. */
  lemma {:induction false} MisComplete(R: seq<seq<int>>, w: seq<Edge>, start: Edge, q: int, e: Edge)
    requires e in w && At(R, e) != q
    ensures Report(e, At(R, e), start, q) in Mis(R, w, start, q)
    decreases |w|
  {
    var w' := w[..|w| - 1];
    if e != w[|w| - 1] {
      assert w == w' + [w[|w| - 1]];
      MisComplete(R, w', start, q, e);
    }
  }

  /** The report `r` is one the check makes for `face`: it names an edge
      after the first, the id that edge holds, and the face's first edge and
      id, which differs from it. */
  ghost predicate Explains(R: seq<seq<int>>, face: seq<Edge>, r: Report) {
    |face| > 0 && r.at in face[1..] && r.start == face[0] &&
    r.expected == StartId(R, face) && r.found == At(R, r.at) && r.found != r.expected
  }

  lemma FaceReportsSound(R: seq<seq<int>>, face: seq<Edge>)
    ensures forall r :: r in FaceReports(R, face) ==> Explains(R, face, r)
  {
    if face != [] {
      MisSound(R, face[1..], face[0], At(R, face[0]));
    }
  }

  /** Every report of the check over the faces `fs` is one it makes for
      one of the faces. */
  lemma {:induction false} MismatchesSound(R: seq<seq<int>>, fs: seq<seq<Edge>>)
    ensures forall r :: r in Mismatches(R, fs) ==> exists k :: 0 <= k < |fs| && Explains(R, fs[k], r)
    decreases |fs|
  {
    if fs != [] {
      var n := |fs| - 1;
      var fs' := fs[..n];
      MismatchesSound(R, fs');
      FaceReportsSound(R, fs[n]);
      forall r | r in Mismatches(R, fs) ensures exists k :: 0 <= k < |fs| && Explains(R, fs[k], r) {
        if r in Mismatches(R, fs') {
          var k :| 0 <= k < |fs'| && Explains(R, fs'[k], r);
          assert fs'[k] == fs[k];
        } else {
          assert Explains(R, fs[n], r);
        }
      }
    }
  }

  /** Every edge after the first of a face whose id differs from the id of
      the face's first edge is reported by the check. */
  lemma {:induction false} MismatchesComplete(R: seq<seq<int>>, fs: seq<seq<Edge>>, k: int, e: Edge)
    requires 0 <= k < |fs| && |fs[k]| > 0 && e in fs[k][1..] && At(R, e) != StartId(R, fs[k])
    ensures Report(e, At(R, e), fs[k][0], StartId(R, fs[k])) in Mismatches(R, fs)
    decreases |fs|
  {
    var n := |fs| - 1;
    if k == n {
      MisComplete(R, fs[k][1..], fs[k][0], At(R, fs[k][0]), e);
    } else {
      var fs' := fs[..n];
      assert fs'[k] == fs[k];
      MismatchesComplete(R, fs', k, e);
    }
  }

  /** A face is uniform when every edge on it holds the id of its first edge. */
  ghost predicate Uniform(R: seq<seq<int>>, face: seq<Edge>) {
    forall e :: e in face ==> At(R, e) == StartId(R, face)
  }

  lemma FaceReportsNoneIff(R: seq<seq<int>>, face: seq<Edge>)
    ensures FaceReports(R, face) == [] <==> Uniform(R, face)
  {
    if face != [] {
      MisNoneIff(R, face[1..], face[0], At(R, face[0]));
      assert face == [face[0]] + face[1..];
    }
  }

  /** The check over the faces `fs` reports nothing exactly when every face
      is uniform. */
  lemma {:induction false} CheckCleanIffUniform(R: seq<seq<int>>, fs: seq<seq<Edge>>)
    ensures Mismatches(R, fs) == [] <==> forall k :: 0 <= k < |fs| ==> Uniform(R, fs[k])
    decreases |fs|
  {
    if fs != [] {
      var fs' := fs[..|fs| - 1];
      CheckCleanIffUniform(R, fs');
      FaceReportsNoneIff(R, fs[|fs| - 1]);
      assert forall k :: 0 <= k < |fs'| ==> fs'[k] == fs[k];
    }
  }

  /** The check run right after labelling reports nothing. */
  lemma LabelThenCheckClean(R: seq<seq<int>>, fs: seq<seq<Edge>>)
    requires Disjoint(fs)
    requires forall k :: 0 <= k < |fs| ==> |fs[k]| > 0
    requires forall k, e :: 0 <= k < |fs| && e in fs[k] ==> InRange(R, e)
    ensures Mismatches(Labelled(R, fs), fs) == []
  {
    var L := Labelled(R, fs);
    forall k | 0 <= k < |fs| ensures Uniform(L, fs[k]) {
      forall e | e in fs[k] ensures At(L, e) == StartId(L, fs[k]) {
        LabelledOn(R, fs, k, e);
        LabelledOn(R, fs, k, fs[k][0]);
      }
    }
    CheckCleanIffUniform(L, fs);
  }
}

/** The mesh half of the repacker's `process_mesh`: the exact-duplicate
    canonical-vertex table, the greedy packing of triangle strips into meshlets
    of at most 128 vertices, the local numbering and index encoding of a
    meshlet, and the greedy area-first quad selection of the quad generator. */
module RepackerMeshlets {
  import opened Wrappers
  import opened Geometry
  import opened SeqUtil
  import opened Sorting
  import opened DreamStream
  import opened RepackerFormat

  // ---------------------------------------------------------------------
  // Canonical vertices
  // ---------------------------------------------------------------------

  /** A mesh's vertex streams: positions always, texture coordinates,
      normals and colours only when the mesh has them. */
  datatype MeshVertices = MeshVertices(
    positions: seq<Vec3>,
    uvs: Option<seq<Vec2>>,
    normals: Option<seq<Vec3>>,
    colors: Option<seq<Rgba>>)
  {
    ghost predicate Valid()
    {
      && (uvs.Some? ==> |uvs.value| == |positions|)
      && (normals.Some? ==> |normals.value| == |positions|)
      && (colors.Some? ==> |colors.value| == |positions|)
    }
  }

  /** The duplicate test of the nested loop: equal positions, and equal
      texture coordinates, normals and colours for each stream present. */
  predicate Duplicate(m: MeshVertices, i: nat, j: nat)
    requires m.Valid() && i < |m.positions| && j < |m.positions|
  {
    && m.positions[i] == m.positions[j]
    && (m.uvs.Some? ==> m.uvs.value[i] == m.uvs.value[j])
    && (m.normals.Some? ==> m.normals.value[i] == m.normals.value[j])
    && (m.colors.Some? ==> m.colors.value[i] == m.colors.value[j])
  }

  /** Everything the duplicate test looks at, as one value. */
  datatype VertexKey = VertexKey(position: Vec3, uv: Option<Vec2>, normal: Option<Vec3>, color: Option<Rgba>)

  function KeyOf(m: MeshVertices, i: nat): VertexKey
    requires m.Valid() && i < |m.positions|
  {
    VertexKey(
      m.positions[i],
      if m.uvs.Some? then Some(m.uvs.value[i]) else None,
      if m.normals.Some? then Some(m.normals.value[i]) else None,
      if m.colors.Some? then Some(m.colors.value[i]) else None)
  }

  function Keys(m: MeshVertices): (ks: seq<VertexKey>)
    requires m.Valid()
    ensures |ks| == |m.positions|
  {
    seq(|m.positions|, i requires 0 <= i < |m.positions| => KeyOf(m, i))
  }

  /** Two vertices are duplicates exactly when their keys agree. */
  lemma DuplicateIsKeyEquality(m: MeshVertices, i: nat, j: nat)
    requires m.Valid() && i < |m.positions| && j < |m.positions|
    ensures Duplicate(m, i, j) <==> Keys(m)[i] == Keys(m)[j]
  {
    assert Keys(m)[i] == KeyOf(m, i) && Keys(m)[j] == KeyOf(m, j);
  }

  /** The vertex the table maps `k` to: the first vertex equal to it. */
  ghost function FirstEqual(m: MeshVertices, k: nat): nat
    requires m.Valid() && k < |m.positions|
  {
    IndexIn(Keys(m), Keys(m)[k])
  }

  lemma FirstEqualBounds(m: MeshVertices, k: nat)
    requires m.Valid() && k < |m.positions|
    ensures FirstEqual(m, k) <= k
    ensures Keys(m)[FirstEqual(m, k)] == Keys(m)[k]
  {
  }

  /** The canonical-index table: `canonicalIdx[k]` is the first vertex
      equal to vertex `k` (`SIZE_MAX`, the "unset" mark, is -1 here). */
  method CanonicalIndices(m: MeshVertices) returns (canon: array<int>)
    requires m.Valid()
    ensures canon.Length == |m.positions|
    ensures forall k :: 0 <= k < canon.Length ==> canon[k] == FirstEqual(m, k)
  {
    var n := |m.positions|;
    ghost var fe := seq(n, k requires 0 <= k < n => FirstEqual(m, k));
    canon := new int[n](_ => -1);
    var i := 0;
    while i < n
      invariant 0 <= i <= n && canon.Length == n
      invariant Scanned(canon, fe, i, i + 1)
    {
      CanonicalRow(m, canon, fe, i);
      i := i + 1;
    }
    forall k | 0 <= k < n
      ensures canon[k] == FirstEqual(m, k)
    {
      FirstEqualBounds(m, k);
      assert fe[k] == FirstEqual(m, k);
    }
  }

  /** Row `i` of the nested loop: vertex `i` against every later vertex,
      then `i` itself marked as its own class when nothing earlier matched. */
  method CanonicalRow(m: MeshVertices, canon: array<int>, ghost fe: seq<nat>, i: nat)
    requires m.Valid() && i < |m.positions| == |fe|
    requires forall k :: 0 <= k < |fe| ==> fe[k] == FirstEqual(m, k)
    requires Scanned(canon, fe, i, i + 1)
    modifies canon
    ensures Scanned(canon, fe, i + 1, i + 2)
  {
    var n := |m.positions|;
    var j := i + 1;
    while j < n
      invariant i + 1 <= j <= n
      invariant Scanned(canon, fe, i, j)
    {
      CompareStep(m, canon, fe, i, j);
      j := j + 1;
    }
    FirstEqualBounds(m, i);
    forall k | 0 <= k < n ensures fe[k] <= k {
      FirstEqualBounds(m, k);
    }
    var ci := canon[i];
    if ci == -1 {
      ci := i;
    }
    ghost var c := canon[..];
    RowDone(c, fe, i, ci);
    canon[i] := ci;
    assert canon[..] == c[i := ci];
  }

  /** Closing row `i`: with every later member of `i`'s class filled in,
      setting an unset entry `i` to `i` fills in the whole class. */
  lemma RowDone(c: seq<int>, fe: seq<nat>, i: nat, ci: int)
    requires ScannedValues(c, fe, i, |fe|) && i < |fe|
    requires forall k :: 0 <= k < |fe| ==> fe[k] <= k
    requires ci == if c[i] == -1 then i else c[i]
    ensures ScannedValues(c[i := ci], fe, i + 1, i + 2)
  {
  }

  /** The table part-way through row `i` of the nested loop, compared up to
      `j`: every entry is unset or final, the classes of the vertices
      before `i` are filled in, and so are the members of `i`'s class seen. */
  ghost predicate Scanned(canon: array<int>, fe: seq<nat>, i: nat, j: nat)
    reads canon
  {
    canon.Length == |fe| && ScannedValues(canon[..], fe, i, j)
  }

  ghost predicate ScannedValues(c: seq<int>, fe: seq<nat>, i: nat, j: nat)
  {
    && |c| == |fe|
    && (forall k :: 0 <= k < |fe| ==> c[k] == -1 || c[k] == fe[k])
    && (forall k :: 0 <= k < |fe| && fe[k] < i ==> c[k] == fe[k])
    && (forall k :: i < k < j && k < |fe| ==> fe[k] == i ==> c[k] == i)
  }

  /** One comparison of vertex `i` with a later vertex `j`. */
  method CompareStep(m: MeshVertices, canon: array<int>, ghost fe: seq<nat>, i: nat, j: nat)
    requires m.Valid() && i < j < |m.positions| == |fe|
    requires forall k :: 0 <= k < |fe| ==> fe[k] == FirstEqual(m, k)
    requires Scanned(canon, fe, i, j)
    modifies canon
    ensures Scanned(canon, fe, i, j + 1)
  {
    CanonicalStep(m, i, j);
    assert fe[i] == FirstEqual(m, i) && fe[j] == FirstEqual(m, j);
    var ci, cj := canon[i], canon[j];
    if Duplicate(m, i, j) {
      if ci == -1 {
        if cj != -1 {
          ci := cj;
        } else {
          ci, cj := i, i;
        }
      } else {
        cj := ci;
      }
    }
    ScanWrite(canon[..], fe, i, j, ci, cj);
    canon[i] := ci;
    canon[j] := cj;
    assert canon[..] == old(canon[..])[i := ci][j := cj];
  }

  /** Writing the compared pair's new entries keeps the table scanned one
      comparison further, provided each entry is unset or final, the class
      of any vertex before `i` stays filled in, and `j` is filled in when it
      belongs to `i`'s class. */
  lemma ScanWrite(c: seq<int>, fe: seq<nat>, i: nat, j: nat, ci: int, cj: int)
    requires ScannedValues(c, fe, i, j) && i < j < |fe|
    requires ci == -1 || ci == fe[i]
    requires cj == -1 || cj == fe[j]
    requires fe[i] < i ==> ci == fe[i]
    requires fe[j] < i ==> cj == fe[j]
    requires fe[j] == i ==> cj == i
    ensures ScannedValues(c[i := ci][j := cj], fe, i, j + 1)
  {
  }

  /** What one comparison of the nested loop relies on: a duplicate pair
      shares its first equal vertex, and `j` belongs to `i`'s class exactly
      when it duplicates `i` and `i` is the first of its class. */
  lemma CanonicalStep(m: MeshVertices, i: nat, j: nat)
    requires m.Valid() && i < j < |m.positions|
    ensures Duplicate(m, i, j) ==> FirstEqual(m, j) == FirstEqual(m, i)
    ensures FirstEqual(m, j) == i ==> Duplicate(m, i, j)
    ensures FirstEqual(m, i) <= i && FirstEqual(m, j) <= j
  {
    DuplicateIsKeyEquality(m, i, j);
    FirstEqualBounds(m, i);
    FirstEqualBounds(m, j);
    if FirstEqual(m, j) == i {
      assert Keys(m)[i] == Keys(m)[j];
    }
  }

  /** The table's promise: each entry points at or before its own vertex,
      at a vertex equal to it in every present stream, and at a vertex that
      is its own canonical one. */
  lemma CanonicalTableProperties(m: MeshVertices, k: nat)
    requires m.Valid() && k < |m.positions|
    ensures FirstEqual(m, k) <= k
    ensures Duplicate(m, FirstEqual(m, k), k)
    ensures FirstEqual(m, FirstEqual(m, k)) == FirstEqual(m, k)
  {
    FirstEqualBounds(m, k);
    var c := FirstEqual(m, k);
    DuplicateIsKeyEquality(m, c, k);
  }

  /** `submesh->indices[i] = canonicalIdx[submesh->indices[i]]`. */
  method RewriteIndices(indices: array<int>, canon: array<int>)
    requires indices != canon
    requires forall t :: 0 <= t < indices.Length ==> 0 <= indices[t] < canon.Length
    modifies indices
    ensures forall t :: 0 <= t < indices.Length ==> indices[t] == canon[old(indices[t])]
  {
    var t := 0;
    while t < indices.Length
      invariant 0 <= t <= indices.Length
      invariant forall u :: 0 <= u < t ==> indices[u] == canon[old(indices[u])]
      invariant forall u :: t <= u < indices.Length ==> indices[u] == old(indices[u])
    {
      indices[t] := canon[indices[t]];
      t := t + 1;
    }
  }

  // ---------------------------------------------------------------------
  // Meshlet packing
  // ---------------------------------------------------------------------

  /** The two kinds of primitive group the strip builder emits. */
  datatype PrimitiveType = Triangles | TriangleStrip

  datatype Primitive = Primitive(kind: PrimitiveType, indices: seq<int>)

  /** The distinct vertices a strip uses. */
  function IndexSet(p: Primitive): set<int>
  {
    set x | x in p.indices
  }

  /** The number of index positions of `idx` that name a vertex already in
      `verts` (a repeated vertex counts every time). */
  function SharedCount(idx: seq<int>, verts: set<int>): nat
  {
    if |idx| == 0 then 0
    else SharedCount(idx[..|idx| - 1], verts) + (if idx[|idx| - 1] in verts then 1 else 0)
  }

  /** A strip fits a meshlet when its new vertices fit the remaining budget
      of 128. */
  predicate Fits(p: Primitive, verts: set<int>)
  {
    |IndexSet(p) - verts| <= 128 - |verts|
  }

  /** A strip that brings no new vertex. */
  predicate AddsNothing(p: Primitive, verts: set<int>)
  {
    IndexSet(p) <= verts
  }

  /** A meshlet: its vertex set and the strips it holds, as positions in the
      submesh's primitive list. */
  datatype Meshlet = Meshlet(vertices: set<int>, strips: seq<nat>)

  /** Every strip position names a primitive. */
  ghost predicate InRange(prims: seq<Primitive>, strips: seq<nat>)
  {
    forall i :: 0 <= i < |strips| ==> strips[i] < |prims|
  }

  function UnionOf(prims: seq<Primitive>, strips: seq<nat>): set<int>
    requires InRange(prims, strips)
  {
    if |strips| == 0 then {}
    else UnionOf(prims, strips[..|strips| - 1]) + IndexSet(prims[strips[|strips| - 1]])
  }

  /** What every meshlet the packer closes satisfies. */
  ghost predicate MeshletValid(prims: seq<Primitive>, m: Meshlet)
  {
    && |m.strips| > 0
    && InRange(prims, m.strips)
    && m.vertices == UnionOf(prims, m.strips)
    && |m.vertices| <= 128
  }

  /** The strips of the meshlets in order. */
  function Flatten(ms: seq<Meshlet>): seq<nat>
  {
    if |ms| == 0 then [] else Flatten(ms[..|ms| - 1]) + ms[|ms| - 1].strips
  }

  function Range(n: nat): (r: seq<nat>)
    ensures |r| == n && forall i :: 0 <= i < n ==> r[i] == i
  {
    seq(n, i requires 0 <= i < n => i)
  }

  lemma CardUnion(a: set<int>, b: set<int>)
    ensures |a + b| == |a| + |b - a|
  {
    assert a + b == a + (b - a);
    assert a * (b - a) == {};
  }

  lemma CardSubset(a: set<int>, b: set<int>)
    requires a <= b
    ensures |a| <= |b|
  {
    CardUnion(a, b);
    assert a + b == b;
  }

  lemma {:induction false} UnionHolds(prims: seq<Primitive>, strips: seq<nat>, i: nat)
    requires InRange(prims, strips) && i < |strips|
    ensures IndexSet(prims[strips[i]]) <= UnionOf(prims, strips)
  {
    var n := |strips| - 1;
    if i < n {
      assert strips[..n][i] == strips[i];
      UnionHolds(prims, strips[..n], i);
    }
  }

  lemma FlattenSnoc(ms: seq<Meshlet>, m: Meshlet)
    ensures Flatten(ms + [m]) == Flatten(ms) + m.strips
  {
    assert (ms + [m])[..|ms|] == ms;
  }

  lemma {:induction false} InFlatten(ms: seq<Meshlet>, s: nat)
    requires s in Flatten(ms)
    ensures exists k :: 0 <= k < |ms| && s in ms[k].strips
  {
    var n := |ms| - 1;
    if s in ms[n].strips {
    } else {
      InFlatten(ms[..n], s);
      var k :| 0 <= k < n && s in ms[..n][k].strips;
      assert ms[k] == ms[..n][k];
    }
  }

  /** The per-strip scan: the new vertices as a set and the shared
      positions as a count. */
  method CountNewShared(idx: seq<int>, verts: set<int>) returns (newVertices: set<int>, shared: nat)
    ensures newVertices == (set x | x in idx) - verts
    ensures shared == SharedCount(idx, verts)
  {
    newVertices, shared := {}, 0;
    var i := 0;
    while i < |idx|
      invariant 0 <= i <= |idx|
      invariant newVertices == (set x | x in idx[..i]) - verts
      invariant shared == SharedCount(idx[..i], verts)
    {
      assert idx[..i + 1] == idx[..i] + [idx[i]];
      assert idx[..i + 1][..i] == idx[..i];
      if idx[i] !in verts {
        newVertices := newVertices + {idx[i]};
      } else {
        shared := shared + 1;
      }
      i := i + 1;
    }
    assert idx[..i] == idx;
  }

  /** The choice of the next strip for the open meshlet. The first strip
      that adds no vertex wins at once; failing that, among the strips whose
      new vertices fit the budget, one sharing the most index positions with
      the meshlet, the last such on a tie. `None` exactly when nothing fits. */
  method PickStrip(prims: seq<Primitive>, pending: seq<nat>, verts: set<int>) returns (best: Option<nat>)
    requires InRange(prims, pending)
    requires |verts| <= 128
    ensures best.None? <==> forall q :: 0 <= q < |pending| ==> !Fits(prims[pending[q]], verts)
    ensures best.Some? ==> best.value < |pending| && Fits(prims[pending[best.value]], verts)
    ensures best.Some? && (exists q :: 0 <= q < |pending| && AddsNothing(prims[pending[q]], verts)) ==>
      && AddsNothing(prims[pending[best.value]], verts)
      && forall q :: 0 <= q < best.value ==> !AddsNothing(prims[pending[q]], verts)
    ensures best.Some? && (forall q :: 0 <= q < |pending| ==> !AddsNothing(prims[pending[q]], verts)) ==>
      forall q :: 0 <= q < |pending| && Fits(prims[pending[q]], verts) ==>
        && SharedCount(prims[pending[q]].indices, verts) <= SharedCount(prims[pending[best.value]].indices, verts)
        && (q > best.value ==> SharedCount(prims[pending[q]].indices, verts) < SharedCount(prims[pending[best.value]].indices, verts))
  {
    best := None;
    var bestShared := 0;
    var q := 0;
    while q < |pending|
      invariant q <= |pending| && ScanState(prims, pending, verts, q, best, bestShared)
    {
      var newVertices, shared := CountNewShared(prims[pending[q]].indices, verts);
      assert newVertices == IndexSet(prims[pending[q]]) - verts;
      if |newVertices| == 0 {
        FirstAddingNothing(prims, pending, verts, q, best, bestShared);
        best := Some(q);
        return;
      }
      ScanStep(prims, pending, verts, q, best, bestShared, shared);
      if |newVertices| <= 128 - |verts| && shared >= bestShared {
        best := Some(q);
        bestShared := shared;
      }
      q := q + 1;
    }
  }

  /** The scan of `PickStrip` after the first `q` pending strips, none of
      which added nothing. */
  ghost predicate ScanState(prims: seq<Primitive>, pending: seq<nat>, verts: set<int>, q: nat, best: Option<nat>, bestShared: nat)
    requires InRange(prims, pending) && q <= |pending|
  {
    && (forall r :: 0 <= r < q ==> !AddsNothing(prims[pending[r]], verts))
    && (best.None? <==> forall r :: 0 <= r < q ==> !Fits(prims[pending[r]], verts))
    && (best.None? ==> bestShared == 0)
    && (best.Some? ==> BestSoFar(prims, pending, verts, q, best.value, bestShared))
  }

  /** Strip `b` of the first `q` fits, shares `bestShared` positions, and
      no fitting strip shares more, nor as many after it. */
  ghost predicate BestSoFar(prims: seq<Primitive>, pending: seq<nat>, verts: set<int>, q: nat, b: nat, bestShared: nat)
    requires InRange(prims, pending) && q <= |pending|
  {
    && b < q && Fits(prims[pending[b]], verts)
    && bestShared == SharedCount(prims[pending[b]].indices, verts)
    && (forall r :: 0 <= r < q && Fits(prims[pending[r]], verts) ==> SharedCount(prims[pending[r]].indices, verts) <= bestShared)
    && (forall r :: b < r < q && Fits(prims[pending[r]], verts) ==> SharedCount(prims[pending[r]].indices, verts) < bestShared)
  }

  /** A strip with no new vertex ends the scan, and is the first such. */
  lemma FirstAddingNothing(prims: seq<Primitive>, pending: seq<nat>, verts: set<int>, q: nat, best: Option<nat>, bestShared: nat)
    requires InRange(prims, pending) && q < |pending| && |verts| <= 128
    requires ScanState(prims, pending, verts, q, best, bestShared)
    requires IndexSet(prims[pending[q]]) - verts == {}
    ensures AddsNothing(prims[pending[q]], verts) && Fits(prims[pending[q]], verts)
    ensures forall r :: 0 <= r < q ==> !AddsNothing(prims[pending[r]], verts)
  {
    forall x | x in IndexSet(prims[pending[q]])
      ensures x in verts
    {
      assert x !in IndexSet(prims[pending[q]]) - verts;
    }
  }

  /** One strip that brings new vertices: it becomes the best when it fits
      and shares at least as much as the best so far, and is passed over
      otherwise. */
  lemma ScanStep(prims: seq<Primitive>, pending: seq<nat>, verts: set<int>, q: nat, best: Option<nat>, bestShared: nat, shared: nat)
    requires InRange(prims, pending) && q < |pending|
    requires ScanState(prims, pending, verts, q, best, bestShared)
    requires |IndexSet(prims[pending[q]]) - verts| != 0
    requires shared == SharedCount(prims[pending[q]].indices, verts)
    ensures Fits(prims[pending[q]], verts) && shared >= bestShared ==>
      ScanState(prims, pending, verts, q + 1, Some(q), shared)
    ensures !(Fits(prims[pending[q]], verts) && shared >= bestShared) ==>
      ScanState(prims, pending, verts, q + 1, best, bestShared)
  {
    NewMeansAdds(prims[pending[q]], verts);
    if Fits(prims[pending[q]], verts) && shared >= bestShared {
      ScanTake(prims, pending, verts, q, best, bestShared, shared);
    } else {
      ScanSkip(prims, pending, verts, q, best, bestShared, shared);
    }
  }

  lemma NewMeansAdds(p: Primitive, verts: set<int>)
    requires |IndexSet(p) - verts| != 0
    ensures !AddsNothing(p, verts)
  {
  }

  lemma ScanSkip(prims: seq<Primitive>, pending: seq<nat>, verts: set<int>, q: nat, best: Option<nat>, bestShared: nat, shared: nat)
    requires InRange(prims, pending) && q < |pending|
    requires ScanState(prims, pending, verts, q, best, bestShared)
    requires !AddsNothing(prims[pending[q]], verts)
    requires shared == SharedCount(prims[pending[q]].indices, verts)
    requires !(Fits(prims[pending[q]], verts) && shared >= bestShared)
    ensures ScanState(prims, pending, verts, q + 1, best, bestShared)
  {
    if best.Some? {
      SkipKeepsBest(prims, pending, verts, q, best.value, bestShared, shared);
    }
    assert forall r :: 0 <= r < q + 1 ==> !AddsNothing(prims[pending[r]], verts);
  }

  lemma SkipKeepsBest(prims: seq<Primitive>, pending: seq<nat>, verts: set<int>, q: nat, b: nat, bestShared: nat, shared: nat)
    requires InRange(prims, pending) && q < |pending|
    requires BestSoFar(prims, pending, verts, q, b, bestShared)
    requires shared == SharedCount(prims[pending[q]].indices, verts)
    requires !(Fits(prims[pending[q]], verts) && shared >= bestShared)
    ensures BestSoFar(prims, pending, verts, q + 1, b, bestShared)
  {
    forall r | b < r < q + 1 && Fits(prims[pending[r]], verts)
      ensures SharedCount(prims[pending[r]].indices, verts) < bestShared
    {
      if r == q {
        assert shared < bestShared;
      }
    }
  }

  lemma ScanTake(prims: seq<Primitive>, pending: seq<nat>, verts: set<int>, q: nat, best: Option<nat>, bestShared: nat, shared: nat)
    requires InRange(prims, pending) && q < |pending|
    requires ScanState(prims, pending, verts, q, best, bestShared)
    requires !AddsNothing(prims[pending[q]], verts)
    requires shared == SharedCount(prims[pending[q]].indices, verts)
    requires Fits(prims[pending[q]], verts) && shared >= bestShared
    ensures ScanState(prims, pending, verts, q + 1, Some(q), shared)
  {
    TakeIsBest(prims, pending, verts, q, best, bestShared, shared);
    assert forall r :: 0 <= r < q + 1 ==> !AddsNothing(prims[pending[r]], verts);
  }

  lemma TakeIsBest(prims: seq<Primitive>, pending: seq<nat>, verts: set<int>, q: nat, best: Option<nat>, bestShared: nat, shared: nat)
    requires InRange(prims, pending) && q < |pending|
    requires ScanState(prims, pending, verts, q, best, bestShared)
    requires shared == SharedCount(prims[pending[q]].indices, verts)
    requires Fits(prims[pending[q]], verts) && shared >= bestShared
    ensures BestSoFar(prims, pending, verts, q + 1, q, shared)
  {
    forall r | 0 <= r < q + 1 && Fits(prims[pending[r]], verts)
      ensures SharedCount(prims[pending[r]].indices, verts) <= shared
    {
      if r < q {
        assert best.Some? && BestSoFar(prims, pending, verts, q, best.value, bestShared);
      }
    }
  }

  /** `meshletVertices.insert(idx)` for every index of a strip. */
  method InsertAll(verts: set<int>, idx: seq<int>) returns (r: set<int>)
    ensures r == verts + (set x | x in idx)
  {
    r := verts;
    var i := 0;
    while i < |idx|
      invariant 0 <= i <= |idx|
      invariant r == verts + (set x | x in idx[..i])
    {
      assert idx[..i + 1] == idx[..i] + [idx[i]];
      r := r + {idx[i]};
      i := i + 1;
    }
    assert idx[..i] == idx;
  }

  /** The inner `for (;;)`: strips are added to one meshlet until none of
      the pending ones fits. The meshlet's vertices are the union of its
      strips', at most 128 of them; what is left pending does not fit; the
      meshlet stays empty only when every pending strip alone has more than
      128 distinct vertices. */
  method FillMeshlet(prims: seq<Primitive>, pending: seq<nat>) returns (m: Meshlet, rest: seq<nat>)
    requires InRange(prims, pending)
    ensures multiset(m.strips) + multiset(rest) == multiset(pending)
    ensures InRange(prims, rest) && InRange(prims, m.strips)
    ensures forall i :: 0 <= i < |m.strips| ==> |IndexSet(prims[m.strips[i]])| <= 128
    ensures m.vertices == UnionOf(prims, m.strips) && |m.vertices| <= 128
    ensures forall i :: 0 <= i < |rest| ==> !Fits(prims[rest[i]], m.vertices)
    ensures |m.strips| == 0 ==> forall i :: 0 <= i < |pending| ==> |IndexSet(prims[pending[i]])| > 128
  {
    var verts: set<int> := {};
    var strips: seq<nat> := [];
    rest := pending;
    while true
      invariant FillState(prims, pending, strips, rest, verts)
      decreases |rest|
    {
      var best := PickStrip(prims, rest, verts);
      if best.None? {
        break;
      }
      var p := best.value;
      var q := rest[p];
      AddStripKeeps(prims, pending, strips, rest, verts, p);
      verts := InsertAll(verts, prims[q].indices);
      strips := strips + [q];
      rest := rest[..p] + rest[p + 1..];
    }
    m := Meshlet(verts, strips);
    forall i | 0 <= i < |strips|
      ensures |IndexSet(prims[strips[i]])| <= 128
    {
      UnionHolds(prims, strips, i);
      CardSubset(IndexSet(prims[strips[i]]), verts);
    }
  }

  /** The open meshlet part-way through `FillMeshlet`. */
  ghost predicate FillState(prims: seq<Primitive>, pending: seq<nat>, strips: seq<nat>, rest: seq<nat>, verts: set<int>)
  {
    && multiset(strips) + multiset(rest) == multiset(pending)
    && InRange(prims, rest) && InRange(prims, strips)
    && verts == UnionOf(prims, strips) && |verts| <= 128
    && (|strips| == 0 ==> verts == {} && rest == pending)
  }

  /** Moving a fitting strip from the pending list into the meshlet. */
  lemma AddStripKeeps(prims: seq<Primitive>, pending: seq<nat>, strips: seq<nat>, rest: seq<nat>, verts: set<int>, p: nat)
    requires FillState(prims, pending, strips, rest, verts)
    requires p < |rest| && Fits(prims[rest[p]], verts)
    ensures FillState(prims, pending, strips + [rest[p]], rest[..p] + rest[p + 1..], verts + IndexSet(prims[rest[p]]))
  {
    var q := rest[p];
    var strips', rest' := strips + [q], rest[..p] + rest[p + 1..];
    assert rest == rest[..p] + [q] + rest[p + 1..];
    assert multiset(rest) == multiset(rest') + multiset{q};
    assert strips'[..|strips|] == strips;
    CardUnion(verts, IndexSet(prims[q]));
    forall i | 0 <= i < |rest'|
      ensures rest'[i] < |prims|
    {
      if i < p {
        assert rest'[i] == rest[i];
      } else {
        assert rest'[i] == rest[i + 1];
      }
    }
  }

  /** `assert(meshletStrips.size() != 0)`: a meshlet closed with no strip. */
  datatype PackError = EmptyMeshlet

  /** Every strip position of `ms` placed after meshlet `k` is one that did
      not fit meshlet `k` when it was closed. */
  ghost predicate ClosedMaximal(prims: seq<Primitive>, ms: seq<Meshlet>)
  {
    forall k, l, i :: 0 <= k < l < |ms| && 0 <= i < |ms[l].strips| && ms[l].strips[i] < |prims| ==>
      !Fits(prims[ms[l].strips[i]], ms[k].vertices)
  }

  /** The meshlet construction of one submesh. Packing succeeds exactly
      when every strip alone has at most 128 distinct vertices; then every
      strip lands in exactly one meshlet, every meshlet holds the union of
      its strips' vertices, at most 128, and no strip of a later meshlet
      would have fitted an earlier one when that one was closed. */
  method PackMeshlets(prims: seq<Primitive>) returns (r: Result<seq<Meshlet>, PackError>)
    ensures r.Ok? <==> forall s :: 0 <= s < |prims| ==> |IndexSet(prims[s])| <= 128
    ensures r.Ok? ==> multiset(Flatten(r.value)) == multiset(Range(|prims|))
    ensures r.Ok? ==> forall k :: 0 <= k < |r.value| ==> MeshletValid(prims, r.value[k])
    ensures r.Ok? ==> ClosedMaximal(prims, r.value)
  {
    var n := |prims|;
    var pending := Range(n);
    var meshlets: seq<Meshlet> := [];
    while |pending| > 0
      invariant PackState(prims, meshlets, pending)
      decreases |pending|
    {
      var m, rest := FillMeshlet(prims, pending);
      if |m.strips| == 0 {
        assert Range(n)[pending[0]] == pending[0];
        return Err(EmptyMeshlet);
      }
      CloseMeshletKeeps(prims, meshlets, pending, m, rest);
      meshlets, pending := meshlets + [m], rest;
    }
    assert pending == [];
    EveryStripPlaced(prims, meshlets);
    return Ok(meshlets);
  }

  /** When nothing is pending, every strip sits in a valid meshlet, so none
      has more than 128 distinct vertices. */
  lemma EveryStripPlaced(prims: seq<Primitive>, ms: seq<Meshlet>)
    requires multiset(Flatten(ms)) == multiset(Range(|prims|))
    requires forall k :: 0 <= k < |ms| ==> MeshletValid(prims, ms[k])
    ensures forall s :: 0 <= s < |prims| ==> |IndexSet(prims[s])| <= 128
  {
    forall s | 0 <= s < |prims|
      ensures |IndexSet(prims[s])| <= 128
    {
      assert Range(|prims|)[s] == s;
      assert s in multiset(Range(|prims|));
      InFlatten(ms, s);
      var k :| 0 <= k < |ms| && s in ms[k].strips;
      var i :| 0 <= i < |ms[k].strips| && ms[k].strips[i] == s;
      UnionHolds(prims, ms[k].strips, i);
      CardSubset(IndexSet(prims[s]), ms[k].vertices);
    }
  }

  /** The packer between two meshlets: the closed meshlets and the pending
      strips together hold every strip once; the closed ones are valid and
      maximal against everything after them. */
  ghost predicate PackState(prims: seq<Primitive>, ms: seq<Meshlet>, pending: seq<nat>)
  {
    && multiset(Flatten(ms)) + multiset(pending) == multiset(Range(|prims|))
    && InRange(prims, pending)
    && (forall k :: 0 <= k < |ms| ==> MeshletValid(prims, ms[k]))
    && ClosedMaximal(prims, ms)
    && PendingMaximal(prims, ms, pending)
  }

  /** No pending strip fits any closed meshlet. */
  ghost predicate PendingMaximal(prims: seq<Primitive>, ms: seq<Meshlet>, pending: seq<nat>)
  {
    forall k, i :: 0 <= k < |ms| && 0 <= i < |pending| && pending[i] < |prims| ==>
      !Fits(prims[pending[i]], ms[k].vertices)
  }

  lemma CloseMeshletKeeps(prims: seq<Primitive>, ms: seq<Meshlet>, pending: seq<nat>, m: Meshlet, rest: seq<nat>)
    requires PackState(prims, ms, pending)
    requires multiset(m.strips) + multiset(rest) == multiset(pending)
    requires InRange(prims, rest) && InRange(prims, m.strips) && |m.strips| > 0
    requires m.vertices == UnionOf(prims, m.strips) && |m.vertices| <= 128
    requires forall i :: 0 <= i < |rest| ==> !Fits(prims[rest[i]], m.vertices)
    ensures PackState(prims, ms + [m], rest)
  {
    CoverSnoc(prims, ms, pending, m, rest);
    ValidSnoc(prims, ms, m);
    ClosedMaximalSnoc(prims, ms, pending, m, rest);
    PendingMaximalSnoc(prims, ms, pending, m, rest);
  }

  lemma CoverSnoc(prims: seq<Primitive>, ms: seq<Meshlet>, pending: seq<nat>, m: Meshlet, rest: seq<nat>)
    requires multiset(Flatten(ms)) + multiset(pending) == multiset(Range(|prims|))
    requires multiset(m.strips) + multiset(rest) == multiset(pending)
    ensures multiset(Flatten(ms + [m])) + multiset(rest) == multiset(Range(|prims|))
  {
    FlattenSnoc(ms, m);
  }

  lemma ValidSnoc(prims: seq<Primitive>, ms: seq<Meshlet>, m: Meshlet)
    requires forall k :: 0 <= k < |ms| ==> MeshletValid(prims, ms[k])
    requires MeshletValid(prims, m)
    ensures forall k :: 0 <= k < |ms + [m]| ==> MeshletValid(prims, (ms + [m])[k])
  {
    assert forall k :: 0 <= k < |ms| ==> (ms + [m])[k] == ms[k];
  }

  lemma PendingMaximalSnoc(prims: seq<Primitive>, ms: seq<Meshlet>, pending: seq<nat>, m: Meshlet, rest: seq<nat>)
    requires PendingMaximal(prims, ms, pending)
    requires multiset(m.strips) + multiset(rest) == multiset(pending)
    requires forall i :: 0 <= i < |rest| && rest[i] < |prims| ==> !Fits(prims[rest[i]], m.vertices)
    ensures PendingMaximal(prims, ms + [m], rest)
  {
    var ms' := ms + [m];
    forall k, i | 0 <= k < |ms'| && 0 <= i < |rest| && rest[i] < |prims|
      ensures !Fits(prims[rest[i]], ms'[k].vertices)
    {
      if k < |ms| {
        assert ms'[k] == ms[k];
        ElementFrom(rest, m.strips, pending, i);
      }
    }
  }

  lemma ClosedMaximalSnoc(prims: seq<Primitive>, ms: seq<Meshlet>, pending: seq<nat>, m: Meshlet, rest: seq<nat>)
    requires ClosedMaximal(prims, ms) && PendingMaximal(prims, ms, pending)
    requires multiset(m.strips) + multiset(rest) == multiset(pending)
    ensures ClosedMaximal(prims, ms + [m])
  {
    var ms' := ms + [m];
    forall k, l, i | 0 <= k < l < |ms'| && 0 <= i < |ms'[l].strips| && ms'[l].strips[i] < |prims|
      ensures !Fits(prims[ms'[l].strips[i]], ms'[k].vertices)
    {
      assert ms'[k] == ms[k];
      if l < |ms| {
        assert ms'[l] == ms[l];
      } else {
        assert ms'[l] == m;
        ElementFrom(m.strips, rest, pending, i);
      }
    }
  }

  /** An element of one part of a split multiset is an element of the whole. */
  lemma ElementFrom(a: seq<nat>, b: seq<nat>, c: seq<nat>, i: nat)
    requires multiset(a) + multiset(b) == multiset(c) && i < |a|
    ensures exists j :: 0 <= j < |c| && c[j] == a[i]
  {
    assert a[i] in multiset(c);
  }

  // ---------------------------------------------------------------------
  // Local numbering and index encoding
  // ---------------------------------------------------------------------

  /** The number of meshlet vertices below `x`: its place in the ascending
      iteration order of the `std::set`. */
  function Rank(verts: set<int>, x: int): nat
  {
    |set y | y in verts && y < x|
  }

  lemma {:induction false} MinExists(s: set<int>)
    requires |s| > 0
    ensures exists x :: x in s && forall y :: y in s ==> x <= y
  {
    var z :| z in s by {
      if forall z :: z !in s {
        assert false;
      }
    }
    var s' := s - {z};
    if |s'| > 0 {
      MinExists(s');
      var x :| x in s' && forall y :: y in s' ==> x <= y;
      assert forall y :: y in s ==> y == z || y in s';
      if z < x {
        assert forall y :: y in s ==> z <= y;
      } else {
        assert forall y :: y in s ==> x <= y;
      }
    } else {
      assert forall y :: y in s ==> y == z || y in s';
      assert forall y :: y in s ==> z <= y;
    }
  }

  /** `vertexToLocalIndex`: the meshlet's vertices numbered in ascending
      order. The counter is a `uint8_t`; a meshlet has at most 128 vertices,
      so it never wraps, and the source asserts as much after the loop. */
  method LocalIndices(verts: set<int>) returns (local: map<int, int>)
    requires |verts| <= 128
    ensures local.Keys == verts
    ensures forall x :: x in verts ==> local[x] == Rank(verts, x)
  {
    local := map[];
    var localIndex := 0;
    var rest := verts;
    ghost var done: set<int> := {};
    while rest != {}
      invariant Numbering(verts, done, rest, local, localIndex)
      decreases |rest|
    {
      assert |rest| != 0;
      MinExists(rest);
      var x :| x in rest && forall y :: y in rest ==> x <= y;
      NumberLeast(verts, done, rest, local, localIndex, x);
      local := local[x := localIndex];
      localIndex := localIndex + 1;
      rest := rest - {x};
      done := done + {x};
    }
    assert forall y :: y in local <==> y in verts;
    assert local.Keys == verts;
  }

  /** The numbering loop's state: `done` numbered by rank, all of it below
      every vertex of `rest`. */
  ghost predicate Numbering(verts: set<int>, done: set<int>, rest: set<int>, local: map<int, int>, i: int)
  {
    && (forall y :: y in verts <==> y in done || y in rest)
    && done !! rest
    && (forall y :: y in local <==> y in done)
    && (forall a, b :: a in done && b in rest ==> a < b)
    && (forall y :: y in local ==> local[y] == Rank(verts, y))
    && i == |done|
  }

  /** One step of the numbering loop keeps all of its invariants: the least
      vertex not yet numbered is preceded by exactly the numbered ones. */
  lemma NumberLeast(verts: set<int>, done: set<int>, rest: set<int>, local: map<int, int>, i: int, x: int)
    requires Numbering(verts, done, rest, local, i)
    requires x in rest && forall y :: y in rest ==> x <= y
    ensures Numbering(verts, done + {x}, rest - {x}, local[x := i], i + 1)
    ensures |rest - {x}| < |rest|
  {
    LeastRank(verts, done, rest, x);
    MoveLeast(done, rest, x);
    RankKeeps(verts, local, x, i);
  }

  lemma LeastRank(verts: set<int>, done: set<int>, rest: set<int>, x: int)
    requires forall y :: y in verts <==> y in done || y in rest
    requires done !! rest
    requires forall a, b :: a in done && b in rest ==> a < b
    requires x in rest && forall y :: y in rest ==> x <= y
    ensures Rank(verts, x) == |done|
  {
    assert forall y :: y in verts && y < x <==> y in done;
    assert (set y | y in verts && y < x) == done;
  }

  /** Moving the least vertex of `rest` over to `done` keeps the two apart
      and ordered. */
  lemma MoveLeast(done: set<int>, rest: set<int>, x: int)
    requires done !! rest
    requires forall a, b :: a in done && b in rest ==> a < b
    requires x in rest && forall y :: y in rest ==> x <= y
    ensures (done + {x}) !! (rest - {x})
    ensures forall a, b :: a in done + {x} && b in rest - {x} ==> a < b
    ensures |done + {x}| == |done| + 1 && |rest - {x}| < |rest|
  {
  }

  lemma RankKeeps(verts: set<int>, local: map<int, int>, x: int, v: int)
    requires forall y :: y in local ==> local[y] == Rank(verts, y)
    requires v == Rank(verts, x)
    ensures forall y :: y in local[x := v] ==> local[x := v][y] == Rank(verts, y)
  {
  }

  /** Ranks number a set of vertices 0 .. n-1 in ascending order. */
  lemma RankOrder(verts: set<int>, x: int, y: int)
    requires x in verts && y in verts
    ensures Rank(verts, x) < |verts|
    ensures x < y ==> Rank(verts, x) < Rank(verts, y)
  {
    var below := set z | z in verts && z < x;
    assert below < verts by {
      assert x !in below;
    }
    CardUnion(below, verts);
    if x < y {
      var belowY := set z | z in verts && z < y;
      assert below < belowY by {
        assert x in belowY && x !in below;
      }
      CardUnion(below, belowY);
    }
  }

  /** `vertexToLocalIndex[idx]`: `operator[]` yields 0 for a missing key. */
  function LocalByte(local: map<int, int>, idx: int): Byte
  {
    if idx in local then local[idx] % 256 else 0
  }

  /** `b | 128` on a byte. */
  function OrHigh(b: Byte): (r: Byte)
    ensures r / 128 == 1 && r % 128 == b % 128
  {
    if b >= 128 then b else b + 128
  }

  /** Index position `k` closes a primitive: the third corner of every
      triangle of a list, the last index of a strip. */
  predicate EndsPrimitive(p: Primitive, k: nat)
  {
    if p.kind == Triangles then k % 3 == 2 else k + 1 == |p.indices|
  }

  function EncodedIndex(p: Primitive, local: map<int, int>, k: nat): Byte
    requires k < |p.indices|
  {
    var b := LocalByte(local, p.indices[k]);
    if EndsPrimitive(p, k) then OrHigh(b) else b
  }

  /** The bytes the index loop writes for one primitive. */
  function EncodedPrimitive(p: Primitive, local: map<int, int>): (r: seq<Byte>)
    ensures |r| == |p.indices|
  {
    seq(|p.indices|, k requires 0 <= k < |p.indices| => EncodedIndex(p, local, k))
  }

  function EncodedStrips(prims: seq<Primitive>, strips: seq<nat>, local: map<int, int>): seq<Byte>
    requires InRange(prims, strips)
  {
    if |strips| == 0 then []
    else EncodedStrips(prims, strips[..|strips| - 1], local) + EncodedPrimitive(prims[strips[|strips| - 1]], local)
  }

  lemma EncodedStripsSnoc(prims: seq<Primitive>, strips: seq<nat>, t: nat, local: map<int, int>)
    requires InRange(prims, strips) && t < |strips|
    ensures InRange(prims, strips[..t]) && InRange(prims, strips[..t + 1])
    ensures EncodedStrips(prims, strips[..t + 1], local)
      == EncodedStrips(prims, strips[..t], local) + EncodedPrimitive(prims[strips[t]], local)
  {
    assert strips[..t + 1][..t] == strips[..t];
  }

  /** What the runtime decodes from an encoded index of a meshlet of at most
      128 vertices: bit 7 says exactly whether the index ends a primitive,
      and the low seven bits are the vertex's local number. */
  lemma EncodedIndexDecodes(p: Primitive, verts: set<int>, local: map<int, int>, k: nat)
    requires |verts| <= 128 && k < |p.indices| && p.indices[k] in verts
    requires local.Keys == verts && forall x :: x in verts ==> local[x] == Rank(verts, x)
    ensures EncodedPrimitive(p, local)[k] / 128 == (if EndsPrimitive(p, k) then 1 else 0)
    ensures EncodedPrimitive(p, local)[k] % 128 == Rank(verts, p.indices[k])
  {
    RankOrder(verts, p.indices[k], p.indices[k]);
    assert EncodedPrimitive(p, local)[k] == EncodedIndex(p, local, k);
  }

  /** The index loop of one primitive: a triangle list three indices at a
      time, a strip one at a time. The strip builder's assertion guarantees
      a triangle list a multiple of three indices. */
  method WritePrimitive(w: WriteVector, p: Primitive, local: map<int, int>)
    requires p.kind == Triangles ==> |p.indices| % 3 == 0
    modifies w
    ensures w.bytes == old(w.bytes) + EncodedPrimitive(p, local)
  {
    if p.kind == Triangles {
      WriteTriangles(w, p, local);
    } else {
      WriteStrip(w, p, local);
    }
  }

  method WriteTriangles(w: WriteVector, p: Primitive, local: map<int, int>)
    requires p.kind == Triangles && |p.indices| % 3 == 0
    modifies w
    ensures w.bytes == old(w.bytes) + EncodedPrimitive(p, local)
  {
    ghost var start := w.bytes;
    ghost var e := EncodedPrimitive(p, local);
    var n := |p.indices|;
    var i := 0;
    while i < n
      invariant 0 <= i <= n && i % 3 == 0
      invariant w.bytes == start + e[..i]
    {
      assert e[..i + 3] == e[..i] + [e[i], e[i + 1], e[i + 2]];
      assert e[i] == LocalByte(local, p.indices[i]) && e[i + 1] == LocalByte(local, p.indices[i + 1]);
      assert e[i + 2] == OrHigh(LocalByte(local, p.indices[i + 2]));
      w.Write([LocalByte(local, p.indices[i])]);
      w.Write([LocalByte(local, p.indices[i + 1])]);
      w.Write([OrHigh(LocalByte(local, p.indices[i + 2]))]);
      i := i + 3;
    }
    assert e[..n] == e;
  }

  method WriteStrip(w: WriteVector, p: Primitive, local: map<int, int>)
    requires p.kind == TriangleStrip
    modifies w
    ensures w.bytes == old(w.bytes) + EncodedPrimitive(p, local)
  {
    ghost var start := w.bytes;
    ghost var e := EncodedPrimitive(p, local);
    var n := |p.indices|;
    var i := 0;
    while i < n
      invariant 0 <= i <= n
      invariant w.bytes == start + e[..i]
    {
      assert e[..i + 1] == e[..i] + [e[i]];
      var b := LocalByte(local, p.indices[i]);
      w.Write([if i + 1 == n then OrHigh(b) else b]);
      i := i + 1;
    }
    assert e[..n] == e;
  }

  /** The index data of one meshlet: its strips in order. */
  method WriteMeshletIndices(w: WriteVector, prims: seq<Primitive>, m: Meshlet, local: map<int, int>)
    requires InRange(prims, m.strips)
    requires forall i :: 0 <= i < |m.strips| ==> prims[m.strips[i]].kind == Triangles ==> |prims[m.strips[i]].indices| % 3 == 0
    modifies w
    ensures w.bytes == old(w.bytes) + EncodedStrips(prims, m.strips, local)
  {
    ghost var start := w.bytes;
    var t := 0;
    while t < |m.strips|
      invariant 0 <= t <= |m.strips|
      invariant w.bytes == start + EncodedStrips(prims, m.strips[..t], local)
    {
      EncodedStripsSnoc(prims, m.strips, t, local);
      WritePrimitive(w, prims[m.strips[t]], local);
      t := t + 1;
    }
    assert m.strips[..t] == m.strips;
  }

  // ---------------------------------------------------------------------
  // Quad selection
  // ---------------------------------------------------------------------

  /** A quad of four vertex indices and the submesh it came from. */
  datatype Quad = Quad(i0: int, i1: int, i2: int, i3: int, submesh: nat)

  function Corners(q: Quad): set<int>
  {
    {q.i0, q.i1, q.i2, q.i3}
  }

  /** The vertices of the quads of `order` picked so far. */
  function Kept(order: seq<Quad>, picked: seq<bool>): set<int>
    requires |picked| <= |order|
  {
    if |picked| == 0 then {}
    else
      var n := |picked| - 1;
      Kept(order, picked[..n]) + (if picked[n] then Corners(order[n]) else {})
  }

  /** The quads of `order` picked so far, in order. */
  function Selected(order: seq<Quad>, picked: seq<bool>): seq<Quad>
    requires |picked| <= |order|
  {
    if |picked| == 0 then []
    else
      var n := |picked| - 1;
      Selected(order, picked[..n]) + (if picked[n] then [order[n]] else [])
  }

  /** All the vertices a list of quads uses. */
  function VertexUnion(qs: seq<Quad>): set<int>
  {
    if |qs| == 0 then {} else VertexUnion(qs[..|qs| - 1]) + Corners(qs[|qs| - 1])
  }

  lemma {:induction false} SelectedUnion(order: seq<Quad>, picked: seq<bool>)
    requires |picked| <= |order|
    ensures VertexUnion(Selected(order, picked)) == Kept(order, picked)
  {
    if |picked| > 0 {
      var n := |picked| - 1;
      SelectedUnion(order, picked[..n]);
      var before := Selected(order, picked[..n]);
      if picked[n] {
        assert (before + [order[n]])[..|before|] == before;
      } else {
        assert before + [] == before;
      }
    }
  }

  /** The selection of `FilterMaxVertexCount` (with `maxVertexCount` 32 by
      default) and of the last step of `GenerateConservativeQuads` (with a
      literal 32): the quads by decreasing area, each kept exactly when the
      vertices of the quads kept before it together with its own stay within
      the budget. `order` is the sorted list and `picked` says which of its
      quads were kept. */
  method SelectQuads(quads: seq<Quad>, area: Quad -> real, maxVertexCount: nat)
      returns (order: seq<Quad>, picked: seq<bool>, selected: seq<Quad>)
    ensures multiset(order) == multiset(quads) && SortedBy(order, q => -area(q))
    ensures |picked| == |order|
    ensures forall k :: 0 <= k < |order| ==>
      (picked[k] <==> |Kept(order, picked[..k]) + Corners(order[k])| <= maxVertexCount)
    ensures selected == Selected(order, picked)
    ensures |VertexUnion(selected)| <= maxVertexCount
  {
    order := SortByKey(quads, q => -area(q));
    picked, selected := [], [];
    var unionIndices: set<int> := {};
    var k := 0;
    while k < |order|
      invariant 0 <= k <= |order| && |picked| == k
      invariant unionIndices == Kept(order, picked) && |unionIndices| <= maxVertexCount
      invariant selected == Selected(order, picked)
      invariant forall j :: 0 <= j < k ==>
        (picked[j] <==> |Kept(order, picked[..j]) + Corners(order[j])| <= maxVertexCount)
    {
      var q := order[k];
      var candidate := unionIndices + {q.i0} + {q.i1} + {q.i2} + {q.i3};
      assert candidate == unionIndices + Corners(q);
      QuadStep(order, picked, maxVertexCount, |candidate| <= maxVertexCount);
      if |candidate| <= maxVertexCount {
        selected := selected + [q];
        unionIndices := candidate;
        picked := picked + [true];
      } else {
        picked := picked + [false];
      }
      k := k + 1;
    }
    SelectedUnion(order, picked);
  }

  /** Deciding the next quad extends the kept vertices, the selection and
      the per-quad rule by that quad. */
  lemma QuadStep(order: seq<Quad>, picked: seq<bool>, maxVertexCount: nat, fits: bool)
    requires |picked| < |order|
    requires forall j :: 0 <= j < |picked| ==>
      (picked[j] <==> |Kept(order, picked[..j]) + Corners(order[j])| <= maxVertexCount)
    requires fits <==> |Kept(order, picked) + Corners(order[|picked|])| <= maxVertexCount
    ensures Kept(order, picked + [fits]) == Kept(order, picked) + (if fits then Corners(order[|picked|]) else {})
    ensures Selected(order, picked + [fits]) == Selected(order, picked) + (if fits then [order[|picked|]] else [])
    ensures forall j :: 0 <= j < |picked| + 1 ==>
      ((picked + [fits])[j] <==> |Kept(order, (picked + [fits])[..j]) + Corners(order[j])| <= maxVertexCount)
  {
    PickedPrefix(picked, fits);
  }

  lemma PickedPrefix(picked: seq<bool>, b: bool)
    ensures (picked + [b])[..|picked|] == picked
    ensures forall j :: 0 <= j < |picked| ==> (picked + [b])[..j] == picked[..j] && (picked + [b])[j] == picked[j]
  {
    forall j | 0 <= j < |picked|
      ensures (picked + [b])[..j] == picked[..j]
    {
      assert (picked + [b])[..j] == picked[..j];
    }
  }
}

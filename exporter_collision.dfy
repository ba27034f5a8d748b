/** The exporter's collision baker: it drops degenerate triangles, merges
    vertices at identical positions, builds a bounding-volume hierarchy by
    median splits along the longest axis and flattens it into the leaf and
    interior arrays the runtime's concave-mesh collider walks. */
module CollisionBake {
  import opened Geometry
  import opened Sorting
  import opened SeqUtil

  // ---------------------------------------------------------------------------
  // Axis-aligned boxes

  /** `float.MaxValue`; an empty box runs from +MaxValue to -MaxValue. */
  const FloatMax: real := 340282346638528859811704183484516925440.0

  datatype AABB = AABB(min: Vec3, max: Vec3)
  {
    /** `AABB.Expand`: the box grown to hold `p` (the struct is a value, so the
        in-place update becomes a new value). */
    function Expand(p: Vec3): AABB
    {
      AABB(Vec3(Min(min.x, p.x), Min(min.y, p.y), Min(min.z, p.z)),
           Vec3(Max(max.x, p.x), Max(max.y, p.y), Max(max.z, p.z)))
    }
  }

  const EmptyBox: AABB := AABB(Vec3(FloatMax, FloatMax, FloatMax), Vec3(-FloatMax, -FloatMax, -FloatMax))

  ghost predicate Covers(b: AABB, p: Vec3)
  {
    && b.min.x <= p.x <= b.max.x
    && b.min.y <= p.y <= b.max.y
    && b.min.z <= p.z <= b.max.z
  }

  ghost predicate Contains(outer: AABB, inner: AABB)
  {
    && outer.min.x <= inner.min.x && inner.max.x <= outer.max.x
    && outer.min.y <= inner.min.y && inner.max.y <= outer.max.y
    && outer.min.z <= inner.min.z && inner.max.z <= outer.max.z
  }

  /** `Expand` gives the smallest box holding both the old box and the point. */
  lemma ExpandIsHull(b: AABB, p: Vec3)
    ensures Covers(b.Expand(p), p) && Contains(b.Expand(p), b)
    ensures forall c :: Contains(c, b) && Covers(c, p) ==> Contains(c, b.Expand(p))
  {
  }

  /** The squared `DiagonalLength`; the model compares squares instead of roots. */
  function SqrDiagonal(b: AABB): real
  {
    SqrMagnitude(Sub3(b.max, b.min))
  }

  // ---------------------------------------------------------------------------
  // Triangle lists: three vertex indices per triangle

  ghost predicate IndicesValid(vertices: seq<Vec3>, triangles: seq<int>)
  {
    forall i :: 0 <= i < |triangles| ==> 0 <= triangles[i] < |vertices|
  }

  /** Every triangle number in `tris` names a whole triangle of `triangles`. */
  ghost predicate TrisValid(triangles: seq<int>, tris: seq<int>)
  {
    forall k :: 0 <= k < |tris| ==> 0 <= tris[k] && 3 * tris[k] + 2 < |triangles|
  }

  function Corner(vertices: seq<Vec3>, triangles: seq<int>, t: int, j: int): Vec3
    requires IndicesValid(vertices, triangles)
    requires 0 <= t && 3 * t + 2 < |triangles| && 0 <= j < 3
  {
    vertices[triangles[3 * t + j]]
  }

  ghost function ExpandTri(vertices: seq<Vec3>, triangles: seq<int>, b: AABB, t: int): AABB
    requires IndicesValid(vertices, triangles)
    requires 0 <= t && 3 * t + 2 < |triangles|
  {
    b.Expand(Corner(vertices, triangles, t, 0)).Expand(Corner(vertices, triangles, t, 1))
     .Expand(Corner(vertices, triangles, t, 2))
  }

  /** The box `AABB.FromTriangles` computes for the triangles `tris`. */
  ghost function BoundsOf(vertices: seq<Vec3>, triangles: seq<int>, tris: seq<int>): AABB
    requires IndicesValid(vertices, triangles) && TrisValid(triangles, tris)
  {
    if |tris| == 0 then EmptyBox
    else
      ExpandTri(vertices, triangles, BoundsOf(vertices, triangles, tris[..|tris| - 1]), tris[|tris| - 1])
  }

  /** A box holds every corner of every triangle it was built from. */
  lemma {:induction false} BoundsCover(vertices: seq<Vec3>, triangles: seq<int>, tris: seq<int>)
    requires IndicesValid(vertices, triangles) && TrisValid(triangles, tris)
    ensures forall k, j :: 0 <= k < |tris| && 0 <= j < 3 ==>
              Covers(BoundsOf(vertices, triangles, tris), Corner(vertices, triangles, tris[k], j))
  {
    if |tris| > 0 {
      var init := tris[..|tris| - 1];
      BoundsCover(vertices, triangles, init);
      assert forall k :: 0 <= k < |init| ==> init[k] == tris[k];
    }
  }

  function MinVec(a: Vec3, b: Vec3): Vec3 { Vec3(Min(a.x, b.x), Min(a.y, b.y), Min(a.z, b.z)) }
  function MaxVec(a: Vec3, b: Vec3): Vec3 { Vec3(Max(a.x, b.x), Max(a.y, b.y), Max(a.z, b.z)) }

  /** Expanding by a triangle is taking the hull with the triangle's own box. */
  lemma ExpandTriHull(vertices: seq<Vec3>, triangles: seq<int>, b: AABB, t: int)
    requires IndicesValid(vertices, triangles)
    requires 0 <= t && 3 * t + 2 < |triangles|
    ensures var c0, c1, c2 := Corner(vertices, triangles, t, 0), Corner(vertices, triangles, t, 1),
                              Corner(vertices, triangles, t, 2);
      ExpandTri(vertices, triangles, b, t)
        == AABB(MinVec(b.min, MinVec(MinVec(c0, c1), c2)), MaxVec(b.max, MaxVec(MaxVec(c0, c1), c2)))
  {
  }

  lemma ExpandTriCommutes(vertices: seq<Vec3>, triangles: seq<int>, b: AABB, t: int, u: int)
    requires IndicesValid(vertices, triangles)
    requires 0 <= t && 3 * t + 2 < |triangles| && 0 <= u && 3 * u + 2 < |triangles|
    ensures ExpandTri(vertices, triangles, ExpandTri(vertices, triangles, b, t), u)
         == ExpandTri(vertices, triangles, ExpandTri(vertices, triangles, b, u), t)
  {
    ExpandTriHull(vertices, triangles, b, t);
    ExpandTriHull(vertices, triangles, b, u);
    ExpandTriHull(vertices, triangles, ExpandTri(vertices, triangles, b, t), u);
    ExpandTriHull(vertices, triangles, ExpandTri(vertices, triangles, b, u), t);
  }

  /** Moving one triangle to the end of the list does not change the box. */
  lemma {:induction false} BoundsMoveLast(vertices: seq<Vec3>, triangles: seq<int>, a: seq<int>, t: int, c: seq<int>)
    requires IndicesValid(vertices, triangles) && TrisValid(triangles, a + [t] + c)
    ensures TrisValid(triangles, a + c) && 0 <= t && 3 * t + 2 < |triangles|
    ensures BoundsOf(vertices, triangles, a + [t] + c)
         == ExpandTri(vertices, triangles, BoundsOf(vertices, triangles, a + c), t)
    decreases |c|
  {
    var whole := a + [t] + c;
    assert whole[|a|] == t;
    forall k | 0 <= k < |a + c| ensures (a + c)[k] == whole[if k < |a| then k else k + 1] {
    }
    if |c| == 0 {
      assert whole[..|whole| - 1] == a && a + c == a;
      assert BoundsOf(vertices, triangles, whole) == ExpandTri(vertices, triangles, BoundsOf(vertices, triangles, a), t);
    } else {
      var c' := c[..|c| - 1];
      var u := c[|c| - 1];
      assert u == whole[|whole| - 1];
      assert whole[..|whole| - 1] == a + [t] + c';
      assert (a + c)[..|a + c| - 1] == a + c';
      assert (a + c)[|a + c| - 1] == u;
      BoundsMoveLast(vertices, triangles, a, t, c');
      var b := BoundsOf(vertices, triangles, a + c');
      ExpandTriCommutes(vertices, triangles, b, t, u);
      calc {
        BoundsOf(vertices, triangles, whole);
        ExpandTri(vertices, triangles, BoundsOf(vertices, triangles, a + [t] + c'), u);
        ExpandTri(vertices, triangles, ExpandTri(vertices, triangles, b, t), u);
        ExpandTri(vertices, triangles, ExpandTri(vertices, triangles, b, u), t);
        ExpandTri(vertices, triangles, BoundsOf(vertices, triangles, a + c), t);
      }
    }
  }

  /** The last element of `s` found in its permutation `r`: what is left on
      either side is a permutation of the rest of `s`. */
  lemma PermutationSplit(s: seq<int>, r: seq<int>) returns (a: seq<int>, c: seq<int>)
    requires |s| > 0 && multiset(s) == multiset(r)
    ensures r == a + [s[|s| - 1]] + c
    ensures multiset(s[..|s| - 1]) == multiset(a + c)
  {
    var t := s[|s| - 1];
    var s' := s[..|s| - 1];
    assert s == s' + [t];
    assert t in multiset(r);
    var p :| 0 <= p < |r| && r[p] == t;
    a, c := r[..p], r[p + 1..];
    assert r == a + [t] + c;
    assert multiset(s) == multiset(s') + multiset{t};
    assert multiset(r) == multiset(a + c) + multiset{t} by {
      assert a + [t] + c == (a + c)[..|a|] + [t] + (a + c)[|a|..];
      assert multiset(r) == multiset(a) + multiset{t} + multiset(c);
      assert multiset(a + c) == multiset(a) + multiset(c);
    }
    MultisetCancel(multiset(s'), multiset(a + c), t);
  }

  lemma MultisetCancel(x: multiset<int>, y: multiset<int>, t: int)
    requires x + multiset{t} == y + multiset{t}
    ensures x == y
  {
    forall e ensures x[e] == y[e] {
      assert (x + multiset{t})[e] == (y + multiset{t})[e];
    }
  }

  /** A permutation of valid triangle numbers is valid. */
  lemma TrisValidPermutation(triangles: seq<int>, s: seq<int>, r: seq<int>)
    requires TrisValid(triangles, s) && multiset(s) == multiset(r)
    ensures TrisValid(triangles, r)
  {
    forall k | 0 <= k < |r| ensures 0 <= r[k] && 3 * r[k] + 2 < |triangles| {
      assert r[k] in multiset(r);
      assert r[k] in s;
    }
  }

  /** The box depends only on which triangles are listed, not on their order:
      the sort inside `BuildRecursive` leaves a node's box unchanged. */
  lemma {:induction false} BoundsPermutation(vertices: seq<Vec3>, triangles: seq<int>, s: seq<int>, r: seq<int>)
    requires IndicesValid(vertices, triangles) && TrisValid(triangles, s)
    requires multiset(s) == multiset(r)
    ensures TrisValid(triangles, r)
    ensures BoundsOf(vertices, triangles, s) == BoundsOf(vertices, triangles, r)
    decreases |s|
  {
    TrisValidPermutation(triangles, s, r);
    if |s| > 0 {
      var t := s[|s| - 1];
      var s' := s[..|s| - 1];
      var a, c := PermutationSplit(s, r);
      assert TrisValid(triangles, s') by {
        forall k | 0 <= k < |s'| ensures s'[k] == s[k] { }
      }
      BoundsMoveLast(vertices, triangles, a, t, c);
      BoundsPermutation(vertices, triangles, s', a + c);
      assert BoundsOf(vertices, triangles, s) == ExpandTri(vertices, triangles, BoundsOf(vertices, triangles, s'), t);
    } else {
      assert |r| == |multiset(r)| == 0;
    }
  }

  /** The triangle list's corners folded into `b`, the first `j` of triangle `t`. */
  ghost function ExpandCorners(vertices: seq<Vec3>, triangles: seq<int>, b: AABB, t: int, j: nat): AABB
    requires IndicesValid(vertices, triangles)
    requires 0 <= t && 3 * t + 2 < |triangles| && j <= 3
  {
    if j == 0 then b else ExpandCorners(vertices, triangles, b, t, j - 1).Expand(Corner(vertices, triangles, t, j - 1))
  }

  /** `AABB.FromTriangles`. */
  method FromTriangles(vertices: seq<Vec3>, triangles: seq<int>, triIndices: seq<int>) returns (b: AABB)
    requires IndicesValid(vertices, triangles) && TrisValid(triangles, triIndices)
    ensures b == BoundsOf(vertices, triangles, triIndices)
    ensures forall k, j :: 0 <= k < |triIndices| && 0 <= j < 3 ==>
              Covers(b, Corner(vertices, triangles, triIndices[k], j))
  {
    b := EmptyBox;
    for i := 0 to |triIndices|
      invariant b == BoundsOf(vertices, triangles, triIndices[..i])
    {
      var ti := triIndices[i];
      var idx := ti * 3;
      ghost var b0 := b;
      for j := 0 to 3
        invariant b == ExpandCorners(vertices, triangles, b0, ti, j)
      {
        var v := vertices[triangles[idx + j]];
        b := b.Expand(v);
      }
      assert ExpandCorners(vertices, triangles, b0, ti, 1) == b0.Expand(Corner(vertices, triangles, ti, 0));
      assert ExpandCorners(vertices, triangles, b0, ti, 2)
          == ExpandCorners(vertices, triangles, b0, ti, 1).Expand(Corner(vertices, triangles, ti, 1));
      assert b == ExpandTri(vertices, triangles, b0, ti);
      assert triIndices[..i + 1][..i] == triIndices[..i];
      assert triIndices[..i + 1][i] == ti;
    }
    assert triIndices[..|triIndices|] == triIndices;
    BoundsCover(vertices, triangles, triIndices);
  }

  // ---------------------------------------------------------------------------
  // The hierarchy

  /** `(v0 + v1 + v2) / 3f` for triangle `t`. */
  function TriCentroid(vertices: seq<Vec3>, triangles: seq<int>, t: int): Vec3
    requires IndicesValid(vertices, triangles) && 0 <= t && 3 * t + 2 < |triangles|
  {
    var s := Add3(Add3(Corner(vertices, triangles, t, 0), Corner(vertices, triangles, t, 1)),
                  Corner(vertices, triangles, t, 2));
    Vec3(s.x / 3.0, s.y / 3.0, s.z / 3.0)
  }

  /** The split axis: the box's longest extent, ties going to the lower axis. */
  function LongestAxis(b: AABB): (axis: nat)
    ensures axis < 3
    ensures forall a :: 0 <= a < 3 ==> Axis(Sub3(b.max, b.min), a) <= Axis(Sub3(b.max, b.min), axis)
    ensures forall a :: 0 <= a < axis ==> Axis(Sub3(b.max, b.min), a) < Axis(Sub3(b.max, b.min), axis)
  {
    var extents := Sub3(b.max, b.min);
    var axis0 := if extents.y > extents.x then 1 else 0;
    if extents.z > Axis(extents, axis0) then 2 else axis0
  }

  /** A node of the hierarchy. The C# nodes are objects linked by reference and
      all of them are appended to `BVHBuilder.nodes`; here a child is named by
      its position in that list. */
  datatype BVHNode = Leaf(bounds: AABB, tris: seq<int>) | Interior(bounds: AABB, left: nat, right: nat)

  /** The triangles under node `i`, left subtree first. */
  ghost function TrisOf(nodes: seq<BVHNode>, i: nat): seq<int>
    decreases i
  {
    if i >= |nodes| then []
    else match nodes[i]
      case Leaf(_, tris) => tris
      case Interior(_, l, r) => if l < i && r < i then TrisOf(nodes, l) + TrisOf(nodes, r) else []
  }

  /** The triangles of the leaves of `nodes`, in list order. */
  ghost function LeafConcat(nodes: seq<BVHNode>): seq<int>
  {
    if |nodes| == 0 then []
    else LeafConcat(nodes[..|nodes| - 1]) + (if nodes[|nodes| - 1].Leaf? then nodes[|nodes| - 1].tris else [])
  }

  ghost function LeafCount(nodes: seq<BVHNode>): nat
  {
    if |nodes| == 0 then 0 else LeafCount(nodes[..|nodes| - 1]) + (if nodes[|nodes| - 1].Leaf? then 1 else 0)
  }

  ghost function InteriorCount(nodes: seq<BVHNode>): nat
  {
    if |nodes| == 0 then 0 else InteriorCount(nodes[..|nodes| - 1]) + (if nodes[|nodes| - 1].Leaf? then 0 else 1)
  }

  lemma {:induction false} ArenaAppend(a: seq<BVHNode>, b: seq<BVHNode>)
    ensures LeafConcat(a + b) == LeafConcat(a) + LeafConcat(b)
    ensures LeafCount(a + b) == LeafCount(a) + LeafCount(b)
    ensures InteriorCount(a + b) == InteriorCount(a) + InteriorCount(b)
    decreases |b|
  {
    if |b| == 0 {
      assert a + b == a;
    } else {
      var b' := b[..|b| - 1];
      ArenaAppend(a, b');
      assert (a + b)[..|a + b| - 1] == a + b';
    }
  }

  lemma {:induction false} TrisOfPrefix(nodes: seq<BVHNode>, ext: seq<BVHNode>, i: nat)
    requires i < |nodes| <= |ext| && ext[..|nodes|] == nodes
    ensures TrisOf(ext, i) == TrisOf(nodes, i)
    decreases i
  {
    assert ext[i] == nodes[i];
    match nodes[i]
    case Leaf(_, _) =>
    case Interior(_, l, r) =>
      if l < i && r < i {
        TrisOfPrefix(nodes, ext, l);
        TrisOfPrefix(nodes, ext, r);
      }
  }

  /** What `BuildRecursive` reads besides its argument. `sceneSqrDiagonal` is
      the square of the scene diagonal, whose product with `relativeThreshold`
      is the C# `splitThreshold`. */
  datatype BuildParams = BuildParams(vertices: seq<Vec3>, triangles: seq<int>, centroids: seq<Vec3>,
                                     maxLeafSize: int, relativeThreshold: real, sceneSqrDiagonal: real)

  ghost predicate ParamsValid(p: BuildParams)
  {
    IndicesValid(p.vertices, p.triangles) && p.maxLeafSize >= 1
  }

  /** The leaf test `count <= maxLeafSize || bounds.DiagonalLength() <= splitThreshold`
      on squares: with d, D >= 0 the diagonals of the node and the scene,
      `d <= D * rel` holds iff `d*d <= D*D*rel*rel` and either `rel >= 0` or `D == 0`. */
  predicate StopsAt(p: BuildParams, count: int, b: AABB)
  {
    || count <= p.maxLeafSize
    || ((p.relativeThreshold >= 0.0 || p.sceneSqrDiagonal == 0.0)
        && SqrDiagonal(b) <= p.sceneSqrDiagonal * p.relativeThreshold * p.relativeThreshold)
  }

  /** The sort key of triangle `t` on `axis`: its centroid's coordinate. */
  ghost function Key(p: BuildParams, axis: nat, t: int): real
    requires axis < 3
  {
    if 0 <= t && t < |p.centroids| then Axis(p.centroids[t], axis) else 0.0
  }

  ghost predicate SplitOrdered(p: BuildParams, left: seq<int>, right: seq<int>, axis: nat)
    requires axis < 3
  {
    forall a, c :: a in left && c in right ==> Key(p, axis, a) <= Key(p, axis, c)
  }

  /** Node `i` is what `BuildRecursive` makes of its triangles: its box is
      theirs; a leaf passes the leaf test; an interior node fails it, has its
      children earlier in the list, and splits its triangles at count / 2 with
      every left centroid no greater than any right one on the longest axis. */
  ghost predicate NodeSound(p: BuildParams, nodes: seq<BVHNode>, i: nat)
    requires IndicesValid(p.vertices, p.triangles) && i < |nodes|
  {
    var all := TrisOf(nodes, i);
    && TrisValid(p.triangles, all)
    && nodes[i].bounds == BoundsOf(p.vertices, p.triangles, all)
    && match nodes[i]
       case Leaf(b, _) => StopsAt(p, |all|, b)
       case Interior(b, l, r) =>
         && l < r < i
         && !StopsAt(p, |all|, b)
         && |TrisOf(nodes, l)| == |all| / 2
         && SplitOrdered(p, TrisOf(nodes, l), TrisOf(nodes, r), LongestAxis(b))
  }

  ghost predicate TreeSound(p: BuildParams, nodes: seq<BVHNode>)
  {
    IndicesValid(p.vertices, p.triangles) && forall i :: 0 <= i < |nodes| ==> NodeSound(p, nodes, i)
  }

  lemma SoundExtends(p: BuildParams, nodes: seq<BVHNode>, ext: seq<BVHNode>)
    requires TreeSound(p, nodes) && |nodes| <= |ext| && ext[..|nodes|] == nodes
    ensures forall i :: 0 <= i < |nodes| ==> NodeSound(p, ext, i)
  {
    forall i | 0 <= i < |nodes| ensures NodeSound(p, ext, i) {
      assert NodeSound(p, nodes, i);
      TrisOfPrefix(nodes, ext, i);
      assert ext[i] == nodes[i];
      if nodes[i].Interior? {
        TrisOfPrefix(nodes, ext, nodes[i].left);
        TrisOfPrefix(nodes, ext, nodes[i].right);
      }
    }
  }

  lemma SplitFromSorted(p: BuildParams, axis: nat, sorted: seq<int>, mid: nat, left: seq<int>, right: seq<int>)
    requires axis < 3 && mid <= |sorted|
    requires forall i, j :: 0 <= i < j < |sorted| ==> Key(p, axis, sorted[i]) <= Key(p, axis, sorted[j])
    requires multiset(left) == multiset(sorted[..mid]) && multiset(right) == multiset(sorted[mid..])
    ensures SplitOrdered(p, left, right, axis)
  {
    forall a, c | a in left && c in right ensures Key(p, axis, a) <= Key(p, axis, c) {
      assert a in multiset(sorted[..mid]) && c in multiset(sorted[mid..]);
      var i :| 0 <= i < mid && sorted[..mid][i] == a;
      var j :| 0 <= j < |sorted| - mid && sorted[mid..][j] == c;
      assert sorted[i] == a && sorted[mid + j] == c;
    }
  }

  /** `0, 1, ..., n - 1`. */
  function Range(n: nat): (r: seq<int>)
    ensures |r| == n && forall i :: 0 <= i < n ==> r[i] == i
  {
    seq(n, i => i)
  }

  /** `BVHBuilder`: `Build` fills the centroid list and the scene threshold,
      then `BuildRecursive` appends every node it creates to `nodes`. */
  class BVHBuilder {
    var maxLeafSize: int
    var relativeThreshold: real
    var sceneSqrDiagonal: real
    var vertices: seq<Vec3>
    var triangles: seq<int>
    var centroids: seq<Vec3>
    var nodes: seq<BVHNode>

    constructor ()
      ensures maxLeafSize == 0 && relativeThreshold == 0.0 && sceneSqrDiagonal == 0.0
      ensures vertices == [] && triangles == [] && centroids == [] && nodes == []
    {
      maxLeafSize := 0;
      relativeThreshold := 0.0;
      sceneSqrDiagonal := 0.0;
      vertices := [];
      triangles := [];
      centroids := [];
      nodes := [];
    }

    function Params(): BuildParams
      reads this`vertices, this`triangles, this`centroids, this`maxLeafSize, this`relativeThreshold,
            this`sceneSqrDiagonal
    {
      BuildParams(vertices, triangles, centroids, maxLeafSize, relativeThreshold, sceneSqrDiagonal)
    }

    /** `Build`: the hierarchy over all `triangles.Count / 3` triangles. The root
        is the last node appended; the leaves list every triangle exactly once. */
    method Build(vertices: seq<Vec3>, triangles: seq<int>, relativeThreshold: real, maxLeafSize: int)
      returns (root: nat)
      requires IndicesValid(vertices, triangles) && maxLeafSize >= 1
      modifies this
      ensures this.vertices == vertices && this.triangles == triangles
      ensures this.maxLeafSize == maxLeafSize && this.relativeThreshold == relativeThreshold
      ensures |centroids| == |triangles| / 3
      ensures forall t :: 0 <= t < |centroids| ==> centroids[t] == TriCentroid(vertices, triangles, t)
      ensures TrisValid(triangles, Range(|triangles| / 3))
      ensures sceneSqrDiagonal == SqrDiagonal(BoundsOf(vertices, triangles, Range(|triangles| / 3)))
      ensures TreeSound(Params(), nodes) && root == |nodes| - 1
      ensures LeafConcat(nodes) == TrisOf(nodes, root)
      ensures multiset(LeafConcat(nodes)) == multiset(Range(|triangles| / 3))
      ensures LeafCount(nodes) == InteriorCount(nodes) + 1
      ensures nodes[root].Leaf? ==> |nodes| == 1
    {
      var triCount := |triangles| / 3;
      var cs := [];
      for i := 0 to triCount
        invariant |cs| == i
        invariant forall t :: 0 <= t < i ==> cs[t] == TriCentroid(vertices, triangles, t)
      {
        var idx := i * 3;
        var v0 := vertices[triangles[idx]];
        var v1 := vertices[triangles[idx + 1]];
        var v2 := vertices[triangles[idx + 2]];
        var sum := Add3(Add3(v0, v1), v2);
        cs := cs + [Vec3(sum.x / 3.0, sum.y / 3.0, sum.z / 3.0)];
      }

      var all := [];
      for i := 0 to triCount
        invariant all == Range(i)
      {
        all := all + [i];
      }
      var sceneBounds := FromTriangles(vertices, triangles, all);

      this.vertices := vertices;
      this.triangles := triangles;
      this.maxLeafSize := maxLeafSize;
      this.relativeThreshold := relativeThreshold;
      centroids := cs;
      sceneSqrDiagonal := SqrDiagonal(sceneBounds);
      nodes := [];
      root := BuildRecursive(all);
      assert nodes[0..] == nodes;
    }

    /** `BuildRecursive`: appends the subtree for `triIndices` to `nodes` in
        post-order and returns its root, the last node appended. */
    method BuildRecursive(triIndices: seq<int>) returns (idx: nat)
      requires ParamsValid(Params()) && TreeSound(Params(), nodes) && TrisValid(triangles, triIndices)
      modifies this`nodes
      ensures Built(Params(), old(nodes), nodes, idx, triIndices)
      decreases |triIndices|
    {
      var bounds := FromTriangles(vertices, triangles, triIndices);
      ghost var n0 := nodes;

      if StopsAt(Params(), |triIndices|, bounds) {
        var leaf := Leaf(bounds, triIndices);
        nodes := nodes + [leaf];
        idx := |nodes| - 1;
        LeafSound(Params(), n0, leaf);
        return;
      }

      var axis := LongestAxis(bounds);
      var sorted := SortByCentroid(Params(), triIndices, axis);
      var mid := |sorted| / 2;
      var leftTris := sorted[..mid];
      var rightTris := sorted[mid..];
      BoundsPermutation(vertices, triangles, triIndices, sorted);
      assert TrisValid(triangles, leftTris) && TrisValid(triangles, rightTris);

      var leftNode := BuildRecursive(leftTris);
      ghost var n1 := nodes;
      var rightNode := BuildRecursive(rightTris);
      ghost var n2 := nodes;

      var node := Interior(bounds, leftNode, rightNode);
      nodes := nodes + [node];
      idx := |nodes| - 1;
      InteriorBuilt(Params(), n0, n1, n2, node, triIndices, sorted, mid, axis);
    }
  }

  /** What `BuildRecursive(tris)` leaves behind when it turns the sound list
      `n0` into `n`: the list is still sound and only grew; its new part is the
      post-order subtree for `tris`, rooted at its last node `idx`, whose leaves
      hold `tris` (as a multiset) in list order and number one more than its
      interior nodes; the root's box is that of `tris`, and the root is a leaf
      exactly when the leaf test passes, in which case it is the only new node. */
  ghost predicate Built(p: BuildParams, n0: seq<BVHNode>, n: seq<BVHNode>, idx: nat, tris: seq<int>)
  {
    && TreeSound(p, n) && TrisValid(p.triangles, tris)
    && |n| > |n0| && n[..|n0|] == n0 && idx == |n| - 1
    && multiset(TrisOf(n, idx)) == multiset(tris)
    && LeafConcat(n[|n0|..]) == TrisOf(n, idx)
    && LeafCount(n[|n0|..]) == InteriorCount(n[|n0|..]) + 1
    && n[idx].bounds == BoundsOf(p.vertices, p.triangles, tris)
    && (n[idx].Leaf? <==> StopsAt(p, |tris|, n[idx].bounds))
    && (n[idx].Leaf? ==> n[idx].tris == tris && |n| == |n0| + 1)
  }

  /** `triIndices.Sort` by centroid coordinate on `axis`. */
  method SortByCentroid(p: BuildParams, tris: seq<int>, axis: nat) returns (sorted: seq<int>)
    requires axis < 3
    ensures multiset(sorted) == multiset(tris) && |sorted| == |tris|
    ensures forall i, j :: 0 <= i < j < |sorted| ==> Key(p, axis, sorted[i]) <= Key(p, axis, sorted[j])
  {
    var cs := p.centroids;
    var key := (t: int) => if 0 <= t < |cs| then Axis(cs[t], axis) else 0.0;
    sorted := SortByKey(tris, key);
    assert forall t :: key(t) == Key(p, axis, t);
  }

  /** A leaf appended to a sound list leaves it sound. */
  lemma LeafSound(p: BuildParams, n0: seq<BVHNode>, leaf: BVHNode)
    requires TreeSound(p, n0) && leaf.Leaf? && TrisValid(p.triangles, leaf.tris)
    requires leaf.bounds == BoundsOf(p.vertices, p.triangles, leaf.tris) && StopsAt(p, |leaf.tris|, leaf.bounds)
    ensures Built(p, n0, n0 + [leaf], |n0|, leaf.tris)
  {
    var n1 := n0 + [leaf];
    assert n1[..|n0|] == n0;
    SoundExtends(p, n0, n1);
    assert NodeSound(p, n1, |n0|);
    assert n1[|n0|..] == [leaf];
    assert [leaf][..0] == [];
  }

  /** The interior node appended after both halves of a split are built is
      sound, and its subtree holds the node's triangles. */
  lemma InteriorSound(p: BuildParams, n1: seq<BVHNode>, n2: seq<BVHNode>, node: BVHNode,
                      tris: seq<int>, sorted: seq<int>, mid: nat, axis: nat)
    requires TreeSound(p, n2) && TrisValid(p.triangles, tris)
    requires |n1| < |n2| && n2[..|n1|] == n1
    requires node.Interior? && node.left == |n1| - 1 && node.right == |n2| - 1
    requires node.bounds == BoundsOf(p.vertices, p.triangles, tris) && !StopsAt(p, |tris|, node.bounds)
    requires axis == LongestAxis(node.bounds)
    requires multiset(sorted) == multiset(tris) && mid == |sorted| / 2
    requires forall i, j :: 0 <= i < j < |sorted| ==> Key(p, axis, sorted[i]) <= Key(p, axis, sorted[j])
    requires multiset(TrisOf(n1, node.left)) == multiset(sorted[..mid])
    requires multiset(TrisOf(n2, node.right)) == multiset(sorted[mid..])
    ensures TreeSound(p, n2 + [node])
    ensures TrisOf(n2 + [node], |n2|) == TrisOf(n1, node.left) + TrisOf(n2, node.right)
    ensures multiset(TrisOf(n2 + [node], |n2|)) == multiset(tris)
  {
    var n3 := n2 + [node];
    InteriorTris(n1, n2, node);
    var lt, rt := TrisOf(n1, node.left), TrisOf(n2, node.right);
    InteriorNodeSound(p, n3, |n2|, lt, rt, tris, sorted, mid, axis);
    TreeSoundAppend(p, n2, node);
  }

  lemma InteriorTris(n1: seq<BVHNode>, n2: seq<BVHNode>, node: BVHNode)
    requires |n1| < |n2| && n2[..|n1|] == n1
    requires node.Interior? && node.left == |n1| - 1 && node.right == |n2| - 1
    ensures var n3 := n2 + [node];
      && TrisOf(n3, node.left) == TrisOf(n1, node.left)
      && TrisOf(n3, node.right) == TrisOf(n2, node.right)
      && TrisOf(n3, |n2|) == TrisOf(n1, node.left) + TrisOf(n2, node.right)
  {
    var n3 := n2 + [node];
    TrisOfPrefix(n1, n2, node.left);
    TrisOfPrefix(n2, n3, node.left);
    TrisOfPrefix(n2, n3, node.right);
  }

  lemma InteriorNodeSound(p: BuildParams, n3: seq<BVHNode>, i: nat, lt: seq<int>, rt: seq<int>,
                          tris: seq<int>, sorted: seq<int>, mid: nat, axis: nat)
    requires IndicesValid(p.vertices, p.triangles) && TrisValid(p.triangles, tris)
    requires i < |n3| && n3[i].Interior? && n3[i].left < n3[i].right < i
    requires TrisOf(n3, n3[i].left) == lt && TrisOf(n3, n3[i].right) == rt && TrisOf(n3, i) == lt + rt
    requires n3[i].bounds == BoundsOf(p.vertices, p.triangles, tris) && !StopsAt(p, |tris|, n3[i].bounds)
    requires axis == LongestAxis(n3[i].bounds)
    requires multiset(sorted) == multiset(tris) && mid == |sorted| / 2
    requires forall a, b :: 0 <= a < b < |sorted| ==> Key(p, axis, sorted[a]) <= Key(p, axis, sorted[b])
    requires multiset(lt) == multiset(sorted[..mid]) && multiset(rt) == multiset(sorted[mid..])
    ensures NodeSound(p, n3, i)
    ensures multiset(TrisOf(n3, i)) == multiset(tris)
  {
    assert sorted == sorted[..mid] + sorted[mid..];
    assert multiset(lt + rt) == multiset(tris);
    BoundsPermutation(p.vertices, p.triangles, tris, lt + rt);
    assert |lt| == |multiset(lt)| == |multiset(sorted[..mid])| == mid;
    assert |lt + rt| == |multiset(tris)| == |tris|;
    SplitFromSorted(p, axis, sorted, mid, lt, rt);
  }

  lemma TreeSoundAppend(p: BuildParams, n2: seq<BVHNode>, node: BVHNode)
    requires TreeSound(p, n2) && NodeSound(p, n2 + [node], |n2|)
    ensures TreeSound(p, n2 + [node])
  {
    SoundExtends(p, n2, n2 + [node]);
  }

  /** Post-order bookkeeping: the leaves appended for an interior node are
      those of its left subtree, then those of its right one. */
  lemma InteriorArena(n0: seq<BVHNode>, n1: seq<BVHNode>, n2: seq<BVHNode>, node: BVHNode,
                      lt: seq<int>, rt: seq<int>)
    requires |n0| <= |n1| <= |n2| && n1[..|n0|] == n0 && n2[..|n1|] == n1 && node.Interior?
    requires LeafConcat(n1[|n0|..]) == lt && LeafConcat(n2[|n1|..]) == rt
    requires LeafCount(n1[|n0|..]) == InteriorCount(n1[|n0|..]) + 1
    requires LeafCount(n2[|n1|..]) == InteriorCount(n2[|n1|..]) + 1
    ensures (n2 + [node])[..|n0|] == n0
    ensures LeafConcat((n2 + [node])[|n0|..]) == lt + rt
    ensures LeafCount((n2 + [node])[|n0|..]) == InteriorCount((n2 + [node])[|n0|..]) + 1
  {
    var r1, r2 := n1[|n0|..], n2[|n1|..];
    SliceSplit(n0, n1, n2, node);
    ArenaAppend(r1, r2);
    ArenaAppend(r1 + r2, [node]);
    assert [node][..0] == [];
  }

  lemma InteriorBuilt(p: BuildParams, n0: seq<BVHNode>, n1: seq<BVHNode>, n2: seq<BVHNode>, node: BVHNode,
                      tris: seq<int>, sorted: seq<int>, mid: nat, axis: nat)
    requires node.Interior? && TrisValid(p.triangles, tris)
    requires multiset(sorted) == multiset(tris) && mid == |sorted| / 2
    requires Built(p, n0, n1, node.left, sorted[..mid]) && Built(p, n1, n2, node.right, sorted[mid..])
    requires node.bounds == BoundsOf(p.vertices, p.triangles, tris) && !StopsAt(p, |tris|, node.bounds)
    requires axis == LongestAxis(node.bounds)
    requires forall i, j :: 0 <= i < j < |sorted| ==> Key(p, axis, sorted[i]) <= Key(p, axis, sorted[j])
    ensures Built(p, n0, n2 + [node], |n2|, tris)
  {
    InteriorSound(p, n1, n2, node, tris, sorted, mid, axis);
    InteriorArena(n0, n1, n2, node, TrisOf(n1, node.left), TrisOf(n2, node.right));
  }

  lemma SliceSplit<T>(n0: seq<T>, n1: seq<T>, n2: seq<T>, x: T)
    requires |n0| <= |n1| <= |n2| && n1[..|n0|] == n0 && n2[..|n1|] == n1
    ensures (n2 + [x])[|n0|..] == n1[|n0|..] + n2[|n1|..] + [x]
  {
    assert n2 == n1 + n2[|n1|..];
    assert n1 == n0 + n1[|n0|..];
  }
}

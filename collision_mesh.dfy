/** `BakeCollisionMesh` and the mesh-collider loop of `ProcessPhysics`: drop
    degenerate triangles, merge vertices with equal positions, build and
    flatten the hierarchy, and share identical index, vertex and hierarchy
    tables between colliders. */
module CollisionMesh {
  import opened Geometry
  import opened SeqUtil
  import opened CollisionBake
  import opened CollisionFlatten

  /** `machineEpsilon`, the single-precision unit roundoff written as a literal. */
  const MachineEpsilon: real := 0.0000011920929
  /** The smallest tolerance used for any mesh. */
  const MinEpsilon: real := 0.01
  /** The defaults `BakeCollisionMesh` leaves to `Build`. */
  const RelativeThreshold: real := 0.01
  const MaxLeafSize: int := 32

  // ---------------------------------------------------------------------------
  // Tolerance

  /** The largest absolute coordinate on `axis`, starting from 0 as the C#
      `Vector3 max` does. */
  ghost function MaxAbs(vs: seq<Vec3>, axis: nat): real
    requires axis < 3
  {
    if |vs| == 0 then 0.0 else Max(MaxAbs(vs[..|vs| - 1], axis), Abs(Axis(vs[|vs| - 1], axis)))
  }

  /** `MaxAbs` is the least non-negative bound of the absolute coordinates. */
  lemma {:induction false} MaxAbsIsMax(vs: seq<Vec3>, axis: nat)
    requires axis < 3
    ensures MaxAbs(vs, axis) >= 0.0
    ensures forall i :: 0 <= i < |vs| ==> Abs(Axis(vs[i], axis)) <= MaxAbs(vs, axis)
    ensures MaxAbs(vs, axis) == 0.0 || exists i :: 0 <= i < |vs| && Abs(Axis(vs[i], axis)) == MaxAbs(vs, axis)
  {
    if |vs| > 0 {
      var pre := vs[..|vs| - 1];
      MaxAbsIsMax(pre, axis);
      assert forall i :: 0 <= i < |pre| ==> pre[i] == vs[i];
      if MaxAbs(pre, axis) != 0.0 && MaxAbs(vs, axis) == MaxAbs(pre, axis) {
        var i :| 0 <= i < |pre| && Abs(Axis(pre[i], axis)) == MaxAbs(pre, axis);
        assert Abs(Axis(vs[i], axis)) == MaxAbs(vs, axis);
      }
    }
  }

  /** The tolerance for a mesh: three unit roundoffs of the summed largest
      coordinates, but never below `MinEpsilon`. */
  ghost function Epsilon(vs: seq<Vec3>): real
  {
    Max(MinEpsilon, 3.0 * (MaxAbs(vs, 0) + MaxAbs(vs, 1) + MaxAbs(vs, 2)) * MachineEpsilon)
  }

  /** The loop over `vertices` and the clamp that follow it. */
  method ComputeEpsilon(vertices: seq<Vec3>) returns (epsilon: real)
    ensures epsilon == Epsilon(vertices)
    ensures epsilon >= MinEpsilon
  {
    var mx, my, mz := 0.0, 0.0, 0.0;
    for i := 0 to |vertices|
      invariant mx == MaxAbs(vertices[..i], 0) && my == MaxAbs(vertices[..i], 1) && mz == MaxAbs(vertices[..i], 2)
    {
      var v := vertices[i];
      assert vertices[..i + 1][..i] == vertices[..i];
      if mx < Abs(v.x) {
        mx := Abs(v.x);
      }
      if my < Abs(v.y) {
        my := Abs(v.y);
      }
      if mz < Abs(v.z) {
        mz := Abs(v.z);
      }
    }
    assert vertices[..|vertices|] == vertices;
    epsilon := 3.0 * (mx + my + mz) * MachineEpsilon;
    if epsilon < MinEpsilon {
      epsilon := MinEpsilon;
    }
  }

  // ---------------------------------------------------------------------------
  // Filtering and merging

  /** The triangle test on squares: for a length m >= 0 and eps > 0, `m < eps`
      iff `m*m < eps*eps`, and the area `|cross| / 2 < eps` iff
      `|cross|^2 < 4*eps^2`. */
  predicate Degenerate(a: Vec3, b: Vec3, c: Vec3, eps: real)
  {
    || SqrMagnitude(Cross(Sub3(b, a), Sub3(c, a))) < 4.0 * eps * eps
    || SqrMagnitude(Sub3(b, a)) < eps * eps
    || SqrMagnitude(Sub3(c, a)) < eps * eps
    || SqrMagnitude(Sub3(c, b)) < eps * eps
  }

  ghost predicate MeshValid(vertices: seq<Vec3>, triangles: seq<int>)
  {
    IndicesValid(vertices, triangles) && |triangles| % 3 == 0
  }

  ghost predicate TriDegenerate(vertices: seq<Vec3>, triangles: seq<int>, eps: real, t: nat)
    requires IndicesValid(vertices, triangles) && 3 * t + 2 < |triangles|
  {
    Degenerate(vertices[triangles[3 * t]], vertices[triangles[3 * t + 1]], vertices[triangles[3 * t + 2]], eps)
  }

  /** The corner positions of the surviving triangles among the first `n`, in order. */
  ghost function KeptCorners(vertices: seq<Vec3>, triangles: seq<int>, eps: real, n: nat): seq<Vec3>
    requires IndicesValid(vertices, triangles) && 3 * n <= |triangles|
  {
    if n == 0 then []
    else
      var t := n - 1;
      KeptCorners(vertices, triangles, eps, t) +
        (if TriDegenerate(vertices, triangles, eps, t) then []
         else [vertices[triangles[3 * t]], vertices[triangles[3 * t + 1]], vertices[triangles[3 * t + 2]]])
  }

  /** No corner survives exactly when every triangle is degenerate. */
  lemma {:induction false} KeptEmptyIff(vertices: seq<Vec3>, triangles: seq<int>, eps: real, n: nat)
    requires IndicesValid(vertices, triangles) && 3 * n <= |triangles|
    ensures |KeptCorners(vertices, triangles, eps, n)| % 3 == 0
    ensures KeptCorners(vertices, triangles, eps, n) == [] <==>
              forall t :: 0 <= t < n ==> TriDegenerate(vertices, triangles, eps, t)
  {
    if n > 0 {
      KeptEmptyIff(vertices, triangles, eps, n - 1);
    }
  }

  /** The corner positions of the surviving triangles of a whole mesh. */
  ghost function Survivors(vertices: seq<Vec3>, triangles: seq<int>): seq<Vec3>
    requires MeshValid(vertices, triangles)
  {
    KeptCorners(vertices, triangles, Epsilon(vertices), |triangles| / 3)
  }

  /** Every corner is replaced by the place of its position in `list`. */
  ghost predicate Renumbered(list: seq<Vec3>, processed: seq<int>, corners: seq<Vec3>)
  {
    && |processed| == |corners|
    && (forall c :: 0 <= c < |processed| ==> 0 <= processed[c] < |list| && list[processed[c]] == corners[c])
  }

  /** `processedVerticesList`, `processedVertices` and `processedTriangles`
      after reading `corners`: the list holds the distinct positions in
      first-seen order, the dictionary maps each to its place in the list, and
      the corners are renumbered through it. */
  ghost predicate DedupState(list: seq<Vec3>, dict: map<Vec3, int>, processed: seq<int>, corners: seq<Vec3>)
  {
    && list == Distinct(corners)
    && |dict| == |list|
    && Indexed(list, dict)
    && Renumbered(list, processed, corners)
  }

  lemma RenumberedAppend(list: seq<Vec3>, ext: seq<Vec3>, processed: seq<int>, corners: seq<Vec3>, id: int, x: Vec3)
    requires Renumbered(list, processed, corners)
    requires |list| <= |ext| && ext[..|list|] == list && 0 <= id < |ext| && ext[id] == x
    ensures Renumbered(ext, processed + [id], corners + [x])
  {
    forall c | 0 <= c < |processed| ensures ext[processed[c]] == list[processed[c]] {
    }
  }

  /** One corner more: a new position is appended with the next number. */
  lemma DedupStep(list: seq<Vec3>, dict: map<Vec3, int>, processed: seq<int>, corners: seq<Vec3>, x: Vec3)
    requires DedupState(list, dict, processed, corners)
    ensures x !in dict ==> DedupState(list + [x], dict[x := |list|], processed + [|list|], corners + [x])
    ensures x in dict ==> DedupState(list, dict, processed + [dict[x]], corners + [x])
  {
    DistinctSnoc(corners, x);
    DistinctProperties(corners);
    if x !in dict {
      IndexedAppend(list, dict, x);
      assert (list + [x])[..|list|] == list;
      RenumberedAppend(list, list + [x], processed, corners, |list|, x);
    } else {
      RenumberedAppend(list, list, processed, corners, dict[x], x);
    }
  }

  /** One pass of the `for (j < 3)` loop: the position `x` is looked up in
      the dictionary and appended to the list when it is new; `id` is its
      number. */
  method AddCorner(list: seq<Vec3>, dict: map<Vec3, int>, ghost processed: seq<int>, ghost corners: seq<Vec3>, x: Vec3)
    returns (list': seq<Vec3>, dict': map<Vec3, int>, id: int)
    requires DedupState(list, dict, processed, corners)
    ensures DedupState(list', dict', processed + [id], corners + [x])
    ensures x in dict ==> list' == list && dict' == dict && id == dict[x]
    ensures x !in dict ==> list' == list + [x] && dict' == dict[x := |list|] && id == |list|
  {
    DedupStep(list, dict, processed, corners, x);
    list', dict' := list, dict;
    if x !in dict' {
      dict' := dict'[x := |list'|];
      list' := list' + [x];
    }
    id := dict'[x];
  }

  /** The `for (j < 3)` loop: the three corners of one surviving triangle
      `triangles[i..i+3]` are looked up or added. */
  method MergeCorners(vertices: seq<Vec3>, triangles: seq<int>, i: nat, list: seq<Vec3>, dict: map<Vec3, int>,
                      processed: seq<int>, ghost corners: seq<Vec3>)
    returns (list': seq<Vec3>, dict': map<Vec3, int>, processed': seq<int>)
    requires IndicesValid(vertices, triangles) && i + 2 < |triangles|
    requires DedupState(list, dict, processed, corners)
    ensures DedupState(list', dict', processed',
                       corners + [vertices[triangles[i]], vertices[triangles[i + 1]], vertices[triangles[i + 2]]])
  {
    var newTriangle := [triangles[i], triangles[i + 1], triangles[i + 2]];
    ghost var pos := [vertices[triangles[i]], vertices[triangles[i + 1]], vertices[triangles[i + 2]]];
    list', dict', processed' := list, dict, processed;
    ghost var cs := corners;
    for j := 0 to 3
      invariant |cs| == |corners| + j
      invariant forall c :: 0 <= c < |cs| ==> cs[c] == (corners + pos)[c]
      invariant DedupState(list', dict', processed', cs)
    {
      var v := vertices[newTriangle[j]];
      var id;
      list', dict', id := AddCorner(list', dict', processed', cs, v);
      processed' := processed' + [id];
      cs := cs + [v];
    }
    assert cs == corners + pos;
  }

  /** The merge state after the first `n` triangles. */
  ghost predicate FilterState(vertices: seq<Vec3>, triangles: seq<int>, epsilon: real, n: nat,
                              list: seq<Vec3>, dict: map<Vec3, int>, processed: seq<int>)
  {
    IndicesValid(vertices, triangles) && 3 * n <= |triangles| &&
    DedupState(list, dict, processed, KeptCorners(vertices, triangles, epsilon, n))
  }

  /** One pass of the triangle loop: triangle `n`, at corner `i`, is kept and
      merged unless it is degenerate. */
  method FilterStep(vertices: seq<Vec3>, triangles: seq<int>, epsilon: real, i: nat, ghost n: nat,
                    list: seq<Vec3>, dict: map<Vec3, int>, processed: seq<int>)
    returns (list': seq<Vec3>, dict': map<Vec3, int>, processed': seq<int>)
    requires IndicesValid(vertices, triangles) && i == 3 * n && i + 2 < |triangles|
    requires FilterState(vertices, triangles, epsilon, n, list, dict, processed)
    ensures FilterState(vertices, triangles, epsilon, n + 1, list', dict', processed')
  {
    ghost var before := KeptCorners(vertices, triangles, epsilon, n);
    ghost var after := KeptCorners(vertices, triangles, epsilon, n + 1);
    assert DedupState(list, dict, processed, before);
    var a, b, c := vertices[triangles[i]], vertices[triangles[i + 1]], vertices[triangles[i + 2]];
    list', dict', processed' := list, dict, processed;
    if !Degenerate(a, b, c, epsilon) {
      list', dict', processed' := MergeCorners(vertices, triangles, i, list, dict, processed, before);
      assert after == before + [a, b, c];
    } else {
      assert after == before;
    }
  }

  /** The triangle loop of `BakeCollisionMesh`. */
  method FilterTriangles(vertices: seq<Vec3>, triangles: seq<int>, epsilon: real)
    returns (list: seq<Vec3>, dict: map<Vec3, int>, processed: seq<int>)
    requires MeshValid(vertices, triangles)
    ensures DedupState(list, dict, processed, KeptCorners(vertices, triangles, epsilon, |triangles| / 3))
  {
    ghost var m := |triangles| / 3;
    assert 3 * m == |triangles|;
    list, dict, processed := [], map[], [];
    var i := 0;
    ghost var n := 0;
    while i < |triangles|
      invariant i == 3 * n && n <= m
      invariant FilterState(vertices, triangles, epsilon, n, list, dict, processed)
    {
      list, dict, processed := FilterStep(vertices, triangles, epsilon, i, n, list, dict, processed);
      i, n := i + 3, n + 1;
    }
    assert n == m;
  }

  // ---------------------------------------------------------------------------
  // Sharing tables between colliders

  /** A dictionary from table contents to table numbers as `all_indices`,
      `all_vertices` and `all_bvhs` are: numbers 0 .. count-1, all different. */
  ghost predicate DenseIds<K>(d: map<K, int>)
  {
    && (forall k :: k in d ==> 0 <= d[k] < |d|)
    && (forall a, b :: a in d && b in d && a != b ==> d[a] != d[b])
  }

  /** `if (!dict.ContainsKey(key)) dict.Add(key, dict.Count)`, then the lookup. */
  method Intern<K>(d: map<K, int>, key: K) returns (d': map<K, int>, id: int)
    ensures key in d' && id == d'[key]
    ensures forall k :: k in d ==> k in d' && d'[k] == d[k]
    ensures forall k :: k in d' ==> k in d || k == key
    ensures DenseIds(d) ==> DenseIds(d')
    ensures key in d ==> |d'| == |d|
    ensures key !in d ==> |d'| == |d| + 1 && id == |d|
  {
    if key !in d {
      d' := d[key := |d|];
    } else {
      d' := d;
    }
    id := d'[key];
  }

  /** What `BakeCollisionMesh` returns; -1 everywhere for a mesh without a
      surviving triangle. `numTriangles` is `processedTriangles.Count`, the
      number of corner indices, three per triangle. */
  datatype BakedMeshInfo = BakedMeshInfo(indicesId: int, verticesId: int, numTriangles: int, numVertices: int, bvh: int)

  /** The three tables shared by all colliders of a scene. */
  datatype Tables = Tables(indices: map<seq<int>, int>, vertices: map<seq<Vec3>, int>, bvhs: map<FlatBVH, int>)

  ghost predicate TablesValid(t: Tables)
  {
    DenseIds(t.indices) && DenseIds(t.vertices) && DenseIds(t.bvhs)
  }

  /** Every entry of `t` is still in `t'` under the same number. */
  ghost predicate TablesExtend(t: Tables, t': Tables)
  {
    && (forall k :: k in t.indices ==> k in t'.indices && t'.indices[k] == t.indices[k])
    && (forall k :: k in t.vertices ==> k in t'.vertices && t'.vertices[k] == t.vertices[k])
    && (forall k :: k in t.bvhs ==> k in t'.bvhs && t'.bvhs[k] == t.bvhs[k])
  }

  /** The surviving triangles' leaves hold valid triangle numbers. */
  lemma LeavesValid(p: BuildParams, nodes: seq<BVHNode>)
    requires TreeSound(p, nodes)
    ensures forall i :: 0 <= i < |nodes| && nodes[i].Leaf? ==> TrisValid(p.triangles, nodes[i].tris)
  {
    forall i | 0 <= i < |nodes| && nodes[i].Leaf? ensures TrisValid(p.triangles, nodes[i].tris) {
      assert NodeSound(p, nodes, i);
    }
  }

  /** The index table of a mesh: every surviving corner replaced by the
      place of its position among the distinct surviving positions. */
  ghost function SharedIndices(vertices: seq<Vec3>, triangles: seq<int>): seq<int>
    requires MeshValid(vertices, triangles)
  {
    Numbering(Distinct(Survivors(vertices, triangles)), Survivors(vertices, triangles))
  }

  /** The merge state is determined by the corners it has read: the list is
      their first-seen order and the renumbered corners are `Numbering`. */
  lemma DedupNumbering(list: seq<Vec3>, dict: map<Vec3, int>, processed: seq<int>, corners: seq<Vec3>)
    requires DedupState(list, dict, processed, corners)
    ensures processed == Numbering(Distinct(corners), corners)
    ensures |processed| == |corners| && |dict| == |Distinct(corners)|
    ensures IndicesValid(list, processed)
  {
    DistinctProperties(corners);
    NumberingUnique(list, processed, corners);
  }

  /** The flattened hierarchy `flat` of the mesh `vertices`/`triangles`,
      read through the builder's node list `nodes`: every node's box is the
      box of the triangles under it, the leaves hold every triangle exactly
      once, each leaf and interior entry is its node (an interior child
      always an earlier entry), and the root is the last node, the last
      interior entry when it is not a leaf, with every triangle under it. */
  ghost predicate Hierarchy(vertices: seq<Vec3>, triangles: seq<int>, flat: FlatBVH, nodes: seq<BVHNode>)
    requires IndicesValid(vertices, triangles)
  {
    && 0 < |nodes|
    && (forall i :: 0 <= i < |nodes| ==>
          TrisValid(triangles, TrisOf(nodes, i)) && nodes[i].bounds == BoundsOf(vertices, triangles, TrisOf(nodes, i)))
    && multiset(ConcatTris(nodes, Positions(nodes, true))) == multiset(Range(|triangles| / 3))
    && multiset(TrisOf(nodes, |nodes| - 1)) == multiset(Range(|triangles| / 3))
    && |flat.leafs| == |Positions(nodes, true)| && |flat.interms| == |Positions(nodes, false)|
    && |flat.leafs| == |flat.interms| + 1
    && (forall k :: 0 <= k < |flat.leafs| ==> LeafEntry(nodes, triangles, k, flat.leafs[k]))
    && (forall k :: 0 <= k < |flat.interms| ==> InteriorEntry(nodes, k, flat.interms[k]))
    && flat.root == (if nodes[|nodes| - 1].Leaf? then RootLeaf else RootInterms(|flat.interms|))
    && (nodes[|nodes| - 1].Interior? ==> 0 < |flat.interms| && Positions(nodes, false)[|flat.interms| - 1] == |nodes| - 1)
  }

  /** `Build`, the node lists and the `BVH_LEAF_TRIS`/`BVH_LEAFS`/`BVH_INTERMS`
      tables for the merged mesh; `nodes` is the builder's node list. */
  method BakeHierarchy(list: seq<Vec3>, processed: seq<int>) returns (flat: FlatBVH, ghost nodes: seq<BVHNode>)
    requires IndicesValid(list, processed)
    ensures |flat.leafs| == |flat.interms| + 1
    ensures flat.root == RootLeaf || flat.root == RootInterms(|flat.interms|)
    ensures Hierarchy(list, processed, flat, nodes)
  {
    var builder := new BVHBuilder();
    var root := builder.Build(list, processed, RelativeThreshold, MaxLeafSize);
    nodes := builder.nodes;
    ghost var p := builder.Params();
    SoundChildrenEarlier(p, nodes);
    LeavesValid(p, nodes);
    LeafArrayTris(nodes);
    flat := Flatten(builder.nodes, root, processed);
    forall i | 0 <= i < |nodes|
      ensures TrisValid(processed, TrisOf(nodes, i)) && nodes[i].bounds == BoundsOf(list, processed, TrisOf(nodes, i))
    {
      assert NodeSound(p, nodes, i);
    }
  }

  /** `BakeCollisionMesh`. */
  method BakeCollisionMesh(vertices: seq<Vec3>, triangles: seq<int>, tables: Tables)
    returns (info: BakedMeshInfo, tables': Tables)
    requires MeshValid(vertices, triangles) && TablesValid(tables)
    ensures info.bvh == -1 <==> Survivors(vertices, triangles) == []
    ensures info.bvh == -1 ==> info == BakedMeshInfo(-1, -1, -1, -1, -1) && tables' == tables
    ensures info.bvh != -1 ==> info.numTriangles == |Survivors(vertices, triangles)|
    ensures info.bvh != -1 ==> info.numVertices == |Distinct(Survivors(vertices, triangles))|
    ensures Recorded(vertices, triangles, info, tables')
    ensures TablesExtend(tables, tables') && TablesValid(tables')
  {
    var epsilon := ComputeEpsilon(vertices);
    var list, dict, processed := FilterTriangles(vertices, triangles, epsilon);
    ghost var kept := Survivors(vertices, triangles);
    KeptEmptyIff(vertices, triangles, epsilon, |triangles| / 3);
    DedupNumbering(list, dict, processed, kept);
    if |processed| == 0 {
      return BakedMeshInfo(-1, -1, -1, -1, -1), tables;
    }
    var flat, nodes := BakeHierarchy(list, processed);
    var bvhs, bvhId := Intern(tables.bvhs, flat);
    var indices, indicesId := Intern(tables.indices, processed);
    var verts, verticesId := Intern(tables.vertices, list);
    tables' := Tables(indices, verts, bvhs);
    info := BakedMeshInfo(indicesId, verticesId, |processed|, |dict|, bvhId);
  }

  /** A collider's result names its tables: the index and vertex numbers are
      those of its `SharedIndices` and distinct positions, and its hierarchy
      number is that of a `Hierarchy` of those positions and indices. */
  ghost predicate Recorded(vertices: seq<Vec3>, triangles: seq<int>, info: BakedMeshInfo, t: Tables)
    requires MeshValid(vertices, triangles)
  {
    info.bvh != -1 ==>
      && SharedIndices(vertices, triangles) in t.indices
      && info.indicesId == t.indices[SharedIndices(vertices, triangles)]
      && Distinct(Survivors(vertices, triangles)) in t.vertices
      && info.verticesId == t.vertices[Distinct(Survivors(vertices, triangles))]
      && NamesHierarchy(Distinct(Survivors(vertices, triangles)), SharedIndices(vertices, triangles), info.bvh, t.bvhs)
  }

  /** `id` numbers, in `bvhs`, a hierarchy of the mesh `list`/`indices`. */
  ghost predicate NamesHierarchy(list: seq<Vec3>, indices: seq<int>, id: int, bvhs: map<FlatBVH, int>)
  {
    && IndicesValid(list, indices)
    && exists flat: FlatBVH, nodes: seq<BVHNode> :: flat in bvhs && bvhs[flat] == id && Hierarchy(list, indices, flat, nodes)
  }

  /** What a collider's result names stays named as the tables grow. */
  lemma RecordedExtend(vertices: seq<Vec3>, triangles: seq<int>, info: BakedMeshInfo, t: Tables, t': Tables)
    requires MeshValid(vertices, triangles) && Recorded(vertices, triangles, info, t) && TablesExtend(t, t')
    ensures Recorded(vertices, triangles, info, t')
  {
    if info.bvh != -1 {
      var list, indices := Distinct(Survivors(vertices, triangles)), SharedIndices(vertices, triangles);
      assert NamesHierarchy(list, indices, info.bvh, t.bvhs);
      var b: FlatBVH, nodes: seq<BVHNode> :| b in t.bvhs && t.bvhs[b] == info.bvh && Hierarchy(list, indices, b, nodes);
      assert t'.bvhs[b] == info.bvh;
    }
  }

  /** The rejections after the first `k` colliders: in increasing order,
      exactly the colliders reported -1, which are exactly those without a
      surviving triangle. */
  ghost predicate Rejections(meshes: seq<(seq<Vec3>, seq<int>)>, k: nat, infos: seq<BakedMeshInfo>, rejected: seq<nat>)
    requires k <= |meshes| && forall j :: 0 <= j < |meshes| ==> MeshValid(meshes[j].0, meshes[j].1)
  {
    && |infos| == k
    && (forall r :: r in rejected ==> r < k)
    && (forall j :: 0 <= j < k ==> (j in rejected <==> infos[j].bvh == -1))
    && (forall j :: 0 <= j < k ==> (j in rejected <==> Survivors(meshes[j].0, meshes[j].1) == []))
    && (forall a, b :: 0 <= a < b < |rejected| ==> rejected[a] < rejected[b])
  }

  /** The first `k` results name their tables in `tables`. */
  ghost predicate AllRecorded(meshes: seq<(seq<Vec3>, seq<int>)>, k: nat, infos: seq<BakedMeshInfo>, tables: Tables)
    requires k <= |meshes| && |infos| == k && forall j :: 0 <= j < |meshes| ==> MeshValid(meshes[j].0, meshes[j].1)
  {
    forall j :: 0 <= j < k ==> Recorded(meshes[j].0, meshes[j].1, infos[j], tables)
  }

  lemma RejectionsStep(meshes: seq<(seq<Vec3>, seq<int>)>, k: nat, infos: seq<BakedMeshInfo>,
                       rejected: seq<nat>, info: BakedMeshInfo)
    requires k < |meshes| && forall j :: 0 <= j < |meshes| ==> MeshValid(meshes[j].0, meshes[j].1)
    requires Rejections(meshes, k, infos, rejected)
    requires info.bvh == -1 <==> Survivors(meshes[k].0, meshes[k].1) == []
    ensures Rejections(meshes, k + 1, infos + [info], if info.bvh == -1 then rejected + [k] else rejected)
  {
    var infos', rejected' := infos + [info], if info.bvh == -1 then rejected + [k] else rejected;
    forall j | 0 <= j < k + 1 ensures j in rejected' <==> infos'[j].bvh == -1 {
      if j < k {
        assert j in rejected' <==> j in rejected;
      }
    }
    forall j | 0 <= j < k + 1
      ensures j in rejected' <==> Survivors(meshes[j].0, meshes[j].1) == []
    {
      if j < k {
        assert j in rejected' <==> j in rejected;
      }
    }
    forall a, b | 0 <= a < b < |rejected'| ensures rejected'[a] < rejected'[b] {
      if b == |rejected| {
        assert rejected'[a] in rejected;
      }
    }
  }

  lemma RecordedStep(meshes: seq<(seq<Vec3>, seq<int>)>, k: nat, infos: seq<BakedMeshInfo>,
                     tables: Tables, info: BakedMeshInfo, tables': Tables)
    requires k < |meshes| && |infos| == k && forall j :: 0 <= j < |meshes| ==> MeshValid(meshes[j].0, meshes[j].1)
    requires AllRecorded(meshes, k, infos, tables)
    requires Recorded(meshes[k].0, meshes[k].1, info, tables') && TablesExtend(tables, tables')
    ensures AllRecorded(meshes, k + 1, infos + [info], tables')
  {
    var infos' := infos + [info];
    forall j | 0 <= j < k + 1 ensures Recorded(meshes[j].0, meshes[j].1, infos'[j], tables') {
      if j < k {
        RecordedExtend(meshes[j].0, meshes[j].1, infos[j], tables, tables');
      }
    }
  }

  /** The mesh-collider loop of `ProcessPhysics`: every collider is baked
      against the scene's tables, which start empty, and one whose bake
      reports -1 is rejected. */
  method ProcessMeshColliders(meshes: seq<(seq<Vec3>, seq<int>)>)
    returns (infos: seq<BakedMeshInfo>, rejected: seq<nat>, tables: Tables)
    requires forall k :: 0 <= k < |meshes| ==> MeshValid(meshes[k].0, meshes[k].1)
    ensures |infos| == |meshes|
    ensures forall k :: 0 <= k < |meshes| ==> (k in rejected <==> infos[k].bvh == -1)
    ensures forall k :: 0 <= k < |meshes| ==> (k in rejected <==> Survivors(meshes[k].0, meshes[k].1) == [])
    ensures forall k :: 0 <= k < |meshes| ==> Recorded(meshes[k].0, meshes[k].1, infos[k], tables)
    ensures forall a, b :: 0 <= a < b < |rejected| ==> rejected[a] < rejected[b]
    ensures TablesValid(tables)
  {
    infos, rejected, tables := [], [], Tables(map[], map[], map[]);
    for k := 0 to |meshes|
      invariant Rejections(meshes, k, infos, rejected)
      invariant AllRecorded(meshes, k, infos, tables) && TablesValid(tables)
    {
      var info, next := BakeCollisionMesh(meshes[k].0, meshes[k].1, tables);
      RejectionsStep(meshes, k, infos, rejected, info);
      RecordedStep(meshes, k, infos, tables, info, next);
      if info.bvh == -1 {
        rejected := rejected + [k];
      }
      infos := infos + [info];
      tables := next;
    }
  }

  /** Two accepted colliders share an index table exactly when their
      renumbered corners are equal, and a vertex table exactly when their
      distinct positions are. */
  lemma SharedTablesIff(va: seq<Vec3>, ta: seq<int>, ia: BakedMeshInfo,
                        vb: seq<Vec3>, tb: seq<int>, ib: BakedMeshInfo, t: Tables)
    requires MeshValid(va, ta) && MeshValid(vb, tb) && TablesValid(t)
    requires Recorded(va, ta, ia, t) && Recorded(vb, tb, ib, t)
    requires ia.bvh != -1 && ib.bvh != -1
    ensures ia.indicesId == ib.indicesId <==> SharedIndices(va, ta) == SharedIndices(vb, tb)
    ensures ia.verticesId == ib.verticesId <==> Distinct(Survivors(va, ta)) == Distinct(Survivors(vb, tb))
  {
  }
}

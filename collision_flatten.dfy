/** The second half of `BakeCollisionMesh`: the builder's node list is split
    into a leaf array and an interior array, each keeping list order, and every
    interior node names its children by their position in one of the two. */
module CollisionFlatten {
  import opened Geometry
  import opened CollisionBake

  /** Every interior node's children come earlier in the list: what the
      post-order append of `BuildRecursive` guarantees. */
  ghost predicate ChildrenEarlier(nodes: seq<BVHNode>)
  {
    forall i :: 0 <= i < |nodes| && nodes[i].Interior? ==> nodes[i].left < i && nodes[i].right < i
  }

  lemma SoundChildrenEarlier(p: BuildParams, nodes: seq<BVHNode>)
    requires TreeSound(p, nodes)
    ensures ChildrenEarlier(nodes)
  {
    forall i | 0 <= i < |nodes| && nodes[i].Interior? ensures nodes[i].left < i && nodes[i].right < i {
      assert NodeSound(p, nodes, i);
    }
  }

  /** `nodes.Where(node => node.IsLeaf)` (or `!node.IsLeaf`), as positions in
      the node list. */
  function Positions(nodes: seq<BVHNode>, leaf: bool): seq<nat>
  {
    if |nodes| == 0 then []
    else Positions(nodes[..|nodes| - 1], leaf) + (if nodes[|nodes| - 1].Leaf? == leaf then [|nodes| - 1] else [])
  }

  /** The filter keeps exactly the nodes of the requested kind, in list order. */
  lemma {:induction false} PositionsProperties(nodes: seq<BVHNode>, leaf: bool)
    ensures forall k :: 0 <= k < |Positions(nodes, leaf)| ==>
      Positions(nodes, leaf)[k] < |nodes| && nodes[Positions(nodes, leaf)[k]].Leaf? == leaf
    ensures forall a, b :: 0 <= a < b < |Positions(nodes, leaf)| ==> Positions(nodes, leaf)[a] < Positions(nodes, leaf)[b]
    ensures forall i :: 0 <= i < |nodes| && nodes[i].Leaf? == leaf ==> i in Positions(nodes, leaf)
  {
    if |nodes| > 0 {
      var n := |nodes| - 1;
      var pre := nodes[..n];
      PositionsProperties(pre, leaf);
      var r, r0 := Positions(nodes, leaf), Positions(pre, leaf);
      assert r == r0 + (if nodes[n].Leaf? == leaf then [n] else []);
      forall k | 0 <= k < |r0| ensures r[k] == r0[k] && r0[k] < n && nodes[r0[k]] == pre[r0[k]] {
      }
      forall i | 0 <= i < |nodes| && nodes[i].Leaf? == leaf ensures i in r {
        if i < n {
          assert pre[i] == nodes[i];
          assert i in r0;
        }
      }
    }
  }

  /** As many nodes of each kind as the counts say. */
  lemma {:induction false} PositionsCount(nodes: seq<BVHNode>)
    ensures |Positions(nodes, true)| == LeafCount(nodes)
    ensures |Positions(nodes, false)| == InteriorCount(nodes)
  {
    if |nodes| > 0 {
      PositionsCount(nodes[..|nodes| - 1]);
    }
  }

  /** The triangles of the leaves at positions `ps`, in that order. */
  ghost function ConcatTris(nodes: seq<BVHNode>, ps: seq<nat>): seq<int>
  {
    if |ps| == 0 then []
    else
      var i := ps[|ps| - 1];
      ConcatTris(nodes, ps[..|ps| - 1]) + (if i < |nodes| && nodes[i].Leaf? then nodes[i].tris else [])
  }

  lemma {:induction false} ConcatTrisPrefix(nodes: seq<BVHNode>, n: nat, ps: seq<nat>)
    requires n <= |nodes|
    requires forall k :: 0 <= k < |ps| ==> ps[k] < n
    ensures ConcatTris(nodes[..n], ps) == ConcatTris(nodes, ps)
  {
    if |ps| > 0 {
      ConcatTrisPrefix(nodes, n, ps[..|ps| - 1]);
    }
  }

  /** Read leaf by leaf, the leaf array lists the same triangles as the node
      list; with `Build`'s promise, every triangle is in exactly one leaf. */
  lemma {:induction false} LeafArrayTris(nodes: seq<BVHNode>)
    ensures ConcatTris(nodes, Positions(nodes, true)) == LeafConcat(nodes)
  {
    if |nodes| > 0 {
      var n := |nodes| - 1;
      var pre := nodes[..n];
      LeafArrayTris(pre);
      PositionsProperties(pre, true);
      var ps := Positions(pre, true);
      ConcatTrisPrefix(nodes, n, ps);
      assert ConcatTris(nodes, ps) == LeafConcat(pre);
      if nodes[n].Leaf? {
        assert Positions(nodes, true) == ps + [n];
        assert (ps + [n])[..|ps|] == ps;
        assert ConcatTris(nodes, ps + [n]) == ConcatTris(nodes, ps) + nodes[n].tris;
      } else {
        assert Positions(nodes, true) == ps;
      }
    }
  }

  /** A child reference of a flattened interior node: `&BVH_LEAF(n)` or `&BVH_INTERM(n)`. */
  datatype ChildRef = LeafRef(leaf: nat) | IntermRef(interm: nat)

  /** A leaf: its box and `BVH_LEAF_TRIS`, the corner indices of its triangles
      followed by -1. */
  datatype FlatLeaf = FlatLeaf(bounds: AABB, corners: seq<int>)

  datatype FlatInterm = FlatInterm(bounds: AABB, left: ChildRef, right: ChildRef)

  /** `BVH()`: the first leaf when the root is a leaf, otherwise the interior
      array and its length, whose last entry the runtime takes as the root. */
  datatype FlatRoot = RootLeaf | RootInterms(count: nat)

  datatype FlatBVH = FlatBVH(leafs: seq<FlatLeaf>, interms: seq<FlatInterm>, root: FlatRoot)

  /** `corners` lists, for each triangle of `tris`, its three corners, then -1. */
  ghost predicate CornerList(triangles: seq<int>, tris: seq<int>, corners: seq<int>)
    requires TrisValid(triangles, tris)
  {
    && |corners| == 3 * |tris| + 1
    && corners[3 * |tris|] == -1
    && forall k :: 0 <= k < |tris| ==>
         corners[3 * k] == triangles[3 * tris[k]] && corners[3 * k + 1] == triangles[3 * tris[k] + 1]
         && corners[3 * k + 2] == triangles[3 * tris[k] + 2]
  }

  /** The `BVH_LEAF_TRIS` loop of one leaf. */
  method LeafCorners(triangles: seq<int>, tris: seq<int>) returns (corners: seq<int>)
    requires TrisValid(triangles, tris)
    ensures CornerList(triangles, tris, corners)
  {
    corners := [];
    for triNum := 0 to |tris|
      invariant |corners| == 3 * triNum
      invariant forall k :: 0 <= k < triNum ==>
        corners[3 * k] == triangles[3 * tris[k]] && corners[3 * k + 1] == triangles[3 * tris[k] + 1]
        && corners[3 * k + 2] == triangles[3 * tris[k] + 2]
    {
      var idx := tris[triNum] * 3;
      corners := corners + [triangles[idx + 0], triangles[idx + 1], triangles[idx + 2]];
    }
    corners := corners + [-1];
  }

  /** `ref` names node `c`: a leaf by its place among the leaves, an interior
      node by its place among the interior nodes. */
  ghost predicate RefersTo(nodes: seq<BVHNode>, ref: ChildRef, c: nat)
    requires c < |nodes|
  {
    && (ref.LeafRef? <==> nodes[c].Leaf?)
    && (ref.LeafRef? ==> ref.leaf < |Positions(nodes, true)| && Positions(nodes, true)[ref.leaf] == c)
    && (ref.IntermRef? ==> ref.interm < |Positions(nodes, false)| && Positions(nodes, false)[ref.interm] == c)
  }

  /** `leafIndex`/`interimIndex` after the first `n` entries of `ps`: each
      node position maps to its place in `ps`. */
  ghost predicate IndexOf(index: map<nat, nat>, ps: seq<nat>, n: nat)
    requires n <= |ps|
  {
    && (forall c :: c in index <==> c in ps[..n])
    && (forall k :: 0 <= k < n ==> ps[k] in index && index[ps[k]] == k)
  }

  lemma IndexStep(index: map<nat, nat>, ps: seq<nat>, n: nat)
    requires n < |ps| && IndexOf(index, ps, n)
    requires forall a :: 0 <= a < n ==> ps[a] != ps[n]
    ensures IndexOf(index[ps[n] := n], ps, n + 1)
  {
    assert ps[..n + 1] == ps[..n] + [ps[n]];
  }

  /** The node at place `n` of the filter, and that it is not an earlier one. */
  lemma PositionAt(nodes: seq<BVHNode>, leaf: bool, n: nat)
    requires n < |Positions(nodes, leaf)|
    ensures Positions(nodes, leaf)[n] < |nodes| && nodes[Positions(nodes, leaf)[n]].Leaf? == leaf
    ensures forall a :: 0 <= a < n ==> Positions(nodes, leaf)[a] != Positions(nodes, leaf)[n]
  {
    PositionsProperties(nodes, leaf);
  }

  /** `BakeCollisionMesh`'s flattening of `bvh.nodes`, whose root is the last node. */
  method Flatten(nodes: seq<BVHNode>, root: nat, triangles: seq<int>) returns (f: FlatBVH)
    requires ChildrenEarlier(nodes) && root == |nodes| - 1
    requires forall i :: 0 <= i < |nodes| && nodes[i].Leaf? ==> TrisValid(triangles, nodes[i].tris)
    ensures |f.leafs| == |Positions(nodes, true)| == LeafCount(nodes)
    ensures |f.interms| == |Positions(nodes, false)| == InteriorCount(nodes)
    ensures forall k :: 0 <= k < |f.leafs| ==> LeafEntry(nodes, triangles, k, f.leafs[k])
    ensures forall k :: 0 <= k < |f.interms| ==> InteriorEntry(nodes, k, f.interms[k])
    ensures f.root == if nodes[root].Leaf? then RootLeaf else RootInterms(|f.interms|)
    ensures nodes[root].Interior? ==> |f.interms| > 0 && Positions(nodes, false)[|f.interms| - 1] == root
  {
    PositionsProperties(nodes, true);
    PositionsProperties(nodes, false);
    PositionsCount(nodes);
    var flatLeafs, leafIndex := FlattenLeaves(nodes, triangles);
    var flatInterms := FlattenInteriors(nodes, leafIndex);
    var rootRef := if nodes[root].Leaf? then RootLeaf else RootInterms(|flatInterms|);
    if nodes[root].Interior? {
      RootIsLastInterior(nodes, root);
    }
    f := FlatBVH(flatLeafs, flatInterms, rootRef);
  }

  /** The loop over `leafs`: `leafIndex` and the `BVH_LEAFS` entries. */
  method FlattenLeaves(nodes: seq<BVHNode>, triangles: seq<int>)
    returns (flatLeafs: seq<FlatLeaf>, leafIndex: map<nat, nat>)
    requires forall i :: 0 <= i < |nodes| && nodes[i].Leaf? ==> TrisValid(triangles, nodes[i].tris)
    ensures |flatLeafs| == |Positions(nodes, true)|
    ensures IndexOf(leafIndex, Positions(nodes, true), |Positions(nodes, true)|)
    ensures forall k :: 0 <= k < |flatLeafs| ==> LeafEntry(nodes, triangles, k, flatLeafs[k])
  {
    var leafs := Positions(nodes, true);
    flatLeafs := [];
    leafIndex := map[];
    for leafNum := 0 to |leafs|
      invariant |flatLeafs| == leafNum && IndexOf(leafIndex, leafs, leafNum)
      invariant forall k :: 0 <= k < leafNum ==> LeafEntry(nodes, triangles, k, flatLeafs[k])
    {
      PositionAt(nodes, true, leafNum);
      var leaf := nodes[leafs[leafNum]];
      IndexStep(leafIndex, leafs, leafNum);
      leafIndex := leafIndex[leafs[leafNum] := leafNum];
      var corners := LeafCorners(triangles, leaf.tris);
      ghost var prev := flatLeafs;
      flatLeafs := flatLeafs + [FlatLeaf(leaf.bounds, corners)];
      assert LeafEntry(nodes, triangles, leafNum, flatLeafs[leafNum]);
      forall k | 0 <= k < leafNum ensures LeafEntry(nodes, triangles, k, flatLeafs[k]) {
        assert flatLeafs[k] == prev[k];
      }
    }
  }

  /** Entry `k` of `BVH_LEAFS` is the `k`-th leaf: its box and its corner list. */
  ghost predicate LeafEntry(nodes: seq<BVHNode>, triangles: seq<int>, k: nat, e: FlatLeaf)
  {
    var ps := Positions(nodes, true);
    && k < |ps| && ps[k] < |nodes|
    && var node := nodes[ps[k]];
    && node.Leaf? && e.bounds == node.bounds
    && TrisValid(triangles, node.tris) && CornerList(triangles, node.tris, e.corners)
  }

  /** The loop over `interms`: `interimIndex` and the `BVH_INTERMS` entries. */
  method FlattenInteriors(nodes: seq<BVHNode>, leafIndex: map<nat, nat>) returns (flatInterms: seq<FlatInterm>)
    requires ChildrenEarlier(nodes)
    requires IndexOf(leafIndex, Positions(nodes, true), |Positions(nodes, true)|)
    ensures |flatInterms| == |Positions(nodes, false)|
    ensures forall k :: 0 <= k < |flatInterms| ==> InteriorEntry(nodes, k, flatInterms[k])
  {
    var interms := Positions(nodes, false);
    flatInterms := [];
    var interimIndex: map<nat, nat> := map[];
    for intermNum := 0 to |interms|
      invariant |flatInterms| == intermNum && IndexOf(interimIndex, interms, intermNum)
      invariant forall k :: 0 <= k < intermNum ==> InteriorEntry(nodes, k, flatInterms[k])
    {
      PositionAt(nodes, false, intermNum);
      var i := interms[intermNum];
      var interm := nodes[i];
      IndexStep(interimIndex, interms, intermNum);
      interimIndex := interimIndex[i := intermNum];
      var left := ResolveChild(nodes, leafIndex, interimIndex, interm.left, intermNum);
      var right := ResolveChild(nodes, leafIndex, interimIndex, interm.right, intermNum);
      ghost var prev := flatInterms;
      flatInterms := flatInterms + [FlatInterm(interm.bounds, left, right)];
      assert InteriorEntry(nodes, intermNum, flatInterms[intermNum]);
      forall k | 0 <= k < intermNum ensures InteriorEntry(nodes, k, flatInterms[k]) {
        assert flatInterms[k] == prev[k];
      }
    }
  }

  /** Entry `k` of `BVH_INTERMS` is the `k`-th interior node: its box, and
      references to its children, an interior child always an earlier entry. */
  ghost predicate InteriorEntry(nodes: seq<BVHNode>, k: nat, e: FlatInterm)
  {
    var ps := Positions(nodes, false);
    && k < |ps| && ps[k] < |nodes|
    && var node := nodes[ps[k]];
    && node.Interior? && e.bounds == node.bounds && node.left < |nodes| && node.right < |nodes|
    && RefersTo(nodes, e.left, node.left) && RefersTo(nodes, e.right, node.right)
    && (e.left.IntermRef? ==> e.left.interm < k)
    && (e.right.IntermRef? ==> e.right.interm < k)
  }

  /** The child lookup: `leafIndex[child]` if the child is a leaf, else
      `interimIndex[child]`, which holds because the child is an earlier
      interior node. */
  method ResolveChild(nodes: seq<BVHNode>, leafIndex: map<nat, nat>, interimIndex: map<nat, nat>, c: nat,
                      intermNum: nat) returns (ref: ChildRef)
    requires intermNum < |Positions(nodes, false)| && c < Positions(nodes, false)[intermNum]
    requires IndexOf(leafIndex, Positions(nodes, true), |Positions(nodes, true)|)
    requires IndexOf(interimIndex, Positions(nodes, false), intermNum + 1)
    ensures c < |nodes| && RefersTo(nodes, ref, c)
    ensures ref.IntermRef? ==> ref.interm < intermNum
  {
    PositionAt(nodes, false, intermNum);
    assert c < |nodes|;
    var k := RankOf(nodes, nodes[c].Leaf?, c);
    if c in leafIndex {
      LeafKeys(nodes, leafIndex, c);
      ref := LeafRef(leafIndex[c]);
    } else {
      LeafKeys(nodes, leafIndex, c);
      InteriorRank(nodes, k, intermNum);
      ref := IntermRef(interimIndex[c]);
    }
  }

  /** Node `c` sits at some place `k` of the filter for its kind. */
  lemma RankOf(nodes: seq<BVHNode>, leaf: bool, c: nat) returns (k: nat)
    requires c < |nodes| && nodes[c].Leaf? == leaf
    ensures k < |Positions(nodes, leaf)| && Positions(nodes, leaf)[k] == c
  {
    PositionsProperties(nodes, leaf);
    k :| 0 <= k < |Positions(nodes, leaf)| && Positions(nodes, leaf)[k] == c;
  }

  /** The keys of the finished `leafIndex` are exactly the leaves. */
  lemma LeafKeys(nodes: seq<BVHNode>, leafIndex: map<nat, nat>, c: nat)
    requires c < |nodes| && IndexOf(leafIndex, Positions(nodes, true), |Positions(nodes, true)|)
    ensures c in leafIndex <==> nodes[c].Leaf?
    ensures nodes[c].Leaf? ==> leafIndex[c] < |Positions(nodes, true)| && Positions(nodes, true)[leafIndex[c]] == c
  {
    var ps := Positions(nodes, true);
    PositionsProperties(nodes, true);
    assert ps[..|ps|] == ps;
    if nodes[c].Leaf? {
      var k :| 0 <= k < |ps| && ps[k] == c;
    }
  }

  /** An interior node before the `n`-th interior node comes earlier in the filter. */
  lemma InteriorRank(nodes: seq<BVHNode>, k: nat, n: nat)
    requires k < |Positions(nodes, false)| && n < |Positions(nodes, false)|
    requires Positions(nodes, false)[k] < Positions(nodes, false)[n]
    ensures k < n
  {
    PositionsProperties(nodes, false);
  }

  /** The root, last in the node list, is also the last interior node. */
  lemma RootIsLastInterior(nodes: seq<BVHNode>, root: nat)
    requires root == |nodes| - 1 && nodes[root].Interior?
    ensures |Positions(nodes, false)| > 0 && Positions(nodes, false)[|Positions(nodes, false)| - 1] == root
  {
    PositionsProperties(nodes, false);
    var ps := Positions(nodes, false);
    assert root in ps;
  }
}

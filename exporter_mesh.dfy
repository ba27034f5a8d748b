/** The exporter's mesh replication encoder. A Unity mesh has one index list
    per submesh and one material per submesh; the runtime applies a single UV
    scale/offset per vertex, so the exporter groups submeshes by their
    material's (valid, scale, offset) triple and gives every group its own copy
    ("lump") of the vertices it uses, with UVs already transformed. */
module DreamMeshExport {
  import opened Wrappers
  import opened Geometry
  import opened SeqUtil

  /** A material's main texture scale and offset; `valid` is false for a
      missing material. Equality is value equality on all three fields. */
  datatype TexScaleOffset = TexScaleOffset(valid: bool, scale: Vec2, offset: Vec2)

  datatype Material = Material(mainTextureScale: Vec2, mainTextureOffset: Vec2)

  /** A Unity mesh. `handle` stands for the object's identity, which is what
      `mesh == other.mesh` compares; `submeshes[s]` is `GetIndices(s)`. */
  datatype Mesh = Mesh(handle: nat, vertices: seq<Vec3>, uv: seq<Vec2>, colors: seq<Color32>,
                       normals: seq<Vec3>, submeshes: seq<seq<int>>)

  /** What Unity guarantees of every mesh: indices address vertices, and each
      per-vertex attribute array is either absent or one entry per vertex. */
  ghost predicate WellFormedMesh(m: Mesh)
  {
    && (forall s, k :: 0 <= s < |m.submeshes| && 0 <= k < |m.submeshes[s]| ==>
          0 <= m.submeshes[s][k] < |m.vertices|)
    && (|m.uv| == 0 || |m.uv| == |m.vertices|)
    && (|m.colors| == 0 || |m.colors| == |m.vertices|)
    && (|m.normals| == 0 || |m.normals| == |m.vertices|)
  }

  /** A mesh prepared for export: `tso[s]` is submesh s's key, `groupKeys` the
      distinct keys in first-occurrence order (`tsoIndexLinear`), and
      `groupMembers[k]` the submeshes with key k (`tsoIndexMateralNum`). */
  datatype DreamMesh = DreamMesh(mesh: Mesh, tso: seq<TexScaleOffset>, groupKeys: seq<TexScaleOffset>,
                                 groupMembers: map<TexScaleOffset, seq<nat>>)

  datatype MeshError = SubmeshMaterialMismatch | NoSubmeshes

  // ---------------------------------------------------------------------------
  // First-occurrence order and index lists

  /** The positions of `s` holding `k`, in increasing order. */
  ghost function IndicesOf<T>(s: seq<T>, k: T): seq<nat>
  {
    if |s| == 0 then []
    else IndicesOf(s[..|s| - 1], k) + (if s[|s| - 1] == k then [|s| - 1] else [])
  }

  lemma {:induction false} IndicesOfProperties<T>(s: seq<T>, k: T)
    ensures forall i: int :: i in IndicesOf(s, k) <==> 0 <= i < |s| && s[i] == k
    ensures forall a, b :: 0 <= a < b < |IndicesOf(s, k)| ==> IndicesOf(s, k)[a] < IndicesOf(s, k)[b]
    ensures forall j :: 0 <= j < |IndicesOf(s, k)| ==> IndicesOf(s, k)[j] < |s| && s[IndicesOf(s, k)[j]] == k
  {
    if |s| > 0 {
      var p := s[..|s| - 1];
      IndicesOfProperties(p, k);
      assert forall i :: 0 <= i < |p| ==> p[i] == s[i];
    }
  }

  lemma {:induction false} IndicesOfAbsent<T>(s: seq<T>, k: T)
    requires k !in s
    ensures IndicesOf(s, k) == []
  {
    if |s| > 0 {
      IndicesOfAbsent(s[..|s| - 1], k);
    }
  }

  // ---------------------------------------------------------------------------
  // The DreamMesh constructor

  function KeyOf(m: Option<Material>): (r: TexScaleOffset)
    ensures r.valid <==> m.Some?
    ensures m.Some? ==> r.scale == m.value.mainTextureScale && r.offset == m.value.mainTextureOffset
    ensures m.None? ==> r.scale == Vec2(0.0, 0.0) && r.offset == Vec2(0.0, 0.0)
  {
    match m
    case None => TexScaleOffset(false, Vec2(0.0, 0.0), Vec2(0.0, 0.0))
    case Some(mat) => TexScaleOffset(true, mat.mainTextureScale, mat.mainTextureOffset)
  }

  /** The grouping every prepared mesh satisfies. */
  ghost predicate ValidDreamMesh(dm: DreamMesh)
  {
    && |dm.tso| == |dm.mesh.submeshes| > 0
    && dm.groupKeys == Distinct(dm.tso)
    && (forall k :: k in dm.groupMembers <==> k in dm.tso)
    && (forall k :: k in dm.groupMembers ==> dm.groupMembers[k] == IndicesOf(dm.tso, k))
    && GroupsInRange(dm)
  }

  /** The `DreamMesh` constructor: one key per material, then the keys grouped. */
  method NewDreamMesh(mesh: Mesh, materials: seq<Option<Material>>) returns (r: Result<DreamMesh, MeshError>)
    ensures |mesh.submeshes| != |materials| ==> r == Err(SubmeshMaterialMismatch)
    ensures |mesh.submeshes| == |materials| == 0 ==> r == Err(NoSubmeshes)
    ensures 0 < |mesh.submeshes| == |materials| ==> r.Ok?
    ensures r.Ok? ==> r.value.mesh == mesh && ValidDreamMesh(r.value)
    ensures r.Ok? ==> |r.value.tso| == |materials| && forall s :: 0 <= s < |materials| ==> r.value.tso[s] == KeyOf(materials[s])
  {
    if |mesh.submeshes| != |materials| {
      return Err(SubmeshMaterialMismatch);
    }
    if |mesh.submeshes| == 0 {
      return Err(NoSubmeshes);
    }
    var tso: seq<TexScaleOffset> := [];
    var linear: seq<TexScaleOffset> := [];
    var members: map<TexScaleOffset, seq<nat>> := map[];
    var n := 0;
    while n < |materials|
      invariant 0 <= n <= |materials|
      invariant |tso| == n && forall s :: 0 <= s < n ==> tso[s] == KeyOf(materials[s])
      invariant Grouping(tso, linear, members)
    {
      var key := KeyOf(materials[n]);
      GroupingStep(tso, linear, members, key);
      if key !in members {
        linear := linear + [key];
        members := members[key := [n]];
      } else {
        members := members[key := members[key] + [n]];
      }
      tso := tso + [key];
      n := n + 1;
    }
    GroupingInRange(tso, linear, members);
    return Ok(DreamMesh(mesh, tso, linear, members));
  }

  /** The state of the grouping loop after a prefix `tso` of the keys. */
  ghost predicate Grouping(tso: seq<TexScaleOffset>, linear: seq<TexScaleOffset>, members: map<TexScaleOffset, seq<nat>>)
  {
    && linear == Distinct(tso)
    && (forall k :: k in members <==> k in tso)
    && (forall k :: k in members ==> members[k] == IndicesOf(tso, k))
  }

  /** One key more: a new key opens a group, a known one joins its group. */
  lemma GroupingStep(tso: seq<TexScaleOffset>, linear: seq<TexScaleOffset>, members: map<TexScaleOffset, seq<nat>>,
                     key: TexScaleOffset)
    requires Grouping(tso, linear, members)
    ensures key !in members ==> Grouping(tso + [key], linear + [key], members[key := [|tso|]])
    ensures key in members ==> Grouping(tso + [key], linear, members[key := members[key] + [|tso|]])
  {
    var n := |tso|;
    var t := tso + [key];
    var m' := members[key := (if key in members then members[key] else []) + [n]];
    DistinctProperties(tso);
    assert t[..n] == tso;
    if key !in members {
      IndicesOfAbsent(tso, key);
    }
    forall k | k in m' ensures m'[k] == IndicesOf(t, k) {
      assert IndicesOf(t, k) == IndicesOf(tso, k) + (if key == k then [n] else []);
    }
  }

  /** Every group key found by the loop has members, all of them submeshes. */
  lemma GroupingInRange(tso: seq<TexScaleOffset>, linear: seq<TexScaleOffset>, members: map<TexScaleOffset, seq<nat>>)
    requires Grouping(tso, linear, members)
    ensures forall h :: 0 <= h < |linear| ==>
      linear[h] in members && forall j :: 0 <= j < |members[linear[h]]| ==> members[linear[h]][j] < |tso|
  {
    DistinctProperties(tso);
    forall h | 0 <= h < |linear|
      ensures linear[h] in members && forall j :: 0 <= j < |members[linear[h]]| ==> members[linear[h]][j] < |tso|
    {
      assert linear[h] in tso;
      IndicesOfProperties(tso, linear[h]);
    }
  }

  /** `ArraysEqual`: element-by-element comparison, true for two missing arrays. */
  method ArraysEqual<T(==)>(a1: Option<seq<T>>, a2: Option<seq<T>>) returns (r: bool)
    ensures r <==> a1 == a2
  {
    if a1.None? || a2.None? {
      return a1.None? && a2.None?;
    }
    var s1, s2 := a1.value, a2.value;
    if |s1| != |s2| {
      return false;
    }
    var i := 0;
    while i < |s1|
      invariant 0 <= i <= |s1|
      invariant s1[..i] == s2[..i]
    {
      if s1[i] != s2[i] {
        return false;
      }
      assert s1[..i + 1] == s1[..i] + [s1[i]] && s2[..i + 1] == s2[..i] + [s2[i]];
      i := i + 1;
    }
    assert s1 == s1[..i] && s2 == s2[..i];
    return true;
  }

  /** `DreamMesh.Equals`: the same Unity mesh object and equal key arrays. */
  method DreamMeshEquals(a: DreamMesh, b: DreamMesh) returns (r: bool)
    ensures r <==> a.mesh.handle == b.mesh.handle && a.tso == b.tso
  {
    if a.mesh.handle != b.mesh.handle {
      return false;
    }
    r := ArraysEqual(Some(a.tso), Some(b.tso));
  }

  // ---------------------------------------------------------------------------
  // Specification of the replicated vertex layout

  /** The index stream a group reads: its submeshes' index lists, concatenated. */
  ghost function GroupStream(m: Mesh, members: seq<nat>): seq<int>
    requires forall j :: 0 <= j < |members| ==> members[j] < |m.submeshes|
  {
    if |members| == 0 then []
    else GroupStream(m, members[..|members| - 1]) + m.submeshes[members[|members| - 1]]
  }

  /** Every group key has a member list, and every member is a submesh. */
  ghost predicate GroupsInRange(dm: DreamMesh)
  {
    forall h :: 0 <= h < |dm.groupKeys| ==>
      dm.groupKeys[h] in dm.groupMembers &&
      forall j :: 0 <= j < |dm.groupMembers[dm.groupKeys[h]]| ==> dm.groupMembers[dm.groupKeys[h]][j] < |dm.mesh.submeshes|
  }

  /** `members` lists, in increasing order, exactly the submeshes whose key is `key`. */
  ghost predicate MembersExactly(tso: seq<TexScaleOffset>, key: TexScaleOffset, members: seq<nat>)
  {
    && (forall s: int :: s in members <==> 0 <= s < |tso| && tso[s] == key)
    && (forall a, b :: 0 <= a < b < |members| ==> members[a] < members[b])
  }

  /** What the encoder relies on: the group keys are distinct, every submesh's
      key is one of them, and each group lists exactly its submeshes. */
  ghost predicate Partitioned(dm: DreamMesh)
  {
    && |dm.tso| == |dm.mesh.submeshes|
    && GroupsInRange(dm)
    && NoDuplicates(dm.groupKeys)
    && (forall s :: 0 <= s < |dm.tso| ==> dm.tso[s] in dm.groupKeys)
    && (forall h :: 0 <= h < |dm.groupKeys| ==>
          MembersExactly(dm.tso, dm.groupKeys[h], dm.groupMembers[dm.groupKeys[h]]))
  }

  /** Grouping by first occurrence partitions the submeshes. */
  lemma ValidIsPartitioned(dm: DreamMesh)
    requires ValidDreamMesh(dm)
    ensures Partitioned(dm)
  {
    DistinctProperties(dm.tso);
    forall h | 0 <= h < |dm.groupKeys|
      ensures MembersExactly(dm.tso, dm.groupKeys[h], dm.groupMembers[dm.groupKeys[h]])
    {
      IndicesOfProperties(dm.tso, dm.groupKeys[h]);
    }
  }

  /** The lump of every group, in group order: the distinct indices its
      submeshes use, in the order they are first read. */
  ghost function Lumps(dm: DreamMesh): (r: seq<seq<int>>)
    requires GroupsInRange(dm)
    ensures |r| == |dm.groupKeys|
  {
    seq(|dm.groupKeys|, h requires 0 <= h < |dm.groupKeys| =>
      Distinct(GroupStream(dm.mesh, dm.groupMembers[dm.groupKeys[h]])))
  }

  ghost function Concat(ls: seq<seq<int>>): seq<int>
  {
    if |ls| == 0 then [] else Concat(ls[..|ls| - 1]) + ls[|ls| - 1]
  }

  /** One copy of `keys[h]` for each element of `ls[h]`. */
  ghost function ConcatKeys(ls: seq<seq<int>>, keys: seq<TexScaleOffset>): (r: seq<TexScaleOffset>)
    requires |ls| == |keys|
    ensures |r| == |Concat(ls)|
  {
    if |ls| == 0 then []
    else ConcatKeys(ls[..|ls| - 1], keys[..|keys| - 1]) + seq(|ls[|ls| - 1]|, _ => keys[|keys| - 1])
  }

  lemma ConcatStep(ls: seq<seq<int>>, l: seq<int>, keys: seq<TexScaleOffset>, key: TexScaleOffset)
    requires |ls| == |keys|
    ensures Concat(ls + [l]) == Concat(ls) + l
    ensures ConcatKeys(ls + [l], keys + [key]) == ConcatKeys(ls, keys) + seq(|l|, _ => key)
  {
    assert (ls + [l])[..|ls|] == ls;
    assert (keys + [key])[..|keys|] == keys;
  }

  /** The source index behind every output vertex slot. */
  ghost function AllSlotSources(dm: DreamMesh): seq<int>
    requires GroupsInRange(dm)
  {
    Concat(Lumps(dm))
  }

  /** The group key of every output vertex slot. */
  ghost function AllSlotKeys(dm: DreamMesh): seq<TexScaleOffset>
    requires GroupsInRange(dm)
  {
    ConcatKeys(Lumps(dm), dm.groupKeys)
  }

  function TransformUv(uv: Vec2, key: TexScaleOffset): Vec2
  {
    Vec2(uv.x * key.scale.x + key.offset.x, uv.y * key.scale.y + key.offset.y)
  }

  /** The 65535 ceiling of 16-bit vertex indices. */
  const MaxVertices := 65535

  datatype EncodeError =
    | EmptyLump
    | TooManyVertices(replicaBase: int, vertexCount: int)

  datatype EncodedMesh = EncodedMesh(vertices: seq<Vec3>, uvs: seq<Vec2>, colors: seq<Color32>,
                                     normals: seq<Vec3>, indices: seq<seq<int>>)

  // ---------------------------------------------------------------------------
  // The encoder

  method Gather<T>(src: seq<T>, idx: seq<int>) returns (r: seq<T>)
    requires forall j :: 0 <= j < |idx| ==> 0 <= idx[j] < |src|
    ensures |r| == |idx| && forall j :: 0 <= j < |idx| ==> r[j] == src[idx[j]]
  {
    r := [];
    var j := 0;
    while j < |idx|
      invariant 0 <= j <= |idx|
      invariant |r| == j && forall i :: 0 <= i < j ==> r[i] == src[idx[i]]
    {
      r := r + [src[idx[j]]];
      j := j + 1;
    }
  }

  method GatherUvs(uv: seq<Vec2>, idx: seq<int>, key: TexScaleOffset) returns (r: seq<Vec2>)
    requires forall j :: 0 <= j < |idx| ==> 0 <= idx[j] < |uv|
    ensures |r| == |idx| && forall j :: 0 <= j < |idx| ==> r[j] == TransformUv(uv[idx[j]], key)
  {
    r := [];
    var j := 0;
    while j < |idx|
      invariant 0 <= j <= |idx|
      invariant |r| == j && forall i :: 0 <= i < j ==> r[i] == TransformUv(uv[idx[i]], key)
    {
      r := r + [TransformUv(uv[idx[j]], key)];
      j := j + 1;
    }
  }

  /** `b` keeps every entry of `a`. */
  ghost predicate Extends(a: map<int, int>, b: map<int, int>)
  {
    forall x :: x in a ==> x in b && b[x] == a[x]
  }

  /** A submesh's decode table once its indices were read: every index maps to
      its lump position offset by the group's base. */
  ghost predicate DecodeFilled(decodeS: map<int, int>, indices: seq<int>, base: int, lumpIndex: map<int, int>)
  {
    && (forall x :: x in decodeS <==> x in indices)
    && (forall x :: x in decodeS ==> x in lumpIndex && decodeS[x] == base + lumpIndex[x])
  }

  /** The same, stated against the finished lump. */
  ghost predicate DecodeInLump(decodeS: map<int, int>, indices: seq<int>, base: int, lump: seq<int>)
  {
    && (forall x :: x in decodeS <==> x in indices)
    && (forall x :: x in decodeS ==> base <= decodeS[x] < base + |lump| && lump[decodeS[x] - base] == x)
  }

  /** The same, stated against the slots of all groups handled so far. */
  ghost predicate DecodeSound(decodeS: map<int, int>, indices: seq<int>, sources: seq<int>,
                              keys: seq<TexScaleOffset>, key: TexScaleOffset)
  {
    && (forall x :: x in decodeS <==> x in indices)
    && (forall x :: x in decodeS ==>
          0 <= decodeS[x] < |sources| && decodeS[x] < |keys| && sources[decodeS[x]] == x && keys[decodeS[x]] == key)
  }

  /** The `foreach (var index in indices)` loop for one submesh of a group. The
      "Index missmatch" branch is kept and proved unreachable: a submesh is read
      once, and a lump position never changes once assigned. */
  method ReadSubmeshIndices(indices: seq<int>, base: int, ghost stream: seq<int>,
                            lumpLinear0: seq<int>, lumpIndex0: map<int, int>)
    returns (lumpLinear: seq<int>, lumpIndex: map<int, int>, decodeS: map<int, int>)
    requires lumpLinear0 == Distinct(stream) && Indexed(lumpLinear0, lumpIndex0)
    ensures lumpLinear == Distinct(stream + indices) && Indexed(lumpLinear, lumpIndex)
    ensures Extends(lumpIndex0, lumpIndex)
    ensures DecodeFilled(decodeS, indices, base, lumpIndex)
  {
    lumpLinear, lumpIndex, decodeS := lumpLinear0, lumpIndex0, map[];
    var k := 0;
    assert stream + indices[..0] == stream;
    while k < |indices|
      invariant 0 <= k <= |indices|
      invariant ReadState(stream, indices[..k], base, lumpIndex0, lumpLinear, lumpIndex, decodeS)
    {
      lumpLinear, lumpIndex, decodeS := ReadIndex(stream, indices[..k], indices[k], base, lumpIndex0,
                                                  lumpLinear, lumpIndex, decodeS);
      PrefixSnoc(indices, k);
      k := k + 1;
    }
    assert indices[..k] == indices;
  }

  /** The body of the index loop: one index of the submesh read. */
  method ReadIndex(ghost stream: seq<int>, ghost read: seq<int>, x: int, base: int, ghost lumpIndex0: map<int, int>,
                   lumpLinear0: seq<int>, lumpIndex1: map<int, int>, decodeS0: map<int, int>)
    returns (lumpLinear: seq<int>, lumpIndex: map<int, int>, decodeS: map<int, int>)
    requires ReadState(stream, read, base, lumpIndex0, lumpLinear0, lumpIndex1, decodeS0)
    ensures ReadState(stream, read + [x], base, lumpIndex0, lumpLinear, lumpIndex, decodeS)
  {
    lumpLinear, lumpIndex, decodeS := lumpLinear0, lumpIndex1, decodeS0;
    ReadStep(stream, read, x, base, lumpIndex0, lumpLinear, lumpIndex, decodeS);
    if x !in lumpIndex {
      lumpLinear := lumpLinear + [x];
      lumpIndex := lumpIndex[x := |lumpLinear| - 1];
    }
    if x !in decodeS {
      decodeS := decodeS[x := base + lumpIndex[x]];
    } else if decodeS[x] != base + lumpIndex[x] {
      assert false;
    }
  }

  /** The state of the index loop after the indices `read` of one submesh. */
  ghost predicate ReadState(stream: seq<int>, read: seq<int>, base: int, lumpIndex0: map<int, int>,
                            lumpLinear: seq<int>, lumpIndex: map<int, int>, decodeS: map<int, int>)
  {
    && lumpLinear == Distinct(stream + read) && Indexed(lumpLinear, lumpIndex)
    && Extends(lumpIndex0, lumpIndex)
    && DecodeFilled(decodeS, read, base, lumpIndex)
  }

  /** One index more: an unseen vertex joins the lump, and the submesh's
      decode table gets the vertex's lump position. */
  lemma ReadStep(stream: seq<int>, read: seq<int>, x: int, base: int, lumpIndex0: map<int, int>,
                 lumpLinear: seq<int>, lumpIndex: map<int, int>, decodeS: map<int, int>)
    requires ReadState(stream, read, base, lumpIndex0, lumpLinear, lumpIndex, decodeS)
    ensures x !in lumpIndex ==> x !in decodeS
    ensures x !in lumpIndex ==>
      ReadState(stream, read + [x], base, lumpIndex0, lumpLinear + [x], lumpIndex[x := |lumpLinear|],
                decodeS[x := base + |lumpLinear|])
    ensures x in lumpIndex && x !in decodeS ==>
      ReadState(stream, read + [x], base, lumpIndex0, lumpLinear, lumpIndex, decodeS[x := base + lumpIndex[x]])
    ensures x in decodeS ==> x in lumpIndex && decodeS[x] == base + lumpIndex[x]
    ensures x in decodeS ==>
      ReadState(stream, read + [x], base, lumpIndex0, lumpLinear, lumpIndex, decodeS)
  {
    assert stream + (read + [x]) == stream + read + [x];
    DistinctSnoc(stream + read, x);
    DistinctProperties(stream + read);
    if x !in lumpIndex {
      ReadNew(lumpIndex0, lumpLinear, lumpIndex, decodeS, read, x, base);
    } else if x !in decodeS {
      ReadSeenLump(lumpIndex, decodeS, read, x, base);
    } else {
      ReadSeen(lumpIndex, decodeS, read, x, base);
    }
  }

  lemma ReadNew(lumpIndex0: map<int, int>, lumpLinear: seq<int>, lumpIndex: map<int, int>, decodeS: map<int, int>,
                read: seq<int>, x: int, base: int)
    requires Indexed(lumpLinear, lumpIndex) && Extends(lumpIndex0, lumpIndex)
    requires DecodeFilled(decodeS, read, base, lumpIndex) && x !in lumpIndex
    ensures x !in decodeS
    ensures Indexed(lumpLinear + [x], lumpIndex[x := |lumpLinear|])
    ensures Extends(lumpIndex0, lumpIndex[x := |lumpLinear|])
    ensures DecodeFilled(decodeS[x := base + |lumpLinear|], read + [x], base, lumpIndex[x := |lumpLinear|])
  {
    IndexedAppend(lumpLinear, lumpIndex, x);
  }

  lemma ReadSeenLump(lumpIndex: map<int, int>, decodeS: map<int, int>, read: seq<int>, x: int, base: int)
    requires DecodeFilled(decodeS, read, base, lumpIndex) && x in lumpIndex && x !in decodeS
    ensures DecodeFilled(decodeS[x := base + lumpIndex[x]], read + [x], base, lumpIndex)
  {
  }

  lemma ReadSeen(lumpIndex: map<int, int>, decodeS: map<int, int>, read: seq<int>, x: int, base: int)
    requires DecodeFilled(decodeS, read, base, lumpIndex) && x in decodeS
    ensures decodeS[x] == base + lumpIndex[x]
    ensures DecodeFilled(decodeS, read + [x], base, lumpIndex)
  {
  }

  /** One group's pass over its member submeshes (`members`, the submeshes
      whose key is `key`, in increasing order): it builds the group's lump and
      fills in the decode table of every member. */
  method BuildGroupLump(m: Mesh, tso: seq<TexScaleOffset>, key: TexScaleOffset, members: seq<nat>,
                        base: int, decode0: seq<map<int, int>>)
    returns (lumpLinear: seq<int>, decode: seq<map<int, int>>)
    requires |tso| == |m.submeshes| == |decode0|
    requires forall s: int :: s in members <==> 0 <= s < |tso| && tso[s] == key
    requires forall a, b :: 0 <= a < b < |members| ==> members[a] < members[b]
    requires forall j :: 0 <= j < |members| ==> members[j] < |m.submeshes|
    requires forall s :: 0 <= s < |tso| && tso[s] == key ==> decode0[s] == map[]
    ensures lumpLinear == Distinct(GroupStream(m, members))
    ensures |decode| == |tso|
    ensures forall s :: 0 <= s < |tso| && tso[s] != key ==> decode[s] == decode0[s]
    ensures forall s :: 0 <= s < |tso| && tso[s] == key ==>
              DecodeInLump(decode[s], m.submeshes[s], base, lumpLinear)
  {
    var lumpIndex: map<int, int> := map[];
    lumpLinear := [];
    decode := decode0;
    var j := 0;
    while j < |members|
      invariant 0 <= j <= |members|
      invariant LumpState(m, tso, key, members, j, base, decode0, lumpLinear, lumpIndex, decode)
    {
      var s := members[j];
      assert s in members;
      ghost var li0, d0 := lumpIndex, decode;
      var decodeS;
      lumpLinear, lumpIndex, decodeS := ReadSubmeshIndices(m.submeshes[s], base, GroupStream(m, members[..j]), lumpLinear, lumpIndex);
      decode := decode[s := decodeS];
      LumpStep(m, tso, key, members, j, base, decode0, li0, d0, lumpLinear, lumpIndex, decodeS);
      j := j + 1;
    }
    LumpFinish(m, tso, key, members, base, decode0, lumpLinear, lumpIndex, decode);
  }

  /** The state of the group loop after its first `j` members. */
  ghost predicate LumpState(m: Mesh, tso: seq<TexScaleOffset>, key: TexScaleOffset, members: seq<nat>, j: nat,
                            base: int, decode0: seq<map<int, int>>,
                            lumpLinear: seq<int>, lumpIndex: map<int, int>, decode: seq<map<int, int>>)
    requires j <= |members| && forall i :: 0 <= i < |members| ==> members[i] < |m.submeshes|
  {
    && |decode| == |tso| == |m.submeshes| == |decode0|
    && lumpLinear == Distinct(GroupStream(m, members[..j])) && Indexed(lumpLinear, lumpIndex)
    && (forall s :: 0 <= s < |tso| && tso[s] != key ==> decode[s] == decode0[s])
    && (forall i :: j <= i < |members| ==> decode[members[i]] == map[])
    && (forall i :: 0 <= i < j ==> DecodeFilled(decode[members[i]], m.submeshes[members[i]], base, lumpIndex))
  }

  lemma LumpStep(m: Mesh, tso: seq<TexScaleOffset>, key: TexScaleOffset, members: seq<nat>, j: nat,
                 base: int, decode0: seq<map<int, int>>,
                 lumpIndex0: map<int, int>, decode: seq<map<int, int>>,
                 lumpLinear: seq<int>, lumpIndex: map<int, int>, decodeS: map<int, int>)
    requires j < |members| && forall i :: 0 <= i < |members| ==> members[i] < |m.submeshes|
    requires forall s: int :: s in members <==> 0 <= s < |tso| && tso[s] == key
    requires forall a, b :: 0 <= a < b < |members| ==> members[a] < members[b]
    requires LumpState(m, tso, key, members, j, base, decode0, Distinct(GroupStream(m, members[..j])), lumpIndex0, decode)
    requires lumpLinear == Distinct(GroupStream(m, members[..j]) + m.submeshes[members[j]]) && Indexed(lumpLinear, lumpIndex)
    requires Extends(lumpIndex0, lumpIndex)
    requires DecodeFilled(decodeS, m.submeshes[members[j]], base, lumpIndex)
    ensures LumpState(m, tso, key, members, j + 1, base, decode0, lumpLinear, lumpIndex, decode[members[j] := decodeS])
  {
    var s := members[j];
    assert s in members;
    assert members[..j + 1][..j] == members[..j];
    var d := decode[s := decodeS];
    forall i | j + 1 <= i < |members| ensures d[members[i]] == map[] {
      assert members[i] != s;
    }
    forall i | 0 <= i < j + 1 ensures DecodeFilled(d[members[i]], m.submeshes[members[i]], base, lumpIndex) {
      if i < j {
        assert members[i] != s;
        FilledExtends(decode[members[i]], m.submeshes[members[i]], base, lumpIndex0, lumpIndex);
      }
    }
  }

  lemma FilledExtends(decodeS: map<int, int>, indices: seq<int>, base: int, lumpIndex0: map<int, int>, lumpIndex: map<int, int>)
    requires DecodeFilled(decodeS, indices, base, lumpIndex0) && Extends(lumpIndex0, lumpIndex)
    ensures DecodeFilled(decodeS, indices, base, lumpIndex)
  {
  }

  lemma LumpFinish(m: Mesh, tso: seq<TexScaleOffset>, key: TexScaleOffset, members: seq<nat>,
                   base: int, decode0: seq<map<int, int>>,
                   lumpLinear: seq<int>, lumpIndex: map<int, int>, decode: seq<map<int, int>>)
    requires forall i :: 0 <= i < |members| ==> members[i] < |m.submeshes|
    requires forall s: int :: s in members <==> 0 <= s < |tso| && tso[s] == key
    requires LumpState(m, tso, key, members, |members|, base, decode0, lumpLinear, lumpIndex, decode)
    ensures lumpLinear == Distinct(GroupStream(m, members))
    ensures |decode| == |tso|
    ensures forall s :: 0 <= s < |tso| && tso[s] != key ==> decode[s] == decode0[s]
    ensures forall s :: 0 <= s < |tso| && tso[s] == key ==>
              DecodeInLump(decode[s], m.submeshes[s], base, lumpLinear)
  {
    assert members[..|members|] == members;
    forall s | 0 <= s < |tso| && tso[s] == key
      ensures DecodeInLump(decode[s], m.submeshes[s], base, lumpLinear)
    {
      assert s in members;
      var i :| 0 <= i < |members| && members[i] == s;
      FilledInLump(decode[s], m.submeshes[s], base, lumpLinear, lumpIndex);
    }
  }

  lemma FilledInLump(decodeS: map<int, int>, indices: seq<int>, base: int, lump: seq<int>, lumpIndex: map<int, int>)
    requires DecodeFilled(decodeS, indices, base, lumpIndex) && Indexed(lump, lumpIndex)
    ensures DecodeInLump(decodeS, indices, base, lump)
  {
  }

  /** The attribute lists for the vertex slots `src` (source index of each
      slot) and `keys` (group key of each slot): each slot holds its source
      vertex's position, UV transformed by the slot's key, colour and normal;
      an attribute the mesh lacks stays empty. */
  ghost predicate Gathered(m: Mesh, src: seq<int>, keys: seq<TexScaleOffset>, verts: seq<Vec3>, uvs: seq<Vec2>,
                           cols: seq<Color32>, normals: seq<Vec3>)
  {
    && |keys| == |src| == |verts|
    && (forall j :: 0 <= j < |src| ==> 0 <= src[j] < |m.vertices| && verts[j] == m.vertices[src[j]])
    && |uvs| == (if |m.uv| > 0 then |src| else 0)
    && (forall j :: 0 <= j < |uvs| ==> 0 <= src[j] < |m.uv| && uvs[j] == TransformUv(m.uv[src[j]], keys[j]))
    && |cols| == (if |m.colors| > 0 then |src| else 0)
    && (forall j :: 0 <= j < |cols| ==> 0 <= src[j] < |m.colors| && cols[j] == m.colors[src[j]])
    && |normals| == (if |m.normals| > 0 then |src| else 0)
    && (forall j :: 0 <= j < |normals| ==> 0 <= src[j] < |m.normals| && normals[j] == m.normals[src[j]])
  }

  lemma {:induction false} GroupStreamInRange(m: Mesh, members: seq<nat>)
    requires WellFormedMesh(m)
    requires forall j :: 0 <= j < |members| ==> members[j] < |m.submeshes|
    ensures forall x :: x in GroupStream(m, members) ==> 0 <= x < |m.vertices|
  {
    if |members| > 0 {
      GroupStreamInRange(m, members[..|members| - 1]);
    }
  }

  lemma LumpInRange(dm: DreamMesh, h: nat)
    requires GroupsInRange(dm) && WellFormedMesh(dm.mesh) && h < |dm.groupKeys|
    ensures forall j :: 0 <= j < |Lumps(dm)[h]| ==> 0 <= Lumps(dm)[h][j] < |dm.mesh.vertices|
  {
    var members := dm.groupMembers[dm.groupKeys[h]];
    var stream := GroupStream(dm.mesh, members);
    GroupStreamInRange(dm.mesh, members);
    DistinctProperties(stream);
    forall j | 0 <= j < |Lumps(dm)[h]| ensures 0 <= Lumps(dm)[h][j] < |dm.mesh.vertices| {
      assert Lumps(dm)[h][j] in stream;
    }
  }

  lemma DecodeSoundExtend(d: map<int, int>, indices: seq<int>, src: seq<int>, keys: seq<TexScaleOffset>,
                          key: TexScaleOffset, moreSrc: seq<int>, moreKeys: seq<TexScaleOffset>)
    requires DecodeSound(d, indices, src, keys, key)
    ensures DecodeSound(d, indices, src + moreSrc, keys + moreKeys, key)
  {
  }

  lemma DecodeInLumpSound(d: map<int, int>, indices: seq<int>, src: seq<int>, keys: seq<TexScaleOffset>,
                          key: TexScaleOffset, lump: seq<int>)
    requires |src| == |keys| && DecodeInLump(d, indices, |src|, lump)
    ensures DecodeSound(d, indices, src + lump, keys + seq(|lump|, _ => key), key)
  {
  }

  /** After a group's pass, the decode tables of all groups handled so far
      point at the right slots of the extended slot list. */
  lemma DecodeStep(tso: seq<TexScaleOffset>, subs: seq<seq<int>>, decode0: seq<map<int, int>>, decode: seq<map<int, int>>,
                   key: TexScaleOffset, prefix: seq<TexScaleOffset>, src: seq<int>, keys: seq<TexScaleOffset>, lump: seq<int>)
    requires |decode0| == |decode| == |tso| == |subs| && |src| == |keys| && key !in prefix
    requires forall s :: 0 <= s < |tso| && tso[s] != key ==> decode[s] == decode0[s]
    requires forall s :: 0 <= s < |tso| && tso[s] == key ==> DecodeInLump(decode[s], subs[s], |src|, lump)
    requires forall s :: 0 <= s < |tso| && tso[s] !in prefix ==> decode0[s] == map[]
    requires forall s :: 0 <= s < |tso| && tso[s] in prefix ==> DecodeSound(decode0[s], subs[s], src, keys, tso[s])
    ensures forall s :: 0 <= s < |tso| && tso[s] !in prefix + [key] ==> decode[s] == map[]
    ensures forall s :: 0 <= s < |tso| && tso[s] in prefix + [key] ==>
              DecodeSound(decode[s], subs[s], src + lump, keys + seq(|lump|, _ => key), tso[s])
  {
    forall s | 0 <= s < |tso| && tso[s] in prefix + [key]
      ensures DecodeSound(decode[s], subs[s], src + lump, keys + seq(|lump|, _ => key), tso[s])
    {
      if tso[s] == key {
        DecodeInLumpSound(decode[s], subs[s], src, keys, key, lump);
      } else {
        DecodeSoundExtend(decode[s], subs[s], src, keys, tso[s], lump, seq(|lump|, _ => key));
      }
    }
  }

  /** The state after the first `g` groups: slot lists, attribute lists and
      decode tables as the specification gives them, and no empty lump yet. */
  ghost predicate GroupsDone(dm: DreamMesh, g: nat, decode: seq<map<int, int>>, done: seq<seq<int>>,
                             src: seq<int>, slotKeys: seq<TexScaleOffset>,
                             verts: seq<Vec3>, uvs: seq<Vec2>, cols: seq<Color32>, normals: seq<Vec3>)
    requires Partitioned(dm)
  {
    && g <= |dm.groupKeys| && |decode| == |dm.tso|
    && done == Lumps(dm)[..g]
    && src == Concat(done) && slotKeys == ConcatKeys(done, dm.groupKeys[..g])
    && Gathered(dm.mesh, src, slotKeys, verts, uvs, cols, normals)
    && (forall h :: 0 <= h < g ==> Lumps(dm)[h] != [])
    && (forall s :: 0 <= s < |dm.tso| && dm.tso[s] !in dm.groupKeys[..g] ==> decode[s] == map[])
    && (forall s :: 0 <= s < |dm.tso| && dm.tso[s] in dm.groupKeys[..g] ==>
          DecodeSound(decode[s], dm.mesh.submeshes[s], src, slotKeys, dm.tso[s]))
  }

  /** One iteration of the loop over `tsoIndexLinear`. It reports an empty
      lump instead of continuing; the source throws there. */
  method ProcessGroup(dm: DreamMesh, g: nat, decode: seq<map<int, int>>, ghost done: seq<seq<int>>,
                      ghost src: seq<int>, ghost slotKeys: seq<TexScaleOffset>,
                      verts: seq<Vec3>, uvs: seq<Vec2>, cols: seq<Color32>, normals: seq<Vec3>)
    returns (empty: bool, decode': seq<map<int, int>>, ghost done': seq<seq<int>>,
             ghost src': seq<int>, ghost slotKeys': seq<TexScaleOffset>,
             verts': seq<Vec3>, uvs': seq<Vec2>, cols': seq<Color32>, normals': seq<Vec3>)
    requires Partitioned(dm) && WellFormedMesh(dm.mesh) && g < |dm.groupKeys|
    requires GroupsDone(dm, g, decode, done, src, slotKeys, verts, uvs, cols, normals)
    ensures empty <==> Lumps(dm)[g] == []
    ensures !empty ==> GroupsDone(dm, g + 1, decode', done', src', slotKeys', verts', uvs', cols', normals')
    ensures !empty ==> |verts'| == |verts| + |Lumps(dm)[g]|
  {
    var m := dm.mesh;
    var key := dm.groupKeys[g];
    var lumpLinear;
    lumpLinear, decode' := BuildGroupLump(m, dm.tso, key, dm.groupMembers[key], |verts|, decode);
    assert lumpLinear == Lumps(dm)[g];
    empty := |lumpLinear| == 0;
    done', src', slotKeys' := done + [lumpLinear], src + lumpLinear, slotKeys + seq(|lumpLinear|, _ => key);
    verts', uvs', cols', normals' := verts, uvs, cols, normals;
    if !empty {
      LumpInRange(dm, g);
      verts', uvs', cols', normals' := AppendAttributes(m, src, slotKeys, verts, uvs, cols, normals, key, lumpLinear);
      GroupsDoneStep(dm, g, decode, decode', done, src, slotKeys, verts, uvs, cols, normals, verts', uvs', cols', normals');
    }
  }

  lemma GroupsDoneStep(dm: DreamMesh, g: nat, decode: seq<map<int, int>>, decode': seq<map<int, int>>, done: seq<seq<int>>,
                       src: seq<int>, slotKeys: seq<TexScaleOffset>,
                       verts: seq<Vec3>, uvs: seq<Vec2>, cols: seq<Color32>, normals: seq<Vec3>,
                       verts': seq<Vec3>, uvs': seq<Vec2>, cols': seq<Color32>, normals': seq<Vec3>)
    requires Partitioned(dm) && g < |dm.groupKeys|
    requires GroupsDone(dm, g, decode, done, src, slotKeys, verts, uvs, cols, normals)
    requires Lumps(dm)[g] != [] && |decode'| == |dm.tso|
    requires forall s :: 0 <= s < |dm.tso| && dm.tso[s] != dm.groupKeys[g] ==> decode'[s] == decode[s]
    requires forall s :: 0 <= s < |dm.tso| && dm.tso[s] == dm.groupKeys[g] ==>
               DecodeInLump(decode'[s], dm.mesh.submeshes[s], |verts|, Lumps(dm)[g])
    requires Gathered(dm.mesh, src + Lumps(dm)[g], slotKeys + seq(|Lumps(dm)[g]|, _ => dm.groupKeys[g]),
                      verts', uvs', cols', normals')
    ensures GroupsDone(dm, g + 1, decode', done + [Lumps(dm)[g]], src + Lumps(dm)[g],
                       slotKeys + seq(|Lumps(dm)[g]|, _ => dm.groupKeys[g]), verts', uvs', cols', normals')
  {
    var key := dm.groupKeys[g];
    var lump := Lumps(dm)[g];
    PrefixSnoc(dm.groupKeys, g);
    assert key !in dm.groupKeys[..g];
    DecodeStep(dm.tso, dm.mesh.submeshes, decode, decode', key, dm.groupKeys[..g], src, slotKeys, lump);
    ConcatStep(done, lump, dm.groupKeys[..g], key);
    PrefixSnoc(Lumps(dm), g);
  }

  /** The per-group part of the mesh section: the lumps are built one group
      at a time, the attribute lists are appended, and an empty lump aborts. */
  method BuildLumps(dm: DreamMesh) returns (r: Result<Lumped, EncodeError>)
    requires Partitioned(dm) && WellFormedMesh(dm.mesh)
    ensures r.Err? ==> r.error == EmptyLump
    ensures r.Err? <==> exists h :: 0 <= h < |dm.groupKeys| && Lumps(dm)[h] == []
    ensures r.Ok? ==> |r.value.decode| == |dm.tso|
    ensures r.Ok? ==> Gathered(dm.mesh, AllSlotSources(dm), AllSlotKeys(dm), r.value.vertices, r.value.uvs,
                               r.value.colors, r.value.normals)
    ensures r.Ok? ==> forall s :: 0 <= s < |dm.tso| ==>
              DecodeSound(r.value.decode[s], dm.mesh.submeshes[s], AllSlotSources(dm), AllSlotKeys(dm), dm.tso[s])
  {
    var decode: seq<map<int, int>> := seq(|dm.tso|, _ => map[]);
    var replicaBase := 0;
    var allVerts: seq<Vec3> := [];
    var allUvs: seq<Vec2> := [];
    var allCols: seq<Color32> := [];
    var allNormals: seq<Vec3> := [];
    ghost var done: seq<seq<int>> := [];
    ghost var src: seq<int> := [];
    ghost var slotKeys: seq<TexScaleOffset> := [];
    var g := 0;
    while g < |dm.groupKeys|
      invariant GroupsDone(dm, g, decode, done, src, slotKeys, allVerts, allUvs, allCols, allNormals)
      invariant replicaBase == |allVerts|
    {
      var empty;
      empty, decode, done, src, slotKeys, allVerts, allUvs, allCols, allNormals :=
        ProcessGroup(dm, g, decode, done, src, slotKeys, allVerts, allUvs, allCols, allNormals);
      if empty {
        return Err(EmptyLump);
      }
      replicaBase := |allVerts|;
      g := g + 1;
    }
    assert dm.groupKeys[..g] == dm.groupKeys;
    assert done == Lumps(dm);
    forall s | 0 <= s < |dm.tso|
      ensures DecodeSound(decode[s], dm.mesh.submeshes[s], AllSlotSources(dm), AllSlotKeys(dm), dm.tso[s])
    {
      assert dm.tso[s] in dm.groupKeys;
    }
    r := Ok(Lumped(decode, allVerts, allUvs, allCols, allNormals));
  }

  /** The decode tables and attribute lists built by the per-group pass. */
  datatype Lumped = Lumped(decode: seq<map<int, int>>, vertices: seq<Vec3>, uvs: seq<Vec2>,
                           colors: seq<Color32>, normals: seq<Vec3>)

  /** The mesh section of `ExportScene` for one mesh: vertex slots per group,
      every submesh index remapped to its slot, and the 65535 ceiling. The
      source's cross-checks ("Index missmatch", the missing decode entry and
      "Vertex missmatch") are kept, and each is proved never to fire. */
  method EncodeMesh(dm: DreamMesh) returns (r: Result<EncodedMesh, EncodeError>)
    requires Partitioned(dm) && WellFormedMesh(dm.mesh)
    ensures r == Err(EmptyLump) <==> exists h :: 0 <= h < |dm.groupKeys| && Lumps(dm)[h] == []
    ensures r.Err? && r.error.TooManyVertices? <==>
              (forall h :: 0 <= h < |dm.groupKeys| ==> Lumps(dm)[h] != []) && |AllSlotSources(dm)| > MaxVertices
    ensures r.Err? && r.error.TooManyVertices? ==>
              r.error == TooManyVertices(|AllSlotSources(dm)|, |dm.mesh.vertices|)
    ensures r.Ok? ==> EncodedAsSpecified(dm, r.value)
  {
    var lumped := BuildLumps(dm);
    if lumped.Err? {
      return Err(lumped.error);
    }
    var l := lumped.value;
    var replicaBase := |l.vertices|;
    if replicaBase > MaxVertices {
      return Err(TooManyVertices(replicaBase, |dm.mesh.vertices|));
    }
    var out := RemapIndices(dm, l.decode, l.vertices);
    r := Ok(EncodedMesh(l.vertices, l.uvs, l.colors, l.normals, out));
  }

  /** The four `foreach (var index in index_lump_linear)` loops of one group:
      positions always, UVs (scaled and offset), colours and normals only when
      the mesh has them. */
  method AppendAttributes(m: Mesh, ghost src: seq<int>, ghost keys: seq<TexScaleOffset>, verts: seq<Vec3>, uvs: seq<Vec2>,
                          cols: seq<Color32>, normals: seq<Vec3>, key: TexScaleOffset, lump: seq<int>)
    returns (verts': seq<Vec3>, uvs': seq<Vec2>, cols': seq<Color32>, normals': seq<Vec3>)
    requires WellFormedMesh(m) && Gathered(m, src, keys, verts, uvs, cols, normals)
    requires forall j :: 0 <= j < |lump| ==> 0 <= lump[j] < |m.vertices|
    ensures Gathered(m, src + lump, keys + seq(|lump|, _ => key), verts', uvs', cols', normals')
  {
    var gv := Gather(m.vertices, lump);
    var gu: seq<Vec2> := [];
    if |m.uv| > 0 {
      gu := GatherUvs(m.uv, lump, key);
    }
    var gc: seq<Color32> := [];
    if |m.colors| > 0 {
      gc := Gather(m.colors, lump);
    }
    var gn: seq<Vec3> := [];
    if |m.normals| > 0 {
      gn := Gather(m.normals, lump);
    }
    GatheredStep(m, src, keys, verts, uvs, cols, normals, key, lump, gv, gu, gc, gn);
    verts', uvs', cols', normals' := verts + gv, uvs + gu, cols + gc, normals + gn;
  }

  lemma GatheredStep(m: Mesh, src: seq<int>, keys: seq<TexScaleOffset>, verts: seq<Vec3>, uvs: seq<Vec2>,
                     cols: seq<Color32>, normals: seq<Vec3>, key: TexScaleOffset, lump: seq<int>,
                     gv: seq<Vec3>, gu: seq<Vec2>, gc: seq<Color32>, gn: seq<Vec3>)
    requires WellFormedMesh(m) && Gathered(m, src, keys, verts, uvs, cols, normals)
    requires forall j :: 0 <= j < |lump| ==> 0 <= lump[j] < |m.vertices|
    requires |gv| == |lump| && (forall j :: 0 <= j < |lump| ==> gv[j] == m.vertices[lump[j]])
    requires |gu| == (if |m.uv| > 0 then |lump| else 0) && (forall j :: 0 <= j < |gu| ==> gu[j] == TransformUv(m.uv[lump[j]], key))
    requires |gc| == (if |m.colors| > 0 then |lump| else 0) && (forall j :: 0 <= j < |gc| ==> gc[j] == m.colors[lump[j]])
    requires |gn| == (if |m.normals| > 0 then |lump| else 0) && (forall j :: 0 <= j < |gn| ==> gn[j] == m.normals[lump[j]])
    ensures Gathered(m, src + lump, keys + seq(|lump|, _ => key), verts + gv, uvs + gu, cols + gc, normals + gn)
  {
  }

  /** The final loop over the submeshes: every index is replaced by its
      decode entry, after the "Vertex missmatch" cross-check. */
  method RemapIndices(dm: DreamMesh, decode: seq<map<int, int>>, allVerts: seq<Vec3>) returns (out: seq<seq<int>>)
    requires GroupsInRange(dm) && |decode| == |dm.tso| == |dm.mesh.submeshes|
    requires forall j :: 0 <= j < |AllSlotSources(dm)| ==>
               0 <= AllSlotSources(dm)[j] < |dm.mesh.vertices| && j < |allVerts| && allVerts[j] == dm.mesh.vertices[AllSlotSources(dm)[j]]
    requires forall s :: 0 <= s < |decode| ==>
               DecodeSound(decode[s], dm.mesh.submeshes[s], AllSlotSources(dm), AllSlotKeys(dm), dm.tso[s])
    ensures |out| == |dm.mesh.submeshes|
    ensures forall s :: 0 <= s < |out| ==> SubmeshEncoded(dm, dm.mesh.submeshes[s], out[s], s)
  {
    var m := dm.mesh;
    var src := AllSlotSources(dm);
    out := [];
    var i := 0;
    while i < |decode|
      invariant 0 <= i <= |decode| && |out| == i
      invariant forall t :: 0 <= t < i ==> SubmeshEncoded(dm, m.submeshes[t], out[t], t)
    {
      var indices := m.submeshes[i];
      var encoded: seq<int> := [];
      var k := 0;
      while k < |indices|
        invariant 0 <= k <= |indices| && |encoded| == k
        invariant forall q :: 0 <= q < k ==> SlotOf(dm, indices[q], encoded[q], i)
      {
        var x := indices[k];
        if x !in decode[i] {
          assert false;
        }
        var slot := decode[i][x];
        if m.vertices[x] != allVerts[slot] {
          assert false;
        }
        encoded := encoded + [slot];
        k := k + 1;
      }
      out := out + [encoded];
      i := i + 1;
    }
  }

  ghost predicate SlotOf(dm: DreamMesh, x: int, slot: int, s: nat)
    requires GroupsInRange(dm) && s < |dm.tso|
  {
    0 <= slot < |AllSlotSources(dm)| && AllSlotSources(dm)[slot] == x && AllSlotKeys(dm)[slot] == dm.tso[s]
  }

  ghost predicate SubmeshEncoded(dm: DreamMesh, indices: seq<int>, encoded: seq<int>, s: nat)
    requires GroupsInRange(dm) && s < |dm.tso|
  {
    |encoded| == |indices| && forall q :: 0 <= q < |indices| ==> SlotOf(dm, indices[q], encoded[q], s)
  }

  /** The output layout: one vertex slot per (group, distinct index) pair, in
      group order then first-arrival order, with attributes copied (UVs
      transformed by the group's key), and every submesh index replaced by the
      slot of its own group that holds the same source vertex. */
  ghost predicate EncodedAsSpecified(dm: DreamMesh, e: EncodedMesh)
    requires GroupsInRange(dm) && |dm.tso| == |dm.mesh.submeshes|
  {
    && Gathered(dm.mesh, AllSlotSources(dm), AllSlotKeys(dm), e.vertices, e.uvs, e.colors, e.normals)
    && |e.vertices| <= MaxVertices
    && |e.indices| == |dm.mesh.submeshes|
    && (forall s :: 0 <= s < |dm.mesh.submeshes| ==> SubmeshEncoded(dm, dm.mesh.submeshes[s], e.indices[s], s))
  }

  // ---------------------------------------------------------------------------
  // Properties of the layout

  lemma {:induction false} GroupStreamContents(m: Mesh, members: seq<nat>)
    requires forall j :: 0 <= j < |members| ==> members[j] < |m.submeshes|
    ensures forall x :: x in GroupStream(m, members) <==> exists j :: 0 <= j < |members| && x in m.submeshes[members[j]]
  {
    if |members| > 0 {
      var init := members[..|members| - 1];
      GroupStreamContents(m, init);
      assert forall j :: 0 <= j < |init| ==> init[j] == members[j];
    }
  }

  /** A group's lump lists, once each, exactly the indices its submeshes use. */
  lemma LumpContents(dm: DreamMesh, h: nat)
    requires Partitioned(dm) && h < |dm.groupKeys|
    ensures NoDuplicates(Lumps(dm)[h])
    ensures forall x :: x in Lumps(dm)[h] <==>
              exists s :: 0 <= s < |dm.tso| && dm.tso[s] == dm.groupKeys[h] && x in dm.mesh.submeshes[s]
  {
    var members := dm.groupMembers[dm.groupKeys[h]];
    DistinctProperties(GroupStream(dm.mesh, members));
    GroupStreamContents(dm.mesh, members);
    forall x ensures x in Lumps(dm)[h] <==>
        exists s :: 0 <= s < |dm.tso| && dm.tso[s] == dm.groupKeys[h] && x in dm.mesh.submeshes[s]
    {
      if x in Lumps(dm)[h] {
        var j :| 0 <= j < |members| && x in dm.mesh.submeshes[members[j]];
        assert members[j] in members;
      }
      if exists s :: 0 <= s < |dm.tso| && dm.tso[s] == dm.groupKeys[h] && x in dm.mesh.submeshes[s] {
        var s :| 0 <= s < |dm.tso| && dm.tso[s] == dm.groupKeys[h] && x in dm.mesh.submeshes[s];
        assert s in members;
        var j :| 0 <= j < |members| && members[j] == s;
      }
    }
  }

  /** The encoder's "index_lump_linear.Count == 0" failure: a lump is empty
      exactly when every submesh of its group has no indices. */
  lemma LumpEmptyIff(dm: DreamMesh, h: nat)
    requires Partitioned(dm) && h < |dm.groupKeys|
    ensures Lumps(dm)[h] == [] <==> forall s :: 0 <= s < |dm.tso| && dm.tso[s] == dm.groupKeys[h] ==> dm.mesh.submeshes[s] == []
  {
    LumpContents(dm, h);
    if Lumps(dm)[h] != [] {
      var x := Lumps(dm)[h][0];
      assert x in Lumps(dm)[h];
      var s :| 0 <= s < |dm.tso| && dm.tso[s] == dm.groupKeys[h] && x in dm.mesh.submeshes[s];
      assert dm.mesh.submeshes[s] != [];
    }
    forall s | 0 <= s < |dm.tso| && dm.tso[s] == dm.groupKeys[h] && dm.mesh.submeshes[s] != []
      ensures Lumps(dm)[h] != []
    {
      var x := dm.mesh.submeshes[s][0];
      assert x in dm.mesh.submeshes[s];
      assert x in Lumps(dm)[h];
    }
  }

  function SumSizes(ls: seq<seq<int>>): nat
  {
    if |ls| == 0 then 0 else SumSizes(ls[..|ls| - 1]) + |ls[|ls| - 1]|
  }

  /** `replica_base` after the last group is the total of all lump sizes. */
  lemma {:induction false} ConcatLength(ls: seq<seq<int>>)
    ensures |Concat(ls)| == SumSizes(ls)
  {
    if |ls| > 0 {
      ConcatLength(ls[..|ls| - 1]);
    }
  }

  lemma {:induction false} ConcatKeysIn(ls: seq<seq<int>>, keys: seq<TexScaleOffset>)
    requires |ls| == |keys|
    ensures forall i :: 0 <= i < |ConcatKeys(ls, keys)| ==> ConcatKeys(ls, keys)[i] in keys
  {
    if |ls| > 0 {
      ConcatKeysIn(ls[..|ls| - 1], keys[..|keys| - 1]);
      assert forall i :: 0 <= i < |keys| - 1 ==> keys[..|keys| - 1][i] == keys[i];
    }
  }

  lemma {:induction false} ConcatPairsDistinct(ls: seq<seq<int>>, keys: seq<TexScaleOffset>)
    requires |ls| == |keys| && NoDuplicates(keys)
    requires forall h :: 0 <= h < |ls| ==> NoDuplicates(ls[h])
    ensures forall i, j :: 0 <= i < j < |Concat(ls)| ==>
              ConcatKeys(ls, keys)[i] != ConcatKeys(ls, keys)[j] || Concat(ls)[i] != Concat(ls)[j]
  {
    if |ls| > 0 {
      var n := |ls| - 1;
      var initL, initK := ls[..n], keys[..n];
      ConcatPairsDistinct(initL, initK);
      ConcatKeysIn(initL, initK);
      var c, k := Concat(ls), ConcatKeys(ls, keys);
      var ci, ki := Concat(initL), ConcatKeys(initL, initK);
      forall i, j | 0 <= i < j < |c| ensures k[i] != k[j] || c[i] != c[j] {
        if j >= |ci| && i < |ci| {
          assert k[j] == keys[n];
          assert k[i] == ki[i] && ki[i] in initK;
        } else if i >= |ci| {
          assert c[i] == ls[n][i - |ci|] && c[j] == ls[n][j - |ci|];
        }
      }
    }
  }

  /** Every output vertex slot is a distinct (group key, source index) pair, so
      a submesh index has exactly one slot in its group. */
  lemma SlotsDistinct(dm: DreamMesh)
    requires Partitioned(dm)
    ensures forall i, j :: 0 <= i < j < |AllSlotSources(dm)| ==>
              AllSlotKeys(dm)[i] != AllSlotKeys(dm)[j] || AllSlotSources(dm)[i] != AllSlotSources(dm)[j]
  {
    forall h | 0 <= h < |dm.groupKeys| ensures NoDuplicates(Lumps(dm)[h]) {
      LumpContents(dm, h);
    }
    ConcatPairsDistinct(Lumps(dm), dm.groupKeys);
  }

  /** What the runtime reads back: every emitted 16-bit index addresses a
      vertex equal to the one the submesh referenced, with the UV its material
      transform gives and the same colour and normal. */
  lemma EncodedIndexResolves(dm: DreamMesh, e: EncodedMesh, s: nat, q: nat)
    requires Partitioned(dm) && WellFormedMesh(dm.mesh) && EncodedAsSpecified(dm, e)
    requires s < |dm.mesh.submeshes| && q < |dm.mesh.submeshes[s]|
    ensures var slot, x := e.indices[s][q], dm.mesh.submeshes[s][q];
      && 0 <= slot < |e.vertices| <= MaxVertices
      && e.vertices[slot] == dm.mesh.vertices[x]
      && (|dm.mesh.uv| > 0 ==> e.uvs[slot] == TransformUv(dm.mesh.uv[x], dm.tso[s]))
      && (|dm.mesh.colors| > 0 ==> e.colors[slot] == dm.mesh.colors[x])
      && (|dm.mesh.normals| > 0 ==> e.normals[slot] == dm.mesh.normals[x])
  {
    assert SubmeshEncoded(dm, dm.mesh.submeshes[s], e.indices[s], s);
    assert SlotOf(dm, dm.mesh.submeshes[s][q], e.indices[s][q], s);
  }
}

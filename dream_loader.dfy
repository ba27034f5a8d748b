/** `loadDreamScene` of the first repacker: the `DCUE0000` scene file is read
    section by section (textures, materials, meshes, game objects) and each
    record is pushed onto a global vector. References between records are
    indices into the vectors as they stand when the record is read; an index
    out of range becomes a null reference. Pointers are modelled as those
    indices, and a `float` as the 32-bit word it was read from. */
module DreamLoader {
  import opened Wrappers
  import opened DreamStream

  datatype Texture = Texture(path: seq<Byte>, width: int, height: int, pixels: seq<Byte>)

  /** `a`, `r`, `g`, `b` are raw `float` words. */
  datatype Material = Material(a: nat, r: nat, g: nat, b: nat, texture: Option<nat>)

  /** Vertices, UVs and normals are raw `float` words, colours are `Color32`
      bytes and indices are `uint16_t` values. */
  datatype Mesh = Mesh(vertices: seq<nat>, uvs: Option<seq<nat>>, colors: Option<seq<Byte>>,
                       normals: Option<seq<nat>>, indices: seq<nat>)

  /** `transform` is the 16 words of the matrix. */
  datatype GameObject = GameObject(active: bool, transform: seq<nat>, meshEnabled: bool,
                                   mesh: Option<nat>, material: Option<nat>)

  /** Why loading stops: `exit(1)` on a bad header, or an allocation that
      throws (`new[]` of a negative length) or cannot be made (`malloc` of
      a negative `int` converted to `size_t`). */
  datatype LoadError = InvalidHeader | BadAllocation

  /** The records one call appends to each global vector. */
  datatype Loaded = Loaded(textures: seq<Texture>, materials: seq<Material>,
                           meshes: seq<Mesh>, gameObjects: seq<GameObject>)

  /** "DCUE0000" in ASCII. */
  const Magic: seq<Byte> := [68, 67, 85, 69, 48, 48, 48, 48]

  /** The number of iterations of `for (int i = 0; i < count; i++)`. */
  function Count(count: int): (r: nat)
    ensures count <= 0 ==> r == 0
    ensures count > 0 ==> r == count
  {
    if count < 0 then 0 else count
  }

  /** What `strcpy` copies out of a `std::string`: the bytes before the first
      zero byte. */
  function CString(s: seq<Byte>): (r: seq<Byte>)
    ensures |r| <= |s| && r == s[..|r|]
    ensures 0 !in r
    ensures |r| < |s| ==> s[|r|] == 0
  {
    if |s| == 0 || s[0] == 0 then [] else [s[0]] + CString(s[1..])
  }

  /** `idx >= 0 && idx < count ? vector[idx] : nullptr`, as an index. */
  function Resolve(idx: int, count: nat): (r: Option<nat>)
    ensures r.Some? <==> 0 <= idx < count
    ensures r.Some? ==> r.value == idx
  {
    if 0 <= idx < count then Some(idx) else None
  }

  /** A flag byte is true iff it is not zero. */
  function ByteAt(data: seq<Byte>, pos: nat): Byte
  {
    Take(data, pos, 1)[0]
  }

  // ---------------------------------------------------------------------------
  // Records

  function TextureAt(data: seq<Byte>, pos: nat): (r: Result<(Texture, nat), LoadError>)
    requires pos <= |data|
    ensures r.Ok? ==> pos <= r.value.1 <= |data|
    ensures r.Ok? ==> |r.value.0.pixels| == r.value.0.width * r.value.0.height * 4
    ensures r.Ok? ==> 0 !in r.value.0.path
  {
    var (path, p1) := StringAt(data, pos);
    var width := Int32At(data, p1);
    var p2 := Advance(data, p1, 4);
    var height := Int32At(data, p2);
    var p3 := Advance(data, p2, 4);
    var size := width * height * 4;
    if size < 0 then Err(BadAllocation)
    else
      var pixels := Take(data, p3, size);
      Ok((Texture(CString(path), width, height, pixels), Advance(data, p3, size)))
  }

  /** An optional index: a flag byte, then an `int` only if the flag is set. */
  function RefAt(data: seq<Byte>, pos: nat, count: nat): (r: (Option<nat>, nat))
    requires pos <= |data|
    ensures pos <= r.1 <= |data|
    ensures r.0.Some? ==> r.0.value < count
  {
    var p1 := Advance(data, pos, 1);
    if ByteAt(data, pos) == 0 then (None, p1)
    else (Resolve(Int32At(data, p1), count), Advance(data, p1, 4))
  }

  /** A material read while `textures` holds `nTex` entries. */
  function MaterialAt(data: seq<Byte>, pos: nat, nTex: nat): (r: (Material, nat))
    requires pos <= |data|
    ensures pos <= r.1 <= |data|
    ensures r.0.texture.Some? ==> r.0.texture.value < nTex
  {
    var w := Words(Take(data, pos, 16));
    var p1 := Advance(data, pos, 16);
    var (texture, p2) := RefAt(data, p1, nTex);
    (Material(w[0], w[1], w[2], w[3], texture), p2)
  }

  /** An `int` count, then `width` bytes per element only if it is positive. */
  function OptionalAt(data: seq<Byte>, pos: nat, width: nat): (r: (Option<seq<Byte>>, nat))
    requires pos <= |data|
    ensures pos <= r.1 <= |data|
    ensures r.0.Some? <==> Int32At(data, pos) > 0
    ensures r.0.Some? ==> |r.0.value| == width * Int32At(data, pos)
  {
    var count := Int32At(data, pos);
    var p1 := Advance(data, pos, 4);
    if count > 0 then
      var size: nat := width * count;
      (Some(Take(data, p1, size)), Advance(data, p1, size))
    else (None, p1)
  }

  /** `Some(Words(b))` for `Some(b)`. */
  function OptWords(b: Option<seq<Byte>>): (r: Option<seq<nat>>)
    ensures r.Some? <==> b.Some?
    ensures r.Some? ==> |r.value| == |b.value| / 4
  {
    match b
    case None => None
    case Some(v) => Some(Words(v))
  }

  function MeshAt(data: seq<Byte>, pos: nat): (r: Result<(Mesh, nat), LoadError>)
    requires pos <= |data|
    ensures r.Ok? ==> pos <= r.value.1 <= |data|
  {
    var vertexCount := Int32At(data, pos);
    var p1 := Advance(data, pos, 4);
    if vertexCount < 0 then Err(BadAllocation)
    else
      var vertices := Words(Take(data, p1, 12 * vertexCount));
      var p2 := Advance(data, p1, 12 * vertexCount);
      var (uvs, p3) := OptionalAt(data, p2, 8);
      var (colors, p4) := OptionalAt(data, p3, 4);
      var (normals, p5) := OptionalAt(data, p4, 12);
      var indexCount := Int32At(data, p5);
      var p6 := Advance(data, p5, 4);
      if indexCount < 0 then Err(BadAllocation)
      else
        var indices := Halves(Take(data, p6, 2 * indexCount));
        Ok((Mesh(vertices, OptWords(uvs), colors, OptWords(normals), indices), Advance(data, p6, 2 * indexCount)))
  }

  /** A loaded mesh has three words per vertex and normal, two per UV and
      four bytes per colour, and its optional arrays are never empty. */
  lemma MeshAtShape(data: seq<Byte>, pos: nat)
    requires pos <= |data| && MeshAt(data, pos).Ok?
    ensures MeshShape(MeshAt(data, pos).value.0)
  {
    var vertexCount := Int32At(data, pos);
    var p1 := Advance(data, pos, 4);
    var p2 := Advance(data, p1, 12 * vertexCount);
    var (uvs, p3) := OptionalAt(data, p2, 8);
    var (colors, p4) := OptionalAt(data, p3, 4);
    var normals := OptionalAt(data, p4, 12).0;
    var m := MeshAt(data, pos).value.0;
    assert m.vertices == Words(Take(data, p1, 12 * vertexCount));
    assert m.uvs == OptWords(uvs) && m.colors == colors && m.normals == OptWords(normals);
    Multiple(|m.vertices|, 3, vertexCount);
    OptionalShape(data, p2, 8, 2);
    if m.uvs.Some? {
      Multiple(|m.uvs.value|, 2, Int32At(data, p2));
    }
    if m.colors.Some? {
      Multiple(|m.colors.value|, 4, Int32At(data, p3));
    }
    OptionalShape(data, p4, 12, 3);
    if m.normals.Some? {
      Multiple(|m.normals.value|, 3, Int32At(data, p4));
    }
  }

  /** `k * c` is a multiple of `k`, for the element sizes a mesh uses. */
  lemma Multiple(n: nat, k: nat, c: int)
    requires (k == 2 || k == 3 || k == 4) && n == k * c
    ensures n % k == 0
  {
    if k == 2 {
      assert n == 2 * c;
    } else if k == 3 {
      assert n == 3 * c;
    } else {
      assert n == 4 * c;
    }
  }

  /** A present array of `4 * k`-byte elements holds `k` words per element. */
  lemma OptionalShape(data: seq<Byte>, pos: nat, width: nat, k: nat)
    requires pos <= |data| && width == 4 * k && k > 0
    ensures var w := OptWords(OptionalAt(data, pos, width).0);
            w.Some? ==> Int32At(data, pos) > 0 && |w.value| == k * Int32At(data, pos)
  {
    var b := OptionalAt(data, pos, width).0;
    if b.Some? {
      var c := Int32At(data, pos);
      assert |b.value| == 4 * (k * c);
      assert |b.value| / 4 == k * c;
    }
  }

  /** Three words per vertex and normal, two per UV and four bytes per
      colour; an optional array is present only when it is not empty. */
  ghost predicate MeshShape(m: Mesh)
  {
    && |m.vertices| % 3 == 0
    && (m.uvs.Some? ==> |m.uvs.value| > 0 && |m.uvs.value| % 2 == 0)
    && (m.colors.Some? ==> |m.colors.value| > 0 && |m.colors.value| % 4 == 0)
    && (m.normals.Some? ==> |m.normals.value| > 0 && |m.normals.value| % 3 == 0)
  }

  /** A game object read while `meshes` and `materials` hold `nMesh` and
      `nMat` entries. */
  function GameObjectAt(data: seq<Byte>, pos: nat, nMesh: nat, nMat: nat): (r: (GameObject, nat))
    requires pos <= |data|
    ensures pos <= r.1 <= |data|
    ensures |r.0.transform| == 16
    ensures r.0.mesh.Some? ==> r.0.mesh.value < nMesh
    ensures r.0.material.Some? ==> r.0.material.value < nMat
  {
    var active := ByteAt(data, pos) != 0;
    var p1 := Advance(data, pos, 1);
    var transform := Words(Take(data, p1, 64));
    var p2 := Advance(data, p1, 64);
    var meshEnabled := ByteAt(data, p2) != 0;
    var p3 := Advance(data, p2, 1);
    var (mesh, p4) := RefAt(data, p3, nMesh);
    var (material, p5) := RefAt(data, p4, nMat);
    (GameObject(active, transform, meshEnabled, mesh, material), p5)
  }

  // ---------------------------------------------------------------------------
  // Sections: `n` records read one after the other

  function TexturesAt(data: seq<Byte>, pos: nat, n: nat): (r: Result<(seq<Texture>, nat), LoadError>)
    requires pos <= |data|
    ensures r.Ok? ==> |r.value.0| == n && pos <= r.value.1 <= |data|
  {
    if n == 0 then Ok(([], pos))
    else
      match TexturesAt(data, pos, n - 1)
      case Err(e) => Err(e)
      case Ok((ts, p)) =>
        match TextureAt(data, p)
        case Err(e) => Err(e)
        case Ok((t, q)) => Ok((ts + [t], q))
  }

  function MaterialsAt(data: seq<Byte>, pos: nat, n: nat, nTex: nat): (r: (seq<Material>, nat))
    requires pos <= |data|
    ensures |r.0| == n && pos <= r.1 <= |data|
    ensures forall k :: 0 <= k < |r.0| ==> MaterialRefsIn(r.0[k], nTex)
  {
    if n == 0 then ([], pos)
    else
      var (ms, p) := MaterialsAt(data, pos, n - 1, nTex);
      var (m, q) := MaterialAt(data, p, nTex);
      (ms + [m], q)
  }

  function MeshesAt(data: seq<Byte>, pos: nat, n: nat): (r: Result<(seq<Mesh>, nat), LoadError>)
    requires pos <= |data|
    ensures r.Ok? ==> |r.value.0| == n && pos <= r.value.1 <= |data|
  {
    if n == 0 then Ok(([], pos))
    else
      match MeshesAt(data, pos, n - 1)
      case Err(e) => Err(e)
      case Ok((ms, p)) =>
        match MeshAt(data, p)
        case Err(e) => Err(e)
        case Ok((m, q)) => Ok((ms + [m], q))
  }

  function GameObjectsAt(data: seq<Byte>, pos: nat, n: nat, nMesh: nat, nMat: nat): (r: (seq<GameObject>, nat))
    requires pos <= |data|
    ensures |r.0| == n && pos <= r.1 <= |data|
    ensures forall k :: 0 <= k < |r.0| ==> GameObjectRefsIn(r.0[k], nMesh, nMat)
  {
    if n == 0 then ([], pos)
    else
      var (gs, p) := GameObjectsAt(data, pos, n - 1, nMesh, nMat);
      var (g, q) := GameObjectAt(data, p, nMesh, nMat);
      (gs + [g], q)
  }

  /** A material's texture, if any, is one of the first `nTex` textures. */
  ghost predicate MaterialRefsIn(m: Material, nTex: nat)
  {
    m.texture.Some? ==> m.texture.value < nTex
  }

  /** A game object's mesh and material, if any, are among the first `nMesh`
      meshes and `nMat` materials. */
  ghost predicate GameObjectRefsIn(g: GameObject, nMesh: nat, nMat: nat)
  {
    && (g.mesh.Some? ==> g.mesh.value < nMesh)
    && (g.material.Some? ==> g.material.value < nMat)
  }

  /** Every reference stored in the vectors names a loaded record: a
      pointer is either null or points into its vector. */
  ghost predicate RefsValid(l: Loaded)
  {
    && (forall i :: 0 <= i < |l.materials| ==> MaterialRefsIn(l.materials[i], |l.textures|))
    && (forall i :: 0 <= i < |l.gameObjects| ==> GameObjectRefsIn(l.gameObjects[i], |l.meshes|, |l.materials|))
  }

  /** The vectors in `after` start with those in `before`. */
  ghost predicate Extends(after: Loaded, before: Loaded)
  {
    && before.textures <= after.textures
    && before.materials <= after.materials
    && before.meshes <= after.meshes
    && before.gameObjects <= after.gameObjects
  }

  /** The four vectors after the whole file is loaded onto `before`. */
  function SceneAt(data: seq<Byte>, before: Loaded): Result<Loaded, LoadError>
  {
    if Take(data, 0, 8) != Magic then Err(InvalidHeader)
    else TexturesSection(data, Advance(data, 0, 8), before)
  }

  /** The vectors after the file from the texture count on is loaded. */
  function TexturesSection(data: seq<Byte>, pos: nat, before: Loaded): Result<Loaded, LoadError>
    requires pos <= |data|
  {
    match TexturesAt(data, Advance(data, pos, 4), Count(Int32At(data, pos)))
    case Err(e) => Err(e)
    case Ok((ts, p)) => MaterialsSection(data, p, before.(textures := before.textures + ts))
  }

  /** The vectors after the file from the material count on is loaded;
      texture references resolve against `before.textures`. */
  function MaterialsSection(data: seq<Byte>, pos: nat, before: Loaded): Result<Loaded, LoadError>
    requires pos <= |data|
  {
    var (ms, p) := MaterialsAt(data, Advance(data, pos, 4), Count(Int32At(data, pos)), |before.textures|);
    MeshesSection(data, p, before.(materials := before.materials + ms))
  }

  /** The vectors after the file from the mesh count on is loaded. */
  function MeshesSection(data: seq<Byte>, pos: nat, before: Loaded): Result<Loaded, LoadError>
    requires pos <= |data|
  {
    match MeshesAt(data, Advance(data, pos, 4), Count(Int32At(data, pos)))
    case Err(e) => Err(e)
    case Ok((mes, p)) => Ok(GameObjectsSection(data, p, before.(meshes := before.meshes + mes)))
  }

  /** The vectors after the game objects are loaded; mesh and material
      references resolve against `before`. */
  function GameObjectsSection(data: seq<Byte>, pos: nat, before: Loaded): Loaded
    requires pos <= |data|
  {
    var gs := GameObjectsAt(data, Advance(data, pos, 4), Count(Int32At(data, pos)), |before.meshes|, |before.materials|).0;
    before.(gameObjects := before.gameObjects + gs)
  }

  /** Loading only pushes onto the vectors, and a load onto vectors whose
      references are valid leaves them valid. */
  lemma SceneKeeps(data: seq<Byte>, before: Loaded)
    requires RefsValid(before)
    ensures SceneAt(data, before).Ok? ==> Extends(SceneAt(data, before).value, before) && RefsValid(SceneAt(data, before).value)
  {
    if Take(data, 0, 8) == Magic {
      TexturesKeep(data, Advance(data, 0, 8), before);
    }
  }

  lemma TexturesKeep(data: seq<Byte>, pos: nat, before: Loaded)
    requires pos <= |data| && RefsValid(before)
    ensures var after := TexturesSection(data, pos, before);
            after.Ok? ==> Extends(after.value, before) && RefsValid(after.value)
  {
    var tr := TexturesAt(data, Advance(data, pos, 4), Count(Int32At(data, pos)));
    if tr.Ok? {
      var next := before.(textures := before.textures + tr.value.0);
      TexturesSectionIs(data, pos, before, tr.value.0, tr.value.1);
      assert RefsValid(next) by {
        forall i | 0 <= i < |next.materials|
          ensures MaterialRefsIn(next.materials[i], |next.textures|)
        {
          assert MaterialRefsIn(before.materials[i], |before.textures|);
        }
      }
      MaterialsKeep(data, tr.value.1, next);
      ExtendsTrans(TexturesSection(data, pos, before), next, before);
    }
  }

  lemma MaterialsKeep(data: seq<Byte>, pos: nat, before: Loaded)
    requires pos <= |data| && RefsValid(before)
    ensures var after := MaterialsSection(data, pos, before);
            after.Ok? ==> Extends(after.value, before) && RefsValid(after.value)
  {
    var mr := MaterialsAt(data, Advance(data, pos, 4), Count(Int32At(data, pos)), |before.textures|);
    var next := before.(materials := before.materials + mr.0);
    MaterialsSectionIs(data, pos, before, mr.0, mr.1);
    assert RefsValid(next) by {
      forall i | 0 <= i < |next.materials|
        ensures MaterialRefsIn(next.materials[i], |next.textures|)
      {
        if i < |before.materials| {
          assert next.materials[i] == before.materials[i];
        } else {
          assert next.materials[i] == mr.0[i - |before.materials|];
        }
      }
      forall i | 0 <= i < |next.gameObjects|
        ensures GameObjectRefsIn(next.gameObjects[i], |next.meshes|, |next.materials|)
      {
        assert GameObjectRefsIn(before.gameObjects[i], |before.meshes|, |before.materials|);
      }
    }
    MeshesKeep(data, mr.1, next);
    ExtendsTrans(MaterialsSection(data, pos, before), next, before);
  }

  lemma MeshesKeep(data: seq<Byte>, pos: nat, before: Loaded)
    requires pos <= |data| && RefsValid(before)
    ensures var after := MeshesSection(data, pos, before);
            after.Ok? ==> Extends(after.value, before) && RefsValid(after.value)
  {
    var mr := MeshesAt(data, Advance(data, pos, 4), Count(Int32At(data, pos)));
    if mr.Ok? {
      var next := before.(meshes := before.meshes + mr.value.0);
      MeshesSectionIs(data, pos, before, mr.value.0, mr.value.1);
      assert RefsValid(next) by {
        forall i | 0 <= i < |next.gameObjects|
          ensures GameObjectRefsIn(next.gameObjects[i], |next.meshes|, |next.materials|)
        {
          assert GameObjectRefsIn(before.gameObjects[i], |before.meshes|, |before.materials|);
        }
      }
      GameObjectsKeep(data, mr.value.1, next);
      ExtendsTrans(MeshesSection(data, pos, before), next, before);
    }
  }

  lemma GameObjectsKeep(data: seq<Byte>, pos: nat, before: Loaded)
    requires pos <= |data| && RefsValid(before)
    ensures var after := GameObjectsSection(data, pos, before);
            Extends(after, before) && RefsValid(after)
  {
    var gs := GameObjectsAt(data, Advance(data, pos, 4), Count(Int32At(data, pos)), |before.meshes|, |before.materials|).0;
    var after := GameObjectsSection(data, pos, before);
    assert after.gameObjects == before.gameObjects + gs;
    forall i | 0 <= i < |after.gameObjects|
      ensures GameObjectRefsIn(after.gameObjects[i], |after.meshes|, |after.materials|)
    {
      if i < |before.gameObjects| {
        assert after.gameObjects[i] == before.gameObjects[i];
      } else {
        assert after.gameObjects[i] == gs[i - |before.gameObjects|];
      }
    }
  }

  /** `Extends` through an intermediate state. */
  lemma ExtendsTrans(after: Result<Loaded, LoadError>, mid: Loaded, before: Loaded)
    requires after.Ok? ==> Extends(after.value, mid)
    requires Extends(mid, before)
    ensures after.Ok? ==> Extends(after.value, before)
  {
  }

  lemma TexturesSectionIs(data: seq<Byte>, pos: nat, before: Loaded, ts: seq<Texture>, p: nat)
    requires pos <= |data| && TexturesAt(data, Advance(data, pos, 4), Count(Int32At(data, pos))) == Ok((ts, p))
    ensures p <= |data|
    ensures TexturesSection(data, pos, before) == MaterialsSection(data, p, before.(textures := before.textures + ts))
  {
  }

  lemma MaterialsSectionIs(data: seq<Byte>, pos: nat, before: Loaded, ms: seq<Material>, p: nat)
    requires pos <= |data|
    requires MaterialsAt(data, Advance(data, pos, 4), Count(Int32At(data, pos)), |before.textures|) == (ms, p)
    ensures p <= |data|
    ensures MaterialsSection(data, pos, before) == MeshesSection(data, p, before.(materials := before.materials + ms))
  {
  }

  lemma MeshesSectionIs(data: seq<Byte>, pos: nat, before: Loaded, mes: seq<Mesh>, p: nat)
    requires pos <= |data| && MeshesAt(data, Advance(data, pos, 4), Count(Int32At(data, pos))) == Ok((mes, p))
    ensures p <= |data|
    ensures MeshesSection(data, pos, before) == Ok(GameObjectsSection(data, p, before.(meshes := before.meshes + mes)))
  {
  }

  /** One more texture extends a section that read so far. */
  lemma TexturesStep(data: seq<Byte>, pos: nat, n: nat, ts: seq<Texture>, p: nat)
    requires pos <= |data| && TexturesAt(data, pos, n) == Ok((ts, p))
    ensures p <= |data|
    ensures TextureAt(data, p).Ok? ==>
              TexturesAt(data, pos, n + 1) == Ok((ts + [TextureAt(data, p).value.0], TextureAt(data, p).value.1))
    ensures TextureAt(data, p).Err? ==> TexturesAt(data, pos, n + 1) == Err(TextureAt(data, p).error)
  {
  }

  /** Once a record fails, every longer section fails the same way. */
  lemma TexturesErrStep(data: seq<Byte>, pos: nat, k: nat, e: LoadError)
    requires pos <= |data| && TexturesAt(data, pos, k) == Err(e)
    ensures TexturesAt(data, pos, k + 1) == Err(e)
  {
  }

  lemma {:induction false} TexturesErrPersists(data: seq<Byte>, pos: nat, n: nat, m: nat, e: LoadError)
    requires pos <= |data| && n <= m && TexturesAt(data, pos, n) == Err(e)
    ensures TexturesAt(data, pos, m) == Err(e)
    decreases m - n
  {
    if n < m {
      TexturesErrStep(data, pos, n, e);
      TexturesErrPersists(data, pos, n + 1, m, e);
    }
  }

  lemma MeshesStep(data: seq<Byte>, pos: nat, n: nat, ms: seq<Mesh>, p: nat)
    requires pos <= |data| && MeshesAt(data, pos, n) == Ok((ms, p))
    ensures p <= |data|
    ensures MeshAt(data, p).Ok? ==>
              MeshesAt(data, pos, n + 1) == Ok((ms + [MeshAt(data, p).value.0], MeshAt(data, p).value.1))
    ensures MeshAt(data, p).Err? ==> MeshesAt(data, pos, n + 1) == Err(MeshAt(data, p).error)
  {
  }

  lemma MeshesErrStep(data: seq<Byte>, pos: nat, k: nat, e: LoadError)
    requires pos <= |data| && MeshesAt(data, pos, k) == Err(e)
    ensures MeshesAt(data, pos, k + 1) == Err(e)
  {
  }

  lemma {:induction false} MeshesErrPersists(data: seq<Byte>, pos: nat, n: nat, m: nat, e: LoadError)
    requires pos <= |data| && n <= m && MeshesAt(data, pos, n) == Err(e)
    ensures MeshesAt(data, pos, m) == Err(e)
    decreases m - n
  {
    if n < m {
      MeshesErrStep(data, pos, n, e);
      MeshesErrPersists(data, pos, n + 1, m, e);
    }
  }

  // ---------------------------------------------------------------------------
  // The loader

  method ReadTexture(r: Reader) returns (res: Result<Texture, LoadError>)
    requires r.Valid()
    modifies r
    ensures r.Valid()
    ensures res.Ok? ==> TextureAt(r.data, old(r.pos)) == Ok((res.value, r.pos))
    ensures res.Err? ==> TextureAt(r.data, old(r.pos)) == Err(res.error)
  {
    var path := r.ReadString();
    var width := r.ReadInt32();
    var height := r.ReadInt32();
    var size := width * height * 4;
    if size < 0 {
      return Err(BadAllocation);
    }
    var pixels := r.ReadBytes(size);
    res := Ok(Texture(CString(path), width, height, pixels));
  }

  method ReadRef(r: Reader, count: nat) returns (ref: Option<nat>)
    requires r.Valid()
    modifies r
    ensures r.Valid()
    ensures (ref, r.pos) == RefAt(r.data, old(r.pos), count)
  {
    var flag := r.ReadBytes(1);
    ref := None;
    if flag[0] != 0 {
      var idx := r.ReadInt32();
      ref := Resolve(idx, count);
    }
  }

  method ReadMaterial(r: Reader, nTex: nat) returns (m: Material)
    requires r.Valid()
    modifies r
    ensures r.Valid()
    ensures (m, r.pos) == MaterialAt(r.data, old(r.pos), nTex)
  {
    var argb := r.ReadBytes(16);
    var w := Words(argb);
    var texture := ReadRef(r, nTex);
    m := Material(w[0], w[1], w[2], w[3], texture);
  }

  method ReadOptional(r: Reader, width: nat) returns (b: Option<seq<Byte>>)
    requires r.Valid()
    modifies r
    ensures r.Valid()
    ensures (b, r.pos) == OptionalAt(r.data, old(r.pos), width)
  {
    var count := r.ReadInt32();
    b := None;
    if count > 0 {
      var bytes := r.ReadBytes(width * count);
      b := Some(bytes);
    }
  }

  method ReadMesh(r: Reader) returns (res: Result<Mesh, LoadError>)
    requires r.Valid()
    modifies r
    ensures r.Valid()
    ensures res.Ok? ==> MeshAt(r.data, old(r.pos)) == Ok((res.value, r.pos))
    ensures res.Err? ==> MeshAt(r.data, old(r.pos)) == Err(res.error)
  {
    var vertexCount := r.ReadInt32();
    if vertexCount < 0 {
      return Err(BadAllocation);
    }
    var vertexBytes := r.ReadBytes(12 * vertexCount);
    var uvs := ReadOptional(r, 8);
    var colors := ReadOptional(r, 4);
    var normals := ReadOptional(r, 12);
    var indexCount := r.ReadInt32();
    if indexCount < 0 {
      return Err(BadAllocation);
    }
    var indexBytes := r.ReadBytes(2 * indexCount);
    res := Ok(Mesh(Words(vertexBytes), OptWords(uvs), colors, OptWords(normals), Halves(indexBytes)));
  }

  method ReadGameObject(r: Reader, nMesh: nat, nMat: nat) returns (g: GameObject)
    requires r.Valid()
    modifies r
    ensures r.Valid()
    ensures (g, r.pos) == GameObjectAt(r.data, old(r.pos), nMesh, nMat)
  {
    var active := r.ReadBytes(1);
    var transform := r.ReadBytes(64);
    var meshEnabled := r.ReadBytes(1);
    var mesh := ReadRef(r, nMesh);
    var material := ReadRef(r, nMat);
    g := GameObject(active[0] != 0, Words(transform), meshEnabled[0] != 0, mesh, material);
  }

  /** The texture section's loop, pushing each record as it is read. */
  method ReadTextures(r: Reader, count: int) returns (res: Result<seq<Texture>, LoadError>)
    requires r.Valid()
    modifies r
    ensures r.Valid()
    ensures res.Ok? ==> TexturesAt(r.data, old(r.pos), Count(count)) == Ok((res.value, r.pos))
    ensures res.Err? ==> TexturesAt(r.data, old(r.pos), Count(count)) == Err(res.error)
  {
    ghost var p0 := r.pos;
    var loaded: seq<Texture> := [];
    var i := 0;
    while i < count
      invariant 0 <= i <= Count(count) && TexturesRead(r, p0, i, loaded)
    {
      var t := ReadTextureStep(r, p0, i, loaded, Count(count));
      if t.Err? {
        return Err(t.error);
      }
      loaded := loaded + [t.value];
      i := i + 1;
    }
    assert i == Count(count);
    res := Ok(loaded);
  }

  /** One iteration of the texture section's loop. */
  method ReadTextureStep(r: Reader, ghost p0: nat, ghost i: nat, ghost loaded: seq<Texture>, ghost n: nat) returns (res: Result<Texture, LoadError>)
    requires TexturesRead(r, p0, i, loaded) && i < n
    modifies r
    ensures r.Valid()
    ensures res.Ok? ==> TexturesRead(r, p0, i + 1, loaded + [res.value])
    ensures res.Err? ==> TexturesAt(r.data, p0, n) == Err(res.error)
  {
    TexturesStep(r.data, p0, i, loaded, r.pos);
    res := ReadTexture(r);
    if res.Err? {
      TexturesErrPersists(r.data, p0, i + 1, n, res.error);
    }
  }

  ghost predicate TexturesRead(r: Reader, p0: nat, i: nat, loaded: seq<Texture>)
    reads r
  {
    r.Valid() && p0 <= |r.data| && TexturesAt(r.data, p0, i) == Ok((loaded, r.pos))
  }

  method ReadMaterials(r: Reader, count: int, nTex: nat) returns (ms: seq<Material>)
    requires r.Valid()
    modifies r
    ensures r.Valid()
    ensures (ms, r.pos) == MaterialsAt(r.data, old(r.pos), Count(count), nTex)
  {
    ghost var p0 := r.pos;
    ms := [];
    var i := 0;
    while i < count
      invariant 0 <= i <= Count(count) && MaterialsRead(r, p0, i, nTex, ms)
    {
      var m := ReadMaterial(r, nTex);
      ms := ms + [m];
      i := i + 1;
    }
    assert i == Count(count);
  }

  ghost predicate MaterialsRead(r: Reader, p0: nat, i: nat, nTex: nat, loaded: seq<Material>)
    reads r
  {
    r.Valid() && p0 <= |r.data| && MaterialsAt(r.data, p0, i, nTex) == (loaded, r.pos)
  }

  method ReadMeshes(r: Reader, count: int) returns (res: Result<seq<Mesh>, LoadError>)
    requires r.Valid()
    modifies r
    ensures r.Valid()
    ensures res.Ok? ==> MeshesAt(r.data, old(r.pos), Count(count)) == Ok((res.value, r.pos))
    ensures res.Err? ==> MeshesAt(r.data, old(r.pos), Count(count)) == Err(res.error)
  {
    ghost var p0 := r.pos;
    var loaded: seq<Mesh> := [];
    var i := 0;
    while i < count
      invariant 0 <= i <= Count(count) && MeshesRead(r, p0, i, loaded)
    {
      var m := ReadMeshStep(r, p0, i, loaded, Count(count));
      if m.Err? {
        return Err(m.error);
      }
      loaded := loaded + [m.value];
      i := i + 1;
    }
    assert i == Count(count);
    res := Ok(loaded);
  }

  /** One iteration of the mesh section's loop. */
  method ReadMeshStep(r: Reader, ghost p0: nat, ghost i: nat, ghost loaded: seq<Mesh>, ghost n: nat) returns (res: Result<Mesh, LoadError>)
    requires MeshesRead(r, p0, i, loaded) && i < n
    modifies r
    ensures r.Valid()
    ensures res.Ok? ==> MeshesRead(r, p0, i + 1, loaded + [res.value])
    ensures res.Err? ==> MeshesAt(r.data, p0, n) == Err(res.error)
  {
    MeshesStep(r.data, p0, i, loaded, r.pos);
    res := ReadMesh(r);
    if res.Err? {
      MeshesErrPersists(r.data, p0, i + 1, n, res.error);
    }
  }

  ghost predicate MeshesRead(r: Reader, p0: nat, i: nat, loaded: seq<Mesh>)
    reads r
  {
    r.Valid() && p0 <= |r.data| && MeshesAt(r.data, p0, i) == Ok((loaded, r.pos))
  }

  method ReadGameObjects(r: Reader, count: int, nMesh: nat, nMat: nat) returns (gs: seq<GameObject>)
    requires r.Valid()
    modifies r
    ensures r.Valid()
    ensures (gs, r.pos) == GameObjectsAt(r.data, old(r.pos), Count(count), nMesh, nMat)
  {
    ghost var p0 := r.pos;
    gs := [];
    var i := 0;
    while i < count
      invariant 0 <= i <= Count(count) && GameObjectsRead(r, p0, i, nMesh, nMat, gs)
    {
      var g := ReadGameObject(r, nMesh, nMat);
      gs := gs + [g];
      i := i + 1;
    }
    assert i == Count(count);
  }

  ghost predicate GameObjectsRead(r: Reader, p0: nat, i: nat, nMesh: nat, nMat: nat, loaded: seq<GameObject>)
    reads r
  {
    r.Valid() && p0 <= |r.data| && GameObjectsAt(r.data, p0, i, nMesh, nMat) == (loaded, r.pos)
  }

  /** The four global vectors the loader pushes onto. */
  class SceneStore {
    var textures: seq<Texture>
    var materials: seq<Material>
    var meshes: seq<Mesh>
    var gameObjects: seq<GameObject>

    constructor ()
      ensures textures == [] && materials == [] && meshes == [] && gameObjects == []
    {
      textures, materials, meshes, gameObjects := [], [], [], [];
    }

    function Contents(): Loaded
      reads this
    {
      Loaded(textures, materials, meshes, gameObjects)
    }

    /** `loadDreamScene` on the contents of the file. */
    method LoadDreamScene(data: seq<Byte>) returns (err: Option<LoadError>)
      modifies this
      ensures var spec := SceneAt(data, old(Contents()));
              && (err.None? <==> spec.Ok?)
              && (err.Some? ==> spec == Err(err.value))
              && (spec.Ok? ==> Contents() == spec.value)
      ensures Take(data, 0, 8) != Magic ==> err == Some(InvalidHeader) && Contents() == old(Contents())
    {
      var r := new Reader(data);
      var header := r.ReadBytes(8);
      if header != Magic {
        return Some(InvalidHeader);
      }
      err := LoadTexturesSection(r);
    }

    method LoadTexturesSection(r: Reader) returns (err: Option<LoadError>)
      requires r.Valid()
      modifies this, r
      ensures var spec := TexturesSection(r.data, old(r.pos), old(Contents()));
              && (err.None? <==> spec.Ok?)
              && (err.Some? ==> spec == Err(err.value))
              && (spec.Ok? ==> Contents() == spec.value)
    {
      ghost var p0 := r.pos;
      var textureCount := r.ReadInt32();
      var ts := ReadTextures(r, textureCount);
      if ts.Err? {
        return Some(ts.error);
      }
      TexturesSectionIs(r.data, p0, Contents(), ts.value, r.pos);
      textures := textures + ts.value;
      err := LoadMaterialsSection(r);
    }

    method LoadMaterialsSection(r: Reader) returns (err: Option<LoadError>)
      requires r.Valid()
      modifies this, r
      ensures var spec := MaterialsSection(r.data, old(r.pos), old(Contents()));
              && (err.None? <==> spec.Ok?)
              && (err.Some? ==> spec == Err(err.value))
              && (spec.Ok? ==> Contents() == spec.value)
    {
      ghost var p0 := r.pos;
      var materialCount := r.ReadInt32();
      var ms := ReadMaterials(r, materialCount, |textures|);
      MaterialsSectionIs(r.data, p0, Contents(), ms, r.pos);
      materials := materials + ms;
      err := LoadMeshesSection(r);
    }

    method LoadMeshesSection(r: Reader) returns (err: Option<LoadError>)
      requires r.Valid()
      modifies this, r
      ensures var spec := MeshesSection(r.data, old(r.pos), old(Contents()));
              && (err.None? <==> spec.Ok?)
              && (err.Some? ==> spec == Err(err.value))
              && (spec.Ok? ==> Contents() == spec.value)
    {
      ghost var p0 := r.pos;
      var meshCount := r.ReadInt32();
      var mes := ReadMeshes(r, meshCount);
      if mes.Err? {
        return Some(mes.error);
      }
      MeshesSectionIs(r.data, p0, Contents(), mes.value, r.pos);
      meshes := meshes + mes.value;
      LoadGameObjectsSection(r);
      err := None;
    }

    method LoadGameObjectsSection(r: Reader)
      requires r.Valid()
      modifies this, r
      ensures Contents() == GameObjectsSection(r.data, old(r.pos), old(Contents()))
    {
      var gameObjectCount := r.ReadInt32();
      var gs := ReadGameObjects(r, gameObjectCount, |meshes|, |materials|);
      gameObjects := gameObjects + gs;
    }
  }
}

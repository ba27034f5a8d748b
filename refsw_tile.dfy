/** The per-tile buffers of the reference renderer
    (vendor/emu/refsw/refsw_tile.cpp): tag status, the two tag buffers, the
    stencil, the two colour accumulators and the three depth buffers of one
    32 x 32 tile, with the clear, peel and stencil-summary passes, the
    depth-and-tag step of a pixel (`PixelFlush_isp`) and the blending unit. */
module RefswTile {
  import opened RefswPixel

  const MaxRenderPixels: nat := 1024

  type u32 = x: nat | x < 0x1_0000_0000

  /** `valid`: the tag buffer holds a polygon for this pixel; `rendered`:
      a punch-through pass already shaded it. */
  datatype TagState = TagState(valid: bool, rendered: bool)

  /** The render modes `PixelFlush_isp` is instantiated with. */
  datatype RenderMode =
    | Opaque
    | PunchthroughPass0
    | PunchthroughPassN
    | PunchthroughMv
    | TranslucentAutosort
    | TranslucentPresort
    | Modifier

  // ---------------------------------------------------------------------
  // PixelFlush_isp on one pixel

  /** What one pixel holds across the buffers `PixelFlush_isp` touches:
      depth A (the test buffer) and B (the peel reference), tag A and B, the
      tag status and the stencil. Depths are inverse W values, larger is
      nearer. */
  datatype Pixel = Pixel(zA: real, zB: real, tagA: u32, tagB: u32, status: TagState, stencil: bv8)

  /** The pixel after a flush and whether it raised `MoreToDraw`. */
  datatype Flush = Flush(pixel: Pixel, more: bool)

  /** The depth compare mode in force: punch-through and modifier passes
      use greater-or-equal, autosort uses less-or-equal, the rest the
      polygon's own mode. */
  function EffectiveMode(rm: RenderMode, depthMode: nat): nat
  {
    if rm == PunchthroughPass0 || rm == PunchthroughPassN then 6
    else if rm == TranslucentAutosort then 3
    else if rm == Modifier then 6
    else depthMode
  }

  /** Whether a fragment at `invW` passes the compare against the stored
      `z`: never, less, equal, less-or-equal, greater, not-equal,
      greater-or-equal, always; modes past 7 pass. */
  function DepthPasses(mode: nat, invW: real, z: real): bool
  {
    if mode == 0 then false
    else if mode == 1 then invW < z
    else if mode == 2 then invW == z
    else if mode == 3 then invW <= z
    else if mode == 4 then invW > z
    else if mode == 5 then invW != z
    else if mode == 6 then invW >= z
    else true
  }

  /** The eight compare modes come in complementary pairs `m`, `7 - m`. */
  lemma DepthComplement(mode: nat, invW: real, z: real)
    requires mode < 8
    ensures DepthPasses(7 - mode, invW, z) == !DepthPasses(mode, invW, z)
  {
  }

  /** `PixelFlush_isp<render_mode>(depth_mode, ZWriteDis, ..., invW, index,
      tag)` on the pixel at `index`. The modifier-volume punch-through mode
      aborts in the source and is excluded. */
  function FlushIsp(rm: RenderMode, depthMode: nat, zWriteDis: nat, invW: real, tag: u32, p: Pixel): (r: Flush)
    requires rm != PunchthroughMv
    ensures r.pixel.zB == p.zB && r.pixel.tagB == p.tagB && r.pixel.status.rendered == p.status.rendered
    ensures rm != Modifier ==> r.pixel.stencil == p.stencil
    ensures rm == Modifier ==> r.pixel.(stencil := p.stencil) == p
    ensures r.more ==> rm in {PunchthroughPassN, TranslucentAutosort}
  {
    if !DepthPasses(EffectiveMode(rm, depthMode), invW, p.zA) then
      Flush(p, rm == TranslucentAutosort)
    else
      match rm
      case Opaque =>
        Flush(p.(zA := if zWriteDis == 0 then invW else p.zA, tagA := tag, status := p.status.(valid := true)), false)
      case TranslucentPresort =>
        Flush(p.(zA := if zWriteDis == 0 then invW else p.zA, tagA := tag, status := p.status.(valid := true)), false)
      case Modifier =>
        Flush(p.(stencil := ModifierHit(p.stencil)), false)
      case PunchthroughPass0 =>
        Flush(p.(zA := invW, tagA := tag, status := p.status.(valid := true)), false)
      case PunchthroughPassN =>
        if p.status.rendered || invW > p.zB || (invW == p.zB && tag <= p.tagB) then Flush(p, false)
        else Flush(p.(zA := invW, tagA := tag), true)
      case TranslucentAutosort =>
        if invW < p.zB || (invW == p.zB && tag >= p.tagB) then Flush(p, false)
        else Flush(p.(zA := invW, tagA := tag, status := p.status.(valid := true)), p.status.valid)
  }

  /** A failed depth test leaves the pixel alone; only autosort then asks
      for another pass. Mode 0 always fails. */
  lemma FlushDepthFail(rm: RenderMode, depthMode: nat, zWriteDis: nat, invW: real, tag: u32, p: Pixel)
    requires rm != PunchthroughMv
    requires !DepthPasses(EffectiveMode(rm, depthMode), invW, p.zA)
    ensures FlushIsp(rm, depthMode, zWriteDis, invW, tag, p) == Flush(p, rm == TranslucentAutosort)
  {
  }

  /** Mode 0 never writes in the modes that honour the polygon's compare
      mode, and mode 7 always lets the write through. */
  lemma FlushNeverAlways(rm: RenderMode, zWriteDis: nat, invW: real, tag: u32, p: Pixel)
    requires rm in {Opaque, TranslucentPresort}
    ensures FlushIsp(rm, 0, zWriteDis, invW, tag, p) == Flush(p, false)
    ensures FlushIsp(rm, 7, zWriteDis, invW, tag, p).pixel.tagA == tag
    ensures FlushIsp(rm, 7, zWriteDis, invW, tag, p).pixel.status.valid
  {
  }

  /** Punch-through, modifier and autosort passes ignore the polygon's
      compare mode. */
  lemma ForcedModes(rm: RenderMode, depthMode: nat, zWriteDis: nat, invW: real, tag: u32, p: Pixel)
    requires rm in {PunchthroughPass0, PunchthroughPassN, Modifier, TranslucentAutosort}
    ensures FlushIsp(rm, depthMode, zWriteDis, invW, tag, p) == FlushIsp(rm, 0, zWriteDis, invW, tag, p)
  {
  }

  /** The opaque (depth pre-pass) write: on a pass the tag is taken and
      marked valid, and the depth is written exactly when Z writes are not
      disabled. */
  lemma OpaqueWrite(depthMode: nat, zWriteDis: nat, invW: real, tag: u32, p: Pixel)
    requires DepthPasses(depthMode, invW, p.zA)
    ensures var r := FlushIsp(Opaque, depthMode, zWriteDis, invW, tag, p);
      && r.pixel.tagA == tag && r.pixel.status.valid && !r.more
      && (r.pixel.zA == invW <==> zWriteDis == 0 || p.zA == invW)
  {
  }

  /** Layer peeling for autosorted translucency: a fragment is taken only
      if it lies between the reference layer B and the best candidate so
      far (ties at the reference broken by a smaller tag), so the candidate
      stays between them; another pass is requested when a candidate is
      displaced or a fragment fails the test. */
  lemma AutosortPeel(invW: real, tag: u32, p: Pixel)
    requires p.zB <= p.zA
    ensures var r := FlushIsp(TranslucentAutosort, 0, 0, invW, tag, p);
      && p.zB <= r.pixel.zA <= p.zA
      && (r.pixel != p ==> r.pixel.zA == invW && r.pixel.tagA == tag && (invW == p.zB ==> tag < p.tagB))
      && (invW > p.zA ==> r == Flush(p, true))
      && (r.pixel != p ==> r.more == p.status.valid)
  {
  }

  /** Punch-through peeling: an unrendered pixel takes a fragment no
      farther than the current layer and no nearer than the reference, and
      every such take asks for another pass. */
  lemma PunchthroughPeel(invW: real, tag: u32, p: Pixel)
    requires p.zA <= p.zB
    ensures var r := FlushIsp(PunchthroughPassN, 0, 0, invW, tag, p);
      && p.zA <= r.pixel.zA <= p.zB
      && (r.pixel != p ==> r.more)
      && (p.status.rendered ==> r == Flush(p, false))
      && (r.more ==> r.pixel.zA == invW && r.pixel.tagA == tag && (invW == p.zB ==> tag > p.tagB))
  {
  }

  /** A modifier face that passes flips the parity bit and marks the
      pixel; one that fails leaves it. */
  lemma ModifierStencil(invW: real, tag: u32, p: Pixel)
    ensures var r := FlushIsp(Modifier, 0, 0, invW, tag, p);
      r.pixel.stencil == (if invW >= p.zA then ModifierHit(p.stencil) else p.stencil)
  {
  }

  /** One fragment of a polygon at a pixel. */
  datatype Fragment = Fragment(invW: real, tag: u32)

  /** Flushing fragments in order; `more` collects the raised flags. */
  function FlushAll(rm: RenderMode, depthMode: nat, zWriteDis: nat, fs: seq<Fragment>, p: Pixel): (r: Flush)
    requires rm != PunchthroughMv
    ensures r.pixel.zB == p.zB && r.pixel.tagB == p.tagB
  {
    if fs == [] then Flush(p, false)
    else
      var f := FlushAll(rm, depthMode, zWriteDis, fs[..|fs| - 1], p);
      var last := fs[|fs| - 1];
      var g := FlushIsp(rm, depthMode, zWriteDis, last.invW, last.tag, f.pixel);
      Flush(g.pixel, f.more || g.more)
  }

  /** With greater-or-equal testing and Z writes on, the opaque pass keeps
      the nearest depth: the final depth is at least the start and every
      fragment, and is the start or one of the fragments. */
  lemma {:induction false} OpaqueNearestWins(fs: seq<Fragment>, p: Pixel)
    ensures var r := FlushAll(Opaque, 6, 0, fs, p).pixel;
      && p.zA <= r.zA
      && (forall i :: 0 <= i < |fs| ==> fs[i].invW <= r.zA)
      && (r.zA == p.zA || exists i :: 0 <= i < |fs| && fs[i].invW == r.zA)
  {
    if fs != [] {
      var init := fs[..|fs| - 1];
      OpaqueNearestWins(init, p);
      var f := FlushAll(Opaque, 6, 0, init, p).pixel;
      var r := FlushAll(Opaque, 6, 0, fs, p).pixel;
      var last := fs[|fs| - 1];
      assert r == FlushIsp(Opaque, 6, 0, last.invW, last.tag, f).pixel;
      assert r.zA == if last.invW >= f.zA then last.invW else f.zA;
      forall i | 0 <= i < |fs|
        ensures fs[i].invW <= r.zA
      {
        if i < |fs| - 1 {
          assert fs[i] == init[i];
        }
      }
      if r.zA != p.zA && r.zA != last.invW {
        var i :| 0 <= i < |init| && init[i].invW == f.zA;
        assert fs[i] == init[i];
      }
    }
  }

  // ---------------------------------------------------------------------
  // The tile buffers

  /** The tile's buffers. The source keeps them as globals; here they are
      the arrays of one object. */
  class Tile {
    const tagStatus: array<TagState>
    const tagA: array<u32>
    const tagB: array<u32>
    const stencil: array<bv8>
    const color1: array<Color>
    const color2: array<Color>
    const depthA: array<real>
    const depthB: array<real>
    const depthC: array<real>
    var moreToDraw: bool

    /** The buffers have the tile's size and are separate. */
    ghost predicate Valid()
      reads this
    {
      && tagStatus.Length == MaxRenderPixels
      && tagA.Length == MaxRenderPixels && tagB.Length == MaxRenderPixels
      && stencil.Length == MaxRenderPixels
      && color1.Length == MaxRenderPixels && color2.Length == MaxRenderPixels
      && depthA.Length == MaxRenderPixels && depthB.Length == MaxRenderPixels
      && depthC.Length == MaxRenderPixels
      && color1 != color2
      && tagStatus as object != tagA && tagStatus as object != tagB && tagStatus as object != stencil && tagStatus as object != depthA && tagStatus as object != depthB && tagStatus as object != depthC
      && tagA as object != tagB && tagA as object != stencil && tagA as object != depthA && tagA as object != depthB && tagA as object != depthC
      && tagB as object != stencil && tagB as object != depthA && tagB as object != depthB && tagB as object != depthC
      && stencil as object != depthA && stencil as object != depthB && stencil as object != depthC
      && depthA as object != depthB && depthA as object != depthC
      && depthB as object != depthC
    }

    /** Zero-initialised storage, as for the source's globals. */
    constructor ()
      ensures Valid() && !moreToDraw
      ensures fresh(tagStatus) && fresh(tagA) && fresh(tagB) && fresh(stencil)
      ensures fresh(color1) && fresh(color2) && fresh(depthA) && fresh(depthB) && fresh(depthC)
      ensures forall i :: 0 <= i < MaxRenderPixels ==>
        && tagStatus[i] == TagState(false, false) && tagA[i] == 0 && tagB[i] == 0 && stencil[i] == 0
        && color1[i] == Black && color2[i] == Black
        && depthA[i] == 0.0 && depthB[i] == 0.0 && depthC[i] == 0.0
    {
      tagStatus := new TagState[MaxRenderPixels](_ => TagState(false, false));
      tagA := new u32[MaxRenderPixels](_ => 0);
      tagB := new u32[MaxRenderPixels](_ => 0);
      stencil := new bv8[MaxRenderPixels](_ => 0);
      color1 := new Color[MaxRenderPixels](_ => Black);
      color2 := new Color[MaxRenderPixels](_ => Black);
      depthA := new real[MaxRenderPixels](_ => 0.0);
      depthB := new real[MaxRenderPixels](_ => 0.0);
      depthC := new real[MaxRenderPixels](_ => 0.0);
      moreToDraw := false;
    }

    /** The buffers at one pixel. */
    ghost function PixelAt(i: nat): Pixel
      requires Valid() && i < MaxRenderPixels
      reads this, depthA, depthB, tagA, tagB, tagStatus, stencil
    {
      Pixel(depthA[i], depthB[i], tagA[i], tagB[i], tagStatus[i], stencil[i])
    }

    /** `ClearBuffers`: depth A, stencil (truncated to 8 bits) and tag A
        take the given values everywhere, and every pixel becomes valid and
        unrendered. */
    method ClearBuffers(paramValue: u32, depthValue: real, stencilValue: u32)
      requires Valid()
      modifies depthA, stencil, tagA, tagStatus
      ensures Valid()
      ensures forall i :: 0 <= i < MaxRenderPixels ==>
        && depthA[i] == depthValue && stencil[i] == (stencilValue % 256) as bv8
        && tagA[i] == paramValue && tagStatus[i] == TagState(true, false)
    {
      var low := (stencilValue % 256) as bv8;
      for i := 0 to MaxRenderPixels
        invariant forall k :: 0 <= k < i ==>
          && depthA[k] == depthValue && stencil[k] == low
          && tagA[k] == paramValue && tagStatus[k] == TagState(true, false)
      {
        depthA[i] := depthValue;
        stencil[i] := low;
        tagA[i] := paramValue;
        tagStatus[i] := TagState(true, false);
      }
    }

    /** `ClearParamStatusBuffer`: every pixel becomes invalid and
        unrendered. */
    method ClearParamStatusBuffer()
      requires Valid()
      modifies tagStatus
      ensures Valid()
      ensures forall i :: 0 <= i < MaxRenderPixels ==> tagStatus[i] == TagState(false, false)
    {
      for i := 0 to MaxRenderPixels
        invariant forall k :: 0 <= k < i ==> tagStatus[k] == TagState(false, false)
      {
        tagStatus[i] := TagState(false, false);
      }
    }

    /** `PeelBuffersPTInitial`: depth A is saved in C (the alpha-test
        feedback copy), status and stencil are cleared. The depth argument
        is unused by the source. */
    method PeelBuffersPTInitial(depthValue: real)
      requires Valid()
      modifies depthC, tagStatus, stencil
      ensures Valid()
      ensures forall i :: 0 <= i < MaxRenderPixels ==>
        depthC[i] == depthA[i] && tagStatus[i] == TagState(false, false) && stencil[i] == 0
    {
      forall i | 0 <= i < MaxRenderPixels {
        depthC[i] := depthA[i];
      }
      for i := 0 to MaxRenderPixels
        invariant forall k :: 0 <= k < MaxRenderPixels ==> depthC[k] == depthA[k]
        invariant forall k :: 0 <= k < i ==> tagStatus[k] == TagState(false, false) && stencil[k] == 0
      {
        tagStatus[i] := TagState(false, false);
        stencil[i] := 0;
      }
    }

    /** `PeelBuffersPT`: the current layer (depth and tag A) becomes the
        reference (B). */
    method PeelBuffersPT()
      requires Valid()
      modifies depthB, tagB
      ensures Valid()
      ensures forall i :: 0 <= i < MaxRenderPixels ==> depthB[i] == depthA[i] && tagB[i] == tagA[i]
    {
      forall i | 0 <= i < MaxRenderPixels {
        depthB[i] := depthA[i];
      }
      forall i | 0 <= i < MaxRenderPixels {
        tagB[i] := tagA[i];
      }
    }

    /** `PeelBuffers`: the current layer becomes the reference, then depth
        A, status and stencil are reset for the next layer. */
    method PeelBuffers(depthValue: real, stencilValue: u32)
      requires Valid()
      modifies depthA, depthB, tagB, tagStatus, stencil
      ensures Valid()
      ensures forall i :: 0 <= i < MaxRenderPixels ==>
        && depthB[i] == old(depthA[i]) && tagB[i] == tagA[i]
        && depthA[i] == depthValue && tagStatus[i] == TagState(false, false)
        && stencil[i] == (stencilValue % 256) as bv8
    {
      PeelBuffersPT();
      var low := (stencilValue % 256) as bv8;
      for i := 0 to MaxRenderPixels
        invariant forall k :: 0 <= k < MaxRenderPixels ==> depthB[k] == old(depthA[k]) && tagB[k] == tagA[k]
        invariant forall k :: 0 <= k < i ==>
          && depthA[k] == depthValue && tagStatus[k] == TagState(false, false)
          && stencil[k] == low
      {
        depthA[i] := depthValue;
        tagStatus[i] := TagState(false, false);
        stencil[i] := low;
      }
    }

    /** `SummarizeStencilOr`: every marked pixel is reduced to its
        inside-volume bit under the OR rule. */
    method SummarizeStencilOr()
      requires Valid()
      modifies stencil
      ensures Valid()
      ensures forall i :: 0 <= i < MaxRenderPixels ==> stencil[i] == SummaryOr(old(stencil[i]))
    {
      for i := 0 to MaxRenderPixels
        invariant forall k :: 0 <= k < i ==> stencil[k] == SummaryOr(old(stencil[k]))
        invariant forall k :: i <= k < MaxRenderPixels ==> stencil[k] == old(stencil[k])
      {
        var s := stencil[i];
        if s & 4 != 0 {
          s := s | (s >> 1);
          s := s & 1;
        }
        stencil[i] := s;
      }
    }

    /** `SummarizeStencilAnd`: every marked pixel is reduced to its
        inside-volume bit under the AND rule. */
    method SummarizeStencilAnd()
      requires Valid()
      modifies stencil
      ensures Valid()
      ensures forall i :: 0 <= i < MaxRenderPixels ==> stencil[i] == SummaryAnd(old(stencil[i]))
    {
      for i := 0 to MaxRenderPixels
        invariant forall k :: 0 <= k < i ==> stencil[k] == SummaryAnd(old(stencil[k]))
        invariant forall k :: i <= k < MaxRenderPixels ==> stencil[k] == old(stencil[k])
      {
        var s := stencil[i];
        if s & 4 != 0 {
          s := s & (s >> 1);
          s := s & 1;
        }
        stencil[i] := s;
      }
    }

    method ClearMoreToDraw()
      modifies this
      ensures !moreToDraw
    {
      moreToDraw := false;
    }

    method GetMoreToDraw() returns (more: bool)
      ensures more == moreToDraw
    {
      more := moreToDraw;
    }

    /** The first switch of `PixelFlush_isp`: the compare of a fragment
        against the stored depth. */
    static method DepthTest(mode: nat, invW: real, z: real) returns (pass: bool)
      ensures pass == DepthPasses(mode, invW, z)
    {
      pass := true;
      if mode == 0 {
        pass := false;
      } else if mode == 1 {
        if invW >= z { pass := false; }
      } else if mode == 2 {
        if invW != z { pass := false; }
      } else if mode == 3 {
        if invW > z { pass := false; }
      } else if mode == 4 {
        if invW <= z { pass := false; }
      } else if mode == 5 {
        if invW == z { pass := false; }
      } else if mode == 6 {
        if invW < z { pass := false; }
      }
    }

    /** `PixelFlush_isp`: the depth test and the per-mode update of the
        pixel at `index`, as `FlushIsp` describes it; nothing else
        changes. */
    method PixelFlushIsp(rm: RenderMode, depthMode: nat, zWriteDis: nat, invW: real, index: nat, tag: u32)
      requires Valid() && index < MaxRenderPixels && rm != PunchthroughMv
      modifies this, depthA, tagA, tagStatus, stencil
      ensures Valid()
      ensures var f := FlushIsp(rm, depthMode, zWriteDis, invW, tag, old(PixelAt(index)));
        PixelAt(index) == f.pixel && moreToDraw == (old(moreToDraw) || f.more)
      ensures forall i :: 0 <= i < MaxRenderPixels && i != index ==> PixelAt(i) == old(PixelAt(i))
    {
      ghost var p := PixelAt(index);
      ghost var f := FlushIsp(rm, depthMode, zWriteDis, invW, tag, p);
      var mode := depthMode;
      if rm == PunchthroughPass0 || rm == PunchthroughPassN {
        mode := 6;
      } else if rm == TranslucentAutosort {
        mode := 3;
      } else if rm == Modifier {
        mode := 6;
      }
      assert mode == EffectiveMode(rm, depthMode);
      var pass := DepthTest(mode, invW, depthA[index]);
      if !pass {
        FlushDepthFail(rm, depthMode, zWriteDis, invW, tag, p);
        if rm == TranslucentAutosort {
          moreToDraw := true;
        }
        return;
      }

      UpdatePixel(rm, depthMode, zWriteDis, invW, index, tag);
    }

    /** The second switch of `PixelFlush_isp`: the per-mode update of a
        pixel whose depth test passed. */
    method UpdatePixel(rm: RenderMode, ghost depthMode: nat, zWriteDis: nat, invW: real, index: nat, tag: u32)
      requires Valid() && index < MaxRenderPixels && rm != PunchthroughMv
      requires DepthPasses(EffectiveMode(rm, depthMode), invW, depthA[index])
      modifies this, depthA, tagA, tagStatus, stencil
      ensures Valid()
      ensures var f := FlushIsp(rm, depthMode, zWriteDis, invW, tag, old(PixelAt(index)));
        PixelAt(index) == f.pixel && moreToDraw == (old(moreToDraw) || f.more)
      ensures forall i :: 0 <= i < MaxRenderPixels && i != index ==> PixelAt(i) == old(PixelAt(i))
    {
      ghost var p := PixelAt(index);
      ghost var f := FlushIsp(rm, depthMode, zWriteDis, invW, tag, p);
      match rm {
        case Opaque =>
          assert f == Flush(p.(zA := if zWriteDis == 0 then invW else p.zA, tagA := tag, status := p.status.(valid := true)), false);
          if zWriteDis == 0 {
            depthA[index] := invW;
          }
          tagA[index] := tag;
          tagStatus[index] := tagStatus[index].(valid := true);
        case Modifier =>
          assert f == Flush(p.(stencil := ModifierHit(p.stencil)), false);
          stencil[index] := ModifierHit(stencil[index]);
        case PunchthroughPass0 =>
          assert f == Flush(p.(zA := invW, tagA := tag, status := p.status.(valid := true)), false);
          depthA[index] := invW;
          tagA[index] := tag;
          tagStatus[index] := tagStatus[index].(valid := true);
        case PunchthroughPassN =>
          var zRef, tagRendered := depthB[index], tagB[index];
          if tagStatus[index].rendered || invW > zRef || (invW == zRef && tag <= tagRendered) {
            assert f == Flush(p, false);
          } else {
            assert f == Flush(p.(zA := invW, tagA := tag), true);
            moreToDraw := true;
            depthA[index] := invW;
            tagA[index] := tag;
          }
        case TranslucentPresort =>
          assert f == Flush(p.(zA := if zWriteDis == 0 then invW else p.zA, tagA := tag, status := p.status.(valid := true)), false);
          if zWriteDis == 0 {
            depthA[index] := invW;
          }
          tagA[index] := tag;
          tagStatus[index] := tagStatus[index].(valid := true);
        case TranslucentAutosort =>
          var zRef, tagRendered, status := depthB[index], tagB[index], tagStatus[index];
          if invW < zRef || (invW == zRef && tag >= tagRendered) {
            assert f == Flush(p, false);
          } else {
            assert f == Flush(p.(zA := invW, tagA := tag, status := status.(valid := true)), status.valid);
            depthA[index] := invW;
            if status.valid {
              moreToDraw := true;
            }
            tagStatus[index] := status.(valid := true);
            tagA[index] := tag;
          }
      }
    }

    /** `BlendingUnit<SrcSel, DstSel, SrcInst, DstInst>(index, col)`: the
        source is `col` or accumulator 2, the destination accumulator 1 or
        2, and their blend replaces the destination entry; nothing else
        changes. */
    method BlendingUnit(srcSel: bool, dstSel: bool, srcInst: nat, dstInst: nat, index: nat, col: Color)
      requires Valid() && index < MaxRenderPixels && srcInst < 8 && dstInst < 8
      modifies color1, color2
      ensures Valid()
      ensures var src := if srcSel then old(color2[index]) else col;
        var dst := if dstSel then old(color2[index]) else old(color1[index]);
        var rv := Blend(srcInst, dstInst, src, dst);
        && color1[..] == (if dstSel then old(color1[..]) else old(color1[..])[index := rv])
        && color2[..] == (if dstSel then old(color2[..])[index := rv] else old(color2[..]))
    {
      var src := if srcSel then color2[index] else col;
      var dst := if dstSel then color2[index] else color1[index];
      var srcBlend := BlendCoefs(srcInst, false, src, dst);
      var dstBlend := BlendCoefs(dstInst, true, src, dst);
      var rv: seq<u8> := [];
      for j := 0 to 4
        invariant |rv| == j
        invariant forall k :: 0 <= k < j ==> rv[k] == BlendChannel(src[k], srcBlend[k], dst[k], dstBlend[k])
      {
        rv := rv + [BlendChannel(src[j], srcBlend[j], dst[j], dstBlend[j])];
      }
      assert rv == Blend(srcInst, dstInst, src, dst);
      if dstSel {
        color2[index] := rv;
      } else {
        color1[index] := rv;
      }
    }
  }
}

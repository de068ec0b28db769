/**
 * Immediate-mode UI drawing: each frame collects boxes and shadows, each
 * recorded at the depth on top of a stack of z values, and draws them at
 * the end of the frame (the drawing itself is not modelled).
 */
module PixelDraw {
  import opened Layout

  /** `UI::Color`: `0xRRGGBBAA`. */
  type Color = bv32

  /** The colour scheme's constants. */
  const Bg: Color := 0xFAFAFAFF
  const Divider: Color := 0xE0E0E0FF
  const Hilight: Color := 0x7B1FFAFF

  /** Byte `k` of a colour, counting from the least significant. */
  function ByteOf(c: Color, k: nat): bv32
    requires k < 4
  {
    if k == 0 then c & 0xFF
    else if k == 1 then (c >> 8) & 0xFF
    else if k == 2 then (c >> 16) & 0xFF
    else (c >> 24) & 0xFF
  }

  /** `ColorSwizzle`: the colour's four bytes in the opposite order, as the GPU reads them. */
  function ColorSwizzle(color: Color): (r: Color)
    ensures ByteOf(r, 0) == ByteOf(color, 3) && ByteOf(r, 1) == ByteOf(color, 2)
    ensures ByteOf(r, 2) == ByteOf(color, 1) && ByteOf(r, 3) == ByteOf(color, 0)
  {
    var ret: bv32 := 0;
    var ret := ret | ((color & 0xFF000000) >> 24);
    var ret := ret | ((color & 0x00FF0000) >> 8);
    var ret := ret | ((color & 0x0000FF00) << 8);
    ret | ((color & 0x000000FF) << 24)
  }

  /** Swizzling twice gives the colour back. */
  lemma SwizzleTwice(color: Color)
    ensures ColorSwizzle(ColorSwizzle(color)) == color
  {
  }

  /** `AlignedBox2i`: two corners. */
  datatype Box = Box(min: V2, max: V2)

  /** `UIBox`: a box with fill and stroke colours (swizzled) at a depth. */
  datatype UIBox = UIBox(box: Box, fill: Color, stroke: Color, z: int)

  /** `Box2z`: a shadow box at a depth. */
  datatype Box2z = Box2z(box: Box, z: int)

  /** The z stack after `PushZ(dz)`: a new top `dz` above the current one. */
  function PushedZ(zs: seq<int>, dz: int): (r: seq<int>)
    requires |zs| >= 1
    ensures |r| == |zs| + 1 && r[..|zs|] == zs && r[|zs|] - zs[|zs| - 1] == dz
  {
    zs + [zs[|zs| - 1] + dz]
  }

  /** The z stack after `PopZ`. */
  function PoppedZ(zs: seq<int>): (r: seq<int>)
    requires |zs| >= 1
    ensures |r| == |zs| - 1 && forall i :: 0 <= i < |r| ==> r[i] == zs[i]
  {
    zs[..|zs| - 1]
  }

  /** `PopZ` after `PushZ` gives back the stack, and so the depth, from before. */
  lemma PushThenPop(zs: seq<int>, dz: int)
    requires |zs| >= 1
    ensures PoppedZ(PushedZ(zs, dz)) == zs
    ensures var r := PoppedZ(PushedZ(zs, dz)); r[|r| - 1] == zs[|zs| - 1]
  {
    assert PushedZ(zs, dz)[..|zs|] == zs;
  }

  /** `Visuals`: what the current frame will draw. */
  class Visuals {
    var boxes: seq<UIBox>
    var shadows: seq<Box2z>
    var zStack: seq<int>

    /** `Visuals()`: nothing to draw, at depth 1. */
    constructor ()
      ensures boxes == [] && shadows == [] && zStack == [1]
    {
      boxes := [];
      shadows := [];
      zStack := [1];
    }

    /** `CurZ`: the depth on top of the stack. */
    function CurZ(): (z: int)
      reads this
      requires |zStack| >= 1
      ensures z == zStack[|zStack| - 1]
    {
      zStack[|zStack| - 1]
    }

    method PushZ(dz: int)
      requires |zStack| >= 1
      modifies this
      ensures zStack == PushedZ(old(zStack), dz) && CurZ() == old(CurZ()) + dz
      ensures boxes == old(boxes) && shadows == old(shadows)
    {
      zStack := zStack + [zStack[|zStack| - 1] + dz];
    }

    method PopZ()
      requires |zStack| >= 1
      modifies this
      ensures zStack == PoppedZ(old(zStack))
      ensures boxes == old(boxes) && shadows == old(shadows)
    {
      zStack := zStack[..|zStack| - 1];
    }

    /** `DrawBox`: one box, colours swizzled, at the current depth; nothing else changes. */
    method DrawBox(box: Box, fill: Color, stroke: Color)
      requires |zStack| >= 1
      modifies this
      ensures boxes == old(boxes) + [UIBox(box, ColorSwizzle(fill), ColorSwizzle(stroke), old(CurZ()))]
      ensures shadows == old(shadows) && zStack == old(zStack)
    {
      boxes := boxes + [UIBox(box, ColorSwizzle(fill), ColorSwizzle(stroke), CurZ())];
    }

    /** `DrawBox(box)`: the background colour for both fill and stroke. */
    method DrawPlainBox(box: Box)
      requires |zStack| >= 1
      modifies this
      ensures boxes == old(boxes) + [UIBox(box, ColorSwizzle(Bg), ColorSwizzle(Bg), old(CurZ()))]
      ensures shadows == old(shadows) && zStack == old(zStack)
    {
      DrawBox(box, Bg, Bg);
    }

    /** `DrawHlBox`: an unfilled highlight outline one step above the current depth. */
    method DrawHlBox(box: Box)
      requires |zStack| >= 1
      modifies this
      ensures boxes == old(boxes) + [UIBox(box, 0, ColorSwizzle(Hilight), old(CurZ()) + 1)]
      ensures shadows == old(shadows) && zStack == old(zStack)
    {
      boxes := boxes + [UIBox(box, 0, ColorSwizzle(Hilight), CurZ() + 1)];
    }

    /** `DrawShadow`: one shadow at the current depth. */
    method DrawShadow(box: Box)
      requires |zStack| >= 1
      modifies this
      ensures shadows == old(shadows) + [Box2z(box, old(CurZ()))]
      ensures boxes == old(boxes) && zStack == old(zStack)
    {
      shadows := shadows + [Box2z(box, CurZ())];
    }

    /**
     * `DrawDivider`: a one-pixel-high unfilled box along the top edge (from
     * the top-left to the top-right corner, the latter one pixel lower).
     */
    method DrawDivider(box: Box)
      requires |zStack| >= 1
      modifies this
      ensures boxes == old(boxes) + [UIBox(Box(V2(box.min.x, box.max.y), V2(box.max.x, box.max.y + 1)),
        ColorSwizzle(0), ColorSwizzle(Divider), old(CurZ()))]
      ensures shadows == old(shadows) && zStack == old(zStack)
    {
      DrawBox(Box(V2(box.min.x, box.max.y), V2(box.max.x, box.max.y + 1)), 0, Divider);
    }

    /** The `FrameVisuals() = {}` of `BeginFrame`. */
    method Reset()
      modifies this
      ensures boxes == [] && shadows == [] && zStack == [1]
    {
      boxes := [];
      shadows := [];
      zStack := [1];
    }
  }

  /**
   * `BeginFrame`: the frame's visuals start empty at depth 1, and the layout
   * stack starts over with one layout the size of the window.
   */
  method BeginFrame(vis: Visuals, layout: LayoutStack, windowSize: V2)
    modifies vis, layout
    ensures vis.boxes == [] && vis.shadows == [] && vis.zStack == [1] && vis.CurZ() == 1
    ensures layout.stack == [Top(windowSize, Right)]
  {
    vis.Reset();
    layout.stack := [Top(windowSize, Right)];
  }
}

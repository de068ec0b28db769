/**
 * UI layout: a layout is a rectangle that children fill one after another
 * along its direction (vertically for `Up`/`Down`, horizontally for
 * `Left`/`Right`), and a stack of layouts, the innermost on top.
 *
 * The model follows `UI/Layout.cpp`, whose layout has one direction, a
 * filled size, a size and a position.  The `UI/Layout.hpp` beside it
 * declares a later layout (separate fill and grow directions, `maxFill`,
 * `across`, `PutSpace(int advance)`, `EnsureWidth`, `Inset`, grids) that
 * `Layout.cpp` does not implement; it is not modelled.
 */
module Layout {
  /** `Vector2i`. */
  datatype V2 = V2(x: int, y: int)

  datatype Dir = Up | Down | Left | Right

  /** `Layout`: fill direction, the extent filled so far, the size, and the origin. */
  datatype Layout = Layout(direction: Dir, filledSize: V2, size: V2, pos: V2)

  predicate Vertical(d: Dir) {
    d == Up || d == Down
  }

  /** The component along the fill axis of a layout filling in `d`. */
  function Along(v: V2, d: Dir): int {
    if Vertical(d) then v.y else v.x
  }

  /** The component across the fill axis. */
  function Across(v: V2, d: Dir): int {
    if Vertical(d) then v.x else v.y
  }

  function MaxInt(a: int, b: int): int { if a >= b then a else b }

  /**
   * `getNext`: the space for the next child, starting where the filled part
   * ends, as wide as the layout across its axis and empty along it.
   */
  function GetNext(l: Layout, dir: Dir): (c: Layout)
    ensures c.direction == dir && c.filledSize == V2(0, 0)
    ensures Along(c.pos, l.direction) == Along(l.pos, l.direction) + Along(l.filledSize, l.direction)
    ensures Across(c.pos, l.direction) == Across(l.pos, l.direction)
    ensures Along(c.size, l.direction) == 0 && Across(c.size, l.direction) == Across(l.size, l.direction)
  {
    if l.direction == Up || l.direction == Down then
      Layout(dir, V2(0, 0), V2(l.size.x, 0), V2(l.pos.x, l.pos.y + l.filledSize.y))
    else
      Layout(dir, V2(0, 0), V2(0, l.size.y), V2(l.pos.x + l.filledSize.x, l.pos.y))
  }

  /**
   * `putNext`: account for a placed child: the filled extent grows by the
   * child's extent along the axis; across it, both the filled extent and
   * the size become the larger of the filled extent and the child's.
   */
  function PutNext(l: Layout, child: Layout): (r: Layout)
    ensures r.direction == l.direction && r.pos == l.pos
    ensures Along(r.filledSize, l.direction) == Along(l.filledSize, l.direction) + Along(child.size, l.direction)
    ensures Across(r.filledSize, l.direction) == MaxInt(Across(l.filledSize, l.direction), Across(child.size, l.direction))
    ensures Along(r.size, l.direction) == Along(l.size, l.direction)
    ensures Across(r.size, l.direction) == Across(r.filledSize, l.direction)
  {
    if l.direction == Up || l.direction == Down then
      var across := MaxInt(l.filledSize.x, child.size.x);
      l.(filledSize := V2(across, l.filledSize.y + child.size.y), size := V2(across, l.size.y))
    else
      var across := MaxInt(l.filledSize.y, child.size.y);
      l.(filledSize := V2(l.filledSize.x + child.size.x, across), size := V2(l.size.x, across))
  }

  /** `Top`: an empty layout of the given size at the origin. */
  function Top(box: V2, dir: Dir): (l: Layout)
    ensures l.filledSize == V2(0, 0) && l.pos == V2(0, 0) && l.size == box && l.direction == dir
  {
    Layout(dir, V2(0, 0), box, V2(0, 0))
  }

  /** `getLast`: the next child's space, taking all that remains along the axis. */
  function GetLast(l: Layout, dir: Dir): (c: Layout)
    ensures c.pos == GetNext(l, dir).pos && c.direction == dir
    ensures Along(c.size, l.direction) == Along(l.size, l.direction) - Along(l.filledSize, l.direction)
    ensures Across(c.size, l.direction) == Across(l.size, l.direction)
  {
    var ret := GetNext(l, dir);
    if l.direction == Up || l.direction == Down then
      ret.(size := V2(l.size.x, l.size.y - l.filledSize.y))
    else
      ret.(size := V2(l.size.x - l.filledSize.x, l.size.y))
  }

  /** The last child ends exactly at the layout's far edge. */
  lemma GetLastReachesEdge(l: Layout, dir: Dir)
    ensures var c := GetLast(l, dir);
      Along(c.pos, l.direction) + Along(c.size, l.direction) == Along(l.pos, l.direction) + Along(l.size, l.direction)
  {
  }

  /** Placing the last child fills the layout along its axis. */
  lemma GetLastFills(l: Layout, dir: Dir)
    ensures Along(PutNext(l, GetLast(l, dir)).filledSize, l.direction) == Along(l.size, l.direction)
  {
  }

  /** Children are laid end to end: after placing one, the next starts where it ends. */
  lemma ChildrenAbut(l: Layout, child: Layout, dir: Dir, dir': Dir)
    ensures var first := GetNext(l, dir); var second := GetNext(PutNext(l, child), dir');
      Along(second.pos, l.direction) == Along(first.pos, l.direction) + Along(child.size, l.direction)
      && Across(second.pos, l.direction) == Across(first.pos, l.direction)
  {
  }

  /** Placing an untouched `getNext` child leaves the filled extent along the axis unchanged. */
  lemma EmptyChildKeepsFill(l: Layout, dir: Dir)
    ensures Along(PutNext(l, GetNext(l, dir)).filledSize, l.direction) == Along(l.filledSize, l.direction)
  {
  }

  /** `LayoutStack`: the layouts being filled, outermost first. */
  class LayoutStack {
    var stack: seq<Layout>

    /** One `Top` layout of the given size. */
    constructor (box: V2, dir: Dir)
      ensures stack == [Top(box, dir)]
    {
      stack := [Top(box, dir)];
    }

    /** `PushLayer`: a fresh top-level layout of the base layer's size. */
    method PushLayer(dir: Dir)
      requires |stack| >= 1
      modifies this
      ensures stack == old(stack) + [Top(old(stack)[0].size, dir)]
    {
      stack := stack + [Top(stack[0].size, dir)];
    }

    /** `PushNext`: a new layout in the next child's space of the current one. */
    method PushNext(dir: Dir)
      requires |stack| >= 1
      modifies this
      ensures stack == old(stack) + [GetNext(old(stack)[|old(stack)| - 1], dir)]
    {
      var l := GetNext(stack[|stack| - 1], dir);
      stack := stack + [l];
    }

    /**
     * `Pop`: remove the current layout, account for it in its parent (if
     * any), and give the space that was left in it.
     */
    method Pop(dir: Dir) returns (l: Layout)
      requires |stack| >= 1
      modifies this
      ensures var n := |old(stack)|;
        l == GetLast(old(stack)[n - 1], dir) &&
        stack == if n == 1 then [] else old(stack)[..n - 2] + [PutNext(old(stack)[n - 2], old(stack)[n - 1])]
    {
      l := GetLast(stack[|stack| - 1], dir);
      var popped := stack[|stack| - 1];
      stack := stack[..|stack| - 1];
      if |stack| > 0 {
        stack := stack[..|stack| - 1] + [PutNext(stack[|stack| - 1], popped)];
      }
    }

    /** `PushRest`: pop the current layout and push the space that was left in it. */
    method PushRest(dir: Dir)
      requires |stack| >= 1
      modifies this
      ensures var n := |old(stack)|;
        stack == (if n == 1 then [] else old(stack)[..n - 2] + [PutNext(old(stack)[n - 2], old(stack)[n - 1])])
          + [GetLast(old(stack)[n - 1], dir)]
    {
      var l := Pop(dir);
      stack := stack + [l];
    }

    /**
     * `PutSpace`: claim the next child's space, grown to at least `size`,
     * in the current layout, and give it.  The source calls `getNext()`
     * with no direction, which `getNext`'s signature does not allow; the
     * direction is a parameter here.
     */
    method PutSpace(size: V2, dir: Dir) returns (l: Layout)
      requires |stack| >= 1
      modifies this
      ensures var n := |old(stack)|; var next := GetNext(old(stack)[n - 1], dir);
        l == next.(size := V2(MaxInt(next.size.x, size.x), MaxInt(next.size.y, size.y))) &&
        stack == old(stack)[..n - 1] + [PutNext(old(stack)[n - 1], l)]
    {
      l := GetNext(stack[|stack| - 1], dir);
      l := l.(size := V2(MaxInt(l.size.x, size.x), MaxInt(l.size.y, size.y)));
      stack := stack[..|stack| - 1] + [PutNext(stack[|stack| - 1], l)];
    }
  }

  /** A claimed space is at least as large as requested and starts where the filled part ended. */
  lemma PutSpaceCoversRequest(l: Layout, size: V2, dir: Dir)
    ensures var next := GetNext(l, dir);
      var s := next.(size := V2(MaxInt(next.size.x, size.x), MaxInt(next.size.y, size.y)));
      s.size.x >= size.x && s.size.y >= size.y
      && Across(s.size, l.direction) >= Across(l.size, l.direction)
      && Along(PutNext(l, s).filledSize, l.direction) >= Along(l.filledSize, l.direction) + Along(size, l.direction)
  {
  }
}

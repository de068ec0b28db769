/**
 * `tuple_tree`: tuples stored level by level, each level an `l_bag` of nodes.
 * A node above the bottom holds its value and the perma ref of its first
 * child in the level below; a node's children run from its first child up to
 * the next node's first child.  Emplacing a tuple walks down the levels,
 * reusing a node whose value already occurs among the current children.
 *
 * Levels are values here: a level's edits are the ones `LBag.Bag.Emplace` is
 * proved to make (`BagEmplace`).  All levels share one value type, and a
 * bottom node's `child` is unused (0).
 */
module TupleTree {
  import opened Sequences
  import LBag

  datatype Node<T> = Node(first: T, child: nat)

  /** One level: the `l_bag`'s store and slot table. */
  datatype Level<T> = Level(store: seq<Node<T>>, inds: seq<int>)

  /** What an emplace returns: the new levels and one perma ref per level, top first. */
  datatype Emplaced<T> = Emplaced(levels: seq<Level<T>>, refs: seq<nat>)

  /** A level's slot table is in range and a bijection onto its store. */
  predicate LevelValid<T>(lv: Level<T>) {
    LBag.SlotsInRange(|lv.store|, lv.inds) && LBag.Bijective(|lv.store|, lv.inds)
  }

  /** The slot `l_bag::new_ind` hands out. */
  function NewSlot<T>(lv: Level<T>): nat {
    FirstIndexOf(lv.inds, LBag.Invalid)
  }

  /** `l_bag::emplace(pos, x)` on a level. */
  function BagEmplace<T>(lv: Level<T>, pos: nat, x: Node<T>): Level<T>
    requires pos <= |lv.store|
  {
    Level(Insert(lv.store, pos, x), LBag.ShiftUp(LBag.SlotsAfterNewInd(lv.inds), pos)[NewSlot(lv) := pos])
  }

  /** `l_bag::get_perma(it)`: the first slot naming position `pos`. */
  function GetPerma<T>(lv: Level<T>, pos: nat): nat {
    FirstIndexOf(lv.inds, pos)
  }

  /** The position of node `i`'s first child in the level below (`below.find(node.second)`). */
  function Start<T>(above: Level<T>, below: Level<T>, i: nat): int
    requires i < |above.store|
  {
    var c := above.store[i].child;
    if c < |below.inds| then below.inds[c] else LBag.Invalid
  }

  /**
   * The level below is grouped by the level above: every node's first child is
   * live, the first node's group starts at 0, groups start in node order (so
   * none is empty), and an empty level has an empty level below it.
   */
  predicate Grouped<T>(above: Level<T>, below: Level<T>) {
    && (forall i :: 0 <= i < |above.store| ==> LBag.Live(|below.store|, below.inds, above.store[i].child))
    && (|above.store| == 0 ==> |below.store| == 0)
    && (|above.store| > 0 ==> Start(above, below, 0) == 0)
    && (forall i, j :: 0 <= i < j < |above.store| ==> Start(above, below, i) < Start(above, below, j))
  }

  /** Every level from `l` down is valid and grouped by the one above it. */
  predicate ValidFrom<T>(levels: seq<Level<T>>, l: nat) {
    && (forall j :: l <= j < |levels| ==> LevelValid(levels[j]))
    && (forall j :: l <= j < |levels| - 1 ==> Grouped(levels[j], levels[j + 1]))
  }

  /**
   * `range_of(it)`: the children of the node at `it` — to the next node's first
   * child, or to the end below for the last node; past the end of the level it
   * is the empty range at the end below.
   */
  function RangeOf<T>(above: Level<T>, below: Level<T>, it: nat): (r: (int, int))
    requires it <= |above.store|
    ensures Grouped(above, below) ==> 0 <= r.0 <= r.1 <= |below.store|
    ensures Grouped(above, below) && it < |above.store| ==> r.0 < r.1
  {
    if it == |above.store| then (|below.store|, |below.store|)
    else if it + 1 == |above.store| then (Start(above, below, it), |below.store|)
    else (Start(above, below, it), Start(above, below, it + 1))
  }

  /** `children(node)`: `range_of` at the node's position. */
  function Children<T>(levels: seq<Level<T>>, l: nat, i: nat): (int, int)
    requires l + 1 < |levels| && i < |levels[l].store|
  {
    RangeOf(levels[l], levels[l + 1], i)
  }

  /** `find<Level>(pr)`: the position a perma ref names. */
  function Find<T>(levels: seq<Level<T>>, l: nat, r: nat): int
    requires l < |levels| && r < |levels[l].inds|
  {
    levels[l].inds[r]
  }

  /** `std::find_if` on `first` over `store[b..e]`: the first match, or `e`. */
  function FindIn<T(==)>(store: seq<Node<T>>, b: nat, e: nat, a: T): (it: nat)
    requires b <= e <= |store|
    ensures b <= it <= e
    ensures forall j :: b <= j < it ==> store[j].first != a
    ensures it < e ==> store[it].first == a
    decreases e - b
  {
    if b == e then e
    else if store[b].first == a then b
    else FindIn(store, b + 1, e, a)
  }

  /**
   * The range the recursion searches one level down.  A hit descends into the
   * node's children.  On a miss the source descends into `range_of(it)`, the
   * children of the node AFTER the search range (`intended == false`); the new
   * node's child belongs in the empty range where that group starts.
   */
  function Descent<T>(above: Level<T>, below: Level<T>, it: nat, hit: bool, intended: bool): (int, int)
    requires it <= |above.store|
  {
    var r := RangeOf(above, below, it);
    if !hit && intended then (r.0, r.0) else r
  }

  /**
   * `emplace<Level>(range, args...)`: find `args[0]` in the range, emplace the
   * rest one level down in `Descent`, then insert a node at the range's end on
   * a miss or take the found node's perma ref on a hit.
   */
  function EmplaceFrom<T(==)>(levels: seq<Level<T>>, l: nat, b: nat, e: nat, args: seq<T>, intended: bool): (r: Emplaced<T>)
    requires l < |levels| && |args| == |levels| - l
    requires b <= e <= |levels[l].store|
    requires forall j :: l <= j < |levels| - 1 ==> Grouped(levels[j], levels[j + 1])
    ensures |r.levels| == |levels| && |r.refs| == |args|
    ensures forall j :: 0 <= j < l ==> r.levels[j] == levels[j]
    decreases |levels| - l
  {
    var above := levels[l];
    var it := FindIn(above.store, b, e, args[0]);
    if l == |levels| - 1 then
      if it == e then Emplaced(levels[l := BagEmplace(above, it, Node(args[0], 0))], [NewSlot(above)])
      else Emplaced(levels, [GetPerma(above, it)])
    else
      var range := Descent(above, levels[l + 1], it, it < e, intended);
      var down := EmplaceFrom(levels, l + 1, range.0, range.1, args[1..], intended);
      if it == e then
        Emplaced(down.levels[l := BagEmplace(above, it, Node(args[0], down.refs[0]))], [NewSlot(above)] + down.refs)
      else
        Emplaced(down.levels, [GetPerma(above, it)] + down.refs)
  }

  /** The public `emplace(args...)`, with the miss descent corrected. */
  function Emplace<T(==)>(levels: seq<Level<T>>, args: seq<T>): (r: Emplaced<T>)
    requires |levels| > 0 && |args| == |levels| && ValidFrom(levels, 0)
    ensures ValidFrom(r.levels, 0)
    ensures Path(r.levels, 0, r.refs, args)
  {
    EmplaceSpec(levels, 0, 0, |levels[0].store|, args);
    EmplaceFrom(levels, 0, 0, |levels[0].store|, args, true)
  }

  /** The public `emplace(args...)` as written. */
  function EmplaceAsWritten<T(==)>(levels: seq<Level<T>>, args: seq<T>): (r: Emplaced<T>)
    requires |levels| > 0 && |args| == |levels| && ValidFrom(levels, 0)
    ensures |r.levels| == |levels| && |r.refs| == |args|
  {
    EmplaceFrom(levels, 0, 0, |levels[0].store|, args, false)
  }

  /**
   * The perma refs spell `args` from level `l` down: each names a live node
   * holding its value, and each node below is a child of the node above.
   */
  ghost predicate Path<T>(levels: seq<Level<T>>, l: nat, refs: seq<nat>, args: seq<T>)
    requires l <= |levels|
  {
    && |refs| == |args| == |levels| - l
    && (forall j :: 0 <= j < |refs| ==>
          && LBag.Live(|levels[l + j].store|, levels[l + j].inds, refs[j])
          && levels[l + j].store[levels[l + j].inds[refs[j]]].first == args[j])
    && (forall j :: 0 <= j < |refs| - 1 ==> InChildren(levels, l + j, refs[j], refs[j + 1]))
  }

  /** The node `below` names one level down is a child of the node `above` names. */
  predicate InChildren<T>(levels: seq<Level<T>>, l: nat, above: nat, below: nat)
    requires l + 1 < |levels|
  {
    && above < |levels[l].inds| && 0 <= levels[l].inds[above] < |levels[l].store|
    && below < |levels[l + 1].inds|
    && var r := RangeOf(levels[l], levels[l + 1], levels[l].inds[above]);
       r.0 <= levels[l + 1].inds[below] < r.1
  }

  function Bump(x: int, pos: int): int {
    if x >= pos then x + 1 else x
  }

  // ---------------------------------------------------------------------
  // Level edits
  // ---------------------------------------------------------------------

  /**
   * `l_bag::emplace` on a level keeps it valid, names `pos` by the new slot,
   * and moves every other used slot at or after `pos` up by one.
   */
  lemma BagEmplaceSlots<T>(lv: Level<T>, pos: nat, x: Node<T>)
    requires LevelValid(lv) && pos <= |lv.store|
    ensures var lv' := BagEmplace(lv, pos, x);
      && LevelValid(lv')
      && |lv'.store| == |lv.store| + 1 && |lv'.inds| >= |lv.inds|
      && NewSlot(lv) < |lv'.inds| && lv'.inds[NewSlot(lv)] == pos && lv'.store[pos] == x
      && (forall r :: 0 <= r < |lv.inds| && lv.inds[r] != LBag.Invalid ==>
            r != NewSlot(lv) && lv'.inds[r] == Bump(lv.inds[r], pos))
  {
    BagEmplaceValid(lv, pos, x);
    BagEmplaceMoves(lv, pos, x);
  }

  lemma BagEmplaceValid<T>(lv: Level<T>, pos: nat, x: Node<T>)
    requires LevelValid(lv) && pos <= |lv.store|
    ensures LevelValid(BagEmplace(lv, pos, x))
  {
    var k := NewSlot(lv);
    LBag.NewIndIsFree(lv.inds);
    LBag.EmplaceKeepsBijective(|lv.store|, lv.inds, pos);
    var slots := LBag.SlotsAfterNewInd(lv.inds);
    assert forall r :: 0 <= r < |lv.inds| ==> slots[r] == lv.inds[r];
  }

  lemma BagEmplaceMoves<T>(lv: Level<T>, pos: nat, x: Node<T>)
    requires LevelValid(lv) && pos <= |lv.store|
    ensures var lv' := BagEmplace(lv, pos, x);
      && |lv'.store| == |lv.store| + 1 && |lv'.inds| >= |lv.inds|
      && NewSlot(lv) < |lv'.inds| && lv'.inds[NewSlot(lv)] == pos && lv'.store[pos] == x
      && (forall r :: 0 <= r < |lv.inds| && lv.inds[r] != LBag.Invalid ==>
            r != NewSlot(lv) && lv'.inds[r] == Bump(lv.inds[r], pos))
  {
    LBag.NewIndIsFree(lv.inds);
    var slots := LBag.SlotsAfterNewInd(lv.inds);
    assert forall r :: 0 <= r < |lv.inds| ==> slots[r] == lv.inds[r];
  }

  /** After a hit, the child inserted at the end of the hit node's group keeps the grouping. */
  lemma GroupedAfterHit<T>(above: Level<T>, below: Level<T>, it: nat, y: Node<T>)
    requires Grouped(above, below) && LevelValid(below) && it < |above.store|
    ensures var e := RangeOf(above, below, it).1;
      0 <= e <= |below.store| && Grouped(above, BagEmplace(below, e, y))
  {
    var e := RangeOf(above, below, it).1;
    var below' := BagEmplace(below, e, y);
    StartsAfterHit(above, below, e, y);
    assert Start(above, below', 0) == Bump(Start(above, below, 0), e) == 0;
    assert forall i, j :: 0 <= i < j < |above.store| ==> Start(above, below', i) < Start(above, below', j) by {
      forall i, j | 0 <= i < j < |above.store|
        ensures Start(above, below', i) < Start(above, below', j)
      {
        assert Start(above, below, i) < Start(above, below, j);
      }
    }
  }

  /** Inserting below at `e` moves the first children at or after `e` up by one and keeps them live. */
  lemma StartsAfterHit<T>(above: Level<T>, below: Level<T>, e: nat, y: Node<T>)
    requires Grouped(above, below) && LevelValid(below) && e <= |below.store|
    ensures var below' := BagEmplace(below, e, y);
      forall i :: 0 <= i < |above.store| ==>
        && LBag.Live(|below'.store|, below'.inds, above.store[i].child)
        && Start(above, below', i) == Bump(Start(above, below, i), e)
  {
    BagEmplaceMoves(below, e, y);
  }

  /**
   * After a miss at `e`, the new node at `e` above and its child at the start
   * of the following group below keep the grouping.
   */
  lemma GroupedAfterMiss<T>(above: Level<T>, below: Level<T>, e: nat, a: T, y: Node<T>)
    requires Grouped(above, below) && LevelValid(above) && LevelValid(below) && e <= |above.store|
    ensures var q := RangeOf(above, below, e).0;
      && 0 <= q <= |below.store|
      && var above', below' := BagEmplace(above, e, Node(a, NewSlot(below))), BagEmplace(below, q, y);
         && Grouped(above', below')
         && RangeOf(above', below', e) == (q, q + 1)
  {
    var q := RangeOf(above, below, e).0;
    var below' := BagEmplace(below, q, y);
    var above' := BagEmplace(above, e, Node(a, NewSlot(below)));
    StartsAfterMiss(above, below, e, a, y);
    OrderAfterMiss(above, below, e, a, y);
    assert Start(above', below', 0) == ShiftedStart(above, below, e, q, 0) == 0;
    assert Start(above', below', e) == q;
    if e < |above.store| {
      assert Start(above', below', e + 1) == ShiftedStart(above, below, e, q, e + 1) == q + 1;
    } else {
      assert |below'.store| == q + 1;
    }
  }

  /** Where every node of the level above finds its first child after a miss at `e`. */
  lemma StartsAfterMiss<T>(above: Level<T>, below: Level<T>, e: nat, a: T, y: Node<T>)
    requires Grouped(above, below) && LevelValid(above) && LevelValid(below) && e <= |above.store|
    ensures var q := RangeOf(above, below, e).0;
      && 0 <= q <= |below.store|
      && var above', below' := BagEmplace(above, e, Node(a, NewSlot(below))), BagEmplace(below, q, y);
         && |above'.store| == |above.store| + 1
         && forall i :: 0 <= i < |above'.store| ==>
              && LBag.Live(|below'.store|, below'.inds, above'.store[i].child)
              && Start(above', below', i) == ShiftedStart(above, below, e, q, i)
  {
    var q := RangeOf(above, below, e).0;
    var below' := BagEmplace(below, q, y);
    var above' := BagEmplace(above, e, Node(a, NewSlot(below)));
    forall i | 0 <= i < |above'.store|
      ensures LBag.Live(|below'.store|, below'.inds, above'.store[i].child)
      ensures Start(above', below', i) == ShiftedStart(above, below, e, q, i)
    {
      StartAfterMiss(above, below, e, a, y, i);
    }
  }

  /** After a miss at `e` the groups of the level above still start in node order. */
  lemma OrderAfterMiss<T>(above: Level<T>, below: Level<T>, e: nat, a: T, y: Node<T>)
    requires Grouped(above, below) && LevelValid(above) && LevelValid(below) && e <= |above.store|
    ensures var q := RangeOf(above, below, e).0;
      var above', below' := BagEmplace(above, e, Node(a, NewSlot(below))), BagEmplace(below, q, y);
      forall i, j :: 0 <= i < j < |above.store| + 1 ==> ShiftedStart(above, below, e, q, i) < ShiftedStart(above, below, e, q, j)
  {
    var q := RangeOf(above, below, e).0;
    forall i, j | 0 <= i < j < |above.store| + 1
      ensures ShiftedStart(above, below, e, q, i) < ShiftedStart(above, below, e, q, j)
    {
      if i < e && j > e + 1 {
        assert Start(above, below, i) < Start(above, below, j - 1);
      } else if i > e {
        assert Start(above, below, i - 1) < Start(above, below, j - 1);
      } else if i < e && j < e {
        assert Start(above, below, i) < Start(above, below, j);
      }
    }
  }

  /** Node `i`'s first child after a miss at `e` whose child goes in at `q`. */
  function ShiftedStart<T>(above: Level<T>, below: Level<T>, e: nat, q: int, i: nat): int
    requires e <= |above.store| && i < |above.store| + 1
  {
    if i < e then Start(above, below, i) else if i == e then q else Start(above, below, i - 1) + 1
  }

  /** Where node `i` of the level above finds its first child after a miss at `e`. */
  lemma StartAfterMiss<T>(above: Level<T>, below: Level<T>, e: nat, a: T, y: Node<T>, i: nat)
    requires Grouped(above, below) && LevelValid(above) && LevelValid(below) && e <= |above.store|
    requires i < |above.store| + 1
    ensures var q := RangeOf(above, below, e).0;
      && 0 <= q <= |below.store|
      && var above', below' := BagEmplace(above, e, Node(a, NewSlot(below))), BagEmplace(below, q, y);
         && LBag.Live(|below'.store|, below'.inds, above'.store[i].child)
         && Start(above', below', i) == ShiftedStart(above, below, e, q, i)
  {
    var q := RangeOf(above, below, e).0;
    BagEmplaceSlots(below, q, y);
    var below' := BagEmplace(below, q, y);
    var above' := BagEmplace(above, e, Node(a, NewSlot(below)));
    if i < e {
      assert above'.store[i] == above.store[i];
      assert Start(above, below, i) < q by {
        if e < |above.store| {
          assert Start(above, below, i) < Start(above, below, e);
        }
      }
    } else if i > e {
      assert above'.store[i] == above.store[i - 1];
      assert Start(above, below, e) <= Start(above, below, i - 1) by {
        if e < i - 1 {
          assert Start(above, below, e) < Start(above, below, i - 1);
        }
      }
    }
  }

  /** Slots that an emplace one level down leaves alone still name children of the same nodes. */
  lemma InChildrenAfterHit<T>(levels: seq<Level<T>>, l: nat, it: nat, y: Node<T>, ra: nat, rb: nat)
    requires l + 1 < |levels| && Grouped(levels[l], levels[l + 1]) && LevelValid(levels[l + 1])
    requires it < |levels[l].store| && ra < |levels[l].inds| && levels[l].inds[ra] == it
    requires var r := RangeOf(levels[l], levels[l + 1], it);
      && 0 <= r.1 <= |levels[l + 1].store|
      && var below' := BagEmplace(levels[l + 1], r.1, y);
         && rb < |below'.inds|
         && (rb == NewSlot(levels[l + 1]) || (rb < |levels[l + 1].inds| && r.0 <= levels[l + 1].inds[rb] < r.1))
    ensures var r := RangeOf(levels[l], levels[l + 1], it);
      InChildren(levels[l + 1 := BagEmplace(levels[l + 1], r.1, y)], l, ra, rb)
  {
    var above, below := levels[l], levels[l + 1];
    var r := RangeOf(above, below, it);
    BagEmplaceSlots(below, r.1, y);
    var below' := BagEmplace(below, r.1, y);
    var r' := RangeOf(above, below', it);
    assert forall i :: 0 <= i < |above.store| ==> Start(above, below', i) == Bump(Start(above, below, i), r.1);
    assert r'.0 == r.0 && r'.1 == r.1 + 1;
  }

  // ---------------------------------------------------------------------
  // Emplace keeps the tree grouped and returns a path spelling the tuple.
  // ---------------------------------------------------------------------

  /** Levels agreeing from `l + 1` down carry the same paths and validity there. */
  lemma AgreeBelow<T>(levels: seq<Level<T>>, levels': seq<Level<T>>, l: nat, refs: seq<nat>, args: seq<T>)
    requires l + 1 <= |levels| == |levels'|
    requires forall j :: l + 1 <= j < |levels| ==> levels'[j] == levels[j]
    ensures ValidFrom(levels, l + 1) ==> ValidFrom(levels', l + 1)
    ensures Path(levels, l + 1, refs, args) ==> Path(levels', l + 1, refs, args)
  {
    if Path(levels, l + 1, refs, args) {
      forall j | 0 <= j < |refs| - 1
        ensures InChildren(levels', l + 1 + j, refs[j], refs[j + 1])
      {
        assert InChildren(levels, l + 1 + j, refs[j], refs[j + 1]);
      }
    }
  }

  /** A valid level grouping a valid tree below it makes a valid tree. */
  lemma ValidCons<T>(levels: seq<Level<T>>, l: nat)
    requires l + 1 < |levels| && LevelValid(levels[l]) && Grouped(levels[l], levels[l + 1])
    requires ValidFrom(levels, l + 1)
    ensures ValidFrom(levels, l)
  {
  }

  /** A node above a path's first node, with that node among its children, extends the path. */
  lemma PathCons<T>(levels: seq<Level<T>>, l: nat, r0: nat, refs: seq<nat>, args: seq<T>)
    requires l + 1 < |levels| && |args| == |levels| - l
    requires Path(levels, l + 1, refs, args[1..])
    requires LBag.Live(|levels[l].store|, levels[l].inds, r0)
    requires levels[l].store[levels[l].inds[r0]].first == args[0]
    requires InChildren(levels, l, r0, refs[0])
    ensures Path(levels, l, [r0] + refs, args)
  {
    var refs' := [r0] + refs;
    forall j | 0 <= j < |refs'|
      ensures LBag.Live(|levels[l + j].store|, levels[l + j].inds, refs'[j])
      ensures levels[l + j].store[levels[l + j].inds[refs'[j]]].first == args[j]
    {
      if j > 0 {
        assert refs'[j] == refs[j - 1] && args[j] == args[1..][j - 1];
        assert l + j == l + 1 + (j - 1);
      }
    }
    forall j | 0 <= j < |refs'| - 1
      ensures InChildren(levels, l + j, refs'[j], refs'[j + 1])
    {
      if j > 0 {
        assert refs'[j] == refs[j - 1] && refs'[j + 1] == refs[j];
        assert InChildren(levels, l + 1 + (j - 1), refs[j - 1], refs[j]);
      }
    }
  }

  /**
   * The corrected emplace from level `l` over `[b, e)` keeps every level from
   * `l` down valid and grouped, returns perma refs spelling `args`, names the
   * hit node or the node inserted at `e`, and leaves level `l` alone on a hit.
   */
  lemma {:induction false} EmplaceSpec<T>(levels: seq<Level<T>>, l: nat, b: nat, e: nat, args: seq<T>)
    requires l < |levels| && |args| == |levels| - l
    requires b <= e <= |levels[l].store|
    requires ValidFrom(levels, l)
    ensures EmplaceOk(levels, l, b, e, args)
    decreases |levels| - l
  {
    if l == |levels| - 1 {
      EmplaceBottom(levels, l, b, e, args);
    } else {
      var it := FindIn(levels[l].store, b, e, args[0]);
      var range := Descent(levels[l], levels[l + 1], it, it < e, true);
      EmplaceSpec(levels, l + 1, range.0, range.1, args[1..]);
      EmplaceStep(levels, l, b, e, args);
    }
  }

  /**
   * What the corrected emplace from level `l` over `[b, e)` does: it keeps
   * every level from `l` down valid and grouped, returns perma refs spelling
   * `args`, names the hit node or the node inserted at `e`, and leaves level
   * `l` alone on a hit.
   */
  ghost predicate EmplaceOk<T>(levels: seq<Level<T>>, l: nat, b: nat, e: nat, args: seq<T>)
  {
    && l < |levels| && |args| == |levels| - l
    && b <= e <= |levels[l].store|
    && ValidFrom(levels, l)
    && var r := EmplaceFrom(levels, l, b, e, args, true);
       var it := FindIn(levels[l].store, b, e, args[0]);
       && ValidFrom(r.levels, l)
       && Path(r.levels, l, r.refs, args)
       && r.levels[l].inds[r.refs[0]] == it
       && (it < e ==> r.levels[l] == levels[l])
       && (it == e ==> r.refs[0] == NewSlot(levels[l]) && r.levels[l] == BagEmplace(levels[l], e, Node(args[0], if l + 1 < |levels| then r.refs[1] else 0)))
  }

  /** `EmplaceSpec` on the bottom level: a plain find-or-insert. */
  lemma EmplaceBottom<T>(levels: seq<Level<T>>, l: nat, b: nat, e: nat, args: seq<T>)
    requires l == |levels| - 1 && |args| == 1
    requires b <= e <= |levels[l].store|
    requires ValidFrom(levels, l)
    ensures EmplaceOk(levels, l, b, e, args)
  {
    var above := levels[l];
    var it := FindIn(above.store, b, e, args[0]);
    if it == e {
      BagEmplaceSlots(above, e, Node(args[0], 0));
    } else {
      assert it in above.inds;
    }
  }

  /** `EmplaceSpec` above the bottom level, given what the emplace one level down did. */
  lemma EmplaceStep<T>(levels: seq<Level<T>>, l: nat, b: nat, e: nat, args: seq<T>)
    requires l + 1 < |levels| && |args| == |levels| - l
    requires b <= e <= |levels[l].store|
    requires ValidFrom(levels, l)
    requires var it := FindIn(levels[l].store, b, e, args[0]);
      var range := Descent(levels[l], levels[l + 1], it, it < e, true);
      EmplaceOk(levels, l + 1, range.0, range.1, args[1..])
    ensures EmplaceOk(levels, l, b, e, args)
  {
    var above := levels[l];
    var it := FindIn(above.store, b, e, args[0]);
    var below := levels[l + 1];
    var range := Descent(above, below, it, it < e, true);
    var down := EmplaceFrom(levels, l + 1, range.0, range.1, args[1..], true);
    assert args[1..][0] == args[1];
    var y := Node(args[1], if l + 2 < |levels| then down.refs[1] else 0);
    if it < e {
      HitStep(levels, down, l, it, args, y);
    } else {
      MissStep(levels, down, l, it, args, y);
    }
  }

  /** The step of `EmplaceSpec` for a hit at `it`, given what the level below did. */
  lemma HitStep<T>(levels: seq<Level<T>>, down: Emplaced<T>, l: nat, it: nat, args: seq<T>, y: Node<T>)
    requires l + 1 < |levels| && |args| == |levels| - l && ValidFrom(levels, l)
    requires it < |levels[l].store| && levels[l].store[it].first == args[0]
    requires |down.levels| == |levels| && down.levels[l] == levels[l]
    requires ValidFrom(down.levels, l + 1) && Path(down.levels, l + 1, down.refs, args[1..])
    requires var rg := RangeOf(levels[l], levels[l + 1], it);
      && 0 <= rg.1
      && ((down.levels[l + 1] == levels[l + 1] && rg.0 <= down.levels[l + 1].inds[down.refs[0]] < rg.1)
         || (rg.1 <= |levels[l + 1].store| && down.levels[l + 1] == BagEmplace(levels[l + 1], rg.1, y) && down.refs[0] == NewSlot(levels[l + 1])))
    ensures ValidFrom(down.levels, l)
    ensures Path(down.levels, l, [GetPerma(levels[l], it)] + down.refs, args)
    ensures down.levels[l].inds[GetPerma(levels[l], it)] == it
  {
    var above, below := levels[l], levels[l + 1];
    var r0 := GetPerma(above, it);
    assert it in above.inds;
    if down.levels[l + 1] == below {
      assert InChildren(down.levels, l, r0, down.refs[0]);
    } else {
      GroupedAfterHit(above, below, it, y);
      InChildrenAfterHit(levels, l, it, y, r0, down.refs[0]);
      assert forall j :: l <= j <= l + 1 ==> down.levels[j] == levels[l + 1 := down.levels[l + 1]][j];
    }
    ValidCons(down.levels, l);
    PathCons(down.levels, l, r0, down.refs, args);
  }

  /** The step of `EmplaceSpec` for a miss at `e`, given what the level below did. */
  lemma MissStep<T>(levels: seq<Level<T>>, down: Emplaced<T>, l: nat, e: nat, args: seq<T>, y: Node<T>)
    requires l + 1 < |levels| && |args| == |levels| - l && ValidFrom(levels, l)
    requires e <= |levels[l].store|
    requires |down.levels| == |levels| && down.levels[l] == levels[l]
    requires ValidFrom(down.levels, l + 1) && Path(down.levels, l + 1, down.refs, args[1..])
    requires var q := RangeOf(levels[l], levels[l + 1], e).0;
      && 0 <= q <= |levels[l + 1].store|
      && down.levels[l + 1] == BagEmplace(levels[l + 1], q, y) && down.refs[0] == NewSlot(levels[l + 1])
    ensures var above' := BagEmplace(levels[l], e, Node(args[0], down.refs[0]));
      var levels' := down.levels[l := above'];
      && ValidFrom(levels', l)
      && Path(levels', l, [NewSlot(levels[l])] + down.refs, args)
      && above'.inds[NewSlot(levels[l])] == e
  {
    var above, below := levels[l], levels[l + 1];
    GroupedAfterMiss(above, below, e, args[0], y);
    var above' := BagEmplace(above, e, Node(args[0], down.refs[0]));
    BagEmplaceSlots(above, e, Node(args[0], down.refs[0]));
    var levels' := down.levels[l := above'];
    AgreeBelow(down.levels, levels', l, down.refs, args[1..]);
    ValidCons(levels', l);
    assert InChildren(levels', l, NewSlot(above), down.refs[0]);
    PathCons(levels', l, NewSlot(above), down.refs, args);
  }

  // ---------------------------------------------------------------------
  // Children ranges, the default tree, and the miss descent as written.
  // ---------------------------------------------------------------------

  /**
   * In a grouped pair of levels the children ranges tile the level below:
   * the first starts at 0, each ends where the next starts, the last ends at
   * the end, none is empty, and `range_of(end())` is the empty range at the end.
   */
  lemma RangesTile<T>(above: Level<T>, below: Level<T>)
    requires Grouped(above, below)
    ensures RangeOf(above, below, |above.store|) == (|below.store|, |below.store|)
    ensures |above.store| > 0 ==> RangeOf(above, below, 0).0 == 0 && RangeOf(above, below, |above.store| - 1).1 == |below.store|
    ensures forall i :: 0 <= i < |above.store| ==> RangeOf(above, below, i).0 < RangeOf(above, below, i).1
    ensures forall i :: 0 <= i < |above.store| - 1 ==> RangeOf(above, below, i).1 == RangeOf(above, below, i + 1).0
  {
  }

  /** A default-constructed tree: every level a default `l_bag`. */
  function EmptyTree<T>(height: nat): (levels: seq<Level<T>>)
    ensures |levels| == height && ValidFrom(levels, 0)
  {
    seq(height, _ => Level([], [0]))
  }

  /** The tree `emplace(1, 10, 100)` then `emplace(2, 20, 200)` build from the default tree. */
  function TwoTuples(): seq<Level<int>> {
    [ Level([Node(1, 1), Node(2, 2)], [2, 0, 1]),
      Level([Node(10, 1), Node(20, 2)], [2, 0, 1]),
      Level([Node(100, 0), Node(200, 0)], [2, 0, 1]) ]
  }

  lemma TwoTuplesValid()
    ensures ValidFrom(TwoTuples(), 0)
  {
    var t := TwoTuples();
    SlotsTwoOfTwoValid(t[0]);
    SlotsTwoOfTwoValid(t[1]);
    SlotsTwoOfTwoValid(t[2]);
    assert Start(t[0], t[1], 0) == 0 && Start(t[0], t[1], 1) == 1;
    assert Start(t[1], t[2], 0) == 0 && Start(t[1], t[2], 1) == 1;
    assert Grouped(t[0], t[1]) && Grouped(t[1], t[2]);
  }

  lemma SlotsTwoOfTwoValid<T>(lv: Level<T>)
    requires |lv.store| == 2 && lv.inds == [2, 0, 1]
    ensures LevelValid(lv)
  {
    assert lv.inds[1] == 0 && lv.inds[2] == 1;
  }

  /**
   * As written, `emplace(1, 30, 300)` on that tree misses 30 among node 1's
   * children and descends into the children of node 20 instead: 300 lands
   * after 200, inside 20's group, while the new node 30 sits before 20.  The
   * middle level's groups then start at 0, 2, 1: out of order, so the tree is
   * no longer grouped.  The corrected emplace keeps it grouped.
   */
  lemma EmplaceAsWrittenBreaksGrouping()
    ensures ValidFrom(TwoTuples(), 0)
    ensures var r := EmplaceAsWritten(TwoTuples(), [1, 30, 300]);
      && r.levels[1] == MissedMiddle() && r.levels[2] == MissedBottom()
      && !Grouped(r.levels[1], r.levels[2])
    ensures ValidFrom(Emplace(TwoTuples(), [1, 30, 300]).levels, 0)
  {
    TwoTuplesValid();
    var t := TwoTuples();
    var args := [1, 30, 300];
    AsWrittenMiddle();
    assert FindIn(t[0].store, 0, 2, 1) == 0;
    assert RangeOf(t[0], t[1], 0) == (0, 1);
    assert args[1..] == [30, 300];
    var r := EmplaceAsWritten(t, args);
    assert r.levels == t[2 := MissedBottom()][1 := MissedMiddle()];
    var l1, l2 := MissedMiddle(), MissedBottom();
    assert Start(l1, l2, 1) == 2 && Start(l1, l2, 2) == 1;
  }

  /** The middle level after the miss of 30: the new node 30 before 20, its child in slot 3. */
  function MissedMiddle(): Level<int> {
    Level([Node(10, 1), Node(30, 3), Node(20, 2)], [3, 0, 2, 1])
  }

  /** The bottom level after 300 is put at position 2, inside 20's group. */
  function MissedBottom(): Level<int> {
    Level([Node(100, 0), Node(200, 0), Node(300, 0)], [3, 0, 1, 2])
  }

  /** As written, the bottom level searches node 20's children for 300 and appends it there. */
  lemma AsWrittenBottom()
    ensures ValidFrom(TwoTuples(), 0)
    ensures EmplaceFrom(TwoTuples(), 2, 1, 2, [300], false) == Emplaced(TwoTuples()[2 := MissedBottom()], [3])
  {
    TwoTuplesValid();
    var t := TwoTuples();
    assert FindIn(t[2].store, 1, 2, 300) == 2;
    assert NewSlot(t[2]) == 3;
    assert LBag.ShiftUp(LBag.SlotsAfterNewInd(t[2].inds), 2) == [3, 0, 1, 0];
    assert BagEmplace(t[2], 2, Node(300, 0)) == MissedBottom();
  }

  /** As written, 30 misses among node 1's children and the descent goes to node 20's children. */
  lemma AsWrittenMiddle()
    ensures ValidFrom(TwoTuples(), 0)
    ensures EmplaceFrom(TwoTuples(), 1, 0, 1, [30, 300], false) == Emplaced(TwoTuples()[2 := MissedBottom()][1 := MissedMiddle()], [3, 3])
  {
    AsWrittenBottom();
    var t := TwoTuples();
    var args := [30, 300];
    assert FindIn(t[1].store, 0, 1, 30) == 1;
    assert RangeOf(t[1], t[2], 1) == (1, 2);
    assert args[1..] == [300];
    assert NewSlot(t[1]) == 3;
    assert LBag.ShiftUp(LBag.SlotsAfterNewInd(t[1].inds), 1) == [3, 0, 2, 0];
    assert BagEmplace(t[1], 1, Node(30, 3)) == MissedMiddle();
  }
}

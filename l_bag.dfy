/**
 * `l_bag`: a vector (`store`) plus an indirection table (`inds`) of handle
 * slots.  A handle ("perma ref") is a slot number; its slot holds the position
 * of the element it refers to, `Invalid` (-1, a signed sentinel) once that
 * element is erased, or `|store|` for the past-the-end position.
 */
module LBag {
  import opened Sequences

  const Invalid: int := -1

  /** Every slot holds the sentinel or a position in 0..|store| (past-the-end included). */
  predicate SlotsInRange(size: int, inds: seq<int>) {
    forall i :: 0 <= i < |inds| ==> Invalid <= inds[i] <= size
  }

  /** Slot `r` refers to an element of a store of `size` elements. */
  predicate Live(size: int, inds: seq<int>, r: int) {
    0 <= r < |inds| && 0 <= inds[r] < size
  }

  /** The slot table after `new_ind`: unchanged when a slot is free, else one more slot holding 0. */
  function SlotsAfterNewInd(inds: seq<int>): seq<int> {
    if FirstIndexOf(inds, Invalid) < |inds| then inds else inds + [0]
  }

  /** `emplace`'s renumbering: every slot at or after the insertion point moves up by one. */
  function ShiftUp(inds: seq<int>, my: int): (r: seq<int>)
    ensures |r| == |inds|
  {
    seq(|inds|, i requires 0 <= i < |inds| => if inds[i] >= my then inds[i] + 1 else inds[i])
  }

  /** `erase`'s renumbering: later slots move down, the erased element's slots are invalidated. */
  function ShiftDown(inds: seq<int>, my: int): (r: seq<int>)
    ensures |r| == |inds|
  {
    seq(|inds|, i requires 0 <= i < |inds| =>
      if inds[i] > my then inds[i] - 1 else if inds[i] == my then Invalid else inds[i])
  }

  /** Shrinking `resize`: slots at or beyond the new size are invalidated. */
  function Truncate(inds: seq<int>, count: int): (r: seq<int>)
    ensures |r| == |inds|
  {
    seq(|inds|, i requires 0 <= i < |inds| => if inds[i] >= count then Invalid else inds[i])
  }

  /**
   * Growing `resize`: free slots, in order, take the positions next, next+1, …
   * below `count`; positions left over get new slots at the end.
   */
  function FillFree(inds: seq<int>, next: int, count: int): (r: seq<int>)
    decreases |inds| + (if next < count then count - next else 0)
  {
    if next >= count then inds
    else if inds == [] then [next] + FillFree([], next + 1, count)
    else if inds[0] == Invalid then [next] + FillFree(inds[1..], next + 1, count)
    else [inds[0]] + FillFree(inds[1..], next, count)
  }

  class Bag<T> {
    var store: seq<T>
    var inds: seq<int>

    ghost predicate Valid()
      reads this
    {
      SlotsInRange(|store|, inds)
    }

    /** The default bag: no elements and one slot naming the past-the-end position. */
    constructor ()
      ensures Valid() && store == [] && inds == [0]
    {
      store := [];
      inds := [0];
    }

    /** The bag of the listed elements: slot i names element i, and no past-the-end slot. */
    constructor FromList(init: seq<T>)
      ensures Valid() && store == init && inds == seq(|init|, i => i)
    {
      store := [];
      inds := [];
      new;
      var i := 0;
      while i < |init|
        invariant 0 <= i <= |init|
        invariant Valid() && store == init[..i] && inds == seq(i, j => j)
      {
        IotaHasNoFreeSlot(i);
        var r := EmplaceBack(init[i]);
        IotaSnoc(i);
        assert init[..i + 1] == init[..i] + [init[i]];
        i := i + 1;
      }
      assert init[..i] == init;
    }

    /** The position a handle refers to (`find`); the caller must pass a handle that is not invalidated. */
    function Find(r: nat): (pos: nat)
      reads this
      requires Valid() && r < |inds| && inds[r] != Invalid
      ensures pos <= |store|
    {
      inds[r]
    }

    /** The `std::find` loop over the slots. */
    method IndexOf(v: int) returns (k: nat)
      ensures k == FirstIndexOf(inds, v)
    {
      k := 0;
      while k < |inds| && inds[k] != v
        invariant k <= |inds|
        invariant FirstIndexOf(inds, v) == k + FirstIndexOf(inds[k..], v)
      {
        assert inds[k..][1..] == inds[k + 1..];
        k := k + 1;
      }
      if k == |inds| {
        assert inds[k..] == [];
      }
    }

    /** `get_perma`: the first slot naming position `pos`, or the slot count when none does. */
    method GetPerma(pos: nat) returns (r: nat)
      requires pos <= |store|
      ensures r <= |inds|
      ensures r < |inds| ==> inds[r] == pos
      ensures forall j :: 0 <= j < r ==> inds[j] != pos
    {
      r := IndexOf(pos);
    }

    /** `new_ind`: reuse the first invalidated slot, else append one. */
    method NewInd() returns (k: nat)
      requires Valid()
      modifies this
      ensures Valid() && store == old(store)
      ensures k == FirstIndexOf(old(inds), Invalid) && inds == SlotsAfterNewInd(old(inds)) && k < |inds|
    {
      k := IndexOf(Invalid);
      if k == |inds| {
        inds := inds + [0];
      }
    }

    method EmplaceBack(x: T) returns (r: nat)
      requires Valid()
      modifies this
      ensures Valid()
      ensures store == old(store) + [x]
      ensures r == FirstIndexOf(old(inds), Invalid)
      ensures inds == SlotsAfterNewInd(old(inds))[r := |old(store)|]
    {
      r := NewInd();
      inds := inds[r := |store|];
      store := store + [x];
    }

    method Emplace(pos: nat, x: T) returns (r: nat)
      requires Valid() && pos <= |store|
      modifies this
      ensures Valid()
      ensures store == Insert(old(store), pos, x)
      ensures r == FirstIndexOf(old(inds), Invalid)
      ensures inds == ShiftUp(SlotsAfterNewInd(old(inds)), pos)[r := pos]
    {
      r := NewInd();
      ghost var slots := inds;
      var i := 0;
      while i < |inds|
        invariant 0 <= i <= |inds| == |slots| && store == old(store)
        invariant forall j :: 0 <= j < i ==> inds[j] == ShiftUp(slots, pos)[j]
        invariant forall j :: i <= j < |inds| ==> inds[j] == slots[j]
      {
        if inds[i] >= pos {
          inds := inds[i := inds[i] + 1];
        }
        i := i + 1;
      }
      assert inds == ShiftUp(slots, pos);
      inds := inds[r := pos];
      store := Insert(store, pos, x);
    }

    method Erase(pos: nat) returns (next: nat)
      requires Valid() && pos < |store|
      modifies this
      ensures Valid()
      ensures store == Remove(old(store), pos)
      ensures inds == ShiftDown(old(inds), pos)
      ensures next == pos
    {
      var i := 0;
      while i < |inds|
        invariant 0 <= i <= |inds| == |old(inds)| && store == old(store)
        invariant forall j :: 0 <= j < i ==> inds[j] == ShiftDown(old(inds), pos)[j]
        invariant forall j :: i <= j < |inds| ==> inds[j] == old(inds)[j]
      {
        if inds[i] > pos {
          inds := inds[i := inds[i] - 1];
        } else if inds[i] == pos {
          inds := inds[i := Invalid];
        }
        i := i + 1;
      }
      assert inds == ShiftDown(old(inds), pos);
      store := Remove(store, pos);
      next := pos;
    }

    /** `resize`; `fill` is the value-initialised element the vector appends when growing. */
    method Resize(count: nat, fill: T)
      requires Valid()
      modifies this
      ensures Valid()
      ensures count <= |old(store)| ==> store == old(store)[..count]
      ensures count > |old(store)| ==> store == old(store) + seq(count - |old(store)|, _ => fill)
      ensures count == |old(store)| ==> inds == old(inds)
      ensures count < |old(store)| ==> inds == Truncate(old(inds), count)
      ensures count > |old(store)| ==> inds == FillFree(old(inds), |old(store)|, count)
    {
      if count == |store| {
        return;
      }
      if count < |store| {
        store := store[..count];
        InvalidateFrom(count);
      } else {
        var oldCount := |store|;
        store := store + seq(count - oldCount, _ => fill);
        HandOutFreeSlots(oldCount);
      }
    }

    /** The shrinking half of `resize`: the loop invalidating slots at or beyond `count`. */
    method InvalidateFrom(count: nat)
      requires count == |store| && forall i :: 0 <= i < |inds| ==> Invalid <= inds[i]
      modifies this`inds
      ensures Valid() && inds == Truncate(old(inds), count)
    {
      var i := 0;
      while i < |inds|
        invariant 0 <= i <= |inds| == |old(inds)|
        invariant forall j :: 0 <= j < i ==> inds[j] == Truncate(old(inds), count)[j]
        invariant forall j :: i <= j < |inds| ==> inds[j] == old(inds)[j]
      {
        if inds[i] >= count {
          inds := inds[i := Invalid];
        }
        i := i + 1;
      }
      assert inds == Truncate(old(inds), count);
    }

    /** The growing half of `resize`: positions oldCount.. take free slots first, then new slots. */
    method HandOutFreeSlots(oldCount: nat)
      requires oldCount < |store| && SlotsInRange(oldCount, inds)
      modifies this`inds
      ensures Valid() && inds == FillFree(old(inds), oldCount, |store|)
    {
      var next := ReuseFreeSlots(oldCount);
      while next < |store|
        invariant oldCount <= next <= |store|
        invariant FillFree(old(inds), oldCount, |store|) == inds + FillFree([], next, |store|)
        invariant SlotsInRange(|store|, inds)
      {
        assert FillFree([], next, |store|) == [next] + FillFree([], next + 1, |store|);
        inds := inds + [next];
        next := next + 1;
      }
    }

    /** The first loop of growing `resize`: free slots, in order, take positions oldCount, oldCount+1, … */
    method ReuseFreeSlots(oldCount: nat) returns (next: nat)
      requires oldCount < |store| && SlotsInRange(oldCount, inds)
      modifies this`inds
      ensures oldCount <= next <= |store| && SlotsInRange(|store|, inds)
      ensures FillFree(old(inds), oldCount, |store|) == inds + FillFree([], next, |store|)
    {
      var count := |store|;
      next := oldCount;
      var i := IndexOf(Invalid);
      FillFreeSkipsUsed(old(inds), i, oldCount, count);
      // slots before i are settled; slots from i on are as they were
      while i < |inds| && next < count
        invariant 0 <= i <= |inds| == |old(inds)|
        invariant oldCount <= next <= count
        invariant inds[i..] == old(inds)[i..]
        invariant FillFree(old(inds), oldCount, count) == inds[..i] + FillFree(old(inds)[i..], next, count)
        invariant SlotsInRange(count, inds)
        decreases |inds| - i
      {
        ReuseStep(old(inds), inds, oldCount, i, next, count);
        if inds[i] == Invalid {
          inds := inds[i := next];
          next := next + 1;
        }
        i := i + 1;
      }
      ReuseDone(old(inds), inds, oldCount, i, next, count);
    }
  }

  /** The list constructor's table has no free slot, so `new_ind` appends one. */
  lemma IotaHasNoFreeSlot(n: nat)
    ensures FirstIndexOf(seq(n, i => i), Invalid) == n
    ensures SlotsAfterNewInd(seq(n, i => i))[n := n] == seq(n + 1, i => i)
  {
    var inds := seq(n, i => i);
    assert forall j :: 0 <= j < n ==> inds[j] != Invalid;
    assert (inds + [0])[n := n] == inds + [n];
    IotaSnoc(n);
  }

  lemma IotaSnoc(n: nat)
    ensures seq(n, i => i) + [n] == seq(n + 1, i => i)
  {
  }

  /** One iteration of the slot-reuse loop keeps its invariant. */
  lemma ReuseStep(orig: seq<int>, cur: seq<int>, start: int, i: nat, next: int, count: int)
    requires i < |cur| == |orig| && next < count
    requires cur[i..] == orig[i..]
    requires FillFree(orig, start, count) == cur[..i] + FillFree(orig[i..], next, count)
    ensures var free := cur[i] == Invalid;
      var cur' := if free then cur[i := next] else cur;
      var next' := if free then next + 1 else next;
      && cur'[i + 1..] == orig[i + 1..]
      && FillFree(orig, start, count) == cur'[..i + 1] + FillFree(orig[i + 1..], next', count)
  {
    var rest := orig[i..];
    assert rest[0] == cur[i] by {
      assert cur[i..][0] == cur[i];
    }
    assert rest[1..] == orig[i + 1..];
    FillFreeStep(rest, next, count);
    var free := cur[i] == Invalid;
    var tail := FillFree(orig[i + 1..], if free then next + 1 else next, count);
    var v := if free then next else cur[i];
    var cur' := cur[i := v];
    assert cur'[..i + 1] == cur[..i] + [v];
    IntAppendAssoc(cur[..i], [v], tail);
    assert cur'[i + 1..] == cur[i + 1..] == cur[i..][1..];
  }

  lemma IntAppendAssoc(a: seq<int>, b: seq<int>, c: seq<int>)
    ensures a + (b + c) == (a + b) + c
  {
  }

  /** When the slot-reuse loop stops, only appended slots remain to be handed out. */
  lemma ReuseDone(orig: seq<int>, cur: seq<int>, start: int, i: nat, next: int, count: int)
    requires i <= |cur| == |orig|
    requires i == |cur| || next >= count
    requires cur[i..] == orig[i..]
    requires FillFree(orig, start, count) == cur[..i] + FillFree(orig[i..], next, count)
    ensures FillFree(orig, start, count) == cur + FillFree([], next, count)
  {
    FillFreeDone(orig[i..], next, count);
    IntAppendAssoc(cur[..i], cur[i..], FillFree([], next, count));
    assert cur == cur[..i] + cur[i..];
  }

  lemma FillFreeStep(rest: seq<int>, next: int, count: int)
    requires rest != [] && next < count
    ensures FillFree(rest, next, count) ==
      if rest[0] == Invalid then [next] + FillFree(rest[1..], next + 1, count)
      else [rest[0]] + FillFree(rest[1..], next, count)
  {
  }

  /** Slots that are in use before the first free slot are left as they are. */
  lemma {:induction false} FillFreeSkipsUsed(inds: seq<int>, i: nat, next: int, count: int)
    requires i <= |inds|
    requires forall j :: 0 <= j < i ==> inds[j] != Invalid
    ensures FillFree(inds, next, count) == inds[..i] + FillFree(inds[i..], next, count)
    decreases i
  {
    if i > 0 && next < count {
      FillFreeStep(inds, next, count);
      FillFreeSkipsUsed(inds[1..], i - 1, next, count);
      assert inds[1..][i - 1..] == inds[i..];
      assert inds[..i] == [inds[0]] + inds[1..][..i - 1];
      IntAppendAssoc([inds[0]], inds[1..][..i - 1], FillFree(inds[i..], next, count));
    } else if i > 0 {
      assert inds == inds[..i] + inds[i..];
    }
  }

  /** Once the fill stops (no positions left or no slots left), the remaining slots are copied. */
  lemma FillFreeDone(rest: seq<int>, next: int, count: int)
    requires rest == [] || next >= count
    ensures FillFree(rest, next, count) == rest + FillFree([], next, count)
  {
    if next >= count {
      assert rest + FillFree([], next, count) == rest + [];
    }
  }

  // ---------------------------------------------------------------------
  // Handle stability: a handle keeps finding the same element across edits.
  // ---------------------------------------------------------------------

  /** `new_ind` never hands out a live slot, and the slot it hands out exists afterwards. */
  lemma NewIndIsFree(inds: seq<int>)
    ensures var k := FirstIndexOf(inds, Invalid);
      && k < |SlotsAfterNewInd(inds)|
      && (k < |inds| ==> inds[k] == Invalid && SlotsAfterNewInd(inds) == inds)
      && (k == |inds| ==> SlotsAfterNewInd(inds) == inds + [0] && forall j :: 0 <= j < |inds| ==> inds[j] != Invalid)
  {
  }

  /**
   * After `emplace(pos, x)`, every live handle still finds the element it found
   * before, a past-the-end handle still names past-the-end, and the returned
   * handle finds `x`.
   */
  lemma EmplaceKeepsHandles<T>(store: seq<T>, inds: seq<int>, pos: nat, x: T, r: nat)
    requires SlotsInRange(|store|, inds) && pos <= |store|
    requires r < |inds| && inds[r] != Invalid
    ensures var k := FirstIndexOf(inds, Invalid);
      var store', inds' := Insert(store, pos, x), ShiftUp(SlotsAfterNewInd(inds), pos)[k := pos];
      && r != k
      && (inds[r] < |store| ==> 0 <= inds'[r] < |store'| && store'[inds'[r]] == store[inds[r]])
      && (inds[r] == |store| ==> inds'[r] == |store'|)
      && store'[inds'[k]] == x
  {
    var k := FirstIndexOf(inds, Invalid);
    var slots := SlotsAfterNewInd(inds);
    assert slots[r] == inds[r];
    var store' := Insert(store, pos, x);
    if 0 <= inds[r] < pos {
      assert store'[inds[r]] == store[inds[r]];
    } else if inds[r] < |store| {
      assert store'[inds[r] + 1] == store[inds[r]];
    }
  }

  /**
   * After `emplace_back(x)`, live handles keep their element, but a slot that
   * named past-the-end now finds `x`: unlike `emplace(end(), x)`, the
   * past-the-end slot is not moved along.
   */
  lemma EmplaceBackCapturesEnd<T>(store: seq<T>, inds: seq<int>, x: T, r: nat)
    requires SlotsInRange(|store|, inds)
    requires r < |inds| && inds[r] != Invalid
    ensures var k := FirstIndexOf(inds, Invalid);
      var store', inds' := store + [x], SlotsAfterNewInd(inds)[k := |store|];
      && r != k
      && (inds[r] < |store| ==> inds'[r] == inds[r] && store'[inds'[r]] == store[inds[r]])
      && (inds[r] == |store| ==> store'[inds'[r]] == x)
      && store'[inds'[k]] == x
  {
    var k := FirstIndexOf(inds, Invalid);
    assert SlotsAfterNewInd(inds)[r] == inds[r];
  }

  /** After `erase(pos)`, the handles of other elements keep their element; the erased element's handles become invalid. */
  lemma EraseKeepsOtherHandles<T>(store: seq<T>, inds: seq<int>, pos: nat, r: nat)
    requires SlotsInRange(|store|, inds) && pos < |store|
    requires Live(|store|, inds, r)
    ensures var store', inds' := Remove(store, pos), ShiftDown(inds, pos);
      && (inds[r] == pos ==> inds'[r] == Invalid)
      && (inds[r] != pos ==> Live(|store'|, inds', r) && store'[inds'[r]] == store[inds[r]])
  {
    var store' := Remove(store, pos);
    if inds[r] > pos {
      assert store'[inds[r] - 1] == store[inds[r]];
    }
  }

  /** Shrinking keeps the handles of surviving elements and invalidates the rest. */
  lemma TruncateKeepsSurvivors<T>(store: seq<T>, inds: seq<int>, count: nat, r: nat)
    requires SlotsInRange(|store|, inds) && count < |store|
    requires Live(|store|, inds, r)
    ensures inds[r] < count ==> Live(count, Truncate(inds, count), r) && store[..count][Truncate(inds, count)[r]] == store[inds[r]]
    ensures inds[r] >= count ==> Truncate(inds, count)[r] == Invalid
  {
  }

  /** Growing never touches a slot that was in use, and it gives every new position a slot. */
  lemma {:induction false} FillFreeKeepsUsedSlots(inds: seq<int>, next: int, count: int)
    ensures |FillFree(inds, next, count)| >= |inds|
    ensures forall j :: 0 <= j < |inds| && inds[j] != Invalid ==> FillFree(inds, next, count)[j] == inds[j]
    ensures forall p :: next <= p < count ==> p in FillFree(inds, next, count)
    decreases |inds| + (if next < count then count - next else 0)
  {
    if next >= count {
    } else if inds == [] {
      FillFreeKeepsUsedSlots([], next + 1, count);
    } else if inds[0] == Invalid {
      FillFreeKeepsUsedSlots(inds[1..], next + 1, count);
      var r := FillFree(inds, next, count);
      forall j | 0 <= j < |inds| && inds[j] != Invalid
        ensures r[j] == inds[j]
      {
        assert r[j] == FillFree(inds[1..], next + 1, count)[j - 1];
      }
    } else {
      FillFreeKeepsUsedSlots(inds[1..], next, count);
      var r := FillFree(inds, next, count);
      forall j | 0 <= j < |inds| && inds[j] != Invalid
        ensures r[j] == inds[j]
      {
        if j > 0 {
          assert r[j] == FillFree(inds[1..], next, count)[j - 1];
        }
      }
      forall p | next <= p < count
        ensures p in r
      {
        assert p in FillFree(inds[1..], next, count);
      }
    }
  }

  // ---------------------------------------------------------------------
  // Is the slot table a bijection onto the store?
  // ---------------------------------------------------------------------

  /** Every element has a slot, and no two slots name the same element. */
  predicate Bijective(size: int, inds: seq<int>) {
    && (forall p :: 0 <= p < size ==> p in inds)
    && (forall i, j :: 0 <= i < j < |inds| && 0 <= inds[i] < size ==> inds[i] != inds[j])
  }

  /** The list constructor's table is a bijection. */
  lemma FromListIsBijective(n: nat)
    ensures Bijective(n, seq(n, i => i))
  {
    var inds := seq(n, i => i);
    forall p | 0 <= p < n
      ensures p in inds
    {
      assert inds[p] == p;
    }
  }

  /** `emplace` keeps the table a bijection. */
  lemma EmplaceKeepsBijective(size: nat, inds: seq<int>, pos: nat)
    requires SlotsInRange(size, inds) && pos <= size && Bijective(size, inds)
    ensures var k := FirstIndexOf(inds, Invalid);
      Bijective(size + 1, ShiftUp(SlotsAfterNewInd(inds), pos)[k := pos])
  {
    var k := FirstIndexOf(inds, Invalid);
    var slots := SlotsAfterNewInd(inds);
    var r := ShiftUp(slots, pos)[k := pos];
    assert forall j :: 0 <= j < |inds| ==> slots[j] == inds[j];
    forall p | 0 <= p < size + 1
      ensures p in r
    {
      if p == pos {
        assert r[k] == p;
      } else {
        var q := if p < pos then p else p - 1;
        assert q in inds;
        var j :| 0 <= j < |inds| && inds[j] == q;
        assert j != k;
        assert r[j] == p;
      }
    }
    forall i, j | 0 <= i < j < |r| && 0 <= r[i] < size + 1
      ensures r[i] != r[j]
    {
      if i != k && j != k {
        assert i < |inds| && j < |inds|;
        assert slots[i] == inds[i] && slots[j] == inds[j];
      }
    }
  }

  /** `erase` keeps the table a bijection. */
  lemma EraseKeepsBijective(size: nat, inds: seq<int>, pos: nat)
    requires SlotsInRange(size, inds) && pos < size && Bijective(size, inds)
    ensures Bijective(size - 1, ShiftDown(inds, pos))
  {
    var r := ShiftDown(inds, pos);
    forall p | 0 <= p < size - 1
      ensures p in r
    {
      var q := if p < pos then p else p + 1;
      assert q in inds;
      var j :| 0 <= j < |inds| && inds[j] == q;
      assert r[j] == p;
    }
  }

  /**
   * The default bag's past-the-end slot breaks the bijection at the first
   * `emplace_back`: both slots then name element 0.
   */
  lemma DefaultBagAliasesAfterEmplaceBack()
    ensures var inds := [0];
      var k := FirstIndexOf(inds, Invalid);
      && k == 1
      && SlotsAfterNewInd(inds)[k := 0] == [0, 0]
      && !Bijective(1, SlotsAfterNewInd(inds)[k := 0])
  {
    var r := SlotsAfterNewInd([0])[1 := 0];
    assert r == [0, 0];
    assert 0 <= r[0] < 1 && r[0] == r[1];
  }
}

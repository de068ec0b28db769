/**
 * `Permavector`: the older form of `l_bag`.  Slots are unsigned machine words
 * (`size_t`, 64 bits), so the invalid sentinel is the largest word, and the
 * comparisons in `emplace` and `erase` treat it as a huge position.
 */
module Permavector {
  import opened Sequences

  const Word: int := 0x1_0000_0000_0000_0000
  /** `static_cast<size_type>(-1)`. */
  const Invalid: int := Word - 1

  predicate IsWord(v: int) { 0 <= v < Word }

  predicate Words(inds: seq<int>) {
    forall i :: 0 <= i < |inds| ==> IsWord(inds[i])
  }

  function SlotsAfterNewInd(inds: seq<int>): seq<int> {
    if FirstIndexOf(inds, Invalid) < |inds| then inds else inds + [0]
  }

  /** `emplace`'s loop as written: `ind >= my_ind` holds for the sentinel too, and `++` wraps it to 0. */
  function ShiftUpAsWritten(inds: seq<int>, my: int): (r: seq<int>)
    ensures |r| == |inds|
  {
    seq(|inds|, i requires 0 <= i < |inds| => if inds[i] >= my then (inds[i] + 1) % Word else inds[i])
  }

  /**
   * `erase`'s loop as written: `ind > my_ind` holds for the sentinel too,
   * which becomes `Invalid - 1`.  The text is `LBag.ShiftDown`'s, but there
   * the sentinel is -1 and never passes the test.
   */
  function ShiftDownAsWritten(inds: seq<int>, my: int): (r: seq<int>)
    ensures |r| == |inds|
  {
    seq(|inds|, i requires 0 <= i < |inds| =>
      if inds[i] > my then inds[i] - 1 else if inds[i] == my then Invalid else inds[i])
  }

  /** `emplace`'s renumbering as intended: invalidated slots stay invalid. */
  function ShiftUpIntended(inds: seq<int>, my: int): (r: seq<int>)
    ensures |r| == |inds|
  {
    seq(|inds|, i requires 0 <= i < |inds| => if inds[i] != Invalid && inds[i] >= my then inds[i] + 1 else inds[i])
  }

  /** `erase`'s renumbering as intended: invalidated slots stay invalid. */
  function ShiftDownIntended(inds: seq<int>, my: int): (r: seq<int>)
    ensures |r| == |inds|
  {
    seq(|inds|, i requires 0 <= i < |inds| =>
      if inds[i] == Invalid then Invalid
      else if inds[i] > my then inds[i] - 1 else if inds[i] == my then Invalid else inds[i])
  }

  /** `fast_erase`'s loop: the erased element's slots are invalidated, the last element's slots take its position. */
  function Redirect(inds: seq<int>, my: int, last: int): (r: seq<int>)
    ensures |r| == |inds|
  {
    seq(|inds|, i requires 0 <= i < |inds| =>
      if inds[i] == my then Invalid else if inds[i] == last then my else inds[i])
  }

  class Permavector<T> {
    var store: seq<T>
    var inds: seq<int>

    /** Slots are machine words and the store is smaller than the largest one. */
    ghost predicate Valid()
      reads this
    {
      Words(inds) && |store| < Invalid
    }

    /** The default vector: one slot naming past-the-end. */
    constructor ()
      ensures Valid() && store == [] && inds == [0]
    {
      store := [];
      inds := [0];
    }

    /** `get`: the position a handle refers to. */
    function Get(r: nat): (pos: int)
      reads this
      requires Valid() && r < |inds|
      ensures IsWord(pos)
    {
      inds[r]
    }

    /**
     * The `std::find` loop over the slots.  `Permavector` repeats `l_bag`'s
     * code for its own class (`LBag.Bag.IndexOf`); here the slots are words.
     */
    method IndexOf(v: int) returns (k: nat)
      ensures k == FirstIndexOf(inds, v)
    {
      k := 0;
      while k < |inds| && inds[k] != v
        invariant k <= |inds|
        invariant FirstIndexOf(inds, v) == k + FirstIndexOf(inds[k..], v)
      {
        assert inds[k..][1..] == inds[k + 1..];
        k := k + 1;
      }
      if k == |inds| {
        assert inds[k..] == [];
      }
    }

    /**
     * `get_perma`: the first slot naming position `pos`, or the slot count
     * when none does; the same code as `LBag.Bag.GetPerma`, on this class.
     */
    method GetPerma(pos: nat) returns (r: nat)
      requires pos <= |store|
      ensures r <= |inds|
      ensures r < |inds| ==> inds[r] == pos
      ensures forall j :: 0 <= j < r ==> inds[j] != pos
    {
      r := IndexOf(pos);
    }

    method NewInd() returns (k: nat)
      requires Valid()
      modifies this
      ensures Valid() && store == old(store)
      ensures k == FirstIndexOf(old(inds), Invalid) && inds == SlotsAfterNewInd(old(inds)) && k < |inds|
    {
      k := IndexOf(Invalid);
      if k == |inds| {
        inds := inds + [0];
      }
    }

    method EmplaceBack(x: T) returns (r: nat)
      requires Valid() && |store| + 1 < Invalid
      modifies this
      ensures Valid()
      ensures store == old(store) + [x]
      ensures r == FirstIndexOf(old(inds), Invalid)
      ensures inds == SlotsAfterNewInd(old(inds))[r := |old(store)|]
    {
      r := NewInd();
      inds := inds[r := |store|];
      store := store + [x];
    }

    /** `emplace` as written, with the wrapping increment. */
    method Emplace(pos: nat, x: T) returns (r: nat)
      requires Valid() && pos <= |store| && |store| + 1 < Invalid
      modifies this
      ensures Valid()
      ensures store == Insert(old(store), pos, x)
      ensures r == FirstIndexOf(old(inds), Invalid)
      ensures inds == ShiftUpAsWritten(SlotsAfterNewInd(old(inds)), pos)[r := pos]
    {
      r := NewInd();
      ghost var slots := inds;
      var i := 0;
      while i < |inds|
        invariant 0 <= i <= |inds| == |slots| && store == old(store)
        invariant forall j :: 0 <= j < i ==> inds[j] == ShiftUpAsWritten(slots, pos)[j]
        invariant forall j :: i <= j < |inds| ==> inds[j] == slots[j]
      {
        if inds[i] >= pos {
          inds := inds[i := (inds[i] + 1) % Word];
        }
        i := i + 1;
      }
      assert inds == ShiftUpAsWritten(slots, pos);
      inds := inds[r := pos];
      store := Insert(store, pos, x);
    }

    /** `erase` as written, with the sentinel decremented like a position. */
    method Erase(pos: nat) returns (next: nat)
      requires Valid() && pos < |store|
      modifies this
      ensures Valid()
      ensures store == Remove(old(store), pos)
      ensures inds == ShiftDownAsWritten(old(inds), pos)
      ensures next == pos
    {
      var i := 0;
      while i < |inds|
        invariant 0 <= i <= |inds| == |old(inds)| && store == old(store)
        invariant forall j :: 0 <= j < i ==> inds[j] == ShiftDownAsWritten(old(inds), pos)[j]
        invariant forall j :: i <= j < |inds| ==> inds[j] == old(inds)[j]
      {
        if inds[i] > pos {
          inds := inds[i := inds[i] - 1];
        } else if inds[i] == pos {
          inds := inds[i := Invalid];
        }
        i := i + 1;
      }
      assert inds == ShiftDownAsWritten(old(inds), pos);
      store := Remove(store, pos);
      next := pos;
    }

    /** `fast_erase`: O(1) erase that moves the last element into the hole; it returns no iterator. */
    method FastErase(pos: nat)
      requires Valid() && pos < |store|
      modifies this
      ensures Valid()
      ensures store == SwapPop(old(store), pos)
      ensures inds == Redirect(old(inds), pos, |old(store)| - 1)
    {
      var last := |store| - 1;
      var i := 0;
      while i < |inds|
        invariant 0 <= i <= |inds| == |old(inds)| && store == old(store)
        invariant forall j :: 0 <= j < i ==> inds[j] == Redirect(old(inds), pos, last)[j]
        invariant forall j :: i <= j < |inds| ==> inds[j] == old(inds)[j]
      {
        if inds[i] == pos {
          inds := inds[i := Invalid];
        } else if inds[i] == last {
          inds := inds[i := pos];
        }
        i := i + 1;
      }
      assert inds == Redirect(old(inds), pos, last);
      store := SwapPop(store, pos);
    }
  }

  /**
   * `fast_erase` keeps the handles of the other elements, including the moved
   * last one; a past-the-end slot is not moved, so it ends one beyond the new end.
   */
  lemma FastEraseKeepsHandles<T>(store: seq<T>, inds: seq<int>, pos: nat, r: nat)
    requires pos < |store| && r < |inds| && 0 <= inds[r] <= |store|
    ensures var store', inds' := SwapPop(store, pos), Redirect(inds, pos, |store| - 1);
      && (inds[r] == pos ==> inds'[r] == Invalid)
      && (inds[r] != pos && inds[r] < |store| ==> 0 <= inds'[r] < |store'| && store'[inds'[r]] == store[inds[r]])
      && (inds[r] == |store| ==> inds'[r] == |store'| + 1)
  {
  }

  // ---------------------------------------------------------------------
  // The unsigned sentinel in emplace and erase.
  // ---------------------------------------------------------------------

  /**
   * As written, `emplace` turns invalidated slots into live handles: with two
   * free slots and an empty store, `emplace(begin(), x)` reuses slot 0 and the
   * wrap-around makes slot 1 name `x` as well.
   */
  lemma EmplaceRevivesFreeSlot()
    ensures var inds := [Invalid, Invalid];
      var k := FirstIndexOf(inds, Invalid);
      && k == 0
      && ShiftUpAsWritten(SlotsAfterNewInd(inds), 0)[k := 0] == [0, 0]
  {
    var inds := [Invalid, Invalid];
    assert ShiftUpAsWritten(inds, 0) == [0, 0];
  }

  /**
   * As written, `erase` turns an invalidated slot into `Invalid - 1`, a slot
   * that is neither free (so `new_ind` never reuses it) nor a position.
   */
  lemma EraseLeaksFreeSlot()
    ensures ShiftDownAsWritten([0, Invalid], 0) == [Invalid, Invalid - 1]
    ensures FirstIndexOf([Invalid, Invalid - 1], Invalid) == 0
  {
    assert ShiftDownAsWritten([0, Invalid], 0) == [Invalid, Invalid - 1];
  }

  /** With invalid slots skipped, `emplace` keeps free slots free, keeps every handle, and the new handle finds `x`. */
  lemma EmplaceIntendedKeepsHandles<T>(store: seq<T>, inds: seq<int>, pos: nat, x: T, r: nat)
    requires Words(inds) && pos <= |store| && |store| + 1 < Invalid
    requires r < |inds|
    ensures var k := FirstIndexOf(inds, Invalid);
      var store', inds' := Insert(store, pos, x), ShiftUpIntended(SlotsAfterNewInd(inds), pos)[k := pos];
      && Words(inds')
      && store'[inds'[k]] == x
      && (r != k && inds[r] == Invalid ==> inds'[r] == Invalid)
      && (0 <= inds[r] < |store| ==> r != k && store'[inds'[r]] == store[inds[r]])
      && (inds[r] == |store| ==> inds'[r] == |store'|)
  {
    var k := FirstIndexOf(inds, Invalid);
    var slots := SlotsAfterNewInd(inds);
    assert slots[r] == inds[r];
    assert Words(slots);
    var store' := Insert(store, pos, x);
    if 0 <= inds[r] < pos {
      assert store'[inds[r]] == store[inds[r]];
    } else if inds[r] < |store| {
      assert store'[inds[r] + 1] == store[inds[r]];
    }
  }

  /** With invalid slots skipped, `erase` keeps free slots free and keeps the other elements' handles. */
  lemma EraseIntendedKeepsHandles<T>(store: seq<T>, inds: seq<int>, pos: nat, r: nat)
    requires pos < |store| < Invalid && r < |inds|
    ensures var store', inds' := Remove(store, pos), ShiftDownIntended(inds, pos);
      && (inds[r] == Invalid || inds[r] == pos ==> inds'[r] == Invalid)
      && (0 <= inds[r] < |store| && inds[r] != pos ==> 0 <= inds'[r] < |store'| && store'[inds'[r]] == store[inds[r]])
      && (inds[r] == |store| ==> inds'[r] == |store'|)
  {
    var store' := Remove(store, pos);
    if pos < inds[r] < |store| {
      assert store'[inds[r] - 1] == store[inds[r]];
    }
  }
}

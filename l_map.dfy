/**
 * `l_map`: values kept in insertion-chosen order in a vector (`store`), with an
 * index (`inds`) of (key, position) entries sorted by key and searched with
 * `lower_bound`.  Keys are integers ordered by `<`.
 */
module LMap {
  import opened Sequences

  type Entry = (int, nat)

  /** Index entries are strictly increasing by key (one entry per key). */
  predicate SortedByKey(inds: seq<Entry>) {
    forall i, j :: 0 <= i < j < |inds| ==> inds[i].0 < inds[j].0
  }

  /** Every index entry names the store element holding its key. */
  predicate Consistent<V>(store: seq<(int, V)>, inds: seq<Entry>) {
    forall i :: 0 <= i < |inds| ==> inds[i].1 < |store| && store[inds[i].1].0 == inds[i].0
  }

  /** `lower_bound`: the first entry whose key is not less than `k`. */
  function LowerBound(inds: seq<Entry>, k: int): (lb: nat)
    ensures lb <= |inds|
    ensures forall j :: 0 <= j < lb ==> inds[j].0 < k
    ensures SortedByKey(inds) ==> forall j :: lb <= j < |inds| ==> inds[j].0 >= k
  {
    if inds == [] || inds[0].0 >= k then 0 else 1 + LowerBound(inds[1..], k)
  }

  /** `try_emplace`'s loop as written: only entries strictly after the insertion point move. */
  function ShiftAbove(inds: seq<Entry>, pos: int): (r: seq<Entry>)
    ensures |r| == |inds|
  {
    seq(|inds|, i requires 0 <= i < |inds| => if inds[i].1 > pos then (inds[i].0, inds[i].1 + 1) else inds[i])
  }

  /** The renumbering an insertion needs: entries at or after the insertion point move. */
  function ShiftFrom(inds: seq<Entry>, pos: int): (r: seq<Entry>)
    ensures |r| == |inds|
  {
    seq(|inds|, i requires 0 <= i < |inds| => if inds[i].1 >= pos then (inds[i].0, inds[i].1 + 1) else inds[i])
  }

  /** `erase`'s intended renumbering: entries after the erased position move down. */
  function ShiftBelow(inds: seq<Entry>, pos: nat): (r: seq<Entry>)
    ensures |r| == |inds|
  {
    seq(|inds|, i requires 0 <= i < |inds| => if inds[i].1 > pos then (inds[i].0, inds[i].1 - 1) else inds[i])
  }

  predicate Indexed(inds: seq<Entry>, k: int) {
    exists j :: 0 <= j < |inds| && inds[j].0 == k
  }

  class OrderedMap<V> {
    var store: seq<(int, V)>
    var inds: seq<Entry>

    /** The shape every operation keeps: sorted index, one entry per element, positions in range. */
    ghost predicate Valid()
      reads this
    {
      && SortedByKey(inds)
      && |inds| == |store|
      && forall i :: 0 <= i < |inds| ==> inds[i].1 < |store|
    }

    constructor ()
      ensures Valid() && store == [] && inds == []
    {
      store := [];
      inds := [];
    }

    /** `find_ind`: `std::lower_bound` by binary search. */
    method FindInd(k: int) returns (lb: nat)
      requires Valid()
      ensures lb <= |inds|
      ensures forall j :: 0 <= j < lb ==> inds[j].0 < k
      ensures forall j :: lb <= j < |inds| ==> inds[j].0 >= k
    {
      var lo, hi := 0, |inds|;
      while lo < hi
        invariant 0 <= lo <= hi <= |inds|
        invariant forall j :: 0 <= j < lo ==> inds[j].0 < k
        invariant forall j :: hi <= j < |inds| ==> inds[j].0 >= k
      {
        var mid := lo + (hi - lo) / 2;
        if inds[mid].0 < k {
          lo := mid + 1;
        } else {
          hi := mid;
        }
      }
      lb := lo;
    }

    /** `at`: the element position of `k`, or `|store|` (`end()`) when no entry has key `k`. */
    method At(k: int) returns (pos: nat)
      requires Valid()
      ensures pos <= |store|
      ensures pos == |store| <==> !Indexed(inds, k)
      ensures forall j :: 0 <= j < |inds| && inds[j].0 == k ==> pos == inds[j].1
    {
      var lb := FindInd(k);
      if lb == |inds| || inds[lb].0 != k {
        return |store|;
      }
      pos := inds[lb].1;
    }

    /** `try_emplace(pos, k, v)` as written: the shift skips the entry sitting at `pos`. */
    method TryEmplace(pos: nat, k: int, v: V) returns (ok: bool)
      requires Valid() && pos <= |store|
      modifies this
      ensures Valid()
      ensures ok == !Indexed(old(inds), k)
      ensures !ok ==> store == old(store) && inds == old(inds)
      ensures ok ==> store == Insert(old(store), pos, (k, v))
      ensures ok ==> inds == Insert(ShiftAbove(old(inds), pos), LowerBound(old(inds), k), (k, pos))
    {
      var lb := FindInd(k);
      LowerBoundUnique(inds, k, lb);
      if lb != |inds| && inds[lb].0 == k {
        return false;
      }
      ShiftedInsertKeepsShape(store, inds, ShiftAbove(inds, pos), pos, k);
      RenumberAbove(pos);
      store := Insert(store, pos, (k, v));
      inds := Insert(inds, lb, (k, pos));
      ok := true;
    }

    /** `try_emplace_back`: `try_emplace` at the end of the store. */
    method TryEmplaceBack(k: int, v: V) returns (ok: bool)
      requires Valid()
      modifies this
      ensures Valid()
      ensures ok == !Indexed(old(inds), k)
      ensures !ok ==> store == old(store) && inds == old(inds)
      ensures ok ==> store == old(store) + [(k, v)]
      ensures ok ==> inds == Insert(old(inds), LowerBound(old(inds), k), (k, |old(store)|))
      ensures Consistent(old(store), old(inds)) ==> Consistent(store, inds)
    {
      ghost var s0, i0 := store, inds;
      ok := TryEmplace(|store|, k, v);
      if ok {
        assert ShiftAbove(i0, |s0|) == i0;
        assert Insert(s0, |s0|, (k, v)) == s0 + [(k, v)];
        if Consistent(s0, i0) {
          EmplaceBackKeepsIndex(s0, i0, k, v);
        }
      }
    }

    /**
     * `erase` as its comment intends: drop `pos`'s entry, renumber the entries
     * after it, erase the element.  It looks the entry up by key, so it needs an
     * exact index.
     */
    method Erase(pos: nat) returns (next: nat)
      requires Valid() && Consistent(store, inds) && pos < |store|
      modifies this
      ensures Valid() && Consistent(store, inds)
      ensures store == Remove(old(store), pos)
      ensures LowerBound(old(inds), old(store)[pos].0) < |old(inds)|
      ensures LowerBound(old(inds), old(store)[pos].0) < |old(inds)| ==>
        inds == Remove(ShiftBelow(old(inds), pos), LowerBound(old(inds), old(store)[pos].0))
      ensures next == pos
    {
      var k := store[pos].0;
      var lb := FindInd(k);
      LowerBoundUnique(inds, k, lb);
      EraseKeepsIndex(store, inds, pos);
      RenumberBelow(pos);
      inds := Remove(inds, lb);
      store := Remove(store, pos);
      next := pos;
    }

    /** `try_emplace`'s renumbering loop as written: every entry after `pos` moves up by one. */
    method RenumberAbove(pos: nat)
      modifies this
      ensures store == old(store) && inds == ShiftAbove(old(inds), pos)
    {
      var i := 0;
      while i < |inds|
        invariant 0 <= i <= |inds| == |old(inds)| && store == old(store)
        invariant forall j :: 0 <= j < i ==> inds[j] == ShiftAbove(old(inds), pos)[j]
        invariant forall j :: i <= j < |inds| ==> inds[j] == old(inds)[j]
      {
        if inds[i].1 > pos {
          inds := inds[i := (inds[i].0, inds[i].1 + 1)];
        }
        i := i + 1;
      }
    }

    /** `erase`'s renumbering loop: every entry after `pos` moves down by one. */
    method RenumberBelow(pos: nat)
      modifies this
      ensures store == old(store) && inds == ShiftBelow(old(inds), pos)
    {
      var i := 0;
      while i < |inds|
        invariant 0 <= i <= |inds| == |old(inds)| && store == old(store)
        invariant forall j :: 0 <= j < i ==> inds[j] == ShiftBelow(old(inds), pos)[j]
        invariant forall j :: i <= j < |inds| ==> inds[j] == old(inds)[j]
      {
        if inds[i].1 > pos {
          inds := inds[i := (inds[i].0, inds[i].1 - 1)];
        }
        i := i + 1;
      }
    }
  }

  /** Any index with the lower-bound properties is the lower bound. */
  lemma {:induction false} LowerBoundUnique(inds: seq<Entry>, k: int, lb: nat)
    requires lb <= |inds| && SortedByKey(inds)
    requires forall j :: 0 <= j < lb ==> inds[j].0 < k
    requires forall j :: lb <= j < |inds| ==> inds[j].0 >= k
    ensures lb == LowerBound(inds, k)
    ensures Indexed(inds, k) <==> lb < |inds| && inds[lb].0 == k
  {
    if inds != [] && inds[0].0 < k {
      var rest := inds[1..];
      assert forall j :: 0 <= j < |rest| ==> rest[j] == inds[j + 1];
      LowerBoundUnique(rest, k, lb - 1);
    }
  }

  /** In an exact index of a store of equal length, every element's key is indexed. */
  lemma StoredKeyIndexed<V>(store: seq<(int, V)>, inds: seq<Entry>, pos: nat)
    requires SortedByKey(inds) && Consistent(store, inds) && |inds| == |store| && pos < |store|
    ensures Indexed(inds, store[pos].0)
  {
    // the entries name pairwise different positions, so they name every position
    var named := set i | 0 <= i < |inds| :: inds[i].1;
    var all := Upto(|store|);
    forall i, j | 0 <= i < j < |inds| ensures inds[i].1 != inds[j].1 {
      assert store[inds[i].1].0 == inds[i].0 < inds[j].0 == store[inds[j].1].0;
    }
    DistinctImageSize(inds);
    SubsetSize(named + {pos}, all);
    assert |named + {pos}| == |named| + |{pos} - named|;
    assert pos in named;
    var i :| 0 <= i < |inds| && inds[i].1 == pos;
  }

  lemma {:induction false} DistinctImageSize(inds: seq<Entry>)
    requires forall i, j :: 0 <= i < j < |inds| ==> inds[i].1 != inds[j].1
    ensures |set i | 0 <= i < |inds| :: inds[i].1| == |inds|
  {
    if inds != [] {
      var rest := inds[1..];
      assert forall i, j :: 0 <= i < j < |rest| ==> rest[i].1 != rest[j].1 by {
        forall i, j | 0 <= i < j < |rest| ensures rest[i].1 != rest[j].1 {
          assert rest[i] == inds[i + 1] && rest[j] == inds[j + 1];
        }
      }
      DistinctImageSize(rest);
      ImageCons(inds);
      forall i | 0 <= i < |rest| ensures rest[i].1 != inds[0].1 {
        assert rest[i] == inds[i + 1];
      }
    }
  }

  /** The positions a non-empty index names: its first entry's and the rest's. */
  lemma ImageCons(inds: seq<Entry>)
    requires inds != []
    ensures (set i | 0 <= i < |inds| :: inds[i].1) == (set i | 0 <= i < |inds[1..]| :: inds[1..][i].1) + {inds[0].1}
  {
    var rest := inds[1..];
    var s := set i | 0 <= i < |inds| :: inds[i].1;
    var t := set i | 0 <= i < |rest| :: rest[i].1;
    forall x | x in s ensures x in t + {inds[0].1} {
      var i :| 0 <= i < |inds| && inds[i].1 == x;
      if i > 0 { assert rest[i - 1].1 == x; }
    }
    forall x | x in t ensures x in s {
      var i :| 0 <= i < |rest| && rest[i].1 == x;
      assert inds[i + 1].1 == x;
    }
  }

  lemma SubsetSize<T>(a: set<T>, b: set<T>)
    requires a <= b
    ensures |a| <= |b|
  {
    assert b == a + (b - a);
  }

  /** The positions below `n`. */
  function Upto(n: nat): (r: set<int>)
    ensures |r| == n
    ensures forall p :: p in r <==> 0 <= p < n
  {
    if n == 0 then {} else Upto(n - 1) + {n - 1}
  }

  /** `erase` (as intended) keeps the index sorted and exact. */
  lemma EraseKeepsIndex<V>(store: seq<(int, V)>, inds: seq<Entry>, pos: nat)
    requires SortedByKey(inds) && Consistent(store, inds) && |inds| == |store| && pos < |store|
    ensures Indexed(inds, store[pos].0)
    ensures var inds' := Remove(ShiftBelow(inds, pos), LowerBound(inds, store[pos].0));
      && LowerBound(inds, store[pos].0) < |inds|
      && SortedByKey(inds') && Consistent(Remove(store, pos), inds') && |inds'| == |store| - 1
  {
    StoredKeyIndexed(store, inds, pos);
    var k := store[pos].0;
    var lb := LowerBound(inds, k);
    LowerBoundUnique(inds, k, lb);
    EraseKeepsSorted(inds, pos, lb);
    EraseKeepsConsistent(store, inds, pos, lb);
  }

  /** Renumbering keeps the keys, so removing an entry leaves the index sorted. */
  lemma EraseKeepsSorted(inds: seq<Entry>, pos: nat, lb: nat)
    requires SortedByKey(inds) && lb < |inds|
    ensures SortedByKey(Remove(ShiftBelow(inds, pos), lb))
  {
    var shifted := ShiftBelow(inds, pos);
    var inds' := Remove(shifted, lb);
    forall i, j | 0 <= i < j < |inds'|
      ensures inds'[i].0 < inds'[j].0
    {
      var i0 := if i < lb then i else i + 1;
      var j0 := if j < lb then j else j + 1;
      assert inds'[i] == shifted[i0] && inds'[j] == shifted[j0];
    }
  }

  /** Removing the erased element's entry and renumbering the later ones keeps every entry naming its key. */
  lemma EraseKeepsConsistent<V>(store: seq<(int, V)>, inds: seq<Entry>, pos: nat, lb: nat)
    requires SortedByKey(inds) && Consistent(store, inds) && pos < |store|
    requires lb < |inds| && inds[lb].0 == store[pos].0
    ensures Consistent(Remove(store, pos), Remove(ShiftBelow(inds, pos), lb))
  {
    var k := store[pos].0;
    var shifted := ShiftBelow(inds, pos);
    var inds' := Remove(shifted, lb);
    var store' := Remove(store, pos);
    forall i | 0 <= i < |inds'|
      ensures inds'[i].1 < |store'| && store'[inds'[i].1].0 == inds'[i].0
    {
      var j := if i < lb then i else i + 1;
      assert inds'[i] == shifted[j];
      assert j != lb;
      assert inds[j].0 != k by {
        if j < lb { assert inds[j].0 < inds[lb].0; } else { assert inds[lb].0 < inds[j].0; }
      }
      assert inds[j].1 != pos;
      if inds[j].1 > pos {
        assert store'[inds[j].1 - 1] == store[inds[j].1];
      } else {
        assert store'[inds[j].1] == store[inds[j].1];
      }
    }
  }

  /** `try_emplace`'s insertion keeps the shape of the index after any renumbering that keeps keys and bounds positions. */
  lemma ShiftedInsertKeepsShape<V>(store: seq<(int, V)>, inds: seq<Entry>, shifted: seq<Entry>, pos: nat, k: int)
    requires SortedByKey(inds) && |inds| == |store| && !Indexed(inds, k) && pos <= |store|
    requires |shifted| == |inds| && forall i :: 0 <= i < |inds| ==> shifted[i].0 == inds[i].0 && shifted[i].1 <= |store|
    ensures var inds' := Insert(shifted, LowerBound(inds, k), (k, pos));
      && SortedByKey(inds') && |inds'| == |store| + 1
      && forall i :: 0 <= i < |inds'| ==> inds'[i].1 < |store| + 1
  {
    assert LowerBound(shifted, k) == LowerBound(inds, k) by {
      LowerBoundUnique(shifted, k, LowerBound(inds, k));
    }
    assert !Indexed(shifted, k);
    InsertAtLowerBoundSorted(shifted, k, pos);
  }

  /** Inserting at the lower bound of an absent key keeps the index sorted. */
  lemma InsertAtLowerBoundSorted(inds: seq<Entry>, k: int, p: nat)
    requires SortedByKey(inds) && !Indexed(inds, k)
    ensures SortedByKey(Insert(inds, LowerBound(inds, k), (k, p)))
  {
    var lb := LowerBound(inds, k);
    var r := Insert(inds, lb, (k, p));
    forall i, j | 0 <= i < j < |r|
      ensures r[i].0 < r[j].0
    {
      if j < lb {
      } else if j == lb {
      } else if i < lb {
        assert r[j] == inds[j - 1];
      } else if i == lb {
        assert r[j] == inds[j - 1] && inds[j - 1].0 >= k;
        assert inds[j - 1].0 != k;
      } else {
        assert r[i] == inds[i - 1] && r[j] == inds[j - 1];
      }
    }
  }

  /**
   * As written, `try_emplace` before an existing element breaks the index: in
   * the map {1 ↦ a}, inserting key 0 at `begin()` leaves key 1's entry naming
   * position 0, which now holds key 0.
   */
  lemma TryEmplaceMisindexes<V>(a: V, b: V)
    ensures var store, inds := [(1, a)], [(1, 0)];
      var store', inds' := Insert(store, 0, (0, b)), Insert(ShiftAbove(inds, 0), LowerBound(inds, 0), (0, 0));
      && Consistent(store, inds)
      && inds' == [(0, 0), (1, 0)]
      && !Consistent(store', inds')
  {
    var store, inds := [(1, a)], [(1, 0)];
    assert ShiftAbove(inds, 0) == inds;
    var store' := Insert(store, 0, (0, b));
    assert store'[0].0 == 0;
    assert Insert(inds, 0, (0, 0)) == [(0, 0), (1, 0)];
  }

  /** With the shift including the insertion point, `try_emplace` keeps the index sorted and exact. */
  lemma TryEmplaceIntendedKeepsIndex<V>(store: seq<(int, V)>, inds: seq<Entry>, pos: nat, k: int, v: V)
    requires SortedByKey(inds) && Consistent(store, inds) && pos <= |store| && !Indexed(inds, k)
    ensures var store', inds' := Insert(store, pos, (k, v)), Insert(ShiftFrom(inds, pos), LowerBound(inds, k), (k, pos));
      SortedByKey(inds') && Consistent(store', inds')
  {
    var shifted := ShiftFrom(inds, pos);
    assert forall i :: 0 <= i < |inds| ==> shifted[i].0 == inds[i].0;
    assert LowerBound(shifted, k) == LowerBound(inds, k) by {
      LowerBoundUnique(shifted, k, LowerBound(inds, k));
    }
    assert !Indexed(shifted, k);
    InsertAtLowerBoundSorted(shifted, k, pos);
    ShiftFromInsertConsistent(store, inds, pos, k, v, LowerBound(inds, k));
  }

  /** Renumbering from the insertion point and inserting the new entry keeps every entry naming its key. */
  lemma ShiftFromInsertConsistent<V>(store: seq<(int, V)>, inds: seq<Entry>, pos: nat, k: int, v: V, lb: nat)
    requires Consistent(store, inds) && pos <= |store| && lb <= |inds|
    ensures Consistent(Insert(store, pos, (k, v)), Insert(ShiftFrom(inds, pos), lb, (k, pos)))
  {
    var shifted := ShiftFrom(inds, pos);
    var store' := Insert(store, pos, (k, v));
    var inds' := Insert(shifted, lb, (k, pos));
    forall i | 0 <= i < |inds'|
      ensures inds'[i].1 < |store'| && store'[inds'[i].1].0 == inds'[i].0
    {
      if i != lb {
        var j := if i < lb then i else i - 1;
        assert inds'[i] == shifted[j];
        if inds[j].1 >= pos {
          assert store'[inds[j].1 + 1] == store[inds[j].1];
        } else {
          assert store'[inds[j].1] == store[inds[j].1];
        }
      }
    }
  }

  /** `try_emplace_back` as written keeps an exact index: no entry names the end position. */
  lemma EmplaceBackKeepsIndex<V>(store: seq<(int, V)>, inds: seq<Entry>, k: int, v: V)
    requires SortedByKey(inds) && Consistent(store, inds) && !Indexed(inds, k)
    ensures Consistent(store + [(k, v)], Insert(inds, LowerBound(inds, k), (k, |store|)))
  {
    assert ShiftFrom(inds, |store|) == inds;
    assert Insert(store, |store|, (k, v)) == store + [(k, v)];
    TryEmplaceIntendedKeepsIndex(store, inds, |store|, k, v);
  }
}

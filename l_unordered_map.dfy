/**
 * `l_unordered_map`: key/value pairs kept contiguously in a vector (`store`),
 * with a hash map (`inds`) from each key to its element's position.  Erasure
 * swaps the element with the last one, so positions are not stable but the
 * index stays exact.
 */
module LUnorderedMap {
  import opened Wrappers
  import opened Sequences

  datatype Error = DomainError(message: string)

  class UnorderedMap<K(==), V> {
    var store: seq<(K, V)>
    var inds: map<K, nat>

    /** The index is a bijection between the stored keys and the store positions. */
    ghost predicate Valid()
      reads this
    {
      && (forall i :: 0 <= i < |store| ==> store[i].0 in inds && inds[store[i].0] == i)
      && (forall k :: k in inds ==> inds[k] < |store| && store[inds[k]].0 == k)
    }

    /** The key/value association the container represents. */
    ghost function Contents(): map<K, V>
      reads this
      requires Valid()
    {
      map k | k in inds :: store[inds[k]].1
    }

    constructor ()
      ensures Valid() && store == [] && inds == map[]
    {
      store := [];
      inds := map[];
    }

    function Count(k: K): (n: nat)
      reads this
      requires Valid()
      ensures n <= 1
      ensures n == 1 <==> exists i :: 0 <= i < |store| && store[i].0 == k
    {
      if k in inds then 1 else 0
    }

    /** `find`: the element's position, or `|store|` (`end()`) when the key is absent. */
    function Find(k: K): (pos: nat)
      reads this
      requires Valid()
      ensures pos <= |store|
      ensures pos < |store| ==> store[pos].0 == k
      ensures pos == |store| <==> forall i :: 0 <= i < |store| ==> store[i].0 != k
    {
      if k !in inds then |store| else inds[k]
    }

    /** `at`: the value for `k`, or the `domain_error` it throws when `k` is absent. */
    function At(k: K): (r: Result<V, Error>)
      reads this
      requires Valid()
      ensures r.Err? <==> k !in Contents()
      ensures r.Ok? ==> r.value == Contents()[k]
    {
      var pos := Find(k);
      if pos == |store| then Err(DomainError("l_unordered_map does not contain key"))
      else Ok(store[pos].1)
    }

    /**
     * `try_emplace`: an existing key is left alone and its position returned with
     * false; a new key is appended with `v` and its position returned with true.
     */
    method TryEmplace(k: K, v: V) returns (pos: nat, inserted: bool)
      requires Valid()
      modifies this
      ensures Valid()
      ensures inserted == (k !in old(inds))
      ensures !inserted ==> store == old(store) && inds == old(inds) && pos == inds[k]
      ensures inserted ==> store == old(store) + [(k, v)] && inds == old(inds)[k := |old(store)|] && pos == |store| - 1
      ensures Contents() == if inserted then old(Contents())[k := v] else old(Contents())
      ensures pos < |store| && store[pos].0 == k
    {
      if k in inds {
        return inds[k], false;
      }
      store := store + [(k, v)];
      inds := inds[k := |store| - 1];
      pos, inserted := |store| - 1, true;
      assert Contents() == old(Contents())[k := v] by {
        forall key | key in old(inds)
          ensures store[inds[key]] == old(store)[old(inds)[key]]
        {
        }
      }
    }

    /** `operator[]`: the position of `k`'s element, inserting `dflt` (a value-initialised value) when absent. */
    method Index(k: K, dflt: V) returns (pos: nat)
      requires Valid()
      modifies this
      ensures Valid()
      ensures Contents() == if k in old(Contents()) then old(Contents()) else old(Contents())[k := dflt]
      ensures pos < |store| && store[pos].0 == k
    {
      var inserted;
      pos, inserted := TryEmplace(k, dflt);
    }

    /** `erase(iterator)`: swap with the last element, re-point its key, drop the erased key, shrink. */
    method EraseAt(pos: nat) returns (next: nat)
      requires Valid() && pos < |store|
      modifies this
      ensures Valid()
      ensures store == SwapPop(old(store), pos)
      ensures inds == old(inds)[old(store)[|old(store)| - 1].0 := pos] - {old(store)[pos].0}
      ensures Contents() == old(Contents()) - {old(store)[pos].0}
      ensures next == pos
    {
      var last := |store| - 1;
      var erased, moved := store[pos], store[last];
      store := store[pos := moved][last := erased];
      inds := inds[moved.0 := pos];
      inds := inds - {erased.0};
      store := store[..last];
      next := pos;
      assert store == SwapPop(old(store), pos);
      assert Valid() by {
        forall i | 0 <= i < |store|
          ensures store[i].0 in inds && inds[store[i].0] == i
        {
          if i != pos {
            assert old(store)[i].0 != erased.0 && old(store)[i].0 != moved.0;
          }
        }
      }
    }

    /** `erase(key)`: 0 and no change when the key is absent, otherwise the element is erased and 1 returned. */
    method EraseKey(k: K) returns (n: nat)
      requires Valid()
      modifies this
      ensures Valid()
      ensures n == (if k in old(inds) then 1 else 0)
      ensures n == 0 ==> store == old(store) && inds == old(inds)
      ensures Contents() == old(Contents()) - {k}
    {
      var pos := Find(k);
      if pos == |store| {
        return 0;
      }
      var next := EraseAt(pos);
      n := 1;
    }
  }
}

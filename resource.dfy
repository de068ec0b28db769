/**
 * `Resource<T, K>`: a per-type cache from keys to weak references, so that
 * objects loaded from the same key are shared while somebody holds them.
 * Objects are numbered in creation order; an object is alive while some
 * owner holds a strong reference to it, and a weak reference to a dead
 * object locks to null.
 */
module Resource {
  import opened Wrappers

  class Cache<K(==)> {
    /** The static map from key to (weak) object. */
    var cache: map<K, nat>
    /** The key each object was constructed with, by object number. */
    var keys: seq<K>
    /** The objects some owner still holds. */
    var alive: set<nat>

    /** Every entry and every live object is an object made so far, and each entry names an object of its own key. */
    ghost predicate Valid()
      reads this
    {
      && (forall k :: k in cache ==> cache[k] < |keys| && keys[cache[k]] == k)
      && (forall o :: o in alive ==> o < |keys|)
    }

    constructor ()
      ensures Valid() && cache == map[] && keys == [] && alive == {}
    {
      cache := map[];
      keys := [];
      alive := {};
    }

    /** `Key()`: the key an object was constructed with. */
    function Key(o: nat): (k: K)
      reads this
      requires o < |keys|
      ensures Valid() ==> forall k' :: k' in cache && cache[k'] == o ==> k' == k
    {
      keys[o]
    }

    /** `FindResource`: the cached object, or null when the key is absent or its object has expired. */
    function FindResource(key: K): (r: Option<nat>)
      reads this
      requires Valid()
      ensures r.None? <==> key !in cache || cache[key] !in alive
      ensures r.Some? ==> r.value in alive && r.value < |keys| && Key(r.value) == key
    {
      if key in cache && cache[key] in alive then Some(cache[key]) else None
    }

    /** `MakeShared`: a new live object, registered under its key over any previous entry. */
    method MakeShared(key: K) returns (o: nat)
      requires Valid()
      modifies this
      ensures Valid()
      ensures o == |old(keys)| && keys == old(keys) + [key]
      ensures alive == old(alive) + {o}
      ensures cache == old(cache)[key := o]
      ensures FindResource(key) == Some(o)
    {
      o := |keys|;
      keys := keys + [key];
      alive := alive + {o};
      cache := cache[key := o];
    }

    /**
     * `FindOrMake`: the live cached object when there is one, with nothing
     * changed; otherwise a new object made and cached.
     */
    method FindOrMake(key: K) returns (o: nat)
      requires Valid()
      modifies this
      ensures Valid()
      ensures old(FindResource(key)).Some? ==>
        o == old(FindResource(key)).value && cache == old(cache) && keys == old(keys) && alive == old(alive)
      ensures old(FindResource(key)).None? ==>
        o == |old(keys)| && keys == old(keys) + [key] && alive == old(alive) + {o} && cache == old(cache)[key := o]
      ensures FindResource(key) == Some(o) && Key(o) == key
    {
      var found := FindResource(key);
      if found.Some? {
        return found.value;
      }
      o := MakeShared(key);
    }

    /**
     * The last owner of `o` lets go.  `Resource`'s destructor is commented
     * out, so the cache entry stays behind and `FindResource` now reports
     * null for it.
     */
    method Expire(o: nat)
      requires Valid()
      modifies this
      ensures Valid()
      ensures alive == old(alive) - {o} && cache == old(cache) && keys == old(keys)
      ensures forall k :: k in cache && cache[k] == o ==> k in old(cache) && FindResource(k).None?
    {
      alive := alive - {o};
    }
  }

  /**
   * Two `FindOrMake` calls with the same key, the first result still held,
   * give the same object, and the second creates nothing.
   */
  method FindOrMakeTwice<K(==)>(c: Cache<K>, key: K) returns (first: nat, second: nat)
    requires c.Valid()
    modifies c
    ensures c.Valid()
    ensures first == second && first < |c.keys| && c.Key(first) == key
    ensures |c.keys| <= |old(c.keys)| + 1
  {
    first := c.FindOrMake(key);
    second := c.FindOrMake(key);
  }

  /** After expiry the next `FindOrMake` for the key makes a new object instead of reviving the old one. */
  method FindOrMakeAfterExpiry<K(==)>(c: Cache<K>, key: K) returns (first: nat, second: nat)
    requires c.Valid()
    modifies c
    ensures c.Valid()
    ensures first != second && first < |c.keys| && second < |c.keys| && c.Key(first) == key && c.Key(second) == key
    ensures first !in c.alive && second in c.alive
  {
    first := c.FindOrMake(key);
    c.Expire(first);
    second := c.FindOrMake(key);
  }
}

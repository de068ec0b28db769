/**
 * The older `Resource<T, K>`: the same cache, `MakeShared`, `FindResource`
 * and `FindOrMake`, but its destructor erases the cache entry for the dying
 * object's key, whichever object that entry names by then.
 */
module LegacyResource {
  import opened Wrappers
  import opened Resource

  /** `~Resource`: the object dies and the entry under its key is erased. */
  method Destroy<K(==)>(c: Cache<K>, o: nat)
    requires c.Valid() && o < |c.keys|
    modifies c
    ensures c.Valid()
    ensures c.alive == old(c.alive) - {o} && c.keys == old(c.keys)
    ensures c.cache == old(c.cache) - {old(c.keys)[o]}
    ensures c.FindResource(c.keys[o]).None?
  {
    c.alive := c.alive - {o};
    c.cache := c.cache - {c.keys[o]};
  }

  /**
   * An object re-registered under a key that an older, still-held object
   * also has: when the older one dies it takes the newer one's entry with
   * it, so `FindResource` reports null while the newer object is alive.
   */
  method DestroyOlderHidesNewer<K(==)>(c: Cache<K>, key: K) returns (newer: nat, found: Option<nat>)
    requires c.Valid()
    modifies c
    ensures c.Valid()
    ensures newer in c.alive && newer < |c.keys| && c.Key(newer) == key
    ensures found.None? && found == c.FindResource(key)
  {
    var older := c.MakeShared(key);
    newer := c.MakeShared(key);
    Destroy(c, older);
    found := c.FindResource(key);
  }

  /** With the core cache the same sequence leaves the newer object findable. */
  method ExpireOlderKeepsNewer<K(==)>(c: Cache<K>, key: K) returns (newer: nat, found: Option<nat>)
    requires c.Valid()
    modifies c
    ensures c.Valid()
    ensures newer in c.alive && found == Some(newer) && found == c.FindResource(key)
  {
    var older := c.MakeShared(key);
    newer := c.MakeShared(key);
    c.Expire(older);
    found := c.FindResource(key);
  }
}

/**
 * Object identities: 32-bit ids handed out consecutively from a counter
 * that must first be initialised from the persistent store, two sentinel
 * ids, and the persistent table that names objects.
 */
module Objects {
  import opened Wrappers

  /** `Object`: a 32-bit id. */
  datatype Object = Object(id: int)

  const Two32: int := 0x1_0000_0000

  /** `Object::invalid` (`uint32_t(-1)`) and `Object::none` (`uint32_t(-2)`). */
  const InvalidObject: Object := Object(Two32 - 1)
  const NoneObject: Object := Object(Two32 - 2)

  /** The sentinels are the two largest ids and differ. */
  lemma SentinelValues()
    ensures InvalidObject.id == 0xFFFFFFFF && NoneObject.id == 0xFFFFFFFE && InvalidObject != NoneObject
  {
  }

  datatype ObjectError = LogicError(message: string)

  /**
   * `Object()`: with the counter still at the invalid id, throw; otherwise
   * take the counter's value as the id and advance the counter.  Since the
   * counter is not the largest id, the 32-bit increment never wraps.
   */
  function Allocate(next: int): (r: Result<(Object, int), ObjectError>)
    requires 0 <= next < Two32
    ensures r.Err? <==> next == InvalidObject.id
    ensures r.Err? ==> r.error == LogicError("Object::Init not called")
    ensures r.Ok? ==> r.value.0 == Object(next) && r.value.1 == next + 1 && r.value.1 < Two32
  {
    if next == InvalidObject.id then Err(LogicError("Object::Init not called"))
    else Ok((Object(next), (next + 1) % Two32))
  }

  /** The ids of `k` objects constructed one after another, or the error that stops them. */
  function AllocateMany(next: int, k: nat): (r: Result<(seq<Object>, int), ObjectError>)
    requires 0 <= next < Two32
    ensures r.Ok? ==> |r.value.0| == k && 0 <= r.value.1 < Two32
    decreases k
  {
    if k == 0 then Ok(([], next))
    else
      match Allocate(next)
      case Err(e) => Err(e)
      case Ok((o, next')) =>
        match AllocateMany(next', k - 1)
        case Err(e) => Err(e)
        case Ok((os, last)) => Ok(([o] + os, last))
  }

  /**
   * Ids are consecutive: from a counter `n`, `k` constructions succeed
   * exactly when they stay below the invalid id, and give `n .. n+k-1`.
   */
  lemma {:induction false} AllocateConsecutive(next: int, k: nat)
    requires 0 <= next < Two32
    ensures AllocateMany(next, k).Ok? <==> next + k <= InvalidObject.id
    ensures AllocateMany(next, k).Ok? ==>
      AllocateMany(next, k).value.1 == next + k &&
      forall i :: 0 <= i < k ==> AllocateMany(next, k).value.0[i] == Object(next + i)
    decreases k
  {
    if k > 0 && next != InvalidObject.id {
      AllocateConsecutive(next + 1, k - 1);
    }
  }

  /** The static counter `Object::next`. */
  class IdCounter {
    var next: int

    /** Before `Init`, the counter holds the invalid id. */
    constructor ()
      ensures next == InvalidObject.id
    {
      next := InvalidObject.id;
    }

    /** `Object::Init`: continue from the next object id the persistent store gives. */
    method Init(persistNext: Object)
      requires 0 <= persistNext.id < Two32
      modifies this
      ensures next == persistNext.id
    {
      next := persistNext.id;
    }

    /** `Object()`. */
    method NewObject() returns (r: Result<Object, ObjectError>)
      requires 0 <= next < Two32
      modifies this
      ensures Allocate(old(next)).Ok? ==> r == Ok(Allocate(old(next)).value.0) && next == Allocate(old(next)).value.1
      ensures Allocate(old(next)).Err? ==> r == Err(Allocate(old(next)).error) && next == old(next)
    {
      if next == InvalidObject.id {
        return Err(LogicError("Object::Init not called"));
      }
      r := Ok(Object(next));
      next := next + 1;
    }
  }

  /**
   * `ObjectName`: the `objectname` table, keyed on the name, each row
   * naming one object; rows are written with `insert or replace`.
   */
  class ObjectName {
    var names: map<string, Object>

    constructor ()
      ensures names == map[]
    {
      names := map[];
    }

    /**
     * `operator[](string)`: the object stored under the name; a name not
     * yet stored gets a newly constructed object, which is recorded.
     */
    method Lookup(str: string, ids: IdCounter) returns (r: Result<Object, ObjectError>)
      requires 0 <= ids.next < Two32
      modifies this, ids
      ensures str in old(names) ==> r == Ok(old(names)[str]) && names == old(names) && ids.next == old(ids.next)
      ensures str !in old(names) && Allocate(old(ids.next)).Err? ==>
        r == Err(LogicError("Object::Init not called")) && names == old(names) && ids.next == old(ids.next)
      ensures str !in old(names) && Allocate(old(ids.next)).Ok? ==>
        r == Ok(Object(old(ids.next))) && ids.next == old(ids.next) + 1 && names == old(names)[str := Object(old(ids.next))]
    {
      if str in names {
        return Ok(names[str]);
      }
      r := ids.NewObject();
      if r.Ok? {
        names := names[str := r.value];
      }
    }

    /** `operator[](Object)`: a name stored for the object; the object must have one. */
    method NameOf(obj: Object) returns (name: string)
      requires exists n :: n in names && names[n] == obj
      ensures name in names && names[name] == obj
    {
      name :| name in names && names[name] == obj;
    }

    /** `Rename`: store the object under the name, replacing whatever that name held. */
    method Rename(obj: Object, str: string)
      modifies this
      ensures names == old(names)[str := obj]
    {
      names := names[str := obj];
    }
  }

  /** The names under which `obj` is stored. */
  function NamesOf(names: map<string, Object>, obj: Object): (s: set<string>)
    ensures forall n :: n in s <==> n in names && names[n] == obj
  {
    set n | n in names && names[n] == obj
  }

  /**
   * After `Rename(obj, str)`, looking up `str` gives `obj`, and every
   * other name keeps its object; in particular a name `obj` had before is
   * still stored, so `obj` answers to both.
   */
  lemma RenameEffect(names: map<string, Object>, obj: Object, str: string)
    ensures var after := names[str := obj];
      str in after && after[str] == obj && NamesOf(after, obj) == NamesOf(names, obj) + {str}
      && forall n :: n in names && n != str ==> n in after && after[n] == names[n]
  {
  }
}

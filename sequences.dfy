/** Vector edits shared by the container models: insertion before and removal at a position. */
module Sequences {

  /** The vector after inserting `x` before position `pos` (`vector::emplace`). */
  function Insert<T>(s: seq<T>, pos: nat, x: T): (r: seq<T>)
    requires pos <= |s|
    ensures |r| == |s| + 1 && r[pos] == x
    ensures forall i :: 0 <= i < pos ==> r[i] == s[i]
    ensures forall i :: pos <= i < |s| ==> r[i + 1] == s[i]
  {
    s[..pos] + [x] + s[pos..]
  }

  /** The vector after erasing the element at position `pos` (`vector::erase`). */
  function Remove<T>(s: seq<T>, pos: nat): (r: seq<T>)
    requires pos < |s|
    ensures |r| == |s| - 1
    ensures forall i :: 0 <= i < pos ==> r[i] == s[i]
    ensures forall i :: pos <= i < |r| ==> r[i] == s[i + 1]
  {
    s[..pos] + s[pos + 1..]
  }

  /** `std::find`: the index of the first element equal to `v`, or `|s|` when there is none. */
  function FirstIndexOf<T(==)>(s: seq<T>, v: T): (k: nat)
    ensures k <= |s|
    ensures forall j :: 0 <= j < k ==> s[j] != v
    ensures k < |s| ==> s[k] == v
  {
    if s == [] then 0
    else if s[0] == v then 0
    else 1 + FirstIndexOf(s[1..], v)
  }

  /** `std::find_if`: the index of the first element satisfying `p`, or `|s|` when there is none. */
  function FindIf<T>(s: seq<T>, p: T -> bool): (k: nat)
    ensures k <= |s|
    ensures forall j :: 0 <= j < k ==> !p(s[j])
    ensures k < |s| ==> p(s[k])
  {
    if s == [] then 0
    else if p(s[0]) then 0
    else 1 + FindIf(s[1..], p)
  }

  /** The vector after `swap(v[pos], v.back())` and `pop_back()`. */
  function SwapPop<T>(store: seq<T>, pos: nat): (r: seq<T>)
    requires pos < |store|
    ensures |r| == |store| - 1
    ensures forall i :: 0 <= i < |r| && i != pos ==> r[i] == store[i]
    ensures pos < |r| ==> r[pos] == store[|store| - 1]
  {
    store[pos := store[|store| - 1]][..|store| - 1]
  }
}

/**
 * The older `BinTree`: built incrementally rather than all at once.  Inner
 * nodes and leaves sit in two vectors that grow on demand when a node is
 * dereferenced or a leaf is asked for.  Its index arithmetic is `BinTree`'s,
 * except that `Bottom` compares strictly.
 */
module LegacyBinTree {
  import opened BinTree

  /** The older `Bottom`: the left child lies strictly past `end()`. */
  predicate LegacyBottom(i: nat, size: nat) {
    Left(i) > size
  }

  /**
   * The strict comparison differs from the newer `Bottom` only on the node
   * whose left child would be exactly `end()`.
   */
  lemma LegacyBottomIsBottomButOne(i: nat, size: nat)
    ensures LegacyBottom(i, size) <==> Bottom(i, size) && Left(i) != size
    ensures LegacyBottom(i, size) ==> i >= size / 2
  {
  }

  /**
   * In a complete tree of height `h >= 2`, the first bottom node is not
   * bottom for the strict comparison.
   */
  lemma FirstBottomNodeIsNotLegacyBottom(h: nat)
    requires h >= 2
    ensures var size := Pow2(h) - 1;
      var i := InnerCount(h);
      && i < size && Bottom(i, size) && !LegacyBottom(i, size)
  {
    assert Pow2(h) == 2 * Pow2(h - 1);
    assert Pow2(h - 1) >= 2 by {
      Pow2Grows(h - 1);
    }
  }

  /** `ReserveLeaves`: grow the leaves to `idx + 1` value-initialised entries when they are not that long. */
  function GrowLeaves<L>(leaves: seq<L>, idx: nat, dflt: L): (r: seq<L>)
    ensures idx < |r|
    ensures |leaves| <= idx ==> |r| == idx + 1
    ensures idx < |leaves| ==> r == leaves
    ensures r[..|leaves|] == leaves
    ensures forall j :: |leaves| <= j < |r| ==> r[j] == dflt
  {
    if |leaves| <= idx then leaves + seq(idx + 1 - |leaves|, _ => dflt) else leaves
  }

  /**
   * `ReserveNodes`: when node `idx` lies past the inner nodes, first drop the
   * `idx - inner.size()` leading leaves if there are that many, then grow the
   * inner nodes to `idx + 1`.
   */
  function GrowNodes<N, L>(inner: seq<N>, leaves: seq<L>, idx: nat, dflt: N): (r: (seq<N>, seq<L>))
    ensures idx < |r.0|
    ensures |inner| <= idx ==> |r.0| == idx + 1
    ensures idx < |inner| ==> r == (inner, leaves)
    ensures r.0[..|inner|] == inner
    ensures forall j :: |inner| <= j < |r.0| ==> r.0[j] == dflt
    ensures |inner| <= idx && idx - |inner| <= |leaves| ==> r.1 == leaves[idx - |inner|..]
    ensures |inner| <= idx && idx - |inner| > |leaves| ==> r.1 == leaves
  {
    if |inner| <= idx then
      var k := idx - |inner|;
      var leaves' := if |leaves| >= k then leaves[k..] else leaves;
      (inner + seq(idx + 1 - |inner|, _ => dflt), leaves')
    else (inner, leaves)
  }

  /** Reserving the same node twice is the same as reserving it once. */
  lemma GrowNodesIdempotent<N, L>(inner: seq<N>, leaves: seq<L>, idx: nat, dflt: N)
    ensures var r := GrowNodes(inner, leaves, idx, dflt);
      GrowNodes(r.0, r.1, idx, dflt) == r
  {
  }

  /** Reserving the same leaf twice is the same as reserving it once. */
  lemma GrowLeavesIdempotent<L>(leaves: seq<L>, idx: nat, dflt: L)
    ensures GrowLeaves(GrowLeaves(leaves, idx, dflt), idx, dflt) == GrowLeaves(leaves, idx, dflt)
  {
  }

  class LegacyTree<N, L> {
    var inner: seq<N>
    var leaves: seq<L>

    /** `BinTree(n)`: a single root and no leaves. */
    constructor (n: N)
      ensures inner == [n] && leaves == []
    {
      inner := [n];
      leaves := [];
    }

    /** `end()`: one past the last inner node. */
    function End(): nat
      reads this
    {
      |inner|
    }

    /** `PreorderLeafPush`: append a leaf. */
    method PreorderLeafPush(leaf: L)
      modifies this
      ensures inner == old(inner) && leaves == old(leaves) + [leaf]
    {
      leaves := leaves + [leaf];
    }

    method ReserveLeaves(idx: nat, dflt: L)
      modifies this
      ensures inner == old(inner) && leaves == GrowLeaves(old(leaves), idx, dflt)
    {
      if |leaves| <= idx {
        leaves := leaves + seq(idx + 1 - |leaves|, _ => dflt);
      }
    }

    method ReserveNodes(idx: nat, dflt: N)
      modifies this
      ensures (inner, leaves) == GrowNodes(old(inner), old(leaves), idx, dflt)
    {
      if |inner| <= idx {
        if |leaves| >= idx - |inner| {
          leaves := leaves[idx - |inner|..];
        }
        inner := inner + seq(idx + 1 - |inner|, _ => dflt);
      }
    }

    /** `operator*`: reserve node `it`, then give its value (the default when it was just made). */
    method Deref(it: nat, dflt: N) returns (n: N)
      modifies this
      ensures (inner, leaves) == GrowNodes(old(inner), old(leaves), it, dflt)
      ensures n == inner[it]
      ensures it < |old(inner)| ==> n == old(inner)[it]
      ensures it >= |old(inner)| ==> n == dflt
    {
      ReserveNodes(it, dflt);
      n := inner[it];
    }

    /**
     * `Leaf(parent)`: reserve the leaf numbered `it - inner.size() / 2`, then
     * give it.  The node must not lie before the middle of the inner nodes (as
     * every bottom node does), or the unsigned leaf number wraps.
     */
    method Leaf(it: nat, dflt: L) returns (l: L)
      requires it >= |inner| / 2
      modifies this
      ensures inner == old(inner)
      ensures leaves == GrowLeaves(old(leaves), it - |inner| / 2, dflt)
      ensures l == leaves[it - |inner| / 2]
      ensures it - |inner| / 2 < |old(leaves)| ==> l == old(leaves)[it - |inner| / 2]
    {
      ReserveLeaves(it - |inner| / 2, dflt);
      l := leaves[it - |inner| / 2];
    }
  }
}

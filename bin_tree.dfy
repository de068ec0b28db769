/**
 * `BinTree`: a complete binary tree stored breadth-first in a vector, with
 * node `i`'s children at `2i+1` and `2i+2` and one leaf value per bottom node.
 * Iterators are node indices (`size_t`).
 */
module BinTree {
  /** `size_t` arithmetic wraps modulo 2^64. */
  const Word: int := 0x1_0000_0000_0000_0000

  function Pow2(h: nat): (r: nat)
    ensures r >= 1
  {
    if h == 0 then 1 else 2 * Pow2(h - 1)
  }

  /** `ToLeft`. */
  function Left(i: nat): nat {
    2 * i + 1
  }

  /** `ToRight`. */
  function Right(i: nat): nat {
    2 * i + 2
  }

  /** `ToParent`: `(it - 1) / 2` in `size_t`, so the root's parent is the wrapped `(2^64 - 1) / 2`. */
  function Parent(i: nat): nat {
    if i == 0 then (Word - 1) / 2 else (i - 1) / 2
  }

  /** `Top`. */
  predicate Top(i: nat) {
    i == 0
  }

  /** `Bottom`: the left child would lie at or past `end()`. */
  predicate Bottom(i: nat, size: nat) {
    Left(i) >= size
  }

  /** `BinTreeIterBase::Leaf`: the leaf number of a bottom node, `it - nodes.size() / 2`. */
  function LeafIndex(i: nat, size: nat): int {
    i - size / 2
  }

  /** The number of inner (non-bottom) nodes of a tree of height `h`. */
  function InnerCount(h: nat): nat
    requires h >= 1
  {
    Pow2(h - 1) - 1
  }

  /** Both children name their parent, and every non-root node is a child of its parent. */
  lemma NavigationInverse(i: nat)
    ensures Parent(Left(i)) == i && Parent(Right(i)) == i
    ensures i > 0 ==> Parent(i) < i && (i == Left(Parent(i)) || i == Right(Parent(i)))
    ensures Parent(0) == (Word - 1) / 2
  {
  }

  /** `Depth`: the number of `ToParent` steps to the root, i.e. floor(log2(it + 1)). */
  method Depth(i: nat) returns (d: nat)
    ensures Pow2(d) <= i + 1 < Pow2(d + 1)
  {
    var cur := i;
    d := 0;
    while cur != 0
      invariant Pow2(d) * (cur + 1) <= i + 1 < Pow2(d) * (cur + 2)
      decreases cur
    {
      DepthStep(cur, d, i);
      cur := Parent(cur);
      d := d + 1;
    }
  }

  lemma DepthStep(cur: nat, d: nat, i: nat)
    requires cur > 0 && Pow2(d) * (cur + 1) <= i + 1 < Pow2(d) * (cur + 2)
    ensures Pow2(d + 1) * (Parent(cur) + 1) <= i + 1 < Pow2(d + 1) * (Parent(cur) + 2)
  {
    var p, w := Parent(cur), Pow2(d);
    assert 2 * (p + 1) <= cur + 1 && cur + 2 <= 2 * (p + 2);
    MulMono(w, 2 * (p + 1), cur + 1);
    MulMono(w, cur + 2, 2 * (p + 2));
    DoubleFactor(w, p + 1);
    DoubleFactor(w, p + 2);
  }

  lemma DoubleFactor(w: nat, q: nat)
    ensures (2 * w) * q == w * (2 * q)
  {
  }

  lemma MulMono(a: nat, x: nat, y: nat)
    requires x <= y
    ensures a * x <= a * y
  {
  }

  lemma Pow2Grows(h: nat)
    ensures Pow2(h) > h
  {
    if h > 0 {
      Pow2Grows(h - 1);
    }
  }

  /**
   * In a tree of height `h >= 1` (2^h - 1 nodes), the bottom nodes are exactly
   * the last 2^(h-1), and their leaf numbers run over 0 .. 2^(h-1) - 1.
   */
  lemma BottomRowIsLeaves(h: nat, i: nat)
    requires h >= 1
    ensures var size := Pow2(h) - 1;
      && (i < size && Bottom(i, size) <==> InnerCount(h) <= i < size)
      && size / 2 == InnerCount(h)
      && (InnerCount(h) <= i < size ==> 0 <= LeafIndex(i, size) < Pow2(h - 1))
  {
    assert Pow2(h) == 2 * Pow2(h - 1);
  }

  /**
   * The breadth-first unfolding the constructor performs: the root and its
   * state are given, and `makeNode` turns node `i`'s state and value into the
   * values and states of its children `2i+1` and `2i+2`.
   */
  function Unfold<N, S>(root: N, init: S, makeNode: (S, N) -> (N, S, N, S), i: nat): (N, S)
    decreases i
  {
    if i == 0 then (root, init)
    else
      var p := Unfold(root, init, makeNode, (i - 1) / 2);
      var t := makeNode(p.1, p.0);
      if i % 2 == 1 then (t.0, t.1) else (t.2, t.3)
  }

  /** Node `i`'s children are what `makeNode` makes from its state and value. */
  lemma UnfoldChildren<N, S>(root: N, init: S, makeNode: (S, N) -> (N, S, N, S), i: nat)
    ensures var p := Unfold(root, init, makeNode, i);
      var t := makeNode(p.1, p.0);
      && Unfold(root, init, makeNode, 2 * i + 1) == (t.0, t.1)
      && Unfold(root, init, makeNode, 2 * i + 2) == (t.2, t.3)
  {
    assert (2 * i + 1 - 1) / 2 == i && (2 * i + 1) % 2 == 1;
    assert (2 * i + 2 - 1) / 2 == i && (2 * i + 2) % 2 == 0;
  }

  /** `ns` are the values of the first `|ns|` nodes. */
  ghost predicate NodesUnfold<N, S>(root: N, init: S, makeNode: (S, N) -> (N, S, N, S), ns: seq<N>) {
    forall k :: 0 <= k < |ns| ==> ns[k] == Unfold(root, init, makeNode, k).0
  }

  /** `states` are the states of the nodes `from`, `from + 1`, ... */
  ghost predicate StatesUnfold<N, S>(root: N, init: S, makeNode: (S, N) -> (N, S, N, S), states: seq<S>, from: nat) {
    forall j :: 0 <= j < |states| ==> states[j] == Unfold(root, init, makeNode, from + j).1
  }

  /** One step of the first loop keeps the queue of states aligned with the unfolding. */
  lemma UnfoldStep<N, S>(root: N, init: S, makeNode: (S, N) -> (N, S, N, S), ns: seq<N>, states: seq<S>, i: nat,
                         t: (N, S, N, S))
    requires |ns| == 2 * i + 1 && |states| == i + 1
    requires NodesUnfold(root, init, makeNode, ns)
    requires StatesUnfold(root, init, makeNode, states, i)
    requires t == makeNode(states[0], ns[i])
    ensures NodesUnfold(root, init, makeNode, ns + [t.0, t.2])
    ensures StatesUnfold(root, init, makeNode, states[1..] + [t.1, t.3], i + 1)
  {
    UnfoldChildren(root, init, makeNode, i);
    var ns', states' := ns + [t.0, t.2], states[1..] + [t.1, t.3];
    forall k | 0 <= k < |ns'|
      ensures ns'[k] == Unfold(root, init, makeNode, k).0
    {
      if k < |ns| {
        assert ns'[k] == ns[k];
      }
    }
    forall j | 0 <= j < |states'|
      ensures states'[j] == Unfold(root, init, makeNode, i + 1 + j).1
    {
      if j < i {
        assert states'[j] == states[j + 1];
        assert states[j + 1] == Unfold(root, init, makeNode, i + (j + 1)).1;
      } else if j == i {
        assert states'[j] == t.1;
        assert i + 1 + j == 2 * i + 1;
      } else {
        assert states'[j] == t.3;
        assert i + 1 + j == 2 * i + 2;
      }
    }
  }

  /** The constructor's first loop: each inner node, in order, pops its state and pushes its children. */
  method UnfoldInner<N, S>(height: nat, root: N, init: S, makeNode: (S, N) -> (N, S, N, S)) returns (ns: seq<N>, states: seq<S>)
    requires height >= 1
    ensures |ns| == Pow2(height) - 1 && |states| == Pow2(height - 1)
    ensures NodesUnfold(root, init, makeNode, ns)
    ensures StatesUnfold(root, init, makeNode, states, InnerCount(height))
  {
    var numInner := InnerCount(height);
    assert Pow2(height) == 2 * Pow2(height - 1);
    ns := [root];
    states := [init];
    assert Unfold(root, init, makeNode, 0) == (root, init);
    var i := 0;
    while i < numInner
      invariant 0 <= i <= numInner
      invariant |ns| == 2 * i + 1 && |states| == i + 1
      invariant NodesUnfold(root, init, makeNode, ns)
      invariant StatesUnfold(root, init, makeNode, states, i)
    {
      var t := makeNode(states[0], ns[i]);
      UnfoldStep(root, init, makeNode, ns, states, i, t);
      states := states[1..] + [t.1, t.3];
      ns := ns + [t.0, t.2];
      i := i + 1;
    }
  }

  /** The constructor's second loop: each bottom node, in order, pops its state and makes its leaf. */
  method MakeLeaves<N, S, L>(height: nat, root: N, init: S, makeNode: (S, N) -> (N, S, N, S), makeLeaf: (S, N) -> L,
                             ns: seq<N>, states: seq<S>) returns (ls: seq<L>)
    requires height >= 1
    requires |ns| == Pow2(height) - 1 && |states| == Pow2(height - 1)
    requires NodesUnfold(root, init, makeNode, ns)
    requires StatesUnfold(root, init, makeNode, states, InnerCount(height))
    ensures |ls| == Pow2(height - 1)
    ensures forall j :: 0 <= j < |ls| ==>
      var u := Unfold(root, init, makeNode, InnerCount(height) + j);
      ls[j] == makeLeaf(u.1, u.0)
  {
    var numInner := InnerCount(height);
    assert Pow2(height) == 2 * Pow2(height - 1);
    var rest := states;
    var i := numInner;
    ls := [];
    while i < |ns|
      invariant numInner <= i <= |ns|
      invariant |ls| == i - numInner && |rest| == |ns| - i
      invariant StatesUnfold(root, init, makeNode, rest, i)
      invariant forall j :: 0 <= j < |ls| ==>
        var u := Unfold(root, init, makeNode, numInner + j);
        ls[j] == makeLeaf(u.1, u.0)
    {
      ls := ls + [makeLeaf(rest[0], ns[i])];
      rest := rest[1..];
      i := i + 1;
    }
  }

  lemma Pow2Mono(a: nat, b: nat)
    requires a <= b
    ensures Pow2(a) <= Pow2(b)
  {
    if a < b {
      Pow2Mono(a, b - 1);
    }
  }

  /**
   * A tree built with height `height >= 2` has `2^height - 1` nodes, and the
   * only `h` meeting `Height`'s contract for that count is `height` again.
   */
  lemma HeightRecoversBuildHeight(height: nat, h: nat)
    requires height >= 2
    requires Pow2(height) - 1 <= Pow2(h) && (h == 0 || Pow2(h - 1) < Pow2(height) - 1)
    ensures h == height
  {
    assert Pow2(height) == 2 * Pow2(height - 1);
    assert Pow2(height - 1) >= 2 by {
      Pow2Mono(1, height - 1);
    }
    if h < height {
      Pow2Mono(h, height - 1);
    } else if h > height {
      Pow2Mono(height, h - 1);
    }
  }

  /** The intended height recovers every build height, 1 included. */
  lemma HeightIntendedRecoversBuildHeight(height: nat, h: nat)
    requires Pow2(height) - 1 <= Pow2(h) - 1 && (h == 0 || Pow2(h - 1) - 1 < Pow2(height) - 1)
    ensures h == height
  {
    if h < height {
      Pow2Mono(h, height - 1);
    } else if h > height {
      Pow2Mono(height, h - 1);
    }
  }

  class Tree<N, L> {
    var nodes: seq<N>
    var leaves: seq<L>
    /** The height the tree was built with. */
    ghost var height: nat

    /** A complete tree: 2^h - 1 nodes and one leaf per bottom node. */
    ghost predicate Valid()
      reads this
    {
      height >= 1 && |nodes| == Pow2(height) - 1 && |leaves| == Pow2(height - 1)
    }

    /** `begin()`: the root. */
    function Begin(): nat {
      0
    }

    /** `end()`: one past the last node. */
    function End(): nat
      reads this
    {
      |nodes|
    }

    /** `Leaf(parent)`: the leaf of a bottom node, numbered from the first bottom node. */
    function Leaf(i: nat): (l: L)
      reads this
      requires Valid() && i < End() && Bottom(i, End())
      ensures 0 <= LeafIndex(i, End()) < |leaves| && l == leaves[LeafIndex(i, End())]
    {
      BottomRowIsLeaves(height, i);
      leaves[LeafIndex(i, |nodes|)]
    }

    /**
     * The breadth-first constructor: 2^h - 1 nodes, node `i` the unfolding at
     * `i`, and one leaf per bottom node made from that node's value and state,
     * states consumed first in, first out.
     */
    constructor Build<S>(height: nat, root: N, init: S, makeNode: (S, N) -> (N, S, N, S), makeLeaf: (S, N) -> L)
      requires height >= 1
      ensures Valid() && this.height == height
      ensures |nodes| == Pow2(height) - 1 && |leaves| == Pow2(height - 1)
      ensures forall i :: 0 <= i < |nodes| ==> nodes[i] == Unfold(root, init, makeNode, i).0
      ensures forall i :: 0 <= i < |nodes| && Bottom(i, |nodes|) ==>
        var u := Unfold(root, init, makeNode, i);
        Leaf(i) == makeLeaf(u.1, u.0)
    {
      var ns, states := UnfoldInner(height, root, init, makeNode);
      var ls := MakeLeaves(height, root, init, makeNode, makeLeaf, ns, states);
      nodes := ns;
      leaves := ls;
      this.height := height;
      new;
      forall i | 0 <= i < |nodes| && Bottom(i, |nodes|)
        ensures var u := Unfold(root, init, makeNode, i); Leaf(i) == makeLeaf(u.1, u.0)
      {
        BottomRowIsLeaves(height, i);
        assert i == InnerCount(height) + LeafIndex(i, |nodes|);
      }
    }

    /**
     * `Height`: the least `h` with `2^h >= nodes.size()`.  It gives back the
     * build height when that is at least 2, and 0 for a height-1 tree.
     */
    method Height() returns (h: nat)
      ensures |nodes| <= Pow2(h) && (h == 0 || Pow2(h - 1) < |nodes|)
      ensures Valid() && height >= 2 ==> h == height
      ensures Valid() && height == 1 ==> h == 0
    {
      h := 0;
      while Pow2(h) < |nodes|
        invariant h == 0 || Pow2(h - 1) < |nodes|
        decreases |nodes| - h
      {
        Pow2Grows(h);
        h := h + 1;
      }
      if Valid() && height >= 2 {
        HeightRecoversBuildHeight(height, h);
      }
    }

    /** The least `h` with `2^h - 1 >= nodes.size()`, which gives back every build height. */
    method HeightIntended() returns (h: nat)
      ensures |nodes| <= Pow2(h) - 1 && (h == 0 || Pow2(h - 1) - 1 < |nodes|)
      ensures Valid() ==> h == height
    {
      h := 0;
      while Pow2(h) - 1 < |nodes|
        invariant h == 0 || Pow2(h - 1) - 1 < |nodes|
        decreases |nodes| - h
      {
        Pow2Grows(h);
        h := h + 1;
      }
      if Valid() {
        HeightIntendedRecoversBuildHeight(height, h);
      }
    }
  }
}

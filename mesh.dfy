/**
 * Triangle meshes: assembling triangles from an index list, keeping those
 * that touch a box, their bounding box, and loading a mesh by file type.
 * The box–triangle intersection test, and reading a mesh from a Wavefront
 * file, are parameters.
 */
module Mesh {
  import opened Wrappers
  import opened Vectors

  /** A triangle: its three corners (the columns of the `Matrix3f`). */
  datatype Triangle = Triangle(a: Vec3, b: Vec3, c: Vec3)

  /** `TriInd`: three vertex indices. */
  datatype TriInd = TriInd(a: int, b: int, c: int)

  const ZeroTriangle: Triangle := Triangle(Zero3, Zero3, Zero3)

  /** `std::numeric_limits<float>::max()`. */
  const MaxFloat: real := 340282346638528859811704183484516925440.0

  predicate InRange(n: nat, ind: TriInd) {
    0 <= ind.a < n && 0 <= ind.b < n && 0 <= ind.c < n
  }

  /** The triangle each index triple names. */
  function Triangles(vert: seq<Vec3>, inds: seq<TriInd>): (m: seq<Triangle>)
    requires forall i :: 0 <= i < |inds| ==> InRange(|vert|, inds[i])
    ensures |m| == |inds|
  {
    seq(|inds|, i requires 0 <= i < |inds| && InRange(|vert|, inds[i]) =>
      Triangle(vert[inds[i].a], vert[inds[i].b], vert[inds[i].c]))
  }

  /** Triangles are assembled one triple at a time: concatenated index lists give concatenated meshes. */
  lemma TrianglesAppend(vert: seq<Vec3>, i1: seq<TriInd>, i2: seq<TriInd>)
    requires forall i :: 0 <= i < |i1| ==> InRange(|vert|, i1[i])
    requires forall i :: 0 <= i < |i2| ==> InRange(|vert|, i2[i])
    ensures forall i :: 0 <= i < |i1 + i2| ==> InRange(|vert|, (i1 + i2)[i])
    ensures Triangles(vert, i1 + i2) == Triangles(vert, i1) + Triangles(vert, i2)
  {
    assert forall i :: 0 <= i < |i1 + i2| ==> (i1 + i2)[i] == if i < |i1| then i1[i] else i2[i - |i1|];
  }

  /**
   * `MakeMesh`: a mesh of one triangle per index triple, filled through a
   * moving iterator; every index must name a vertex (`vert[]` is unchecked).
   */
  method MakeMesh(vert: seq<Vec3>, inds: seq<TriInd>) returns (m: seq<Triangle>)
    requires forall i :: 0 <= i < |inds| ==> InRange(|vert|, inds[i])
    ensures m == Triangles(vert, inds)
    ensures |m| == |inds| && forall i :: 0 <= i < |inds| ==> m[i].b == vert[inds[i].b]
  {
    var ret := new Triangle[|inds|](_ => ZeroTriangle);
    var it := 0;
    while it < |inds|
      invariant 0 <= it <= |inds|
      invariant ret[..it] == Triangles(vert, inds[..it])
    {
      var ind := inds[it];
      ret[it] := Triangle(vert[ind.a], vert[ind.b], vert[ind.c]);
      it := it + 1;
    }
    assert inds[..it] == inds;
    m := ret[..];
  }

  /** The triangles of `m` that satisfy `keep`, in their order. */
  function Filter(m: seq<Triangle>, keep: Triangle -> bool): seq<Triangle>
    decreases |m|
  {
    if m == [] then []
    else Filter(m[..|m| - 1], keep) + (if keep(m[|m| - 1]) then [m[|m| - 1]] else [])
  }

  /** A triangle survives exactly when it was there and satisfies `keep`. */
  lemma {:induction false} FilterMembers(m: seq<Triangle>, keep: Triangle -> bool, t: Triangle)
    ensures t in Filter(m, keep) <==> t in m && keep(t)
    decreases |m|
  {
    if m != [] {
      FilterMembers(m[..|m| - 1], keep, t);
      assert m == m[..|m| - 1] + [m[|m| - 1]];
    }
  }

  /** Filtering never adds triangles, and filtering again changes nothing. */
  lemma {:induction false} FilterIdempotent(m: seq<Triangle>, keep: Triangle -> bool)
    ensures |Filter(m, keep)| <= |m|
    ensures Filter(Filter(m, keep), keep) == Filter(m, keep)
    decreases |m|
  {
    if m != [] {
      var init := m[..|m| - 1];
      FilterIdempotent(init, keep);
      var f := Filter(init, keep);
      var x := m[|m| - 1];
      if keep(x) {
        assert Filter(m, keep) == f + [x];
        assert (f + [x])[..|f + [x]| - 1] == f;
        assert Filter(f + [x], keep) == Filter(f, keep) + [x];
      } else {
        assert Filter(m, keep) == f + [];
        assert f + [] == f;
      }
    }
  }

  /** When every triangle satisfies `keep`, nothing is removed. */
  lemma {:induction false} FilterKeepsAll(m: seq<Triangle>, keep: Triangle -> bool)
    requires forall i :: 0 <= i < |m| ==> keep(m[i])
    ensures Filter(m, keep) == m
    decreases |m|
  {
    if m != [] {
      FilterKeepsAll(m[..|m| - 1], keep);
    }
  }

  /**
   * `ApproxChop`: the erase–remove idiom on a copy of the mesh.  `remove_if`
   * moves each kept triangle down to the write position; `erase` drops the
   * tail.
   */
  method ApproxChop(m: seq<Triangle>, intersects: Triangle -> bool) returns (r: seq<Triangle>)
    ensures r == Filter(m, intersects)
  {
    var a := new Triangle[|m|](i requires 0 <= i < |m| => m[i]);
    var w := 0;
    var j := 0;
    while j < |m|
      invariant 0 <= w <= j <= |m|
      invariant a[..w] == Filter(m[..j], intersects)
      invariant forall k :: j <= k < |m| ==> a[k] == m[k]
    {
      assert m[..j + 1][..j] == m[..j];
      var t := a[j];
      if intersects(t) {
        ghost var kept := a[..w];
        a[w] := t;
        assert a[..w + 1] == kept + [t];
        w := w + 1;
      }
      j := j + 1;
    }
    assert m[..j] == m;
    r := a[..w];
  }

  function Coord(v: Vec3, axis: nat): real
    requires axis < 3
  {
    if axis == 0 then v.x else if axis == 1 then v.y else v.z
  }

  function Min(x: real, y: real): real { if x <= y then x else y }
  function Max(x: real, y: real): real { if x >= y then x else y }

  /** The least coordinate along `axis` over the mesh, starting from the largest float. */
  function Lo(m: seq<Triangle>, axis: nat): real
    requires axis < 3
    decreases |m|
  {
    if m == [] then MaxFloat
    else
      var t := m[|m| - 1];
      Min(Lo(m[..|m| - 1], axis), Min(Coord(t.a, axis), Min(Coord(t.b, axis), Coord(t.c, axis))))
  }

  /** The greatest coordinate along `axis` over the mesh, starting from the most negative float. */
  function Hi(m: seq<Triangle>, axis: nat): real
    requires axis < 3
    decreases |m|
  {
    if m == [] then -MaxFloat
    else
      var t := m[|m| - 1];
      Max(Hi(m[..|m| - 1], axis), Max(Coord(t.a, axis), Max(Coord(t.b, axis), Coord(t.c, axis))))
  }

  predicate Inside(lo: Vec3, hi: Vec3, v: Vec3) {
    lo.x <= v.x <= hi.x && lo.y <= v.y <= hi.y && lo.z <= v.z <= hi.z
  }

  /** Every corner of every triangle lies in the box `Bound` computes. */
  lemma {:induction false} BoundContains(m: seq<Triangle>, i: nat)
    requires i < |m|
    ensures forall axis :: 0 <= axis < 3 ==>
      Lo(m, axis) <= Coord(m[i].a, axis) <= Hi(m, axis) &&
      Lo(m, axis) <= Coord(m[i].b, axis) <= Hi(m, axis) &&
      Lo(m, axis) <= Coord(m[i].c, axis) <= Hi(m, axis)
    decreases |m|
  {
    if i < |m| - 1 {
      BoundContains(m[..|m| - 1], i);
    }
  }

  /** For a non-empty mesh of finite floats, each lower bound is some corner's coordinate. */
  lemma {:induction false} LoAttained(m: seq<Triangle>, axis: nat)
    requires axis < 3 && m != []
    requires forall i :: 0 <= i < |m| ==> Coord(m[i].a, axis) <= MaxFloat
    ensures exists i :: (0 <= i < |m| &&
      (Lo(m, axis) == Coord(m[i].a, axis) || Lo(m, axis) == Coord(m[i].b, axis) || Lo(m, axis) == Coord(m[i].c, axis)))
    decreases |m|
  {
    var n := |m| - 1;
    if n == 0 || Lo(m, axis) != Lo(m[..n], axis) {
      assert Lo(m, axis) == Coord(m[n].a, axis) || Lo(m, axis) == Coord(m[n].b, axis) || Lo(m, axis) == Coord(m[n].c, axis);
    } else {
      LoAttained(m[..n], axis);
      var i :| 0 <= i < n && (Lo(m[..n], axis) == Coord(m[..n][i].a, axis)
        || Lo(m[..n], axis) == Coord(m[..n][i].b, axis) || Lo(m[..n], axis) == Coord(m[..n][i].c, axis));
      assert m[..n][i] == m[i];
    }
  }

  /** `Bound`: the componentwise least and greatest corner coordinates. */
  method Bound(m: seq<Triangle>) returns (lo: Vec3, hi: Vec3)
    ensures forall axis :: 0 <= axis < 3 ==> Coord(lo, axis) == Lo(m, axis) && Coord(hi, axis) == Hi(m, axis)
  {
    lo := Vec3(MaxFloat, MaxFloat, MaxFloat);
    hi := Vec3(-MaxFloat, -MaxFloat, -MaxFloat);
    var k := 0;
    while k < |m|
      invariant 0 <= k <= |m|
      invariant forall axis :: 0 <= axis < 3 ==> Coord(lo, axis) == Lo(m[..k], axis) && Coord(hi, axis) == Hi(m[..k], axis)
    {
      var t := m[k];
      assert m[..k + 1][..k] == m[..k];
      lo := Vec3(Min(lo.x, Min(t.a.x, Min(t.b.x, t.c.x))),
                 Min(lo.y, Min(t.a.y, Min(t.b.y, t.c.y))),
                 Min(lo.z, Min(t.a.z, Min(t.b.z, t.c.z))));
      hi := Vec3(Max(hi.x, Max(t.a.x, Max(t.b.x, t.c.x))),
                 Max(hi.y, Max(t.a.y, Max(t.b.y, t.c.y))),
                 Max(hi.z, Max(t.a.z, Max(t.b.z, t.c.z))));
      k := k + 1;
    }
    assert m[..k] == m;
  }

  /**
   * `LoadMesh`: a Wavefront file is read as a mesh, any other file throws.
   * Whether the name is a Wavefront file, and the mesh such a file holds,
   * are given.
   */
  function LoadMesh(file: string, isWavefront: bool, wavefrontMesh: seq<Triangle>): (r: Result<seq<Triangle>, string>)
    ensures r.Ok? <==> isWavefront
    ensures r.Ok? ==> r.value == wavefrontMesh
    ensures r.Err? ==> r.error == "Unrecognized object file " + file
  {
    if isWavefront then Ok(wavefrontMesh) else Err("Unrecognized object file " + file)
  }
}

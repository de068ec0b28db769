/**
 * `LoadWavefront`: reading a Wavefront OBJ file into vertex attributes and
 * triangle indices.  The character stream is seen one line (record) at a
 * time: the token extraction that turns text into `v`, `vn`, `vt` and `f`
 * records is not modelled, and coordinates are opaque values.
 */
module Wavefront {
  import opened Wrappers
  import opened Vectors
  import Resource

  /** One line of the file, as its leading token selects; face indices are 1-based as written. */
  datatype Record =
    | Position(p: Vec3)          // v x y z
    | Normal(n: Vec3)            // vn x y z
    | TexCoord(t: Vec2)          // vt u v
    | Face(a: int, b: int, c: int)  // f a[/..] b[/..] c[/..]
    | Other(head: string)        // anything else: the rest of the line is skipped

  /** The four vectors the parse loop fills. */
  datatype Parsed = Parsed(verts: seq<Vec3>, norms: seq<Vec3>, uvs: seq<Vec2>, indices: seq<int>)

  /** One interleaved vertex of the array buffer (`WavefrontVert`). */
  datatype Vert = Vert(pos: Vec3, norm: Vec3, uv: Vec2)

  const Empty: Parsed := Parsed([], [], [], [])

  /** The effect of one record on the four vectors. */
  function Step(p: Parsed, r: Record): (q: Parsed)
    ensures |q.verts| == |p.verts| + (if r.Position? then 1 else 0) && q.verts[..|p.verts|] == p.verts
    ensures |q.norms| == |p.norms| + (if r.Normal? then 1 else 0) && q.norms[..|p.norms|] == p.norms
    ensures |q.uvs| == |p.uvs| + (if r.TexCoord? then 1 else 0) && q.uvs[..|p.uvs|] == p.uvs
    ensures |q.indices| == |p.indices| + (if r.Face? then 3 else 0) && q.indices[..|p.indices|] == p.indices
    ensures r.Other? ==> q == p
  {
    match r
    case Position(v) => p.(verts := p.verts + [v])
    case Normal(n) => p.(norms := p.norms + [n])
    case TexCoord(t) => p.(uvs := p.uvs + [t])
    // OBJ indices are 1-based; the index buffer is 0-based.
    case Face(a, b, c) => p.(indices := p.indices + [a - 1, b - 1, c - 1])
    case Other(_) => p
  }

  /** The vectors after reading the records in order. */
  function Collect(rs: seq<Record>): Parsed
    decreases |rs|
  {
    if rs == [] then Empty else Step(Collect(rs[..|rs| - 1]), rs[|rs| - 1])
  }

  function Concat(p: Parsed, q: Parsed): Parsed {
    Parsed(p.verts + q.verts, p.norms + q.norms, p.uvs + q.uvs, p.indices + q.indices)
  }

  /** Records contribute independently: reading `a` then `b` appends what `b` alone would give. */
  lemma {:induction false} CollectAppend(a: seq<Record>, b: seq<Record>)
    ensures Collect(a + b) == Concat(Collect(a), Collect(b))
    decreases |b|
  {
    if b == [] {
      assert a + b == a;
    } else {
      var b' := b[..|b| - 1];
      assert (a + b)[..|a + b| - 1] == a + b';
      CollectAppend(a, b');
      StepConcat(Collect(a), Collect(b'), b[|b| - 1]);
    }
  }

  lemma StepConcat(p: Parsed, q: Parsed, r: Record)
    ensures Step(Concat(p, q), r) == Concat(p, Step(q, r))
  {
    match r
    case Position(v) => assert (p.verts + q.verts) + [v] == p.verts + (q.verts + [v]);
    case Normal(n) => assert (p.norms + q.norms) + [n] == p.norms + (q.norms + [n]);
    case TexCoord(t) => assert (p.uvs + q.uvs) + [t] == p.uvs + (q.uvs + [t]);
    case Face(x, y, z) =>
      assert (p.indices + q.indices) + [x - 1, y - 1, z - 1] == p.indices + (q.indices + [x - 1, y - 1, z - 1]);
    case Other(_) =>
  }

  /** The `f` records, in file order. */
  function Faces(rs: seq<Record>): (fs: seq<Record>)
    ensures forall k :: 0 <= k < |fs| ==> fs[k].Face?
    decreases |rs|
  {
    if rs == [] then []
    else Faces(rs[..|rs| - 1]) + (if rs[|rs| - 1].Face? then [rs[|rs| - 1]] else [])
  }

  /** The `v` records' positions, in file order. */
  function Positions(rs: seq<Record>): seq<Vec3>
    decreases |rs|
  {
    if rs == [] then []
    else Positions(rs[..|rs| - 1]) + (if rs[|rs| - 1].Position? then [rs[|rs| - 1].p] else [])
  }

  /** Every face adds exactly its three indices, each one less than written, in order. */
  lemma {:induction false} FaceIndices(rs: seq<Record>)
    ensures var ind := Collect(rs).indices; var fs := Faces(rs);
      |ind| == 3 * |fs| &&
      forall k :: 0 <= k < |fs| ==>
        ind[3 * k] == fs[k].a - 1 && ind[3 * k + 1] == fs[k].b - 1 && ind[3 * k + 2] == fs[k].c - 1
    decreases |rs|
  {
    if rs != [] {
      FaceIndices(rs[..|rs| - 1]);
    }
  }

  /** One vertex per `v` record, in order. */
  lemma {:induction false} VertsArePositions(rs: seq<Record>)
    ensures Collect(rs).verts == Positions(rs)
    decreases |rs|
  {
    if rs != [] {
      VertsArePositions(rs[..|rs| - 1]);
    }
  }

  /**
   * The records the parse loop reads once more after the last one: the
   * extraction of the next leading token fails at the end of the file and
   * leaves `letter`, and the numbers, as they were, so a final `v`, `vn` or
   * `vt` record is stored again.  A final `f` record is stored again only
   * when `trailing` (some character, such as a newline, follows its third
   * index): otherwise the `ignore` that closes it starts at the end of the
   * file, fails the stream, and the loop ends there.
   */
  function Echo(rs: seq<Record>, trailing: bool): (e: seq<Record>)
    ensures |e| <= 1
    ensures e != [] ==> rs != [] && e == [rs[|rs| - 1]] && !e[0].Other? && (e[0].Face? ==> trailing)
    ensures rs != [] && !rs[|rs| - 1].Other? && (trailing || !rs[|rs| - 1].Face?) ==> e == [rs[|rs| - 1]]
  {
    if rs != [] && !rs[|rs| - 1].Other? && (trailing || !rs[|rs| - 1].Face?) then [rs[|rs| - 1]] else []
  }

  /**
   * The parse loop as written, `while (obj) { obj >> letter; … }`: the
   * stream is checked before the token is extracted, so one iteration runs
   * after the last record with the previous `letter`, unless that record
   * was an `f` whose closing `ignore` already failed the stream.
   */
  method ReadRecords(records: seq<Record>, trailing: bool) returns (p: Parsed)
    ensures p == Collect(records + Echo(records, trailing))
  {
    p := Empty;
    var letter := Other("");
    var good := true;
    var i := 0;
    while good
      invariant 0 <= i <= |records|
      invariant good ==> p == Collect(records[..i]) && letter == (if i == 0 then Other("") else records[i - 1])
      invariant good && 0 < i == |records| ==> trailing || !records[i - 1].Face?
      invariant !good ==> p == Collect(records + Echo(records, trailing))
      decreases |records| - i, good
    {
      if i < |records| {
        letter := records[i];
        assert records[..i + 1][..i] == records[..i];
        i := i + 1;
        p := Step(p, letter);
        if i == |records| && letter.Face? && !trailing {
          // The closing `ignore` starts at the end of the file: the stream fails.
          good := false;
          assert records[..i] == records;
          assert records + Echo(records, trailing) == records;
        }
      } else {
        // The failed extraction leaves the stream false and `letter` unchanged.
        good := false;
        assert records[..i] == records;
        EchoStep(records, trailing);
        p := Step(p, letter);
      }
    }
  }

  lemma EchoStep(records: seq<Record>, trailing: bool)
    requires records == [] || trailing || !records[|records| - 1].Face?
    ensures Collect(records + Echo(records, trailing))
      == Step(Collect(records), if records == [] then Other("") else records[|records| - 1])
  {
    if Echo(records, trailing) == [] {
      assert records + Echo(records, trailing) == records;
    } else {
      assert (records + Echo(records, trailing))[..|records|] == records;
    }
  }

  /** The loop as evidently intended, `while (obj >> letter)`: each record is read once. */
  method ReadRecordsIntended(records: seq<Record>) returns (p: Parsed)
    ensures p == Collect(records)
  {
    p := Empty;
    var i := 0;
    while i < |records|
      invariant 0 <= i <= |records| && p == Collect(records[..i])
    {
      assert records[..i + 1][..i] == records[..i];
      p := Step(p, records[i]);
      i := i + 1;
    }
    assert records[..i] == records;
  }

  /** As written, a file ending in a `v` record yields that vertex twice, whatever follows it. */
  lemma LastVertexTwice(rs: seq<Record>, v: Vec3, trailing: bool)
    requires rs != [] && rs[|rs| - 1] == Position(v)
    ensures Collect(rs + Echo(rs, trailing)).verts == Collect(rs).verts + [v]
    ensures |Collect(rs + Echo(rs, trailing)).verts| == |Positions(rs)| + 1
  {
    EchoStep(rs, trailing);
    VertsArePositions(rs);
  }

  /** As written, a file ending in an `f` record followed by a newline yields that triangle twice. */
  lemma LastFaceTwice(rs: seq<Record>, a: int, b: int, c: int)
    requires rs != [] && rs[|rs| - 1] == Face(a, b, c)
    ensures Collect(rs + Echo(rs, true)).indices == Collect(rs).indices + [a - 1, b - 1, c - 1]
    ensures |Collect(rs + Echo(rs, true)).indices| == 3 * |Faces(rs)| + 3
  {
    var t := rs + Echo(rs, true);
    assert t == rs + [Face(a, b, c)];
    assert t[..|t| - 1] == rs;
    assert Collect(t) == Step(Collect(rs), Face(a, b, c));
    FaceCount(rs);
  }

  lemma FaceCount(rs: seq<Record>)
    ensures |Collect(rs).indices| == 3 * |Faces(rs)|
  {
    FaceIndices(rs);
  }

  /**
   * A file that ends in any other line, or in an `f` record with nothing
   * after it, reads the same either way.
   */
  lemma EchoHarmlessAfterOther(rs: seq<Record>, trailing: bool)
    requires rs == [] || rs[|rs| - 1].Other? || (rs[|rs| - 1].Face? && !trailing)
    ensures Collect(rs + Echo(rs, trailing)) == Collect(rs)
  {
    assert rs + Echo(rs, trailing) == rs;
  }

  /**
   * The interleaved vertices: one per position, in order; the i-th takes
   * the i-th normal and texture coordinate when there are that many, zero
   * otherwise.
   */
  function Attribs(verts: seq<Vec3>, norms: seq<Vec3>, uvs: seq<Vec2>): seq<Vert> {
    seq(|verts|, i requires 0 <= i < |verts| =>
      Vert(verts[i], if i < |norms| then norms[i] else Zero3, if i < |uvs| then uvs[i] else Zero2))
  }

  /** The attribute loop: three iterators, the normal and uv ones advanced only while they have elements. */
  method BuildAttribs(verts: seq<Vec3>, norms: seq<Vec3>, uvs: seq<Vec2>) returns (attribs: seq<Vert>)
    ensures attribs == Attribs(verts, norms, uvs)
    ensures |attribs| == |verts| && forall i :: 0 <= i < |verts| ==> attribs[i].pos == verts[i]
  {
    attribs := [];
    var normIt, uvIt := 0, 0;
    var vertIt := 0;
    while vertIt < |verts|
      invariant 0 <= vertIt <= |verts|
      invariant normIt == if vertIt < |norms| then vertIt else |norms|
      invariant uvIt == if vertIt < |uvs| then vertIt else |uvs|
      invariant attribs == Attribs(verts[..vertIt], norms, uvs)
    {
      var norm := Zero3;
      if normIt < |norms| {
        norm := norms[normIt];
        normIt := normIt + 1;
      }
      var uv := Zero2;
      if uvIt < |uvs| {
        uv := uvs[uvIt];
        uvIt := uvIt + 1;
      }
      attribs := attribs + [Vert(verts[vertIt], norm, uv)];
      vertIt := vertIt + 1;
    }
    assert verts[..vertIt] == verts;
  }

  /** What `LoadWavefront` hands back: the cached VAO, or a new one with the data it was made from. */
  datatype Loaded =
    | Cached(vao: nat)
    | Built(vao: nat, attribs: seq<Vert>, indices: seq<int>)

  /**
   * `LoadWavefront`: a VAO already cached for the file name is returned
   * without reading; an unopenable file throws; otherwise the records are
   * read by the loop as written (the last one possibly twice), the
   * attributes interleaved, and a new VAO cached under the name.
   */
  method LoadWavefront(vaos: Resource.Cache<string>, filename: string, isOpen: bool, records: seq<Record>, trailing: bool)
    returns (r: Result<Loaded, string>)
    requires vaos.Valid()
    modifies vaos
    ensures vaos.Valid()
    ensures old(vaos.FindResource(filename)).Some? ==>
      r == Ok(Cached(old(vaos.FindResource(filename)).value)) && vaos.cache == old(vaos.cache)
    ensures old(vaos.FindResource(filename)).None? && !isOpen ==>
      r == Err("Cannot open Render file") && vaos.cache == old(vaos.cache)
    ensures old(vaos.FindResource(filename)).None? && isOpen ==>
      var p := Collect(records + Echo(records, trailing));
      r.Ok? && r.value.Built? && r.value.attribs == Attribs(p.verts, p.norms, p.uvs) && r.value.indices == p.indices
      && vaos.FindResource(filename) == Some(r.value.vao)
  {
    var found := vaos.FindResource(filename);
    if found.Some? {
      return Ok(Cached(found.value));
    }
    if !isOpen {
      return Err("Cannot open Render file");
    }
    var p := ReadRecords(records, trailing);
    var attribs := BuildAttribs(p.verts, p.norms, p.uvs);
    var vao := vaos.MakeShared(filename);
    r := Ok(Built(vao, attribs, p.indices));
  }
}

/**
 * The earlier uniform-block interface: uniforms grouped by block with
 * value comparison (equality and lexicographic order), lookup by name, and
 * a uniform buffer whose CPU-side copy is written and read per uniform.
 */
module UniformBlocks {
  import opened Sequences

  /** `Uniforms::Uniform`: the GL type is kept as reported. */
  datatype Uniform = Uniform(name: string, utype: nat, size: nat, offset: nat, stride: int, location: int)

  /** `Uniforms::Block`. */
  datatype Block = Block(name: string, byteSize: nat, uniforms: seq<Uniform>)

  /** `std::string` `<`: lexicographic by character, a proper prefix first. */
  predicate StrLess(a: string, b: string)
    decreases |a|
  {
    if b == [] then false
    else if a == [] then true
    else if a[0] != b[0] then a[0] < b[0]
    else StrLess(a[1..], b[1..])
  }

  /** String `<` is a strict total order. */
  lemma {:induction false} StrLessOrder(a: string, b: string, c: string)
    ensures !StrLess(a, a)
    ensures a == b || StrLess(a, b) || StrLess(b, a)
    ensures !(StrLess(a, b) && StrLess(b, a))
    ensures StrLess(a, b) && StrLess(b, c) ==> StrLess(a, c)
    decreases |a|
  {
    if a != [] && b != [] && c != [] {
      StrLessOrder(a[1..], b[1..], c[1..]);
      if a[0] == b[0] && a[1..] == b[1..] {
        assert a == [a[0]] + a[1..] && b == [b[0]] + b[1..];
      }
    } else if a != [] && b != [] {
      StrLessOrder(a[1..], b[1..], b[1..]);
      if a[0] == b[0] && a[1..] == b[1..] {
        assert a == [a[0]] + a[1..] && b == [b[0]] + b[1..];
      }
    } else if a != [] {
      StrLessOrder(a[1..], a[1..], a[1..]);
    }
  }

  /** `Uniform ==`: name, type, size, offset and stride agree; the location is not compared. */
  predicate UniformEq(u: Uniform, v: Uniform) {
    u.name == v.name && u.utype == v.utype && u.size == v.size && u.offset == v.offset && u.stride == v.stride
  }

  /** `Uniform <`: lexicographic on (name, type, size, offset, stride). */
  predicate UniformLess(u: Uniform, v: Uniform) {
    StrLess(u.name, v.name) || (u.name == v.name &&
      (u.utype < v.utype || (u.utype == v.utype &&
        (u.size < v.size || (u.size == v.size &&
          (u.offset < v.offset || (u.offset == v.offset && u.stride < v.stride)))))))
  }

  /** Two uniforms differing only in location are equal, and neither is less than the other. */
  lemma LocationIgnored(u: Uniform, loc: int)
    ensures UniformEq(u, u.(location := loc)) && u.(location := loc) != u <==> u.location != loc
    ensures !UniformLess(u, u.(location := loc)) && !UniformLess(u.(location := loc), u)
  {
    StrLessOrder(u.name, u.name, u.name);
  }

  /**
   * Uniform `<` is a strict order, and exactly one of `u < v`, `u == v`,
   * `v < u` holds.
   */
  lemma UniformOrder(u: Uniform, v: Uniform, w: Uniform)
    ensures !UniformLess(u, u)
    ensures UniformEq(u, v) || UniformLess(u, v) || UniformLess(v, u)
    ensures !(UniformLess(u, v) && UniformLess(v, u))
    ensures UniformEq(u, v) ==> !UniformLess(u, v)
    ensures UniformLess(u, v) && UniformLess(v, w) ==> UniformLess(u, w)
  {
    StrLessOrder(u.name, v.name, w.name);
    StrLessOrder(v.name, u.name, w.name);
    StrLessOrder(u.name, w.name, v.name);
  }

  /** `vector<Uniform> ==`: equal lengths and elementwise `Uniform ==`. */
  predicate UniformsEq(a: seq<Uniform>, b: seq<Uniform>) {
    |a| == |b| && forall i :: 0 <= i < |a| ==> UniformEq(a[i], b[i])
  }

  /** `vector<Uniform> <`: `lexicographical_compare` with `Uniform <`. */
  predicate UniformsLess(a: seq<Uniform>, b: seq<Uniform>)
    decreases |a|
  {
    if b == [] then false
    else if a == [] then true
    else if UniformLess(a[0], b[0]) then true
    else if UniformLess(b[0], a[0]) then false
    else UniformsLess(a[1..], b[1..])
  }

  /** The vector order is a strict order, and exactly one of `<`, `==`, `>` holds. */
  lemma {:induction false} UniformsOrder(a: seq<Uniform>, b: seq<Uniform>, c: seq<Uniform>)
    ensures !UniformsLess(a, a)
    ensures UniformsEq(a, b) || UniformsLess(a, b) || UniformsLess(b, a)
    ensures !(UniformsLess(a, b) && UniformsLess(b, a))
    ensures UniformsEq(a, b) ==> !UniformsLess(a, b)
    ensures UniformsLess(a, b) && UniformsLess(b, c) ==> UniformsLess(a, c)
    decreases |a|
  {
    if a != [] {
      var c' := if c == [] then a else c;
      var b' := if b == [] then a else b;
      UniformsOrder(a[1..], b'[1..], c'[1..]);
      UniformOrder(a[0], b'[0], c'[0]);
      UniformOrder(b'[0], a[0], c'[0]);
      UniformOrder(a[0], c'[0], b'[0]);
      UniformOrder(c'[0], a[0], b'[0]);
      if b != [] && UniformsEq(a[1..], b[1..]) && UniformEq(a[0], b[0]) {
        assert forall i :: 1 <= i < |a| ==> a[i] == a[1..][i - 1] && b[i] == b[1..][i - 1];
      }
      if b != [] && UniformsEq(a, b) {
        assert forall i :: 0 <= i < |a| - 1 ==> a[1..][i] == a[i + 1] && b[1..][i] == b[i + 1];
      }
    }
  }

  /** `Block ==`: byte size, name and uniforms agree. */
  predicate BlockEq(x: Block, y: Block) {
    x.byteSize == y.byteSize && x.name == y.name && UniformsEq(x.uniforms, y.uniforms)
  }

  /** `Block <`: lexicographic on (byte size, name, uniforms). */
  predicate BlockLess(x: Block, y: Block) {
    x.byteSize < y.byteSize || (x.byteSize == y.byteSize &&
      (StrLess(x.name, y.name) || (x.name == y.name && UniformsLess(x.uniforms, y.uniforms))))
  }

  /** Block `<` is a strict order, and exactly one of `<`, `==`, `>` holds. */
  lemma BlockOrder(x: Block, y: Block, z: Block)
    ensures !BlockLess(x, x)
    ensures BlockEq(x, y) || BlockLess(x, y) || BlockLess(y, x)
    ensures !(BlockLess(x, y) && BlockLess(y, x))
    ensures BlockEq(x, y) ==> !BlockLess(x, y)
    ensures BlockLess(x, y) && BlockLess(y, z) ==> BlockLess(x, z)
  {
    StrLessOrder(x.name, y.name, z.name);
    StrLessOrder(y.name, x.name, z.name);
    UniformsOrder(x.uniforms, y.uniforms, z.uniforms);
    UniformsOrder(y.uniforms, x.uniforms, z.uniforms);
  }

  /** `Block::operator[]`: the first uniform with that name; the caller asserts there is one. */
  function Member(block: Block, n: string): (u: Uniform)
    requires exists i :: 0 <= i < |block.uniforms| && block.uniforms[i].name == n
    ensures exists i :: (0 <= i < |block.uniforms| && block.uniforms[i] == u
      && forall j :: 0 <= j < i ==> block.uniforms[j].name != n)
    ensures u.name == n
  {
    block.uniforms[FindIf(block.uniforms, (v: Uniform) => v.name == n)]
  }

  /** `Uniforms::operator[]`: the first block with that name; the caller asserts there is one. */
  function BlockNamed(blocks: seq<Block>, n: string): (b: Block)
    requires exists i :: 0 <= i < |blocks| && blocks[i].name == n
    ensures exists i :: (0 <= i < |blocks| && blocks[i] == b && forall j :: 0 <= j < i ==> blocks[j].name != n)
    ensures b.name == n
  {
    blocks[FindIf(blocks, (x: Block) => x.name == n)]
  }

  /** What the program reports about one active uniform; `blockIndex` is -1 outside any block. */
  datatype UniformInfo = UniformInfo(
    nameChars: string, utype: nat, size: nat, offset: nat, stride: int, blockIndex: int)

  predicate WellFormed(u: UniformInfo, nBlocks: nat) {
    |u.nameChars| >= 1 && -1 <= u.blockIndex < nBlocks
  }

  /**
   * The uniform built from a report: its name without the terminator.  The
   * location is not queried and stays as `Uniform`'s default leaves it;
   * it is modelled as 0.
   */
  function ToUniform(u: UniformInfo): Uniform
    requires |u.nameChars| >= 1
  {
    Uniform(u.nameChars[..|u.nameChars| - 1], u.utype, u.size, u.offset, u.stride, 0)
  }

  /** The uniforms reported in block `b`, in query order; those outside any block are dropped. */
  function InBlock(us: seq<UniformInfo>, nBlocks: nat, b: nat): seq<Uniform>
    requires forall k :: 0 <= k < |us| ==> WellFormed(us[k], nBlocks)
    decreases |us|
  {
    if us == [] then []
    else
      var u := us[|us| - 1];
      assert WellFormed(u, nBlocks);
      InBlock(us[..|us| - 1], nBlocks, b) + (if u.blockIndex == b then [ToUniform(u)] else [])
  }

  /** A uniform outside every block is in none of them; every other one is in its own. */
  lemma {:induction false} InBlockExactly(us: seq<UniformInfo>, nBlocks: nat, b: nat, x: Uniform)
    requires forall k :: 0 <= k < |us| ==> WellFormed(us[k], nBlocks)
    ensures x in InBlock(us, nBlocks, b) <==>
      exists k :: 0 <= k < |us| && us[k].blockIndex == b && ToUniform(us[k]) == x
    decreases |us|
  {
    if us != [] {
      var n := |us| - 1;
      InBlockExactly(us[..n], nBlocks, b, x);
      if x in InBlock(us[..n], nBlocks, b) {
        var k :| 0 <= k < n && us[..n][k].blockIndex == b && ToUniform(us[..n][k]) == x;
        assert us[k] == us[..n][k];
      }
      if exists k :: 0 <= k < |us| && us[k].blockIndex == b && ToUniform(us[k]) == x {
        var k :| 0 <= k < |us| && us[k].blockIndex == b && ToUniform(us[k]) == x;
        if k < n {
          assert us[..n][k] == us[k];
        }
      }
    }
  }

  /** What the program reports about one active block: its NUL-terminated name and data size. */
  datatype BlockInfo = BlockInfo(nameChars: string, dataSize: nat)

  /**
   * `DoQuery`: one block per active block, named without the terminator
   * and sized as reported, holding its uniforms in query order.
   */
  method DoQuery(blocks: seq<BlockInfo>, us: seq<UniformInfo>) returns (ret: seq<Block>)
    requires forall i :: 0 <= i < |blocks| ==> |blocks[i].nameChars| >= 1
    requires forall k :: 0 <= k < |us| ==> WellFormed(us[k], |blocks|)
    ensures |ret| == |blocks|
    ensures forall i :: 0 <= i < |blocks| ==>
      ret[i].name == blocks[i].nameChars[..|blocks[i].nameChars| - 1] && ret[i].byteSize == blocks[i].dataSize
      && ret[i].uniforms == InBlock(us, |blocks|, i)
  {
    var n := |blocks|;
    ret := seq(n, _ => Block("", 0, []));
    var i := 0;
    while i < n
      invariant 0 <= i <= n && |ret| == n
      invariant forall j :: 0 <= j < i ==>
        ret[j] == Block(blocks[j].nameChars[..|blocks[j].nameChars| - 1], blocks[j].dataSize, [])
    {
      var name := blocks[i].nameChars;
      ret := ret[i := Block(name[..|name| - 1], blocks[i].dataSize, [])];
      i := i + 1;
    }
    var k := 0;
    while k < |us|
      invariant 0 <= k <= |us| && |ret| == n
      invariant forall j :: 0 <= j < n ==>
        ret[j].name == blocks[j].nameChars[..|blocks[j].nameChars| - 1] && ret[j].byteSize == blocks[j].dataSize
      invariant forall b :: 0 <= b < n ==> ret[b].uniforms == InBlock(us[..k], n, b)
    {
      assert us[..k + 1][..k] == us[..k];
      var u := us[k];
      if u.blockIndex != -1 {
        var b := u.blockIndex;
        ret := ret[b := ret[b].(uniforms := ret[b].uniforms + [Uniform(u.nameChars[..|u.nameChars| - 1], u.utype, u.size, u.offset, u.stride, 0)])];
      }
      k := k + 1;
    }
    assert us[..k] == us;
  }

  /** `s` with `v` written over it from position `o` on (`std::copy` into the buffer). */
  function Splice(s: seq<real>, o: nat, v: seq<real>): (r: seq<real>)
    requires o + |v| <= |s|
    ensures |r| == |s|
    ensures forall i :: 0 <= i < |s| && !(o <= i < o + |v|) ==> r[i] == s[i]
  {
    s[..o] + v + s[o + |v|..]
  }

  /** The `n` floats from position `o` on (`std::copy` out of the buffer). */
  function Read(s: seq<real>, o: nat, n: nat): (r: seq<real>)
    requires o + n <= |s|
    ensures |r| == n && forall i :: 0 <= i < n ==> r[i] == s[o + i]
  {
    s[o..o + n]
  }

  /** Assigning a value and reading the same uniform back gives the value. */
  lemma AssignThenConvert(s: seq<real>, o: nat, v: seq<real>)
    requires o + |v| <= |s|
    ensures Read(Splice(s, o, v), o, |v|) == v
  {
    assert Splice(s, o, v)[o..o + |v|] == v;
  }

  /** Assigning one uniform leaves what a disjoint uniform reads unchanged. */
  lemma AssignKeepsOthers(s: seq<real>, o: nat, v: seq<real>, o': nat, n: nat)
    requires o + |v| <= |s| && o' + n <= |s|
    requires o' + n <= o || o + |v| <= o'
    ensures Read(Splice(s, o, v), o', n) == Read(s, o', n)
  {
  }

  /**
   * `UBOResource`: the uniform buffer's CPU copy.  `storage` is a
   * `vector<float>` of `byte_size` elements, indexed by the uniform's
   * reported offset.
   */
  class UboStorage {
    const block: Block
    var storage: seq<real>

    constructor (block: Block)
      ensures this.block == block && storage == seq(block.byteSize, _ => 0.0)
    {
      this.block := block;
      storage := seq(block.byteSize, _ => 0.0);
    }

    /**
     * What `Sync` uploads: `storage.size()` bytes from the start of the
     * vector, that is its first quarter as floats.
     */
    function Uploaded(): (g: seq<real>)
      reads this
      ensures |g| == |storage| / 4 && forall i :: 0 <= i < |g| ==> g[i] == storage[i]
    {
      storage[..|storage| / 4]
    }

    /**
     * `AssignOpHelper`: copy the value's floats in at the uniform's offset;
     * the uniform must exist with the value's type, and the copy must fit.
     */
    method Assign(name: string, ty: nat, v: seq<real>)
      requires exists i :: 0 <= i < |block.uniforms| && block.uniforms[i].name == name
      requires Member(block, name).utype == ty
      requires Member(block, name).offset + |v| <= |storage|
      modifies this
      ensures storage == Splice(old(storage), Member(block, name).offset, v)
    {
      var unif := Member(block, name);
      storage := storage[..unif.offset] + v + storage[unif.offset + |v|..];
    }

    /** `ConvertOpHelper`: the `n` floats at the uniform's offset. */
    function Convert(name: string, ty: nat, n: nat): (r: seq<real>)
      reads this
      requires exists i :: 0 <= i < |block.uniforms| && block.uniforms[i].name == name
      requires Member(block, name).utype == ty
      requires Member(block, name).offset + n <= |storage|
      ensures r == Read(storage, Member(block, name).offset, n)
    {
      storage[Member(block, name).offset..Member(block, name).offset + n]
    }

    /**
     * The same copy at float index `offset / 4`, which is where the byte
     * offset the program reports puts the uniform in the uploaded buffer.
     */
    method AssignIntended(name: string, ty: nat, v: seq<real>)
      requires exists i :: 0 <= i < |block.uniforms| && block.uniforms[i].name == name
      requires Member(block, name).utype == ty
      requires Member(block, name).offset / 4 + |v| <= |storage|
      modifies this
      ensures storage == Splice(old(storage), Member(block, name).offset / 4, v)
    {
      var unif := Member(block, name);
      storage := storage[..unif.offset / 4] + v + storage[unif.offset / 4 + |v|..];
    }
  }

  /**
   * With the intended index, a value whose bytes lie inside the block is
   * uploaded: the buffer holds it at float `offset / 4`.
   */
  lemma IntendedAssignUploaded(s: seq<real>, byteSize: nat, offset: nat, v: seq<real>)
    requires |s| == byteSize && offset + 4 * |v| <= byteSize
    ensures var g := Splice(s, offset / 4, v)[..byteSize / 4];
      offset / 4 + |v| <= |g| && g[offset / 4..offset / 4 + |v|] == v
  {
  }

  /**
   * As written, a `mat4` at byte offset 64 in a 128-byte block is copied to
   * floats 64 to 79, past the 32 floats that are uploaded: the GPU never
   * sees it.
   */
  lemma ByteOffsetMissesUpload(v: seq<real>)
    requires |v| == 16
    ensures var s := seq(128, _ => 0.0); var g := Splice(s, 64, v)[..128 / 4];
      g == s[..32] && (v != seq(16, _ => 0.0) ==> g[64 / 4..64 / 4 + 16] != v)
  {
    var s := seq(128, _ => 0.0);
    var g := Splice(s, 64, v)[..32];
    assert g == s[..32];
    if v != seq(16, _ => 0.0) {
      var i :| 0 <= i < 16 && v[i] != 0.0;
      assert g[16..32][i] == 0.0;
    }
  }
}

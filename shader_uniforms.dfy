/**
 * A shader program's uniforms, as the program's introspection describes
 * them: each uniform's element type, the blocks they are grouped into, and
 * typed access to a uniform (or one array element of it) inside a uniform
 * buffer.  The OpenGL queries are replaced by the answers they return.
 */
module ShaderUniforms {
  import opened Wrappers
  import opened Sequences

  // The OpenGL type enumerants a uniform can have.
  const GL_INT: int := 0x1404
  const GL_UNSIGNED_INT: int := 0x1405
  const GL_FLOAT: int := 0x1406
  const GL_FLOAT_VEC2: int := 0x8B50
  const GL_FLOAT_VEC3: int := 0x8B51
  const GL_FLOAT_VEC4: int := 0x8B52
  const GL_INT_VEC2: int := 0x8B53
  const GL_INT_VEC3: int := 0x8B54
  const GL_INT_VEC4: int := 0x8B55
  const GL_BOOL: int := 0x8B56
  const GL_BOOL_VEC2: int := 0x8B57
  const GL_BOOL_VEC3: int := 0x8B58
  const GL_BOOL_VEC4: int := 0x8B59
  const GL_FLOAT_MAT2: int := 0x8B5A
  const GL_FLOAT_MAT3: int := 0x8B5B
  const GL_FLOAT_MAT4: int := 0x8B5C
  const GL_UNSIGNED_INT_VEC2: int := 0x8DC6
  const GL_UNSIGNED_INT_VEC3: int := 0x8DC7
  const GL_UNSIGNED_INT_VEC4: int := 0x8DC8

  /** The four scalar types that have vector forms. */
  predicate IsScalar(s: int) {
    s == GL_INT || s == GL_UNSIGNED_INT || s == GL_BOOL || s == GL_FLOAT
  }

  /** The `n`-component vector type of a scalar type, for n = 2, 3, 4. */
  function VecOf(s: int, n: nat): int
    requires IsScalar(s) && 2 <= n <= 4
  {
    if s == GL_INT then [GL_INT_VEC2, GL_INT_VEC3, GL_INT_VEC4][n - 2]
    else if s == GL_UNSIGNED_INT then [GL_UNSIGNED_INT_VEC2, GL_UNSIGNED_INT_VEC3, GL_UNSIGNED_INT_VEC4][n - 2]
    else if s == GL_BOOL then [GL_BOOL_VEC2, GL_BOOL_VEC3, GL_BOOL_VEC4][n - 2]
    else [GL_FLOAT_VEC2, GL_FLOAT_VEC3, GL_FLOAT_VEC4][n - 2]
  }

  /** The `n`-by-`n` float matrix type, for n = 2, 3, 4. */
  function MatOf(n: nat): int
    requires 2 <= n <= 4
  {
    [GL_FLOAT_MAT2, GL_FLOAT_MAT3, GL_FLOAT_MAT4][n - 2]
  }

  /** The vector and matrix types. */
  const CompoundTypes: set<int> := {
    GL_INT_VEC2, GL_INT_VEC3, GL_INT_VEC4, GL_UNSIGNED_INT_VEC2, GL_UNSIGNED_INT_VEC3, GL_UNSIGNED_INT_VEC4,
    GL_BOOL_VEC2, GL_BOOL_VEC3, GL_BOOL_VEC4, GL_FLOAT_VEC2, GL_FLOAT_VEC3, GL_FLOAT_VEC4,
    GL_FLOAT_MAT2, GL_FLOAT_MAT3, GL_FLOAT_MAT4}

  /** `UniformType`: an element's scalar type and its shape. */
  datatype UniformType = UniformType(scalar: int, rows: int, cols: int)

  /**
   * `UniformType(GLenum)`: a scalar or vector type has its scalar as base
   * and n rows and one column; an n-by-n matrix is float with n rows and n
   * columns; any other type is its own base, one by one.
   */
  function MakeUniformType(t: int): (u: UniformType)
    ensures forall s, n :: IsScalar(s) && 2 <= n <= 4 && t == VecOf(s, n) ==> u == UniformType(s, n, 1)
    ensures forall n :: 2 <= n <= 4 && t == MatOf(n) ==> u == UniformType(GL_FLOAT, n, n)
    ensures IsScalar(t) ==> u == UniformType(t, 1, 1)
    ensures t !in CompoundTypes ==> u == UniformType(t, 1, 1)
  {
    var scalar :=
      if t in {GL_INT, GL_INT_VEC2, GL_INT_VEC3, GL_INT_VEC4} then GL_INT
      else if t in {GL_UNSIGNED_INT, GL_UNSIGNED_INT_VEC2, GL_UNSIGNED_INT_VEC3, GL_UNSIGNED_INT_VEC4} then GL_UNSIGNED_INT
      else if t in {GL_BOOL, GL_BOOL_VEC2, GL_BOOL_VEC3, GL_BOOL_VEC4} then GL_BOOL
      else if t in {GL_FLOAT, GL_FLOAT_VEC2, GL_FLOAT_VEC3, GL_FLOAT_VEC4} then GL_FLOAT
      else if t in {GL_FLOAT_MAT2, GL_FLOAT_MAT3, GL_FLOAT_MAT4} then GL_FLOAT
      else t;
    if t in {GL_INT_VEC2, GL_UNSIGNED_INT_VEC2, GL_BOOL_VEC2, GL_FLOAT_VEC2} then UniformType(scalar, 2, 1)
    else if t in {GL_INT_VEC3, GL_UNSIGNED_INT_VEC3, GL_BOOL_VEC3, GL_FLOAT_VEC3} then UniformType(scalar, 3, 1)
    else if t in {GL_INT_VEC4, GL_UNSIGNED_INT_VEC4, GL_BOOL_VEC4, GL_FLOAT_VEC4} then UniformType(scalar, 4, 1)
    else if t == GL_FLOAT_MAT2 then UniformType(scalar, 2, 2)
    else if t == GL_FLOAT_MAT3 then UniformType(scalar, 3, 3)
    else if t == GL_FLOAT_MAT4 then UniformType(scalar, 4, 4)
    else UniformType(scalar, 1, 1)
  }

  /** A uniform as the program reports it. */
  datatype Uniform = Uniform(name: string, utype: UniformType, size: int, offset: int, stride: int, location: int)

  /** A uniform block: its name (empty for the default block), size in bytes, and members. */
  datatype UniformBlock = UniformBlock(name: string, byteSize: int, uniforms: seq<Uniform>)

  /** What the program reports about one active block: its NUL-terminated name and data size. */
  datatype BlockInfo = BlockInfo(nameChars: string, dataSize: int)

  /**
   * What the program reports about one active uniform: NUL-terminated name
   * (with `[0]` before the NUL for arrays), type, array size, layout, the
   * location of that name, and its block (-1 for none).
   */
  datatype UniformInfo = UniformInfo(
    nameChars: string, glType: int, size: int, offset: int, stride: int, location: int, blockIndex: int)

  /** The reported name without its terminator, and for an array also without `[0]`. */
  function TrimName(nameChars: string, size: int): string
    requires |nameChars| >= (if size == 1 then 1 else 4)
  {
    if size == 1 then nameChars[..|nameChars| - 1] else nameChars[..|nameChars| - 4]
  }

  /** Trimming gives back the declared name of a plain uniform and of an array. */
  lemma TrimNameRecovers(n: string, size: int)
    ensures size == 1 ==> TrimName(n + ['\0'], size) == n
    ensures size != 1 ==> TrimName(n + "[0]" + ['\0'], size) == n
  {
    if size != 1 {
      assert (n + "[0]" + ['\0'])[..|n|] == n;
    } else {
      assert (n + ['\0'])[..|n|] == n;
    }
  }

  predicate WellFormedUniform(u: UniformInfo, nBlocks: nat) {
    |u.nameChars| >= (if u.size == 1 then 1 else 4) && -1 <= u.blockIndex < nBlocks
  }

  function ToUniform(u: UniformInfo): Uniform
    requires |u.nameChars| >= (if u.size == 1 then 1 else 4)
  {
    Uniform(TrimName(u.nameChars, u.size), MakeUniformType(u.glType), u.size, u.offset, u.stride, u.location)
  }

  /** The block a uniform goes to: its own, or the default block after the active ones. */
  function Target(u: UniformInfo, nBlocks: nat): nat
    requires -1 <= u.blockIndex < nBlocks
  {
    if u.blockIndex == -1 then nBlocks else u.blockIndex
  }

  /** The uniforms that go to block `b`, in query order. */
  function MembersOf(us: seq<UniformInfo>, nBlocks: nat, b: nat): seq<Uniform>
    requires forall k :: 0 <= k < |us| ==> WellFormedUniform(us[k], nBlocks)
    decreases |us|
  {
    if us == [] then []
    else
      var u := us[|us| - 1];
      assert WellFormedUniform(u, nBlocks);
      MembersOf(us[..|us| - 1], nBlocks, b) + (if Target(u, nBlocks) == b then [ToUniform(u)] else [])
  }

  /** A uniform is listed in block `b` exactly when some reported uniform targets `b` and becomes it. */
  lemma {:induction false} MembersOfExactly(us: seq<UniformInfo>, nBlocks: nat, b: nat, x: Uniform)
    requires forall k :: 0 <= k < |us| ==> WellFormedUniform(us[k], nBlocks)
    ensures x in MembersOf(us, nBlocks, b) <==>
      exists k :: 0 <= k < |us| && Target(us[k], nBlocks) == b && ToUniform(us[k]) == x
    decreases |us|
  {
    if us != [] {
      var n := |us| - 1;
      var init, u := us[..n], us[n];
      var tail := if Target(u, nBlocks) == b then [ToUniform(u)] else [];
      assert MembersOf(us, nBlocks, b) == MembersOf(init, nBlocks, b) + tail;
      MembersOfExactly(init, nBlocks, b, x);
      if x in MembersOf(init, nBlocks, b) {
        var k :| 0 <= k < n && Target(init[k], nBlocks) == b && ToUniform(init[k]) == x;
        assert us[k] == init[k];
      } else if x in tail {
        assert Target(us[n], nBlocks) == b && ToUniform(us[n]) == x;
      }
      if exists k :: 0 <= k < |us| && Target(us[k], nBlocks) == b && ToUniform(us[k]) == x {
        var k :| 0 <= k < |us| && Target(us[k], nBlocks) == b && ToUniform(us[k]) == x;
        if k < n {
          assert init[k] == us[k];
        }
      }
    }
  }

  /**
   * `DoQuery`: one block per active block plus a final default block; each
   * active block named (terminator dropped) and sized as reported; every
   * uniform appended, in query order, to its block.
   */
  method DoQuery(blocks: seq<BlockInfo>, us: seq<UniformInfo>) returns (ret: seq<UniformBlock>)
    requires forall i :: 0 <= i < |blocks| ==> |blocks[i].nameChars| >= 1
    requires forall k :: 0 <= k < |us| ==> WellFormedUniform(us[k], |blocks|)
    ensures |ret| == |blocks| + 1
    ensures forall i :: 0 <= i < |blocks| ==>
      ret[i].name == blocks[i].nameChars[..|blocks[i].nameChars| - 1] && ret[i].byteSize == blocks[i].dataSize
    ensures ret[|blocks|].name == "" && ret[|blocks|].byteSize == 0
    ensures forall b :: 0 <= b < |ret| ==> ret[b].uniforms == MembersOf(us, |blocks|, b)
  {
    var n := |blocks|;
    ret := seq(n + 1, _ => UniformBlock("", 0, []));
    var i := 0;
    while i < n
      invariant 0 <= i <= n && |ret| == n + 1
      invariant forall j :: 0 <= j < i ==>
        ret[j] == UniformBlock(blocks[j].nameChars[..|blocks[j].nameChars| - 1], blocks[j].dataSize, [])
      invariant forall j :: i <= j <= n ==> ret[j] == UniformBlock("", 0, [])
    {
      var name := blocks[i].nameChars;
      ret := ret[i := UniformBlock(name[..|name| - 1], blocks[i].dataSize, [])];
      i := i + 1;
    }
    var k := 0;
    while k < |us|
      invariant 0 <= k <= |us| && |ret| == n + 1
      invariant forall j :: 0 <= j < n ==>
        ret[j].name == blocks[j].nameChars[..|blocks[j].nameChars| - 1] && ret[j].byteSize == blocks[j].dataSize
      invariant ret[n].name == "" && ret[n].byteSize == 0
      invariant forall b :: 0 <= b <= n ==> ret[b].uniforms == MembersOf(us[..k], n, b)
    {
      assert us[..k + 1][..k] == us[..k];
      var u := us[k];
      var unif := Uniform(TrimName(u.nameChars, u.size), MakeUniformType(u.glType), u.size, u.offset, u.stride, u.location);
      var b := if u.blockIndex == -1 then n else u.blockIndex;
      ret := ret[b := ret[b].(uniforms := ret[b].uniforms + [unif])];
      k := k + 1;
    }
    assert us[..k] == us;
  }

  datatype Error = RuntimeError(message: string) | DomainError(message: string)

  /** `UniformBlock::operator[]`: the first member with that name, or `runtime_error`. */
  function BlockMember(block: UniformBlock, n: string): (r: Result<Uniform, Error>)
    ensures r.Ok? <==> exists i :: 0 <= i < |block.uniforms| && block.uniforms[i].name == n
    ensures r.Ok? ==> exists i :: (0 <= i < |block.uniforms| && block.uniforms[i] == r.value
      && r.value.name == n && forall j :: 0 <= j < i ==> block.uniforms[j].name != n)
    ensures r.Err? ==> r.error == RuntimeError("No uniform '" + n + "' in block '" + block.name + "'")
  {
    var it := FindIf(block.uniforms, (u: Uniform) => u.name == n);
    if it == |block.uniforms| then Err(RuntimeError("No uniform '" + n + "' in block '" + block.name + "'"))
    else Ok(block.uniforms[it])
  }

  /** `Uniforms`: a program's blocks. */
  class Uniforms {
    var blocks: seq<UniformBlock>

    constructor (blocks: seq<UniformBlock>)
      ensures this.blocks == blocks
    {
      this.blocks := blocks;
    }

    /**
     * `Uniforms::operator[]`: the first block with that name; when there is
     * none, a new empty block with that name is appended and given.
     */
    method Index(n: string) returns (i: nat)
      modifies this
      ensures i < |blocks| && blocks[i].name == n
      ensures forall j :: 0 <= j < i ==> blocks[j].name != n
      ensures (exists j :: 0 <= j < |old(blocks)| && old(blocks)[j].name == n) ==> blocks == old(blocks)
      ensures (forall j :: 0 <= j < |old(blocks)| ==> old(blocks)[j].name != n) ==>
        blocks == old(blocks) + [UniformBlock(n, 0, [])] && i == |old(blocks)|
    {
      var it := FindIf(blocks, (b: UniformBlock) => b.name == n);
      if it == |blocks| {
        blocks := blocks + [UniformBlock(n, 0, [])];
      }
      i := it;
    }
  }

  /** Decimal digits of a number, as `std::to_string` writes it. */
  function Decimal(n: nat): (s: string)
    ensures |s| >= 1
    decreases n
  {
    var d := ['0' + (n % 10) as char];
    if n < 10 then d else Decimal(n / 10) + d
  }

  /** `UBO::Proxy`: the block being accessed and one of its uniforms (or an array element of it). */
  datatype Proxy = Proxy(blockName: string, unif: Uniform)

  /**
   * `Proxy::CheckType`: the access must use the uniform's scalar type
   * (`domain_error` otherwise) and its exact shape (`runtime_error`).
   */
  function CheckType(p: Proxy, scalar: int, rows: int, cols: int): (r: Result<(), Error>)
    ensures r.Ok? <==> p.unif.utype == UniformType(scalar, rows, cols)
    ensures p.unif.utype.scalar != scalar ==> r == Err(DomainError("Wrong type for uniform '" + p.blockName + "." + p.unif.name))
    ensures p.unif.utype.scalar == scalar && r.Err? ==> r == Err(RuntimeError("Wrong dims for uniform '" + p.blockName + "." + p.unif.name))
  {
    if p.unif.utype.scalar != scalar then Err(DomainError("Wrong type for uniform '" + p.blockName + "." + p.unif.name))
    else if p.unif.utype.rows != rows || p.unif.utype.cols != cols then
      Err(RuntimeError("Wrong dims for uniform '" + p.blockName + "." + p.unif.name))
    else Ok(())
  }

  /** `Proxy::operator[](i)`: element `i` of an array uniform, `stride` bytes apart; past the end is a `domain_error`. */
  function Element(p: Proxy, i: nat): (r: Result<Proxy, Error>)
    ensures r.Ok? <==> i < p.unif.size
    ensures r.Ok? ==> r.value.unif == p.unif.(offset := p.unif.offset + p.unif.stride * i) && r.value.blockName == p.blockName
    ensures r.Err? ==> r.error == DomainError(Decimal(i) + " is is past the end of " + p.unif.name)
  {
    if p.unif.size <= i then Err(DomainError(Decimal(i) + " is is past the end of " + p.unif.name))
    else Ok(Proxy(p.blockName, p.unif.(offset := p.unif.offset + p.unif.stride * i)))
  }

  /** Elements are laid out `stride` apart from the first: element `i` is `i` strides past element 0. */
  lemma ElementsEvenlySpaced(p: Proxy, i: nat)
    requires i < p.unif.size
    ensures Element(p, i).value.unif.offset - Element(p, 0).value.unif.offset == i * p.unif.stride
  {
  }

  /** A plain (size 1) uniform has only element 0. */
  lemma PlainUniformHasOneElement(p: Proxy, i: nat)
    requires p.unif.size == 1
    ensures Element(p, i).Ok? <==> i == 0
    ensures Element(p, 0) == Ok(p)
  {
  }
}

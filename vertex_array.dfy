/**
 * Vertex array objects: a scoped binding that binds a vertex array only
 * when it is not already bound and restores the previous one on scope
 * exit, and the move of a vertex array's GL handles.
 */
module VertexArray {
  /**
   * The vertex array bound in the GL context, the one the program believes
   * is bound (`VAOBinding::current`, zero-initialised as a static), and the
   * `glBindVertexArray` calls issued so far.
   */
  datatype VaoState = VaoState(glBound: int, current: int, calls: seq<int>)

  /** The program's belief matches the context. */
  predicate Tracks(s: VaoState) {
    s.glBound == s.current
  }

  /** `VAOBinding`: the vertex array it replaced. */
  datatype VaoBinding = VaoBinding(prev: int)

  /** The `VAOBinding` constructor: save the current array; bind `next` only if it is not current. */
  function Bind(s: VaoState, next: int): (r: (VaoState, VaoBinding))
    ensures r.1.prev == s.current && r.0.current == next
    ensures s.current == next ==> r.0 == s
    ensures s.current != next ==> r.0 == VaoState(next, next, s.calls + [next])
  {
    if s.current != next then (VaoState(next, next, s.calls + [next]), VaoBinding(s.current))
    else (s, VaoBinding(s.current))
  }

  /** The `VAOBinding` destructor: rebind the saved array only if it is not current. */
  function Release(s: VaoState, b: VaoBinding): (r: VaoState)
    ensures r.current == b.prev
    ensures s.current == b.prev ==> r == s
    ensures s.current != b.prev ==> r == VaoState(b.prev, b.prev, s.calls + [b.prev])
  {
    if b.prev != s.current then VaoState(b.prev, b.prev, s.calls + [b.prev]) else s
  }

  /** Binding and releasing keep the program's belief in step with the context. */
  lemma BindReleaseTrack(s: VaoState, next: int, b: VaoBinding)
    requires Tracks(s)
    ensures Tracks(Bind(s, next).0) && Tracks(Release(s, b))
  {
  }

  /**
   * A binding scope leaves the bound array as it found it, and issues GL
   * calls only when `next` was not already bound: none then, and otherwise
   * exactly a bind of `next` and a bind back.
   */
  lemma ScopeRestores(s: VaoState, next: int)
    requires Tracks(s)
    ensures var (s1, b) := Bind(s, next); var s2 := Release(s1, b);
      s2.glBound == s.glBound && s2.current == s.current &&
      s2.calls == s.calls + (if s.current == next then [] else [next, s.current])
  {
  }

  /** Nested scopes restore in last-in, first-out order: after the inner one the outer array is bound again. */
  lemma {:induction false} NestedScopesRestore(s: VaoState, a: int, b: int)
    requires Tracks(s)
    ensures var (s1, oa) := Bind(s, a); var (s2, ob) := Bind(s1, b);
      var s3 := Release(s2, ob); var s4 := Release(s3, oa);
      s3.current == a && s3.glBound == a && s4.current == s.current && s4.glBound == s.glBound
  {
    var (s1, oa) := Bind(s, a);
    BindReleaseTrack(s, a, oa);
    ScopeRestores(s1, b);
    var (s2, ob) := Bind(s1, b);
    var s3 := Release(s2, ob);
    assert s3.current == s1.current && s3.glBound == s1.glBound;
    ScopeRestores(s, a);
  }

  /** The GL context and the static current vertex array. */
  class VaoContext {
    var state: VaoState

    constructor ()
      ensures state == VaoState(0, 0, []) && Tracks(state)
    {
      state := VaoState(0, 0, []);
    }

    /** Construct a `VAOBinding` for `next`. */
    method BindVao(next: int) returns (b: VaoBinding)
      modifies this
      ensures (state, b) == Bind(old(state), next)
    {
      b := VaoBinding(state.current);
      if state.current != next {
        state := VaoState(next, next, state.calls + [next]);
      }
    }

    /** Destroy a `VAOBinding`. */
    method Unbind(b: VaoBinding)
      modifies this
      ensures state == Release(old(state), b)
    {
      if b.prev != state.current {
        state := VaoState(b.prev, b.prev, state.calls + [b.prev]);
      }
    }
  }

  /** `VAOResource`: the GL handles of a vertex array and its index buffer, and its index count. */
  class VaoResource {
    var vertexArrayObject: int
    var indexBufferObject: int
    var numVertices: int

    constructor (vao: int, ibo: int, n: int)
      ensures vertexArrayObject == vao && indexBufferObject == ibo && numVertices == n
    {
      vertexArrayObject, indexBufferObject, numVertices := vao, ibo, n;
    }

    /**
     * The move constructor: take the handles and the count; the source is
     * left holding handle 0 for both, so its destructor deletes nothing.
     */
    constructor Move(other: VaoResource)
      modifies other
      ensures vertexArrayObject == old(other.vertexArrayObject) && indexBufferObject == old(other.indexBufferObject)
      ensures numVertices == old(other.numVertices)
      ensures other.vertexArrayObject == 0 && other.indexBufferObject == 0 && other.numVertices == old(other.numVertices)
    {
      vertexArrayObject := other.vertexArrayObject;
      indexBufferObject := other.indexBufferObject;
      numVertices := other.numVertices;
      new;
      other.indexBufferObject := 0;
      other.vertexArrayObject := 0;
    }
  }
}

/**
 * Framebuffer objects: scoped binding objects that save and restore the
 * tracked read and draw framebuffers, colour and depth attachments, and the
 * completeness check.  An OpenGL call is modelled by the binding or
 * attachment it records.
 */
module Framebuffer {
  import opened Wrappers

  const GL_FRAMEBUFFER: int := 0x8D40
  const GL_READ_FRAMEBUFFER: int := 0x8CA8
  const GL_DRAW_FRAMEBUFFER: int := 0x8CA9
  const GL_COLOR_ATTACHMENT0: int := 0x8CE0
  const GL_DEPTH_ATTACHMENT: int := 0x8D00

  const GL_FRAMEBUFFER_INCOMPLETE_ATTACHMENT: int := 0x8CD6
  const GL_FRAMEBUFFER_INCOMPLETE_MISSING_ATTACHMENT: int := 0x8CD7
  const GL_FRAMEBUFFER_INCOMPLETE_DRAW_BUFFER: int := 0x8CDB
  const GL_FRAMEBUFFER_INCOMPLETE_READ_BUFFER: int := 0x8CDC
  const GL_FRAMEBUFFER_UNSUPPORTED: int := 0x8CDD
  const GL_FRAMEBUFFER_INCOMPLETE_MULTISAMPLE: int := 0x8D56
  const GL_FRAMEBUFFER_INCOMPLETE_LAYER_TARGETS: int := 0x8DA8

  /**
   * The framebuffers bound in the GL context (`glRead`, `glDraw`) next to
   * the ones the program believes are bound (`FBOBindObject::read_current`
   * and `draw_current`).
   */
  datatype Bindings = Bindings(glRead: int, glDraw: int, readCurrent: int, drawCurrent: int)

  /** The program's belief matches the context. */
  predicate Tracks(s: Bindings) {
    s.glRead == s.readCurrent && s.glDraw == s.drawCurrent
  }

  /** `glBindFramebuffer`: `GL_FRAMEBUFFER` sets both bindings, the other two targets one each. */
  function GlBind(s: Bindings, target: int, fb: int): (r: Bindings)
    ensures r.readCurrent == s.readCurrent && r.drawCurrent == s.drawCurrent
    ensures r.glRead == (if target != GL_DRAW_FRAMEBUFFER then fb else s.glRead)
    ensures r.glDraw == (if target != GL_READ_FRAMEBUFFER then fb else s.glDraw)
  {
    if target == GL_READ_FRAMEBUFFER then s.(glRead := fb)
    else if target == GL_DRAW_FRAMEBUFFER then s.(glDraw := fb)
    else s.(glRead := fb, glDraw := fb)
  }

  /**
   * `FBOBindObject`: its target and the bindings it replaced.  A saved
   * value the target does not touch is never read; it is modelled as 0.
   */
  datatype BindObject = BindObject(target: int, readPrev: int, drawPrev: int)

  predicate ValidTarget(t: int) {
    t == GL_FRAMEBUFFER || t == GL_READ_FRAMEBUFFER || t == GL_DRAW_FRAMEBUFFER
  }

  /**
   * The `FBOBindObject` constructor: bind, then for each binding the target
   * covers save the current value and record the new one.
   */
  function Bind(s: Bindings, target: int, next: int): (r: (Bindings, BindObject))
    ensures r.1.target == target
    ensures target != GL_READ_FRAMEBUFFER ==> r.0.drawCurrent == next && r.1.drawPrev == s.drawCurrent
    ensures target != GL_DRAW_FRAMEBUFFER ==> r.0.readCurrent == next && r.1.readPrev == s.readCurrent
    ensures target == GL_READ_FRAMEBUFFER ==> r.0.drawCurrent == s.drawCurrent
    ensures target == GL_DRAW_FRAMEBUFFER ==> r.0.readCurrent == s.readCurrent
  {
    var g := GlBind(s, target, next);
    var (g, drawPrev) := if target != GL_READ_FRAMEBUFFER then (g.(drawCurrent := next), s.drawCurrent) else (g, 0);
    var (g, readPrev) := if target != GL_DRAW_FRAMEBUFFER then (g.(readCurrent := next), s.readCurrent) else (g, 0);
    (g, BindObject(target, readPrev, drawPrev))
  }

  /**
   * The `FBOBindObject` destructor as written: for each binding the target
   * covers, bind the saved value with the object's own target and record
   * it.  For `GL_FRAMEBUFFER` both binds set both bindings, so the draw
   * framebuffer ends at `read_prev`.
   */
  function Release(s: Bindings, b: BindObject): (r: Bindings)
    ensures b.target != GL_READ_FRAMEBUFFER ==> r.drawCurrent == b.drawPrev
    ensures b.target != GL_DRAW_FRAMEBUFFER ==> r.readCurrent == b.readPrev
    ensures b.target == GL_READ_FRAMEBUFFER ==> r.drawCurrent == s.drawCurrent
    ensures b.target == GL_DRAW_FRAMEBUFFER ==> r.readCurrent == s.readCurrent
  {
    var g := if b.target != GL_READ_FRAMEBUFFER then GlBind(s, b.target, b.drawPrev).(drawCurrent := b.drawPrev) else s;
    if b.target != GL_DRAW_FRAMEBUFFER then GlBind(g, b.target, b.readPrev).(readCurrent := b.readPrev) else g
  }

  /** The destructor as evidently intended: each saved value is bound to its own target. */
  function ReleaseIntended(s: Bindings, b: BindObject): (r: Bindings)
    ensures b.target != GL_READ_FRAMEBUFFER ==> r.drawCurrent == b.drawPrev && r.glDraw == b.drawPrev
    ensures b.target != GL_DRAW_FRAMEBUFFER ==> r.readCurrent == b.readPrev && r.glRead == b.readPrev
    ensures b.target == GL_READ_FRAMEBUFFER ==> r.drawCurrent == s.drawCurrent && r.glDraw == s.glDraw
    ensures b.target == GL_DRAW_FRAMEBUFFER ==> r.readCurrent == s.readCurrent && r.glRead == s.glRead
  {
    var g := if b.target != GL_READ_FRAMEBUFFER then GlBind(s, GL_DRAW_FRAMEBUFFER, b.drawPrev).(drawCurrent := b.drawPrev) else s;
    if b.target != GL_DRAW_FRAMEBUFFER then GlBind(g, GL_READ_FRAMEBUFFER, b.readPrev).(readCurrent := b.readPrev) else g
  }

  /** Binding keeps the program's belief in step with the context. */
  lemma BindTracks(s: Bindings, target: int, next: int)
    requires Tracks(s) && ValidTarget(target)
    ensures Tracks(Bind(s, target, next).0)
  {
  }

  /** Destroying a binding object restores the tracked bindings it saved, whatever its target. */
  lemma BindReleaseRestoresTracked(s: Bindings, target: int, next: int, s': Bindings)
    requires ValidTarget(target)
    requires s'.readCurrent == Bind(s, target, next).0.readCurrent && s'.drawCurrent == Bind(s, target, next).0.drawCurrent
    ensures var r := Release(s', Bind(s, target, next).1);
      r.readCurrent == s.readCurrent && r.drawCurrent == s.drawCurrent
  {
  }

  /**
   * As written, a read or draw binding object keeps belief and context in
   * step; a `GL_FRAMEBUFFER` one does exactly when the two saved
   * framebuffers are the same.
   */
  lemma ReleaseTracksIff(s: Bindings, b: BindObject)
    requires Tracks(s) && ValidTarget(b.target)
    ensures b.target != GL_FRAMEBUFFER ==> Tracks(Release(s, b))
    ensures b.target == GL_FRAMEBUFFER ==> (Tracks(Release(s, b)) <==> b.readPrev == b.drawPrev)
  {
  }

  /**
   * Bind the read framebuffer to 1, then bind framebuffer 2 to both and
   * destroy that binding object: the program believes the draw framebuffer
   * is 0 again, but the context has framebuffer 1 bound for drawing.
   */
  lemma SplitBindingRestoredWrongly()
    ensures var s0 := Bindings(0, 0, 0, 0);
      var (s1, _) := Bind(s0, GL_READ_FRAMEBUFFER, 1);
      var (s2, b) := Bind(s1, GL_FRAMEBUFFER, 2);
      var s3 := Release(s2, b);
      s3.drawCurrent == 0 && s3.glDraw == 1 && !Tracks(s3)
  {
  }

  /**
   * With the intended destructor, a bind followed by the destruction of
   * its object gives back exactly the bindings from before, both believed
   * and actual.
   */
  lemma BindReleaseIntendedRestores(s: Bindings, target: int, next: int)
    requires Tracks(s) && ValidTarget(target)
    ensures ReleaseIntended(Bind(s, target, next).0, Bind(s, target, next).1) == s
  {
  }

  /** With the intended destructor, every release keeps belief and context in step. */
  lemma ReleaseIntendedTracks(s: Bindings, b: BindObject)
    requires Tracks(s) && ValidTarget(b.target)
    ensures Tracks(ReleaseIntended(s, b))
  {
  }

  /**
   * Nested scopes: binding A, then B, then destroying B's object and then
   * A's, with the intended destructor, restores the bindings from before.
   */
  lemma {:induction false} NestedIntendedRestores(s: Bindings, ta: int, a: int, tb: int, b: int)
    requires Tracks(s) && ValidTarget(ta) && ValidTarget(tb)
    ensures var (s1, oa) := Bind(s, ta, a); var (s2, ob) := Bind(s1, tb, b);
      ReleaseIntended(ReleaseIntended(s2, ob), oa) == s
  {
    var (s1, oa) := Bind(s, ta, a);
    BindTracks(s, ta, a);
    BindReleaseIntendedRestores(s1, tb, b);
    BindReleaseIntendedRestores(s, ta, a);
  }

  /** The context and the two static current framebuffers. */
  class FramebufferContext {
    var bindings: Bindings

    constructor ()
      ensures bindings == Bindings(0, 0, 0, 0) && Tracks(bindings)
    {
      bindings := Bindings(0, 0, 0, 0);
    }

    /** `FBO::Bind`: construct a binding object for `target` and framebuffer `next`. */
    method BindFbo(target: int, next: int) returns (b: BindObject)
      modifies this
      ensures (bindings, b) == Bind(old(bindings), target, next)
    {
      var g := GlBind(bindings, target, next);
      var drawPrev, readPrev := 0, 0;
      if target != GL_READ_FRAMEBUFFER {
        drawPrev := g.drawCurrent;
        g := g.(drawCurrent := next);
      }
      if target != GL_DRAW_FRAMEBUFFER {
        readPrev := g.readCurrent;
        g := g.(readCurrent := next);
      }
      bindings := g;
      b := BindObject(target, readPrev, drawPrev);
    }

    /**
     * The binding object's destructor as written: each saved framebuffer is
     * bound with the object's own target.
     */
    method Unbind(b: BindObject)
      modifies this
      ensures bindings == Release(old(bindings), b)
    {
      if b.target != GL_READ_FRAMEBUFFER {
        bindings := GlBind(bindings, b.target, b.drawPrev).(drawCurrent := b.drawPrev);
      }
      if b.target != GL_DRAW_FRAMEBUFFER {
        bindings := GlBind(bindings, b.target, b.readPrev).(readCurrent := b.readPrev);
      }
    }

    /** The destructor as evidently intended: each saved framebuffer is bound to its own target. */
    method UnbindIntended(b: BindObject)
      modifies this
      ensures bindings == ReleaseIntended(old(bindings), b)
    {
      if b.target != GL_READ_FRAMEBUFFER {
        bindings := GlBind(bindings, GL_DRAW_FRAMEBUFFER, b.drawPrev).(drawCurrent := b.drawPrev);
      }
      if b.target != GL_DRAW_FRAMEBUFFER {
        bindings := GlBind(bindings, GL_READ_FRAMEBUFFER, b.readPrev).(readCurrent := b.readPrev);
      }
    }
  }

  /** `TexDim`: a texture's width and height. */
  datatype Dim = Dim(x: int, y: int)

  /** A texture: its GL handle and dimensions. */
  datatype Tex = Tex(handle: int, dim: Dim)

  /** The colour attachments for textures `ts[0..n)`: attachment `i` holds texture `i`. */
  function ColorAttachments(ts: seq<Tex>, n: nat): (m: map<int, int>)
    requires n <= |ts|
    ensures forall i :: 0 <= i < n ==> GL_COLOR_ATTACHMENT0 + i in m && m[GL_COLOR_ATTACHMENT0 + i] == ts[i].handle
    ensures forall k :: k in m ==> GL_COLOR_ATTACHMENT0 <= k < GL_COLOR_ATTACHMENT0 + n
    decreases n
  {
    if n == 0 then map[]
    else ColorAttachments(ts, n - 1)[GL_COLOR_ATTACHMENT0 + n - 1 := ts[n - 1].handle]
  }

  /** The draw buffers `COLOR_ATTACHMENT0 .. COLOR_ATTACHMENT0 + n - 1` (`std::iota`). */
  function Iota(n: nat): (r: seq<int>)
    ensures |r| == n && forall i :: 0 <= i < n ==> r[i] == GL_COLOR_ATTACHMENT0 + i
  {
    seq(n, i => GL_COLOR_ATTACHMENT0 + i)
  }

  /** The index of the first texture whose dimensions differ from `d`, or `|ts|`. */
  function FirstMismatch(ts: seq<Tex>, d: Dim): (k: nat)
    ensures k <= |ts| && (k < |ts| ==> ts[k].dim != d)
    ensures forall j :: 0 <= j < k ==> ts[j].dim == d
  {
    if ts == [] then 0
    else if ts[0].dim != d then 0
    else 1 + FirstMismatch(ts[1..], d)
  }

  datatype FboError = DomainError(message: string) | LogicError(message: string)

  /** `FBO`: a framebuffer object and what is attached to it. */
  class Fbo {
    var fbo: int
    var dim: Dim
    var texes: seq<Tex>
    /** Attachment point to the handle attached there. */
    var attachments: map<int, int>
    var drawBuffers: seq<int>
    var depthTex: Option<Tex>
    /** The handle of the depth renderbuffer, when one is held. */
    var depth: Option<int>

    /** `FBO()`: a new framebuffer with nothing attached. */
    constructor (handle: int)
      ensures fbo == handle && texes == [] && attachments == map[] && drawBuffers == []
      ensures depthTex.None? && depth.None?
    {
      fbo := handle;
      dim := Dim(0, 0);
      texes := [];
      attachments := map[];
      drawBuffers := [];
      depthTex := None;
      depth := None;
    }

    /** `FBO(FBO&&)`: take the handle; the source is left with 0. */
    constructor Move(other: Fbo)
      modifies other
      ensures fbo == old(other.fbo) && other.fbo == 0
    {
      fbo := other.fbo;
      dim := Dim(0, 0);
      texes := [];
      attachments := map[];
      drawBuffers := [];
      depthTex := None;
      depth := None;
      new;
      other.fbo := 0;
    }

    /**
     * `AttachTexes`: the first texture sets the dimensions and must not be
     * empty; each texture is then attached in turn at the next colour
     * attachment, and one whose dimensions differ stops it with the earlier
     * ones attached; when all are attached they become the draw buffers.
     */
    method AttachTexes(ts: seq<Tex>) returns (r: Result<(), FboError>)
      requires |ts| >= 1
      modifies this
      ensures dim == ts[0].dim && depthTex == old(depthTex) && depth == old(depth) && fbo == old(fbo)
      ensures (ts[0].dim.x == 0 || ts[0].dim.y == 0) ==>
        r == Err(DomainError("Cannot attach zero-sized textures to framebuffer"))
        && texes == old(texes) && attachments == old(attachments) && drawBuffers == old(drawBuffers)
      ensures !(ts[0].dim.x == 0 || ts[0].dim.y == 0) ==> (texes == ts &&
        var k := FirstMismatch(ts, ts[0].dim);
        attachments == old(attachments) + ColorAttachments(ts, k) &&
        (k < |ts| ==> r == Err(DomainError("All textures must have the same dimension")) && drawBuffers == old(drawBuffers)) &&
        (k == |ts| ==> r == Ok(()) && drawBuffers == Iota(|ts|)))
    {
      dim := ts[0].dim;
      if dim.x == 0 || dim.y == 0 {
        return Err(DomainError("Cannot attach zero-sized textures to framebuffer"));
      }
      texes := ts;
      var att, k := AttachColors(attachments, ts, dim);
      attachments := att;
      if k < |ts| {
        return Err(DomainError("All textures must have the same dimension"));
      }
      drawBuffers := Iota(|texes|);
      r := Ok(());
    }

    /** `AttachDepth(Tex)`: the depth texture replaces any depth renderbuffer. */
    method AttachDepthTex(tex: Tex)
      modifies this
      ensures depth.None? && depthTex == Some(tex) && dim == tex.dim
      ensures attachments == old(attachments)[GL_DEPTH_ATTACHMENT := tex.handle]
      ensures texes == old(texes) && drawBuffers == old(drawBuffers) && fbo == old(fbo)
    {
      depth := None;
      dim := tex.dim;
      attachments := attachments[GL_DEPTH_ATTACHMENT := tex.handle];
      depthTex := Some(tex);
    }

    /** `AttachDepth(RenderBuffer&&)`: the depth renderbuffer replaces any depth texture. */
    method AttachDepthBuffer(rb: int)
      modifies this
      ensures depthTex.None? && depth == Some(rb)
      ensures attachments == old(attachments)[GL_DEPTH_ATTACHMENT := rb]
      ensures texes == old(texes) && drawBuffers == old(drawBuffers) && dim == old(dim) && fbo == old(fbo)
    {
      depthTex := None;
      attachments := attachments[GL_DEPTH_ATTACHMENT := rb];
      depth := Some(rb);
    }
  }

  /**
   * The attaching loop of `AttachTexes`: texture `k` goes to colour
   * attachment `k` until one has dimensions other than `d`; gives the
   * attachments and where it stopped.
   */
  method AttachColors(base: map<int, int>, ts: seq<Tex>, d: Dim) returns (att: map<int, int>, k: nat)
    ensures k == FirstMismatch(ts, d) && att == base + ColorAttachments(ts, k)
  {
    att := base;
    k := 0;
    while k < |ts|
      invariant 0 <= k <= |ts|
      invariant forall j :: 0 <= j < k ==> ts[j].dim == d
      invariant att == base + ColorAttachments(ts, k)
    {
      if ts[k].dim != d {
        MismatchAt(ts, d, k);
        return;
      }
      AttachStep(base, ts, k);
      att := att[GL_COLOR_ATTACHMENT0 + k := ts[k].handle];
      k := k + 1;
    }
    MismatchAt(ts, d, k);
  }

  /** Attaching texture `k` extends the attachments of the first `k`. */
  lemma AttachStep(base: map<int, int>, ts: seq<Tex>, k: nat)
    requires k < |ts|
    ensures base + ColorAttachments(ts, k + 1) == (base + ColorAttachments(ts, k))[GL_COLOR_ATTACHMENT0 + k := ts[k].handle]
  {
  }

  /** The first mismatch is at `k` when everything before `k` matches and `ts[k]` (if any) does not. */
  lemma {:induction false} MismatchAt(ts: seq<Tex>, d: Dim, k: nat)
    requires k <= |ts| && (forall j :: 0 <= j < k ==> ts[j].dim == d) && (k < |ts| ==> ts[k].dim != d)
    ensures FirstMismatch(ts, d) == k
    decreases k
  {
    if k > 0 {
      MismatchAt(ts[1..], d, k - 1);
    }
  }

  /** The error names of `FBO_ERROR_CASE`. */
  function StatusName(status: int): Option<string> {
    if status == GL_FRAMEBUFFER_INCOMPLETE_ATTACHMENT then Some("GL_FRAMEBUFFER_INCOMPLETE_ATTACHMENT")
    else if status == GL_FRAMEBUFFER_INCOMPLETE_MISSING_ATTACHMENT then Some("GL_FRAMEBUFFER_INCOMPLETE_MISSING_ATTACHMENT")
    else if status == GL_FRAMEBUFFER_INCOMPLETE_DRAW_BUFFER then Some("GL_FRAMEBUFFER_INCOMPLETE_DRAW_BUFFER")
    else if status == GL_FRAMEBUFFER_INCOMPLETE_READ_BUFFER then Some("GL_FRAMEBUFFER_INCOMPLETE_READ_BUFFER")
    else if status == GL_FRAMEBUFFER_UNSUPPORTED then Some("GL_FRAMEBUFFER_UNSUPPORTED")
    else if status == GL_FRAMEBUFFER_INCOMPLETE_MULTISAMPLE then Some("GL_FRAMEBUFFER_INCOMPLETE_MULTISAMPLE")
    else if status == GL_FRAMEBUFFER_INCOMPLETE_LAYER_TARGETS then Some("GL_FRAMEBUFFER_INCOMPLETE_LAYER_TARGETS")
    else None
  }

  /**
   * `CheckStatus`: each incomplete status throws `logic_error` with its
   * name, 0 (the query itself failed) throws "Other framebuffer error", and
   * any other status is accepted.
   */
  function CheckStatus(status: int): (r: Result<(), FboError>)
    ensures r.Ok? <==> status != 0 && StatusName(status).None?
    ensures StatusName(status).Some? ==> r == Err(LogicError(StatusName(status).value))
    ensures status == 0 ==> r == Err(LogicError("Other framebuffer error"))
  {
    match StatusName(status)
    case Some(name) => Err(LogicError(name))
    case None => if status == 0 then Err(LogicError("Other framebuffer error")) else Ok(())
  }

  /** A complete framebuffer passes, and every listed incomplete status is reported. */
  lemma CheckStatusCases()
    ensures CheckStatus(0x8CD5).Ok?
    ensures CheckStatus(GL_FRAMEBUFFER_UNSUPPORTED) == Err(LogicError("GL_FRAMEBUFFER_UNSUPPORTED"))
    ensures forall s :: s in {0x8CD6, 0x8CD7, 0x8CDB, 0x8CDC, 0x8CDD, 0x8D56, 0x8DA8} ==> CheckStatus(s).Err?
  {
  }
}

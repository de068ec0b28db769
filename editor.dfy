/**
 * The editor's selection state machine: on the press edge of the left
 * mouse button the picked object is focused and toggles the selection,
 * and on the release edge focus returns to the selection.  Objects moved
 * by the move tool are recorded as the additions and removals the editor
 * issues; camera rotation is not modelled.
 */
module Editor {
  import opened Objects

  /** What the editor tells the move tool. */
  datatype ToolOp = Add(obj: Object) | Remove(obj: Object)

  /** The editor's state: editable objects, focus, selection, and whether the button is held. */
  datatype EditState = EditState(editable: set<Object>, focused: Object, selected: Object, mouseDown: bool)

  /**
   * `PhysTick` (selection part): given whether the left button is down and
   * the object under the cursor, the new state and the move-tool
   * operations issued.
   */
  function Tick(s: EditState, leftMouse: bool, picked: Object): (r: (EditState, seq<ToolOp>))
    ensures r.0.editable == s.editable
    // Holding or not touching the button changes nothing.
    ensures leftMouse == s.mouseDown ==> r == (s, [])
    // Press edge: focus the pick and hold.
    ensures leftMouse && !s.mouseDown ==> r.0.focused == picked && r.0.mouseDown
    // Clicking the selection deselects it, telling the tool unless it was none.
    ensures leftMouse && !s.mouseDown && picked == s.selected ==>
      r.0.selected == NoneObject && r.1 == (if s.selected != NoneObject then [Remove(s.selected)] else [])
    // Clicking another editable object selects it.
    ensures leftMouse && !s.mouseDown && picked != s.selected && picked in s.editable ==>
      r.0.selected == picked && r.1 == (if picked != NoneObject then [Add(picked)] else [])
    // Clicking anything else leaves the selection alone.
    ensures leftMouse && !s.mouseDown && picked != s.selected && picked !in s.editable ==>
      r.0.selected == s.selected && r.1 == []
    // Release edge: focus returns to the selection.
    ensures !leftMouse && s.mouseDown ==> r == (s.(focused := s.selected, mouseDown := false), [])
  {
    if leftMouse && !s.mouseDown then
      var (selected, ops) :=
        if s.selected == picked then
          (NoneObject, if s.selected != NoneObject then [Remove(s.selected)] else [])
        else if picked in s.editable then
          (picked, if picked != NoneObject then [Add(picked)] else [])
        else (s.selected, []);
      (s.(selected := selected, focused := picked, mouseDown := true), ops)
    else if !leftMouse && s.mouseDown then
      (s.(focused := s.selected, mouseDown := false), [])
    else (s, [])
  }

  /** A selection that a click changes becomes none or an editable object. */
  lemma SelectionChangesToEditable(s: EditState, leftMouse: bool, picked: Object)
    ensures var s' := Tick(s, leftMouse, picked).0;
      s'.selected != s.selected ==> s'.selected == NoneObject || s'.selected in s'.editable
  {
  }

  /** Once the button is up again, focus and selection agree. */
  lemma ReleasedFocusIsSelection(s: EditState, picked: Object)
    requires s.mouseDown
    ensures var s' := Tick(s, false, picked).0; !s'.mouseDown && s'.focused == s'.selected
  {
  }

  /**
   * Clicking an editable, unselected object twice (press, release, press)
   * selects it and then deselects it: the tool is told to add it and then
   * to remove it.
   */
  lemma ClickTwiceToggles(s: EditState, o: Object, anything: Object)
    requires !s.mouseDown && o in s.editable && o != s.selected && o != NoneObject
    ensures var (s1, ops1) := Tick(s, true, o);
      var (s2, ops2) := Tick(s1, false, anything);
      var (s3, ops3) := Tick(s2, true, o);
      s1.selected == o && s3.selected == NoneObject && ops1 + ops2 + ops3 == [Add(o), Remove(o)]
      && s3.focused == o
  {
  }

  /**
   * Selecting another editable object does not tell the tool to drop the
   * previous selection: only the new one is added.
   */
  lemma SelectingAnotherKeepsPrevious(s: EditState, o: Object)
    requires !s.mouseDown && o in s.editable && o != s.selected && o != NoneObject
    ensures Tick(s, true, o).1 == [Add(o)]
  {
  }

  /** `Edit`: the editor. */
  class Edit {
    var state: EditState
    /** Every operation issued to the move tool, in order. */
    var toolOps: seq<ToolOp>

    /**
     * Nothing editable, focus on none, button up.  `selected` is
     * default-constructed, which allocates a fresh object id; it is given.
     */
    constructor (freshSelected: Object)
      ensures state == EditState({}, NoneObject, freshSelected, false) && toolOps == []
    {
      state := EditState({}, NoneObject, freshSelected, false);
      toolOps := [];
    }

    /** `Editable`: allow the object to be selected. */
    method Editable(o: Object)
      modifies this
      ensures state == old(state).(editable := old(state).editable + {o}) && toolOps == old(toolOps)
    {
      state := state.(editable := state.editable + {o});
    }

    /**
     * `PhysTick`: the selection logic, then the three highlights it asks
     * for: the picked object as hovered, the focus, and the selection.
     */
    method PhysTick(leftMouse: bool, picked: Object) returns (hovered: Object, focused: Object, selected: Object)
      modifies this
      ensures state == Tick(old(state), leftMouse, picked).0
      ensures toolOps == old(toolOps) + Tick(old(state), leftMouse, picked).1
      ensures hovered == picked && focused == state.focused && selected == state.selected
    {
      if leftMouse && !state.mouseDown {
        if state.selected == picked {
          if state.selected != NoneObject {
            toolOps := toolOps + [Remove(state.selected)];
          }
          state := state.(selected := NoneObject);
        } else if picked in state.editable {
          state := state.(selected := picked);
          if state.selected != NoneObject {
            toolOps := toolOps + [Add(state.selected)];
          }
        }
        state := state.(focused := picked, mouseDown := true);
      } else if !leftMouse && state.mouseDown {
        state := state.(focused := state.selected, mouseDown := false);
      }
      hovered, focused, selected := picked, state.focused, state.selected;
    }
  }
}

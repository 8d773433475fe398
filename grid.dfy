/** The drag-selection gesture of the label grid: pressing the pointer
    starts a box and fixes whether the gesture selects or deselects, moving
    it recomputes the preview from the cells the box touches, and releasing
    it forces every previewed cell into the gesture's mode. Cell geometry is
    an input: each cell comes with its index and its rectangle. */
module Grid {
  import opened Text
  import opened Labels

  /** A rectangle in screen coordinates, edges included. */
  datatype Rect = Rect(left: int, top: int, right: int, bottom: int)

  /** The drag box: where the press happened and where the pointer is. */
  datatype SelectionBox = SelectionBox(startX: int, startY: int, currentX: int, currentY: int)

  datatype DragAction = Selecting | Deselecting

  /** A grid cell as the container lists it: the parsed index attribute
      (-1 when it does not parse) and the cell's bounding rectangle. */
  datatype Cell = Cell(index: int, rect: Rect)

  function Min(a: int, b: int): int {
    if a <= b then a else b
  }

  function Max(a: int, b: int): int {
    if a <= b then b else a
  }

  /** The box's extent, whichever way it was dragged. */
  function BoxRect(b: SelectionBox): (r: Rect)
    ensures r.left <= r.right && r.top <= r.bottom
    ensures r.left <= b.startX <= r.right && r.left <= b.currentX <= r.right
    ensures r.top <= b.startY <= r.bottom && r.top <= b.currentY <= r.bottom
    ensures (r.left == b.startX || r.left == b.currentX) && (r.right == b.startX || r.right == b.currentX)
    ensures (r.top == b.startY || r.top == b.currentY) && (r.bottom == b.startY || r.bottom == b.currentY)
  {
    Rect(Min(b.startX, b.currentX), Min(b.startY, b.currentY), Max(b.startX, b.currentX), Max(b.startY, b.currentY))
  }

  /** Dragging from either corner to the other covers the same rectangle. */
  lemma BoxRectSymmetric(x0: int, y0: int, x1: int, y1: int)
    ensures BoxRect(SelectionBox(x0, y0, x1, y1)) == BoxRect(SelectionBox(x1, y1, x0, y0))
    ensures BoxRect(SelectionBox(x0, y1, x1, y0)) == BoxRect(SelectionBox(x0, y0, x1, y1))
  {
  }

  /** A cell meets the box unless they are apart on one of the axes; a
      shared edge counts as meeting. */
  predicate Intersects(cell: Rect, box: Rect) {
    !(cell.right < box.left || cell.left > box.right || cell.bottom < box.top || cell.top > box.bottom)
  }

  /** Rectangles that share only an edge or a corner meet. */
  lemma TouchingMeets(cell: Rect, box: Rect)
    requires cell.left <= cell.right && cell.top <= cell.bottom && box.left <= box.right && box.top <= box.bottom
    requires cell.right == box.left && cell.top <= box.bottom && box.top <= cell.bottom
    ensures Intersects(cell, box)
  {
  }

  /** Every index attribute is a cell number or the -1 fallback. */
  predicate IndicesParsed(cells: seq<Cell>) {
    forall k :: 0 <= k < |cells| ==> cells[k].index >= -1
  }

  /** The cells the box meets, by index, leaving out the -1 fallback. */
  function PreviewSet(cells: seq<Cell>, area: Rect): (r: set<nat>)
    requires IndicesParsed(cells)
    ensures forall i: nat :: i in r <==> exists k :: 0 <= k < |cells| && cells[k].index == i && Intersects(cells[k].rect, area)
  {
    if cells == [] then {}
    else
      var init, last := cells[..|cells| - 1], cells[|cells| - 1];
      assert forall k :: 0 <= k < |init| ==> init[k] == cells[k];
      var rest := PreviewSet(init, area);
      if last.index != -1 && Intersects(last.rect, area) then rest + {last.index as nat} else rest
  }

  lemma PreviewSetStep(cells: seq<Cell>, area: Rect, k: nat)
    requires IndicesParsed(cells) && k < |cells|
    ensures IndicesParsed(cells[..k]) && IndicesParsed(cells[..k + 1])
    ensures cells[k].index != -1 && Intersects(cells[k].rect, area) ==>
      PreviewSet(cells[..k + 1], area) == PreviewSet(cells[..k], area) + {cells[k].index as nat}
    ensures !(cells[k].index != -1 && Intersects(cells[k].rect, area)) ==>
      PreviewSet(cells[..k + 1], area) == PreviewSet(cells[..k], area)
  {
    assert cells[..k + 1][..k] == cells[..k];
  }

  /** The `forEach` over the cell elements that builds the new preview. */
  method CellsInBox(cells: seq<Cell>, area: Rect) returns (r: set<nat>)
    requires IndicesParsed(cells)
    ensures r == PreviewSet(cells, area)
  {
    r := {};
    for k := 0 to |cells|
      invariant IndicesParsed(cells[..k])
      invariant r == PreviewSet(cells[..k], area)
    {
      PreviewSetStep(cells, area, k);
      var idx := cells[k].index;
      if Intersects(cells[k].rect, area) && idx != -1 {
        r := r + {idx as nat};
      }
    }
    assert cells[..|cells|] == cells;
  }

  /** The selection with a preview forced into a mode: added when
      selecting, removed when deselecting. */
  function Committed(sel: set<nat>, preview: set<nat>, action: DragAction): (r: set<nat>)
    ensures action == Selecting ==> forall i :: i in r <==> i in sel || i in preview
    ensures action == Deselecting ==> forall i :: i in r <==> i in sel && i !in preview
  {
    if action == Selecting then sel + preview else sel - preview
  }

  /** Forcing one more index is committing a preview one index larger. */
  lemma CommitStep(sel: set<nat>, done: set<nat>, idx: nat, action: DragAction)
    ensures Toggled(Committed(sel, done, action), idx, Some(action == Selecting)) == Committed(sel, done + {idx}, action)
  {
    var lhs := Toggled(Committed(sel, done, action), idx, Some(action == Selecting));
    var rhs := Committed(sel, done + {idx}, action);
    assert forall i :: i in lhs <==> i in rhs;
  }

  /** Taking one more index out of the cells still to do. */
  lemma CommitNext(sel: set<nat>, preview: set<nat>, rest: set<nat>, idx: nat, action: DragAction)
    requires idx in rest && rest <= preview
    ensures Toggled(Committed(sel, preview - rest, action), idx, Some(action == Selecting)) ==
      Committed(sel, preview - (rest - {idx}), action)
  {
    CommitStep(sel, preview - rest, idx, action);
    assert preview - (rest - {idx}) == (preview - rest) + {idx};
  }

  /** A selecting gesture only adds cells and a deselecting one only
      removes them; either way the cells outside the preview keep their
      state. */
  lemma CommittedOutside(sel: set<nat>, preview: set<nat>, action: DragAction, i: nat)
    requires i !in preview
    ensures i in Committed(sel, preview, action) <==> i in sel
  {
  }

  /** The mode a press fixes: deselecting exactly when it lands on a
      selected cell. */
  function ModeFor(pressed: Option<nat>, selected: set<nat>): (a: DragAction)
    ensures a == Deselecting <==> pressed.Some? && pressed.value in selected
  {
    if pressed.Some? && pressed.value in selected then Deselecting else Selecting
  }

  /** A press on a cell released without moving flips that cell, and only
      that cell. */
  lemma ClickFlips(sel: set<nat>, c: nat)
    ensures Committed(sel, {c}, ModeFor(Some(c), sel)) == Toggled(sel, c, None)
  {
    var lhs := Committed(sel, {c}, ModeFor(Some(c), sel));
    assert forall i :: i in lhs <==> i in Toggled(sel, c, None);
  }

  /** The release loop: every previewed cell goes through the sheet's
      toggle, forced on when selecting and off when deselecting. */
  method ForcePreview(sheet: LabelSheet, preview: set<nat>, action: DragAction)
    modifies sheet
    ensures sheet.selected == Committed(old(sheet.selected), preview, action)
    ensures sheet.layout == old(sheet.layout) && sheet.selectedSize == old(sheet.selectedSize)
    ensures sheet.mapping == old(sheet.mapping) && sheet.existingOrders == old(sheet.existingOrders)
  {
    var force := action == Selecting;
    ghost var start := sheet.selected;
    var rest := preview;
    while rest != {}
      invariant rest <= preview
      invariant sheet.selected == Committed(start, preview - rest, action)
      invariant sheet.layout == old(sheet.layout) && sheet.selectedSize == old(sheet.selectedSize)
      invariant sheet.mapping == old(sheet.mapping) && sheet.existingOrders == old(sheet.existingOrders)
      decreases |rest|
    {
      var idx :| idx in rest;
      CommitNext(start, preview, rest, idx, action);
      sheet.ToggleCell(idx, Some(force));
      rest := rest - {idx};
    }
  }

  /** The gesture's state. With no box the grid is idle. */
  class Gesture {
    var box: Option<SelectionBox>
    var action: DragAction
    var preview: set<nat>

    constructor()
      ensures box == None && action == Selecting && preview == {}
    {
      box := None;
      action := Selecting;
      preview := {};
    }

    /** `effectiveSelected`: the selection as the grid paints it, the
        preview applied in the gesture's mode while a box is active. */
    method EffectiveSelected(selected: set<nat>) returns (next: set<nat>)
      ensures box.None? ==> next == selected
      ensures box.Some? ==> next == Committed(selected, preview, action)
    {
      next := selected;
      if box.Some? {
        var rest := preview;
        while rest != {}
          invariant rest <= preview
          invariant next == Committed(selected, preview - rest, action)
          decreases |rest|
        {
          var idx :| idx in rest;
          CommitNext(selected, preview, rest, idx, action);
          if action == Selecting {
            next := next + {idx};
          } else {
            next := next - {idx};
          }
          rest := rest - {idx};
        }
      }
    }

    /** `handlePointerDown`: only the primary button starts a gesture; the
        box starts as a point, the mode comes from the pressed cell, and a
        press on a cell previews that cell. */
    method PointerDown(button: int, x: int, y: int, pressed: Option<nat>, selected: set<nat>)
      modifies this
      ensures button != 0 ==> box == old(box) && action == old(action) && preview == old(preview)
      ensures button == 0 ==> box == Some(SelectionBox(x, y, x, y)) && action == ModeFor(pressed, selected)
      ensures button == 0 && pressed.Some? ==> preview == {pressed.value}
      ensures button == 0 && pressed.None? ==> preview == old(preview)
    {
      if button != 0 {
        return;
      }
      var isDeselecting := pressed.Some? && pressed.value in selected;
      action := if isDeselecting then Deselecting else Selecting;
      box := Some(SelectionBox(x, y, x, y));
      if pressed.Some? {
        preview := {pressed.value};
      }
    }

    /** `handlePointerMove`: ignored when idle; otherwise the box follows
        the pointer and the preview becomes the cells the box meets. The
        mode is left alone. */
    method PointerMove(x: int, y: int, cells: seq<Cell>)
      requires IndicesParsed(cells)
      modifies this
      ensures action == old(action)
      ensures old(box).None? ==> box == old(box) && preview == old(preview)
      ensures old(box).Some? ==> (box == Some(old(box).value.(currentX := x, currentY := y)) &&
        preview == PreviewSet(cells, BoxRect(box.value)))
    {
      if box.None? {
        return;
      }
      var b := box.value.(currentX := x, currentY := y);
      box := Some(b);
      var newPreview := CellsInBox(cells, BoxRect(b));
      preview := newPreview;
    }

    /** `handlePointerUp`: with an active box, every previewed cell is
        forced into the gesture's mode through the sheet's toggle, and the
        gesture ends; when idle nothing happens. */
    method PointerUp(sheet: LabelSheet)
      modifies this, sheet
      ensures action == old(action)
      ensures old(box).None? ==> box == old(box) && preview == old(preview) && sheet.selected == old(sheet.selected)
      ensures old(box).Some? ==> (box == None && preview == {} &&
        sheet.selected == Committed(old(sheet.selected), old(preview), old(action)))
      ensures sheet.layout == old(sheet.layout) && sheet.selectedSize == old(sheet.selectedSize)
      ensures sheet.mapping == old(sheet.mapping) && sheet.existingOrders == old(sheet.existingOrders)
    {
      if box.None? {
        return;
      }
      ForcePreview(sheet, preview, action);
      box := None;
      preview := {};
    }
  }
}

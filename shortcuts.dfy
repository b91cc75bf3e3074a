/**
 * The shortcut handlers of js/modules/shortcuts.js: the module-level
 * `shortcuts` array, the edit-mode flag, the edit and drag indices, and the
 * values of the URL inputs in the edit form. Each handler is proved against
 * the rules in module `ShortcutGrid`.
 */
module Shortcuts {
  import opened Common
  import opened Text
  import opened ShortcutGrid

  class Board {
    var shortcuts: seq<Shortcut>
    var isEditMode: bool
    var currentEditIndex: int
    var currentEditPosition: int
    var dragSourcePosition: int
    /** The values of the `.shortcut-url` inputs, in document order. */
    var urlInputs: seq<string>

    constructor ()
      ensures shortcuts == [] && !isEditMode && urlInputs == []
      ensures currentEditIndex == -1 && currentEditPosition == -1 && dragSourcePosition == -1
    {
      shortcuts := [];
      isEditMode := false;
      currentEditIndex, currentEditPosition, dragSourcePosition := -1, -1, -1;
      urlInputs := [];
    }

    /** `toggleEditMode`. */
    method ToggleEditMode()
      modifies this`isEditMode
      ensures isEditMode == !old(isEditMode)
    {
      isEditMode := !isEditMode;
    }

    /**
     * The placement loop of `renderShortcuts`: returns the 18 cells and writes
     * back the position of every shortcut it places in an empty cell.
     */
    method RenderShortcuts() returns (grid: Grid)
      modifies this`shortcuts
      ensures (grid, shortcuts) == Layout(old(shortcuts))
    {
      grid := seq(GridSize, _ => None);
      var items := shortcuts;
      var i := 0;
      while i < |items|
        invariant 0 <= i <= |items| == |shortcuts|
        invariant (grid, items[..i]) == Layout(shortcuts[..i])
        invariant items[i..] == shortcuts[i..]
      {
        var s := items[i];
        assert s == shortcuts[i];
        if s.position.Some? && s.position.value < GridSize {
          if s.position.value >= 0 {
            grid := grid[s.position.value := Some(i)];
          }
        } else {
          var e := FirstEmpty(grid);
          if e != -1 {
            grid := grid[e := Some(i)];
            items := items[i := s.(position := Some(e))];
          }
        }
        assert shortcuts[..i + 1][..i] == shortcuts[..i];
        assert items[..i + 1] == items[..i] + [items[i]];
        assert items[i + 1..] == shortcuts[i + 1..];
        i := i + 1;
      }
      assert shortcuts[..i] == shortcuts && items[..i] == items;
      shortcuts := items;
    }

    /** A click on the shortcut at list index `index` opens it only outside edit mode and for an index in range. */
    method ClickShortcut(index: int) returns (launched: Option<Shortcut>)
      ensures launched.Some? <==> !isEditMode && 0 <= index < |shortcuts|
      ensures launched.Some? ==> launched.value == shortcuts[index]
    {
      if index < 0 || index >= |shortcuts| {
        return None;
      }
      if isEditMode {
        return None;
      }
      return Some(shortcuts[index]);
    }

    /** `ensureEmptyInputExists`: scan for a blank input and add one when there is none. */
    method EnsureEmptyInputExists()
      modifies this`urlInputs
      ensures urlInputs == WithBlank(old(urlInputs)) && HasBlank(urlInputs)
    {
      var hasEmptyInput := false;
      var i := 0;
      while i < |urlInputs|
        invariant 0 <= i <= |urlInputs|
        invariant hasEmptyInput <==> exists k :: 0 <= k < i && Trim(urlInputs[k]) == []
      {
        if Trim(urlInputs[i]) == [] {
          hasEmptyInput := true;
        }
        i := i + 1;
      }
      if !hasEmptyInput {
        urlInputs := urlInputs + [""];
      }
    }

    /** `addUrlInput`: append an input holding `url`, then make sure a blank one exists. */
    method AddUrlInput(url: string)
      modifies this`urlInputs
      ensures urlInputs == WithBlank(old(urlInputs) + [url])
    {
      urlInputs := urlInputs + [url];
      EnsureEmptyInputExists();
    }

    /** A remove button's click: drop that input, then make sure a blank one exists. */
    method RemoveUrlInput(k: nat)
      requires k < |urlInputs|
      modifies this`urlInputs
      ensures urlInputs == WithBlank(old(urlInputs)[..k] + old(urlInputs)[k + 1..])
    {
      urlInputs := urlInputs[..k] + urlInputs[k + 1..];
      EnsureEmptyInputExists();
    }

    /** An `input` event: the input's new value, then a blank input is ensured. */
    method EditUrlInput(k: nat, value: string)
      requires k < |urlInputs|
      modifies this`urlInputs
      ensures urlInputs == WithBlank(old(urlInputs)[k := value])
    {
      urlInputs := urlInputs[k := value];
      EnsureEmptyInputExists();
    }

    /** `updateRemoveButtons`: count the non-blank inputs, then decide each button. */
    method UpdateRemoveButtons() returns (shown: seq<bool>)
      ensures shown == RemoveButtonsShown(urlInputs)
      ensures forall k :: 0 <= k < |shown| ==>
        (shown[k] <==> Trim(urlInputs[k]) != [] && |TrimmedUrls(urlInputs)| >= 2)
    {
      var inputs := urlInputs;
      var filledInputsCount := 0;
      var i := 0;
      while i < |inputs|
        invariant 0 <= i <= |inputs|
        invariant filledInputsCount == |TrimmedUrls(inputs[..i])|
      {
        TrimmedUrlsSnoc(inputs, i);
        if Trim(inputs[i]) != [] {
          filledInputsCount := filledInputsCount + 1;
        }
        i := i + 1;
      }
      assert inputs[..i] == inputs;
      shown := [];
      i := 0;
      while i < |inputs|
        invariant 0 <= i <= |inputs| && |shown| == i
        invariant forall k :: 0 <= k < i ==> shown[k] == (Trim(inputs[k]) != [] && filledInputsCount >= 2)
      {
        var visible := if Trim(inputs[i]) == [] then false else if filledInputsCount <= 1 then false else true;
        shown := shown + [visible];
        i := i + 1;
      }
    }

    /**
     * `openEditModal(position, index = -1)`: store the first argument as the
     * edit position and the second as the edit index, and fill the URL
     * inputs from the shortcut at that index when there is one.
     */
    method OpenEditModal(position: int, index: int)
      modifies this`currentEditPosition, this`currentEditIndex, this`urlInputs
      ensures currentEditPosition == position && currentEditIndex == index
      ensures urlInputs == WithBlank(Prefilled(if index != -1 && 0 <= index < |shortcuts| then shortcuts[index].urls else []))
      ensures HasBlank(urlInputs)
    {
      currentEditPosition := position;
      currentEditIndex := index;
      urlInputs := [];
      if index != -1 && 0 <= index < |shortcuts| {
        var urls := shortcuts[index].urls;
        var i := 0;
        while i < |urls|
          invariant 0 <= i <= |urls|
          invariant urlInputs == Prefilled(urls[..i])
          invariant currentEditPosition == position && currentEditIndex == index
        {
          assert urls[..i + 1][..i] == urls[..i];
          AddUrlInput(urls[i]);
          i := i + 1;
        }
        assert urls[..i] == urls;
      }
      EnsureEmptyInputExists();
    }

    /** A double click on a shown shortcut in edit mode edits it: `openEditModal(position, index)`. */
    method DblClickShortcut(index: int, position: int)
      modifies this`currentEditPosition, this`currentEditIndex, this`urlInputs
      ensures isEditMode && 0 <= index < |shortcuts| ==>
        currentEditPosition == position && currentEditIndex == index && urlInputs == WithBlank(Prefilled(shortcuts[index].urls))
      ensures !(isEditMode && 0 <= index < |shortcuts|) ==>
        currentEditPosition == old(currentEditPosition) && currentEditIndex == old(currentEditIndex) && urlInputs == old(urlInputs)
    {
      if !isEditMode {
        return;
      }
      if index < 0 || index >= |shortcuts| {
        return;
      }
      OpenEditModal(position, index);
    }

    /**
     * The grid's listeners for an empty cell in edit mode, the double-click
     * one and the single-click one: `openEditModal(position, -1)`, which
     * prepares a new shortcut for that cell.
     */
    method EmptyCellAdd(cell: int)
      modifies this`currentEditPosition, this`currentEditIndex, this`urlInputs
      ensures isEditMode ==> currentEditPosition == cell && currentEditIndex == -1 && urlInputs == [""]
      ensures !isEditMode ==>
        currentEditPosition == old(currentEditPosition) && currentEditIndex == old(currentEditIndex) && urlInputs == old(urlInputs)
    {
      if isEditMode {
        OpenEditModal(cell, -1);
        assert Prefilled([]) == [];
        assert !HasBlank([]);
      }
    }

    /**
     * The listener `renderShortcuts` and `updateDraggable` may each attach to
     * an empty cell: its call passes `(-1, position)`, so the cell number
     * becomes the edit index, and the inputs are prefilled from the shortcut
     * at that list index when there is one.
     */
    method CellClickListener(cell: int)
      modifies this`currentEditPosition, this`currentEditIndex, this`urlInputs
      ensures isEditMode ==> currentEditPosition == -1 && currentEditIndex == cell
      ensures isEditMode ==> urlInputs == WithBlank(Prefilled(if 0 <= cell < |shortcuts| then shortcuts[cell].urls else []))
      ensures !isEditMode ==>
        currentEditPosition == old(currentEditPosition) && currentEditIndex == old(currentEditIndex) && urlInputs == old(urlInputs)
    {
      if isEditMode {
        OpenEditModal(-1, cell);
      }
    }

    /**
     * A single click on an empty cell: the cell's own listeners run first
     * (one, or two when `renderShortcuts` attached one in edit mode and
     * `updateDraggable` found the cell unmarked), then the click bubbles to
     * the grid's listener. `openEditModal` resets everything it sets, so the
     * last call decides, and the swapped arguments of the cell listeners
     * leave no trace.
     */
    method ClickEmptyCell(cell: int, twoCellListeners: bool)
      modifies this`currentEditPosition, this`currentEditIndex, this`urlInputs
      ensures isEditMode ==> currentEditPosition == cell && currentEditIndex == -1 && urlInputs == [""]
      ensures !isEditMode ==>
        currentEditPosition == old(currentEditPosition) && currentEditIndex == old(currentEditIndex) && urlInputs == old(urlInputs)
    {
      CellClickListener(cell);
      if twoCellListeners {
        CellClickListener(cell);
      }
      EmptyCellAdd(cell);
    }

    /**
     * The context menu's "edit" item, as written: `openEditModal(index)`
     * stores the list index as the edit position and leaves the edit index
     * at -1, so the form opens empty, with a single blank URL input.
     */
    method ContextMenuEditAsWritten(index: int)
      requires 0 <= index < |shortcuts|
      modifies this`currentEditPosition, this`currentEditIndex, this`urlInputs
      ensures currentEditPosition == index && currentEditIndex == -1
      ensures urlInputs == [""]
    {
      OpenEditModal(index, -1);
      assert Prefilled([]) == [];
      assert !HasBlank([]);
    }

    /** The context menu's "edit" item as intended: edit the shortcut at `index`, shown at cell `position`. */
    method ContextMenuEdit(index: int, position: int)
      requires 0 <= index < |shortcuts|
      modifies this`currentEditPosition, this`currentEditIndex, this`urlInputs
      ensures currentEditPosition == position && currentEditIndex == index
      ensures urlInputs == WithBlank(Prefilled(shortcuts[index].urls))
    {
      OpenEditModal(position, index);
    }

    /**
     * `saveShortcut`, with the outcome of the default-icon lookup given:
     * `defaultIcon` is the downloaded (or fallback) icon, None when the first
     * URL does not parse. The list is edited, re-rendered, and the edit
     * indices are reset.
     */
    method SaveShortcut(s: Shortcut, defaultIcon: Option<string>) returns (grid: Grid)
      requires currentEditIndex == -1 || 0 <= currentEditIndex < |shortcuts|
      modifies this`shortcuts, this`currentEditIndex, this`currentEditPosition
      ensures var s' := if s.icon == [] && |s.urls| > 0 && defaultIcon.Some? then s.(icon := defaultIcon.value) else s;
        (grid, shortcuts) == Layout(Saved(old(shortcuts), old(currentEditIndex), old(currentEditPosition), s'))
      ensures currentEditIndex == -1 && currentEditPosition == -1
    {
      var shortcut := s;
      if shortcut.icon == [] && |shortcut.urls| > 0 && defaultIcon.Some? {
        shortcut := shortcut.(icon := defaultIcon.value);
      }
      ghost var saved := Saved(shortcuts, currentEditIndex, currentEditPosition, shortcut);
      if currentEditIndex != -1 {
        shortcuts := shortcuts[currentEditIndex := shortcut];
        if shortcuts[currentEditIndex].position.None? && currentEditPosition != -1 {
          shortcuts := shortcuts[currentEditIndex := shortcuts[currentEditIndex].(position := Some(currentEditPosition))];
        }
      } else {
        if currentEditPosition != -1 {
          shortcut := shortcut.(position := Some(currentEditPosition));
        }
        shortcuts := shortcuts + [shortcut];
      }
      assert shortcuts == saved;
      grid := RenderShortcuts();
      currentEditIndex := -1;
      currentEditPosition := -1;
    }

    /**
     * The form's submit handler: validate the name and the URL inputs and,
     * when they pass, save the shortcut they describe.
     */
    method HandleFormSubmit(name: string, icon: string, defaultIcon: Option<string>) returns (outcome: Submission)
      requires currentEditIndex == -1 || 0 <= currentEditIndex < |shortcuts|
      modifies this`shortcuts, this`currentEditIndex, this`currentEditPosition
      ensures outcome == Validate(name, urlInputs, icon)
      ensures !outcome.Ready? ==>
        shortcuts == old(shortcuts) && currentEditIndex == old(currentEditIndex)
        && currentEditPosition == old(currentEditPosition)
      ensures outcome.Ready? ==>
        var s := outcome.shortcut;
        var s' := if s.icon == [] && defaultIcon.Some? then s.(icon := defaultIcon.value) else s;
        shortcuts == Layout(Saved(old(shortcuts), old(currentEditIndex), old(currentEditPosition), s')).1
        && currentEditIndex == -1 && currentEditPosition == -1
    {
      var trimmedName := Trim(name);
      if trimmedName == [] {
        return NameMissing;
      }
      var inputs := urlInputs;
      var urls: seq<string> := [];
      var hasEmptyRequired := false;
      var i := 0;
      while i < |inputs|
        invariant 0 <= i <= |inputs|
        invariant urls == TrimmedUrls(inputs[..i])
        invariant hasEmptyRequired <==> i > 0 && Trim(inputs[0]) == []
        invariant unchanged(this)
      {
        TrimmedUrlsSnoc(inputs, i);
        var url := Trim(inputs[i]);
        if i == 0 && url == [] {
          hasEmptyRequired := true;
        }
        if url != [] {
          urls := urls + [url];
        }
        i := i + 1;
      }
      assert inputs[..i] == inputs;
      if hasEmptyRequired {
        return FirstUrlMissing;
      }
      if |urls| == 0 {
        return NoUrls;
      }
      var shortcut := Shortcut(trimmedName, urls, icon, None);
      var _ := SaveShortcut(shortcut, defaultIcon);
      return Ready(shortcut);
    }

    /** `handleDeleteShortcut`: without an edit index nothing happens; otherwise `splice` it out and re-render. */
    method HandleDeleteShortcut() returns (grid: Option<Grid>)
      modifies this`shortcuts
      ensures currentEditIndex == -1 ==> shortcuts == old(shortcuts) && grid.None?
      ensures currentEditIndex != -1 ==> grid.Some? && (grid.value, shortcuts) == Layout(Deleted(old(shortcuts), currentEditIndex))
    {
      if currentEditIndex == -1 {
        return None;
      }
      var start := if currentEditIndex < 0 then Max(|shortcuts| + currentEditIndex, 0) else currentEditIndex;
      if start < |shortcuts| {
        shortcuts := shortcuts[..start] + shortcuts[start + 1..];
      }
      var g := RenderShortcuts();
      return Some(g);
    }

    /** `handleDragStart` / `handleDragEnd`. */
    method DragStart(position: int)
      modifies this`dragSourcePosition
      ensures dragSourcePosition == position
    {
      dragSourcePosition := position;
    }

    method DragEnd()
      modifies this`dragSourcePosition
      ensures dragSourcePosition == -1
    {
      dragSourcePosition := -1;
    }

    /**
     * `handleDrop` on cell `target`: exchange positions between the dragged
     * shortcut and the one at the target (or move it there), then re-render.
     */
    method HandleDrop(target: int) returns (grid: Option<Grid>)
      modifies this`shortcuts
      ensures Dropped(old(shortcuts), dragSourcePosition, target).None? ==> shortcuts == old(shortcuts) && grid.None?
      ensures Dropped(old(shortcuts), dragSourcePosition, target).Some? ==>
        grid.Some? && (grid.value, shortcuts) == Layout(Dropped(old(shortcuts), dragSourcePosition, target).value)
    {
      if dragSourcePosition == target || dragSourcePosition == -1 {
        return None;
      }
      var sourceIndex := FindAt(shortcuts, dragSourcePosition);
      var targetIndex := FindAt(shortcuts, target);
      if sourceIndex == -1 {
        return None;
      }
      if targetIndex != -1 {
        var tempPosition := shortcuts[sourceIndex].position;
        shortcuts := shortcuts[sourceIndex := shortcuts[sourceIndex].(position := shortcuts[targetIndex].position)];
        shortcuts := shortcuts[targetIndex := shortcuts[targetIndex].(position := tempPosition)];
      } else {
        shortcuts := shortcuts[sourceIndex := shortcuts[sourceIndex].(position := Some(target))];
      }
      var g := RenderShortcuts();
      return Some(g);
    }
  }

  /**
   * A click on an empty cell followed by a save appends the new shortcut,
   * keeps every existing one, and shows the new one in the clicked cell.
   */
  lemma {:induction false} EmptyCellClickAdds(items: seq<Shortcut>, cell: nat, s: Shortcut)
    requires cell < GridSize && s.position.None?
    requires forall k :: 0 <= k < |items| ==> items[k].position != Some(cell as int)
    ensures var saved := Saved(items, -1, cell, s);
      saved[..|items|] == items && |saved| == |items| + 1
      && Layout(saved).0[cell] == Some(|items|)
  {
    var saved := Saved(items, -1, cell, s);
    assert saved[|items|].position == Some(cell as int);
    LayoutExplicitShown(saved, |items|);
  }

  /**
   * As written, saving after the context menu's "edit" keeps the edited
   * shortcut and appends whatever was typed into the empty form, placed at
   * the list index taken for a cell position.
   */
  lemma ContextEditAsWrittenDuplicates(items: seq<Shortcut>, index: nat, s: Shortcut)
    requires index < |items|
    ensures |Saved(items, -1, index, s)| == |items| + 1
    ensures Saved(items, -1, index, s)[..|items|] == items
    ensures Saved(items, -1, index, s)[|items|] == s.(position := Some(index as int))
  {
  }

  /** As intended, saving after an edit replaces the shortcut in place: the list keeps its length and the others. */
  lemma ContextEditReplaces(items: seq<Shortcut>, index: nat, position: int, s: Shortcut)
    requires index < |items|
    ensures |Saved(items, index, position, s)| == |items|
    ensures forall k :: 0 <= k < |items| && k != index ==> Saved(items, index, position, s)[k] == items[k]
    ensures Saved(items, index, position, s)[index] == (if s.position.None? && position != -1 then s.(position := Some(position)) else s)
  {
  }
}

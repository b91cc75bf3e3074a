/**
 * The global event rules of js/modules/core.js over an abstract page: the
 * ESC handler that closes one overlay per press, the double-click router
 * and the single-click filter. Each overlay is represented by whether it is
 * visible; the dialogs of `.edit-modal, .city-edit-modal, .format-dialog`
 * and the `.city-menu` menus are sequences in document order.
 * `toggleEditMode`, reached through a dynamic import, is taken to run.
 */
module CoreEvents {

  /** The overlays ESC can close, and whether the page is in edit mode. */
  datatype Screen = Screen(
    imageEditor: bool,
    iconUrlDialog: bool,
    modals: seq<bool>,
    menus: seq<bool>,
    editMode: bool)

  /** The index of the first visible entry, or the length when none is. */
  function FirstVisible(s: seq<bool>): (r: nat)
    ensures r <= |s|
    ensures r < |s| ==> s[r]
    ensures forall k :: 0 <= k < r ==> !s[k]
  {
    if s == [] then 0 else if s[0] then 0 else 1 + FirstVisible(s[1..])
  }

  /** How many entries are visible. */
  function CountVisible(s: seq<bool>): nat
  {
    if s == [] then 0 else (if s[0] then 1 else 0) + CountVisible(s[1..])
  }

  /** Hiding a visible entry lowers the count by one. */
  lemma {:induction false} CountHide(s: seq<bool>, i: nat)
    requires i < |s| && s[i]
    ensures CountVisible(s[i := false]) == CountVisible(s) - 1
  {
    if i > 0 {
      CountHide(s[1..], i - 1);
      assert s[i := false][1..] == s[1..][i - 1 := false];
    }
  }

  /** Nothing visible exactly when the count is zero. */
  lemma {:induction false} CountZero(s: seq<bool>)
    ensures CountVisible(s) == 0 <==> FirstVisible(s) == |s|
  {
    if s != [] {
      CountZero(s[1..]);
    }
  }

  /** All the overlays open on the page. */
  function OpenOverlays(sc: Screen): nat
  {
    (if sc.imageEditor then 1 else 0) + (if sc.iconUrlDialog then 1 else 0)
    + CountVisible(sc.modals) + CountVisible(sc.menus)
  }

  /**
   * What one ESC press leaves: the image editor first, then the icon-URL
   * dialog, then the first visible dialog, then the first visible menu; and
   * only when none of these was open, edit mode is left.
   */
  function EscapeResult(sc: Screen): Screen
  {
    if sc.imageEditor then sc.(imageEditor := false)
    else if sc.iconUrlDialog then sc.(iconUrlDialog := false)
    else if FirstVisible(sc.modals) < |sc.modals| then sc.(modals := sc.modals[FirstVisible(sc.modals) := false])
    else if FirstVisible(sc.menus) < |sc.menus| then sc.(menus := sc.menus[FirstVisible(sc.menus) := false])
    else if sc.editMode then sc.(editMode := false)
    else sc
  }

  /**
   * ESC closes exactly one overlay when any is open and then keeps edit
   * mode; with nothing open it leaves edit mode and changes nothing else.
   */
  lemma EscapeClosesOne(sc: Screen)
    ensures OpenOverlays(sc) > 0 ==>
      OpenOverlays(EscapeResult(sc)) == OpenOverlays(sc) - 1 && EscapeResult(sc).editMode == sc.editMode
    ensures OpenOverlays(sc) == 0 ==> EscapeResult(sc) == sc.(editMode := false)
  {
    CountZero(sc.modals);
    CountZero(sc.menus);
    if !sc.imageEditor && !sc.iconUrlDialog {
      if FirstVisible(sc.modals) < |sc.modals| {
        CountHide(sc.modals, FirstVisible(sc.modals));
      } else if FirstVisible(sc.menus) < |sc.menus| {
        CountHide(sc.menus, FirstVisible(sc.menus));
      }
    }
  }

  /** A higher-priority overlay shields the others: with the image editor open nothing else changes. */
  lemma EscapePriority(sc: Screen)
    requires sc.imageEditor
    ensures EscapeResult(sc) == sc.(imageEditor := false)
  {
  }

  /** Pressing ESC once per open overlay, plus once, closes everything and leaves edit mode. */
  lemma {:induction false} EscapeRepeatedly(sc: Screen)
    ensures OpenOverlays(EscapeN(sc, OpenOverlays(sc) + 1)) == 0
    ensures !EscapeN(sc, OpenOverlays(sc) + 1).editMode
    decreases OpenOverlays(sc)
  {
    EscapeClosesOne(sc);
    if OpenOverlays(sc) > 0 {
      var next := EscapeResult(sc);
      EscapeRepeatedly(next);
      assert EscapeN(sc, OpenOverlays(sc) + 1) == EscapeN(next, OpenOverlays(next) + 1);
    }
  }

  /** `n` presses of ESC. */
  function EscapeN(sc: Screen, n: nat): Screen
    decreases n
  {
    if n == 0 then sc else EscapeN(EscapeResult(sc), n - 1)
  }

  /** The page as the ESC listener sees and changes it. */
  class Page {
    var imageEditor: bool
    var iconUrlDialog: bool
    var modals: seq<bool>
    var menus: seq<bool>
    var editMode: bool
    /** `isModalBeingClosed`. */
    var closing: bool

    function Current(): Screen
      reads this
    {
      Screen(imageEditor, iconUrlDialog, modals, menus, editMode)
    }

    constructor (sc: Screen)
      ensures Current() == sc && !closing
    {
      imageEditor := sc.imageEditor;
      iconUrlDialog := sc.iconUrlDialog;
      modals := sc.modals;
      menus := sc.menus;
      editMode := sc.editMode;
      closing := false;
    }

    /**
     * The `keydown` listener for Escape: the flag is reset, the first open
     * overlay in priority order is hidden and flagged, and only when none
     * was open is edit mode toggled off.
     */
    method Escape()
      modifies this
      ensures Current() == EscapeResult(old(Current()))
      ensures closing <==> OpenOverlays(old(Current())) > 0
    {
      CountZero(modals);
      CountZero(menus);
      closing := false;
      if imageEditor {
        closing := true;
        imageEditor := false;
        return;
      }
      if iconUrlDialog {
        closing := true;
        iconUrlDialog := false;
        return;
      }
      var i := 0;
      while i < |modals|
        invariant 0 <= i <= |modals|
        invariant forall k :: 0 <= k < i ==> !modals[k]
        invariant modals == old(modals) && !closing
      {
        if modals[i] {
          closing := true;
          modals := modals[i := false];
          return;
        }
        i := i + 1;
      }
      var j := 0;
      while j < |menus|
        invariant 0 <= j <= |menus|
        invariant forall k :: 0 <= k < j ==> !menus[k]
        invariant menus == old(menus) && !closing
      {
        if menus[j] {
          closing := true;
          menus := menus[j := false];
          return;
        }
        j := j + 1;
      }
      if !closing && editMode {
        editMode := !editMode;
      }
    }
  }

  /** Where a double-click lands. */
  datatype Target = Target(
    inOpenModal: bool,
    isBackground: bool,
    inShortcut: bool,
    inDate: bool,
    inTime: bool,
    inCity: bool)

  datatype DblAction = Ignore | EnterEditMode | OpenDateEditor | OpenTimeEditor | CityEdit | SelectBackground

  /**
   * `handleGlobalDblClick`. `inOpenModal` is a target inside a dialog whose
   * inline display is block or flex; `hasCitiesDisplay` whether the page has
   * the `#cities-display` element the city event is sent to.
   */
  function DblClickAction(selectingBackground: bool, editMode: bool, t: Target, hasCitiesDisplay: bool): DblAction
  {
    if selectingBackground then Ignore
    else if t.inOpenModal then Ignore
    else if t.inShortcut then Ignore
    else if t.isBackground && !editMode then EnterEditMode
    else if t.inDate then (if !editMode then EnterEditMode else OpenDateEditor)
    else if t.inTime then (if !editMode then EnterEditMode else OpenTimeEditor)
    else if t.inCity then (if !editMode then EnterEditMode else if hasCitiesDisplay then CityEdit else Ignore)
    else if t.isBackground && editMode then SelectBackground
    else if !editMode then EnterEditMode
    else Ignore
  }

  /** Ignored while a background is being chosen, inside an open dialog, and on a shortcut. */
  predicate DblClickBlocked(selectingBackground: bool, t: Target)
  {
    selectingBackground || t.inOpenModal || t.inShortcut
  }

  /** Outside edit mode a double-click does one thing: unless blocked, it enters edit mode. */
  lemma DblClickOutsideEditMode(selectingBackground: bool, t: Target, hasCitiesDisplay: bool)
    ensures DblClickAction(selectingBackground, false, t, hasCitiesDisplay) ==
      if DblClickBlocked(selectingBackground, t) then Ignore else EnterEditMode
  {
  }

  /**
   * In edit mode a double-click never toggles edit mode. Unless blocked it
   * goes to the date editor, the time editor, the city dialog or the
   * background picker, in that order of precedence.
   */
  lemma DblClickInEditMode(selectingBackground: bool, t: Target, hasCitiesDisplay: bool)
    ensures var r := DblClickAction(selectingBackground, true, t, hasCitiesDisplay);
      r != EnterEditMode
      && (DblClickBlocked(selectingBackground, t) ==> r == Ignore)
      && (!DblClickBlocked(selectingBackground, t) ==>
            r == (if t.inDate then OpenDateEditor
                  else if t.inTime then OpenTimeEditor
                  else if t.inCity then (if hasCitiesDisplay then CityEdit else Ignore)
                  else if t.isBackground then SelectBackground
                  else Ignore))
  {
  }

  /** Edit mode changes on a double-click exactly when it is off and the click is not blocked. */
  lemma DblClickTogglesIff(selectingBackground: bool, editMode: bool, t: Target, hasCitiesDisplay: bool)
    ensures DblClickAction(selectingBackground, editMode, t, hasCitiesDisplay) == EnterEditMode
      <==> !editMode && !DblClickBlocked(selectingBackground, t)
  {
  }

  /**
   * The single-click listener: in edit mode, outside background selection,
   * not right after a double-click, away from the listed widgets and on the
   * background, it schedules leaving edit mode.
   */
  function ClickSchedulesExit(editMode: bool, selectingBackground: bool, justHandledDblClick: bool,
                              onWidget: bool, isBackground: bool): (r: bool)
  {
    if !editMode then false
    else if selectingBackground then false
    else if justHandledDblClick then false
    else if onWidget then false
    else isBackground
  }

  /** A click can only ever leave edit mode, and only from the bare background. */
  lemma ClickOnlyLeavesEditMode(editMode: bool, selectingBackground: bool, justHandledDblClick: bool,
                                onWidget: bool, isBackground: bool)
    ensures ClickSchedulesExit(editMode, selectingBackground, justHandledDblClick, onWidget, isBackground)
      <==> editMode && isBackground && !selectingBackground && !justHandledDblClick && !onWidget
  {
  }
}

/**
 * The rules of the shortcut grid (js/modules/shortcuts.js) as functions:
 * the 18-cell placement `renderShortcuts` performs, the position exchange of
 * a drop, the URL list a submitted form yields, and the list edits of save
 * and delete. The imperative handlers in module `Shortcuts` are proved
 * against these.
 */
module ShortcutGrid {
  import opened Common
  import opened Text

  /** A stored shortcut; `position` is `undefined` until the grid assigns one. */
  datatype Shortcut = Shortcut(name: string, urls: seq<string>, icon: string, position: Option<int>)

  /** Three rows of six cells. */
  const GridSize: nat := 18

  /** Cell → index in the shortcut list of the item shown there. */
  type Grid = seq<Option<nat>>

  function EmptyGrid(): (g: Grid)
    ensures |g| == GridSize && forall c :: 0 <= c < |g| ==> g[c].None?
  {
    seq(GridSize, _ => None)
  }

  /** `grid.findIndex(item => item === null)`. */
  function FirstEmpty(g: Grid): (r: int)
    ensures -1 <= r < |g|
    ensures r == -1 <==> forall c :: 0 <= c < |g| ==> g[c].Some?
    ensures r >= 0 ==> g[r].None? && forall c :: 0 <= c < r ==> g[c].Some?
  {
    if |g| == 0 then -1
    else if g[0].None? then 0
    else
      var r := FirstEmpty(g[1..]);
      assert forall c :: 1 <= c < |g| ==> g[c] == g[1..][c - 1];
      if r == -1 then -1 else r + 1
  }

  /** The shortcut names its own cell: a position that is defined and below 18. */
  predicate Explicit(s: Shortcut) {
    s.position.Some? && s.position.value < GridSize
  }

  /**
   * One step of the placement loop for the shortcut at index `j`: an explicit
   * position takes (or overwrites) its cell — a negative one writes a
   * property of the array, not a cell — and any other shortcut takes the
   * lowest empty cell, which is written back as its position.
   */
  function PlaceOne(g: Grid, s: Shortcut, j: nat): (Grid, Shortcut)
    requires |g| == GridSize
  {
    if Explicit(s) then
      (if s.position.value >= 0 then g[s.position.value := Some(j)] else g, s)
    else
      var e := FirstEmpty(g);
      if e == -1 then (g, s) else (g[e := Some(j)], s.(position := Some(e)))
  }

  /** The grid `renderShortcuts` builds and the list after its position write-back. */
  function Layout(items: seq<Shortcut>): (r: (Grid, seq<Shortcut>))
    ensures |r.0| == GridSize && |r.1| == |items|
  {
    if |items| == 0 then (EmptyGrid(), [])
    else
      var n := |items| - 1;
      var (g, out) := Layout(items[..n]);
      var (g2, s2) := PlaceOne(g, items[n], n);
      (g2, out + [s2])
  }

  /**
   * Placement changes nothing but positions, and only those of shortcuts
   * without an explicit one, each of which gets a cell number.
   */
  lemma {:induction false} LayoutOnlyAssignsPositions(items: seq<Shortcut>)
    ensures var out := Layout(items).1;
      forall j :: 0 <= j < |items| ==>
        out[j] == items[j].(position := out[j].position)
        && (out[j].position != items[j].position ==>
              !Explicit(items[j]) && out[j].position.Some? && 0 <= out[j].position.value < GridSize)
  {
    if |items| > 0 {
      var n := |items| - 1;
      LayoutOnlyAssignsPositions(items[..n]);
      var out := Layout(items).1;
      forall j | 0 <= j < |items|
        ensures out[j] == items[j].(position := out[j].position)
        ensures out[j].position != items[j].position ==>
              !Explicit(items[j]) && out[j].position.Some? && 0 <= out[j].position.value < GridSize
      {
        if j < n {
          assert out[j] == Layout(items[..n]).1[j] && items[j] == items[..n][j];
        }
      }
    }
  }

  /** Every cell shows a shortcut whose (written-back) position is that cell. */
  lemma {:induction false} LayoutShowsOwnPosition(items: seq<Shortcut>)
    ensures var (g, out) := Layout(items);
      forall c :: 0 <= c < GridSize && g[c].Some? ==> g[c].value < |items| && out[g[c].value].position == Some(c)
  {
    if |items| > 0 {
      var n := |items| - 1;
      LayoutShowsOwnPosition(items[..n]);
      var (g0, out0) := Layout(items[..n]);
      var (g, out) := Layout(items);
      forall c | 0 <= c < GridSize && g[c].Some?
        ensures g[c].value < |items| && out[g[c].value].position == Some(c)
      {
        if g[c] != g0[c] {
          assert g[c] == Some(n);
        } else {
          assert out[g0[c].value] == out0[g0[c].value];
        }
      }
    }
  }

  /** Once a cell is filled it stays filled: placement only ever writes into cells. */
  lemma {:induction false} LayoutPrefixFilled(items: seq<Shortcut>, k: nat, c: nat)
    requires k <= |items| && c < GridSize && Layout(items[..k]).0[c].Some?
    ensures Layout(items).0[c].Some?
    decreases |items|
  {
    if k < |items| {
      var n := |items| - 1;
      assert items[..n][..k] == items[..k];
      LayoutPrefixFilled(items[..n], k, c);
    } else {
      assert items[..k] == items;
    }
  }

  /** A shortcut with an explicit cell that no later shortcut claims is shown in that cell. */
  lemma {:induction false} LayoutExplicitShown(items: seq<Shortcut>, j: nat)
    requires j < |items| && Explicit(items[j]) && items[j].position.value >= 0
    requires forall k :: j < k < |items| ==> items[k].position != items[j].position
    ensures Layout(items).0[items[j].position.value] == Some(j)
  {
    var n := |items| - 1;
    if j < n {
      assert items[..n][j] == items[j];
      LayoutExplicitShown(items[..n], j);
    }
  }

  /** A shortcut left without a cell (its position is neither explicit nor assigned) means the grid is full. */
  lemma {:induction false} LayoutUnplacedMeansFull(items: seq<Shortcut>, j: nat)
    requires j < |items| && !Explicit(items[j]) && Layout(items).1[j].position == items[j].position
    ensures forall c :: 0 <= c < GridSize ==> Layout(items).0[c].Some?
    decreases |items|
  {
    var n := |items| - 1;
    if j < n {
      assert items[..n][j] == items[j] && Layout(items).1[j] == Layout(items[..n]).1[j];
      LayoutUnplacedMeansFull(items[..n], j);
      forall c | 0 <= c < GridSize ensures Layout(items).0[c].Some? {
        LayoutPrefixFilled(items, n, c);
      }
    } else {
      var g := Layout(items[..n]).0;
      assert FirstEmpty(g) == -1;
      assert items[..j + 1] == items;
      forall c | 0 <= c < GridSize ensures Layout(items).0[c].Some? {
        LayoutPrefixFilled(items, n, c);
      }
    }
  }

  /** Shortcuts that name no cell fill the grid in list order. */
  lemma {:induction false} LayoutSequential(items: seq<Shortcut>)
    requires |items| <= GridSize
    requires forall j :: 0 <= j < |items| ==> items[j].position.None?
    ensures var (g, out) := Layout(items);
      (forall c :: 0 <= c < |items| ==> g[c] == Some(c) && out[c].position == Some(c))
      && (forall c :: |items| <= c < GridSize ==> g[c].None?)
  {
    if |items| > 0 {
      var n := |items| - 1;
      LayoutSequential(items[..n]);
      var g0 := Layout(items[..n]).0;
      assert g0[n].None?;
      assert FirstEmpty(g0) == n;
    }
  }

  /** `shortcuts.findIndex(s => s.position === p)`. */
  function FindAt(items: seq<Shortcut>, p: int): (r: int)
    ensures -1 <= r < |items|
    ensures r >= 0 ==> items[r].position == Some(p) && forall k :: 0 <= k < r ==> items[k].position != Some(p)
    ensures r == -1 ==> forall k :: 0 <= k < |items| ==> items[k].position != Some(p)
  {
    if |items| == 0 then -1
    else
      var r := FindAt(items[..|items| - 1], p);
      if r >= 0 then r else if items[|items| - 1].position == Some(p) then |items| - 1 else -1
  }

  /**
   * The list after `handleDrop` from cell `source` to cell `target`, or None
   * when the drop returns without touching it: an occupied target swaps the
   * two positions, an empty one receives the source shortcut.
   */
  function Dropped(items: seq<Shortcut>, source: int, target: int): Option<seq<Shortcut>>
  {
    if source == target || source == -1 then None
    else
      var si, ti := FindAt(items, source), FindAt(items, target);
      if si == -1 then None
      else if ti != -1 then
        var moved := items[si := items[si].(position := items[ti].position)];
        Some(moved[ti := moved[ti].(position := items[si].position)])
      else Some(items[si := items[si].(position := Some(target))])
  }

  /**
   * A drop exchanges cells: afterwards the source shortcut sits at the
   * target, a shortcut that was at the target sits at the source, and every
   * shortcut keeps its place in the list and everything but its position.
   */
  lemma DropExchanges(items: seq<Shortcut>, source: int, target: int)
    requires Dropped(items, source, target).Some?
    ensures var out := Dropped(items, source, target).value;
      var si, ti := FindAt(items, source), FindAt(items, target);
      |out| == |items| && 0 <= si
      && out[si].position == Some(target)
      && (ti >= 0 ==> out[ti].position == Some(source))
      && (forall k :: 0 <= k < |items| ==> out[k] == items[k].(position := out[k].position))
      && (forall k :: 0 <= k < |items| && k != si && k != ti ==> out[k] == items[k])
  {
  }

  /** The URLs a submitted form keeps: the trimmed inputs that are not empty, in order. */
  function TrimmedUrls(inputs: seq<string>): (r: seq<string>)
    ensures |r| <= |inputs|
  {
    if |inputs| == 0 then []
    else
      var u := Trim(inputs[|inputs| - 1]);
      TrimmedUrls(inputs[..|inputs| - 1]) + (if u != [] then [u] else [])
  }

  /** Every kept URL is non-empty and already trimmed. */
  lemma {:induction false} TrimmedUrlsClean(inputs: seq<string>)
    ensures forall k :: 0 <= k < |TrimmedUrls(inputs)| ==>
      TrimmedUrls(inputs)[k] != [] && Trim(TrimmedUrls(inputs)[k]) == TrimmedUrls(inputs)[k]
  {
    if |inputs| > 0 {
      var n := |inputs| - 1;
      TrimmedUrlsClean(inputs[..n]);
      var u := Trim(inputs[n]);
      if u != [] {
        TrimIdempotent(inputs[n]);
      }
    }
  }

  lemma TrimmedUrlsSnoc(inputs: seq<string>, i: nat)
    requires i < |inputs|
    ensures TrimmedUrls(inputs[..i + 1]) ==
      TrimmedUrls(inputs[..i]) + (if Trim(inputs[i]) != [] then [Trim(inputs[i])] else [])
  {
    assert inputs[..i + 1][..i] == inputs[..i];
  }

  /** The form yields no URL exactly when every input is blank once trimmed. */
  lemma {:induction false} TrimmedUrlsEmptyIff(inputs: seq<string>)
    ensures TrimmedUrls(inputs) == [] <==> forall k :: 0 <= k < |inputs| ==> Trim(inputs[k]) == []
  {
    if |inputs| > 0 {
      var n := |inputs| - 1;
      var prefix := inputs[..n];
      TrimmedUrlsEmptyIff(prefix);
      var u := Trim(inputs[n]);
      assert TrimmedUrls(inputs) == TrimmedUrls(prefix) + (if u != [] then [u] else []);
      assert (forall k :: 0 <= k < |inputs| ==> Trim(inputs[k]) == [])
         <==> (forall k :: 0 <= k < n ==> Trim(prefix[k]) == []) && u == [] by {
        assert forall k :: 0 <= k < n ==> prefix[k] == inputs[k];
      }
    }
  }

  /** The outcome of `handleFormSubmit`'s validation. */
  datatype Submission =
    | NameMissing          // "please_enter_name"
    | FirstUrlMissing      // the first URL input is required
    | NoUrls               // "please_enter_url"
    | Ready(shortcut: Shortcut)

  /** The validation rules: a name, a first URL, and at least one URL. */
  function Validate(name: string, inputs: seq<string>, icon: string): (r: Submission)
    ensures r.Ready? <==> Trim(name) != [] && |inputs| > 0 && Trim(inputs[0]) != []
    ensures r.Ready? ==> r.shortcut == Shortcut(Trim(name), TrimmedUrls(inputs), icon, None) && |r.shortcut.urls| > 0
  {
    TrimmedUrlsFirst(inputs);
    if Trim(name) == [] then NameMissing
    else if |inputs| > 0 && Trim(inputs[0]) == [] then FirstUrlMissing
    else if TrimmedUrls(inputs) == [] then NoUrls
    else Ready(Shortcut(Trim(name), TrimmedUrls(inputs), icon, None))
  }

  lemma {:induction false} TrimmedUrlsFirst(inputs: seq<string>)
    ensures |inputs| > 0 && Trim(inputs[0]) != [] ==> TrimmedUrls(inputs) != []
    ensures TrimmedUrls(inputs) != [] ==> |inputs| > 0
  {
    if |inputs| > 1 {
      TrimmedUrlsFirst(inputs[..|inputs| - 1]);
      assert inputs[..|inputs| - 1][0] == inputs[0];
    } else if |inputs| == 1 {
      assert inputs[..0] == [];
    }
  }

  /**
   * The list `saveShortcut` stores: with an edit index the shortcut replaces
   * that element and takes the edit position, when there is one, if it has
   * no position of its own; otherwise it takes the edit position, when there
   * is one, and is appended.
   */
  function Saved(items: seq<Shortcut>, editIndex: int, editPosition: int, s: Shortcut): (r: seq<Shortcut>)
    requires editIndex == -1 || 0 <= editIndex < |items|
    ensures editIndex == -1 ==> |r| == |items| + 1 && r[..|items|] == items
    ensures editIndex != -1 ==> |r| == |items| && forall k :: 0 <= k < |r| && k != editIndex ==> r[k] == items[k]
    // what is written: the submitted shortcut, differing at most in its position
    ensures editIndex == -1 ==> r[|items|].(position := s.position) == s
    ensures editIndex != -1 ==> r[editIndex].(position := s.position) == s
    // a new shortcut takes the edit position whenever there is one
    ensures editIndex == -1 ==>
      r[|items|].position == (if editPosition != -1 then Some(editPosition) else s.position)
    // an edited one keeps its own position, and takes the edit position only when it has none
    ensures editIndex != -1 ==>
      r[editIndex].position == (if s.position.None? && editPosition != -1 then Some(editPosition) else s.position)
  {
    if editIndex != -1 then
      items[editIndex := if s.position.None? && editPosition != -1 then s.(position := Some(editPosition)) else s]
    else
      items + [if editPosition != -1 then s.(position := Some(editPosition)) else s]
  }

  /**
   * The list after `handleDeleteShortcut` with the given edit index:
   * `splice(index, 1)` removes that element, counts a negative index from
   * the end, and ignores one past the end; -1 means nothing is selected.
   */
  function Deleted(items: seq<Shortcut>, editIndex: int): (r: seq<Shortcut>)
    ensures 0 <= editIndex < |items| ==> r == items[..editIndex] + items[editIndex + 1..]
    ensures editIndex == -1 || editIndex >= |items| ==> r == items
  {
    if editIndex == -1 then items
    else
      var start := if editIndex < 0 then Max(|items| + editIndex, 0) else editIndex;
      if start < |items| then items[..start] + items[start + 1..] else items
  }

  /** Deleting the selected shortcut keeps the others, in order. */
  lemma DeletedKeepsOthers(items: seq<Shortcut>, editIndex: int)
    requires 0 <= editIndex < |items|
    ensures |Deleted(items, editIndex)| == |items| - 1
    ensures forall k :: 0 <= k < editIndex ==> Deleted(items, editIndex)[k] == items[k]
    ensures forall k :: editIndex <= k < |items| - 1 ==> Deleted(items, editIndex)[k] == items[k + 1]
    ensures multiset(Deleted(items, editIndex)) + multiset{items[editIndex]} == multiset(items)
  {
    assert items == items[..editIndex] + [items[editIndex]] + items[editIndex + 1..];
  }

  /** Some input is blank once trimmed. */
  predicate HasBlank(inputs: seq<string>) {
    exists k :: 0 <= k < |inputs| && Trim(inputs[k]) == []
  }

  lemma BlankWitness(inputs: seq<string>, k: nat)
    requires k < |inputs| && Trim(inputs[k]) == []
    ensures HasBlank(inputs)
  {
  }

  /** The URL inputs after `ensureEmptyInputExists`: a blank input is appended when none is blank. */
  function WithBlank(inputs: seq<string>): (r: seq<string>)
    ensures HasBlank(r)
    ensures r == inputs || r == inputs + [""]
    ensures HasBlank(inputs) ==> r == inputs
  {
    if HasBlank(inputs) then inputs
    else
      BlankWitness(inputs + [""], |inputs|);
      inputs + [""]
  }

  /** The inputs `openEditModal` builds for stored URLs: each `addUrlInput` appends one and then ensures a blank exists. */
  function Prefilled(urls: seq<string>): (r: seq<string>)
  {
    if |urls| == 0 then [] else WithBlank(Prefilled(urls[..|urls| - 1]) + [urls[|urls| - 1]])
  }

  /**
   * Because every added input re-checks for a blank, a stored list whose
   * first URL is not blank opens with the blank input second, not last.
   */
  lemma {:induction false} PrefilledBlankSecond(urls: seq<string>)
    requires |urls| >= 1 && Trim(urls[0]) != []
    ensures Prefilled(urls) == [urls[0], ""] + urls[1..]
  {
    var n := |urls| - 1;
    if n == 0 {
      assert Prefilled(urls[..0]) == [];
      assert !HasBlank([urls[0]]);
    } else {
      assert urls[..n][0] == urls[0] && urls[..n][1..] == urls[1..n];
      PrefilledBlankSecond(urls[..n]);
      PrefilledStep(Prefilled(urls[..n]), urls[n], urls[0], urls[1..n]);
      assert urls[1..] == urls[1..n] + [urls[n]];
    }
  }

  lemma PrefilledStep(inputs: seq<string>, u: string, first: string, rest: seq<string>)
    requires inputs == [first, ""] + rest
    ensures WithBlank(inputs + [u]) == [first, ""] + (rest + [u])
  {
    BlankWitness(inputs + [u], 1);
  }

  /** A remove button shows exactly for a non-blank input while at least two inputs are non-blank. */
  function RemoveButtonsShown(inputs: seq<string>): (r: seq<bool>)
    ensures |r| == |inputs|
  {
    var filled := |TrimmedUrls(inputs)|;
    seq(|inputs|, k requires 0 <= k < |inputs| => Trim(inputs[k]) != [] && filled >= 2)
  }
}

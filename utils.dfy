/**
 * Helpers of js/modules/utils.js: the modal manager's stack of open
 * dialogs, the near-white keying pass of `convertImageToBase64`, the
 * `i18n:` prefix rule of `showNotification`, and `deepClone` over JSON-like
 * values.
 */
module Utils {
  import opened Common
  import opened Text
  import I18n
  import Json

  /** One `activeModals` entry: the dialog's id and the handle of its `onClose` callback, if any. */
  datatype ModalInfo = ModalInfo(id: string, onClose: Option<nat>)

  /** `activeModals.findIndex(m => m.id === id)`. */
  function IndexOfModal(modals: seq<ModalInfo>, id: string): (r: int)
    ensures -1 <= r < |modals|
    ensures r >= 0 ==> modals[r].id == id && forall k :: 0 <= k < r ==> modals[k].id != id
    ensures r < 0 ==> forall k :: 0 <= k < |modals| ==> modals[k].id != id
  {
    if modals == [] then -1
    else if modals[0].id == id then 0
    else
      var k := IndexOfModal(modals[1..], id);
      if k < 0 then -1 else k + 1
  }

  /** The callbacks of the given entries, in order. */
  function Callbacks(modals: seq<ModalInfo>): seq<nat>
  {
    if modals == [] then []
    else (if modals[0].onClose.Some? then [modals[0].onClose.value] else []) + Callbacks(modals[1..])
  }

  lemma {:induction false} CallbacksAppend(a: seq<ModalInfo>, b: seq<ModalInfo>)
    ensures Callbacks(a + b) == Callbacks(a) + Callbacks(b)
  {
    if a == [] {
      assert a + b == b;
    } else {
      assert (a + b)[0] == a[0] && (a + b)[1..] == a[1..] + b;
      CallbacksAppend(a[1..], b);
    }
  }

  /**
   * The `modalManager` object. `calls` records the `onClose` callbacks in
   * the order they run; `listeners` counts the ESC listeners `init` has
   * registered on the document.
   */
  class ModalManager {
    var activeModals: seq<ModalInfo>
    var initialized: bool
    var listeners: nat
    var calls: seq<nat>

    /** The listener is registered exactly when the manager is initialised. */
    predicate Valid()
      reads this
    {
      listeners == (if initialized then 1 else 0)
    }

    constructor ()
      ensures Valid() && activeModals == [] && !initialized && calls == []
    {
      activeModals := [];
      initialized := false;
      listeners := 0;
      calls := [];
    }

    /** `init`: registers the ESC listener the first time only. */
    method Init()
      requires Valid()
      modifies this
      ensures Valid() && initialized && listeners == 1
      ensures activeModals == old(activeModals) && calls == old(calls)
    {
      if initialized {
        return;
      }
      listeners := listeners + 1;
      initialized := true;
    }

    /**
     * `openModal(id, options)`; `found` says whether the document has an
     * element with that id. The manager is initialised either way; an
     * unknown id returns false and leaves the stack alone, otherwise exactly
     * one entry is pushed on top, even when the id is already open.
     */
    method OpenModal(id: string, found: bool, onClose: Option<nat>) returns (ok: bool)
      requires Valid()
      modifies this
      ensures Valid() && initialized && calls == old(calls)
      ensures ok == found
      ensures ok ==> activeModals == old(activeModals) + [ModalInfo(id, onClose)]
      ensures !ok ==> activeModals == old(activeModals)
    {
      Init();
      if !found {
        return false;
      }
      activeModals := activeModals + [ModalInfo(id, onClose)];
      ok := true;
    }

    /**
     * `closeModal(id)`: the first entry with that id is removed, the others
     * keep their order, and its `onClose` runs. An id that is not open
     * returns false and changes nothing.
     */
    method CloseModal(id: string) returns (ok: bool)
      modifies this
      ensures initialized == old(initialized) && listeners == old(listeners)
      ensures var i := IndexOfModal(old(activeModals), id);
        (ok <==> i >= 0)
        && (i >= 0 ==> activeModals == old(activeModals)[..i] + old(activeModals)[i + 1..]
                       && calls == old(calls) + Callbacks([old(activeModals)[i]]))
        && (i < 0 ==> activeModals == old(activeModals) && calls == old(calls))
    {
      var index := IndexOfModal(activeModals, id);
      if index == -1 {
        return false;
      }
      var info := activeModals[index];
      if info.onClose.Some? {
        calls := calls + [info.onClose.value];
      }
      activeModals := activeModals[..index] + activeModals[index + 1..];
      ok := true;
    }

    /**
     * The ESC listener: with the manager initialised and a dialog open, it
     * closes the entry found by the top entry's id; otherwise nothing.
     */
    method Escape()
      requires Valid()
      modifies this
      ensures Valid() && initialized == old(initialized) && listeners == old(listeners)
      ensures !old(initialized) || old(activeModals) == [] ==>
        activeModals == old(activeModals) && calls == old(calls)
      ensures old(initialized) && old(activeModals) != [] ==>
        var i := IndexOfModal(old(activeModals), old(activeModals)[|old(activeModals)| - 1].id);
        0 <= i && activeModals == old(activeModals)[..i] + old(activeModals)[i + 1..]
        && calls == old(calls) + Callbacks([old(activeModals)[i]])
    {
      if !initialized || |activeModals| == 0 {
        return;
      }
      var top := activeModals[|activeModals| - 1];
      var _ := CloseModal(top.id);
    }

    /**
     * `closeAllModals`: closes a snapshot of the stack entry by entry. Each
     * close removes the snapshot's next entry, so the stack ends empty and
     * every callback has run in stack order.
     */
    method CloseAllModals()
      modifies this
      ensures activeModals == []
      ensures calls == old(calls) + Callbacks(old(activeModals))
      ensures initialized == old(initialized) && listeners == old(listeners)
    {
      var modals := activeModals;
      var k := 0;
      while k < |modals|
        invariant 0 <= k <= |modals|
        invariant activeModals == modals[k..]
        invariant calls == old(calls) + Callbacks(modals[..k])
        invariant initialized == old(initialized) && listeners == old(listeners)
      {
        assert IndexOfModal(activeModals, modals[k].id) == 0;
        var _ := CloseModal(modals[k].id);
        CallbacksAppend(modals[..k], [modals[k]]);
        assert modals[..k + 1] == modals[..k] + [modals[k]];
        k := k + 1;
      }
      assert modals[..k] == modals;
    }
  }

  /** With distinct ids, ESC removes exactly the top entry. */
  lemma EscapeClosesTop(modals: seq<ModalInfo>)
    requires modals != []
    requires forall i, j :: 0 <= i < j < |modals| ==> modals[i].id != modals[j].id
    ensures IndexOfModal(modals, modals[|modals| - 1].id) == |modals| - 1
  {
  }

  /** With a repeated id, ESC removes the lower entry with that id instead of the top one. */
  lemma EscapeWithDuplicateId(a: ModalInfo, b: ModalInfo)
    requires a.id == b.id
    ensures IndexOfModal([a, b], b.id) == 0
  {
  }

  /** A pixel of the `makeTransparent` pass: all of r, g and b above 240. */
  predicate NearWhite(r: byte, g: byte, b: byte)
  {
    r > 240 && g > 240 && b > 240
  }

  /** The buffer after the near-white pass: such pixels get alpha 0, every other byte is kept. */
  function WhiteKeyed(d: seq<byte>): seq<byte>
    requires |d| % 4 == 0
  {
    seq(|d|, i requires 0 <= i < |d| =>
      if i % 4 == 3 && NearWhite(d[i - 3], d[i - 2], d[i - 1]) then 0 else d[i])
  }

  /** The four bytes of the pixel at `index` after the pass. */
  lemma WhiteKeyedAt(d: seq<byte>, index: int)
    requires |d| % 4 == 0 && 0 <= index && index % 4 == 0 && index + 3 < |d|
    ensures WhiteKeyed(d)[index] == d[index] && WhiteKeyed(d)[index + 1] == d[index + 1]
    ensures WhiteKeyed(d)[index + 2] == d[index + 2]
    ensures WhiteKeyed(d)[index + 3] == if NearWhite(d[index], d[index + 1], d[index + 2]) then 0 else d[index + 3]
  {
    assert (index + 3) % 4 == 3 && (index + 1) % 4 == 1 && (index + 2) % 4 == 2;
  }

  /** Pixel `p` after the pass: colour kept; alpha 0 iff near white, else kept. */
  lemma WhiteKeyedPixel(d: seq<byte>, p: nat)
    requires |d| % 4 == 0 && 4 * p + 3 < |d|
    ensures |WhiteKeyed(d)| == |d|
    ensures WhiteKeyed(d)[4 * p] == d[4 * p] && WhiteKeyed(d)[4 * p + 1] == d[4 * p + 1]
    ensures WhiteKeyed(d)[4 * p + 2] == d[4 * p + 2]
    ensures NearWhite(d[4 * p], d[4 * p + 1], d[4 * p + 2]) ==> WhiteKeyed(d)[4 * p + 3] == 0
    ensures !NearWhite(d[4 * p], d[4 * p + 1], d[4 * p + 2]) ==> WhiteKeyed(d)[4 * p + 3] == d[4 * p + 3]
  {
    WhiteKeyedAt(d, 4 * p);
  }

  /** Running the pass twice is running it once. */
  lemma WhiteKeyedIdempotent(d: seq<byte>)
    requires |d| % 4 == 0
    ensures WhiteKeyed(WhiteKeyed(d)) == WhiteKeyed(d)
  {
    var k := WhiteKeyed(d);
    forall i | 0 <= i < |d| ensures WhiteKeyed(k)[i] == k[i] {
      WhiteKeyedAt(d, i - i % 4);
      WhiteKeyedAt(k, i - i % 4);
    }
  }

  /** The `for (i = 0; i < data.length; i += 4)` loop, writing alpha in place. */
  method MakeWhiteTransparent(data: array<byte>)
    requires data.Length % 4 == 0
    modifies data
    ensures data[..] == WhiteKeyed(old(data[..]))
  {
    ghost var orig := data[..];
    var i := 0;
    while i < data.Length
      invariant 0 <= i <= data.Length && i % 4 == 0
      invariant forall j :: 0 <= j < i ==> data[j] == WhiteKeyed(orig)[j]
      invariant forall j :: i <= j < data.Length ==> data[j] == orig[j]
    {
      WhiteKeyedAt(orig, i);
      if data[i] > 240 && data[i + 1] > 240 && data[i + 2] > 240 {
        data[i + 3] := 0;
      }
      i := i + 4;
    }
  }

  /** `showNotification`: a message starting with 'i18n:' is translated by the key after the prefix. */
  function NotificationText(message: string, pack: I18n.Pack, params: seq<(string, string)>): string
  {
    if OccursAt(message, "i18n:", 0) then I18n.Translate(pack, message[5..], params) else message
  }

  lemma NotificationPrefix(key: string, pack: I18n.Pack, params: seq<(string, string)>)
    ensures NotificationText("i18n:" + key, pack, params) == I18n.Translate(pack, key, params)
  {
    assert ("i18n:" + key)[0..5] == "i18n:";
    assert ("i18n:" + key)[5..] == key;
  }

  /** Every message without the 'i18n:' prefix is shown verbatim. */
  lemma NotificationVerbatim(message: string, pack: I18n.Pack, params: seq<(string, string)>)
    requires !OccursAt(message, "i18n:", 0)
    ensures NotificationText(message, pack, params) == message
  {
  }

  /** `deepClone`: arrays element by element, objects key by key, everything else as is (dates are not modelled). */
  function DeepClone(v: Json.Value): (r: Json.Value)
    ensures r == v
    decreases v
  {
    match v
    case Array(items) => Json.Array(CloneItems(items))
    case Object(fields) => Json.Object(CloneFields(fields))
    case _ => v
  }

  function CloneItems(items: seq<Json.Value>): (r: seq<Json.Value>)
    ensures r == items
    decreases items
  {
    if items == [] then [] else [DeepClone(items[0])] + CloneItems(items[1..])
  }

  function CloneFields(fields: seq<(string, Json.Value)>): (r: seq<(string, Json.Value)>)
    ensures r == fields
    decreases fields
  {
    if fields == [] then []
    else
      var f := fields[0];
      assert f.1 < f;
      [(f.0, DeepClone(f.1))] + CloneFields(fields[1..])
  }
}

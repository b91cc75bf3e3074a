/**
 * The storage rules of js/modules/storage.js: the fallback initialisation
 * record, `initStorage`'s fill-if-missing writes into the extension's
 * key-value store, the record `exportAllData` serialises, and `importData`'s
 * validation and merge. The store is a map from key to value; the fetch of
 * `initialization.json` and `JSON.parse` are inputs.
 */
module Storage {
  import opened Common
  import opened Json

  /** `DEFAULT_BACKGROUND`. */
  const DefaultBackground: string := "https://source.unsplash.com/random/1920x1080/?nature,water"

  /** `[0, 1]`, the default displayed-city indices. */
  const DefaultDisplayed: Value := Array([Number(0), Number(1)])

  /** The record `loadInitializationData` falls back to when the file cannot be loaded. */
  const FallbackInitData: Value := Object([
    ("shortcuts", Array([])),
    ("cities", Array([])),
    ("displayedCityIndices", DefaultDisplayed),
    ("showWeather", Bool(true)),
    ("backgroundUrl", Str(DefaultBackground))])

  /** `loadInitializationData`: the parsed file, or the fallback record when fetching or parsing fails. */
  function LoadInitializationData(loaded: Option<Value>): (r: Value)
    ensures loaded.None? ==> r == FallbackInitData
    ensures loaded.Some? ==> r == loaded.value
  {
    loaded.GetOr(FallbackInitData)
  }

  /** The fallback record has every field the other rules read. */
  lemma FallbackFields()
    ensures Get(FallbackInitData, "shortcuts") == Array([])
    ensures Get(FallbackInitData, "cities") == Array([])
    ensures Get(FallbackInitData, "displayedCityIndices") == DefaultDisplayed
    ensures Get(FallbackInitData, "showWeather") == Bool(true)
    ensures Get(FallbackInitData, "backgroundUrl") == Str(DefaultBackground)
  {
    var f := FallbackInitData.fields;
    LookupAt(f, 0, "shortcuts");
    LookupAt(f, 1, "cities");
    LookupAt(f, 2, "displayedCityIndices");
    LookupAt(f, 3, "showWeather");
    LookupAt(f, 4, "backgroundUrl");
  }

  /** A store key read back: `undefined` when absent. */
  function Read(store: map<string, Value>, key: string): Value
  {
    if key in store then store[key] else Undefined
  }

  /** The five keys `initStorage` fills. */
  const InitKeys: set<string> := {"backgroundUrl", "shortcuts", "cities", "displayedCityIndices", "showWeather"}

  /** Whether `initStorage` treats a stored value as missing: `undefined` for showWeather, falsy for the others. */
  predicate Missing(key: string, v: Value)
  {
    if key == "showWeather" then v == Undefined else !v.Truthy()
  }

  /** `x !== undefined ? x : true`, the showWeather rule shared by every path. */
  function ShowWeatherOr(v: Value): (r: Value)
    ensures r != Undefined
    ensures v != Undefined ==> r == v
  {
    if v != Undefined then v else Bool(true)
  }

  /** What `initStorage` writes for a missing key. */
  function InitValue(key: string, init: Value): (r: Value)
    requires key in InitKeys
    ensures !Missing(key, r)
  {
    if key == "backgroundUrl" then Or(Get(init, "backgroundUrl"), Str(DefaultBackground))
    else if key == "shortcuts" then Or(Get(init, "shortcuts"), Array([]))
    else if key == "cities" then Or(Get(init, "cities"), Array([]))
    else if key == "displayedCityIndices" then Or(Get(init, "displayedCityIndices"), DefaultDisplayed)
    else ShowWeatherOr(Get(init, "showWeather"))
  }

  /** A key as `initStorage` leaves it: filled when it was missing, otherwise as it was. */
  function FilledRead(store: map<string, Value>, init: Value, key: string): Value
  {
    if key in InitKeys && Missing(key, Read(store, key)) then InitValue(key, init) else Read(store, key)
  }

  /** The store after writing `key` when the snapshot had it missing. */
  function FillStep(store: map<string, Value>, snapshot: map<string, Value>, key: string, init: Value): map<string, Value>
    requires key in InitKeys
  {
    if Missing(key, Read(snapshot, key)) then store[key := InitValue(key, init)] else store
  }

  /** The five writes of `initStorage`, in its order. */
  function Filled(store: map<string, Value>, init: Value): map<string, Value>
  {
    var s1 := FillStep(store, store, "backgroundUrl", init);
    var s2 := FillStep(s1, store, "shortcuts", init);
    var s3 := FillStep(s2, store, "cities", init);
    var s4 := FillStep(s3, store, "displayedCityIndices", init);
    FillStep(s4, store, "showWeather", init)
  }

  /** One write read back at any key. */
  lemma FillStepRead(store: map<string, Value>, snapshot: map<string, Value>, key: string, init: Value, k: string)
    requires key in InitKeys
    ensures Read(FillStep(store, snapshot, key, init), k)
      == if k == key && Missing(key, Read(snapshot, key)) then InitValue(key, init) else Read(store, k)
  {
  }

  /** The five writes, read back key by key, are `FilledRead`. */
  lemma FilledPointwise(store: map<string, Value>, init: Value, key: string)
    ensures Read(Filled(store, init), key) == FilledRead(store, init, key)
  {
    var s1 := FillStep(store, store, "backgroundUrl", init);
    var s2 := FillStep(s1, store, "shortcuts", init);
    var s3 := FillStep(s2, store, "cities", init);
    var s4 := FillStep(s3, store, "displayedCityIndices", init);
    FillStepRead(store, store, "backgroundUrl", init, key);
    FillStepRead(s1, store, "shortcuts", init, key);
    FillStepRead(s2, store, "cities", init, key);
    FillStepRead(s3, store, "displayedCityIndices", init, key);
    FillStepRead(s4, store, "showWeather", init, key);
  }

  /** After `initStorage` none of the five keys is missing any more. */
  lemma InitStorageFillsAll(store: map<string, Value>, init: Value)
    ensures forall key :: key in InitKeys ==> !Missing(key, FilledRead(store, init, key))
  {
  }

  /** A present value is never overwritten, and keys outside the five are never touched. */
  lemma InitStorageKeepsPresent(store: map<string, Value>, init: Value, key: string)
    requires key !in InitKeys || !Missing(key, Read(store, key))
    ensures FilledRead(store, init, key) == Read(store, key)
  {
  }

  /** A second `initStorage`, with any init data, writes nothing. */
  lemma InitStorageIdempotent(store: map<string, Value>, store': map<string, Value>, init: Value, init': Value)
    requires forall key :: Read(store', key) == FilledRead(store, init, key)
    ensures forall key :: FilledRead(store', init', key) == Read(store', key)
  {
    InitStorageFillsAll(store, init);
  }

  /** `chrome.storage.local` as the extension sees it. */
  class Store {
    var data: map<string, Value>

    constructor (data: map<string, Value>)
      ensures this.data == data
    {
      this.data := data;
    }

    /** One `initStorage` step: write `key` only when the snapshot read before had it missing. */
    method FillIfMissing(snapshot: map<string, Value>, key: string, init: Value)
      requires key in InitKeys
      modifies this
      ensures data == FillStep(old(data), snapshot, key, init)
    {
      if Missing(key, Read(snapshot, key)) {
        data := data[key := InitValue(key, init)];
      }
    }

    /**
     * `initStorage`: reads the five keys once, then writes each one that
     * was missing from the initialisation data's value or its hard default;
     * nothing else is written. The five keys as read are returned.
     */
    method InitStorage(init: Value) returns (result: map<string, Value>)
      modifies this
      ensures result == map key | key in old(data) && key in InitKeys :: old(data)[key]
      ensures forall key :: Read(data, key) == FilledRead(old(data), init, key)
    {
      var snapshot := data;
      result := map key | key in snapshot && key in InitKeys :: snapshot[key];
      FillIfMissing(snapshot, "backgroundUrl", init);
      FillIfMissing(snapshot, "shortcuts", init);
      FillIfMissing(snapshot, "cities", init);
      FillIfMissing(snapshot, "displayedCityIndices", init);
      FillIfMissing(snapshot, "showWeather", init);
      forall key ensures Read(data, key) == FilledRead(snapshot, init, key) {
        FilledPointwise(snapshot, init, key);
      }
    }

    /**
     * `importData`: `parsed` is the result of `JSON.parse` (`None` when it
     * throws). Without a `shortcuts` array the import returns false and
     * writes nothing; otherwise the seven keys of `ImportRecord` are written
     * over the store.
     */
    method ImportData(parsed: Option<Value>, init: Value) returns (ok: bool)
      modifies this
      ensures ok <==> parsed.Some? && Get(parsed.value, "shortcuts").Array?
      ensures !ok ==> data == old(data)
      ensures ok ==> data == old(data) + ImportRecord(parsed.value, init)
    {
      if parsed.None? {
        return false;
      }
      var d := parsed.value;
      var shortcuts := Get(d, "shortcuts");
      if !shortcuts.Truthy() || !shortcuts.Array? {
        return false;
      }
      data := data + ImportRecord(d, init);
      ok := true;
    }
  }

  /** The seven keys `importData` saves, each from the data, else the init data, else a hard default. */
  function ImportRecord(d: Value, init: Value): (r: map<string, Value>)
    ensures r.Keys == {"shortcuts", "backgroundUrl", "cities", "displayedCityIndices", "showWeather",
      "weatherCache", "lastUpdateTime"}
    ensures r["shortcuts"] == Get(d, "shortcuts")
    ensures r["showWeather"] == ShowWeatherOr(Get(d, "showWeather"))
  {
    map[
      "shortcuts" := Get(d, "shortcuts"),
      "backgroundUrl" := Or(Or(Get(d, "backgroundUrl"), Get(init, "backgroundUrl")), Str(DefaultBackground)),
      "cities" := Or(Or(Get(d, "cities"), Get(init, "cities")), Array([])),
      "displayedCityIndices" := Or(Or(Get(d, "displayedCityIndices"), Get(init, "displayedCityIndices")), DefaultDisplayed),
      "showWeather" := ShowWeatherOr(Get(d, "showWeather")),
      "weatherCache" := Or(Get(d, "weatherCache"), Object([])),
      "lastUpdateTime" := Or(Get(d, "lastUpdateTime"), Object([]))]
  }

  /** The record `exportAllData` serialises: eight fields in this order, version '1.1'. */
  function ExportRecord(store: map<string, Value>, init: Value): (r: Value)
    ensures r.Object? && |r.fields| == 8
  {
    Object([
      ("shortcuts", Or(Read(store, "shortcuts"), Array([]))),
      ("backgroundUrl", Or(Or(Read(store, "backgroundUrl"), Get(init, "backgroundUrl")), Str(DefaultBackground))),
      ("cities", Or(Or(Read(store, "cities"), Get(init, "cities")), Array([]))),
      ("displayedCityIndices", Or(Or(Read(store, "displayedCityIndices"), Get(init, "displayedCityIndices")), DefaultDisplayed)),
      ("showWeather", ShowWeatherOr(Read(store, "showWeather"))),
      ("weatherCache", Or(Read(store, "weatherCache"), Object([]))),
      ("lastUpdateTime", Or(Read(store, "lastUpdateTime"), Object([]))),
      ("version", Str("1.1"))])
  }

  /** The first four fields of the export read back by name. */
  lemma ExportLeadingFields(store: map<string, Value>, init: Value)
    ensures var e := ExportRecord(store, init);
      Get(e, "shortcuts") == Or(Read(store, "shortcuts"), Array([]))
      && Get(e, "backgroundUrl") == Or(Or(Read(store, "backgroundUrl"), Get(init, "backgroundUrl")), Str(DefaultBackground))
      && Get(e, "cities") == Or(Or(Read(store, "cities"), Get(init, "cities")), Array([]))
      && Get(e, "displayedCityIndices") == Or(Or(Read(store, "displayedCityIndices"), Get(init, "displayedCityIndices")), DefaultDisplayed)
  {
    var f := ExportRecord(store, init).fields;
    LookupAt(f, 0, "shortcuts");
    LookupAt(f, 1, "backgroundUrl");
    LookupAt(f, 2, "cities");
    LookupAt(f, 3, "displayedCityIndices");
  }

  /** The last four fields of the export read back by name; the version is always '1.1'. */
  lemma ExportTrailingFields(store: map<string, Value>, init: Value)
    ensures var e := ExportRecord(store, init);
      Get(e, "showWeather") == ShowWeatherOr(Read(store, "showWeather"))
      && Get(e, "weatherCache") == Or(Read(store, "weatherCache"), Object([]))
      && Get(e, "lastUpdateTime") == Or(Read(store, "lastUpdateTime"), Object([]))
      && Get(e, "version") == Str("1.1")
  {
    var f := ExportRecord(store, init).fields;
    LookupAt(f, 4, "showWeather");
    LookupAt(f, 5, "weatherCache");
    LookupAt(f, 6, "lastUpdateTime");
    LookupAt(f, 7, "version");
  }

  /** A store whose shortcuts are an array or missing can be exported and imported back. */
  predicate ExportableShortcuts(store: map<string, Value>)
  {
    !Read(store, "shortcuts").Truthy() || Read(store, "shortcuts").Array?
  }

  /**
   * Importing an export writes back exactly the exported fields (all but
   * `version`) whatever the init data: every exported value is already
   * truthy, or not `undefined` for showWeather, so no fallback applies.
   */
  lemma ExportImportRoundTrip(store: map<string, Value>, init: Value, init': Value)
    requires ExportableShortcuts(store)
    ensures var e := ExportRecord(store, init);
      Get(e, "shortcuts").Array?
      && forall key :: key in ImportRecord(e, init') ==> ImportRecord(e, init')[key] == Get(e, key)
  {
    ExportLeadingFields(store, init);
    ExportTrailingFields(store, init);
  }

  /** Shortcuts stored as anything truthy but an array are exported, and the export is then refused. */
  lemma ExportOfNonArrayShortcutsIsRefused(store: map<string, Value>, init: Value)
    requires !ExportableShortcuts(store)
    ensures !Get(ExportRecord(store, init), "shortcuts").Array?
  {
    ExportLeadingFields(store, init);
  }

  /** An import keeps an explicit `showWeather: false` and defaults only a missing one to true. */
  lemma ImportShowWeather(d: Value, init: Value)
    ensures Get(d, "showWeather") == Bool(false) ==> ImportRecord(d, init)["showWeather"] == Bool(false)
    ensures Get(d, "showWeather") == Undefined ==> ImportRecord(d, init)["showWeather"] == Bool(true)
  {
  }
}

/**
 * The weather module: a per-city cache with a two-hour freshness window,
 * the forced refresh of every cached city, the mock record generator used
 * while no API key is configured, the icon mapping of the weather widget
 * and the rule that hides it.
 */
module Weather {
  import opened Common
  import opened Text

  /** `UPDATE_INTERVAL`: two hours in milliseconds. */
  const UpdateInterval: int := 2 * 60 * 60 * 1000

  /** A record's `temperature` field: a number, a text such as '--', or `null`. */
  datatype Temperature = Celsius(degrees: int) | Label(text: string) | Null
  {
    /** JavaScript truthiness: 0, '' and `null` are falsy. */
    predicate Truthy()
    {
      match this
      case Celsius(d) => d != 0
      case Label(t) => t != []
      case Null => false
    }
  }

  /**
   * A weather record. Absent string fields are `[]`, absent numbers `None`.
   * `icon` is the provider's code (read by the widget); `iconClass` is the
   * field the mock generator fills instead.
   */
  datatype Report = Report(
    temperature: Temperature,
    condition: string,
    icon: string,
    iconClass: string,
    humidity: Option<int>,
    windSpeed: Option<int>,
    cityName: string,
    error: bool)

  /** The record returned when fetching fails and nothing is cached. */
  const FailedReport: Report :=
    Report(Label("--"), "未知", "question", [], None, None, [], true)

  /** The record of `getMockWeatherData` for a city outside the known list. */
  const UnknownCityReport: Report :=
    Report(Null, "未知城市", [], "question", None, None, [], true)

  /**
   * Whether a cached entry may be served at `now` without refetching: it is
   * present and less than two hours old, a missing timestamp counting as 0.
   */
  predicate Fresh(cache: map<string, Report>, lastUpdate: map<string, int>, city: string, force: bool, now: int)
  {
    !force && city in cache
    && now - (if city in lastUpdate then lastUpdate[city] else 0) < UpdateInterval
  }

  /** An entry stored at time `t` is served from the cache until two hours have passed. */
  lemma StoredEntryIsFresh(cache: map<string, Report>, lastUpdate: map<string, int>, city: string, d: Report, t: int, now: int)
    requires t <= now < t + UpdateInterval
    ensures Fresh(cache[city := d], lastUpdate[city := t], city, false, now)
    ensures !Fresh(cache[city := d], lastUpdate[city := t], city, true, now)
    ensures !Fresh(cache[city := d], lastUpdate[city := t], city, false, t + UpdateInterval)
  {
  }

  /** A city never fetched is never fresh, so its first lookup always fetches. */
  lemma UncachedIsNotFresh(cache: map<string, Report>, lastUpdate: map<string, int>, city: string, force: bool, now: int)
    requires city !in cache
    ensures !Fresh(cache, lastUpdate, city, force, now)
  {
  }

  /** The module-level `weatherCache` and `lastUpdateTime` dictionaries. */
  class Store {
    var cache: map<string, Report>
    var lastUpdate: map<string, int>

    constructor ()
      ensures cache == map[] && lastUpdate == map[]
    {
      cache := map[];
      lastUpdate := map[];
    }

    /**
     * `getCityWeather(city, force)`. The clock reading for the freshness
     * test (`now`), the outcome of `fetchWeatherData` (`None` when it
     * throws) and the second clock reading taken after that fetch
     * (`stamped`) are inputs. A fresh entry
     * is returned without writing; a successful fetch writes exactly the
     * city's entry and timestamp; a failed one falls back to the cached
     * entry, else to the fixed '--' record, and writes nothing.
     */
    method GetCityWeather(city: string, force: bool, now: int, fetched: Option<Report>, stamped: int) returns (r: Report)
      modifies this
      ensures Fresh(old(cache), old(lastUpdate), city, force, now) ==>
        r == old(cache)[city] && cache == old(cache) && lastUpdate == old(lastUpdate)
      ensures !Fresh(old(cache), old(lastUpdate), city, force, now) && fetched.Some? ==>
        r == fetched.value
        && cache == old(cache)[city := fetched.value]
        && lastUpdate == old(lastUpdate)[city := stamped]
      ensures !Fresh(old(cache), old(lastUpdate), city, force, now) && fetched.None? ==>
        r == (if city in old(cache) then old(cache)[city] else FailedReport)
        && cache == old(cache) && lastUpdate == old(lastUpdate)
    {
      if Fresh(cache, lastUpdate, city, force, now) {
        return cache[city];
      }
      match fetched
      case Some(d) =>
        cache := cache[city := d];
        lastUpdate := lastUpdate[city := stamped];
        r := d;
      case None =>
        if city in cache {
          r := cache[city];
        } else {
          r := FailedReport;
        }
    }

    /**
     * `updateAllWeather`: a forced `getCityWeather` for every city already
     * in the cache, with `outcome(city)` the result of its fetch and
     * `now(city)` the clock reading `Date.now()` gives after that fetch.
     * Each cached city gets its fetched record and its own timestamp, or
     * keeps its entry when the fetch fails; no city is added or dropped.
     */
    method UpdateAllWeather(now: string -> int, outcome: string -> Option<Report>)
      modifies this
      ensures cache.Keys == old(cache).Keys
      ensures forall c :: c in cache ==>
        cache[c] == (if outcome(c).Some? then outcome(c).value else old(cache)[c])
      ensures forall c :: c in lastUpdate <==> c in old(lastUpdate) || (c in old(cache) && outcome(c).Some?)
      ensures forall c :: c in lastUpdate ==>
        lastUpdate[c] == (if c in old(cache) && outcome(c).Some? then now(c) else old(lastUpdate)[c])
    {
      var cities := cache.Keys;
      var done: set<string> := {};
      while cities != {}
        invariant cities !! done && cities + done == old(cache).Keys
        invariant cache.Keys == old(cache).Keys
        invariant forall c :: c in cache ==>
          cache[c] == (if c in done && outcome(c).Some? then outcome(c).value else old(cache)[c])
        invariant forall c :: c in lastUpdate <==> c in old(lastUpdate) || (c in done && outcome(c).Some?)
        invariant forall c :: c in lastUpdate ==>
          lastUpdate[c] == (if c in done && outcome(c).Some? then now(c) else old(lastUpdate)[c])
        decreases cities
      {
        var city :| city in cities;
        var _ := GetCityWeather(city, true, now(city), outcome(city), now(city));
        cities := cities - {city};
        done := done + {city};
      }
    }
  }

  /** The 36 names `getMockWeatherData` knows, Chinese and English. */
  const KnownCities: seq<string> := [
    "北京", "上海", "广州", "深圳", "香港", "台北", "东京", "首尔", "新加坡",
    "纽约", "洛杉矶", "温哥华", "多伦多", "伦敦", "巴黎", "柏林", "莫斯科", "悉尼",
    "beijing", "shanghai", "guangzhou", "shenzhen", "hongkong", "taipei", "tokyo",
    "seoul", "singapore", "newyork", "losangeles", "vancouver", "toronto", "london",
    "paris", "berlin", "moscow", "sydney"]

  const Conditions: seq<string> := ["晴朗", "多云", "阴天", "小雨", "大雨", "雷雨", "小雪", "大雪"]

  const MockIcons: seq<string> :=
    ["sun", "cloud-sun", "cloud", "cloud-rain", "cloud-showers-heavy", "bolt", "snowflake", "smog"]

  predicate IsKnownCity(name: string)
  {
    exists i :: 0 <= i < |KnownCities| && Normalised(KnownCities[i]) == Normalised(name)
  }

  /** The sum of the character codes of `s`, the `reduce` of the generator. */
  function CodeSum(s: string): nat
  {
    if s == [] then 0 else CodeSum(s[..|s| - 1]) + s[|s| - 1] as nat
  }

  /** `hash % 100`. */
  function Rand(name: string): (r: nat)
    ensures r < 100
  {
    CodeSum(name) % 100
  }

  /**
   * `getMockWeatherData`: an unknown city yields the error record with a
   * `null` temperature; a known one a record derived from `Rand(name)`.
   */
  function MockWeather(name: string): (r: Report)
    ensures !IsKnownCity(name) ==> r == UnknownCityReport
    ensures IsKnownCity(name) ==>
      !r.error && r.cityName == name && r.icon == []
      && r.temperature.Celsius? && 10 <= r.temperature.degrees <= 35
      && r.humidity.Some? && 30 <= r.humidity.value <= 89
      && r.windSpeed.Some? && 1 <= r.windSpeed.value <= 10
      && r.condition in Conditions && r.iconClass in MockIcons
  {
    if !IsKnownCity(name) then UnknownCityReport
    else
      var rand := Rand(name);
      Report(Celsius(10 + rand % 26), Conditions[rand % |Conditions|], [], MockIcons[rand % 8],
        Some(30 + rand % 60), Some(1 + rand % 10), name, false)
  }

  /** Condition and icon class are chosen by the same index, so they always agree. */
  lemma MockConditionMatchesIcon(name: string)
    requires IsKnownCity(name)
    ensures exists k :: 0 <= k < 8 && MockWeather(name).condition == Conditions[k] && MockWeather(name).iconClass == MockIcons[k]
  {
    var k := Rand(name) % 8;
    assert MockWeather(name).condition == Conditions[k];
  }

  /** Names that differ only in case and whitespace are equally known. */
  lemma KnownIgnoresCaseAndSpaces(a: string, b: string)
    requires Normalised(a) == Normalised(b)
    ensures IsKnownCity(a) <==> IsKnownCity(b)
  {
  }

  /**
   * `fetchWeatherData`: with the empty `API_KEY` of the source it returns
   * the mock record and never throws.
   */
  function FetchWeatherData(name: string): (r: Option<Report>)
    ensures r.Some? && r.value == MockWeather(name)
  {
    Some(MockWeather(name))
  }

  /** The classes the mapping produces for the codes it knows, and its default. */
  const IconClasses: set<string> := {"sun", "moon", "cloud-sun", "cloud-moon", "cloud", "cloud-rain",
    "cloud-sun-rain", "cloud-moon-rain", "bolt", "snowflake", "smog"}

  /** The Font Awesome class of `createWeatherElement` for an OpenWeatherMap icon code. */
  function IconClass(code: string): (r: string)
    ensures r != []
    ensures r == code || r in IconClasses
  {
    if code == "01d" then "sun"
    else if code == "01n" then "moon"
    else if code == "02d" then "cloud-sun"
    else if code == "02n" then "cloud-moon"
    else if code in {"03d", "03n", "04d", "04n"} then "cloud"
    else if code in {"09d", "09n"} then "cloud-rain"
    else if code == "10d" then "cloud-sun-rain"
    else if code == "10n" then "cloud-moon-rain"
    else if code in {"11d", "11n"} then "bolt"
    else if code in {"13d", "13n"} then "snowflake"
    else if code in {"50d", "50n"} then "smog"
    else if code == [] then "sun"
    else code
  }

  /** The icon `createWeatherElement` draws: the question mark for an error record, else the mapped code. */
  function DisplayedIcon(w: Report): (r: string)
    ensures w.error ==> r == "question-circle"
    ensures !w.error ==> r == IconClass(w.icon)
  {
    if w.error then "question-circle" else IconClass(w.icon)
  }

  /**
   * A newly created widget reads `icon` while the generator fills
   * `iconClass`, so every mock record of a known city is first drawn with
   * the sun icon, whatever its condition.
   */
  lemma MockIconFirstShownIsSun(name: string)
    requires IsKnownCity(name)
    ensures DisplayedIcon(MockWeather(name)) == "sun"
  {
    EmptyIconIsSun();
  }

  /** An empty icon code maps to the sun. */
  lemma EmptyIconIsSun()
    ensures IconClass([]) == "sun"
  {
  }

  /**
   * The icon `updateCityWeatherDisplay` writes into a widget that already
   * exists: the record's `iconClass`. Without one, the template falls back
   * to a name that is not bound in that function, the call throws, and the
   * handler removes the widget (`None`). This branch is dead in the page:
   * the only caller, `renderCities`, passes a freshly built container that
   * holds no widget yet, so a widget is always newly created.
   */
  function RefreshedIcon(w: Report): Option<string>
  {
    if w.iconClass != [] then Some(w.iconClass) else None
  }

  /**
   * A refreshed mock widget would show the generator's icon for its
   * condition, which is the sun only for clear weather. No caller reaches
   * the refresh branch (see `RefreshedIcon`).
   */
  lemma MockIconOnRefresh(name: string)
    requires IsKnownCity(name)
    ensures exists k :: (0 <= k < 8 && MockWeather(name).condition == Conditions[k]
                         && RefreshedIcon(MockWeather(name)) == Some(MockIcons[k]))
    ensures RefreshedIcon(MockWeather(name)) == Some("sun") <==> MockWeather(name).condition == Conditions[0]
  {
    var k := Rand(name) % 8;
    assert MockWeather(name).condition == Conditions[k];
    assert MockWeather(name).iconClass == MockIcons[k];
  }

  /**
   * A record without `iconClass`, such as a provider's, would lose its
   * widget on refresh; the refresh branch is unreachable (see `RefreshedIcon`).
   */
  lemma ProviderRecordRemovedOnRefresh(w: Report)
    requires w.iconClass == []
    ensures RefreshedIcon(w).None?
  {
  }

  /** `updateCityWeatherDisplay` removes the widget for an error or a falsy temperature. */
  predicate HidesWeather(w: Report)
  {
    w.error || !w.temperature.Truthy()
  }

  /** Hidden exactly for the error records and for 0 °C, `null` or an empty label. */
  lemma HidesWeatherCases(w: Report)
    ensures HidesWeather(w) <==>
      w.error || w.temperature == Celsius(0) || w.temperature == Null || w.temperature == Label([])
  {
  }

  /** Every mock record of a known city is shown; both error records are hidden. */
  lemma MockShownIffKnown(name: string)
    ensures !HidesWeather(MockWeather(name)) <==> IsKnownCity(name)
    ensures HidesWeather(FailedReport)
  {
  }
}

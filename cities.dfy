/**
 * The city list of js/modules/cities.js: reordering by drag and drop with
 * the remap of the displayed indices, adding with id normalisation and
 * de-duplication, the search over the built-in table, saving, the cities
 * shown on the page, and the dot toggle between one and two shown cities.
 */
module Cities {
  import opened Common
  import opened Text

  datatype City = City(id: string, name: string, timezone: string, enabled: bool)

  const DefaultTimezone: string := "Asia/Shanghai"

  /** The element at `source` moved to `target`: `splice(source, 1)` and then `splice(target, 0, moved)`. */
  function Moved<T>(xs: seq<T>, source: nat, target: nat): (r: seq<T>)
    requires source < |xs| && target < |xs|
    ensures |r| == |xs| && r[target] == xs[source]
    ensures multiset(r) == multiset(xs)
  {
    var rest := xs[..source] + xs[source + 1..];
    assert xs == xs[..source] + [xs[source]] + xs[source + 1..];
    assert rest == rest[..target] + rest[target..];
    assert multiset(xs) == multiset(xs[..source]) + multiset{xs[source]} + multiset(xs[source + 1..]);
    assert multiset(rest) == multiset(xs[..source]) + multiset(xs[source + 1..]);
    assert multiset(rest) == multiset(rest[..target]) + multiset(rest[target..]);
    var moved := rest[..target] + [xs[source]] + rest[target..];
    assert multiset(moved) == multiset(rest[..target]) + multiset{xs[source]} + multiset(rest[target..]);
    assert multiset(moved) == multiset(rest) + multiset{xs[source]};
    moved
  }

  /** Where the city at index `i` is after the move: the map `handleCityDrop` applies to the displayed indices. */
  function Remap(i: int, source: int, target: int): int
  {
    if i == source then target
    else if i > source && i <= target then i - 1
    else if i < source && i >= target then i + 1
    else i
  }

  /** The remap follows every city: the city at `i` before the move is at `Remap(i)` after it. */
  lemma MovedRemap<T>(xs: seq<T>, source: nat, target: nat, i: nat)
    requires source < |xs| && target < |xs| && i < |xs|
    ensures 0 <= Remap(i, source, target) < |xs|
    ensures Moved(xs, source, target)[Remap(i, source, target)] == xs[i]
  {
  }

  /** The remap is one-to-one, so distinct displayed cities stay distinct. */
  lemma RemapInjective(i: int, j: int, source: int, target: int)
    requires i != j
    ensures Remap(i, source, target) != Remap(j, source, target)
  {
  }

  /** `cities.find(city => city.id === id)` found something. */
  predicate HasId(cities: seq<City>, id: string) {
    exists k :: 0 <= k < |cities| && cities[k].id == id
  }

  /** One entry of the built-in search table. */
  datatype Candidate = Candidate(id: string, name: string, timezone: string)

  const SearchTable: seq<Candidate> := [
    Candidate("beijing", "北京", "Asia/Shanghai"),
    Candidate("shanghai", "上海", "Asia/Shanghai"),
    Candidate("guangzhou", "广州", "Asia/Shanghai"),
    Candidate("shenzhen", "深圳", "Asia/Shanghai"),
    Candidate("hongkong", "香港", "Asia/Hong_Kong"),
    Candidate("taipei", "台北", "Asia/Taipei"),
    Candidate("tokyo", "东京", "Asia/Tokyo"),
    Candidate("seoul", "首尔", "Asia/Seoul"),
    Candidate("singapore", "新加坡", "Asia/Singapore"),
    Candidate("newyork", "纽约", "America/New_York"),
    Candidate("losangeles", "洛杉矶", "America/Los_Angeles"),
    Candidate("vancouver", "温哥华", "America/Vancouver"),
    Candidate("toronto", "多伦多", "America/Toronto"),
    Candidate("london", "伦敦", "Europe/London"),
    Candidate("paris", "巴黎", "Europe/Paris"),
    Candidate("berlin", "柏林", "Europe/Berlin"),
    Candidate("moscow", "莫斯科", "Europe/Moscow"),
    Candidate("sydney", "悉尼", "Australia/Sydney")
  ]

  /** The search filter: name or id contains the query, ignoring case. */
  predicate Matches(c: Candidate, query: string) {
    Contains(Lower(c.name), Lower(query)) || Contains(Lower(c.id), Lower(query))
  }

  /** The entries that match, in table order. */
  function Matching(table: seq<Candidate>, query: string): (r: seq<Candidate>)
    ensures |r| <= |table|
    ensures forall k :: 0 <= k < |r| ==> Matches(r[k], query) && r[k] in table
  {
    if |table| == 0 then []
    else
      var rest := Matching(table[..|table| - 1], query);
      rest + if Matches(table[|table| - 1], query) then [table[|table| - 1]] else []
  }

  /** No matching entry is dropped by the filter. */
  lemma {:induction false} MatchingComplete(table: seq<Candidate>, query: string, c: Candidate)
    requires c in table && Matches(c, query)
    ensures c in Matching(table, query)
  {
    var n := |table| - 1;
    if c != table[n] {
      assert c in table[..n] by {
        var k :| 0 <= k < |table| && table[k] == c;
        assert k < n && table[..n][k] == c;
      }
      MatchingComplete(table[..n], query, c);
    }
  }

  /** `searchCities`: the matching entries, at most five. */
  function SearchCities(query: string): (r: seq<Candidate>)
    ensures |r| == Min(|Matching(SearchTable, query)|, 5)
    ensures r == Matching(SearchTable, query)[..|r|]
    ensures |Matching(SearchTable, query)| <= 5 ==> r == Matching(SearchTable, query)
  {
    var all := Matching(SearchTable, query);
    if |all| <= 5 then all else all[..5]
  }

  /** Every result matches the query, and every match is a result when there are at most five. */
  lemma SearchCitiesSound(query: string)
    ensures forall k :: 0 <= k < |SearchCities(query)| ==>
      Matches(SearchCities(query)[k], query) && SearchCities(query)[k] in SearchTable
  {
    var all := Matching(SearchTable, query);
    var r := SearchCities(query);
    forall k | 0 <= k < |r| ensures Matches(r[k], query) && r[k] in SearchTable {
      assert r[k] == all[k];
    }
  }

  /**
   * The displayed indices `saveCityList` keeps: those naming an existing
   * enabled city, in order.
   */
  function ValidDisplayed(cities: seq<City>, displayed: seq<int>): (r: seq<int>)
    ensures |r| <= |displayed|
    ensures forall k :: 0 <= k < |r| ==> 0 <= r[k] < |cities| && cities[r[k]].enabled && r[k] in displayed
  {
    if |displayed| == 0 then []
    else
      var i := displayed[|displayed| - 1];
      var rest := ValidDisplayed(cities, displayed[..|displayed| - 1]);
      rest + if 0 <= i < |cities| && cities[i].enabled then [i] else []
  }

  /** `cities.findIndex(city => city.enabled)`. */
  function FirstEnabled(cities: seq<City>): (r: int)
    ensures -1 <= r < |cities|
    ensures r >= 0 ==> cities[r].enabled && forall k :: 0 <= k < r ==> !cities[k].enabled
    ensures r == -1 <==> forall k :: 0 <= k < |cities| ==> !cities[k].enabled
  {
    if |cities| == 0 then -1
    else if cities[0].enabled then 0
    else
      var r := FirstEnabled(cities[1..]);
      assert forall k :: 1 <= k < |cities| ==> cities[k] == cities[1..][k - 1];
      if r == -1 then -1 else r + 1
  }

  /**
   * The cities shown on the page: the displayed indices mapped to cities,
   * keeping existing enabled ones, the first two of them.
   */
  function CitiesToShow(cities: seq<City>, displayed: seq<int>): (r: seq<City>)
    ensures |r| <= 2
    ensures forall k :: 0 <= k < |r| ==> r[k].enabled && r[k] in cities
  {
    var shown := seq(|ValidDisplayed(cities, displayed)|, k requires 0 <= k < |ValidDisplayed(cities, displayed)| =>
      cities[ValidDisplayed(cities, displayed)[k]]);
    if |shown| <= 2 then shown else shown[..2]
  }

  /** With every displayed index valid, at least one shown city means one or two shown. */
  lemma ShownFollowsDisplayed(cities: seq<City>, displayed: seq<int>)
    requires forall k :: 0 <= k < |displayed| ==> 0 <= displayed[k] < |cities| && cities[displayed[k]].enabled
    ensures |CitiesToShow(cities, displayed)| == Min(|displayed|, 2)
    ensures forall k :: 0 <= k < |CitiesToShow(cities, displayed)| ==> CitiesToShow(cities, displayed)[k] == cities[displayed[k]]
  {
    ValidDisplayedAllValid(cities, displayed);
  }

  lemma {:induction false} ValidDisplayedAllValid(cities: seq<City>, displayed: seq<int>)
    requires forall k :: 0 <= k < |displayed| ==> 0 <= displayed[k] < |cities| && cities[displayed[k]].enabled
    ensures ValidDisplayed(cities, displayed) == displayed
  {
    if |displayed| > 0 {
      ValidDisplayedAllValid(cities, displayed[..|displayed| - 1]);
      assert displayed[..|displayed| - 1] + [displayed[|displayed| - 1]] == displayed;
    }
  }

  /**
   * The dot toggle on the displayed indices: a shown city is removed unless
   * it is the only one; another city is appended when fewer than two are
   * shown and otherwise replaces the second.
   */
  function Toggled(displayed: seq<int>, cityIndex: int): (r: seq<int>)
  {
    if cityIndex in displayed then
      if |displayed| > 1 then
        var e := IndexOf(displayed, cityIndex);
        displayed[..e] + displayed[e + 1..]
      else displayed
    else if |displayed| >= 2 then displayed[1 := cityIndex]
    else displayed + [cityIndex]
  }

  /** `indexOf`. */
  function IndexOf(xs: seq<int>, x: int): (r: nat)
    requires x in xs
    ensures r < |xs| && xs[r] == x && forall k :: 0 <= k < r ==> xs[k] != x
  {
    if xs[0] == x then 0 else 1 + IndexOf(xs[1..], x)
  }

  /** Toggling keeps one or two cities displayed, and a city clicked while hidden becomes displayed. */
  lemma ToggledStaysInRange(displayed: seq<int>, cityIndex: int)
    requires 1 <= |displayed| <= 2
    ensures 1 <= |Toggled(displayed, cityIndex)| <= 2
    ensures cityIndex !in displayed ==> cityIndex in Toggled(displayed, cityIndex)
    ensures cityIndex in displayed && |displayed| == 2 ==> |Toggled(displayed, cityIndex)| == 1
  {
    if cityIndex !in displayed && |displayed| >= 2 {
      assert Toggled(displayed, cityIndex)[1] == cityIndex;
    }
  }

  class CityList {
    var cities: seq<City>
    var displayedCityIndices: seq<int>
    var cityDragSource: int
    /** The list as it was when the editor opened. */
    var originalCities: seq<City>

    constructor ()
      ensures cities == [] && displayedCityIndices == [0, 1] && cityDragSource == -1 && originalCities == []
    {
      cities := [];
      displayedCityIndices := [0, 1];
      cityDragSource := -1;
      originalCities := [];
    }

    /**
     * `openCityEditModal`: snapshot the list (a deep copy, so equal as a
     * value) for `SaveCityList`'s change test; the rest of the state is kept.
     */
    method OpenCityEditModal()
      modifies this`originalCities
      ensures originalCities == cities
    {
      originalCities := cities;
    }

    /** `handleCityDragStart`. */
    method DragStart(index: int)
      modifies this`cityDragSource
      ensures cityDragSource == index
    {
      cityDragSource := index;
    }

    /**
     * `handleCityDrop` on the item at `target`: move the dragged city there
     * and remap the displayed indices so that they name the same cities.
     */
    method HandleCityDrop(target: int)
      requires 0 <= target < |cities|
      requires cityDragSource == -1 || 0 <= cityDragSource < |cities|
      modifies this`cities, this`displayedCityIndices
      ensures target == cityDragSource || cityDragSource == -1 ==>
        cities == old(cities) && displayedCityIndices == old(displayedCityIndices)
      ensures target != cityDragSource && cityDragSource != -1 ==>
        cities == Moved(old(cities), cityDragSource, target)
        && |displayedCityIndices| == |old(displayedCityIndices)|
        && forall k :: 0 <= k < |displayedCityIndices| ==>
             displayedCityIndices[k] == Remap(old(displayedCityIndices)[k], cityDragSource, target)
      ensures multiset(cities) == multiset(old(cities))
      // every displayed city that existed is still the displayed city
      ensures forall k :: 0 <= k < |displayedCityIndices| && 0 <= old(displayedCityIndices)[k] < |cities| ==>
        0 <= displayedCityIndices[k] < |cities| && cities[displayedCityIndices[k]] == old(cities)[old(displayedCityIndices)[k]]
    {
      if target == cityDragSource || cityDragSource == -1 {
        return;
      }
      var source := cityDragSource;
      var movedCity := cities[source];
      var rest := cities[..source] + cities[source + 1..];
      cities := rest[..target] + [movedCity] + rest[target..];
      assert cities == Moved(old(cities), source, target);
      var shown := displayedCityIndices;
      displayedCityIndices := seq(|shown|, k requires 0 <= k < |shown| => Remap(shown[k], source, target));
      forall k | 0 <= k < |displayedCityIndices| && 0 <= old(displayedCityIndices)[k] < |cities|
        ensures 0 <= displayedCityIndices[k] < |cities|
        ensures cities[displayedCityIndices[k]] == old(cities)[old(displayedCityIndices)[k]]
      {
        MovedRemap(old(cities), source, target, old(displayedCityIndices)[k]);
      }
    }

    /**
     * `addCity`: the id defaults to the lower-cased name without white
     * space and the time zone to Asia/Shanghai; an existing id changes
     * nothing, otherwise the enabled city is appended.
     */
    method AddCity(name: string, id: string, timezone: string) returns (added: bool)
      modifies this`cities
      ensures var id' := if id == [] then Normalised(name) else id;
        var tz := if timezone == [] then DefaultTimezone else timezone;
        (added <==> !HasId(old(cities), id'))
        && (added ==> cities == old(cities) + [City(id', name, tz, true)])
        && (!added ==> cities == old(cities))
    {
      var cityId := id;
      if cityId == [] {
        cityId := Normalised(name);
      }
      var tz := timezone;
      if tz == [] {
        tz := DefaultTimezone;
      }
      if HasId(cities, cityId) {
        return false;
      }
      cities := cities + [City(cityId, name, tz, true)];
      return true;
    }

    /** The delete button of the item at `index`: `splice(index, 1)`; the displayed indices are not touched. */
    method DeleteCity(index: int)
      requires 0 <= index < |cities|
      modifies this`cities
      ensures cities == old(cities)[..index] + old(cities)[index + 1..]
      ensures multiset(cities) + multiset{old(cities)[index]} == multiset(old(cities))
    {
      assert cities == cities[..index] + [cities[index]] + cities[index + 1..];
      cities := cities[..index] + cities[index + 1..];
    }

    /** The checkbox of the item at `index`. */
    method SetEnabled(index: int, checked: bool)
      requires 0 <= index < |cities|
      modifies this`cities
      ensures cities == old(cities)[index := old(cities)[index].(enabled := checked)]
    {
      cities := cities[index := cities[index].(enabled := checked)];
    }

    /**
     * `saveCityList`: an unchanged list changes nothing; when some city is
     * enabled the displayed indices are narrowed to existing enabled cities,
     * falling back to the first enabled one.
     */
    method SaveCityList()
      modifies this`displayedCityIndices
      ensures cities == originalCities || FirstEnabled(cities) == -1 ==> displayedCityIndices == old(displayedCityIndices)
      ensures cities != originalCities && FirstEnabled(cities) != -1 ==>
        displayedCityIndices == (if ValidDisplayed(cities, old(displayedCityIndices)) == [] then [FirstEnabled(cities)]
                                 else ValidDisplayed(cities, old(displayedCityIndices)))
      ensures cities != originalCities && FirstEnabled(cities) != -1 ==>
        |displayedCityIndices| >= 1
        && forall k :: 0 <= k < |displayedCityIndices| ==>
             0 <= displayedCityIndices[k] < |cities| && cities[displayedCityIndices[k]].enabled
    {
      if cities == originalCities {
        return;
      }
      if FirstEnabled(cities) != -1 {
        displayedCityIndices := ValidDisplayed(cities, displayedCityIndices);
        if |displayedCityIndices| == 0 {
          var firstEnabledIndex := FirstEnabled(cities);
          if firstEnabledIndex != -1 {
            displayedCityIndices := [firstEnabledIndex];
          }
        }
      }
    }

    /** A click on the dot of the city at `cityIndex`. */
    method DotClick(cityIndex: int)
      modifies this`displayedCityIndices
      ensures displayedCityIndices == Toggled(old(displayedCityIndices), cityIndex)
      ensures 1 <= |old(displayedCityIndices)| <= 2 ==> 1 <= |displayedCityIndices| <= 2
    {
      if cityIndex in displayedCityIndices {
        var existingIndex := IndexOf(displayedCityIndices, cityIndex);
        if |displayedCityIndices| > 1 {
          displayedCityIndices := displayedCityIndices[..existingIndex] + displayedCityIndices[existingIndex + 1..];
        }
      } else {
        if |displayedCityIndices| >= 2 {
          displayedCityIndices := displayedCityIndices[1 := cityIndex];
        } else {
          displayedCityIndices := displayedCityIndices + [cityIndex];
        }
      }
      if 1 <= |old(displayedCityIndices)| <= 2 {
        ToggledStaysInRange(old(displayedCityIndices), cityIndex);
      }
    }
  }
}

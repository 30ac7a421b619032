/**
 The summary statistics shown above the list: the most common
 "city, state" location and the longest brewery name of the filtered records.
 */
module Statistics {
  import opened Breweries
  import opened Distinct

  // ---------------------------------------------------------------------
  // Most common location
  // ---------------------------------------------------------------------

  /** Sum of the counts stored under `keys`. */
  function Total(keys: seq<string>, counts: map<string, nat>): nat
    requires forall k :: k in keys ==> k in counts
  {
    if keys == [] then 0 else Total(keys[..|keys| - 1], counts) + counts[keys[|keys| - 1]]
  }

  /** The total only looks at the counts stored under `keys`. */
  lemma {:induction false} TotalFrame(keys: seq<string>, counts: map<string, nat>, counts': map<string, nat>)
    requires forall k :: k in keys ==> k in counts && k in counts' && counts[k] == counts'[k]
    ensures Total(keys, counts) == Total(keys, counts')
  {
    if keys != [] {
      TotalFrame(keys[..|keys| - 1], counts, counts');
    }
  }

  /** Adding one to the count of a key listed once adds one to the total. */
  lemma {:induction false} TotalIncrement(keys: seq<string>, counts: map<string, nat>, loc: string)
    requires NoDuplicates(keys) && loc in keys
    requires forall k :: k in keys ==> k in counts
    ensures Total(keys, counts[loc := counts[loc] + 1]) == Total(keys, counts) + 1
  {
    var prefix, last := keys[..|keys| - 1], keys[|keys| - 1];
    var bumped := counts[loc := counts[loc] + 1];
    assert forall k :: k in prefix ==> k in keys;
    if last == loc {
      assert forall j :: 0 <= j < |prefix| ==> prefix[j] != loc;
      TotalFrame(prefix, counts, bumped);
    } else {
      assert loc in prefix;
      TotalIncrement(prefix, counts, loc);
    }
  }

  /**
   `keys` and `counts` are the `locationCount` dictionary built from
   `locations`: every location listed once, in order of first appearance,
   with its number of occurrences; the counts add up to `|locations|`.
   */
  ghost predicate IsLocationCount(keys: seq<string>, counts: map<string, nat>, locations: seq<string>) {
    && FirstAppearanceOrder(keys, locations)
    && (forall loc :: loc in counts <==> loc in keys)
    && (forall loc :: loc in counts ==> counts[loc] == multiset(locations)[loc])
    && Total(keys, counts) == |locations|
  }

  /** One step of `acc[location] = (acc[location] || 0) + 1` on a location already counted. */
  lemma CountExisting(keys: seq<string>, counts: map<string, nat>, locations: seq<string>, location: string)
    requires IsLocationCount(keys, counts, locations)
    requires location in counts
    ensures IsLocationCount(keys, counts[location := counts[location] + 1], locations + [location])
  {
    var counts' := counts[location := counts[location] + 1];
    var locations' := locations + [location];
    assert FirstAppearanceOrder(keys, locations') by {
      FirstAppearanceStep(keys, locations, location);
    }
    assert forall loc :: loc in counts' ==> counts'[loc] == multiset(locations')[loc] by {
      assert multiset(locations') == multiset(locations) + multiset{location};
    }
    assert Total(keys, counts') == |locations'| by {
      TotalIncrement(keys, counts, location);
    }
  }

  /** One step of `acc[location] = (acc[location] || 0) + 1` on a new location. */
  lemma CountNew(keys: seq<string>, counts: map<string, nat>, locations: seq<string>, location: string)
    requires IsLocationCount(keys, counts, locations)
    requires location !in counts
    ensures IsLocationCount(keys + [location], counts[location := 1], locations + [location])
  {
    var keys', counts' := keys + [location], counts[location := 1];
    var locations' := locations + [location];
    assert FirstAppearanceOrder(keys', locations') by {
      FirstAppearanceStep(keys, locations, location);
    }
    assert forall loc :: loc in counts' ==> counts'[loc] == multiset(locations')[loc] by {
      assert multiset(locations') == multiset(locations) + multiset{location};
      assert location !in locations;
    }
    assert Total(keys', counts') == |locations'| by {
      TotalFrame(keys, counts, counts');
      assert keys'[..|keys|] == keys;
    }
  }

  /** The locations of one more record extend the locations of the prefix. */
  lemma LocationColumnExtend(filtered: seq<Brewery>, i: nat)
    requires i < |filtered|
    ensures LocationColumn(filtered[..i + 1]) == LocationColumn(filtered[..i]) + [Location(filtered[i])]
  {
  }

  /**
   The `locationCount` dictionary of the filtered records: `keys` is
   `Object.keys(locationCount)` (insertion order) and `counts` its values.
   */
  method CountLocations(filtered: seq<Brewery>) returns (keys: seq<string>, counts: map<string, nat>)
    ensures IsLocationCount(keys, counts, LocationColumn(filtered))
    ensures forall loc :: loc in counts ==> counts[loc] >= 1
    ensures Total(keys, counts) == |filtered|
  {
    keys, counts := [], map[];
    ghost var seen: seq<string> := [];
    var i := 0;
    while i < |filtered|
      invariant 0 <= i <= |filtered|
      invariant seen == LocationColumn(filtered[..i])
      invariant IsLocationCount(keys, counts, seen)
    {
      var location := Location(filtered[i]);
      if location in counts {
        CountExisting(keys, counts, seen, location);
        counts := counts[location := counts[location] + 1];
      } else {
        CountNew(keys, counts, seen, location);
        keys := keys + [location];
        counts := counts[location := 1];
      }
      LocationColumnExtend(filtered, i);
      seen := seen + [location];
      i := i + 1;
    }
    assert filtered[..i] == filtered;
  }

  /** `keys[i]` has the largest count and no earlier key reaches it. */
  ghost predicate FirstMaximumAt(keys: seq<string>, counts: map<string, nat>, i: int)
    requires forall k :: k in keys ==> k in counts
  {
    && 0 <= i < |keys|
    && (forall j :: 0 <= j < |keys| ==> counts[keys[j]] <= counts[keys[i]])
    && (forall j :: 0 <= j < i ==> counts[keys[j]] < counts[keys[i]])
  }

  /**
   The `forEach` over the keys with a running maximum that a key replaces
   only with a strictly larger count, starting from `''` and `0`.
   */
  method PickMostCommon(keys: seq<string>, counts: map<string, nat>) returns (mostCommon: string, maxCount: nat)
    requires forall k :: k in keys ==> k in counts
    ensures forall j :: 0 <= j < |keys| ==> counts[keys[j]] <= maxCount
    ensures maxCount == 0 ==> mostCommon == ""
    ensures maxCount > 0 ==> exists i :: FirstMaximumAt(keys, counts, i) && mostCommon == keys[i] && counts[keys[i]] == maxCount
  {
    mostCommon, maxCount := "", 0;
    ghost var at := -1;
    for n := 0 to |keys|
      invariant forall j :: 0 <= j < n ==> counts[keys[j]] <= maxCount
      invariant maxCount == 0 ==> mostCommon == "" && at == -1
      invariant maxCount > 0 ==> 0 <= at < n && mostCommon == keys[at] && counts[keys[at]] == maxCount
      invariant maxCount > 0 ==> forall j :: 0 <= j < at ==> counts[keys[j]] < maxCount
    {
      if counts[keys[n]] > maxCount {
        mostCommon, maxCount := keys[n], counts[keys[n]];
        at := n;
      }
    }
    if maxCount > 0 {
      assert FirstMaximumAt(keys, counts, at);
    }
  }

  /**
   `loc` is a location of `locations`, no location occurs more often, and
   every location that first occurs before it occurs strictly less often.
   */
  ghost predicate IsMostCommon(locations: seq<string>, loc: string) {
    && loc in locations
    && (forall x :: x in locations ==> multiset(locations)[x] <= multiset(locations)[loc])
    && (forall j :: 0 <= j < IndexOf(locations, loc) ==> multiset(locations)[locations[j]] < multiset(locations)[loc])
  }

  /** Every location key has the ", " separator, so none is empty. */
  lemma LocationsNonEmpty(filtered: seq<Brewery>)
    ensures forall x :: x in LocationColumn(filtered) ==> x != ""
  {
  }

  /**
   The most common location of the filtered records: empty exactly when there
   are no records, otherwise the most frequent "city, state" key, ties going
   to the key that appears first.
   */
  method MostCommonLocation(filtered: seq<Brewery>) returns (mostCommon: string)
    ensures mostCommon == "" <==> filtered == []
    ensures filtered != [] ==> IsMostCommon(LocationColumn(filtered), mostCommon)
  {
    var locations := LocationColumn(filtered);
    var keys, counts := CountLocations(filtered);
    var maxCount;
    mostCommon, maxCount := PickMostCommon(keys, counts);
    LocationsNonEmpty(filtered);
    if filtered == [] {
      assert keys == [] by {
        HeadIsElement(keys);
      }
    } else {
      assert locations[0] in keys;
      var k0 := IndexOf(keys, locations[0]);
      assert counts[keys[k0]] >= 1;
      ghost var i :| FirstMaximumAt(keys, counts, i) && mostCommon == keys[i] && counts[keys[i]] == maxCount;
      MostCommonFromKeys(locations, keys, counts, i);
    }
  }

  /** The first maximum over the dictionary is the most common location. */
  lemma MostCommonFromKeys(locations: seq<string>, keys: seq<string>, counts: map<string, nat>, i: int)
    requires FirstAppearanceOrder(keys, locations)
    requires forall loc :: loc in counts <==> loc in keys
    requires forall loc :: loc in counts ==> counts[loc] == multiset(locations)[loc]
    requires FirstMaximumAt(keys, counts, i)
    ensures IsMostCommon(locations, keys[i])
  {
    var loc := keys[i];
    assert loc in keys;
    forall x | x in locations ensures multiset(locations)[x] <= multiset(locations)[loc] {
      assert keys[IndexOf(keys, x)] == x;
    }
    forall j | 0 <= j < IndexOf(locations, loc)
      ensures multiset(locations)[locations[j]] < multiset(locations)[loc]
    {
      var y := locations[j];
      var m := IndexOf(keys, y);
      assert keys[m] == y;
      assert IndexOf(locations, y) <= j;
    }
  }

  // ---------------------------------------------------------------------
  // Longest name
  // ---------------------------------------------------------------------

  /**
   The `reduce` over the records: the accumulator is replaced by a record's
   name only when that name is strictly longer.
   */
  function LongestFrom(acc: string, breweries: seq<Brewery>): (longest: string)
    ensures |longest| >= |acc|
    ensures forall j :: 0 <= j < |breweries| ==> |breweries[j].name| <= |longest|
    ensures longest == acc || exists i :: 0 <= i < |breweries| && longest == breweries[i].name
    decreases |breweries|
  {
    if breweries == [] then acc
    else
      var next := if |breweries[0].name| > |acc| then breweries[0].name else acc;
      LongestFrom(next, breweries[1..])
  }

  /** The longest name of the filtered records, starting from `''`. */
  function LongestName(filtered: seq<Brewery>): (longest: string)
    ensures filtered == [] ==> longest == ""
    ensures filtered != [] ==> exists i :: 0 <= i < |filtered| && longest == filtered[i].name
    ensures forall j :: 0 <= j < |filtered| ==> |filtered[j].name| <= |longest|
  {
    var longest := LongestFrom("", filtered);
    assert filtered != [] && longest == "" ==> filtered[0].name == longest;
    longest
  }

  /** `filtered[i].name` is as long as any name and strictly longer than every earlier one. */
  ghost predicate FirstLongestAt(filtered: seq<Brewery>, i: int) {
    && 0 <= i < |filtered|
    && (forall j :: 0 <= j < |filtered| ==> |filtered[j].name| <= |filtered[i].name|)
    && (forall j :: 0 <= j < i ==> |filtered[j].name| < |filtered[i].name|)
  }

  /**
   The reduce either keeps its accumulator, when no name is longer, or ends on
   the first name of maximal length, which is then longer than the accumulator.
   */
  lemma {:induction false} LongestFromSpec(acc: string, breweries: seq<Brewery>)
    ensures var r := LongestFrom(acc, breweries);
      || (r == acc && forall j :: 0 <= j < |breweries| ==> |breweries[j].name| <= |acc|)
      || (|r| > |acc| && exists i :: FirstLongestAt(breweries, i) && r == breweries[i].name)
    decreases |breweries|
  {
    if breweries != [] {
      var b, rest := breweries[0], breweries[1..];
      var next := if |b.name| > |acc| then b.name else acc;
      LongestFromSpec(next, rest);
      var r := LongestFrom(next, rest);
      assert r == LongestFrom(acc, breweries);
      if r == next && forall j :: 0 <= j < |rest| ==> |rest[j].name| <= |next| {
        if |b.name| > |acc| {
          assert FirstLongestAt(breweries, 0);
        }
      } else {
        var i :| FirstLongestAt(rest, i) && r == rest[i].name && |r| > |next|;
        assert FirstLongestAt(breweries, i + 1);
      }
    }
  }

  /**
   The longest name is empty for no records; otherwise it is the name of the
   first record whose name is as long as any other.
   */
  lemma LongestNameSpec(filtered: seq<Brewery>)
    ensures filtered == [] ==> LongestName(filtered) == ""
    ensures filtered != [] ==> exists i :: FirstLongestAt(filtered, i) && LongestName(filtered) == filtered[i].name
  {
    LongestFromSpec("", filtered);
    if filtered != [] && LongestName(filtered) == "" {
      assert |filtered[0].name| == 0;
      assert FirstLongestAt(filtered, 0);
    }
  }
}

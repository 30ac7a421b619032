/**
 Concrete scenarios of the explorer: what the contracts of the facet
 extraction and the statistics pin down on small record lists.
 */
module Scenarios {
  import opened Breweries
  import opened Distinct
  import opened Statistics

  /** States CA, NY, CA, TX give the facet list CA, NY, TX. */
  lemma FacetOrderExample(states: seq<string>)
    requires FirstAppearanceOrder(states, ["CA", "NY", "CA", "TX"])
    ensures states == ["CA", "NY", "TX"]
  {
    var s := ["CA", "NY", "CA", "TX"];
    assert IndexOf(s, "CA") == 0 && IndexOf(s, "NY") == 1 && IndexOf(s, "TX") == 3;
    assert FirstAppearanceOrder(["CA", "NY", "TX"], s);
    FirstAppearanceUnique(states, ["CA", "NY", "TX"], s);
  }

  /** Locations "A, X", "B, Y", "A, X": the location seen twice wins. */
  lemma MostCommonExample(loc: string)
    requires IsMostCommon(["A, X", "B, Y", "A, X"], loc)
    ensures loc == "A, X"
  {
  }

  /** Locations "A, X", "B, Y", each seen once: the first one wins the tie. */
  lemma MostCommonTieExample(loc: string)
    requires IsMostCommon(["A, X", "B, Y"], loc)
    ensures loc == "A, X"
  {
  }

  function Named(name: string): Brewery {
    Brewery("", name, "", "", "")
  }

  /** Names Ale, IPA, Porter give Porter; names Ale, IPA give the first, Ale. */
  lemma LongestNameExamples()
    ensures LongestName([Named("Ale"), Named("IPA"), Named("Porter")]) == "Porter"
    ensures LongestName([Named("Ale"), Named("IPA")]) == "Ale"
  {
  }
}

/**
 Facet extraction: the options offered by the state and type selects, each
 distinct value of the full record list once, in order of first appearance.
 */
module Facets {
  import opened Breweries
  import opened Distinct

  /**
   The `reduce` accumulator of the facet extraction: walk the values and push
   each one the accumulator does not yet include.
   */
  method CollectDistinct(values: seq<string>) returns (acc: seq<string>)
    ensures FirstAppearanceOrder(acc, values)
    ensures |acc| <= |values|
  {
    acc := [];
    var i := 0;
    while i < |values|
      invariant 0 <= i <= |values|
      invariant FirstAppearanceOrder(acc, values[..i])
      invariant |acc| <= i
    {
      assert values[..i + 1] == values[..i] + [values[i]];
      FirstAppearanceStep(acc, values[..i], values[i]);
      if values[i] !in acc {
        acc := acc + [values[i]];
      }
      i := i + 1;
    }
    assert values[..i] == values;
  }

  /**
   The available states and the available brewery types of `data`, as the
   component derives them once the records have arrived.
   */
  method ExtractFacets(data: seq<Brewery>) returns (states: seq<string>, types: seq<string>)
    ensures FirstAppearanceOrder(states, StateColumn(data))
    ensures FirstAppearanceOrder(types, TypeColumn(data))
    ensures |states| <= |data| && |types| <= |data|
    ensures data == [] ==> states == [] && types == []
  {
    states := CollectDistinct(StateColumn(data));
    types := CollectDistinct(TypeColumn(data));
  }
}

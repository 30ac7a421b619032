/**
 The component's state updates and the derivation pipeline it re-runs:
 filter changes from the two selects, then filter, count and pick the
 statistics for the current records and criteria.
 */
module Explorer {
  import opened Breweries
  import opened FilterEngine
  import opened Statistics

  /** The `name` attribute of the select that fired the change event. */
  datatype FilterName = StateSelect | TypeSelect

  /** `filters[name]`. */
  function Selected(filters: Filters, name: FilterName): string {
    match name
    case StateSelect => filters.state
    case TypeSelect => filters.breweryType
  }

  /**
   `handleFilterChange`: `{...prevFilters, [name]: value}` — the named filter
   takes the new value and the other one keeps its previous value.
   */
  function HandleFilterChange(prevFilters: Filters, name: FilterName, value: string): (filters: Filters)
    ensures Selected(filters, name) == value
    ensures forall other :: other != name ==> Selected(filters, other) == Selected(prevFilters, other)
  {
    match name
    case StateSelect => prevFilters.(state := value)
    case TypeSelect => prevFilters.(breweryType := value)
  }

  /** Two changes of the same select: the later value is the one kept. */
  lemma FilterChangeLastWins(filters: Filters, name: FilterName, first: string, second: string)
    ensures HandleFilterChange(HandleFilterChange(filters, name, first), name, second)
         == HandleFilterChange(filters, name, second)
  {
  }

  /** Changes of the two different selects do not interfere, in either order. */
  lemma FilterChangesCommute(filters: Filters, state: string, breweryType: string)
    ensures HandleFilterChange(HandleFilterChange(filters, StateSelect, state), TypeSelect, breweryType)
         == HandleFilterChange(HandleFilterChange(filters, TypeSelect, breweryType), StateSelect, state)
         == Filters(state, breweryType)
  {
  }

  /** What the component shows for the current records and criteria. */
  datatype Summary = Summary(
    filtered: seq<Brewery>,
    total: nat,
    mostCommonLocation: string,
    longestName: string)

  /**
   The effects run in order after any change of the records, the search term
   or the filters: filter the records, then derive the statistics from the
   filtered list.
   */
  method Recompute(breweries: seq<Brewery>, searchTerm: string, filters: Filters) returns (summary: Summary)
    ensures summary.filtered == ApplyFilters(breweries, searchTerm, filters)
    ensures summary.total == |summary.filtered|
    ensures summary.mostCommonLocation == "" <==> summary.filtered == []
    ensures summary.filtered != [] ==> IsMostCommon(LocationColumn(summary.filtered), summary.mostCommonLocation)
    ensures summary.longestName == LongestName(summary.filtered)
    ensures breweries == [] ==> summary == Summary([], 0, "", "")
  {
    var filtered := ApplyFilters(breweries, searchTerm, filters);
    var mostCommon := MostCommonLocation(filtered);
    summary := Summary(filtered, |filtered|, mostCommon, LongestName(filtered));
  }
}

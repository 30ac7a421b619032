/**
 Data model of the brewery explorer: the records fetched from the catalogue
 and the two categorical filter selections the user edits.
 */
module Breweries {

  /** One brewery record as the catalogue returns it (all fields strings). */
  datatype Brewery = Brewery(
    id: string,
    name: string,
    city: string,
    state: string,
    breweryType: string)

  /** The `{state, type}` filter object; an empty string means "any". */
  datatype Filters = Filters(state: string, breweryType: string)

  /** The filters with nothing selected, as the component starts out. */
  const NoFilters := Filters("", "")

  /** The location key `${city}, ${state}` used to group records. */
  function Location(b: Brewery): (loc: string)
    ensures |loc| == |b.city| + 2 + |b.state|
  {
    b.city + ", " + b.state
  }

  /** The `state` column of a list of records, in record order. */
  function StateColumn(bs: seq<Brewery>): (col: seq<string>)
    ensures |col| == |bs|
  {
    seq(|bs|, i requires 0 <= i < |bs| => bs[i].state)
  }

  /** The `brewery_type` column of a list of records, in record order. */
  function TypeColumn(bs: seq<Brewery>): (col: seq<string>)
    ensures |col| == |bs|
  {
    seq(|bs|, i requires 0 <= i < |bs| => bs[i].breweryType)
  }

  /** The location key of every record, in record order. */
  function LocationColumn(bs: seq<Brewery>): (col: seq<string>)
    ensures |col| == |bs|
  {
    seq(|bs|, i requires 0 <= i < |bs| => Location(bs[i]))
  }
}

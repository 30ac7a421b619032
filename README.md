# Brewery explorer: the data derivations, modelled in Dafny

The brewery explorer is a single React component (`project5/src/App.jsx`). It
fetches a list of brewery records once, offers the distinct states and brewery
types as select options, and filters the list by a case-insensitive name
search and the two selections. For the filtered list it shows the record
count, the most common `"city, state"` location and the longest brewery name.

This project models the data derivations of that component and proves what they
compute. The fetched records are an input sequence. The React effects become
explicit calls: `Facets.ExtractFacets` runs once on the full list, and
`Explorer.Recompute` runs the filter and then the statistics of the filtered
list.

- `breweries.dfy` (module `Breweries`): the record and filter datatypes, and the
  location key `city + ", " + state`.
- `distinct.dfy` (module `Distinct`): "each distinct value once, in order of first
  appearance" (`FirstAppearanceOrder`). It is proved to determine its sequence
  uniquely, and one accumulator step is proved to preserve it.
- `facets.dfy` (module `Facets`): the two `reduce` loops that push a value when
  the accumulator does not include it yet. They are imperative loops with
  invariants.
- `filter.dfy` (module `FilterEngine`): the `breweries.filter` predicate and the
  filter, as pure functions. Lemmas cover letter case, the empty criteria and
  idempotence.
- `statistics.dfy` (module `Statistics`): the location-count dictionary and the
  strict-`>` running maximum, both as loops. Then the longest-name `reduce`, as a
  pure fold with lemmas.
- `explorer.dfy` (module `Explorer`): `handleFilterChange` and the recomputation
  pipeline.
- `scenarios.dfy` (module `Scenarios`): small worked cases (facet order and the
  two tie-breaks). They show that the contracts fix the answer.

Three details of the code shape the model:
- The type filter's key is `type`, which is a Dafny keyword. In the model it is
  the `breweryType` field of `Filters`, and the select's name is
  `FilterName.TypeSelect`.
- The search lower-cases with `toLowerCase`; it does not case-fold.
- A selection counts as empty by JavaScript truthiness, so only the empty
  string means "any".

The location dictionary is a plain object. Its keys are modelled as a sequence in
insertion order, with a `map` for the counts. This matches `Object.keys` because
every key contains `", "`. So no key is integer-like, which would reorder it, and
no key names an `Object.prototype` property, which `acc[location] || 0` would
read.

## Model

| member | source | states |
|---|---|---|
| `Breweries.Location` | project5/src/App.jsx:64 | the location key is the city, the two characters `", "` and the state, so it is never empty |
| `Distinct.FirstAppearanceStep` | project5/src/App.jsx:27-29 | one "if not includes then push" step keeps the accumulator in first-appearance order of the values seen so far |
| `Distinct.FirstAppearanceUnique` | project5/src/App.jsx:26-39 | two sequences that both list the distinct values of `s` in first-appearance order are equal, so that property fixes the facet list completely |
| `Facets.CollectDistinct` | project5/src/App.jsx:26-31 | the accumulator ends with every value of the input exactly once, nothing else, ordered by first appearance, and no longer than the input |
| `Facets.ExtractFacets` | project5/src/App.jsx:26-39 | the states and types lists are the distinct state and type values of the records in first-appearance order; both are empty for no records |
| `FilterEngine.ToLower` | project5/src/App.jsx:52 | an upper-case ASCII letter becomes the lower-case letter 32 code points above it; every other character is unchanged |
| `FilterEngine.Lower` | project5/src/App.jsx:52 | the lower-cased string equals the input up to letter case and contains no upper-case ASCII letter |
| `FilterEngine.LowerIgnoresCase` | project5/src/App.jsx:52 | two strings that differ only in the case of ASCII letters have the same lower-cased form |
| `FilterEngine.Includes` | project5/src/App.jsx:52 | `s.includes(t)` holds exactly when `t` occurs at some position of `s` |
| `FilterEngine.Matches` | project5/src/App.jsx:52-55 | a record can match only if the search term is no longer than its name; with an empty search term and no selections every record matches |
| `FilterEngine.MatchesIgnoresCase` | project5/src/App.jsx:52 | changing the letter case of the search term, of the record's name, or of both, does not change whether the record matches |
| `FilterEngine.ApplyFilters` | project5/src/App.jsx:51-56 | the result is an order-preserving subsequence of the records; a record is in it iff it is in the input and matches name, state and type; each matching record keeps its multiplicity, and a non-matching one does not appear |
| `FilterEngine.EmptyTermMatchesAll` | project5/src/App.jsx:52 | an empty search term is contained in every lower-cased name |
| `FilterEngine.CaseInsensitiveSearch` | project5/src/App.jsx:52 | the term "ALE" finds the name "Pale Ale Brewing" |
| `FilterEngine.FilterKeepsMatching` | project5/src/App.jsx:51-56 | a list whose records all match is returned unchanged |
| `FilterEngine.EmptyCriteriaIdentity` | project5/src/App.jsx:52-54 | with an empty search term and no selections, the filtered list is the input list |
| `FilterEngine.FilterIdempotent` | project5/src/App.jsx:51-56 | filtering the filtered list again with the same criteria returns it unchanged |
| `Statistics.CountExisting` | project5/src/App.jsx:65 | adding one to a location already counted keeps the dictionary equal to the counts of the longer location list |
| `Statistics.CountNew` | project5/src/App.jsx:65 | starting a new location at 1 appends it to the keys and keeps the dictionary equal to the counts of the longer location list |
| `Statistics.CountLocations` | project5/src/App.jsx:63-67 | the keys are the distinct locations in first-appearance order; each count is the number of records at that location and at least 1; the counts sum to the number of records |
| `Statistics.PickMostCommon` | project5/src/App.jsx:70-78 | the running maximum ends at least every key's count; it is `''` and 0 when no count is positive; otherwise the result is a key with that count, and every earlier key has a smaller count |
| `Statistics.MostCommonFromKeys` | project5/src/App.jsx:70-78 | the first maximum over the insertion-ordered dictionary is a location of the records, occurs at least as often as any other, and every location that first appears before it occurs strictly less often |
| `Statistics.LocationsNonEmpty` | project5/src/App.jsx:64 | no location key of any record is the empty string |
| `Statistics.MostCommonLocation` | project5/src/App.jsx:63-80 | the most common location is `''` exactly when there are no records; otherwise it is the most frequent location, with ties going to the one that appears first |
| `Statistics.LongestFrom` | project5/src/App.jsx:85-91 | the reduce result is at least as long as the accumulator and as every name, and it is either the accumulator or one of the names |
| `Statistics.LongestName` | project5/src/App.jsx:85-91 | the longest name is `''` for no records; otherwise it is the name of some record, and no record's name is longer |
| `Statistics.LongestFromSpec` | project5/src/App.jsx:85-91 | the reduce either keeps its accumulator, when no name is longer, or returns the first name of maximal length, which is then longer than the accumulator |
| `Statistics.LongestNameSpec` | project5/src/App.jsx:85-91 | the longest name is `''` for no records; otherwise it is some record's name, no name is longer, and every earlier name is strictly shorter |
| `Explorer.HandleFilterChange` | project5/src/App.jsx:101-107 | the named filter takes the new value and the other filter keeps its previous value |
| `Explorer.FilterChangeLastWins` | project5/src/App.jsx:101-107 | two changes of the same select leave the later value |
| `Explorer.FilterChangesCommute` | project5/src/App.jsx:101-107 | changing the state and the type selects gives the same filters in either order |
| `Explorer.Recompute` | project5/src/App.jsx:49-94 | the summary holds the filtered records, their count, their most common location (`''` iff none) and their longest name; for no records everything is empty or zero |
| `Scenarios.FacetOrderExample` | project5/src/App.jsx:26-31 | states CA, NY, CA, TX give exactly CA, NY, TX |
| `Scenarios.MostCommonExample` | project5/src/App.jsx:70-78 | locations "A, X", "B, Y", "A, X" give "A, X" |
| `Scenarios.MostCommonTieExample` | project5/src/App.jsx:70-78 | locations "A, X", "B, Y", with one record each, give the first, "A, X" |
| `Scenarios.LongestNameExamples` | project5/src/App.jsx:85-91 | names Ale, IPA, Porter give Porter; names Ale, IPA give Ale |

## Left out

- The network fetch, the `response.ok` check, JSON parsing and the `console.error` report (project5/src/App.jsx:16-24, 41-47) are I/O. The fetched list is an input sequence instead.
- React state hooks, effect scheduling and the JSX rendering (project5/src/App.jsx:4-14, 32, 40, 58-59, 80-81, 93-94, 109-140) are UI framework behaviour. `Facets.ExtractFacets` stands for the effect on the fetched list; `Explorer.Recompute` runs the filter and the two statistics in the order their effects do.
- `handleSearchChange` (project5/src/App.jsx:97-99) only stores the input text as the search term. The search term is a parameter of the model.
- `FilterEngine.ToLower`: models `toLowerCase` for ASCII letters only. Unicode case mapping, including mappings that change a string's length, is not modelled.
- `Statistics.LongestNameSpec`: name length is the number of Dafny characters. JavaScript's `.length` counts UTF-16 code units, so names with characters outside the Basic Multilingual Plane can compare differently.
- `Explorer.HandleFilterChange`: the select name is either `state` or `type`. The source would add any other `name` as a new key; no control in the component sends one.
- Missing or `null` record fields are not modelled. The code does not check them (`brewery.name.toLowerCase()` would throw), and every field is a string here.

# Careers-page builder: a Dafny model of its core logic

The system lets a company edit and publish a careers page and lets
candidates browse its open jobs. Most of it is glue around a hosted
database. This project models the parts that hold self-contained logic:

- **The page editor's section list** (`src/components/Editor.tsx`). The
  editor keeps a working copy of a company. It appends a section of a chosen
  kind, removes sections by id and moves a section one place up or down.
  The list is modelled as a `seq<Section>` inside the company record held by
  the `Editor.EditorState` class. The move copies the list into an `array`
  and swaps two slots in place.
- **Job filtering on the public page** (`src/components/CareerPage.tsx`).
  Four optional criteria narrow the job list: exact location, exact job
  type, exact department and a case-insensitive search in the title. The
  page also derives its duplicate-free location and department choices.
- **The filter controls** (`src/components/FilterDrawer.tsx`,
  `src/components/JobFilters.tsx`). The drawer holds multi-select lists, a
  search box and an open flag. It emits one criteria record built from the
  first selection of each list. The filter bar updates one of four fields
  and emits the updated record.
- **The seed script** (`scripts/seed.ts`). It parses the jobs CSV with a
  character-by-character tokenizer that has a quote-mode flag. It derives
  one company (tenant) per distinct city slug, taken from the city text
  before the first comma: locations with the same city, such as "Berlin,
  Germany" and "Berlin, USA", share one company, and a slug already in the
  table reuses the company there. Then it inserts the jobs, counting successes and errors, and
  retries a duplicate job slug once with a time stamp appended. The
  database is not modelled. The companies table is a map from slug to id,
  and the result of each insert is an input function.
- **YouTube id extraction** (`src/lib/utils.ts`). The three link patterns
  are tried in order. Each is a fixed marker followed by a captured maximal
  run of allowed characters. The regular expressions are modelled as an
  explicit leftmost search.

Modules:

| module | file |
|---|---|
| `Seqs` | `seqs.dfy` |
| `JsStrings` | `js_strings.dfy` |
| `Types` | `types.dfy` |
| `Editor` | `editor.dfy` |
| `CareerPage` | `career_page.dfy` |
| `FilterDrawer` | `filter_drawer.dfy` |
| `JobFilters` | `job_filters.dfy` |
| `SeedCsv` | `seed_csv.dfy` |
| `SeedImport` | `seed_import.dfy` |
| `YouTube` | `youtube.dfy` |

What each module holds:
- `Seqs` has generic `filter`, first-occurrence de-duplication and subsequence lemmas.
- `JsStrings` has the JavaScript string methods the code uses: `trim`, `split`, ASCII `toLowerCase`, `includes` and `replace(/c/g, '')`.

Section kinds follow the code: `Section.type` has the seven kinds listed at
`src/lib/types.ts:22` and `src/components/Editor.tsx:11`.

## Model

| member | source | states |
|---|---|---|
| Types.JobTypeName | src/lib/types.ts:32 | each of the five job types has a non-empty stored name |
| Editor.WithSection | src/components/Editor.tsx:18-25 | adding appends exactly one section at the end, with the given id and kind, empty content and `order` equal to the old count; the earlier sections are unchanged |
| Editor.AddIgnoresExistingKinds | src/components/Editor.tsx:18-25 | adding never checks existing kinds: the count of that kind always grows by one |
| Editor.AddKeepsIdsUnique | src/components/Editor.tsx:19-25 | with a fresh id, adding keeps section ids pairwise distinct |
| Editor.WithoutSection | src/components/Editor.tsx:28-33 | after removing, no section carries the removed id |
| Editor.RemoveKeepsOthers | src/components/Editor.tsx:31 | removing keeps exactly the sections with another id, each as often as before and in original order (a subsequence with the same multiplicities) |
| Editor.RemoveAbsentIsNoOp | src/components/Editor.tsx:31 | removing an id no section carries leaves the list unchanged |
| Editor.RemoveKeepsIdsUnique | src/components/Editor.tsx:31 | removing keeps ids pairwise distinct |
| Editor.RemoveThenAddRepeatsOrder | src/components/Editor.tsx:22-31 | no operation renumbers `order`: after removing the first of densely ordered sections and adding one, the last two sections share an `order` |
| Editor.IndexOf | src/components/Editor.tsx:37 | `findIndex` by id: -1 exactly when no section carries the id, otherwise the first position that does |
| Editor.FindIndex | src/components/Editor.tsx:37 | the search loop over the copied array returns `IndexOf` of its contents, and -1 exactly when the id is absent |
| Editor.Moved | src/components/Editor.tsx:35-44 | moving keeps the list's length |
| Editor.MoveAtEndsIsNoOp | src/components/Editor.tsx:38-42 | 'up' on the first section and 'down' on the last leave the list unchanged |
| Editor.MoveSwapsNeighbours | src/components/Editor.tsx:36-43 | a move is a permutation: the section and its neighbour in that direction trade places and every other slot is kept; without a neighbour, or for an absent id, the list is unchanged |
| Editor.MoveKeepsIdsUnique | src/components/Editor.tsx:38-42 | moving keeps ids pairwise distinct |
| Editor.MoveUpThenDown | src/components/Editor.tsx:38-42 | a non-first section moved up and then down gives the original list back |
| Editor.MoveDownThenUp | src/components/Editor.tsx:38-42 | with distinct ids, a non-last section moved down and then up gives the original list back |
| Editor.MovedAsWritten | src/components/Editor.tsx:35-43 | the move as written, over slots that may be `undefined`, keeps the length |
| Editor.MovedAsWrittenDiffers | src/components/Editor.tsx:37-41 | the written move agrees with `Moved` except for 'down' with an absent id on a non-empty list, where it empties slot 0 |
| Editor.MovedAsWrittenErasesSection | src/components/Editor.tsx:40-41 | concrete case: one section "a", 'down' with id "b", leaves `[undefined]` as written and the list unchanged as corrected |
| Editor.EditorState.constructor | src/components/Editor.tsx:14 | the working copy starts as the given company |
| Editor.EditorState.AddSection | src/components/Editor.tsx:18-26 | the company is replaced by one whose sections are `WithSection` of the old ones; all other fields are kept |
| Editor.EditorState.RemoveSection | src/components/Editor.tsx:28-33 | the company is replaced by one whose sections are `WithoutSection` of the old ones; all other fields are kept |
| Editor.EditorState.MoveSection | src/components/Editor.tsx:35-44 | the in-place swap on the copied array leaves the sections `Moved` of the old ones; all other fields are kept |
| CareerPage.Filtered | src/components/CareerPage.tsx:18-24 | the filtered list is never longer than the job list |
| CareerPage.FilteredIsMatches | src/components/CareerPage.tsx:19-23 | the chain of four conditional filters is one filter by the conjunction of the supplied criteria |
| CareerPage.FilteredIsSubsequence | src/components/CareerPage.tsx:19-23 | the result keeps the jobs' order and adds nothing |
| CareerPage.FilteredIsSound | src/components/CareerPage.tsx:20-23 | every listed job matches each non-empty location, type and department exactly, and its lowercased title contains the lowercased search |
| CareerPage.FilteredIsComplete | src/components/CareerPage.tsx:20-23 | a job meeting every supplied criterion is listed as often as it occurs; any other job is not listed |
| CareerPage.NoCriteriaListsAll | src/components/CareerPage.tsx:19-24 | with all four criteria empty the result is the whole job list |
| CareerPage.FilteredIdempotent | src/components/CareerPage.tsx:19 | filtering the result again with the same criteria changes nothing |
| CareerPage.LocationIsExact | src/components/CareerPage.tsx:20 | location is compared exactly: "Berlin" does not select "Berlin, Germany" |
| CareerPage.SearchIsCaseInsensitiveSubstring | src/components/CareerPage.tsx:23 | search ignores case and matches inside the title: "engine" selects "Senior Engineer" |
| CareerPage.NonEmptyDistinct | src/components/CareerPage.tsx:15-16 | the distinct-values idiom yields each non-empty value exactly once and nothing else |
| CareerPage.NonEmptyDistinctOrder | src/components/CareerPage.tsx:15-16 | those values come out in order of first occurrence |
| CareerPage.Locations | src/components/CareerPage.tsx:15 | the location choices are duplicate-free and are exactly the non-empty job locations |
| CareerPage.Departments | src/components/CareerPage.tsx:16 | the department choices are duplicate-free and are exactly the non-empty job departments |
| CareerPage.CareerPageState.constructor | src/components/CareerPage.tsx:12 | before any filter call the displayed list is the whole job list |
| CareerPage.CareerPageState.HandleFilter | src/components/CareerPage.tsx:18-25 | the displayed list becomes `Filtered` of the full job list, never of the previous result |
| FilterDrawer.JobTypeChoicesAreJobTypes | src/components/FilterDrawer.tsx:11 | each job-type chip is the stored name of a job type |
| FilterDrawer.Toggle | src/components/FilterDrawer.tsx:21 | the value is in the result exactly when it was not selected; an unselected value is appended at the end; a selected one is dropped and the others are kept |
| FilterDrawer.ToggleOffKeepsOthers | src/components/FilterDrawer.tsx:21 | deselecting drops every copy of the value and keeps the rest in order and number |
| FilterDrawer.ToggleKeepsNoDuplicates | src/components/FilterDrawer.tsx:21 | a duplicate-free selection stays duplicate-free |
| FilterDrawer.ToggleTwiceRestores | src/components/FilterDrawer.tsx:21 | toggling an unselected value twice restores the selection |
| FilterDrawer.FirstOrNone | src/components/FilterDrawer.tsx:25-27 | `arr[0] \|\| ''`: the first selection, or '' when there is none |
| FilterDrawer.Emitted | src/components/FilterDrawer.tsx:24-29 | the emitted record holds the first selection of each list and the search text |
| FilterDrawer.OnlyFirstLocationCounts | src/components/FilterDrawer.tsx:25 | with two locations selected, a job at the second one is not listed |
| FilterDrawer.FilterDrawerState.constructor | src/components/FilterDrawer.tsx:14-18 | the drawer starts closed, with nothing selected and an empty search |
| FilterDrawer.FilterDrawerState.ActiveCount | src/components/FilterDrawer.tsx:45 | the badge counts the selections plus one for a non-empty search, and is zero exactly when nothing is active |
| FilterDrawer.FilterDrawerState.Open | src/components/FilterDrawer.tsx:60 | the filter button opens the drawer and changes nothing else |
| FilterDrawer.FilterDrawerState.ToggleLocation | src/components/FilterDrawer.tsx:96 | a location chip toggles that location and changes nothing else |
| FilterDrawer.FilterDrawerState.ToggleType | src/components/FilterDrawer.tsx:107 | a type chip toggles that type and changes nothing else |
| FilterDrawer.FilterDrawerState.ToggleDepartment | src/components/FilterDrawer.tsx:118 | a department checkbox toggles that department and changes nothing else |
| FilterDrawer.FilterDrawerState.AllLocations | src/components/FilterDrawer.tsx:94 | "All Locations" empties the location selection only |
| FilterDrawer.FilterDrawerState.AllTypes | src/components/FilterDrawer.tsx:105 | "All Types" empties the type selection only |
| FilterDrawer.FilterDrawerState.Apply | src/components/FilterDrawer.tsx:23-31 | apply emits the first selections and the search, closes the drawer and keeps the selections |
| FilterDrawer.FilterDrawerState.Clear | src/components/FilterDrawer.tsx:33 | clear empties the three selections and the search, leaves the drawer open or closed as it was, and brings the count to zero |
| FilterDrawer.FilterDrawerState.SearchChanged | src/components/FilterDrawer.tsx:55 | typing stores the text and emits at once, with the new text and the current first selections |
| JobFilters.Updated | src/components/JobFilters.tsx:18 | the record with the field named by the key replaced by the value; every other field unchanged |
| JobFilters.UnknownKeyChangesNothing | src/components/JobFilters.tsx:18-22 | a key other than the four field names changes no field |
| JobFilters.LaterChangeWins | src/components/JobFilters.tsx:18-22 | two changes to the same field keep only the later value |
| JobFilters.DifferentKeysCommute | src/components/JobFilters.tsx:18-22 | changes to two different fields commute |
| JobFilters.JobFiltersState.constructor | src/components/JobFilters.tsx:12-15 | all four fields start as '' (no constraint) |
| JobFilters.JobFiltersState.HandleChange | src/components/JobFilters.tsx:17-24 | the emitted record carries the new value, and the state afterwards equals the emitted record; an unknown key still emits |
| JsStrings.Trim | scripts/seed.ts:33 | trimming never lengthens a string and leaves no white space at either end |
| JsStrings.TrimIsMiddle | scripts/seed.ts:33 | the trimmed text is a middle slice of the input with only white space cut off at both ends |
| JsStrings.TrimNoSpaceEnds | scripts/seed.ts:33 | a string without white space at its ends trims to itself |
| JsStrings.TrimIdempotent | scripts/seed.ts:33 | trimming twice is trimming once |
| JsStrings.Split | scripts/seed.ts:33 | splitting gives one more piece than there are separators, and no piece holds the separator |
| JsStrings.JoinSplit | scripts/seed.ts:33 | joining the pieces with the separator gives the input back |
| JsStrings.SplitJoin | scripts/seed.ts:33 | splitting separator-free pieces after joining gives the pieces back |
| JsStrings.SplitNoSeparator | scripts/seed.ts:68 | a string without the separator splits into itself alone |
| JsStrings.SplitAfterSeparator | scripts/seed.ts:33 | a separator-free head before the first separator is the first piece |
| JsStrings.Lower | src/components/CareerPage.tsx:23 | lowercasing keeps the length and lowers each ASCII capital |
| JsStrings.LowerIdempotent | src/components/CareerPage.tsx:23 | lowercasing twice is lowercasing once |
| JsStrings.RemoveAll | scripts/seed.ts:34 | removing every copy of a character leaves none of it, keeps every other character, and keeps the rest in order (a subsequence of the input) |
| JsStrings.RemoveAllConcat | scripts/seed.ts:34 | removing a character from a concatenation removes it from each part |
| JsStrings.RemoveAllAbsent | scripts/seed.ts:34 | a string without the character is left unchanged |
| JsStrings.TrimThenRemoveCR | scripts/seed.ts:34 | trimming and then removing every '\r' leaves no white space at either end |
| SeedCsv.Clean | scripts/seed.ts:47-53 | a finished value holds no '\r', has no white space at either end, and holds no quote, newline or comma that the raw text lacked |
| SeedCsv.CleanKeepsMiddle | scripts/seed.ts:47-53 | a finished value is the raw text with only white space cut from its two ends and every '\r' removed |
| SeedCsv.CleanKeepsTrimmed | scripts/seed.ts:47-53 | text with no '\r' and no white space at either end is kept exactly |
| SeedCsv.CleanIdempotent | scripts/seed.ts:47-53 | cleaning a value a second time changes nothing |
| SeedCsv.Fields | scripts/seed.ts:39-53 | a data line always yields at least one value |
| SeedCsv.RunInvariant | scripts/seed.ts:43-52 | while tokenizing, quote mode is on exactly after an odd number of quotes, the finished values number the commas seen outside quotes, and no quote is ever kept |
| SeedCsv.FieldCount | scripts/seed.ts:46-53 | a line with k commas outside quotes yields exactly k+1 values |
| SeedCsv.FieldsHaveNoQuoteOrCR | scripts/seed.ts:44-53 | no value holds a quote or a '\r' |
| SeedCsv.RunInQuotes | scripts/seed.ts:43-50 | inside quotes every character other than '"', commas included, is appended to the pending field |
| SeedCsv.QuotedFieldKeepsText | scripts/seed.ts:43-53 | a line that is one quoted text without inner quotes yields exactly that text, cleaned, as its one value, commas kept |
| SeedCsv.RunWithoutSplit | scripts/seed.ts:43-50 | while no comma is read outside quotes, no value is finished and the pending field is the text read so far without its quotes |
| SeedCsv.OneFieldWithoutUnquotedComma | scripts/seed.ts:43-53 | a line with no comma outside quotes yields one value: the line without its quotes, cleaned |
| SeedCsv.RunConcat | scripts/seed.ts:43-52 | tokenizing a concatenation is tokenizing the second part from the state the first part leaves |
| SeedCsv.DoubledQuoteVanishes | scripts/seed.ts:44-45 | a doubled quote contributes nothing to the values, unlike section 2 rule 7 of RFC 4180 |
| SeedCsv.UnquotedCommaSplits | scripts/seed.ts:46-48 | a comma after an even number of quotes ends a field: the values of the two sides are concatenated |
| SeedCsv.RunPlain | scripts/seed.ts:49-51 | text with no quote and no comma is all collected into the current value |
| SeedCsv.CleanAll | scripts/seed.ts:34 | trimming and stripping '\r' from every header keeps their number and cleans each one |
| SeedCsv.QuoteFreeFieldsAreSplit | scripts/seed.ts:34-53 | on a line without quotes the tokenizer agrees with splitting on every comma and cleaning each piece, the way headers are read |
| SeedCsv.NoNewlineInFields | scripts/seed.ts:43-53 | a line without a newline yields values without a newline |
| SeedCsv.Headers | scripts/seed.ts:34 | the first line gives one header per comma plus one, ignoring quotes, and no header holds ',' or '\r' |
| SeedCsv.LastIndex | scripts/seed.ts:56-58 | for a header, the last column that carries it |
| SeedCsv.MakeRow | scripts/seed.ts:55-58 | the row's keys are exactly the headers, and each holds the value of the header's last column, or '' when that value is missing or empty |
| SeedCsv.ParseCSV | scripts/seed.ts:32-64 | one row per line after the header, lines from trimming the content and splitting on '\n'; row i maps the headers to the values of line i+1 |
| SeedCsv.ParseLines | scripts/seed.ts:38-61 | the row loop builds exactly one row per data line, in order |
| SeedCsv.SplitLine | scripts/seed.ts:39-53 | the character loop with its quote flag yields exactly `Fields` of the line |
| SeedCsv.BuildRow | scripts/seed.ts:55-58 | the header loop yields exactly `MakeRow`, later duplicate headers overwriting earlier ones |
| SeedCsv.NoValueHoldsNewline | scripts/seed.ts:33-53 | quoted newlines are impossible: no parsed value holds '\n' |
| SeedImport.Column | scripts/seed.ts:60 | a column the header line lacks reads as '' |
| SeedImport.ToJobRow | scripts/seed.ts:19-30 | the row type reads its fields from the columns of the same name |
| SeedImport.City | scripts/seed.ts:68-73 | the city is the text before the first comma: it holds no comma, and is the whole location when there is none |
| SeedImport.DashSpaceRuns | scripts/seed.ts:68 | replacing white-space runs leaves no white space, never lengthens the text, and adds no capitals |
| SeedImport.DashSpaceRunsNoSpace | scripts/seed.ts:68 | text without white space is unchanged |
| SeedImport.DashSpaceRunsWord | scripts/seed.ts:68 | a whole run of white space after a word becomes one '-' |
| SeedImport.Slug | scripts/seed.ts:68 | the slug has no white space and no capitals and is no longer than the city |
| SeedImport.CompanyFromLocation | scripts/seed.ts:66-75 | the slug holds no white space and no capital letter; the name ends in " Office" and holds no comma (that the country plays no role is `CityBeforeComma` and `SameCitySameCompany`) |
| SeedImport.CityBeforeComma | scripts/seed.ts:68 | the text after the first comma is ignored |
| SeedImport.SameCitySameCompany | scripts/seed.ts:66-75 | locations with the same city get the same slug and name |
| SeedImport.SlugOfWord | scripts/seed.ts:68 | the slug of a city without white space is its lowercase form |
| SeedImport.CompanyOfWord | scripts/seed.ts:66-75 | a location whose city has no white space gets the lowercased city as slug and the city plus " Office" as name |
| SeedImport.BerlinExample | scripts/seed.ts:66-75 | "Berlin," followed by any country gives slug "berlin" and name "Berlin Office" |
| SeedImport.SlugIdempotent | scripts/seed.ts:68 | slugging a slug changes nothing |
| SeedImport.NewYorkSlug | scripts/seed.ts:68 | "New  York" (two spaces) slugs to "new-york" |
| SeedImport.NewYorkExample | scripts/seed.ts:66-75 | "New  York," followed by any country gives slug "new-york" |
| SeedImport.UniqueLocations | scripts/seed.ts:88 | the unique locations are duplicate-free and are exactly the job locations, '' included |
| SeedImport.UniqueLocationsOrder | scripts/seed.ts:88 | the unique locations come in order of first occurrence |
| SeedImport.CreateCompanies | scripts/seed.ts:91-131 | the loop's map and table equal `CompaniesAfter` over all locations, so `CompaniesTable` and `CompaniesMapped` hold of them; the loop maps only listed locations, each to the id its slug has in the table; the table keeps every earlier company; a location whose slug already existed, or whose insert succeeded, is mapped |
| SeedImport.CompaniesTable | scripts/seed.ts:94-128 | the table after the loop keeps every existing company, holds a slug exactly when it existed or an insert for a location with that slug returned an id, and each new company's id is the id such an insert returned (seed.ts:123) |
| SeedImport.CompaniesMapped | scripts/seed.ts:103-128 | with each location listed once, a location gets a company exactly when its slug existed or an insert for its slug, its own or an earlier one, returned an id; a location whose insert failed, with no earlier company for its slug, stays unmapped (seed.ts:124-127), so its jobs count as errors |
| SeedImport.CompaniesKept | scripts/seed.ts:103-128 | every mapped location points at its slug's company in the table, and a location whose slug existed or whose insert returned an id is mapped |
| SeedImport.SameSlugSameCompany | scripts/seed.ts:94-104 | two mapped locations with the same slug share one company |
| SeedImport.NatToString | scripts/seed.ts:166 | the time stamp is written as at least one decimal digit |
| SeedImport.NatToStringValue | scripts/seed.ts:166 | reading the written digits gives the time stamp back |
| SeedImport.RetrySlug | scripts/seed.ts:166 | the retry slug is the job slug, then '-', then the stamp |
| SeedImport.RetrySlugDiffers | scripts/seed.ts:166 | the retry slug always differs from the original slug |
| SeedImport.Successes | scripts/seed.ts:135-196 | never more successes than rows |
| SeedImport.RowInserts | scripts/seed.ts:139-181 | no insert without a non-empty company id; otherwise one insert with the row's slug, and a second with the retry slug exactly after a duplicate-key error; every insert carries the row's company id |
| SeedImport.InsertJobs | scripts/seed.ts:135-196 | each row increments exactly one of the two counters, so they sum to the number of rows; the successes and the inserts sent are those the row outcomes determine |
| SeedImport.SentHaveCompanies | scripts/seed.ts:139-150 | every insert sent carries its location's non-empty company id |
| SeedImport.SentAtMostTwicePerRow | scripts/seed.ts:147-181 | at most two inserts per row |
| SeedImport.AllAcceptedSendsOnce | scripts/seed.ts:147-195 | when every row has a company and every first insert succeeds, all rows count as successes and each is sent once |
| SeedImport.RetryExample | scripts/seed.ts:163-188 | a duplicate slug cleared by the retry counts as a success, with "swe-1" at stamp 1700 retried as "swe-1-1700" |
| SeedImport.InsertRow | scripts/seed.ts:139-195 | one job row: it succeeds exactly when its outcome is a success (a company for its location, then a first insert or, after a duplicate slug, a retry with the slug suffixed by the time that succeeds), and it sends exactly the inserts its outcome calls for: none without a company, one, or two on a duplicate slug |
| SeedImport.Seed | scripts/seed.ts:83-196 | the two counters sum to the number of data lines; the table keeps its existing companies; every job insert names the company its location's slug has in the table |
| YouTube.RunLength | src/lib/utils.ts:8-10 | the captured run consists of allowed characters and is maximal |
| YouTube.FirstMatch | src/lib/utils.ts:13 | the search finds the leftmost position where the marker is followed by an allowed character, or reports that there is none |
| YouTube.Captured | src/lib/utils.ts:14 | the group is the slice of the link covering the maximal run |
| YouTube.MatchGroup | src/lib/utils.ts:8-14 | one pattern matches exactly when its marker occurs followed by an allowed character; its group is non-empty and holds only allowed characters |
| YouTube.FirstPattern | src/lib/utils.ts:12-16 | the loop returns nothing exactly when no pattern matches |
| YouTube.GetYouTubeVideoId | src/lib/utils.ts:5-17 | a missing or empty link gives nothing; an id is non-empty and holds none of '&', '\n', '?', '#'; for a non-empty link, nothing is returned exactly when no marker is followed by an allowed character |
| YouTube.FirstPatternIsSomeGroup | src/lib/utils.ts:12-15 | the loop's result is the group of one of the patterns |
| YouTube.GroupIsLeftmostLongestRun | src/lib/utils.ts:8-13 | a pattern's group is the maximal allowed run after its leftmost matching marker, and a substring of the link |
| YouTube.ResultIsLeftmostLongestRun | src/lib/utils.ts:12-15 | the id is one pattern's group and a substring of the link |
| YouTube.WatchPatternWins | src/lib/utils.ts:7-15 | a watch-link match anywhere decides the result, even when another marker comes earlier |
| YouTube.ShortPatternNext | src/lib/utils.ts:7-15 | without a watch-link match, a short-link match decides |
| YouTube.AnyMarkerMatches | src/lib/utils.ts:8-13 | matching is unanchored: any marker followed by an allowed character gives an id |
| YouTube.NoLowercaseYNoId | src/lib/utils.ts:8-10 | matching is case-sensitive: a link without a lowercase 'y' gives nothing |
| YouTube.CaseSensitiveExample | src/lib/utils.ts:8 | "https://YouTube.com/watch?v=abc" gives nothing |
| YouTube.WatchLinkId | src/lib/utils.ts:8-14 | a watch link yields exactly the text between the marker and the first '&', '\n', '?' or '#' |

## Left out

- Database reads and writes are not modelled. This covers the company lookup and insert (`scripts/seed.ts:97-121`) and the job inserts (`scripts/seed.ts:147-181`). They become inputs: `table0` is the companies already stored, keyed by slug. `created` is the result of each company insert. `respond` is the result of each job insert and of its retry.
- The `.single()` lookup is modelled as membership of the slug in the table. Its behaviour with several rows under one slug is not modelled.
- The editor's `save` and `publish` (`src/components/Editor.tsx:46-63`) are left out. They only write to the database.
- The route pages, the login page and the jobs API are left out. They are fetch, insert, routing and rendering only.
- The login page's slug rule is not part of this model.
- Rendering, styling and the keyboard and focus effects of the drawer are left out.
- `crypto.randomUUID()` is the parameter `newId` of `AddSection`, and `Date.now()` is the input function `now`. Both are non-deterministic.
- `toLowerCase` is modelled for ASCII letters only. Unicode case mapping is out of scope.
- Environment checks, `process.exit`, reading the CSV file and all console output are left out. `Seed` starts from the file's content.
- The summary logs after the job loop are left out. They only print.
- SeedImport.Column: a column missing from the header line reads as ''. In the script the unchecked cast leaves it `undefined`, and a row without a `location` column would then throw in `split`. That failure is not modelled.
- The unused `countryPart` (`scripts/seed.ts:69`) is not computed. It has no effect.
- `Section.content` is a `map<string, string>`, not a record of arbitrary values. No modelled operation reads it.
- The select element of the filter bar offers no "hybrid" job type. That markup is not modelled; `HandleChange` accepts any value.
- SeedImport.CreateCompanies takes the slug derivation as a parameter, and `Seed` passes `CompanySlug`. Its contract is stated for any derivation.
- Editor.EditorState.MoveSection follows the corrected behaviour: an absent id changes nothing. The written behaviour is `Editor.MovedAsWritten`, listed under Findings. The written code also stores the old slot 0 under the property "-1" of the array. That property is not an element, so it is not modelled.
- SeedCsv.ParseCSV states each row through `MakeRow`. A row is a `map`, not an object with a prototype.
- JobFilters.Updated returns the four fields only. For a key other than the four, the record handed to the page (`src/components/JobFilters.tsx:18`) also carries an extra property of that name; the page never reads it, so it is not modelled.
- SeedImport.CreateCompanies and SeedImport.InsertJobs hold `companyMap` as a `map`, not as a plain object (`scripts/seed.ts:91`). A location that names an inherited object member, such as "constructor", reads a truthy value at `scripts/seed.ts:139` in the script even when no company was recorded for it; the model reads it as absent.

## Findings

| source | as written | input that shows it | evidently intended | confidence | as-written member | corrected member |
|---|---|---|---|---|---|---|
| src/components/Editor.tsx:37-41 | a 'down' move tests only `index < sections.length - 1`. `findIndex` returns -1 for an unknown id, and -1 passes that test on any non-empty list. The swap then writes `sections[-1]` (`undefined`) into slot 0, erasing the first section | one section with id "a", moved 'down' with id "b" | an unknown id leaves the list unchanged, as the 'up' branch does with its `index > 0` test | high; not executed | Editor.MovedAsWritten, Editor.MovedAsWrittenErasesSection | Editor.Moved, Editor.EditorState.MoveSection |

The page's own move buttons (src/components/Editor.tsx:117-118) always pass
the id of a section that is on screen, so this page cannot trigger the
erasure; the defect is in `moveSection` itself, for any other caller.

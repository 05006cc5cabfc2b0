# DBLP masterfile generator — a Dafny model of its core

The application looks up one author (the *protagonist*) in the DBLP
bibliography. It runs a SPARQL query over their publications and encodes the
result as a *masterfile*: a text format that lists each coauthor once under a
short abbreviation, then gives one line per publication saying which roster
members took part. A small CSV index records one summary row per downloaded
masterfile, grouped by test set.

This project models the four services that do that work:

- `masterfile_generator.dfy` (`MasterfileGeneratorService`), with `stable_sort.dfy`:
  - builds the roster;
  - assigns unique abbreviations from initials with numeric suffixes on clashes;
  - moves the protagonist to the front;
  - sorts the publications in place, stably, by year;
  - emits the header and the `t<year> : <present>[;<missing>] : <all>` lines.
  The service object is a class with a mutable `masterAuthors` field, and the publication array is sorted in place.
- `masterfile_adapter.dfy` (`MasterfileAdapterService`):
  - maps query rows to publications, putting the protagonist first, splitting the `|`-joined coauthors and stripping the pid IRI prefix;
  - counts distinct coauthor ids with a set filled in a loop;
  - groups rows by type with a map updated in a loop;
  - averages the strengths;
  - builds the statistics handed to the encoder.
- `dblp_sparql.dfy` (`DblpSparqlService.buildQuery`): the query text as a pure function of the filter record. The query's template literal is kept as its literal pieces (`Template`). Lemmas say which clauses appear under which filters:
  - the default type list;
  - the venue clause;
  - the two year bounds;
  - the `minPubs` clamp and its `HAVING` block, where `?year` is renamed to `?y2`;
  - the top-K focus block.
- `csv_index.dfy` (`CsvIndexService`):
  - the store, a class over a map of append-only lists per test set;
  - the field escaper, which quotes as rules 6–7 of section 2 of RFC 4180 describe;
  - the download text.
  A reader for that quoting reads an escaped field, a line and the whole download back.
- `text.dfy`: JavaScript's `split`, `join`, first-occurrence `replace`, global `replace`, `String(int)`, `toUpperCase` on ASCII letters, template literals (`Fill`) and `Array.from(new Set(..))` (`Dedup`), with their lemmas. `wrappers.dfy` holds `Option`.

Where the code and its documented intent differ, the model follows the code:

- The roster is built over the publications in input order, before the sort. So "first appearance" means input order, not year order (`RosterOfSpec`, `MasterfileLayout`).
- When there are no publications, or the protagonist is not an author of any of them, `generateMasterfileLines` returns an empty list with no header (`MasterfileEmptyIff`, `GenerateMasterfileLines`).
- The encoder reads `meta.stats.papers` and `meta.stats.distinctCoauthors`, but the adapter supplies `publications` and `distinctCoauthorsInSet`. The third statistics line therefore reads `* Papers: undefined, Distinct coauthors: undefined` (`PapersLineUndefined`).
- The row type of the query service declares no `*InSet`/`*Global` strength fields, yet the adapter reads six of them. The model takes them as ordinary row fields.

## Model

| member | source | states |
|---|---|---|
| MasterfileGenerator.Abbreviate | src/app/services/masterfile-generator.service.ts:107-121 | the code is never already taken; it is the base when the base is free, otherwise the base plus the smallest k ≥ 1 whose `base+k` is free |
| MasterfileGenerator.FirstFreeSuffix | src/app/services/masterfile-generator.service.ts:115-120 | the suffix found is free and every smaller positive suffix is taken |
| MasterfileGenerator.TakenSuffixesBound | src/app/services/masterfile-generator.service.ts:115-120 | if the suffixes 1..k are all taken then k ≤ the number of taken codes, so the suffix loop ends |
| MasterfileGenerator.BaseAbbreviationScans | src/app/services/masterfile-generator.service.ts:101-104 | splitting on blanks and taking each word's upper-cased first letter (empty words give nothing) equals one left-to-right scan that keeps the letter after each blank |
| MasterfileGenerator.InitialsScanNoBlank | src/app/services/masterfile-generator.service.ts:101-104 | a base abbreviation never contains a blank |
| MasterfileGenerator.TwoWordBase | src/app/services/masterfile-generator.service.ts:101-104 | a two-word name abbreviates to its two upper-cased initials |
| MasterfileGenerator.ClashGetsNumber | src/app/services/masterfile-generator.service.ts:107-121 | "John Smith" then "Jane Sun" get `JS` and `JS1` |
| MasterfileGenerator.MasterfileGenerator.GenerateAbbreviation | src/app/services/masterfile-generator.service.ts:99-122 | the `while` loop returns exactly `Abbreviate` of the name's base against the abbreviations in use |
| MasterfileGenerator.MasterfileGenerator.AddAuthors | src/app/services/masterfile-generator.service.ts:19-24 | the inner roster loop turns the roster of the authors seen so far into the roster of those authors followed by this publication's authors |
| MasterfileGenerator.MasterfileGenerator.BuildMasterAuthors | src/app/services/masterfile-generator.service.ts:15-25 | after the reset and the nested loops, `masterAuthors` is the roster of all authors in array order |
| MasterfileGenerator.RosterOfKeys | src/app/services/masterfile-generator.service.ts:18-25 | the roster has an entry for exactly the ids that occur, and its key order is the ids in first-occurrence order |
| MasterfileGenerator.RosterOfNames | src/app/services/masterfile-generator.service.ts:20-23 | each entry keeps the name from that id's first occurrence |
| MasterfileGenerator.RosterOfAbbreviations | src/app/services/masterfile-generator.service.ts:18-25 | the abbreviations of distinct entries are pairwise distinct, and none contains a blank |
| MasterfileGenerator.RosterOfSpec | src/app/services/masterfile-generator.service.ts:18-25 | the roster is well formed, its abbreviations are unique, and an id has an entry exactly when it occurs among the authors |
| MasterfileGenerator.BuildRosterCovers | src/app/services/masterfile-generator.service.ts:18-25 | every author of every publication has an entry, every entry belongs to some author of some publication, and the abbreviations are unique |
| MasterfileGenerator.MoveToFrontSpec | src/app/services/masterfile-generator.service.ts:28-31 | after delete-and-respread the entries are unchanged, the protagonist is first, and the other keys keep their relative order |
| MasterfileGenerator.WithoutOrder | src/app/services/masterfile-generator.service.ts:29-31 | deleting a key keeps the remaining keys in their old relative order |
| MasterfileGenerator.MasterfileGenerator.MoveProtagonistToFront | src/app/services/masterfile-generator.service.ts:28-31 | the field becomes `MoveToFront` of its old value |
| MasterfileGenerator.MasterfileEmptyIff | src/app/services/masterfile-generator.service.ts:14-35 | the output is empty exactly when no publication has the protagonist among its authors, and that includes the empty input |
| StableSort.SortBySpec | src/app/services/masterfile-generator.service.ts:42 | the year sort gives a permutation that is sorted by year, and publications with equal years keep their input order (stability) |
| StableSort.SortByIdempotent | src/app/services/masterfile-generator.service.ts:42 | sorting the sorted list again changes nothing |
| StableSort.InsertInPlace | src/app/services/masterfile-generator.service.ts:42 | shifting one element into the sorted prefix of the array inserts it after every element with a key ≤ its own |
| StableSort.SortInPlace | src/app/services/masterfile-generator.service.ts:42 | the in-place sort leaves the array equal to the stable sort of its old contents |
| MasterfileGenerator.PresentSpec | src/app/services/masterfile-generator.service.ts:48-55 | `present` has no duplicates, holds exactly the abbreviations of the publication's authors that are in the roster, and lists them in the order they first occur among the authors |
| MasterfileGenerator.MissingFromSpec | src/app/services/masterfile-generator.service.ts:57-60 | `missing` is exactly the roster abbreviations that are not present, without duplicates when the roster's abbreviations are distinct |
| MasterfileGenerator.MissingFromOrder | src/app/services/masterfile-generator.service.ts:57-60 | with distinct roster abbreviations, `missing` lists them in roster order |
| MasterfileGenerator.PresentMissingPartition | src/app/services/masterfile-generator.service.ts:48-60 | present and missing are disjoint, both lie within the roster abbreviations, together they cover them, and their sizes add up to the roster size |
| MasterfileGenerator.AbbreviationsDistinct | src/app/services/masterfile-generator.service.ts:37-38 | `allAuthors` lists each roster abbreviation exactly once |
| MasterfileGenerator.SampleLine2019 | src/app/services/masterfile-generator.service.ts:63-65 | a line where one roster member is absent reads `t2019 : AB;CD : AB,CD` |
| MasterfileGenerator.SampleLine2020 | src/app/services/masterfile-generator.service.ts:63-65 | a line with nobody missing has no `;` part: `t2020 : AB,CD : AB,CD` |
| MasterfileGenerator.MasterfileGenerator.PublicationLine | src/app/services/masterfile-generator.service.ts:45-66 | the body of the publication loop produces `PubLine`: timestamp, de-duplicated present list, `;`-missing part only when non-empty, then all abbreviations |
| MasterfileGenerator.MasterfileGenerator.PublicationLines | src/app/services/masterfile-generator.service.ts:44-67 | one line per publication, in array order |
| MasterfileGenerator.MasterfileGenerator.Roster | src/app/services/masterfile-generator.service.ts:86-89 | one `<abbr> <fullName>` line per roster entry, in key order |
| MasterfileGenerator.MasterfileGenerator.Header | src/app/services/masterfile-generator.service.ts:73-94 | the header lines are `HeaderLines` of the current roster |
| MasterfileGenerator.HeaderLinesLayout | src/app/services/masterfile-generator.service.ts:73-94 | the header is the banner, the main-author line, six statistics lines when meta is given, one roster line per key in order, `''`, `<abbr> Protagonist` and `''` |
| MasterfileGenerator.RosterLinesDecode | src/app/services/masterfile-generator.service.ts:86-89 | every roster line splits back, at its first blank, into the entry's abbreviation and full name |
| MasterfileGenerator.MasterfileLayout | src/app/services/masterfile-generator.service.ts:37-96 | a non-empty output is the header of the final roster (protagonist first) followed by one line per publication in stable year order |
| MasterfileGenerator.SampleScenario | src/app/services/masterfile-generator.service.ts:12-97 | for a 2020 paper with a coauthor and a 2019 solo paper, the output ends with the 2019 line and then the 2020 line |
| MasterfileGenerator.MasterfileGenerator.GenerateMasterfileLines | src/app/services/masterfile-generator.service.ts:12-97 | returns `MasterfileLines` of the input; when the protagonist is found, the roster field is the final roster and the caller's array is left stably sorted by year; otherwise the array is untouched |
| MasterfileAdapter.Pieces | src/app/services/masterfile-adapter.service.ts:60-61 | an empty field gives no pieces, and only an empty field does |
| MasterfileAdapter.PiecesJoin | src/app/services/masterfile-adapter.service.ts:60-61 | re-joining the pieces with the pipe separator gives the field back, and no piece contains a pipe |
| MasterfileAdapter.StripPidOfIri | src/app/services/masterfile-adapter.service.ts:64 | removing the prefix from a person IRI gives its pid |
| MasterfileAdapter.StripPidPlain | src/app/services/masterfile-adapter.service.ts:64 | a value without the prefix is kept as it is |
| MasterfileAdapter.ToPublicationSpec | src/app/services/masterfile-adapter.service.ts:59-69 | same year; the protagonist comes first; the remaining names are the row's pipe-separated coauthor pieces, and joined with pipes they give the row's coauthor field back; the i-th id is the stripped i-th IRI, or the name when the IRIs run out |
| MasterfileAdapter.AllCoauthorIdsSpec | src/app/services/masterfile-adapter.service.ts:71-75 | an id is among the collected raw ids exactly when some row's id field contains it |
| MasterfileAdapter.DistinctCoauthorIds | src/app/services/masterfile-adapter.service.ts:71-75 | the set filled in the loop holds exactly the raw ids that occur in some row, and its size is the number of distinct ids |
| MasterfileAdapter.SetSizeIsDedupLength | src/app/services/masterfile-adapter.service.ts:75 | a set's size equals the length of the de-duplicated list |
| MasterfileAdapter.Average | src/app/services/masterfile-adapter.service.ts:109-112 | the empty list averages to 0; otherwise average × length = sum |
| MasterfileAdapter.AverageBounds | src/app/services/masterfile-adapter.service.ts:109-112 | the average of non-empty values between lo and hi is also between lo and hi |
| MasterfileAdapter.GroupCount | src/app/services/masterfile-adapter.service.ts:113-120 | the map loop gives the keys in first-occurrence order, a count for exactly the keys that occur, and each count equal to the key's number of occurrences |
| MasterfileAdapter.TallyOfSpec | src/app/services/masterfile-adapter.service.ts:113-120 | the counts are positive, the key order has no duplicates, and the counts sum to the number of rows |
| MasterfileAdapter.BuildMetaSpec | src/app/services/masterfile-adapter.service.ts:77-101 | `publications` is the row count; `perPaper` holds, in row order, each row's own statistics and matches the encoder's publications by year; the type counts sum to the row count; `distinctCoauthorsInSet` is the number of distinct raw ids |
| MasterfileAdapter.CollectMeta | src/app/services/masterfile-adapter.service.ts:71-101 | the statistics computed with the loops equal `BuildMetaOf` |
| MasterfileAdapter.PapersLineUndefined | src/app/services/masterfile-generator.service.ts:80 | with the adapter's statistics object, the encoder's `papers` and `distinctCoauthors` are undefined, and the line reads `* Papers: undefined, Distinct coauthors: undefined` |
| MasterfileAdapter.AdapterLinesEmptyIff | src/app/services/masterfile-adapter.service.ts:59-69 | the adapter's masterfile is empty exactly when there are no rows, because the protagonist is prepended to every publication |
| MasterfileAdapter.AdapterProtagonistFirst | src/app/services/masterfile-adapter.service.ts:67 | for at least one row, the protagonist is found, is first in the final roster, and keeps the protagonist's own name |
| MasterfileAdapter.ToMasterfile | src/app/services/masterfile-adapter.service.ts:52-106 | the returned meta is `BuildMetaOf`, and the lines are the generator's output on the mapped publications |
| DblpSparql.TypesTextSplit | src/app/services/dblp-sparql.service.ts:35-36 | no types means `Article, Inproceedings`; otherwise the given list; the text splits on blanks into one `dblp:<T>` term per type, in order |
| DblpSparql.TypeTermInjective | src/app/services/dblp-sparql.service.ts:36 | distinct types render distinct terms |
| DblpSparql.TypesTextDetermines | src/app/services/dblp-sparql.service.ts:35-36 | the types text determines the effective type list |
| DblpSparql.VenueClauseRoundTrip | src/app/services/dblp-sparql.service.ts:38-40 | the clause is empty exactly when the suffix is absent or empty; otherwise the suffix can be read back from the clause |
| DblpSparql.NonEmpty | src/app/services/dblp-sparql.service.ts:45 | `filter(Boolean)` keeps exactly the non-empty strings |
| DblpSparql.YearFilterMarks | src/app/services/dblp-sparql.service.ts:42-44 | a year filter is empty exactly when its bound is unset, and its comparison character shows which bound it is |
| DblpSparql.YearClausesBounds | src/app/services/dblp-sparql.service.ts:42-45 | the year clauses are empty only when both bounds are unset; the `>=` filter is present exactly when the minimum is set, and `<=` exactly when the maximum is set |
| DblpSparql.MinPubs | src/app/services/dblp-sparql.service.ts:47 | the clamp is never negative, is positive exactly when a positive minimum is given, and is then that minimum |
| DblpSparql.YearClausesRewrite | src/app/services/dblp-sparql.service.ts:135 | renaming every `?year` to `?y2` in the year clauses gives the year clauses over `?y2` |
| DblpSparql.YearClausesRenamedFully | src/app/services/dblp-sparql.service.ts:135 | no `?year` is left after the renaming |
| DblpSparql.MinPubsClauses | src/app/services/dblp-sparql.service.ts:124-139 | the min-pubs block is empty exactly when the clamp is 0, and then the query equals the one without a minimum; otherwise the query has `FILTER(?co = ?a)` and the `?y2` year clauses, and with top-K also the focus `HAVING` |
| DblpSparql.FocusHaving | src/app/services/dblp-sparql.service.ts:68 | with a positive minimum and top-K, the focus block carries `HAVING (COUNT(DISTINCT ?joint) >= n)` |
| DblpSparql.TopKClauses | src/app/services/dblp-sparql.service.ts:51-72 | the focus block and the keep-filter are empty exactly when top-K ≤ 0, and the query then equals the one without top-K; otherwise the query has `FILTER(?co = ?keepCo)` and `LIMIT k` |
| DblpSparql.QueryFrame | src/app/services/dblp-sparql.service.ts:48 | the protagonist IRI is the pid prefix followed by the pid; the query binds that IRI and contains the types text, the venue clause and the year clauses |
| DblpSparql.QueryEnd | src/app/services/dblp-sparql.service.ts:147-148 | the query ends with `GROUP BY ?pub ?title ?year ?type` and `ORDER BY DESC(?year)` |
| DblpSparql.DblpTemplateShaped | src/app/services/dblp-sparql.service.ts:75-149 | the literal pieces of the service's template have the shape the template lemmas rely on |
| DblpSparql.BuildQueryFrame | src/app/services/dblp-sparql.service.ts:34-149 | the built query binds the protagonist IRI, contains the types and year clauses, and ends with the grouping and ordering |
| DblpSparql.BuildQueryMinPubs | src/app/services/dblp-sparql.service.ts:47 | a positive minimum puts `HAVING (COUNT(DISTINCT ?pInSet) >= n)` in the query; a clamp of 0 gives the same query as no minimum |
| DblpSparql.BuildQueryTopK | src/app/services/dblp-sparql.service.ts:51 | a positive top-K puts `LIMIT k` in the query; top-K ≤ 0 gives the same query as none |
| CsvIndex.CsvIndexService.AppendRow | src/app/services/csv-index.service.ts:21-25 | the store becomes the old store with the row added at the end of its test set's list, and rows stay filed under their own test set |
| CsvIndex.RowsOfAppendedAll | src/app/services/csv-index.service.ts:21-29 | after appending rows to an empty store, a test set's list is its rows in append order |
| CsvIndex.KeyedKept | src/app/services/csv-index.service.ts:21-33 | append and clear keep every row filed under its own test set |
| CsvIndex.CsvIndexService.Rows | src/app/services/csv-index.service.ts:27-29 | returns the stored list, or the empty list for an unknown test set; when every stored row sits under its own test set's key, every returned row belongs to the requested test set |
| CsvIndex.RowsOfCleared | src/app/services/csv-index.service.ts:31-33 | after clear, that test set has no rows and every other test set is unchanged |
| CsvIndex.CsvIndexService.Clear | src/app/services/csv-index.service.ts:31-33 | the store loses exactly that key |
| CsvIndex.Esc | src/app/services/csv-index.service.ts:43-47 | null gives `''`; a value without `"`, `,` or newline is unchanged; any other value is wrapped in double quotes |
| CsvIndex.ReadQuotedDoubled | src/app/services/csv-index.service.ts:46 | reading a quoted field whose quotes were doubled gives the original text back |
| CsvIndex.ReadEscaped | src/app/services/csv-index.service.ts:43-47 | an escaped field, read by the quoting rules of RFC 4180, gives the original string (or `''` for null), with the text after it untouched |
| CsvIndex.EscInteger | src/app/services/csv-index.service.ts:45-46 | a rendered integer is never quoted |
| CsvIndex.ReadEscapedLine | src/app/services/csv-index.service.ts:50 | a line of escaped, comma-joined fields reads back as the original field texts |
| CsvIndex.CellsInOrder | src/app/services/csv-index.service.ts:37-42 | a row's cells are its fields in header order |
| CsvIndex.PlainHeaders | src/app/services/csv-index.service.ts:37-42 | none of the eight header names needs quoting |
| CsvIndex.DownloadRoundTrip | src/app/services/csv-index.service.ts:37-51 | the download reads back as one record per line: the eight header names first, then the field texts of each row in append order |
| CsvIndex.CsvIndexService.Download | src/app/services/csv-index.service.ts:35-55 | the file is `<testsetId>_index.csv`, and its text is the download of that test set's rows |

## Left out

- `runQuery` (src/app/services/dblp-sparql.service.ts:152-176): the HTTP request, the rxjs pipeline and the `Number(...)` parsing of the bindings. The model starts from the parsed rows.
- Floating point:
  - strengths and averages are reals, so there is no rounding;
  - `toFixed(2)` comes in as a function parameter;
  - the JSON text of the filters comes in as a string;
  - the CSV's two average fields are carried as the text `String(number)` would give;
  - years and counts are integers, with no `NaN` and no fractions.
- The clock (`new Date().toISOString()`) comes in as a parameter.
- The Blob, `document` and `URL` plumbing of the CSV download (src/app/services/csv-index.service.ts:52-57) is not modelled. The model returns the file name and the text.
- `console.error` when the protagonist is missing is not modelled; the empty result is.
- JavaScript property order for integer-like keys is not modelled. The model takes ids that do not look like array indices, which would otherwise be enumerated first.
- Ids that name inherited object properties (`constructor`, `toString`) are not modelled. The code's truthiness test would take them as already present.
- `toUpperCase` maps ASCII letters only. Other characters are kept as they are.
- `types` given as `undefined` is treated like the empty list; both default to `Article, Inproceedings`.
- CsvIndex.CsvIndexService.Rows: returns the list by value. In the code the caller receives the stored array itself, so later appends show through it and a caller's own changes reach the store. That aliasing is not modelled.
- CsvIndex.ReadDocument: the reader takes `\n` as the record break, as the download writes it. RFC 4180 uses CRLF. A lone `\r` stays unquoted, as `esc` leaves it.
- The UI component, the router and the thin `dblp.service.ts` HTTP wrapper are not part of this model.

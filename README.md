# Movie-identity resolution, modelled in Dafny

This project models the part of the catalog tool that decides which movie a
scraped listing is. A listing comes from a streaming catalogue (Netflix,
Amazon Prime, …). The reference index is built from the IMDb title dumps.

- **Normalizer** (`normalizer.dfy`): `normalize_movie_name`, the join key
  between scraped and reference titles. It lower-cases the title, turns each
  run of non-word characters (underscore included) into one space, collapses
  runs of spaces and strips the ends. Proved: the result is lower-case words
  separated by single spaces; normalising is idempotent; `"The Matrix
  (1999)!"` and `"the matrix 1999"` both give `"the matrix 1999"`.
- **PyDict** (`pydict.dfy`): Python's insertion-ordered `dict`, as a
  sequence of pairs. `d[k] = v` keeps an existing key's position. `d.update(e)`
  lets `e` override. `values()` follows insertion order.
- **Imdb** (`imdb.dfy`):
  - `ImdbMovieInfo`, a class whose fields `enhance_data` and the bulk build
    update in place.
  - The bulk build `_get_imdb_titles`, as loops over basics rows and akas
    rows, proved against a fold over those rows.
  - `ImdbMovieSet`: its constructor builds the `name_to_id` index with
    nested loops, keeping an invariant that says exactly which ids sit under
    which normalised title. `lookup_movie` uses that index.
  - `insert_movie_queries`: its upsert list is proved to enumerate regions,
    languages and distinct non-empty normalised titles.
  - `is_empty_collection`.
- **Catalog** (`catalog.dfy`):
  - `PlatformId` and `tryint`, modelled as Python's `int()` on text.
  - The `MovieInfo` listing class: `get_netflix_url`, `get_imdb_rating`,
    `is_equivalent`, `matches` and `update_imdb`.
  - The field derivation of `from_finder`.
- **Merge** (`merge.dfy`): `merge_netflix`, an imperative method whose only
  writes are listings' `srcToRawEntry` fields. It is proved against a ghost
  fold over a store that maps each listing object to its raw records, so
  listings that occur in both lists, or twice, are handled as the code
  handles them.
- **Wrappers** (`wrappers.dfy`): `Option` stands for `None`. `Result` stands
  for a raised `AssertionError` or `KeyError`.

Two behaviours of the code shape the model:

- `is_equivalent` has no rule that makes two listings sharing an IMDb entry
  equivalent. It goes from "both unresolved" straight to platform overlap,
  then to name and year. `Catalog.SharedImdbIdNotEnough` states this.
- Years are Python values that may be text. The bulk build stores an IMDb
  entry's `year` as the raw `startYear` text. A listing read from
  whats-on-netflix.com holds its `release_yr` as the `titlereleased` text.
  Both are modelled by the `Year` datatype (see Findings).

## Model

| member | source | states |
|---|---|---|
| Normalizer.Lower | imdb.py:300 | lower-casing (`Lower` per character, `LowerStr` on the title) maps no character to an upper-case letter, keeps word characters word characters, and leaves every non-word character alone |
| Normalizer.DropWhileShape | imdb.py:303 | dropping the leading characters of a class leaves a suffix of the input that does not start with one, and every character removed is in the class |
| Normalizer.TrimRightShape | imdb.py:303 | dropping the trailing characters of a class leaves a prefix of the input that does not end with one, and every character removed is in the class |
| Normalizer.StripShape | imdb.py:303 | `strip()` (`Strip`, also used for `int()` and `strip("/")`) returns a slice `s[a..b]` of its input whose first and last characters are outside the class, and every character before `a` or from `b` on is in the class |
| Normalizer.StripIdentity | imdb.py:303 | a string that neither starts nor ends with a character of the class is left unchanged by stripping |
| Normalizer.ReplaceRunsChars | imdb.py:301-302 | after a run replacement (`ReplaceRuns`, the `re.sub` of a class's runs by one space) every character is a space or a character of the input outside the replaced class |
| Normalizer.ReplaceRunsNoDoubleSpace | imdb.py:301-302 | replacing runs of a class that contains the space leaves no two adjacent spaces |
| Normalizer.ReplaceRunsIdentity | imdb.py:302 | a string whose only class characters are spaces, none adjacent, is left unchanged by run replacement |
| Normalizer.Normalize | imdb.py:299-303 | definition: lower-case, replace each run of non-word characters by a space, collapse runs of spaces, strip `str.isspace` whitespace from both ends; its properties are the rows below |
| Normalizer.NormalizeIsNormalized | imdb.py:299-303 | the normalised title holds only lower-case word characters and single spaces, with no space at either end and no two adjacent spaces |
| Normalizer.NormalizedIsFixpoint | imdb.py:299-303 | a title already in normal form normalises to itself |
| Normalizer.NormalizeIdempotent | imdb.py:299-303 | normalising twice gives the same as normalising once |
| Normalizer.ReplaceRunsCollapse | imdb.py:301 | a non-empty run of replaced characters becomes exactly one space |
| Normalizer.MatrixExample | imdb.py:299-303 | `"The Matrix (1999)!"` and `"the matrix 1999"` both normalise to `"the matrix 1999"` |
| PyDict.Values | catalog_fetcher.py:328 | `list(d.values())` holds the values in insertion order |
| PyDict.Get | catalog_fetcher.py:322 | `d.get(k)` is `None` exactly when `k` is not a key, and otherwise a value stored under `k` |
| PyDict.GetAt | catalog_fetcher.py:322 | in a dict with unique keys, the lookup of the key at any position gives that position's value |
| PyDict.PutShape | catalog_fetcher.py:324 | `d[k] = v` (`Put`) keeps an existing key's position and appends a new key at the end; other pairs and all positions' keys stay; the keys become the old keys plus `k` |
| PyDict.PutPairs | catalog_fetcher.py:324 | after `d[k] = v` every pair is `(k, v)` or the pair that stood at its position |
| PyDict.PutGet | catalog_fetcher.py:324 | after `d[k] = v` looking up `k` gives `v` and every other key gives what it gave before |
| PyDict.PutUnique | catalog_fetcher.py:316-317 | assignment keeps keys unique |
| PyDict.UpdateSemantics | catalog_fetcher.py:327 | `d.update(e)` (`Update`) keeps keys unique, has the keys of both, gives `e`'s value for `e`'s keys and `d`'s value otherwise, keeps `d`'s keys at their positions, and puts `e`'s new keys after them in `e`'s order |
| PyDict.NewKeys | catalog_fetcher.py:327 | the keys `d.update(e)` appends: keys of `e` that are not already present |
| PyDict.NewKeysIgnore | catalog_fetcher.py:327 | a key that `e` does not hold makes no difference to which of `e`'s keys are new |
| PyDict.UpdateOrderStep | catalog_fetcher.py:327 | the key order of `d.update(e)` follows from that of updating with `e`'s tail after assigning its first pair |
| Imdb.IsEmptyCollection | imdb.py:34-35 | true exactly for a present collection with no elements; `None` is not empty |
| Imdb.ImdbMovieInfo.constructor | imdb.py:92-100 | a new entry has the given id, titles and year, is neither enhanced nor failed, and has no languages, regions or detail |
| Imdb.ImdbMovieInfo.EnhanceData | imdb.py:133-148 | the entry's new state and the failure report are those of the enhancement step applied to its old state and the fetch outcome |
| Imdb.Enhance | imdb.py:133-148 | definition of the enhancement step on an entry's state and a fetch outcome; its properties are the three rows below |
| Imdb.EnhanceSettled | imdb.py:134-137 | an entry without an id, or already enhanced or failed, is left unchanged and nothing is reported |
| Imdb.EnhanceOutcome | imdb.py:138-147 | on success the detail is the fetched map, languages gain the detail's `Language` set, enhanced is set and the error flag cleared; on failure the error flag is set, enhanced cleared, detail and languages kept, and one failure naming the entry is reported; titles, regions, id and year never change |
| Imdb.EnhanceOnce | imdb.py:133-148 | a second enhancement after the first changes nothing and reports nothing |
| Imdb.ImdbMovieInfo.AddAka | imdb.py:197-202 | the entry's state becomes `WithAka` of its old state: an aka row adds its title, and its language and region unless they are `\N` |
| Imdb.LoadBasicsEntries | imdb.py:175-183 | the entries are exactly the ids of basics rows of type `movie`, and each is seeded from the last such row for its id with titles {primary, original} and that row's year |
| Imdb.LoadBasicsYears | imdb.py:177-183 | every entry of the basics fold has a text year, and it is exactly the `startYear` text of the last movie row with that id |
| Imdb.AkaSetsStep | imdb.py:197-202 | the titles, languages and regions akas rows contribute to an id grow by exactly the last row's contribution |
| Imdb.WithAkasStep | imdb.py:193-202 | folding one more aka row changes an entry only when the row names that entry |
| Imdb.LoadAkasEntry | imdb.py:193-202 | after the akas rows a known entry is its seeded state with every one of its aka rows applied |
| Imdb.LoadAkasKeys | imdb.py:193-197 | akas rows for unknown ids create no entry |
| Imdb.LoadAkasEntries | imdb.py:189-202 | the akas pass keeps the set of ids, and each entry gains exactly the titles of its rows and the languages and regions of its rows that are not `\N` |
| Imdb.LoadTitles | imdb.py:169-206 | definition: the basics fold, then the akas fold; its properties are the `LoadBasics…`, `LoadAkas…` and `GetImdbTitles` rows |
| Imdb.LoadTitlesYears | imdb.py:169-206 | every entry of the bulk build carries its year as text |
| Imdb.GetImdbTitles | imdb.py:169-206 | the map built equals the fold over basics then akas rows, with one distinct fresh entry object per id |
| Imdb.ReadBasics | imdb.py:173-183 | the basics loop builds the basics fold, one fresh distinct object per id |
| Imdb.ReadAkas | imdb.py:187-202 | the akas loop updates the entries in place to the akas fold of their previous states |
| Imdb.TitleKeysAdd | imdb.py:161-162 | adding a title adds exactly its normalised form to the entry's keys |
| Imdb.IndexesNewId | imdb.py:160-162 | an index stays exact when an id with no titles yet is added |
| Imdb.IndexesAddTitle | imdb.py:161-162 | adding an id under a title's normalised key keeps the index exact for the entry with that title added |
| Imdb.ImdbMovieSet.constructor | imdb.py:157-162 | the index maps every normalised key to exactly the ids having a title with that key |
| Imdb.ImdbMovieSet.LookupMovie | imdb.py:164-166 | `lookup_movie` returns only entries of the map |
| Imdb.LookupMovieExact | imdb.py:164-166 | `lookup_movie(n)` returns exactly the entries with some title that normalises like `n`, and none when there is no such title |
| Imdb.Lookups | imdb.py:79-87 | one lookup upsert per key, in order, each carrying the entry's id and the key type |
| Imdb.EnumeratesAdd | imdb.py:79-85 | listing one more member of a set keeps the listing duplicate-free and within the set |
| Imdb.LookupsAppend | imdb.py:80-87 | appending a key appends one lookup upsert |
| Imdb.NormTitleFixed | imdb.py:86-87 | a normalised title normalises to itself, so the key written is the normalised title |
| Imdb.AppendLookups | imdb.py:79-82 | the upserts appended enumerate the regions or languages, each exactly once |
| Imdb.AppendNormTitleLookups | imdb.py:83-87 | the upserts appended enumerate the distinct non-empty normalised titles, each exactly once |
| Imdb.InsertMovieQueries | imdb.py:73-88 | the data upsert for the entry comes first, then one lookup per region, per language and per distinct non-empty normalised title, each carrying the entry's id |
| Imdb.NormTitlesNonEmpty | imdb.py:83-84 | no `norm_title` key is empty, and each is the normalised form of one of the entry's titles |
| Catalog.ParseInt | catalog_fetcher.py:40-44 | definition of `int()` on text: strip the whitespace `int()` skips (tab, line feed, vertical tab, form feed, carriage return, space), an optional sign, then digits with single underscores between them; its properties are the `TryInt…` rows |
| Catalog.TryInt | catalog_fetcher.py:40-44 | definition: the parsed value, or the default when `int()` raises |
| Catalog.DigitsValueShowNat | catalog_fetcher.py:40-44 | the value of a natural number's decimal digits is that number |
| Catalog.TryIntDigits | catalog_fetcher.py:40-44 | a non-empty digit string parses to its decimal value, whatever the default |
| Catalog.TryIntNegDigits | catalog_fetcher.py:40-44 | a minus sign before digits negates their value |
| Catalog.TryIntShowNat | catalog_fetcher.py:40-44 | `tryint` inverts the decimal rendering of a number and of its negation |
| Catalog.TryIntEmpty | catalog_fetcher.py:40-44 | the empty string gives the default |
| Catalog.TryIntBlanks | catalog_fetcher.py:40-44 | surrounding space and line feed are skipped: `" 42\n"` gives 42 |
| Catalog.TryIntSeparator | catalog_fetcher.py:40-44 | a leading file separator, which `str.strip` removes, makes `int()` fail, so the default comes back |
| Catalog.TryIntYear | catalog_fetcher.py:165 | the year column `"2018"` gives 2018 |
| Catalog.FirstNetflixTitle | catalog_fetcher.py:58-60 | the index found is the first Netflix platform id not starting with `slug`, and none is found only when there is no such id |
| Catalog.FirstNetflixId | catalog_fetcher.py:61-64 | the index found is the first raw record with a non-empty `netflixid`, and none is found only when there is no such record |
| Catalog.NetflixUrl | catalog_fetcher.py:57-65 | a URL found starts with the Netflix title prefix; none is found exactly when no platform id and no raw record supplies an id |
| Catalog.NetflixUrlPrefersPlatform | catalog_fetcher.py:58-60 | the first Netflix title id among the platforms gives the URL, whatever the raw records hold |
| Catalog.NetflixUrlFallsBack | catalog_fetcher.py:61-64 | without such a platform id, the first raw record with a `netflixid` gives the URL |
| Catalog.FirstRated | catalog_fetcher.py:68-71 | the index found is the first raw record offering an `imdb` or else `imdb_rating` value, and none is found only when no record offers one |
| Catalog.ImdbRating | catalog_fetcher.py:67-73 | the rating is that of the first record offering one (`RatingOf`: its `imdb` value if truthy, else its `imdb_rating`), in insertion order, and `n/a` when none does |
| Catalog.MovieInfo.constructor | catalog_fetcher.py:47-55 | a new listing has the given name, raw records, year and platforms, and no languages, regions or IMDb entries |
| Catalog.MovieInfo.IsEquivalent | catalog_fetcher.py:88-98 | definition of `is_equivalent`; its properties are the `Equivalent…` rows below |
| Catalog.EquivalentUnresolved | catalog_fetcher.py:89-92 | two listings with no IMDb entries are equivalent whatever their names, years and platforms |
| Catalog.EquivalentResolved | catalog_fetcher.py:93-98 | once either listing is resolved, equivalence holds exactly when a platform id is shared, or the normalised names and release years are equal |
| Catalog.EquivalentSymmetric | catalog_fetcher.py:88-98 | equivalence does not depend on which listing asks |
| Catalog.EquivalentMixedYears | catalog_fetcher.py:97-98 | a resolved pair with no shared platform is never equivalent when one release year is text and the other an integer |
| Catalog.SharedImdbIdNotEnough | catalog_fetcher.py:88-98 | listings sharing an IMDb entry but no platform id, with differently normalised names, are not equivalent |
| Catalog.MovieInfo.Matches | catalog_fetcher.py:100-107 | `AssertionError` exactly when neither a non-empty language filter nor a year is given; otherwise true exactly when the language filter is empty or meets the listing's languages, and the year is absent, 0, equal as a Python value to the listing's own year, or (the listing's year being the integer -1) an integer year of one of its entries |
| Catalog.MatchesYear | catalog_fetcher.py:101-105 | an integer release year matches itself; another non-zero year does not when the listing's year is a known integer; an empty language filter with no year fails the assertion |
| Catalog.MatchesIgnoresTextYears | catalog_fetcher.py:106 | a listing of unknown year whose entries carry text years matches no year other than 0 and -1 |
| Catalog.MatchesIgnoresTextReleaseYear | catalog_fetcher.py:104-105 | a listing whose release year is text matches no non-zero year |
| Catalog.MatchesCorrected | catalog_fetcher.py:100-107 | as `matches`, with the listing's and the entries' years compared by the integer their text spells |
| Catalog.MatchesCorrectedFindsTextReleaseYear | catalog_fetcher.py:104-105 | with the correction, a listing whose release year is the text of a number matches that number |
| Catalog.MatchesCorrectedFindsTextYear | catalog_fetcher.py:106 | with the correction, a listing of unknown year matches the year written in its entry's text |
| Catalog.MatchesCorrectedAgrees | catalog_fetcher.py:106 | the correction agrees with `matches` when the listing's and all entry years are integers |
| Catalog.LanguagesRegionsAdd | catalog_fetcher.py:77-79 | one more entry adds exactly its languages and regions to the union |
| Catalog.Gather | catalog_fetcher.py:77-79 | the loop gathers the union of the entries' languages and of their regions |
| Catalog.MovieInfo.Resolve | catalog_fetcher.py:76-79 | the listing takes the entries found, adds their languages and regions to its own, and keeps its raw records |
| Catalog.MovieInfo.UpdateImdb | catalog_fetcher.py:75-80 | the entries become what `lookup_movie(name)` returns, languages and regions become the old sets plus the entries' sets, and nothing is removed |
| Catalog.LastSegment | catalog_fetcher.py:161 | the last segment is a slash-free suffix preceded by a slash, or the whole string |
| Catalog.LastSegmentAfterSlash | catalog_fetcher.py:161 | what follows the last slash is the last segment |
| Catalog.NetflixIdFromWatchLink | catalog_fetcher.py:161 | the id taken from a watch link, the last segment after stripping slashes at both ends, holds no slash |
| Catalog.WatchLinkSegment | catalog_fetcher.py:161 | whatever precedes the last slash, a non-empty slash-free id after it is the id taken from the link |
| Catalog.WatchLinkExample | catalog_fetcher.py:145 | `http://www.netflix.com/watch/81087095` yields `81087095` |
| Catalog.FinderListing | catalog_fetcher.py:158-166 | `KeyError` for the watch link (Netflix), then the title, then the year, in that order; otherwise the name is the title, the one source is `finder.com:<provider>`, the year is the integer `tryint(year, -1)`, and the platform id is the link's last segment for Netflix and `NA_<title>` otherwise; the one-source records form a dict |
| Catalog.FromFinder | catalog_fetcher.py:158-166 | the listing is fresh and built from those fields, its raw records a dict, or the same `KeyError` is returned |
| Merge.InitialShape | catalog_fetcher.py:316-317 | the first list's index (`InitialByUrl`, the dict comprehension) has unique keys, exactly the URLs of the first list, and only listings of that list |
| Merge.InitialLastWins | catalog_fetcher.py:316-317 | under a URL the index holds the last listing of the first list with that URL |
| Merge.MergeStepUnseen | catalog_fetcher.py:322-325 | a listing with a URL not yet present is appended at the end under it, and nothing else changes |
| Merge.MergeStepSeen | catalog_fetcher.py:326-327 | a listing whose URL is present leaves the dict alone; the listing already there gets the keys of both source dicts, the newcomer's record winning per source, its own sources keeping their places and the newcomer's new sources following in the newcomer's order; every other listing keeps its records |
| Merge.MergeStep | catalog_fetcher.py:318-327 | definition of one loop step of `merge_netflix` on the ghost state; its properties are the `MergeStep…` rows |
| Merge.MergeFoldFailed | catalog_fetcher.py:319-321 | after the assertion fails, later listings change nothing |
| Merge.SomeWithoutUrlAppend | catalog_fetcher.py:319-321 | some listing lacks a URL after one more exactly when one did before or the new one does |
| Merge.UntouchedUpdate | catalog_fetcher.py:327 | changing the records of a listing already met leaves every other listing's records as at the start |
| Merge.StepFacts | catalog_fetcher.py:318-327 | each step keeps the dict's keys unique and its listings from the lists, keeps unmet listings' records, fails exactly at a listing without a URL, and otherwise keys the dict by the URLs met |
| Merge.FoldFacts | catalog_fetcher.py:318-327 | those facts hold after every prefix of the second list |
| Merge.MergeSpec | catalog_fetcher.py:315-328 | definition of `merge_netflix` as the index of the first list folded with the steps over the second; its properties are the `MergeOutcome` and `MergeNetflix` rows |
| Merge.MergeOutcome | catalog_fetcher.py:315-328 | for separate lists, the merge fails exactly when a second-list listing has no URL, and otherwise keeps one listing per URL, each from the lists, under exactly the URLs of both lists |
| Merge.IndexByUrl | catalog_fetcher.py:316-317 | the loop builds the first list's index |
| Merge.AddListing | catalog_fetcher.py:322-327 | one loop step over a listing with a URL performs the specification's step, changing only the existing listing's raw records |
| Merge.MergeNetflix | catalog_fetcher.py:315-328 | the result is the dict's listings in order, or `AssertionError` exactly when the specification fails; every listing's raw records end as the specification's store says, and no other field changes; when every listing's raw records were a dict, they still are |
| Merge.MergeFoldKeepsDicts | catalog_fetcher.py:318-327 | every step keeps each listing's raw records a dict, since `update` of two dicts is one |
| Merge.DictsKept | catalog_fetcher.py:315-328 | listings holding the merged store's records hold dicts when the records at the start were dicts |

## Findings

| source | as written | input that shows it | evidently intended | confidence | as-written member | corrected member |
|---|---|---|---|---|---|---|
| catalog_fetcher.py:106 | `matches` looks for the integer filter year among the entries' `year` values. The bulk build stores those as the raw `startYear` text (imdb.py:177, imdb.py:183). | A listing with `release_yr == -1` whose only entry comes from a basics row with `startYear` `"1999"`; `matches(release_yr=1999)` returns False. | The entry's year 1999 should let the listing match, as the declared `year: int` field suggests. | high (not executed) | Catalog.MatchesIgnoresTextYears | Catalog.MatchesCorrected |
| catalog_fetcher.py:104-105 | `from_whats_on_netflix` (catalog_fetcher.py:132) stores the `titlereleased` text as `release_yr`, and `matches` compares it with the integer filter year. | A whats-on-netflix listing with `release_yr` `"2017"`; `matches(release_yr=2017)` returns False. | The listing's own year should match, as the declared `release_yr: int` field suggests. | high (not executed) | Catalog.MatchesIgnoresTextReleaseYear | Catalog.MatchesCorrected |

## Left out

- Normalizer.Normalize: characters are ASCII. Word characters are ASCII letters and digits, lower-casing maps only `A`–`Z`, and whitespace is the ASCII set `str.strip` removes: tab, line feed, vertical tab, form feed, carriage return, the file, group, record and unit separators, and space. Python's Unicode `\w`, `lower()` and whitespace tables are not modelled.
- Catalog.TryInt: `int()` is modelled on text only, with ASCII digits and the ASCII whitespace `int()` skips (tab, line feed, vertical tab, form feed, carriage return and space). Other argument types (`None`, floats) and Unicode digits are not modelled.
- Imdb.LookupMovieExact: `lookup_movie` returns a list in the iteration order of an id set. The model returns the set of entries, so order is not modelled.
- Catalog.MovieInfo.UpdateImdb: the listing's `imdb` is modelled as a set of entry objects, not a list, for the same reason.
- Merge.MergeOutcome: it assumes no listing object occurs in both lists or twice in the second. `Merge.MergeNetflix` itself is proved for any lists, aliasing included.
- Merge.MergeNetflix: raw-record dicts are values. If two listings shared one dict object, an in-place `update` would show through both; that is not modelled. A disabled `assert` (Python `-O`) is not modelled either.
- Imdb.ImdbMovieInfo: `imdb_id` and `year` are constants, since the modelled code never reassigns them.
- `ImdbMovieSet(from_movie_names=…)`, which fills the map from SQLite, is not part of this model. The constructor takes the `id_to_movie` map.
- Fetching an IMDb title page for `enhance_data` is a parameter: either a fetched detail map or a failure. Calling the error sink is the returned failure report.
- `enhance_movie_info` is not modelled: it runs `enhance_data` on a thread pool bounded by a semaphore and joins the threads. The `IS_DUMMY` early exits, progress bars and logging are not modelled either.
- `write_to_sqlite` is not modelled beyond the upsert list it sends per entry (`Imdb.InsertMovieQueries`): opening the SQLite connection, executing the queries and committing every 5000 entries are I/O.
- Reading the TSV files is not modelled. The bulk build takes the rows as sequences of records.
- The JSON payload of the data upsert (`json.dumps(attr.asdict(movie))`) is the entry's state value.
- The `str(p)` comparison of platform ids is pair equality. `str` of the attrs class prints both fields, so it distinguishes the same pairs.
- Catalog.MovieInfo.IsEquivalent: release years are compared as Python values, so a text year never equals an integer year (`Catalog.EquivalentMixedYears`); no corrected equivalence is modelled.
- `_finder_entry_to_dict` (HTML parsing), `from_whats_on_netflix`, `MovieInfoCollection`, the fetchers, caching and the command line are not part of this model. A listing built by `from_whats_on_netflix` is still representable: its text release year is a `RawYear`.

/**
 * The IMDb reference index of imdb.py: the per-title entry and its
 * enhancement state machine, the bulk build from the `title.basics` and
 * `title.akas` rows, the normalised-title index with its lookup, and the
 * upsert list one entry turns into.
 */
module Imdb {
  import opened Wrappers
  import opened Normalizer

  /** `is_empty_collection`: an argument that was given and holds nothing. */
  function IsEmptyCollection<T>(inp: Option<seq<T>>): (r: bool)
    ensures inp.None? ==> !r
    ensures inp.Some? ==> (r <==> forall x :: x !in inp.value)
  {
    if inp.Some? && |inp.value| > 0 then
      assert inp.value[0] in inp.value;
      false
    else
      inp.Some?
  }

  /**
   * A year attribute as Python holds it: declared `int`, but the text it
   * was read as wherever a column is stored unparsed.  An entry's `year`
   * defaults to the integer `-1`; the bulk build stores the `startYear`
   * column's text.
   */
  datatype Year = IntYear(n: int) | RawYear(text: string)

  /** The marker the IMDb dumps use for a missing column value. */
  const NullField := "\\N"
  const MovieTitleType := "movie"

  /** The attributes of one entry, as `attr.asdict` sees them. */
  datatype EntryState = EntryState(
    titles: set<string>,
    imdbId: string,
    year: Year,
    enhanced: bool,
    enhancementError: bool,
    languages: set<string>,
    regions: set<string>,
    detail: map<string, set<string>>)

  /** What the detail-page fetch of `enhance_data` produced. */
  datatype FetchOutcome =
    | Fetched(detail: map<string, set<string>>)
    | FetchFailed(reason: string)

  /** The message `enhance_data` hands to its error sink. */
  datatype EnhanceFailure = EnhanceFailure(imdbId: string, titles: set<string>, reason: string)

  /** `detail.get('Language', set())` */
  function DetailLanguages(detail: map<string, set<string>>): set<string> {
    if "Language" in detail then detail["Language"] else {}
  }

  /** An entry with an id that has neither been enhanced nor failed yet. */
  predicate AwaitsEnhancement(e: EntryState) {
    e.imdbId != "" && !e.enhanced && !e.enhancementError
  }

  /** The entry after `enhance_data`, paired with what it reports to the error sink. */
  function Enhance(e: EntryState, fetch: FetchOutcome): (EntryState, Option<EnhanceFailure>) {
    if !AwaitsEnhancement(e) then (e, None)
    else match fetch
      case Fetched(d) =>
        (e.(detail := d, languages := e.languages + DetailLanguages(d),
            enhanced := true, enhancementError := false), None)
      case FetchFailed(reason) =>
        (e.(enhancementError := true, enhanced := false),
         Some(EnhanceFailure(e.imdbId, e.titles, reason)))
  }

  /** One IMDb title: `ImdbMovieInfo`. */
  class ImdbMovieInfo {
    const imdbId: string
    const year: Year
    var titles: set<string>
    var enhanced: bool
    var enhancementError: bool
    var languages: set<string>
    var regions: set<string>
    var detail: map<string, set<string>>

    function State(): EntryState
      reads this
    {
      EntryState(titles, imdbId, year, enhanced, enhancementError, languages, regions, detail)
    }

    /** An entry as the bulk build creates it: the given id, titles and year, everything else defaulted. */
    constructor (imdbId: string, titles: set<string>, year: Year)
      ensures State() == EntryState(titles, imdbId, year, false, false, {}, {}, map[])
    {
      this.imdbId := imdbId;
      this.year := year;
      this.titles := titles;
      enhanced := false;
      enhancementError := false;
      languages := {};
      regions := {};
      detail := map[];
    }

    /**
     * `enhance_data`: `fetch` stands for the result of scraping the title's
     * detail page; `report` is the message passed to the error sink, if any.
     */
    method EnhanceData(fetch: FetchOutcome) returns (report: Option<EnhanceFailure>)
      modifies this
      ensures (State(), report) == Enhance(old(State()), fetch)
    {
      report := None;
      if imdbId == "" {
        return;
      }
      if enhanced || enhancementError {
        return;
      }
      match fetch {
        case Fetched(d) =>
          detail := d;
          languages := languages + DetailLanguages(d);
          enhanced := true;
          enhancementError := false;
        case FetchFailed(reason) =>
          enhancementError := true;
          enhanced := false;
          report := Some(EnhanceFailure(imdbId, titles, reason));
      }
    }

    /** The body of the akas loop of `_get_imdb_titles` for a row of this entry's id. */
    method AddAka(row: AkasRow)
      modifies this
      ensures State() == WithAka(old(State()), row)
    {
      titles := titles + {row.title};
      if row.language != NullField {
        languages := languages + {row.language};
      }
      if row.region != NullField {
        regions := regions + {row.region};
      }
    }
  }

  /** An entry without an id, or one already enhanced or failed, is left as it is and nothing is reported. */
  lemma EnhanceSettled(e: EntryState, fetch: FetchOutcome)
    requires e.imdbId == "" || e.enhanced || e.enhancementError
    ensures Enhance(e, fetch) == (e, None)
  {
  }

  /**
   * A fresh entry with an id: a successful fetch stores the detail map,
   * adds its languages and marks the entry enhanced; a failed one marks it
   * failed, keeps detail and languages and reports once.  Titles, regions,
   * id and year are untouched and no language is ever removed.
   */
  lemma EnhanceOutcome(e: EntryState, fetch: FetchOutcome)
    requires AwaitsEnhancement(e)
    ensures Enhance(e, fetch).0.titles == e.titles && Enhance(e, fetch).0.regions == e.regions
    ensures Enhance(e, fetch).0.imdbId == e.imdbId && Enhance(e, fetch).0.year == e.year
    ensures e.languages <= Enhance(e, fetch).0.languages
    ensures fetch.Fetched? ==>
      var (e', report) := Enhance(e, fetch);
      e'.detail == fetch.detail && e'.languages == e.languages + DetailLanguages(fetch.detail)
      && e'.enhanced && !e'.enhancementError && report.None?
    ensures fetch.FetchFailed? ==>
      var (e', report) := Enhance(e, fetch);
      e'.detail == e.detail && e'.languages == e.languages
      && !e'.enhanced && e'.enhancementError
      && report == Some(EnhanceFailure(e.imdbId, e.titles, fetch.reason))
  {
  }

  /** Whatever the first call did, a second `enhance_data` changes nothing and reports nothing. */
  lemma EnhanceOnce(e: EntryState, first: FetchOutcome, second: FetchOutcome)
    ensures Enhance(Enhance(e, first).0, second) == (Enhance(e, first).0, None)
  {
  }

  /* ---------------------------------------------------------------- */
  /* Bulk build from the dump rows                                     */
  /* ---------------------------------------------------------------- */

  /** The columns of a `title.basics` row that the build reads. */
  datatype BasicsRow = BasicsRow(
    tconst: string, titleType: string, primaryTitle: string, originalTitle: string, startYear: string)

  /** The columns of a `title.akas` row that the build reads. */
  datatype AkasRow = AkasRow(titleId: string, title: string, region: string, language: string)

  /** The entry a movie row creates. */
  function Seed(row: BasicsRow): EntryState {
    EntryState({row.primaryTitle, row.originalTitle}, row.tconst, RawYear(row.startYear),
               false, false, {}, {}, map[])
  }

  /** The entries after reading `rows` of `title.basics` in order. */
  function LoadBasics(rows: seq<BasicsRow>): map<string, EntryState> {
    if rows == [] then map[]
    else
      var m := LoadBasics(rows[..|rows| - 1]);
      var row := rows[|rows| - 1];
      if row.titleType == MovieTitleType then m[row.tconst := Seed(row)] else m
  }

  /** What one alternative-title row adds to its entry. */
  function WithAka(e: EntryState, row: AkasRow): EntryState {
    e.(titles := e.titles + {row.title},
       languages := if row.language != NullField then e.languages + {row.language} else e.languages,
       regions := if row.region != NullField then e.regions + {row.region} else e.regions)
  }

  /** The entries after reading `rows` of `title.akas` in order on top of `m`. */
  function LoadAkas(m: map<string, EntryState>, rows: seq<AkasRow>): map<string, EntryState> {
    if rows == [] then m
    else
      var m' := LoadAkas(m, rows[..|rows| - 1]);
      var row := rows[|rows| - 1];
      if row.titleId in m' then m'[row.titleId := WithAka(m'[row.titleId], row)] else m'
  }

  /** `_get_imdb_titles` over the rows of both dumps. */
  function LoadTitles(basics: seq<BasicsRow>, akas: seq<AkasRow>): map<string, EntryState> {
    LoadAkas(LoadBasics(basics), akas)
  }

  /** Row `i` is the last movie row of `rows` with its id. */
  predicate LastMovieRow(rows: seq<BasicsRow>, i: nat)
    requires i < |rows|
  {
    forall j :: i < j < |rows| && rows[j].titleType == MovieTitleType ==> rows[j].tconst != rows[i].tconst
  }

  /**
   * Only movie rows create entries, and the entry of an id is seeded from
   * the last movie row with that id: a later row replaces an earlier one.
   */
  lemma LoadBasicsEntries(rows: seq<BasicsRow>)
    ensures forall id :: id in LoadBasics(rows) <==>
      exists i :: 0 <= i < |rows| && rows[i].titleType == MovieTitleType && rows[i].tconst == id
    ensures forall i :: 0 <= i < |rows| && rows[i].titleType == MovieTitleType && LastMovieRow(rows, i) ==>
      LoadBasics(rows)[rows[i].tconst] == Seed(rows[i])
  {
    LoadBasicsKeys(rows);
    LoadBasicsSeeds(rows);
  }

  /** The ids of the basics fold are those of its movie rows. */
  lemma {:induction false} LoadBasicsKeys(rows: seq<BasicsRow>)
    ensures forall id :: id in LoadBasics(rows) <==>
      exists i :: 0 <= i < |rows| && rows[i].titleType == MovieTitleType && rows[i].tconst == id
  {
    if rows != [] {
      var n := |rows| - 1;
      var front := rows[..n];
      LoadBasicsKeys(front);
      forall id ensures id in LoadBasics(rows) <==>
        exists i :: 0 <= i < |rows| && rows[i].titleType == MovieTitleType && rows[i].tconst == id
      {
        if id in LoadBasics(front) {
          var i :| 0 <= i < |front| && front[i].titleType == MovieTitleType && front[i].tconst == id;
          assert rows[i] == front[i];
        }
        if exists i :: 0 <= i < |rows| && rows[i].titleType == MovieTitleType && rows[i].tconst == id {
          var i :| 0 <= i < |rows| && rows[i].titleType == MovieTitleType && rows[i].tconst == id;
          if i < n {
            assert front[i] == rows[i];
          }
        }
      }
    }
  }

  /** The last movie row for an id seeds its entry in the basics fold. */
  lemma {:induction false} LoadBasicsSeeds(rows: seq<BasicsRow>)
    ensures forall i :: 0 <= i < |rows| && rows[i].titleType == MovieTitleType && LastMovieRow(rows, i) ==>
      rows[i].tconst in LoadBasics(rows) && LoadBasics(rows)[rows[i].tconst] == Seed(rows[i])
  {
    if rows != [] {
      var n := |rows| - 1;
      var front := rows[..n];
      LoadBasicsSeeds(front);
      forall i | 0 <= i < |rows| && rows[i].titleType == MovieTitleType && LastMovieRow(rows, i)
        ensures rows[i].tconst in LoadBasics(rows) && LoadBasics(rows)[rows[i].tconst] == Seed(rows[i])
      {
        if i < n {
          assert front[i] == rows[i];
          assert LastMovieRow(front, i);
        }
      }
    }
  }

  /**
   * Every entry of the basics fold carries text, not an integer, as its
   * year: the `startYear` text of the last movie row with its id.
   */
  lemma {:induction false} LoadBasicsYears(rows: seq<BasicsRow>)
    ensures forall id :: id in LoadBasics(rows) ==> LoadBasics(rows)[id].year.RawYear?
    ensures forall i :: 0 <= i < |rows| && rows[i].titleType == MovieTitleType && LastMovieRow(rows, i) ==>
      rows[i].tconst in LoadBasics(rows) && LoadBasics(rows)[rows[i].tconst].year == RawYear(rows[i].startYear)
  {
    if rows != [] {
      LoadBasicsYears(rows[..|rows| - 1]);
    }
    LoadBasicsSeeds(rows);
  }

  /** The titles the akas rows give `id`. */
  function AkaTitles(rows: seq<AkasRow>, id: string): set<string> {
    set i | 0 <= i < |rows| && rows[i].titleId == id :: rows[i].title
  }

  /** The languages the akas rows give `id`, skipping the null marker. */
  function AkaLanguages(rows: seq<AkasRow>, id: string): set<string> {
    set i | 0 <= i < |rows| && rows[i].titleId == id && rows[i].language != NullField :: rows[i].language
  }

  /** The regions the akas rows give `id`, skipping the null marker. */
  function AkaRegions(rows: seq<AkasRow>, id: string): set<string> {
    set i | 0 <= i < |rows| && rows[i].titleId == id && rows[i].region != NullField :: rows[i].region
  }

  /** The effect of one more akas row on the collected titles, languages and regions. */
  lemma AkaSetsStep(rows: seq<AkasRow>, id: string)
    requires rows != []
    ensures var front, row := rows[..|rows| - 1], rows[|rows| - 1];
      && AkaTitles(rows, id) == AkaTitles(front, id) + (if row.titleId == id then {row.title} else {})
      && AkaLanguages(rows, id) == AkaLanguages(front, id)
           + (if row.titleId == id && row.language != NullField then {row.language} else {})
      && AkaRegions(rows, id) == AkaRegions(front, id)
           + (if row.titleId == id && row.region != NullField then {row.region} else {})
  {
    var n := |rows| - 1;
    var front := rows[..n];
    assert forall i :: 0 <= i < n ==> front[i] == rows[i];
  }

  /** An entry with everything the akas rows give `id` added. */
  function WithAkas(e: EntryState, rows: seq<AkasRow>, id: string): EntryState {
    e.(titles := e.titles + AkaTitles(rows, id),
       languages := e.languages + AkaLanguages(rows, id),
       regions := e.regions + AkaRegions(rows, id))
  }

  lemma WithAkasStep(e: EntryState, rows: seq<AkasRow>, id: string)
    requires rows != []
    ensures rows[|rows| - 1].titleId == id ==>
      WithAkas(e, rows, id) == WithAka(WithAkas(e, rows[..|rows| - 1], id), rows[|rows| - 1])
    ensures rows[|rows| - 1].titleId != id ==>
      WithAkas(e, rows, id) == WithAkas(e, rows[..|rows| - 1], id)
  {
    var front, row := rows[..|rows| - 1], rows[|rows| - 1];
    AkaSetsStep(rows, id);
    var w, w' := WithAkas(e, front, id), WithAkas(e, rows, id);
    if row.titleId == id {
      var v := WithAka(w, row);
      assert w'.titles == v.titles && w'.languages == v.languages && w'.regions == v.regions;
    } else {
      assert w'.titles == w.titles && w'.languages == w.languages && w'.regions == w.regions;
    }
  }

  /** The akas rows give an existing entry its alternative titles, languages and regions. */
  lemma {:induction false} LoadAkasEntry(m: map<string, EntryState>, rows: seq<AkasRow>, id: string)
    requires id in m
    ensures id in LoadAkas(m, rows) && LoadAkas(m, rows)[id] == WithAkas(m[id], rows, id)
  {
    if rows != [] {
      LoadAkasEntry(m, rows[..|rows| - 1], id);
      WithAkasStep(m[id], rows, id);
    }
  }

  /** The akas rows create no entry. */
  lemma {:induction false} LoadAkasKeys(m: map<string, EntryState>, rows: seq<AkasRow>)
    ensures LoadAkas(m, rows).Keys == m.Keys
  {
    if rows != [] {
      LoadAkasKeys(m, rows[..|rows| - 1]);
    }
  }

  /**
   * The akas rows create no entry; an existing entry gains every
   * alternative title of its id, and the languages and regions that are not
   * the null marker; nothing else about it changes.
   */
  lemma LoadAkasEntries(m: map<string, EntryState>, rows: seq<AkasRow>)
    ensures LoadAkas(m, rows).Keys == m.Keys
    ensures forall id :: id in m ==>
      (LoadAkas(m, rows)[id] ==
       m[id].(titles := m[id].titles + AkaTitles(rows, id),
              languages := m[id].languages + AkaLanguages(rows, id),
              regions := m[id].regions + AkaRegions(rows, id)))
  {
    LoadAkasKeys(m, rows);
    forall id | id in m
      ensures LoadAkas(m, rows)[id] == WithAkas(m[id], rows, id)
    {
      LoadAkasEntry(m, rows, id);
    }
  }

  /** Every entry of the built index keeps the raw `startYear` text as its year. */
  lemma LoadTitlesYears(basics: seq<BasicsRow>, akas: seq<AkasRow>)
    ensures forall id :: id in LoadTitles(basics, akas) ==> LoadTitles(basics, akas)[id].year.RawYear?
  {
    LoadBasicsYears(basics);
    LoadAkasEntries(LoadBasics(basics), akas);
  }

  /** The attributes of every entry of an id-keyed map. */
  function Snapshot(m: map<string, ImdbMovieInfo>): map<string, EntryState>
    reads m.Values
  {
    map id | id in m :: m[id].State()
  }

  /** No entry object is shared between two ids. */
  predicate Distinct(m: map<string, ImdbMovieInfo>) {
    forall a, b :: a in m && b in m && a != b ==> m[a] != m[b]
  }

  /** `ImdbMovieSet._get_imdb_titles`, reading the rows of both dumps in order. */
  method GetImdbTitles(basics: seq<BasicsRow>, akas: seq<AkasRow>) returns (ret: map<string, ImdbMovieInfo>)
    ensures Snapshot(ret) == LoadTitles(basics, akas)
    ensures Distinct(ret)
    ensures forall id :: id in ret ==> fresh(ret[id])
  {
    ret := ReadBasics(basics);
    ReadAkas(ret, akas);
  }

  /** The first loop of `_get_imdb_titles`: one new entry per movie row, a later row replacing an earlier one. */
  method ReadBasics(basics: seq<BasicsRow>) returns (ret: map<string, ImdbMovieInfo>)
    ensures Snapshot(ret) == LoadBasics(basics)
    ensures Distinct(ret)
    ensures forall id :: id in ret ==> fresh(ret[id])
  {
    ret := map[];
    for i := 0 to |basics|
      invariant Snapshot(ret) == LoadBasics(basics[..i])
      invariant Distinct(ret)
      invariant forall id :: id in ret ==> fresh(ret[id])
    {
      var row := basics[i];
      assert basics[..i + 1][..i] == basics[..i];
      if row.titleType == MovieTitleType {
        var movie := new ImdbMovieInfo(row.tconst, {row.primaryTitle, row.originalTitle}, RawYear(row.startYear));
        ret := ret[row.tconst := movie];
      }
    }
    assert basics[..|basics|] == basics;
  }

  /** The second loop of `_get_imdb_titles`: each akas row updates the entry of its id in place, if there is one. */
  method ReadAkas(ret: map<string, ImdbMovieInfo>, akas: seq<AkasRow>)
    requires Distinct(ret)
    modifies ret.Values
    ensures Snapshot(ret) == LoadAkas(old(Snapshot(ret)), akas)
  {
    for i := 0 to |akas|
      invariant Snapshot(ret) == LoadAkas(old(Snapshot(ret)), akas[..i])
    {
      var row := akas[i];
      assert akas[..i + 1][..i] == akas[..i];
      if row.titleId in ret {
        var movie := ret[row.titleId];
        ghost var before := Snapshot(ret);
        assert before[row.titleId] == movie.State();
        movie.AddAka(row);
        ghost var after := WithAka(before[row.titleId], row);
        forall id | id in ret ensures Snapshot(ret)[id] == before[row.titleId := after][id] {
          if id != row.titleId {
            assert ret[id] != movie;
          }
        }
        assert Snapshot(ret).Keys == before.Keys;
        assert Snapshot(ret) == before[row.titleId := after];
      }
    }
    assert akas[..|akas|] == akas;
  }

  /* ---------------------------------------------------------------- */
  /* The normalised-title index                                        */
  /* ---------------------------------------------------------------- */

  /** The normalised forms of a set of titles. */
  function TitleKeys(titles: set<string>): set<string> {
    set t | t in titles :: Normalize(t)
  }

  /** One more title adds its normalised form. */
  lemma TitleKeysAdd(titles: set<string>, t: string)
    ensures TitleKeys(titles + {t}) == TitleKeys(titles) + {Normalize(t)}
  {
    assert Normalize(t) in TitleKeys(titles + {t});
  }

  /** `name_to_id.get(key, [])` on the defaultdict of id sets. */
  function IdsUnder(index: map<string, set<string>>, key: string): set<string> {
    if key in index then index[key] else {}
  }

  /** `index` lists under each key exactly the ids having a title that normalises to it. */
  ghost predicate Indexes(index: map<string, set<string>>, titles: map<string, set<string>>) {
    forall key, id :: id in IdsUnder(index, key) <==> id in titles && key in TitleKeys(titles[id])
  }

  /** The titles of every entry, by id. */
  ghost function TitlesById(m: map<string, ImdbMovieInfo>): map<string, set<string>>
    reads m.Values
  {
    map id | id in m :: m[id].titles
  }

  /** Starting on a new id leaves the index correct. */
  lemma IndexesNewId(index: map<string, set<string>>, titles: map<string, set<string>>, id: string)
    requires Indexes(index, titles) && id !in titles
    ensures Indexes(index, titles[id := {}])
  {
  }

  /** Adding the id under the normalised form of one more of its titles keeps the index correct. */
  lemma IndexesAddTitle(index: map<string, set<string>>, titles: map<string, set<string>>, id: string, t: string)
    requires Indexes(index, titles) && id in titles
    ensures Indexes(index[Normalize(t) := IdsUnder(index, Normalize(t)) + {id}], titles[id := titles[id] + {t}])
  {
    var k := Normalize(t);
    var index' := index[k := IdsUnder(index, k) + {id}];
    var titles' := titles[id := titles[id] + {t}];
    TitleKeysAdd(titles[id], t);
    forall key, id' ensures id' in IdsUnder(index', key) <==> id' in titles' && key in TitleKeys(titles'[id']) {
      assert IdsUnder(index', key) == if key == k then IdsUnder(index, k) + {id} else IdsUnder(index, key);
      assert id' in IdsUnder(index, key) <==> id' in titles && key in TitleKeys(titles[id']);
    }
  }

  /** `ImdbMovieSet`: the entries by id, and the ids by normalised title. */
  class ImdbMovieSet {
    const idToMovie: map<string, ImdbMovieInfo>
    const nameToId: map<string, set<string>>

    /** Every key lists exactly the ids whose entry has a title normalising to it. */
    ghost predicate Valid()
      reads idToMovie.Values
    {
      Indexes(nameToId, TitlesById(idToMovie))
    }

    /** `ImdbMovieSet(...)` given its `id_to_movie` map: builds the title index. */
    constructor (idToMovie: map<string, ImdbMovieInfo>)
      ensures this.idToMovie == idToMovie
      ensures Valid()
    {
      var index: map<string, set<string>> := map[];
      ghost var done: map<string, set<string>> := map[];
      var pending := idToMovie.Keys;
      while pending != {}
        invariant pending <= idToMovie.Keys
        invariant done.Keys == idToMovie.Keys - pending
        invariant forall id :: id in done ==> done[id] == idToMovie[id].titles
        invariant Indexes(index, done)
        decreases pending
      {
        var id :| id in pending;
        var titles := idToMovie[id].titles;
        IndexesNewId(index, done, id);
        done := done[id := {}];
        var remaining := titles;
        while remaining != {}
          invariant remaining <= titles
          invariant id in done && done[id] == titles - remaining
          invariant done.Keys == idToMovie.Keys - (pending - {id})
          invariant forall id' :: id' in done && id' != id ==> done[id'] == idToMovie[id'].titles
          invariant Indexes(index, done)
          decreases remaining
        {
          var t :| t in remaining;
          var key := Normalize(t);
          IndexesAddTitle(index, done, id, t);
          index := index[key := IdsUnder(index, key) + {id}];
          done := done[id := done[id] + {t}];
          remaining := remaining - {t};
        }
        pending := pending - {id};
      }
      assert done == TitlesById(idToMovie);
      this.idToMovie := idToMovie;
      nameToId := index;
    }

    /** `lookup_movie`: the entries having some title that normalises like `name`. */
    function LookupMovie(name: string): (r: set<ImdbMovieInfo>)
      requires Valid()
      reads idToMovie.Values
      ensures r <= idToMovie.Values
    {
      var ids := IdsUnder(nameToId, Normalize(name));
      assert forall id :: id in ids ==> id in TitlesById(idToMovie);
      set id | id in ids :: idToMovie[id]
    }
  }

  /**
   * `lookup_movie(name)` returns exactly the entries having some title that
   * normalises like `name`; none when there is no such title.
   */
  lemma LookupMovieExact(movies: ImdbMovieSet, name: string)
    requires movies.Valid()
    ensures forall id :: id in movies.idToMovie && Normalize(name) in TitleKeys(movies.idToMovie[id].titles) ==>
      movies.idToMovie[id] in movies.LookupMovie(name)
    ensures forall e :: e in movies.LookupMovie(name) ==>
      exists id :: id in movies.idToMovie && Normalize(name) in TitleKeys(movies.idToMovie[id].titles)
                   && movies.idToMovie[id] == e
  {
    var key := Normalize(name);
    var titles := TitlesById(movies.idToMovie);
    forall id | id in movies.idToMovie && key in TitleKeys(movies.idToMovie[id].titles)
      ensures movies.idToMovie[id] in movies.LookupMovie(name)
    {
      assert titles[id] == movies.idToMovie[id].titles;
      assert id in IdsUnder(movies.nameToId, key);
    }
    forall e | e in movies.LookupMovie(name)
      ensures exists id :: id in movies.idToMovie && key in TitleKeys(movies.idToMovie[id].titles)
                           && movies.idToMovie[id] == e
    {
      var ids := IdsUnder(movies.nameToId, key);
      assert forall id :: id in ids ==> id in titles;
      assert e in (set id | id in ids :: movies.idToMovie[id]);
      var id :| id in ids && movies.idToMovie[id] == e;
      assert id in titles && key in TitleKeys(titles[id]);
    }
  }

  /* ---------------------------------------------------------------- */
  /* Upsert queries                                                    */
  /* ---------------------------------------------------------------- */

  /** One tuple of `insert_movie_queries`: the entry's data upsert or a lookup-row upsert. */
  datatype Query =
    | UpsertData(imdbId: string, data: EntryState)
    | UpsertLookup(imdbId: string, lookupKey: string, keyType: string)

  const RegionKey := "region"
  const LangKey := "lang"
  const NormTitleKey := "norm_title"

  /** Lookup upserts of `imdbId` with type `keyType`, one per key, in order. */
  function Lookups(imdbId: string, keys: seq<string>, keyType: string): (r: seq<Query>)
    ensures |r| == |keys|
    ensures forall i :: 0 <= i < |keys| ==> r[i] == UpsertLookup(imdbId, keys[i], keyType)
  {
    if keys == [] then [] else [UpsertLookup(imdbId, keys[0], keyType)] + Lookups(imdbId, keys[1..], keyType)
  }

  /** `ks` lists every element of `s` exactly once. */
  predicate Enumerates(ks: seq<string>, s: set<string>) {
    && (forall i :: 0 <= i < |ks| ==> ks[i] in s)
    && (forall x :: x in s ==> x in ks)
    && (forall i, j :: 0 <= i < j < |ks| ==> ks[i] != ks[j])
  }

  /** The distinct non-empty normalised titles of an entry. */
  function NormTitles(titles: set<string>): set<string> {
    TitleKeys(titles) - {""}
  }

  /** Listing one more element of `s`, not listed yet, keeps the enumeration exact. */
  lemma EnumeratesAdd(ks: seq<string>, s: set<string>, rest: set<string>, k: string)
    requires rest <= s && k in rest && Enumerates(ks, s - rest)
    ensures Enumerates(ks + [k], s - (rest - {k}))
  {
  }

  lemma LookupsAppend(imdbId: string, ks: seq<string>, k: string, keyType: string)
    ensures Lookups(imdbId, ks + [k], keyType) == Lookups(imdbId, ks, keyType) + [UpsertLookup(imdbId, k, keyType)]
  {
  }

  /** A normalised title normalises to itself, so the loop's second normalisation changes nothing. */
  lemma NormTitleFixed(titles: set<string>, n: string)
    requires n in NormTitles(titles)
    ensures Normalize(n) == n
  {
    assert n in TitleKeys(titles);
    var t :| t in titles && Normalize(t) == n;
    NormalizeIdempotent(t);
  }

  /** Appends one lookup upsert per element of `keys`, in the order `ks` records. */
  method AppendLookups(qs: seq<Query>, imdbId: string, keys: set<string>, keyType: string)
    returns (r: seq<Query>, ghost ks: seq<string>)
    ensures r == qs + Lookups(imdbId, ks, keyType)
    ensures Enumerates(ks, keys)
  {
    r := qs;
    ks := [];
    var rest := keys;
    while rest != {}
      invariant rest <= keys
      invariant r == qs + Lookups(imdbId, ks, keyType)
      invariant Enumerates(ks, keys - rest)
      decreases rest
    {
      var k :| k in rest;
      EnumeratesAdd(ks, keys, rest, k);
      LookupsAppend(imdbId, ks, k, keyType);
      r := r + [UpsertLookup(imdbId, k, keyType)];
      ks := ks + [k];
      rest := rest - {k};
    }
  }

  /**
   * `insert_movie_queries`: the data upsert first, then one lookup upsert
   * per region, per language and per distinct non-empty normalised title,
   * every one carrying the entry's id.
   */
  method InsertMovieQueries(movie: ImdbMovieInfo) returns (ret: seq<Query>)
    ensures exists rs, ls, ns ::
      && ret == [UpsertData(movie.imdbId, movie.State())]
                + Lookups(movie.imdbId, rs, RegionKey)
                + Lookups(movie.imdbId, ls, LangKey)
                + Lookups(movie.imdbId, ns, NormTitleKey)
      && Enumerates(rs, movie.regions)
      && Enumerates(ls, movie.languages)
      && Enumerates(ns, NormTitles(movie.titles))
  {
    var imdbId := movie.imdbId;
    ret := [UpsertData(imdbId, movie.State())];
    ghost var rs, ls;
    ret, rs := AppendLookups(ret, imdbId, movie.regions, RegionKey);
    ret, ls := AppendLookups(ret, imdbId, movie.languages, LangKey);
    var normTitles := set title | title in movie.titles :: Normalize(title);
    normTitles := set normTitle | normTitle in normTitles && normTitle != "";
    ghost var ns;
    ret, ns := AppendNormTitleLookups(ret, imdbId, movie.titles, normTitles);
  }

  /** The third loop of `insert_movie_queries`, which normalises each already normalised title again. */
  method AppendNormTitleLookups(qs: seq<Query>, imdbId: string, titles: set<string>, normTitles: set<string>)
    returns (r: seq<Query>, ghost ns: seq<string>)
    requires normTitles == NormTitles(titles)
    ensures r == qs + Lookups(imdbId, ns, NormTitleKey)
    ensures Enumerates(ns, normTitles)
  {
    r := qs;
    ns := [];
    var rest := normTitles;
    while rest != {}
      invariant rest <= normTitles
      invariant r == qs + Lookups(imdbId, ns, NormTitleKey)
      invariant Enumerates(ns, normTitles - rest)
      decreases rest
    {
      var normTitle :| normTitle in rest;
      NormTitleFixed(titles, normTitle);
      EnumeratesAdd(ns, normTitles, rest, normTitle);
      LookupsAppend(imdbId, ns, normTitle, NormTitleKey);
      r := r + [UpsertLookup(imdbId, Normalize(normTitle), NormTitleKey)];
      ns := ns + [normTitle];
      rest := rest - {normTitle};
    }
  }

  /** No `norm_title` lookup key is the empty string. */
  lemma NormTitlesNonEmpty(titles: set<string>, ns: seq<string>)
    requires Enumerates(ns, NormTitles(titles))
    ensures forall i :: 0 <= i < |ns| ==> ns[i] != "" && exists t :: t in titles && Normalize(t) == ns[i]
  {
    forall i | 0 <= i < |ns| ensures ns[i] != "" && exists t :: t in titles && Normalize(t) == ns[i] {
      assert ns[i] in TitleKeys(titles);
    }
  }
}

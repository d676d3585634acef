/**
 * The listing record of catalog_fetcher.py: `PlatformId`, `tryint`, and
 * `MovieInfo` with its URL and rating resolvers, its equivalence and filter
 * predicates, its IMDb resolution, and the field derivation of
 * `from_finder`.
 */
module Catalog {
  import opened Wrappers
  import opened Normalizer
  import opened PyDict
  import opened Imdb

  const NETFLIX := "netflix"
  const NetflixTitleUrl := "https://www.netflix.com/title/"

  /** One platform's identifier of a listing; compared as the `(platform, value)` pair. */
  datatype PlatformId = PlatformId(platform: string, value: string)

  /** One scraped record: column or JSON key to text. */
  type RawEntry = map<string, string>

  /** `src_to_raw_entry`: source name to raw record, in insertion order. */
  type SrcDict = seq<(string, RawEntry)>

  /** `raw.get(key)` is truthy: present and not the empty string. */
  predicate Truthy(raw: RawEntry, key: string) {
    key in raw && raw[key] != ""
  }

  /* ---------------------------------------------------------------- */
  /* tryint                                                            */
  /* ---------------------------------------------------------------- */

  predicate IsDigit(c: char) {
    '0' <= c <= '9'
  }

  /** The digit part `int()` accepts: digits, with single underscores between digits. */
  predicate WellFormedDigits(s: string) {
    && s != []
    && IsDigit(s[0]) && IsDigit(s[|s| - 1])
    && (forall i :: 0 <= i < |s| ==> IsDigit(s[i]) || s[i] == '_')
    && (forall i :: 0 <= i < |s| - 1 ==> !(s[i] == '_' && s[i + 1] == '_'))
  }

  /** The decimal value of the digits of `s`, underscores skipped. */
  function DigitsValue(s: string): nat {
    if s == [] then 0
    else
      var front := DigitsValue(s[..|s| - 1]);
      var c := s[|s| - 1];
      if IsDigit(c) then front * 10 + (c as int - '0' as int) else front
  }

  /**
   * `int(s)` on a string: surrounding whitespace (only the blanks `int()`
   * skips, narrower than those `str.strip()` removes), an optional sign,
   * then the digits; `None` where it raises.
   */
  function ParseInt(s: string): Option<int> {
    var t := Strip(s, IntWhitespace);
    var signed := t != [] && (t[0] == '-' || t[0] == '+');
    var digits := if signed then t[1..] else t;
    if !WellFormedDigits(digits) then None
    else if signed && t[0] == '-' then Some(-(DigitsValue(digits) as int))
    else Some(DigitsValue(digits))
  }

  /** `tryint`: the parsed integer, or `default` where `int()` raises. */
  function TryInt(inp: string, default: int): int {
    match ParseInt(inp)
    case Some(n) => n
    case None => default
  }

  /** The decimal digits of `n`, without leading zeros. */
  function ShowNat(n: nat): (r: string)
    ensures r != [] && forall i :: 0 <= i < |r| ==> IsDigit(r[i])
  {
    var last := ['0' + (n % 10) as char];
    if n < 10 then last else ShowNat(n / 10) + last
  }

  lemma {:induction false} DigitsValueShowNat(n: nat)
    ensures DigitsValue(ShowNat(n)) == n
  {
    if n >= 10 {
      DigitsValueShowNat(n / 10);
      var s := ShowNat(n);
      assert s[..|s| - 1] == ShowNat(n / 10);
    }
  }

  /** A non-empty string of digits parses to its decimal value, whatever the default. */
  lemma TryIntDigits(s: string, default: int)
    requires s != [] && forall i :: 0 <= i < |s| ==> IsDigit(s[i])
    ensures TryInt(s, default) == DigitsValue(s)
  {
    assert !InClass(s[0], IntWhitespace) && !InClass(s[|s| - 1], IntWhitespace);
    StripIdentity(s, IntWhitespace);
    assert WellFormedDigits(s);
  }

  /** A minus sign before the digits negates their value. */
  lemma TryIntNegDigits(s: string, default: int)
    requires s != [] && forall i :: 0 <= i < |s| ==> IsDigit(s[i])
    ensures TryInt("-" + s, default) == -(DigitsValue(s) as int)
  {
    var m := "-" + s;
    assert !InClass(m[0], IntWhitespace) && m[|m| - 1] == s[|s| - 1] && !InClass(m[|m| - 1], IntWhitespace);
    StripIdentity(m, IntWhitespace);
    assert m[1..] == s;
    assert WellFormedDigits(s);
  }

  /** `tryint` inverts the decimal rendering of a natural number. */
  lemma TryIntShowNat(n: nat, default: int)
    ensures TryInt(ShowNat(n), default) == n
    ensures TryInt("-" + ShowNat(n), default) == -(n as int)
  {
    TryIntDigits(ShowNat(n), default);
    TryIntNegDigits(ShowNat(n), default);
    DigitsValueShowNat(n);
  }

  /** The empty string falls back to the default. */
  lemma TryIntEmpty(default: int)
    ensures TryInt("", default) == default
  {
    assert Strip("", IntWhitespace) == "";
  }

  /** Blanks around the digits are skipped. */
  lemma TryIntBlanks(inp: string)
    requires inp == " 42\n"
    ensures TryInt(inp, -1) == 42
  {
    assert DropWhile(inp, IntWhitespace) == "42\n";
    assert TrimRight("42\n", IntWhitespace) == "42";
    var t := "42";
    assert WellFormedDigits(t);
    assert DigitsValue(t[..1]) == 4 by { assert t[..1][..0] == []; }
    assert t[..2] == t;
  }

  /**
   * The separator characters 28 to 31 count as whitespace for `str.strip()`
   * but not for `int()`: a year column starting with one falls back to the
   * default.
   */
  lemma TryIntSeparator(inp: string)
    requires inp == [28 as char, '5']
    ensures TryInt(inp, -1) == -1
    ensures Strip(inp, Whitespace) == "5"
  {
    assert DropWhile(inp, IntWhitespace) == inp;
    assert TrimRight(inp, IntWhitespace) == inp;
    assert !WellFormedDigits(inp);
    assert DropWhile(inp, Whitespace) == "5";
    assert TrimRight("5", Whitespace) == "5";
  }

  /** A release-year column as the finder pages show it. */
  lemma TryIntYear(year: string)
    requires year == "2018"
    ensures TryInt(year, -1) == 2018
  {
    TryIntDigits(year, -1);
    assert DigitsValue(year[..1]) == 2 by { assert year[..1][..0] == []; }
    assert DigitsValue(year[..2]) == 20 by { assert year[..2][..1] == year[..1]; }
    assert DigitsValue(year[..3]) == 201 by { assert year[..3][..2] == year[..2]; }
    assert year[..4] == year;
  }

  /* ---------------------------------------------------------------- */
  /* get_netflix_url and get_imdb_rating                               */
  /* ---------------------------------------------------------------- */

  /** A Netflix platform id that is a title id, not a `slug...` placeholder. */
  predicate IsNetflixTitle(p: PlatformId) {
    p.platform == NETFLIX && !("slug" <= p.value)
  }

  /** The index of the first Netflix title id among the platforms. */
  function FirstNetflixTitle(ps: seq<PlatformId>): (r: Option<nat>)
    ensures r.None? ==> forall i :: 0 <= i < |ps| ==> !IsNetflixTitle(ps[i])
    ensures r.Some? ==> r.value < |ps| && IsNetflixTitle(ps[r.value])
    ensures r.Some? ==> forall i :: 0 <= i < r.value ==> !IsNetflixTitle(ps[i])
  {
    if ps == [] then None
    else if IsNetflixTitle(ps[0]) then Some(0)
    else
      match FirstNetflixTitle(ps[1..])
      case None => None
      case Some(i) => Some(i + 1)
  }

  /** The index of the first raw record with a non-empty `netflixid`. */
  function FirstNetflixId(src: SrcDict): (r: Option<nat>)
    ensures r.None? ==> forall i :: 0 <= i < |src| ==> !Truthy(src[i].1, "netflixid")
    ensures r.Some? ==> r.value < |src| && Truthy(src[r.value].1, "netflixid")
    ensures r.Some? ==> forall i :: 0 <= i < r.value ==> !Truthy(src[i].1, "netflixid")
  {
    if src == [] then None
    else if Truthy(src[0].1, "netflixid") then Some(0)
    else
      match FirstNetflixId(src[1..])
      case None => None
      case Some(i) => Some(i + 1)
  }

  /**
   * `get_netflix_url` of a listing with these platforms and raw records:
   * the title URL of the first Netflix title id, else of the first
   * non-empty `netflixid`, else `None`.
   */
  function NetflixUrl(platforms: seq<PlatformId>, src: SrcDict): (r: Option<string>)
    ensures r.Some? ==> NetflixTitleUrl <= r.value
    ensures r.None? <==>
      (forall i :: 0 <= i < |platforms| ==> !IsNetflixTitle(platforms[i]))
      && (forall i :: 0 <= i < |src| ==> !Truthy(src[i].1, "netflixid"))
  {
    match FirstNetflixTitle(platforms)
    case Some(i) => Some(NetflixTitleUrl + platforms[i].value)
    case None =>
      match FirstNetflixId(src)
      case Some(i) => Some(NetflixTitleUrl + src[i].1["netflixid"])
      case None => None
  }

  /** A platform id wins over any raw record, and the first one wins. */
  lemma NetflixUrlPrefersPlatform(platforms: seq<PlatformId>, src: SrcDict, i: nat)
    requires i < |platforms| && IsNetflixTitle(platforms[i])
    requires forall j :: 0 <= j < i ==> !IsNetflixTitle(platforms[j])
    ensures NetflixUrl(platforms, src) == Some(NetflixTitleUrl + platforms[i].value)
  {
    var k := FirstNetflixTitle(platforms);
    assert k.Some?;
    assert !(k.value < i);
    assert !(i < k.value);
  }

  /** Without a platform id, the first raw record with a `netflixid` gives the URL. */
  lemma NetflixUrlFallsBack(platforms: seq<PlatformId>, src: SrcDict, i: nat)
    requires forall j :: 0 <= j < |platforms| ==> !IsNetflixTitle(platforms[j])
    requires i < |src| && Truthy(src[i].1, "netflixid")
    requires forall j :: 0 <= j < i ==> !Truthy(src[j].1, "netflixid")
    ensures NetflixUrl(platforms, src) == Some(NetflixTitleUrl + src[i].1["netflixid"])
  {
    var k := FirstNetflixId(src);
    assert k.Some?;
    assert !(k.value < i);
    assert !(i < k.value);
  }

  /** The rating a raw record offers: `imdb`, else `imdb_rating`, the empty string for none. */
  function RatingOf(raw: RawEntry): string {
    if Truthy(raw, "imdb") then raw["imdb"]
    else if "imdb_rating" in raw then raw["imdb_rating"]
    else ""
  }

  /** The index of the first raw record offering a rating. */
  function FirstRated(src: SrcDict): (r: Option<nat>)
    ensures r.None? ==> forall i :: 0 <= i < |src| ==> RatingOf(src[i].1) == ""
    ensures r.Some? ==> r.value < |src| && RatingOf(src[r.value].1) != ""
    ensures r.Some? ==> forall i :: 0 <= i < r.value ==> RatingOf(src[i].1) == ""
  {
    if src == [] then None
    else if RatingOf(src[0].1) != "" then Some(0)
    else
      match FirstRated(src[1..])
      case None => None
      case Some(i) => Some(i + 1)
  }

  /** No raw record before position `i` offers a rating. */
  predicate NoRatingBefore(src: SrcDict, i: nat) {
    forall j :: 0 <= j < i && j < |src| ==> RatingOf(src[j].1) == ""
  }

  /** `get_imdb_rating`: the first rating over the raw records in insertion order, or `n/a`. */
  function ImdbRating(src: SrcDict): (r: string)
    ensures (forall i :: 0 <= i < |src| ==> RatingOf(src[i].1) == "") ==> r == "n/a"
    ensures forall i :: 0 <= i < |src| && RatingOf(src[i].1) != "" && NoRatingBefore(src, i) ==> r == RatingOf(src[i].1)
  {
    match FirstRated(src)
    case Some(i) =>
      assert forall k :: 0 <= k < |src| && RatingOf(src[k].1) != "" ==> i <= k;
      RatingOf(src[i].1)
    case None => "n/a"
  }

  /* ---------------------------------------------------------------- */
  /* MovieInfo                                                         */
  /* ---------------------------------------------------------------- */

  /** The IMDb ids of a set of entries. */
  function ImdbIds(entries: set<ImdbMovieInfo>): set<string> {
    set e | e in entries :: e.imdbId
  }

  /** The years of a set of entries. */
  function EntryYears(entries: set<ImdbMovieInfo>): set<Year> {
    set e | e in entries :: e.year
  }

  /** The languages of a set of entries together. */
  function LanguagesOf(entries: set<ImdbMovieInfo>): set<string>
    reads entries
  {
    set e, l | e in entries && l in e.languages :: l
  }

  /** The regions of a set of entries together. */
  function RegionsOf(entries: set<ImdbMovieInfo>): set<string>
    reads entries
  {
    set e, r | e in entries && r in e.regions :: r
  }

  function PlatformSet(ps: seq<PlatformId>): set<PlatformId> {
    set p | p in ps
  }

  /** An integer year is among the entries' years exactly when one entry carries it. */
  lemma InEntryYears(entries: set<ImdbMovieInfo>, y: Option<int>)
    ensures y.Some? ==> (IntYear(y.value) in EntryYears(entries) <==> exists e :: e in entries && e.year == IntYear(y.value))
  {
  }

  /** Adding one entry adds its languages and regions. */
  lemma LanguagesRegionsAdd(entries: set<ImdbMovieInfo>, e: ImdbMovieInfo)
    ensures LanguagesOf(entries + {e}) == LanguagesOf(entries) + e.languages
    ensures RegionsOf(entries + {e}) == RegionsOf(entries) + e.regions
  {
  }

  /** The languages and regions of a set of entries, gathered one entry at a time. */
  method Gather(found: set<ImdbMovieInfo>) returns (langs: set<string>, regs: set<string>)
    ensures langs == LanguagesOf(found) && regs == RegionsOf(found)
  {
    langs, regs := {}, {};
    var rest, done := found, {};
    while rest != {}
      invariant done + rest == found
      invariant langs == LanguagesOf(done) && regs == RegionsOf(done)
      decreases rest
    {
      var e :| e in rest;
      langs := langs + e.languages;
      regs := regs + e.regions;
      LanguagesRegionsAdd(done, e);
      rest, done := rest - {e}, done + {e};
    }
    assert done == found;
  }

  /**
   * One listing: `MovieInfo`.  Its `release_yr` is declared `int` with
   * default -1, but a listing read from whats-on-netflix.com holds the
   * `titlereleased` text, so the year is a `Year`.
   */
  class MovieInfo {
    const name: string
    const platforms: seq<PlatformId>
    const releaseYr: Year
    var languages: set<string>
    var regions: set<string>
    var imdb: set<ImdbMovieInfo>
    var srcToRawEntry: SrcDict

    constructor (name: string, srcToRawEntry: SrcDict, releaseYr: Year, platforms: seq<PlatformId>)
      ensures this.name == name && this.srcToRawEntry == srcToRawEntry
      ensures this.releaseYr == releaseYr && this.platforms == platforms
      ensures languages == {} && regions == {} && imdb == {}
    {
      this.name := name;
      this.srcToRawEntry := srcToRawEntry;
      this.releaseYr := releaseYr;
      this.platforms := platforms;
      languages := {};
      regions := {};
      imdb := {};
    }

    /** `src_to_raw_entry` is a Python dict: no source appears twice. */
    predicate RecordsAreDict()
      reads this
    {
      UniqueKeys(srcToRawEntry)
    }

    /**
     * `is_equivalent`: listings neither of which is resolved to IMDb are
     * equivalent; otherwise they are when they share a platform id, or
     * when their names normalise alike and their release years agree.
     */
    predicate IsEquivalent(other: MovieInfo)
      reads this, other
    {
      var selfIds, otherIds := ImdbIds(imdb), ImdbIds(other.imdb);
      if selfIds == otherIds && |selfIds| == 0 then true
      else if PlatformSet(other.platforms) * PlatformSet(platforms) != {} then true
      else Normalize(name) == Normalize(other.name) && releaseYr == other.releaseYr
    }

    /**
     * `matches`: `AssertionError` unless a non-empty language filter or a
     * year is given; otherwise the language filter is empty or meets the
     * listing's languages, and the (integer) year is falsy, equals the
     * listing's year, or (the listing's year being the integer -1) is the
     * year of one of its IMDb entries.  Python's `==` between an integer and
     * text is false, and so is `Year` equality between them.
     */
    function Matches(langFilter: Option<set<string>>, yearFilter: Option<int>): (r: Result<bool>)
      reads this
      ensures r.Err? <==> (langFilter.None? || langFilter.value == {}) && yearFilter.None?
      ensures r.Err? ==> r.error == AssertionError
      ensures r.Ok? ==> (r.value <==>
        (langFilter.None? || langFilter.value == {} || exists l :: l in langFilter.value && l in languages)
        && (yearFilter.None? || yearFilter.value == 0 || releaseYr == IntYear(yearFilter.value)
            || (releaseYr == IntYear(-1) && exists e :: e in imdb && e.year == IntYear(yearFilter.value))))
    {
      if !((langFilter.Some? && langFilter.value != {}) || yearFilter.Some?) then Err(AssertionError)
      else
        var langs := if langFilter.Some? then langFilter.value else {};
        var langCheck := langs == {} || langs * languages != {};
        var yearCheck := yearFilter.None? || yearFilter.value == 0 || releaseYr == IntYear(yearFilter.value)
          || (releaseYr == IntYear(-1) && IntYear(yearFilter.value) in EntryYears(imdb));
        assert langCheck <==> langs == {} || exists l :: l in langs && l in languages by {
          if l :| l in langs && l in languages { assert l in langs * languages; }
        }
        InEntryYears(imdb, yearFilter);
        Ok(langCheck && yearCheck)
    }

    /**
     * `update_imdb`: the listing's entries become those the index finds
     * for its name, and their languages and regions are added to the
     * listing's own.
     */
    method UpdateImdb(movieSet: ImdbMovieSet)
      requires movieSet.Valid()
      modifies this
      ensures imdb == old(movieSet.LookupMovie(name))
      ensures languages == old(languages) + LanguagesOf(imdb)
      ensures regions == old(regions) + RegionsOf(imdb)
      ensures srcToRawEntry == old(srcToRawEntry)
    {
      var found := movieSet.LookupMovie(name);
      Resolve(found);
    }

    /** The listing takes `found` as its entries, and their languages and regions as well as its own. */
    method Resolve(found: set<ImdbMovieInfo>)
      modifies this
      ensures imdb == found
      ensures languages == old(languages) + LanguagesOf(found)
      ensures regions == old(regions) + RegionsOf(found)
      ensures srcToRawEntry == old(srcToRawEntry)
    {
      var langs, regs := Gather(found);
      imdb, languages, regions := found, languages + langs, regions + regs;
    }
  }

  /** Two unresolved listings are equivalent whatever their names, years and platforms. */
  lemma EquivalentUnresolved(a: MovieInfo, b: MovieInfo)
    requires a.imdb == {} && b.imdb == {}
    ensures a.IsEquivalent(b)
  {
  }

  /**
   * Once either listing is resolved, equivalence is a shared platform id,
   * or equal normalised names with equal release years.
   */
  lemma EquivalentResolved(a: MovieInfo, b: MovieInfo)
    requires a.imdb != {} || b.imdb != {}
    ensures a.IsEquivalent(b) <==>
      (exists p :: p in a.platforms && p in b.platforms)
      || (Normalize(a.name) == Normalize(b.name) && a.releaseYr == b.releaseYr)
  {
    if a.imdb != {} {
      var e :| e in a.imdb;
      assert e.imdbId in ImdbIds(a.imdb);
    } else {
      var e :| e in b.imdb;
      assert e.imdbId in ImdbIds(b.imdb);
    }
    var shared := PlatformSet(b.platforms) * PlatformSet(a.platforms);
    if exists p :: p in a.platforms && p in b.platforms {
      var p :| p in a.platforms && p in b.platforms;
      assert p in shared;
    }
    if shared != {} {
      var p :| p in shared;
      assert p in a.platforms && p in b.platforms;
    }
  }

  /** `is_equivalent` does not depend on which listing asks. */
  lemma EquivalentSymmetric(a: MovieInfo, b: MovieInfo)
    ensures a.IsEquivalent(b) == b.IsEquivalent(a)
  {
    assert PlatformSet(b.platforms) * PlatformSet(a.platforms) == PlatformSet(a.platforms) * PlatformSet(b.platforms);
  }

  /**
   * Sharing an IMDb entry does not make two listings equivalent: with
   * different platform ids and differently normalised names they are not.
   */
  lemma SharedImdbIdNotEnough(a: MovieInfo, b: MovieInfo, e: ImdbMovieInfo)
    requires e in a.imdb && e in b.imdb
    requires forall p :: p in a.platforms ==> p !in b.platforms
    requires Normalize(a.name) != Normalize(b.name)
    ensures !a.IsEquivalent(b)
  {
    EquivalentResolved(a, b);
  }

  /**
   * Release years compare as Python values: once either listing is
   * resolved, a listing holding its year as text and one holding an integer
   * year, with no platform id in common, are not equivalent even when their
   * names normalise alike and the text spells the integer.
   */
  lemma EquivalentMixedYears(a: MovieInfo, b: MovieInfo)
    requires a.imdb != {} || b.imdb != {}
    requires forall p :: p in a.platforms ==> p !in b.platforms
    requires a.releaseYr.RawYear? && b.releaseYr.IntYear?
    ensures !a.IsEquivalent(b)
  {
    EquivalentResolved(a, b);
  }

  /**
   * With no year given, the year check is absent; with the listing's own
   * year given, it passes; a listing of known year other than the filter
   * fails it.
   */
  lemma MatchesYear(m: MovieInfo, y: int)
    ensures m.releaseYr.IntYear? ==> m.Matches(None, Some(m.releaseYr.n)) == Ok(true)
    ensures y != 0 && m.releaseYr != IntYear(y) && m.releaseYr != IntYear(-1) ==> m.Matches(None, Some(y)) == Ok(false)
    ensures m.Matches(Some({}), None) == Err(AssertionError)
  {
  }

  /* ---------------------------------------------------------------- */
  /* The year compensation of `matches`                                */
  /* ---------------------------------------------------------------- */

  /** The integer a year stands for, if it has one: the text is parsed as `int()` would. */
  function YearValue(y: Year): (r: Option<int>)
    ensures y.IntYear? ==> r == Some(y.n)
  {
    match y
    case IntYear(n) => Some(n)
    case RawYear(text) => ParseInt(text)
  }

  /**
   * `matches` as written compares the integer filter year with the
   * entries' years, which the bulk build stores as text: for a listing of
   * unknown year whose entries came from the bulk build, no year but 0
   * or -1 ever passes.
   */
  lemma MatchesIgnoresTextYears(m: MovieInfo, y: int)
    requires m.releaseYr == IntYear(-1) && y != 0 && y != -1
    requires forall e :: e in m.imdb ==> e.year.RawYear?
    ensures m.Matches(None, Some(y)) == Ok(false)
  {
  }

  /**
   * A listing read from whats-on-netflix.com holds its release year as
   * text: `matches` as written lets no year but 0 through for it.
   */
  lemma MatchesIgnoresTextReleaseYear(m: MovieInfo, y: int)
    requires m.releaseYr.RawYear? && y != 0
    ensures m.Matches(None, Some(y)) == Ok(false)
  {
  }

  /**
   * The year check `matches` evidently intends: the listing's year and the
   * entries' years compared by the integer they spell.
   */
  function MatchesCorrected(m: MovieInfo, langFilter: Option<set<string>>, yearFilter: Option<int>): (r: Result<bool>)
    reads m
    ensures r.Err? <==> (langFilter.None? || langFilter.value == {}) && yearFilter.None?
    ensures r.Ok? ==> (r.value <==>
      (langFilter.None? || langFilter.value == {} || exists l :: l in langFilter.value && l in m.languages)
      && (yearFilter.None? || yearFilter.value == 0 || YearValue(m.releaseYr) == Some(yearFilter.value)
          || (YearValue(m.releaseYr) == Some(-1) && exists e :: e in m.imdb && YearValue(e.year) == Some(yearFilter.value))))
  {
    if !((langFilter.Some? && langFilter.value != {}) || yearFilter.Some?) then Err(AssertionError)
    else
      var langs := if langFilter.Some? then langFilter.value else {};
      var langCheck := langs == {} || langs * m.languages != {};
      var yearCheck := yearFilter.None? || yearFilter.value == 0 || YearValue(m.releaseYr) == Some(yearFilter.value)
        || (YearValue(m.releaseYr) == Some(-1) && Some(yearFilter.value) in (set e | e in m.imdb :: YearValue(e.year)));
      assert langCheck <==> langs == {} || exists l :: l in langs && l in m.languages by {
        if l :| l in langs && l in m.languages { assert l in langs * m.languages; }
      }
      Ok(langCheck && yearCheck)
  }

  /** With the correction, a listing of unknown year matches the year its bulk-built entry carries. */
  lemma MatchesCorrectedFindsTextYear(m: MovieInfo, e: ImdbMovieInfo, y: nat)
    requires m.releaseYr == IntYear(-1) && e in m.imdb && e.year == RawYear(ShowNat(y))
    ensures MatchesCorrected(m, None, Some(y)) == Ok(true)
  {
    TryIntShowNat(y, 0);
    assert YearValue(e.year) == Some(y);
  }

  /** With the correction, a listing whose release year is text matches the year the text spells. */
  lemma MatchesCorrectedFindsTextReleaseYear(m: MovieInfo, y: nat)
    requires m.releaseYr == RawYear(ShowNat(y))
    ensures MatchesCorrected(m, None, Some(y)) == Ok(true)
  {
    TryIntShowNat(y, 0);
    assert YearValue(m.releaseYr) == Some(y);
  }

  /** The correction agrees with `matches` whenever the listing's and the entries' years are integers. */
  lemma MatchesCorrectedAgrees(m: MovieInfo, langFilter: Option<set<string>>, yearFilter: Option<int>)
    requires m.releaseYr.IntYear?
    requires forall e :: e in m.imdb ==> e.year.IntYear?
    ensures MatchesCorrected(m, langFilter, yearFilter) == m.Matches(langFilter, yearFilter)
  {
  }

  /* ---------------------------------------------------------------- */
  /* from_finder                                                       */
  /* ---------------------------------------------------------------- */

  /** `s.split("/")[-1]`: what follows the last slash, or all of `s` when it has none. */
  function LastSegment(s: string): (r: string)
    ensures |r| <= |s| && r == s[|s| - |r|..]
    ensures '/' !in r
    ensures |r| < |s| ==> s[|s| - |r| - 1] == '/'
  {
    if s == [] || s[|s| - 1] == '/' then []
    else LastSegment(s[..|s| - 1]) + [s[|s| - 1]]
  }

  /** The Netflix id `from_finder` takes from a watch link: the last path segment once slashes are stripped. */
  function NetflixIdFromWatchLink(link: string): (r: string)
    ensures '/' !in r
  {
    LastSegment(Strip(link, Slash))
  }

  /** What follows the last slash is the last segment. */
  lemma {:induction false} LastSegmentAfterSlash(prefix: string, id: string)
    requires '/' !in id
    ensures LastSegment(prefix + "/" + id) == id
  {
    var link := prefix + "/" + id;
    if id != [] {
      LastSegmentAfterSlash(prefix, id[..|id| - 1]);
      assert link[..|link| - 1] == prefix + "/" + id[..|id| - 1];
      assert link[|link| - 1] == id[|id| - 1] && id[|id| - 1] in id;
      assert id == id[..|id| - 1] + [id[|id| - 1]];
    }
  }

  /** Whatever precedes it, a slash-free id after the last slash of a link is the id taken. */
  lemma WatchLinkSegment(prefix: string, id: string)
    requires id != [] && '/' !in id
    ensures NetflixIdFromWatchLink(prefix + "/" + id) == id
  {
    var link := prefix + "/" + id;
    var rest := DropWhile(prefix, Slash);
    assert id[0] in id && id[|id| - 1] in id;
    DropWhileAppend(prefix, "/" + id, Slash);
    assert link == prefix + ("/" + id);
    assert ("/" + id)[1..] == id;
    assert DropWhile(id, Slash) == id;
    if rest == [] {
      assert DropWhile(link, Slash) == id;
      assert TrimRight(id, Slash) == id;
    } else {
      var t := rest + "/" + id;
      assert t == rest + ("/" + id);
      assert DropWhile(link, Slash) == t;
      assert t[|t| - 1] == id[|id| - 1];
      assert TrimRight(t, Slash) == t;
      LastSegmentAfterSlash(rest, id);
    }
  }


  /** The example link of a finder row. */
  lemma WatchLinkExample(link: string)
    requires link == "http://www.netflix.com/watch/81087095"
    ensures NetflixIdFromWatchLink(link) == "81087095"
  {
    var prefix, id := "http://www.netflix.com/watch", "81087095";
    assert link == prefix + "/" + id;
    WatchLinkSegment(prefix, id);
  }

  /** The fields `from_finder` builds a listing from. */
  datatype FinderFields = FinderFields(name: string, src: SrcDict, releaseYr: Year, platform: PlatformId)

  /**
   * `from_finder` on a row already turned into a dict: the provider id
   * first (the watch link's id for Netflix, `NA_` and the title
   * otherwise), then the title, then the release year; each missing
   * column raises `KeyError` in that order.
   */
  function FinderListing(provider: string, data: RawEntry): (r: Result<FinderFields>)
    ensures provider == NETFLIX && "watch_link" !in data ==> r == Err(KeyError("watch_link"))
    ensures (provider != NETFLIX || "watch_link" in data) && "Title" !in data ==> r == Err(KeyError("Title"))
    ensures (provider != NETFLIX || "watch_link" in data) && "Title" in data && "Year of release" !in data ==>
      r == Err(KeyError("Year of release"))
    ensures r.Ok? ==> "Title" in data && "Year of release" in data
    ensures r.Ok? ==> r.value.name == data["Title"] && r.value.platform.platform == provider
    ensures r.Ok? ==> r.value.src == [("finder.com:" + provider, data)]
    ensures r.Ok? ==> UniqueKeys(r.value.src)
    ensures r.Ok? ==> r.value.releaseYr == IntYear(TryInt(data["Year of release"], -1))
    ensures r.Ok? && provider == NETFLIX ==> r.value.platform.value == NetflixIdFromWatchLink(data["watch_link"])
    ensures r.Ok? && provider != NETFLIX ==> r.value.platform.value == "NA_" + data["Title"]
  {
    if provider == NETFLIX && "watch_link" !in data then Err(KeyError("watch_link"))
    else if "Title" !in data then Err(KeyError("Title"))
    else if "Year of release" !in data then Err(KeyError("Year of release"))
    else
      var providerId := if provider == NETFLIX then NetflixIdFromWatchLink(data["watch_link"]) else "NA_" + data["Title"];
      Ok(FinderFields(data["Title"], [("finder.com:" + provider, data)],
                      IntYear(TryInt(data["Year of release"], -1)), PlatformId(provider, providerId)))
  }

  /** `from_finder`: the listing built from those fields, or the `KeyError` raised on the way. */
  method FromFinder(provider: string, data: RawEntry) returns (r: Result<MovieInfo>)
    ensures r.Err? <==> FinderListing(provider, data).Err?
    ensures r.Err? ==> r.error == FinderListing(provider, data).error
    ensures r.Ok? ==> fresh(r.value)
    ensures r.Ok? ==> r.value.RecordsAreDict()
    ensures r.Ok? ==>
      var f := FinderListing(provider, data).value;
      && r.value.name == f.name && r.value.srcToRawEntry == f.src
      && r.value.releaseYr == f.releaseYr && r.value.platforms == [f.platform]
      && r.value.languages == {} && r.value.regions == {} && r.value.imdb == {}
  {
    match FinderListing(provider, data)
    case Err(e) =>
      r := Err(e);
    case Ok(f) =>
      var m := new MovieInfo(f.name, f.src, f.releaseYr, [f.platform]);
      r := Ok(m);
  }
}

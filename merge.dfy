/**
 * `merge_netflix`: listings of two Netflix sources merged by their title
 * URL.  The first list is indexed by URL (a later listing replacing an
 * earlier one under the same URL); each listing of the second list is then
 * added under its URL, or, when the URL is already taken, its raw records
 * are merged into the listing already there.  A listing of the second list
 * without a URL fails an assertion.
 *
 * The merge mutates listings, so it is specified over a store of raw
 * records by listing (`SrcStore`) and a fold of steps over the second list.
 */
module Merge {
  import opened Wrappers
  import opened PyDict
  import opened Catalog

  /** The raw records of the listings during a merge; a listing outside the map has none. */
  type SrcStore = map<MovieInfo, SrcDict>

  function SrcOf(store: SrcStore, m: MovieInfo): SrcDict {
    if m in store then store[m] else []
  }

  /** `m.get_netflix_url()` when `m`'s raw records are those of the store. */
  function UrlOf(store: SrcStore, m: MovieInfo): Option<string> {
    NetflixUrl(m.platforms, SrcOf(store, m))
  }

  /** The raw records the listings hold now. */
  ghost function Store(ms: seq<MovieInfo>): SrcStore
    reads set m | m in ms
  {
    map m | m in ms :: m.srcToRawEntry
  }

  /** The URLs of those listings that have one. */
  function Urls(ms: seq<MovieInfo>, store: SrcStore): set<string> {
    set m | m in ms && UrlOf(store, m).Some? :: UrlOf(store, m).value
  }

  /** The dict comprehension over the first list: URL to listing, the last listing under a URL winning. */
  function InitialByUrl(movies1: seq<MovieInfo>, store: SrcStore): seq<(string, MovieInfo)> {
    if movies1 == [] then []
    else
      var d := InitialByUrl(movies1[..|movies1| - 1], store);
      var m := movies1[|movies1| - 1];
      match UrlOf(store, m)
      case None => d
      case Some(u) => Put(d, u, m)
  }

  /** The merge after some listings of the second list: the dict, the raw records, and whether the assertion failed. */
  datatype MergeState = MergeState(byUrl: seq<(string, MovieInfo)>, store: SrcStore, failed: bool)

  /** One iteration of the loop over the second list. */
  function MergeStep(st: MergeState, m: MovieInfo): MergeState {
    if st.failed then st
    else
      match UrlOf(st.store, m)
      case None => st.(failed := true)
      case Some(u) =>
        match Get(st.byUrl, u)
        case None => st.(byUrl := Put(st.byUrl, u, m))
        case Some(existing) =>
          st.(store := st.store[existing := Update(SrcOf(st.store, existing), SrcOf(st.store, m))])
  }

  function MergeFold(st: MergeState, ms: seq<MovieInfo>): MergeState {
    if ms == [] then st
    else MergeStep(MergeFold(st, ms[..|ms| - 1]), ms[|ms| - 1])
  }

  function InitialState(movies1: seq<MovieInfo>, store: SrcStore): MergeState {
    MergeState(InitialByUrl(movies1, store), store, false)
  }

  /** The whole merge, from the raw records the listings hold at the start. */
  function MergeSpec(movies1: seq<MovieInfo>, movies2: seq<MovieInfo>, store: SrcStore): MergeState {
    MergeFold(InitialState(movies1, store), movies2)
  }

  /* ---------------------------------------------------------------- */
  /* The first list                                                    */
  /* ---------------------------------------------------------------- */

  /**
   * Indexing the first list keeps one listing per URL, keys it by exactly
   * the URLs the list has, and takes every listing from the list.
   */
  lemma {:induction false} InitialShape(movies1: seq<MovieInfo>, store: SrcStore)
    ensures UniqueKeys(InitialByUrl(movies1, store))
    ensures Keys(InitialByUrl(movies1, store)) == Urls(movies1, store)
    ensures forall k :: 0 <= k < |InitialByUrl(movies1, store)| ==> InitialByUrl(movies1, store)[k].1 in movies1
  {
    if movies1 != [] {
      var front := movies1[..|movies1| - 1];
      var m := movies1[|movies1| - 1];
      var d := InitialByUrl(front, store);
      InitialShape(front, store);
      assert movies1 == front + [m];
      assert Urls(movies1, store) == Urls(front, store) + (if UrlOf(store, m).Some? then {UrlOf(store, m).value} else {});
      match UrlOf(store, m)
      case None =>
      case Some(u) =>
        PutShape(d, u, m);
        PutUnique(d, u, m);
        PutPairs(d, u, m);
    }
  }

  /** Under a URL, the first list's index holds the last listing of the list with that URL. */
  lemma {:induction false} InitialLastWins(movies1: seq<MovieInfo>, store: SrcStore, i: nat)
    requires i < |movies1| && UrlOf(store, movies1[i]).Some?
    requires forall j :: i < j < |movies1| ==> UrlOf(store, movies1[j]) != UrlOf(store, movies1[i])
    ensures Get(InitialByUrl(movies1, store), UrlOf(store, movies1[i]).value) == Some(movies1[i])
  {
    var front := movies1[..|movies1| - 1];
    var m := movies1[|movies1| - 1];
    var u := UrlOf(store, movies1[i]).value;
    var d := InitialByUrl(front, store);
    if i == |movies1| - 1 {
      PutGet(d, u, m, u);
    } else {
      InitialLastWins(front, store, i);
      match UrlOf(store, m)
      case None =>
      case Some(u') =>
        PutGet(d, u', m, u);
    }
  }

  /* ---------------------------------------------------------------- */
  /* One step                                                          */
  /* ---------------------------------------------------------------- */

  /** A listing whose URL is not yet taken is appended under it; nothing else changes. */
  lemma MergeStepUnseen(st: MergeState, m: MovieInfo)
    requires !st.failed && UrlOf(st.store, m).Some?
    requires UrlOf(st.store, m).value !in Keys(st.byUrl)
    ensures MergeStep(st, m) == st.(byUrl := st.byUrl + [(UrlOf(st.store, m).value, m)])
  {
    PutShape(st.byUrl, UrlOf(st.store, m).value, m);
  }

  /**
   * A listing whose URL is taken leaves the dict alone and merges its raw
   * records into the listing already there: that listing's sources are
   * those of both, a source of the newcomer taking the newcomer's record;
   * the sources already there keep their places and the newcomer's other
   * sources follow in its order, which is the order `get_imdb_rating` and
   * `get_netflix_url` scan; every other listing keeps its records.
   */
  lemma MergeStepSeen(st: MergeState, m: MovieInfo, e: MovieInfo)
    requires !st.failed && UrlOf(st.store, m).Some?
    requires Get(st.byUrl, UrlOf(st.store, m).value) == Some(e)
    requires UniqueKeys(SrcOf(st.store, e)) && UniqueKeys(SrcOf(st.store, m))
    ensures MergeStep(st, m).byUrl == st.byUrl && !MergeStep(st, m).failed
    ensures forall o :: o != e ==> SrcOf(MergeStep(st, m).store, o) == SrcOf(st.store, o)
    ensures UniqueKeys(SrcOf(MergeStep(st, m).store, e))
    ensures Keys(SrcOf(MergeStep(st, m).store, e)) == Keys(SrcOf(st.store, e)) + Keys(SrcOf(st.store, m))
    ensures Overrides(SrcOf(MergeStep(st, m).store, e), SrcOf(st.store, e), SrcOf(st.store, m))
    ensures KeyOrder(SrcOf(MergeStep(st, m).store, e), SrcOf(st.store, e), SrcOf(st.store, m))
  {
    UpdateSemantics(SrcOf(st.store, e), SrcOf(st.store, m));
  }

  /** Once the assertion has failed, later listings change nothing. */
  lemma {:induction false} MergeFoldFailed(st: MergeState, ms: seq<MovieInfo>, n: nat)
    requires n <= |ms| && MergeFold(st, ms[..n]).failed
    ensures MergeFold(st, ms) == MergeFold(st, ms[..n])
    decreases |ms| - n
  {
    if n < |ms| {
      assert ms[..n + 1][..n] == ms[..n];
      MergeFoldFailed(st, ms, n + 1);
    } else {
      assert ms[..n] == ms;
    }
  }

  /* ---------------------------------------------------------------- */
  /* The whole merge                                                   */
  /* ---------------------------------------------------------------- */

  /** No listing of the second list is also in the first, or twice in the second. */
  predicate Separate(movies1: seq<MovieInfo>, movies2: seq<MovieInfo>) {
    forall j :: 0 <= j < |movies2| ==> movies2[j] !in movies1 && movies2[j] !in movies2[..j]
  }

  /**
   * What holds after the listings `done` of the second list: the dict keeps
   * one listing per URL, every one taken from the lists; the listings not
   * yet met keep their records; the assertion has failed exactly when a
   * listing met had no URL; otherwise the keys are the URLs of all
   * listings met.
   */
  ghost predicate Facts(movies1: seq<MovieInfo>, done: seq<MovieInfo>, store0: SrcStore, st: MergeState) {
    && UniqueKeys(st.byUrl)
    && (forall k :: 0 <= k < |st.byUrl| ==> st.byUrl[k].1 in movies1 || st.byUrl[k].1 in done)
    && Untouched(movies1, done, store0, st.store)
    && (st.failed <==> SomeWithoutUrl(done, store0))
    && (!st.failed ==> Keys(st.byUrl) == Urls(movies1, store0) + Urls(done, store0))
  }

  /** Some listing has no URL. */
  predicate SomeWithoutUrl(ms: seq<MovieInfo>, store: SrcStore) {
    exists m :: m in ms && UrlOf(store, m).None?
  }

  lemma SomeWithoutUrlAppend(ms: seq<MovieInfo>, m: MovieInfo, store: SrcStore)
    ensures SomeWithoutUrl(ms + [m], store) <==> SomeWithoutUrl(ms, store) || UrlOf(store, m).None?
  {
    if SomeWithoutUrl(ms, store) {
      var w :| w in ms && UrlOf(store, w).None?;
      assert w in ms + [m];
    }
    if UrlOf(store, m).None? {
      assert m in ms + [m];
    }
  }

  /** The listings outside both lists so far keep their starting records. */
  ghost predicate Untouched(movies1: seq<MovieInfo>, done: seq<MovieInfo>, store0: SrcStore, store: SrcStore) {
    forall o :: o in store.Keys + store0.Keys && o !in movies1 && o !in done ==> SrcOf(store, o) == SrcOf(store0, o)
  }

  /** Changing the records of a listing already met leaves the others untouched. */
  lemma UntouchedUpdate(movies1: seq<MovieInfo>, done: seq<MovieInfo>, m: MovieInfo, store0: SrcStore,
                        store: SrcStore, e: MovieInfo, src: SrcDict)
    requires Untouched(movies1, done, store0, store)
    requires e in movies1 || e in done
    ensures Untouched(movies1, done + [m], store0, store[e := src])
  {
    forall o | o in store[e := src].Keys + store0.Keys && o !in movies1 && o !in done + [m]
      ensures SrcOf(store[e := src], o) == SrcOf(store0, o)
    {
      assert o != e && o !in done;
      assert SrcOf(store[e := src], o) == SrcOf(store, o);
    }
  }

  /** Meeting one more listing keeps the records untouched. */
  lemma UntouchedGrow(movies1: seq<MovieInfo>, done: seq<MovieInfo>, m: MovieInfo, store0: SrcStore, store: SrcStore)
    requires Untouched(movies1, done, store0, store)
    ensures Untouched(movies1, done + [m], store0, store)
  {
    assert forall o :: o !in done + [m] ==> o !in done;
  }

  lemma InitialFacts(movies1: seq<MovieInfo>, store0: SrcStore)
    ensures Facts(movies1, [], store0, InitialState(movies1, store0))
  {
    InitialShape(movies1, store0);
    assert Urls([], store0) == {};
  }

  /** The URL of one listing, as a set. */
  function UrlSet(store: SrcStore, m: MovieInfo): set<string> {
    if UrlOf(store, m).Some? then {UrlOf(store, m).value} else {}
  }

  lemma UrlsAppend(done: seq<MovieInfo>, m: MovieInfo, store: SrcStore)
    ensures Urls(done + [m], store) == Urls(done, store) + UrlSet(store, m)
    ensures forall o :: o in done + [m] <==> o in done || o == m
  {
  }

  /** Steps after the assertion failed, or at a listing without a URL, keep the facts. */
  lemma StepFactsFailing(movies1: seq<MovieInfo>, done: seq<MovieInfo>, m: MovieInfo, store0: SrcStore, st: MergeState)
    requires Facts(movies1, done, store0, st)
    requires m !in movies1 && m !in done
    requires st.failed || UrlOf(store0, m).None?
    ensures Facts(movies1, done + [m], store0, MergeStep(st, m))
  {
    UrlsAppend(done, m, store0);
    UntouchedGrow(movies1, done, m, store0, st.store);
    SomeWithoutUrlAppend(done, m, store0);
    if !st.failed {
      assert SrcOf(st.store, m) == SrcOf(store0, m);
    }
  }

  /** A step that appends a listing under a new URL keeps the facts. */
  lemma StepFactsUnseen(movies1: seq<MovieInfo>, done: seq<MovieInfo>, m: MovieInfo, store0: SrcStore, st: MergeState)
    requires Facts(movies1, done, store0, st)
    requires m !in movies1 && m !in done
    requires !st.failed && UrlOf(store0, m).Some?
    requires Get(st.byUrl, UrlOf(store0, m).value).None?
    ensures Facts(movies1, done + [m], store0, MergeStep(st, m))
  {
    UrlsAppend(done, m, store0);
    assert SrcOf(st.store, m) == SrcOf(store0, m);
    var u := UrlOf(store0, m).value;
    UntouchedGrow(movies1, done, m, store0, st.store);
    SomeWithoutUrlAppend(done, m, store0);
    PutShape(st.byUrl, u, m);
    PutUnique(st.byUrl, u, m);
    PutPairs(st.byUrl, u, m);
  }

  /** A step that merges records into the listing already under the URL keeps the facts. */
  lemma StepFactsSeen(movies1: seq<MovieInfo>, done: seq<MovieInfo>, m: MovieInfo, store0: SrcStore, st: MergeState)
    requires Facts(movies1, done, store0, st)
    requires m !in movies1 && m !in done
    requires !st.failed && UrlOf(store0, m).Some?
    requires Get(st.byUrl, UrlOf(store0, m).value).Some?
    ensures Facts(movies1, done + [m], store0, MergeStep(st, m))
  {
    UrlsAppend(done, m, store0);
    assert SrcOf(st.store, m) == SrcOf(store0, m);
    var u := UrlOf(store0, m).value;
    var e := Get(st.byUrl, u).value;
    var k :| 0 <= k < |st.byUrl| && st.byUrl[k] == (u, e);
    assert e in movies1 || e in done;
    assert u in Keys(st.byUrl);
    var done', st' := done + [m], MergeStep(st, m);
    assert st' == st.(store := st.store[e := Update(SrcOf(st.store, e), SrcOf(st.store, m))]);
    UntouchedUpdate(movies1, done, m, store0, st.store, e, Update(SrcOf(st.store, e), SrcOf(st.store, m)));
    assert UrlSet(store0, m) == {u};
    assert u in Urls(movies1, store0) + Urls(done, store0);
    SomeWithoutUrlAppend(done, m, store0);
  }

  lemma StepFacts(movies1: seq<MovieInfo>, done: seq<MovieInfo>, m: MovieInfo, store0: SrcStore, st: MergeState)
    requires Facts(movies1, done, store0, st)
    requires m !in movies1 && m !in done
    ensures Facts(movies1, done + [m], store0, MergeStep(st, m))
  {
    if st.failed || UrlOf(store0, m).None? {
      StepFactsFailing(movies1, done, m, store0, st);
    } else if Get(st.byUrl, UrlOf(store0, m).value).None? {
      StepFactsUnseen(movies1, done, m, store0, st);
    } else {
      StepFactsSeen(movies1, done, m, store0, st);
    }
  }

  lemma {:induction false} FoldFacts(movies1: seq<MovieInfo>, movies2: seq<MovieInfo>, store0: SrcStore, n: nat)
    requires Separate(movies1, movies2) && n <= |movies2|
    ensures Facts(movies1, movies2[..n], store0, MergeFold(InitialState(movies1, store0), movies2[..n]))
  {
    if n == 0 {
      InitialFacts(movies1, store0);
    } else {
      FoldFacts(movies1, movies2, store0, n - 1);
      var ms := movies2[..n];
      assert ms[..n - 1] == movies2[..n - 1];
      assert ms == movies2[..n - 1] + [movies2[n - 1]];
      StepFacts(movies1, movies2[..n - 1], movies2[n - 1], store0, MergeFold(InitialState(movies1, store0), movies2[..n - 1]));
    }
  }

  /**
   * When no listing is in both lists or twice in the second, the merge
   * fails exactly when a listing of the second list has no URL; otherwise
   * it keeps one listing per URL, every one from the lists, under exactly
   * the URLs of both lists.
   */
  lemma MergeOutcome(movies1: seq<MovieInfo>, movies2: seq<MovieInfo>, store0: SrcStore)
    requires Separate(movies1, movies2)
    ensures MergeSpec(movies1, movies2, store0).failed <==> SomeWithoutUrl(movies2, store0)
    ensures UniqueKeys(MergeSpec(movies1, movies2, store0).byUrl)
    ensures forall k :: 0 <= k < |MergeSpec(movies1, movies2, store0).byUrl| ==>
      MergeSpec(movies1, movies2, store0).byUrl[k].1 in movies1 + movies2
    ensures !MergeSpec(movies1, movies2, store0).failed ==>
      Keys(MergeSpec(movies1, movies2, store0).byUrl) == Urls(movies1, store0) + Urls(movies2, store0)
  {
    FoldFacts(movies1, movies2, store0, |movies2|);
    assert movies2[..|movies2|] == movies2;
  }

  /** Every listing's raw records in the store form a dict. */
  predicate StoreIsDict(store: SrcStore) {
    forall m :: m in store ==> UniqueKeys(store[m])
  }

  /** The merge keeps every listing's raw records a dict: `update` of two dicts is a dict. */
  lemma {:induction false} MergeFoldKeepsDicts(st: MergeState, ms: seq<MovieInfo>)
    requires StoreIsDict(st.store)
    ensures StoreIsDict(MergeFold(st, ms).store)
  {
    if ms != [] {
      var st' := MergeFold(st, ms[..|ms| - 1]);
      var m := ms[|ms| - 1];
      MergeFoldKeepsDicts(st, ms[..|ms| - 1]);
      if !st'.failed && UrlOf(st'.store, m).Some? {
        match Get(st'.byUrl, UrlOf(st'.store, m).value)
        case None =>
        case Some(existing) =>
          UpdateSemantics(SrcOf(st'.store, existing), SrcOf(st'.store, m));
      }
    }
  }

  /** The raw records of every listing form a dict. */
  predicate AllDicts(ms: seq<MovieInfo>)
    reads set m | m in ms
  {
    forall m :: m in ms ==> m.RecordsAreDict()
  }

  /** Listings whose records are dicts give a store of dicts. */
  lemma DictsStored(ms: seq<MovieInfo>)
    ensures AllDicts(ms) ==> StoreIsDict(Store(ms))
  {
  }

  /** Listings holding the records of the merged store keep records that are dicts. */
  lemma DictsKept(movies1: seq<MovieInfo>, movies2: seq<MovieInfo>, store0: SrcStore)
    requires Holds(movies1 + movies2, MergeSpec(movies1, movies2, store0).store)
    ensures StoreIsDict(store0) ==> AllDicts(movies1 + movies2)
  {
    if StoreIsDict(store0) {
      MergeFoldKeepsDicts(InitialState(movies1, store0), movies2);
    }
  }

  /* ---------------------------------------------------------------- */
  /* The method                                                        */
  /* ---------------------------------------------------------------- */

  /** The comprehension over the first list, listing by listing. */
  method IndexByUrl(movies1: seq<MovieInfo>, ghost store: SrcStore) returns (byUrl: seq<(string, MovieInfo)>)
    requires forall m :: m in movies1 ==> m.srcToRawEntry == SrcOf(store, m)
    ensures byUrl == InitialByUrl(movies1, store)
  {
    byUrl := [];
    for i := 0 to |movies1|
      invariant byUrl == InitialByUrl(movies1[..i], store)
    {
      var m := movies1[i];
      var url := NetflixUrl(m.platforms, m.srcToRawEntry);
      assert movies1[..i + 1][..i] == movies1[..i];
      if url.Some? {
        byUrl := Put(byUrl, url.value, m);
      }
    }
    assert movies1[..|movies1|] == movies1;
  }

  /** Every listing in the dict is one of `ms`. */
  ghost predicate FromLists(byUrl: seq<(string, MovieInfo)>, ms: seq<MovieInfo>) {
    forall k :: 0 <= k < |byUrl| ==> byUrl[k].1 in ms
  }

  /** The listings hold the records the store gives them. */
  ghost predicate Holds(ms: seq<MovieInfo>, store: SrcStore)
    reads set m | m in ms
  {
    forall m :: m in ms ==> m.srcToRawEntry == SrcOf(store, m)
  }

  /**
   * The loop body for a listing with a URL: it is added under the URL, or
   * its raw records are merged into the listing already there.
   */
  method AddListing(ghost ms: seq<MovieInfo>, m: MovieInfo, url: string, byUrl: seq<(string, MovieInfo)>, ghost st: MergeState)
    returns (byUrl': seq<(string, MovieInfo)>, ghost st': MergeState)
    requires m in ms && !st.failed && byUrl == st.byUrl
    requires FromLists(byUrl, ms) && Holds(ms, st.store)
    requires UrlOf(st.store, m) == Some(url)
    modifies (set o | o in ms)`srcToRawEntry
    ensures st' == MergeStep(st, m) && !st'.failed && byUrl' == st'.byUrl
    ensures FromLists(byUrl', ms) && Holds(ms, st'.store)
  {
    var existing := Get(byUrl, url);
    if existing.None? {
      PutPairs(byUrl, url, m);
      byUrl' := Put(byUrl, url, m);
    } else {
      var e := existing.value;
      ghost var k :| 0 <= k < |byUrl| && byUrl[k] == (url, e);
      assert e in ms;
      e.srcToRawEntry := Update(e.srcToRawEntry, m.srcToRawEntry);
      byUrl' := byUrl;
    }
    st' := MergeStep(st, m);
  }

  /**
   * `merge_netflix`: the merged listings in the dict's order, or the
   * `AssertionError` of a second-list listing without a URL; the raw records
   * of every listing are those the merge specification gives, and nothing
   * else about the listings changes.
   */
  method MergeNetflix(movies1: seq<MovieInfo>, movies2: seq<MovieInfo>) returns (r: Result<seq<MovieInfo>>)
    modifies (set m | m in movies1 + movies2)`srcToRawEntry
    ensures r.Ok? <==> !MergeSpec(movies1, movies2, old(Store(movies1 + movies2))).failed
    ensures r.Ok? ==> r.value == Values(MergeSpec(movies1, movies2, old(Store(movies1 + movies2))).byUrl)
    ensures r.Err? ==> r.error == AssertionError
    ensures Holds(movies1 + movies2, MergeSpec(movies1, movies2, old(Store(movies1 + movies2))).store)
    ensures old(AllDicts(movies1 + movies2)) ==> AllDicts(movies1 + movies2)
  {
    ghost var ms := movies1 + movies2;
    ghost var store0 := Store(ms);
    DictsStored(ms);
    var byUrl := IndexByUrl(movies1, store0);
    InitialShape(movies1, store0);
    ghost var st := InitialState(movies1, store0);
    for i := 0 to |movies2|
      invariant st == MergeFold(InitialState(movies1, store0), movies2[..i])
      invariant !st.failed && byUrl == st.byUrl
      invariant FromLists(byUrl, ms) && Holds(ms, st.store)
    {
      var m := movies2[i];
      assert movies2[..i + 1][..i] == movies2[..i];
      assert m in ms;
      var nurl := NetflixUrl(m.platforms, m.srcToRawEntry);
      if nurl.None? {
        st := MergeStep(st, m);
        MergeFoldFailed(InitialState(movies1, store0), movies2, i + 1);
        DictsKept(movies1, movies2, store0);
        return Err(AssertionError);
      }
      byUrl, st := AddListing(ms, m, nurl.value, byUrl, st);
    }
    assert movies2[..|movies2|] == movies2;
    DictsKept(movies1, movies2, store0);
    r := Ok(Values(byUrl));
  }
}

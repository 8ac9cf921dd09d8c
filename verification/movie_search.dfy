/** `MovieController`'s filtering queries: the title search, the season
    filter and the multi-criteria advanced search. Each filters with
    `toLower(x) CONTAINS toLower($q)`, takes a bounded number of rows and
    groups them on the returned record. */
module MovieSearch {
  import opened Wrappers
  import opened Seqs
  import opened Text
  import opened Sorting
  import opened Graph
  import opened MovieQueries

  /** The names among `names` that contain `q` case-insensitively, one per
      occurrence, in order. */
  function Hits(names: seq<string>, q: string): (r: seq<string>)
    ensures |r| <= |names|
    ensures forall n :: n in r <==> n in names && ContainsCI(n, q)
    decreases |names|
  {
    if |names| == 0 then []
    else
      var init := names[..|names| - 1];
      var last := names[|names| - 1];
      var rest := Hits(init, q);
      assert names == init + [last];
      assert forall n :: n in names <==> n in init || n == last;
      if ContainsCI(last, q) then rest + [last] else rest
  }

  /** The indices of the edges that give movie `mid` a category-`c` name
      containing `q` whatever the case. */
  ghost function MatchingEdges(es: seq<CatalogEdge>, mid: MovieId, c: Category, q: string): set<int> {
    set i | 0 <= i < |es| && NameOn(es[i], mid, c).Some? && ContainsCI(NameOn(es[i], mid, c).value, q)
  }

  lemma MatchingEdgesSnoc(es: seq<CatalogEdge>, mid: MovieId, c: Category, q: string)
    requires |es| > 0
    ensures MatchingEdges(es, mid, c, q) ==
      MatchingEdges(es[..|es| - 1], mid, c, q)
      + (if NameOn(es[|es| - 1], mid, c).Some? && ContainsCI(NameOn(es[|es| - 1], mid, c).value, q)
         then {|es| - 1} else {})
    ensures |es| - 1 !in MatchingEdges(es[..|es| - 1], mid, c, q)
  {
    var init := es[..|es| - 1];
    assert forall i :: 0 <= i < |init| ==> init[i] == es[i];
  }

  /** Filtering a movie's names by `q` keeps one name per edge whose name
      contains `q`: the filter counts edges, not distinct names. */
  lemma {:induction false} HitsCount(es: seq<CatalogEdge>, mid: MovieId, c: Category, q: string)
    ensures |Hits(Names(es, mid, c), q)| == |MatchingEdges(es, mid, c, q)|
    decreases |es|
  {
    if |es| == 0 {
      assert MatchingEdges(es, mid, c, q) == {};
    } else {
      var init := es[..|es| - 1];
      HitsCount(init, mid, c, q);
      MatchingEdgesSnoc(es, mid, c, q);
      var names := Names(init, mid, c);
      match NameOn(es[|es| - 1], mid, c)
      case None =>
        assert Names(es, mid, c) == names;
      case Some(n) =>
        assert Names(es, mid, c) == names + [n];
        assert (names + [n])[..|names + [n]| - 1] == names;
    }
  }

  /** Listing records of movies, in order. */
  function MovieListings(g: Graph, ms: seq<Movie>): (vs: seq<MovieView>)
    ensures |vs| == |ms|
    ensures forall i :: 0 <= i < |ms| ==> vs[i] == Listing(g, ms[i], None)
  {
    seq(|ms|, i requires 0 <= i < |ms| => Listing(g, ms[i], None))
  }

  lemma MovieListingsShow(g: Graph, ms: seq<Movie>)
    ensures forall i :: 0 <= i < |ms| ==> MovieListings(g, ms)[i].movie == ms[i]
    ensures forall m :: Lists(MovieListings(g, ms), m) <==> m in ms
  {
    var vs := MovieListings(g, ms);
    forall i | 0 <= i < |ms| ensures vs[i].movie == ms[i] {
      assert vs[i] == Listing(g, ms[i], None);
    }
    forall m | m in ms ensures Lists(vs, m) {
      var i :| 0 <= i < |ms| && ms[i] == m;
      assert vs[i].movie == m;
    }
  }

  // ---------------------------------------------------------------------
  // search_movies

  /** `MATCH (m:Movie) WHERE toLower(m.title) CONTAINS toLower($keyword)`,
      in catalog order. */
  function TitleMatches(ms: seq<Movie>, kw: string): (r: seq<Movie>)
    ensures |r| <= |ms|
    ensures forall m :: m in r <==> m in ms && ContainsCI(m.title, kw)
    decreases |ms|
  {
    if |ms| == 0 then []
    else
      var rest := TitleMatches(ms[1..], kw);
      assert forall m :: m in ms <==> m == ms[0] || m in ms[1..];
      if ContainsCI(ms[0].title, kw) then [ms[0]] + rest else rest
  }

  /** The first twenty distinct title matches are matching catalog movies,
      none twice, and fewer than twenty only when all of them are taken. */
  lemma {:induction false} SearchSelection(g: Graph, kw: string, sel: seq<Movie>)
    requires sel == Take(Dedup(TitleMatches(g.movies, kw)), SearchLimit)
    ensures forall i :: 0 <= i < |sel| ==> sel[i] in g.movies && ContainsCI(sel[i].title, kw)
    ensures forall i, j :: 0 <= i < j < |sel| ==> sel[i] != sel[j]
    ensures |sel| < SearchLimit ==> forall m :: m in g.movies && ContainsCI(m.title, kw) ==> m in sel
  {
    var found := Dedup(TitleMatches(g.movies, kw));
    assert forall i :: 0 <= i < |sel| ==> sel[i] == found[i];
    assert forall i :: 0 <= i < |sel| ==> sel[i] in found;
    if |sel| < SearchLimit {
      assert sel == found;
    }
  }

  /** `search_movies(keyword)`: at most twenty movies of the catalog, none
      twice, each with the keyword in its title whatever the case; fewer
      than twenty only when every such movie is listed. */
  function SearchMovies(g: Graph, kw: string): (r: seq<MovieView>)
    ensures |r| <= SearchLimit
    ensures forall i :: 0 <= i < |r| ==>
      && r[i].movie in g.movies
      && ContainsCI(r[i].movie.title, kw)
      && r[i] == Listing(g, r[i].movie, None)
    ensures forall i, j :: 0 <= i < j < |r| ==> r[i].movie != r[j].movie
    ensures |r| < SearchLimit ==>
      forall m :: m in g.movies && ContainsCI(m.title, kw) ==> Lists(r, m)
  {
    var sel := Take(Dedup(TitleMatches(g.movies, kw)), SearchLimit);
    SearchSelection(g, kw, sel);
    MovieListingsShow(g, sel);
    MovieListings(g, sel)
  }

  lemma {:induction false} TitleMatchesIgnoreKeywordCase(ms: seq<Movie>, kw: string)
    ensures TitleMatches(ms, kw) == TitleMatches(ms, Lower(kw))
    decreases |ms|
  {
    if |ms| > 0 {
      LowerIdempotent(kw);
      TitleMatchesIgnoreKeywordCase(ms[1..], kw);
    }
  }

  /** The keyword's case does not matter: searching with it lower-cased
      gives the same records. */
  lemma SearchIgnoresKeywordCase(g: Graph, kw: string)
    ensures SearchMovies(g, kw) == SearchMovies(g, Lower(kw))
  {
    TitleMatchesIgnoreKeywordCase(g.movies, kw);
  }

  lemma {:induction false} EmptyKeywordKeepsAll(ms: seq<Movie>)
    ensures TitleMatches(ms, "") == ms
    decreases |ms|
  {
    if |ms| > 0 {
      EmptyKeywordMatches(ms[0].title);
      EmptyKeywordKeepsAll(ms[1..]);
    }
  }

  /** The empty keyword (the route's default) matches every title: the
      first twenty distinct movies of the catalog are listed. */
  lemma EmptyKeywordListsCatalog(g: Graph)
    ensures SearchMovies(g, "") == MovieListings(g, Take(Dedup(g.movies), SearchLimit))
  {
    EmptyKeywordKeepsAll(g.movies);
  }

  // ---------------------------------------------------------------------
  // get_movies_by_season

  /** One row of `MATCH (m:Movie)-[:APPROPIATE_FOR_SEASON]->(s)`: the movie
      and the season's displayed name. */
  datatype SeasonRow = SeasonRow(movie: Movie, season: string)

  /** Movie `m` has a season edge whose displayed name `n` contains `q`
      whatever the case. */
  predicate SeasonMatch(es: seq<CatalogEdge>, m: Movie, n: string, q: string) {
    n in Names(es, m.id, Season) && ContainsCI(n, q)
  }

  function SeasonRowsFor(m: Movie, hits: seq<string>): (rows: seq<Keyed<SeasonRow>>)
    ensures |rows| == |hits|
    ensures forall x :: x in rows <==> x == Keyed(YearKey(m), SeasonRow(m, x.item.season)) && x.item.season in hits
  {
    var rows := seq(|hits|, i requires 0 <= i < |hits| => Keyed(YearKey(m), SeasonRow(m, hits[i])));
    assert forall x: Keyed<SeasonRow> ::
      (x == Keyed(YearKey(m), SeasonRow(m, x.item.season)) && x.item.season in hits) ==> x in rows by {
      forall x: Keyed<SeasonRow> | x == Keyed(YearKey(m), SeasonRow(m, x.item.season)) && x.item.season in hits
        ensures x in rows
      {
        var i :| 0 <= i < |hits| && hits[i] == x.item.season;
        assert rows[i] == x;
      }
    }
    rows
  }

  /** The number of season edges whose displayed name contains `q`, summed
      over the movies in enumeration order. */
  ghost function SeasonEdgeTotal(ms: seq<Movie>, es: seq<CatalogEdge>, q: string): nat
    decreases |ms|
  {
    if |ms| == 0 then 0
    else |MatchingEdges(es, ms[0].id, Season, q)| + SeasonEdgeTotal(ms[1..], es, q)
  }

  /** The filtered rows, one per matching season edge, keyed for
      `ORDER BY m.year DESC`. Edges whose target has neither `name` nor
      `nombre` make no row: the filter is null for them. */
  function SeasonRows(ms: seq<Movie>, es: seq<CatalogEdge>, q: string): (rows: seq<Keyed<SeasonRow>>)
    ensures forall x :: x in rows ==>
      x.item.movie in ms && x.key == YearKey(x.item.movie) && SeasonMatch(es, x.item.movie, x.item.season, q)
    ensures forall m, n :: m in ms && SeasonMatch(es, m, n, q) ==> Keyed(YearKey(m), SeasonRow(m, n)) in rows
    ensures |rows| == SeasonEdgeTotal(ms, es, q)
    decreases |ms|
  {
    if |ms| == 0 then []
    else
      HitsCount(es, ms[0].id, Season, q);
      var here := SeasonRowsFor(ms[0], Hits(Names(es, ms[0].id, Season), q));
      var rest := SeasonRows(ms[1..], es, q);
      assert forall m :: m in ms <==> m == ms[0] || m in ms[1..];
      here + rest
  }

  /** The record for one row: the listing record, its seasons replaced by
      the single matched name. */
  function SeasonView(g: Graph, row: SeasonRow): (v: MovieView)
    ensures v.movie == row.movie && v.seasons == [row.season]
    ensures v == Listing(g, row.movie, None).(seasons := [row.season])
  {
    Listing(g, row.movie, None).(seasons := [row.season])
  }

  function SeasonViews(g: Graph, rows: seq<Keyed<SeasonRow>>): (vs: seq<MovieView>)
    ensures |vs| == |rows|
    ensures forall i :: 0 <= i < |rows| ==> vs[i] == SeasonView(g, rows[i].item)
  {
    seq(|rows|, i requires 0 <= i < |rows| => SeasonView(g, rows[i].item))
  }

  /** The records list movie `m` with season name `n`. */
  ghost predicate ListsSeason(vs: seq<MovieView>, m: Movie, n: string) {
    exists i :: 0 <= i < |vs| && vs[i].movie == m && vs[i].seasons == [n]
  }

  lemma SeasonViewsShowRows(g: Graph, rows: seq<Keyed<SeasonRow>>)
    ensures forall i :: 0 <= i < |rows| ==>
      SeasonViews(g, rows)[i].movie == rows[i].item.movie && SeasonViews(g, rows)[i].seasons == [rows[i].item.season]
    ensures forall m, n :: ListsSeason(SeasonViews(g, rows), m, n) <==>
      exists i :: 0 <= i < |rows| && rows[i].item == SeasonRow(m, n)
  {
    var vs := SeasonViews(g, rows);
    forall i | 0 <= i < |rows|
      ensures vs[i].movie == rows[i].item.movie && vs[i].seasons == [rows[i].item.season]
    {
      assert vs[i] == SeasonView(g, rows[i].item);
    }
    forall m, n | ListsSeason(vs, m, n) ensures exists i :: 0 <= i < |rows| && rows[i].item == SeasonRow(m, n) {
      var i :| 0 <= i < |vs| && vs[i].movie == m && vs[i].seasons == [n];
      assert [rows[i].item.season] == [n];
      assert rows[i].item.season == [rows[i].item.season][0];
    }
  }

  /** Rows keyed by year, sorted by key, come newest first; rows whose key
      is a function of the item and that do not repeat do not repeat items. */
  lemma YearsSorted(sel: seq<Keyed<SeasonRow>>)
    requires forall i :: 0 <= i < |sel| ==> sel[i].key == YearKey(sel[i].item.movie)
    requires SortedByKey(sel) && NoDup(sel)
    ensures forall i, j :: 0 <= i < j < |sel| ==> sel[i].item.movie.year >= sel[j].item.movie.year
    ensures forall i, j :: 0 <= i < j < |sel| ==> sel[i].item != sel[j].item
  {
    forall i, j | 0 <= i < j < |sel| ensures sel[i].item.movie.year >= sel[j].item.movie.year {
      LexLeSingle(-sel[i].item.movie.year, -sel[j].item.movie.year);
    }
  }

  /** Selected season rows are matching rows keyed by year. */
  lemma SeasonKeys(g: Graph, q: string, sel: seq<Keyed<SeasonRow>>)
    requires sel == TopK(SeasonRows(g.movies, g.catalog, q), SeasonLimit)
    ensures forall i :: 0 <= i < |sel| ==> sel[i].key == YearKey(sel[i].item.movie)
    ensures forall i :: 0 <= i < |sel| ==>
      sel[i].item.movie in g.movies && SeasonMatch(g.catalog, sel[i].item.movie, sel[i].item.season, q)
  {
    var rows := SeasonRows(g.movies, g.catalog, q);
    forall i | 0 <= i < |sel|
      ensures sel[i].key == YearKey(sel[i].item.movie)
      ensures sel[i].item.movie in g.movies && SeasonMatch(g.catalog, sel[i].item.movie, sel[i].item.season, q)
    {
      assert sel[i] in rows;
    }
  }

  /** Selected season rows are matching rows, come newest first and hold
      no (movie, season) pair twice. */
  lemma {:induction false} SeasonOrder(g: Graph, q: string, sel: seq<Keyed<SeasonRow>>)
    requires sel == TopK(SeasonRows(g.movies, g.catalog, q), SeasonLimit)
    ensures forall i :: 0 <= i < |sel| ==>
      sel[i].item.movie in g.movies && SeasonMatch(g.catalog, sel[i].item.movie, sel[i].item.season, q)
    ensures forall i, j :: 0 <= i < j < |sel| ==> sel[i].item.movie.year >= sel[j].item.movie.year
    ensures forall i, j :: 0 <= i < j < |sel| ==> sel[i].item != sel[j].item
  {
    SeasonKeys(g, q, sel);
    YearsSorted(sel);
  }

  /** A matching pair makes a row. */
  lemma SeasonPairRow(ms: seq<Movie>, es: seq<CatalogEdge>, q: string, m: Movie, n: string)
    requires m in ms && SeasonMatch(es, m, n, q)
    ensures Keyed(YearKey(m), SeasonRow(m, n)) in SeasonRows(ms, es, q)
  {
  }

  /** Rows all sorting no later than year `y` descending hold movies no
      older than `y`. */
  lemma YearsBelow(sel: seq<Keyed<SeasonRow>>, y: int)
    requires forall i :: 0 <= i < |sel| ==> sel[i].key == YearKey(sel[i].item.movie)
    requires forall i :: 0 <= i < |sel| ==> LexLe(sel[i].key, [-y])
    ensures forall i :: 0 <= i < |sel| ==> sel[i].item.movie.year >= y
  {
    forall i | 0 <= i < |sel| ensures sel[i].item.movie.year >= y {
      LexLeSingle(-sel[i].item.movie.year, -y);
    }
  }

  /** A matching (movie, season) pair the selection leaves out is no newer
      than any row it keeps. */
  lemma {:induction false} SeasonLeftOut(g: Graph, q: string, sel: seq<Keyed<SeasonRow>>, m: Movie, n: string)
    requires sel == TopK(SeasonRows(g.movies, g.catalog, q), SeasonLimit)
    requires m in g.movies && SeasonMatch(g.catalog, m, n, q)
    requires forall i :: 0 <= i < |sel| ==> sel[i].item != SeasonRow(m, n)
    ensures forall i :: 0 <= i < |sel| ==> sel[i].item.movie.year >= m.year
  {
    var rows := SeasonRows(g.movies, g.catalog, q);
    var x := Keyed(YearKey(m), SeasonRow(m, n));
    SeasonPairRow(g.movies, g.catalog, q, m, n);
    OmittedBelow(rows, SeasonLimit, x);
    SeasonKeys(g, q, sel);
    YearsBelow(sel, m.year);
  }

  /** The season records of the selection, with the facts of `SeasonOrder`. */
  lemma {:induction false} SeasonFacts(g: Graph, q: string, sel: seq<Keyed<SeasonRow>>)
    requires sel == TopK(SeasonRows(g.movies, g.catalog, q), SeasonLimit)
    ensures forall i :: 0 <= i < |sel| ==>
      && SeasonViews(g, sel)[i].movie in g.movies
      && |SeasonViews(g, sel)[i].seasons| == 1
      && SeasonMatch(g.catalog, SeasonViews(g, sel)[i].movie, SeasonViews(g, sel)[i].seasons[0], q)
    ensures forall i, j :: 0 <= i < j < |sel| ==>
      SeasonViews(g, sel)[i].movie.year >= SeasonViews(g, sel)[j].movie.year
    ensures forall i, j :: 0 <= i < j < |sel| ==>
      SeasonViews(g, sel)[i].movie != SeasonViews(g, sel)[j].movie
      || SeasonViews(g, sel)[i].seasons != SeasonViews(g, sel)[j].seasons
  {
    SeasonViewsShowRows(g, sel);
    SeasonOrder(g, q, sel);
    var vs := SeasonViews(g, sel);
    forall i, j | 0 <= i < j < |sel| ensures vs[i].movie != vs[j].movie || vs[i].seasons != vs[j].seasons {
      assert sel[i].item.movie != sel[j].item.movie
        || [sel[i].item.season][0] != [sel[j].item.season][0];
    }
  }

  /** Matching pairs left out are no newer than any listed. */
  lemma {:induction false} SeasonOmitted(g: Graph, q: string, sel: seq<Keyed<SeasonRow>>)
    requires sel == TopK(SeasonRows(g.movies, g.catalog, q), SeasonLimit)
    ensures forall m, n :: m in g.movies && SeasonMatch(g.catalog, m, n, q) && !ListsSeason(SeasonViews(g, sel), m, n) ==>
      forall i :: 0 <= i < |sel| ==> SeasonViews(g, sel)[i].movie.year >= m.year
  {
    SeasonViewsShowRows(g, sel);
    forall m, n | m in g.movies && SeasonMatch(g.catalog, m, n, q) && !ListsSeason(SeasonViews(g, sel), m, n)
      ensures forall i :: 0 <= i < |sel| ==> SeasonViews(g, sel)[i].movie.year >= m.year
    {
      SeasonLeftOut(g, q, sel, m, n);
    }
  }

  /** When the matching rows fit in twenty, no matching pair is left out. */
  lemma {:induction false} SeasonComplete(g: Graph, q: string, sel: seq<Keyed<SeasonRow>>)
    requires sel == TopK(SeasonRows(g.movies, g.catalog, q), SeasonLimit)
    ensures |SeasonRows(g.movies, g.catalog, q)| <= SeasonLimit ==>
      forall m, n :: m in g.movies && SeasonMatch(g.catalog, m, n, q) ==> ListsSeason(SeasonViews(g, sel), m, n)
  {
    SeasonViewsShowRows(g, sel);
    var rows := SeasonRows(g.movies, g.catalog, q);
    forall m, n | m in g.movies && SeasonMatch(g.catalog, m, n, q) && |rows| <= SeasonLimit
      ensures exists i :: 0 <= i < |sel| && sel[i].item == SeasonRow(m, n)
    {
      TopKKeeps(rows, SeasonLimit, Keyed(YearKey(m), SeasonRow(m, n)));
    }
  }

  /** Some matching pair makes some row. */
  lemma SeasonRowsNonEmpty(g: Graph, q: string)
    ensures (exists m, n :: m in g.movies && SeasonMatch(g.catalog, m, n, q)) ==>
      |SeasonRows(g.movies, g.catalog, q)| > 0
  {
    if exists m, n :: m in g.movies && SeasonMatch(g.catalog, m, n, q) {
      var m, n :| m in g.movies && SeasonMatch(g.catalog, m, n, q);
      SeasonPairRow(g.movies, g.catalog, q, m, n);
    }
  }

  /** `get_movies_by_season(name)`: at most twenty records, newest first,
      each a catalog movie with a season edge whose displayed name contains
      the argument whatever the case, that name as its only season, and
      otherwise the movie's listing record. A movie may appear once per
      matching season name, but no (movie, season) pair twice; matching
      pairs left out are no newer than any listed, and none is left out
      when the matching rows fit. */
  function GetMoviesBySeason(g: Graph, q: string): (r: seq<MovieView>)
    ensures |r| <= SeasonLimit
    ensures forall i :: 0 <= i < |r| ==>
      && r[i].movie in g.movies
      && |r[i].seasons| == 1
      && SeasonMatch(g.catalog, r[i].movie, r[i].seasons[0], q)
      && r[i] == Listing(g, r[i].movie, None).(seasons := r[i].seasons)
    ensures forall i, j :: 0 <= i < j < |r| ==> r[i].movie.year >= r[j].movie.year
    ensures forall i, j :: 0 <= i < j < |r| ==> r[i].movie != r[j].movie || r[i].seasons != r[j].seasons
    ensures forall m, n :: m in g.movies && SeasonMatch(g.catalog, m, n, q) && !ListsSeason(r, m, n) ==>
      forall i :: 0 <= i < |r| ==> r[i].movie.year >= m.year
    ensures |SeasonRows(g.movies, g.catalog, q)| <= SeasonLimit ==>
      forall m, n :: m in g.movies && SeasonMatch(g.catalog, m, n, q) ==> ListsSeason(r, m, n)
    ensures (exists m, n :: m in g.movies && SeasonMatch(g.catalog, m, n, q)) ==> |r| > 0
    ensures var rows := SeasonRows(g.movies, g.catalog, q);
      NoDup(rows) ==> |r| == if |rows| < SeasonLimit then |rows| else SeasonLimit
  {
    SeasonRowsNonEmpty(g, q);
    var sel := TopK(SeasonRows(g.movies, g.catalog, q), SeasonLimit);
    SeasonFacts(g, q, sel);
    SeasonOmitted(g, q, sel);
    SeasonComplete(g, q, sel);
    SeasonViews(g, sel)
  }

  lemma SeasonInDetail(g: Graph, q: string, v: MovieView)
    requires |v.seasons| == 1 && SeasonMatch(g.catalog, v.movie, v.seasons[0], q)
    ensures v.seasons[0] in Detail(g, v.movie).seasons
  {
    var d := Detail(g, v.movie);
    assert Field(d, Season) == d.seasons;
  }

  /** Every season a season query shows for a movie is one `get_movie`
      lists for it. */
  lemma SeasonShownByDetail(g: Graph, q: string)
    ensures forall i :: 0 <= i < |GetMoviesBySeason(g, q)| ==>
      GetMoviesBySeason(g, q)[i].seasons[0] in Detail(g, GetMoviesBySeason(g, q)[i].movie).seasons
  {
    var r := GetMoviesBySeason(g, q);
    forall i | 0 <= i < |r| ensures r[i].seasons[0] in Detail(g, r[i].movie).seasons {
      SeasonInDetail(g, q, r[i]);
    }
  }

  // ---------------------------------------------------------------------
  // advanced_search

  /** The query parameters; an absent and an empty value are both falsy. */
  datatype SearchParams = SearchParams(
    title: Option<string>,
    genre: Option<string>,
    actor: Option<string>,
    director: Option<string>,
    season: Option<string>)

  /** `query_params.get(k)` is truthy: present and not empty. */
  predicate Given(v: Option<string>) {
    v.Some? && v.value != ""
  }

  /** The parameter that filters on category `c`. */
  function Criterion(p: SearchParams, c: Category): Option<string> {
    match c
    case Genre => p.genre
    case Actor => p.actor
    case Director => p.director
    case Season => p.season
  }

  /** Some criterion besides the title is supplied. */
  predicate OtherGiven(p: SearchParams) {
    Given(p.genre) || Given(p.actor) || Given(p.director) || Given(p.season)
  }

  /** Movie `m` has a category-`c` attribute whose displayed name contains
      `q` whatever the case. */
  ghost predicate HasMatch(g: Graph, m: Movie, c: Category, q: string) {
    exists n :: n in Names(g.catalog, m.id, c) && ContainsCI(n, q)
  }

  /** Movie `m` meets every supplied criterion, the title one included. */
  ghost predicate Satisfies(g: Graph, p: SearchParams, m: Movie) {
    && (Given(p.title) ==> ContainsCI(m.title, p.title.value))
    && (forall c :: Given(Criterion(p, c)) ==> HasMatch(g, m, c, Criterion(p, c).value))
  }

  /** The rows the category-`c` clause leaves of one row for movie `m`:
      one per matching edge when the criterion is supplied, else one. */
  function Factor(g: Graph, p: SearchParams, m: Movie, c: Category): (n: nat)
    ensures n > 0 <==> (Given(Criterion(p, c)) ==> HasMatch(g, m, c, Criterion(p, c).value))
    ensures !Given(Criterion(p, c)) ==> n == 1
    ensures Given(Criterion(p, c)) ==> n == |MatchingEdges(g.catalog, m.id, c, Criterion(p, c).value)|
  {
    if Given(Criterion(p, c)) then
      var hits := Hits(Names(g.catalog, m.id, c), Criterion(p, c).value);
      HitsCount(g.catalog, m.id, c, Criterion(p, c).value);
      assert |hits| > 0 ==> hits[0] in hits;
      |hits|
    else 1
  }

  lemma ProductPositive(a: nat, b: nat)
    ensures a * b >= 0
    ensures a * b > 0 <==> a > 0 && b > 0
  {
    if a > 0 && b > 0 {
      assert a * b >= b;
    }
  }

  /** The product of the counts, positive exactly when every count is. */
  function Product(ns: seq<nat>): (n: nat)
    ensures n > 0 <==> forall i :: 0 <= i < |ns| ==> ns[i] > 0
    decreases |ns|
  {
    if |ns| == 0 then 1
    else
      var rest := Product(ns[1..]);
      ProductPositive(ns[0], rest);
      assert forall i :: 1 <= i < |ns| ==> ns[i] == ns[1..][i - 1];
      ns[0] * rest
  }

  /** Every supplied criterion is met exactly when each category's factor
      is positive. */
  lemma CriteriaByCategory(g: Graph, p: SearchParams, m: Movie)
    ensures (forall c :: Given(Criterion(p, c)) ==> HasMatch(g, m, c, Criterion(p, c).value))
      <==> Factor(g, p, m, Genre) > 0 && Factor(g, p, m, Actor) > 0
           && Factor(g, p, m, Director) > 0 && Factor(g, p, m, Season) > 0
  {
    if Factor(g, p, m, Genre) > 0 && Factor(g, p, m, Actor) > 0
       && Factor(g, p, m, Director) > 0 && Factor(g, p, m, Season) > 0
    {
      forall c ensures Given(Criterion(p, c)) ==> HasMatch(g, m, c, Criterion(p, c).value) {
        assert Factor(g, p, m, c) > 0 by {
          match c
          case Genre =>
          case Actor =>
          case Director =>
          case Season =>
        }
      }
    }
  }

  /** The per-category factors in the order of the source's clauses. */
  function Factors(g: Graph, p: SearchParams, m: Movie): seq<nat> {
    [Factor(g, p, m, Genre), Factor(g, p, m, Actor), Factor(g, p, m, Director), Factor(g, p, m, Season)]
  }

  /** The product of the factors is positive exactly when every supplied
      criterion is met. */
  lemma FactorsPositive(g: Graph, p: SearchParams, m: Movie)
    ensures Product(Factors(g, p, m)) > 0
      <==> forall c :: Given(Criterion(p, c)) ==> HasMatch(g, m, c, Criterion(p, c).value)
  {
    CriteriaByCategory(g, p, m);
    var fs := Factors(g, p, m);
    assert |fs| == 4;
    if fs[0] > 0 && fs[1] > 0 && fs[2] > 0 && fs[3] > 0 {
      forall i | 0 <= i < |fs| ensures fs[i] > 0 {
        if i == 0 {} else if i == 1 {} else if i == 2 {} else {}
      }
    }
  }

  /** The rows the chained `MATCH` clauses produce for movie `m`: the
      product of the per-criterion match counts, none when the title filter
      rejects it. */
  function Copies(g: Graph, p: SearchParams, m: Movie): (n: nat)
    ensures n > 0 <==> Satisfies(g, p, m)
    ensures Satisfies(g, p, m) ==>
      n == Factor(g, p, m, Genre) * Factor(g, p, m, Actor) * Factor(g, p, m, Director) * Factor(g, p, m, Season)
  {
    if Given(p.title) && !ContainsCI(m.title, p.title.value) then 0
    else
      FactorsPositive(g, p, m);
      ProductOfFactors(g, p, m);
      Product(Factors(g, p, m))
  }

  /** The product of the four factors, clause by clause. */
  lemma ProductOfFactors(g: Graph, p: SearchParams, m: Movie)
    ensures Product(Factors(g, p, m))
      == Factor(g, p, m, Genre) * Factor(g, p, m, Actor) * Factor(g, p, m, Director) * Factor(g, p, m, Season)
  {
    ProductOfFour(Factor(g, p, m, Genre), Factor(g, p, m, Actor), Factor(g, p, m, Director), Factor(g, p, m, Season));
  }

  lemma ProductOfFour(a: nat, b: nat, c: nat, d: nat)
    ensures Product([a, b, c, d]) == a * b * c * d
  {
    assert [a, b, c, d][1..] == [b, c, d];
    assert [b, c, d][1..] == [c, d];
    assert [c, d][1..] == [d];
    assert [d][1..] == [];
    assert Product([d][1..]) == 1;
    var pd := Product([d]);
    assert pd == d * 1;
    var pcd := Product([c, d]);
    assert pcd == c * pd;
    var pbcd := Product([b, c, d]);
    assert pbcd == b * pcd;
    assert Product([a, b, c, d]) == a * pbcd;
    MulAssoc(a, b, c * d);
    MulAssoc(a * b, c, d);
  }

  lemma MulAssoc(x: int, y: int, z: int)
    ensures x * (y * z) == x * y * z
  {
  }

  /** The number of rows the chained clauses produce over `ms`: for each
      satisfying movie, the product of its per-criterion match counts. */
  ghost function RowTotal(g: Graph, p: SearchParams, ms: seq<Movie>): int
    decreases |ms|
  {
    if |ms| == 0 then 0
    else
      var m := ms[0];
      var here := if Satisfies(g, p, m)
        then Factor(g, p, m, Genre) * Factor(g, p, m, Actor) * Factor(g, p, m, Director) * Factor(g, p, m, Season)
        else 0;
      here + RowTotal(g, p, ms[1..])
  }

  /** The rows that reach `ORDER BY m.title`: `Copies` rows per movie,
      keyed on the title's code points. */
  function AdvancedRows(g: Graph, p: SearchParams, ms: seq<Movie>): (rows: seq<Keyed<Movie>>)
    ensures forall x :: x in rows ==> x.item in ms && x.key == Ords(x.item.title) && Satisfies(g, p, x.item)
    ensures forall m :: m in ms && Satisfies(g, p, m) ==> Keyed(Ords(m.title), m) in rows
    decreases |ms|
  {
    if |ms| == 0 then []
    else
      var rest := AdvancedRows(g, p, ms[1..]);
      assert forall m :: m in ms <==> m == ms[0] || m in ms[1..];
      Repeat(Keyed(Ords(ms[0].title), ms[0]), Copies(g, p, ms[0])) + rest
  }

  /** Each satisfying movie makes as many rows as the product of its
      per-criterion match counts, and other movies make none. */
  lemma {:induction false} AdvancedRowsCount(g: Graph, p: SearchParams, ms: seq<Movie>)
    ensures |AdvancedRows(g, p, ms)| == RowTotal(g, p, ms)
    decreases |ms|
  {
    if |ms| > 0 {
      AdvancedRowsCount(g, p, ms[1..]);
      assert !Satisfies(g, p, ms[0]) ==> Copies(g, p, ms[0]) == 0;
    }
  }

  /** `ORDER BY m.title`: titles compared code point by code point. */
  predicate TitleLe(a: string, b: string) {
    LexLe(Ords(a), Ords(b))
  }

  /** Selected rows are satisfying movies in title order, none twice. */
  lemma {:induction false} AdvancedOrder(g: Graph, p: SearchParams, sel: seq<Keyed<Movie>>)
    requires sel == TopK(AdvancedRows(g, p, g.movies), AdvancedLimit)
    ensures forall i :: 0 <= i < |sel| ==> sel[i].item in g.movies && Satisfies(g, p, sel[i].item)
    ensures forall i, j :: 0 <= i < j < |sel| ==> TitleLe(sel[i].item.title, sel[j].item.title)
    ensures forall i, j :: 0 <= i < j < |sel| ==> sel[i].item != sel[j].item
  {
    var rows := AdvancedRows(g, p, g.movies);
    assert forall i :: 0 <= i < |sel| ==> sel[i] in rows;
  }

  /** A satisfying movie the selection leaves out sorts no earlier than any
      movie it keeps. */
  lemma {:induction false} AdvancedLeftOut(g: Graph, p: SearchParams, sel: seq<Keyed<Movie>>, m: Movie)
    requires sel == TopK(AdvancedRows(g, p, g.movies), AdvancedLimit)
    requires m in g.movies && Satisfies(g, p, m) && forall i :: 0 <= i < |sel| ==> sel[i].item != m
    ensures forall i :: 0 <= i < |sel| ==> TitleLe(sel[i].item.title, m.title)
  {
    var rows := AdvancedRows(g, p, g.movies);
    var x := Keyed(Ords(m.title), m);
    assert x in rows;
    OmittedBelow(rows, AdvancedLimit, x);
    AdvancedKeys(g, p, sel);
    TitlesBelow(sel, m.title);
  }

  /** Rows keyed by title that sort no later than `t` have titles no later
      than `t`. */
  lemma TitlesBelow(sel: seq<Keyed<Movie>>, t: string)
    requires forall i :: 0 <= i < |sel| ==> sel[i].key == Ords(sel[i].item.title)
    requires forall i :: 0 <= i < |sel| ==> LexLe(sel[i].key, Ords(t))
    ensures forall i :: 0 <= i < |sel| ==> TitleLe(sel[i].item.title, t)
  {
  }

  /** Each selected row is keyed by its movie's title. */
  lemma AdvancedKeys(g: Graph, p: SearchParams, sel: seq<Keyed<Movie>>)
    requires sel == TopK(AdvancedRows(g, p, g.movies), AdvancedLimit)
    ensures forall i :: 0 <= i < |sel| ==> sel[i].key == Ords(sel[i].item.title)
  {
    var rows := AdvancedRows(g, p, g.movies);
    assert forall i :: 0 <= i < |sel| ==> sel[i] in rows;
  }

  /** The listing records of the selection, with the facts of `AdvancedOrder`. */
  lemma {:induction false} AdvancedFacts(g: Graph, p: SearchParams, sel: seq<Keyed<Movie>>)
    requires sel == TopK(AdvancedRows(g, p, g.movies), AdvancedLimit)
    ensures forall i :: 0 <= i < |sel| ==>
      && Listings(g, sel)[i].movie in g.movies
      && Satisfies(g, p, Listings(g, sel)[i].movie)
      && Listings(g, sel)[i] == Listing(g, Listings(g, sel)[i].movie, None)
    ensures forall i, j :: 0 <= i < j < |sel| ==>
      TitleLe(Listings(g, sel)[i].movie.title, Listings(g, sel)[j].movie.title)
    ensures forall i, j :: 0 <= i < j < |sel| ==> Listings(g, sel)[i].movie != Listings(g, sel)[j].movie
  {
    ListingsShowRows(g, sel);
    AdvancedOrder(g, p, sel);
  }

  /** Satisfying movies left out sort no earlier than any listed. */
  lemma {:induction false} AdvancedOmitted(g: Graph, p: SearchParams, sel: seq<Keyed<Movie>>)
    requires sel == TopK(AdvancedRows(g, p, g.movies), AdvancedLimit)
    ensures forall m :: m in g.movies && Satisfies(g, p, m) && !Lists(Listings(g, sel), m) ==>
      forall i :: 0 <= i < |sel| ==> TitleLe(Listings(g, sel)[i].movie.title, m.title)
  {
    ListingsShowRows(g, sel);
    forall m | m in g.movies && Satisfies(g, p, m) && !Lists(Listings(g, sel), m)
      ensures forall i :: 0 <= i < |sel| ==> TitleLe(Listings(g, sel)[i].movie.title, m.title)
    {
      AdvancedLeftOut(g, p, sel, m);
    }
  }

  /** When the matched rows fit in fifty, no satisfying movie is left out. */
  lemma {:induction false} AdvancedComplete(g: Graph, p: SearchParams, sel: seq<Keyed<Movie>>)
    requires sel == TopK(AdvancedRows(g, p, g.movies), AdvancedLimit)
    ensures |AdvancedRows(g, p, g.movies)| <= AdvancedLimit ==>
      forall m :: m in g.movies && Satisfies(g, p, m) ==> Lists(Listings(g, sel), m)
  {
    ListingsShowRows(g, sel);
    var rows := AdvancedRows(g, p, g.movies);
    forall m | m in g.movies && Satisfies(g, p, m) && |rows| <= AdvancedLimit
      ensures exists i :: 0 <= i < |sel| && sel[i].item == m
    {
      TopKKeeps(rows, AdvancedLimit, Keyed(Ords(m.title), m));
    }
  }

  /** Some satisfying movie makes some row. */
  lemma AdvancedRowsNonEmpty(g: Graph, p: SearchParams)
    ensures (exists m :: m in g.movies && Satisfies(g, p, m)) ==> |AdvancedRows(g, p, g.movies)| > 0
  {
    if exists m :: m in g.movies && Satisfies(g, p, m) {
      var m :| m in g.movies && Satisfies(g, p, m);
      assert Keyed(Ords(m.title), m) in AdvancedRows(g, p, g.movies);
    }
  }

  /** `advanced_search` as evidently intended: the title criterion ANDed
      with the others. At most fifty records in title order, none twice,
      each a catalog movie meeting every supplied criterion; satisfying
      movies left out sort no earlier than any listed, and none is left out
      when the matched rows fit in fifty. */
  function AdvancedSearchCorrected(g: Graph, p: SearchParams): (r: seq<MovieView>)
    ensures |r| <= AdvancedLimit
    ensures forall i :: 0 <= i < |r| ==>
      && r[i].movie in g.movies
      && Satisfies(g, p, r[i].movie)
      && r[i] == Listing(g, r[i].movie, None)
    ensures forall i, j :: 0 <= i < j < |r| ==> TitleLe(r[i].movie.title, r[j].movie.title)
    ensures forall i, j :: 0 <= i < j < |r| ==> r[i].movie != r[j].movie
    ensures forall m :: m in g.movies && Satisfies(g, p, m) && !Lists(r, m) ==>
      forall i :: 0 <= i < |r| ==> TitleLe(r[i].movie.title, m.title)
    ensures |AdvancedRows(g, p, g.movies)| <= AdvancedLimit ==>
      forall m :: m in g.movies && Satisfies(g, p, m) ==> Lists(r, m)
    ensures (exists m :: m in g.movies && Satisfies(g, p, m)) ==> |r| > 0
    ensures var rows := AdvancedRows(g, p, g.movies);
      NoDup(rows) ==> |r| == if |rows| < AdvancedLimit then |rows| else AdvancedLimit
  {
    AdvancedRowsNonEmpty(g, p);
    var sel := TopK(AdvancedRows(g, p, g.movies), AdvancedLimit);
    AdvancedFacts(g, p, sel);
    AdvancedOmitted(g, p, sel);
    AdvancedComplete(g, p, sel);
    Listings(g, sel)
  }

  /** A satisfying catalog movie is listed when the matched rows fit. */
  lemma CorrectedListsWhenFits(g: Graph, p: SearchParams, m: Movie)
    requires |AdvancedRows(g, p, g.movies)| <= AdvancedLimit
    requires m in g.movies && Satisfies(g, p, m)
    ensures Lists(AdvancedSearchCorrected(g, p), m)
  {
  }

  /** `advanced_search(query_params)` as written: the title clause is a
      bare `WHERE` appended after the last clause, so with any other
      criterion supplied the text holds two `WHERE`s in a row and the store
      rejects it; otherwise it computes the intended search. */
  function AdvancedSearch(g: Graph, p: SearchParams): (r: Result<seq<MovieView>, QueryError>)
    ensures r.Failure? <==> Given(p.title) && OtherGiven(p)
    ensures r.Failure? ==> r.error == MalformedQuery
    ensures r.Success? ==> r.value == AdvancedSearchCorrected(g, p)
  {
    if Given(p.title) && OtherGiven(p) then Failure(MalformedQuery)
    else Success(AdvancedSearchCorrected(g, p))
  }

  function ExampleMovie(): Movie {
    Movie("m1", "Up", 2009, "")
  }

  function ExampleGraph(): Graph {
    Graph({}, [ExampleMovie()], [CatalogEdge("m1", HasGenre, AttrNode({GenreLabel}, Some("Drama"), None), None)], map[])
  }

  function ExampleParams(): SearchParams {
    SearchParams(Some("Up"), Some("Drama"), None, None, None)
  }

  /** The example movie's genre edge shows "Drama", and both criteria
      contain themselves. */
  lemma ExampleNames()
    ensures Names(ExampleGraph().catalog, "m1", Genre) == ["Drama"]
    ensures ContainsCI("Drama", "Drama") && ContainsCI("Up", "Up")
  {
    assert NameOn(ExampleGraph().catalog[0], "m1", Genre) == Some("Drama");
  }

  /** The genre criterion leaves one row: one genre edge matches. */
  lemma ExampleGenreFactor()
    ensures Factor(ExampleGraph(), ExampleParams(), ExampleMovie(), Genre) == 1
  {
    ExampleNames();
    assert ["Drama"][..0] == [];
    assert Hits(["Drama"], "Drama") == ["Drama"];
  }

  /** The example movie meets both criteria through one genre edge. */
  lemma ExampleSatisfies()
    ensures Satisfies(ExampleGraph(), ExampleParams(), ExampleMovie())
    ensures Copies(ExampleGraph(), ExampleParams(), ExampleMovie()) == 1
  {
    var g, p, m := ExampleGraph(), ExampleParams(), ExampleMovie();
    ExampleFactors();
    CriteriaByCategory(g, p, m);
    ExampleNames();
    ProductOfOnes();
  }

  lemma ExampleFactors()
    ensures Factors(ExampleGraph(), ExampleParams(), ExampleMovie()) == [1, 1, 1, 1]
  {
    ExampleGenreFactor();
    UnsuppliedFactors(ExampleGraph(), ExampleParams(), ExampleMovie());
  }

  /** Criteria left out of the parameters leave one row each. */
  lemma UnsuppliedFactors(g: Graph, p: SearchParams, m: Movie)
    requires !Given(p.actor) && !Given(p.director) && !Given(p.season)
    ensures Factor(g, p, m, Actor) == 1 && Factor(g, p, m, Director) == 1 && Factor(g, p, m, Season) == 1
  {
  }

  lemma ProductOfOnes()
    ensures Product([1, 1, 1, 1]) == 1
  {
    assert [1, 1, 1, 1][1..] == [1, 1, 1];
    assert [1, 1, 1][1..] == [1, 1];
    assert [1, 1][1..] == [1];
    assert [1][1..] == [];
  }

  /** The example movie meets both criteria and makes a single row. */
  lemma ExampleMatchesOnce()
    ensures Satisfies(ExampleGraph(), ExampleParams(), ExampleMovie())
    ensures |AdvancedRows(ExampleGraph(), ExampleParams(), ExampleGraph().movies)| == 1
  {
    ExampleSatisfies();
  }

  lemma ExampleRejected()
    ensures AdvancedSearch(ExampleGraph(), ExampleParams()) == Failure(MalformedQuery)
  {
    var r := AdvancedSearch(ExampleGraph(), ExampleParams());
    assert Given(ExampleParams().title) && OtherGiven(ExampleParams());
    assert r.Failure? && r.error == MalformedQuery;
  }

  lemma ExampleListed()
    ensures Satisfies(ExampleGraph(), ExampleParams(), ExampleMovie())
    ensures Lists(AdvancedSearchCorrected(ExampleGraph(), ExampleParams()), ExampleMovie())
  {
    ExampleMatchesOnce();
    CorrectedListsWhenFits(ExampleGraph(), ExampleParams(), ExampleMovie());
  }

  /** A catalog of one movie, "Up", whose genre is "Drama", searched by
      title "Up" and genre "Drama": the movie meets both criteria, yet the
      query as written is rejected, while the corrected search lists it. */
  lemma TitleWithGenreCounterexample()
    ensures Satisfies(ExampleGraph(), ExampleParams(), ExampleMovie())
    ensures AdvancedSearch(ExampleGraph(), ExampleParams()) == Failure(MalformedQuery)
    ensures Lists(AdvancedSearchCorrected(ExampleGraph(), ExampleParams()), ExampleMovie())
  {
    ExampleRejected();
    ExampleListed();
  }
}

/** `MovieController`: single-movie lookup and the listing queries, each a
    filter, a sort with stated keys and a bounded take over the catalog,
    followed by the grouping `RETURN` does on the movie record. */
module MovieQueries {
  import opened Wrappers
  import opened Seqs
  import opened Text
  import opened Sorting
  import opened Graph

  /** The record a query returns for one movie: the movie's properties, its
      popularity (only `get_top_movies` sets it) and the collected names. */
  datatype MovieView = MovieView(
    movie: Movie,
    popularity: Option<nat>,
    genres: seq<string>,
    actors: seq<string>,
    directors: seq<string>,
    seasons: seq<string>)

  /** Errors the store raises for a query: a negative `LIMIT`, or the
      ill-formed text `advanced_search` builds when the title is combined
      with another criterion. */
  datatype QueryError = NegativeLimit | MalformedQuery

  /** Listing queries keep `COLLECT(DISTINCT a.name)[0..3]`. */
  const ListedActors: nat := 3
  const SearchLimit: nat := 20
  const SeasonLimit: nat := 20
  const AdvancedLimit: nat := 50

  function Field(v: MovieView, c: Category): seq<string> {
    match c
    case Genre => v.genres
    case Director => v.directors
    case Actor => v.actors
    case Season => v.seasons
  }

  lemma FieldsAreLists(g: Graph, m: Movie, v: MovieView)
    requires v.genres == AttrList(g.catalog, m.id, Genre) && v.actors == AttrList(g.catalog, m.id, Actor)
    requires v.directors == AttrList(g.catalog, m.id, Director) && v.seasons == AttrList(g.catalog, m.id, Season)
    ensures forall c :: Field(v, c) == AttrList(g.catalog, m.id, c)
  {
    forall c ensures Field(v, c) == AttrList(g.catalog, m.id, c) {
      match c
      case Genre =>
      case Director =>
      case Actor =>
      case Season =>
    }
  }

  /** The record `get_movie` returns: every distinct attribute name. */
  function Detail(g: Graph, m: Movie): (v: MovieView)
    ensures v.movie == m && v.popularity.None?
    ensures forall c :: NoDup(Field(v, c))
    ensures forall c, n :: n in Field(v, c) <==> n in Names(g.catalog, m.id, c)
  {
    var v := MovieView(m, None,
      AttrList(g.catalog, m.id, Genre),
      AttrList(g.catalog, m.id, Actor),
      AttrList(g.catalog, m.id, Director),
      AttrList(g.catalog, m.id, Season));
    FieldsAreLists(g, m, v);
    v
  }

  /** The record the listing queries return: as `Detail`, but with at most
      three actors, the first three `get_movie` would list. */
  function Listing(g: Graph, m: Movie, popularity: Option<nat>): (v: MovieView)
    ensures v.movie == m && v.popularity == popularity
    ensures |v.actors| <= ListedActors && |v.actors| <= |Detail(g, m).actors|
    ensures v.actors == Detail(g, m).actors[..|v.actors|]
    ensures |Detail(g, m).actors| <= ListedActors ==> v.actors == Detail(g, m).actors
    ensures |Detail(g, m).actors| >= ListedActors ==> |v.actors| == ListedActors
    ensures v.genres == Detail(g, m).genres && v.directors == Detail(g, m).directors
    ensures v.seasons == Detail(g, m).seasons
  {
    var d := Detail(g, m);
    MovieView(m, popularity, d.genres, Take(d.actors, ListedActors), d.directors, d.seasons)
  }

  /** `get_movie(movie_id)`: `None` exactly when no movie has the id;
      otherwise a movie with that id and duplicate-free lists holding every
      attribute name of each category. */
  function GetMovie(g: Graph, id: MovieId): (r: Option<MovieView>)
    ensures r.None? <==> forall m :: m in g.movies ==> m.id != id
    ensures r.Some? ==> r.value.movie in g.movies && r.value.movie.id == id && r.value.popularity.None?
    ensures r.Some? ==> forall c :: NoDup(Field(r.value, c))
    ensures r.Some? ==> forall c, n :: n in Field(r.value, c) <==> n in Names(g.catalog, id, c)
  {
    match FindMovie(g.movies, id)
    case None => None
    case Some(m) => Some(Detail(g, m))
  }

  /** The view sequence lists movie `m`. */
  ghost predicate Lists(vs: seq<MovieView>, m: Movie) {
    exists i :: 0 <= i < |vs| && vs[i].movie == m
  }

  /** The listing records of selected rows, in order. */
  function Listings(g: Graph, rows: seq<Keyed<Movie>>): (vs: seq<MovieView>)
    ensures |vs| == |rows|
    ensures forall i :: 0 <= i < |rows| ==> vs[i] == Listing(g, rows[i].item, None)
  {
    seq(|rows|, i requires 0 <= i < |rows| => Listing(g, rows[i].item, None))
  }

  // ---------------------------------------------------------------------
  // get_latest_movies

  function YearKey(m: Movie): seq<int> {
    [-m.year]
  }

  /** One row per movie, keyed for `ORDER BY m.year DESC`. */
  function ByYear(ms: seq<Movie>): (rows: seq<Keyed<Movie>>)
    ensures forall x :: x in rows <==> x.item in ms && x.key == YearKey(x.item)
    ensures |rows| == |ms|
    ensures NoDup(ms) ==> NoDup(rows)
  {
    var rows := seq(|ms|, i requires 0 <= i < |ms| => Keyed(YearKey(ms[i]), ms[i]));
    assert forall x: Keyed<Movie> :: x.item in ms && x.key == YearKey(x.item) ==> x in rows by {
      forall x: Keyed<Movie> | x.item in ms && x.key == YearKey(x.item) ensures x in rows {
        var i :| 0 <= i < |ms| && ms[i] == x.item;
        assert rows[i] == x;
      }
    }
    rows
  }

  /** Selected year-keyed rows are catalog movies, newest first, none twice. */
  lemma {:induction false} LatestOrder(g: Graph, limit: nat, sel: seq<Keyed<Movie>>)
    requires sel == TopK(ByYear(g.movies), limit)
    ensures forall i :: 0 <= i < |sel| ==> sel[i].item in g.movies
    ensures forall i, j :: 0 <= i < j < |sel| ==> sel[i].item.year >= sel[j].item.year
    ensures forall i, j :: 0 <= i < j < |sel| ==> sel[i].item != sel[j].item
  {
    var rows := ByYear(g.movies);
    assert forall i :: 0 <= i < |sel| ==> sel[i] in rows;
    forall i, j | 0 <= i < j < |sel| ensures sel[i].item.year >= sel[j].item.year {
      LexLeSingle(-sel[i].item.year, -sel[j].item.year);
    }
  }

  /** A catalog movie the selection leaves out is no newer than any movie
      it keeps. */
  lemma {:induction false} LatestLeftOut(g: Graph, limit: nat, sel: seq<Keyed<Movie>>, m: Movie)
    requires sel == TopK(ByYear(g.movies), limit)
    requires m in g.movies && forall i :: 0 <= i < |sel| ==> sel[i].item != m
    ensures forall i :: 0 <= i < |sel| ==> sel[i].item.year >= m.year
  {
    var rows := ByYear(g.movies);
    var x := Keyed(YearKey(m), m);
    assert x in rows && x !in sel;
    TopKBelow(rows, limit, x);
    forall i | 0 <= i < |sel| ensures sel[i].item.year >= m.year {
      assert sel[i] in rows;
      LexLeSingle(-sel[i].item.year, -m.year);
    }
  }

  /** The listing records of rows show the rows' movies, in order. */
  lemma ListingsShowRows(g: Graph, rows: seq<Keyed<Movie>>)
    ensures forall i :: 0 <= i < |rows| ==> Listings(g, rows)[i].movie == rows[i].item
    ensures forall m :: Lists(Listings(g, rows), m) <==> exists i :: 0 <= i < |rows| && rows[i].item == m
  {
    var vs := Listings(g, rows);
    forall i | 0 <= i < |rows| ensures vs[i].movie == rows[i].item {
      assert vs[i] == Listing(g, rows[i].item, None);
    }
  }

  /** The listing records of the selection, with the facts of `LatestOrder`. */
  lemma {:induction false} LatestFacts(g: Graph, limit: nat, sel: seq<Keyed<Movie>>)
    requires sel == TopK(ByYear(g.movies), limit)
    ensures forall i :: 0 <= i < |sel| ==>
      Listings(g, sel)[i].movie in g.movies && Listings(g, sel)[i] == Listing(g, Listings(g, sel)[i].movie, None)
    ensures forall i, j :: 0 <= i < j < |sel| ==>
      Listings(g, sel)[i].movie.year >= Listings(g, sel)[j].movie.year
    ensures forall i, j :: 0 <= i < j < |sel| ==> Listings(g, sel)[i].movie != Listings(g, sel)[j].movie
  {
    ListingsShowRows(g, sel);
    LatestOrder(g, limit, sel);
  }

  /** A catalog movie the records leave out is no newer than any listed. */
  lemma {:induction false} LatestOmitted(g: Graph, limit: nat, sel: seq<Keyed<Movie>>)
    requires sel == TopK(ByYear(g.movies), limit)
    ensures forall m :: m in g.movies && !Lists(Listings(g, sel), m) ==>
      forall i :: 0 <= i < |sel| ==> Listings(g, sel)[i].movie.year >= m.year
  {
    ListingsShowRows(g, sel);
    forall m | m in g.movies && !Lists(Listings(g, sel), m)
      ensures forall i :: 0 <= i < |sel| ==> Listings(g, sel)[i].movie.year >= m.year
    {
      LatestLeftOut(g, limit, sel, m);
    }
  }

  /** When the catalog fits in the limit, every movie is listed. */
  lemma {:induction false} LatestComplete(g: Graph, limit: nat, sel: seq<Keyed<Movie>>)
    requires sel == TopK(ByYear(g.movies), limit)
    ensures |g.movies| <= limit ==> forall m :: m in g.movies ==> Lists(Listings(g, sel), m)
  {
    if |g.movies| <= limit {
      LatestSelectsAll(g, limit, sel);
    }
    ListingsShowRows(g, sel);
  }

  /** A catalog that fits in the limit is selected whole. */
  lemma LatestSelectsAll(g: Graph, limit: nat, sel: seq<Keyed<Movie>>)
    requires sel == TopK(ByYear(g.movies), limit) && |g.movies| <= limit
    ensures forall m :: m in g.movies ==> exists i :: 0 <= i < |sel| && sel[i].item == m
  {
    forall m | m in g.movies
      ensures exists i :: 0 <= i < |sel| && sel[i].item == m
    {
      TopKKeeps(ByYear(g.movies), limit, Keyed(YearKey(m), m));
    }
  }

  /** `get_latest_movies(limit)`: at most `limit` movies of the catalog,
      newest first, none twice; every movie left out is no newer than every
      movie returned, and none is left out when the catalog fits. */
  function GetLatestMovies(g: Graph, limit: int): (r: Result<seq<MovieView>, QueryError>)
    ensures r.Failure? <==> limit < 0
    ensures r.Success? ==>
      && |r.value| <= limit
      && (forall i :: 0 <= i < |r.value| ==>
            r.value[i].movie in g.movies && r.value[i] == Listing(g, r.value[i].movie, None))
      && (forall i, j :: 0 <= i < j < |r.value| ==> r.value[i].movie.year >= r.value[j].movie.year)
      && (forall i, j :: 0 <= i < j < |r.value| ==> r.value[i].movie != r.value[j].movie)
      && (forall m :: m in g.movies && !Lists(r.value, m) ==>
            forall i :: 0 <= i < |r.value| ==> r.value[i].movie.year >= m.year)
      && (|g.movies| <= limit ==> forall m :: m in g.movies ==> Lists(r.value, m))
      && (NoDup(g.movies) ==> |r.value| == if |g.movies| < limit then |g.movies| else limit)
  {
    if limit < 0 then Failure(NegativeLimit)
    else
      var sel := TopK(ByYear(g.movies), limit);
      LatestFacts(g, limit, sel);
      LatestOmitted(g, limit, sel);
      LatestComplete(g, limit, sel);
      Success(Listings(g, sel))
  }

  // ---------------------------------------------------------------------
  // get_top_movies

  /** Movie `a` ranks at or above movie `b` under `ORDER BY
      positive_interactions DESC, m.year DESC`. */
  predicate RanksAbove(g: Graph, a: Movie, b: Movie) {
    Popularity(g, a.id) > Popularity(g, b.id)
    || (Popularity(g, a.id) == Popularity(g, b.id) && a.year >= b.year)
  }

  function RankKey(g: Graph, m: Movie): seq<int> {
    [-(Popularity(g, m.id) as int), -m.year]
  }

  /** The key order on rank keys is the order `RanksAbove` states. */
  lemma RankKeyOrder(g: Graph, a: Movie, b: Movie)
    ensures LexLe(RankKey(g, a), RankKey(g, b)) <==> RanksAbove(g, a, b)
  {
    LexLePair(-(Popularity(g, a.id) as int), -a.year, -(Popularity(g, b.id) as int), -b.year);
  }

  /** One row per movie, every movie included whatever its popularity (the
      interaction match is optional), keyed for the ranking. */
  function ByRank(g: Graph): (rows: seq<Keyed<Movie>>)
    ensures forall x :: x in rows <==> x.item in g.movies && x.key == RankKey(g, x.item)
    ensures |rows| == |g.movies|
    ensures NoDup(g.movies) ==> NoDup(rows)
  {
    var ms := g.movies;
    var rows := seq(|ms|, i requires 0 <= i < |ms| => Keyed(RankKey(g, ms[i]), ms[i]));
    assert forall x: Keyed<Movie> :: x.item in ms && x.key == RankKey(g, x.item) ==> x in rows by {
      forall x: Keyed<Movie> | x.item in ms && x.key == RankKey(g, x.item) ensures x in rows {
        var i :| 0 <= i < |ms| && ms[i] == x.item;
        assert rows[i] == x;
      }
    }
    rows
  }

  /** The listing records of ranked rows, each carrying its popularity. */
  function RankedListings(g: Graph, rows: seq<Keyed<Movie>>): (vs: seq<MovieView>)
    ensures |vs| == |rows|
    ensures forall i :: 0 <= i < |rows| ==>
      vs[i] == Listing(g, rows[i].item, Some(Popularity(g, rows[i].item.id)))
  {
    seq(|rows|, i requires 0 <= i < |rows| => Listing(g, rows[i].item, Some(Popularity(g, rows[i].item.id))))
  }

  lemma RankedListingsShowRows(g: Graph, rows: seq<Keyed<Movie>>)
    ensures forall i :: 0 <= i < |rows| ==> RankedListings(g, rows)[i].movie == rows[i].item
    ensures forall i :: 0 <= i < |rows| ==>
      && RankedListings(g, rows)[i].popularity == Some(Popularity(g, rows[i].item.id))
      && RankedListings(g, rows)[i] == Listing(g, rows[i].item, RankedListings(g, rows)[i].popularity)
    ensures forall m :: Lists(RankedListings(g, rows), m) <==> exists i :: 0 <= i < |rows| && rows[i].item == m
  {
    var vs := RankedListings(g, rows);
    forall i | 0 <= i < |rows| ensures vs[i].movie == rows[i].item {
      assert vs[i] == Listing(g, rows[i].item, Some(Popularity(g, rows[i].item.id)));
    }
  }

  /** Selected ranked rows are catalog movies in rank order, none twice. */
  lemma {:induction false} TopOrder(g: Graph, limit: nat, sel: seq<Keyed<Movie>>)
    requires sel == TopK(ByRank(g), limit)
    ensures forall i :: 0 <= i < |sel| ==> sel[i].item in g.movies
    ensures forall i, j :: 0 <= i < j < |sel| ==> RanksAbove(g, sel[i].item, sel[j].item)
    ensures forall i, j :: 0 <= i < j < |sel| ==> sel[i].item != sel[j].item
  {
    var rows := ByRank(g);
    assert forall i :: 0 <= i < |sel| ==> sel[i] in rows;
    forall i, j | 0 <= i < j < |sel| ensures RanksAbove(g, sel[i].item, sel[j].item) {
      RankKeyOrder(g, sel[i].item, sel[j].item);
    }
  }

  /** A catalog movie the selection leaves out ranks no higher than any
      movie it keeps. */
  lemma {:induction false} TopLeftOut(g: Graph, limit: nat, sel: seq<Keyed<Movie>>, m: Movie)
    requires sel == TopK(ByRank(g), limit)
    requires m in g.movies && forall i :: 0 <= i < |sel| ==> sel[i].item != m
    ensures forall i :: 0 <= i < |sel| ==> RanksAbove(g, sel[i].item, m)
  {
    var rows := ByRank(g);
    var x := Keyed(RankKey(g, m), m);
    assert x in rows && x !in sel;
    TopKBelow(rows, limit, x);
    forall i | 0 <= i < |sel| ensures RanksAbove(g, sel[i].item, m) {
      assert sel[i] in rows;
      RankKeyOrder(g, sel[i].item, m);
    }
  }

  /** The ranked listing records of the selection, with the facts of `TopOrder`. */
  lemma {:induction false} TopFacts(g: Graph, limit: nat, sel: seq<Keyed<Movie>>)
    requires sel == TopK(ByRank(g), limit)
    ensures forall i :: 0 <= i < |sel| ==>
      && RankedListings(g, sel)[i].movie in g.movies
      && RankedListings(g, sel)[i].popularity == Some(Popularity(g, RankedListings(g, sel)[i].movie.id))
      && RankedListings(g, sel)[i] == Listing(g, RankedListings(g, sel)[i].movie, RankedListings(g, sel)[i].popularity)
    ensures forall i, j :: 0 <= i < j < |sel| ==>
      RanksAbove(g, RankedListings(g, sel)[i].movie, RankedListings(g, sel)[j].movie)
    ensures forall i, j :: 0 <= i < j < |sel| ==>
      RankedListings(g, sel)[i].movie != RankedListings(g, sel)[j].movie
  {
    RankedListingsShowRows(g, sel);
    TopOrder(g, limit, sel);
  }

  /** A catalog movie the records leave out ranks no higher than any listed. */
  lemma {:induction false} TopOmitted(g: Graph, limit: nat, sel: seq<Keyed<Movie>>)
    requires sel == TopK(ByRank(g), limit)
    ensures forall m :: m in g.movies && !Lists(RankedListings(g, sel), m) ==>
      forall i :: 0 <= i < |sel| ==> RanksAbove(g, RankedListings(g, sel)[i].movie, m)
  {
    RankedListingsShowRows(g, sel);
    forall m | m in g.movies && !Lists(RankedListings(g, sel), m)
      ensures forall i :: 0 <= i < |sel| ==> RanksAbove(g, RankedListings(g, sel)[i].movie, m)
    {
      TopLeftOut(g, limit, sel, m);
    }
  }

  /** When the catalog fits in the limit, every movie is ranked, including
      those nobody liked. */
  lemma {:induction false} TopComplete(g: Graph, limit: nat, sel: seq<Keyed<Movie>>)
    requires sel == TopK(ByRank(g), limit)
    ensures |g.movies| <= limit ==> forall m :: m in g.movies ==> Lists(RankedListings(g, sel), m)
  {
    if |g.movies| <= limit {
      TopSelectsAll(g, limit, sel);
    }
    RankedListingsShowRows(g, sel);
  }

  /** A catalog that fits in the limit is selected whole. */
  lemma TopSelectsAll(g: Graph, limit: nat, sel: seq<Keyed<Movie>>)
    requires sel == TopK(ByRank(g), limit) && |g.movies| <= limit
    ensures forall m :: m in g.movies ==> exists i :: 0 <= i < |sel| && sel[i].item == m
  {
    forall m | m in g.movies
      ensures exists i :: 0 <= i < |sel| && sel[i].item == m
    {
      TopKKeeps(ByRank(g), limit, Keyed(RankKey(g, m), m));
    }
  }

  /** `get_top_movies(limit)`: at most `limit` movies of the catalog, each
      carrying its count of positive interactions, most popular first and
      newest first among equals, none twice; every movie left out ranks no
      higher than every movie returned, and none is left out when the
      catalog fits. */
  function GetTopMovies(g: Graph, limit: int): (r: Result<seq<MovieView>, QueryError>)
    ensures r.Failure? <==> limit < 0
    ensures r.Success? ==>
      && |r.value| <= limit
      && (forall i :: 0 <= i < |r.value| ==>
            && r.value[i].movie in g.movies
            && r.value[i].popularity == Some(|PositiveInteractions(g.interactions, r.value[i].movie.id)|)
            && r.value[i] == Listing(g, r.value[i].movie, r.value[i].popularity))
      && (forall i, j :: 0 <= i < j < |r.value| ==> RanksAbove(g, r.value[i].movie, r.value[j].movie))
      && (forall i, j :: 0 <= i < j < |r.value| ==> r.value[i].movie != r.value[j].movie)
      && (forall m :: m in g.movies && !Lists(r.value, m) ==>
            forall i :: 0 <= i < |r.value| ==> RanksAbove(g, r.value[i].movie, m))
      && (|g.movies| <= limit ==> forall m :: m in g.movies ==> Lists(r.value, m))
      && (NoDup(g.movies) ==> |r.value| == if |g.movies| < limit then |g.movies| else limit)
  {
    if limit < 0 then Failure(NegativeLimit)
    else
      var sel := TopK(ByRank(g), limit);
      TopFacts(g, limit, sel);
      TopOmitted(g, limit, sel);
      TopComplete(g, limit, sel);
      Success(RankedListings(g, sel))
  }
}

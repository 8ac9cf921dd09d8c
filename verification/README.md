# Movie feedback and catalog queries: a Dafny model

This project models two pieces of a movie recommendation back end that stores
its data in a Neo4j property graph and talks to it in Cypher.

- **Feedback** (`InteractionController.add_interaction`):
  - A user likes or dislikes a movie.
  - The single `INTERACTED` edge of the (user, movie) pair is upserted.
  - The `peso` of each of the movie's catalog edges is shifted by the signed
    weight times the coefficient of the edge's category. The coefficients are
    genre 0.10, director 0.10, actor 0.07 and season 0.05.
  - The call reports how many edges of each category it shifted.
- **Catalog queries** (`MovieController`): single-movie lookup, the popularity
  ranking, the latest movies, title search, the season filter and the
  multi-criteria advanced search. Each query is a filter, a sort on stated
  keys and a bounded take. Then comes the grouping that Cypher's `RETURN`
  performs on the returned movie record.

The graph is an immutable value, `Graph.Graph`:

- the users;
- the movies, in the store's enumeration order;
- the catalog edges `Movie -> attribute node`. An edge's identity is its
  position, and its target node is embedded by value with its labels, its
  `name` and its `nombre`;
- the `INTERACTED` edges, as a map keyed by the (user, movie) pair. This is
  how `MERGE` keeps them single.

Operations are pure functions. Cypher is modelled as follows:

- `OPTIONAL MATCH ... SET` stages are sequence maps, and `COUNT` is the size
  of the set of edge indices a stage matches.
- `ORDER BY` is a stable insertion sort on integer-sequence keys.
  `Sorting.TopK` is that sort, then `LIMIT`, then the deduplication the
  grouping `RETURN` does.
- `toLower(x) CONTAINS toLower(q)` is `Text.ContainsCI`.

Modules:

- `Wrappers`, `Seqs`, `Text`, `Sorting`: option and result types, sequence
  helpers, case folding and substring search, and keyed sorting.
- `Graph`: the data model, the patterns each category's edge must match, and
  popularity.
- `Interactions`: `add_interaction` and the properties of repeated feedback.
- `MovieQueries`: `get_movie`, `get_latest_movies` and `get_top_movies`.
- `MovieSearch`: `search_movies`, `get_movies_by_season` and
  `advanced_search`.

Some facts about the code shape the model:

- Feedback shifts the `peso` of the movie's own catalog edges. The code keeps
  no per-user preference edges besides the single `INTERACTED` edge.
- A missing `peso` counts as 0 (`coalesce(rel.peso, 0)`).
- The season relationship is spelled `APPROPIATE_FOR_SEASON` throughout.
- Only `:Season`-labelled targets are shifted, while the read queries accept
  season targets with any label.

## Model

| member | source | states |
|---|---|---|
| Interactions.WeightOf | controllers/interaction_controller.py:8-11 | The weight is +1.0 exactly when the type is "like"; every other string gives -1.0, with no rejection. |
| Interactions.CheckQuery | controllers/interaction_controller.py:13-22 | The existence check returns no row exactly when the user is missing. A row it returns always says the user exists, and says the movie exists exactly when some movie has the id. |
| Interactions.AddInteraction | controllers/interaction_controller.py:7-66 | Fails exactly when the user or the movie is missing: a missing user gives the no-row error, a missing movie gives movie-not-found. On success, users and movies are unchanged, the pair holds one `INTERACTED` edge with the latest type and weight, and other pairs are untouched. Each qualifying catalog edge moves once by weight times its coefficient, and other movies' edges and non-`:Season` season edges are untouched. The returned id and title are the movie's, and each count equals the number of qualifying edges of its category. |
| Interactions.Stage | controllers/interaction_controller.py:42-55 | One `OPTIONAL MATCH ... SET` stage keeps every edge. An edge the stage's pattern matches gets `coalesce(peso, 0)` plus the category's delta, and every other edge is unchanged. |
| Interactions.CountQualifying | controllers/interaction_controller.py:42-56 | `COUNT(rel)` equals the number of distinct catalog edges the stage's pattern matches, 0 when none do. |
| Interactions.StageKeepsMatches | controllers/interaction_controller.py:42-55 | Setting `peso` in one stage never changes which edges a later stage matches. |
| Interactions.AllStagesIsDrift | controllers/interaction_controller.py:42-55 | The four sequential stages (genre, director, actor, season) equal a single-pass reference that shifts each edge by its own category's delta, so no edge is shifted twice. |
| Interactions.CatalogEffect | controllers/interaction_controller.py:42-55 | The stages keep every edge and its endpoints. A qualifying edge gets `coalesce(peso, 0) + w * coefficient`. Edges of other movies, season edges to targets not labelled `Season`, and all non-qualifying edges keep their value. |
| Interactions.CatalogUpdatesCompose | controllers/interaction_controller.py:42-55 | Two updates of the same movie shift each qualifying edge by the sum of the two deltas and leave every other edge alone. |
| Interactions.RepeatedLikeAccumulates | controllers/interaction_controller.py:34-55 | Liking twice succeeds both times and shifts every qualifying `peso` by twice the like delta. The pair still has a single "like" edge. |
| Interactions.LikesAdd | controllers/interaction_controller.py:42-55 | Two +1 updates of the same movie shift each qualifying edge's `coalesce(peso, 0)` by twice that category's like delta. |
| Interactions.CatalogRestored | controllers/interaction_controller.py:42-55 | A +1 update followed by a -1 update restores every edge's `coalesce(peso, 0)`, and restores exactly every edge whose `peso` was set. |
| Interactions.LikeThenDislikeRestores | controllers/interaction_controller.py:34-55 | A like followed by any other type restores every edge's effective `peso` (exactly, where one was set), and the pair's edge then holds the other type with weight -1.0. |
| Interactions.PositiveAfterRecord | controllers/interaction_controller.py:34-38 | After the upsert, a movie's positive-edge count loses the pair's edge if it was positive and gains it if the new type is "like". Other movies' counts are unchanged. |
| Interactions.PopularityAfterInteraction | controllers/movie_controller.py:253-256 | The popularity that `get_top_movies` ranks by moves by at most one after a feedback call, exactly as the pair's edge changes sign. Every other movie's popularity is unchanged. |
| Graph.Delta | controllers/interaction_controller.py:43-55 | Each category's shift has the sign of the weight and is zero exactly when the weight is zero. |
| Graph.QualifiesOnlyOwnCategory | controllers/interaction_controller.py:42-54 | An edge matches at most one stage: the one of its relationship type. |
| Graph.Popularity | controllers/movie_controller.py:253-256 | `COUNT(r)` over the movie's `INTERACTED` edges with positive weight: at most the number of such edges in the graph, and positive exactly when some user's edge to the movie has positive weight. |
| Graph.Names | controllers/movie_controller.py:8-11 | The non-null names reached by a category's `OPTIONAL MATCH` pattern: a name is listed exactly when some edge of the movie matching the pattern carries it. |
| Graph.NamesCount | controllers/movie_controller.py:8-11 | There is one listed name per matching edge that carries a name, so repeated names are kept until `COLLECT(DISTINCT ...)`. |
| Graph.AttrList | controllers/movie_controller.py:18-21 | `COLLECT(DISTINCT ...)` has no duplicates and holds exactly the names the pattern reaches. |
| Graph.FindMovie | controllers/movie_controller.py:7 | No movie is found exactly when no movie has the id; a movie found is in the catalog and has the id. |
| MovieQueries.Detail | controllers/movie_controller.py:12-21 | The record holds the movie and, for each category, a duplicate-free list of exactly the names its pattern reaches. |
| MovieQueries.GetMovie | controllers/movie_controller.py:5-32 | `None` exactly when no movie has the id; otherwise that movie with duplicate-free genre, actor, director and season lists holding every reached name. |
| MovieQueries.Listing | controllers/movie_controller.py:90-93 | Listing records cap actors at three, taken from `get_movie`'s actor list: exactly three when it lists at least three, all of them when it lists three or fewer. With both `COLLECT` lists in catalog order, the three are a prefix of that list. The other lists are `get_movie`'s. |
| MovieQueries.LatestOrder | controllers/movie_controller.py:76-79 | The selected rows are catalog movies, newest first and distinct. |
| MovieQueries.LatestLeftOut | controllers/movie_controller.py:76-79 | A catalog movie left out of the selection is no newer than any selected movie. |
| MovieQueries.LatestOmitted | controllers/movie_controller.py:76-79 | A catalog movie missing from the listing records is no newer than any listed movie. |
| MovieQueries.LatestComplete | controllers/movie_controller.py:76-79 | When the catalog fits in the limit, every movie is selected. |
| MovieQueries.GetLatestMovies | controllers/movie_controller.py:74-105 | A negative limit is an error. Otherwise the result has at most `limit` catalog movies with their listing records, year descending, none twice. When catalog movies are distinct it has exactly `limit` of them, or the whole catalog when that is smaller. Every omitted movie is no newer than every listed one, and none is omitted when the catalog fits. |
| MovieQueries.RankKeyOrder | controllers/movie_controller.py:257 | The sort key orders movies by positive interactions descending, then year descending. |
| MovieQueries.TopOrder | controllers/movie_controller.py:253-258 | The selected rows are catalog movies in rank order, and distinct. |
| MovieQueries.TopLeftOut | controllers/movie_controller.py:253-258 | A catalog movie left out of the selection ranks no higher than any selected movie. |
| MovieQueries.TopOmitted | controllers/movie_controller.py:253-258 | A catalog movie missing from the ranked records ranks no higher than any listed movie. |
| MovieQueries.TopComplete | controllers/movie_controller.py:253-256 | When the catalog fits in the limit, every movie is ranked, including those with no positive interaction. |
| MovieQueries.GetTopMovies | controllers/movie_controller.py:250-285 | A negative limit is an error. Otherwise the result has at most `limit` catalog movies, each carrying its count of positive `INTERACTED` edges. They are ordered by that count descending, then year descending, with none twice. When catalog movies are distinct there are exactly `limit` of them, or the whole catalog when that is smaller. Every omitted movie ranks no higher than every listed one, and a catalog that fits is listed whole, zero-popularity movies included. |
| MovieSearch.SearchSelection | controllers/movie_controller.py:144-160 | The first twenty distinct title matches are matching catalog movies. There are fewer than twenty only when all of them are taken. |
| MovieSearch.SearchMovies | controllers/movie_controller.py:142-172 | At most twenty records of distinct catalog movies, each a listing record whose title contains the keyword case-insensitively. With fewer than twenty, every matching movie is listed. |
| MovieSearch.TitleMatches | controllers/movie_controller.py:144-145 | The filter keeps exactly the catalog movies whose lowered title contains the lowered keyword. |
| MovieSearch.SearchIgnoresKeywordCase | controllers/movie_controller.py:145 | Searching with the keyword lower-cased gives the same records. |
| MovieSearch.EmptyKeywordListsCatalog | routes/movie_routes.py:34-38 | The route's default empty keyword lists the first twenty distinct catalog movies. |
| MovieSearch.Hits | controllers/movie_controller.py:186-207 | The per-name filter `toLower(x.name) CONTAINS toLower($q)` keeps exactly the reached names that contain the criterion case-insensitively, and no more names than it is given. |
| MovieSearch.HitsCount | controllers/movie_controller.py:110-111 | Filtering a movie's names by the keyword leaves one name per matching edge whose name contains the keyword. |
| MovieSearch.SeasonRows | controllers/movie_controller.py:110-111 | The rows are exactly the (movie, season) pairs whose season edge's displayed name (`name`, else `nombre`) contains the argument case-insensitively, for any target label, keyed by year. There is one row per such edge. |
| MovieSearch.SeasonOrder | controllers/movie_controller.py:110-114 | The selected (movie, season) rows match the filter, are newest first and are distinct. |
| MovieSearch.SeasonLeftOut | controllers/movie_controller.py:112-114 | A matching (movie, season) pair left out of the selection is no newer than any selected row. |
| MovieSearch.SeasonOmitted | controllers/movie_controller.py:112-114 | A matching (movie, season) pair missing from the records is no newer than any listed record. |
| MovieSearch.SeasonComplete | controllers/movie_controller.py:110-114 | When the matching rows fit in twenty, every matching (movie, season) pair is listed. |
| MovieSearch.GetMoviesBySeason | controllers/movie_controller.py:108-139 | At most twenty records, newest first. Each has one season, a matching name the movie's season edge reaches; otherwise it is the listing record. A movie may appear once per matching season, but no (movie, season) pair repeats. No omitted pair is newer than a listed one, and none is omitted when the rows fit. When no row repeats, there are exactly twenty records, or one per row when fewer; the result is non-empty whenever any pair matches. |
| MovieSearch.SeasonRowsNonEmpty | controllers/movie_controller.py:110-111 | When some catalog movie has a matching season edge, the filtered (movie, season) rows are non-empty. |
| MovieSearch.SeasonShownByDetail | controllers/movie_controller.py:127 | The season a season-query record shows is one that `get_movie` lists for that movie. |
| MovieSearch.Factor | controllers/movie_controller.py:183-209 | A supplied criterion's clause leaves one row per edge of that category whose name contains the criterion, so a positive number exactly when the movie has a matching attribute. An absent or empty criterion leaves one row. |
| MovieSearch.Copies | controllers/movie_controller.py:183-215 | The chained `MATCH` clauses leave rows for a movie exactly when it meets every supplied criterion. A satisfying movie leaves the product of its four per-criterion match counts. |
| MovieSearch.AdvancedRows | controllers/movie_controller.py:179-219 | The rows reaching `ORDER BY m.title` are exactly the satisfying catalog movies, keyed by title. |
| MovieSearch.AdvancedRowsCount | controllers/movie_controller.py:183-209 | The number of rows reaching `ORDER BY` (and counted by `LIMIT 50`) is the sum, over satisfying movies, of the product of each movie's per-criterion match counts. |
| MovieSearch.AdvancedOrder | controllers/movie_controller.py:217-220 | The selected rows are satisfying movies in title order, with none twice. |
| MovieSearch.AdvancedLeftOut | controllers/movie_controller.py:217-220 | A satisfying catalog movie left out of the selection sorts no earlier by title than any selected movie. |
| MovieSearch.AdvancedComplete | controllers/movie_controller.py:217-220 | When the matched rows fit in fifty, every satisfying movie is listed. |
| MovieSearch.AdvancedSearchCorrected | controllers/movie_controller.py:174-247 | With the title ANDed in: at most fifty distinct catalog movies, each meeting every supplied criterion, in title order. Satisfying movies left out sort no earlier than any listed one, and none is left out when the rows fit. When no row repeats, there are exactly fifty records, or one per row when fewer; the result is non-empty whenever any movie satisfies. |
| MovieSearch.AdvancedRowsNonEmpty | controllers/movie_controller.py:179-219 | When some catalog movie meets every supplied criterion, the rows reaching `ORDER BY` are non-empty. |
| MovieSearch.AdvancedSearch | controllers/movie_controller.py:211-215 | Fails with a malformed query exactly when a title is supplied together with another criterion; otherwise it returns the corrected search. |
| MovieSearch.TitleWithGenreCounterexample | controllers/movie_controller.py:183-215 | For a one-movie catalog whose movie "Up" has genre "Drama", searching by title "Up" and genre "Drama" fails, although the movie meets both criteria and the corrected search lists it. |
| Text.ContainsIffOccurs | controllers/movie_controller.py:145 | `CONTAINS` holds exactly when the pattern occurs at some position of the text. |
| Text.ContainsCIIgnoresCase | controllers/movie_controller.py:145 | The case-insensitive test gives the same answer on lowered arguments. |
| Text.EmptyKeywordMatches | controllers/movie_controller.py:145 | Every title contains the empty keyword. |
| Sorting.Sort | controllers/movie_controller.py:78 | The sort's output is ordered by key and is a permutation of its input. |
| Sorting.TopK | controllers/movie_controller.py:77-79 | Sort, limit and group give sorted, duplicate-free rows, at most `k` of them, all from the input. Distinct input rows fill the limit (or give all rows when fewer), and a positive limit over some rows keeps at least one. Every row left out sorts no earlier than every row kept, and nothing is left out when the input fits. |

## Left out

- `get_all_movies`: its order is `ORDER BY rand()`, a random source outside the model.
- `MovieRecommender`: it is a Neo4j Graph Data Science PageRank projection, a foreign library. The routes call recommendation functions that the controller does not define.
- Authentication (bcrypt hashing), and the user, actor, genre and director controllers: each is a single trivial statement or a foreign crypto call.
- The Flask routes: request parsing and status mapping. The only route behaviour used is the default empty search keyword. The advanced-search route's 400 for no criteria is not modelled, because the controller itself handles an empty parameter set: it lists the first fifty movies by title.
- The `Neo4jConnection` driver and sessions. Also, `add_interaction` runs its check and its write in two connections, so the pair is not atomic. The model runs them in sequence; concurrency is out of scope.
- `datetime()` timestamps on `INTERACTED` edges and the DEBUG prints.
- Floating-point rounding of `peso`: weights and deltas are exact reals.
- `toLower` folds only ASCII letters here, because Unicode case mapping is not modelled.
- Null `year` and `title` properties: every movie has an integer year and a string title.
- Several nodes sharing one `id`: the model identifies movies and users by id, so the row multiplication such duplicates cause in `add_interaction` and in the per-movie aggregations is not modelled.
- Interactions.AddInteraction: the source raises `IndexError` for a missing user and `ValueError` for a missing movie. Both become a `Failure` before any write, told apart by the error value. The `ValueError` for a user row with `user_exists` false is unreachable, since the check returns no row for a missing user, and it is not modelled as a branch.
- MovieQueries.GetTopMovies: Cypher leaves the order of equally ranked rows unspecified. The model breaks ties by catalog order, and its contract says nothing about ties.
- MovieQueries.GetLatestMovies: ties in year are broken by catalog order, and the contract says nothing about them.
- MovieSearch.AdvancedSearchCorrected: `LIMIT 50` counts rows, and a movie matching a criterion through several edges makes several rows (`AdvancedRowsCount` gives their number). So completeness is promised only when the matched rows, not the satisfying movies, number fifty or fewer. When rows repeat, grouping merges them and the exact result size is not stated: the result is only promised to be non-empty when some movie satisfies.
- MovieSearch.GetMoviesBySeason: two edges of one movie to seasons with the same name make repeated rows that grouping merges. In that case only the bounds are stated (at most twenty, non-empty when some pair matches), not the exact result size.
- MovieQueries.Listing: every `COLLECT` list is modelled in catalog-edge order. Cypher does not fix the order of `COLLECT`, and `get_movie` and the listing queries are separate queries, so the source does not promise that the three listed actors are the first three `get_movie` lists.
- Sorted order of the returned records (`get_top_movies`, `get_latest_movies`, `get_movies_by_season`, `advanced_search`): the grouping `RETURN` after `ORDER BY ... LIMIT` is modelled as keeping the order of the limited rows. Cypher does not promise that an aggregating `RETURN` keeps row order, so the order contracts hold for the model under this assumption.
- MovieSearch.SearchMovies: the order of the returned groups is not fixed by the query. The model keeps catalog order, and the contract states no order.

## Findings

| source | as written | input that shows it | evidently intended | confidence | as-written member | corrected member |
|---|---|---|---|---|---|---|
| controllers/movie_controller.py:211-215 | The title test is appended as a bare `WHERE` right after the last criterion's `MATCH ... WHERE`, so with any other criterion the query holds two consecutive `WHERE` clauses, which Cypher rejects. | A catalog holding the movie "Up" of genre "Drama", searched with title "Up" and genre "Drama". | The title test ANDed with the other criteria. | high; not executed | MovieSearch.AdvancedSearch | MovieSearch.AdvancedSearchCorrected |

/** `InteractionController.add_interaction`: records a like or dislike of a
    movie by a user and shifts the `peso` of the movie's own catalog edges
    by the signed weight times each category's coefficient. */
module Interactions {
  import opened Wrappers
  import opened Graph

  /** The source raises before any write: an IndexError when the existence
      check returns no row (the user is missing), a ValueError when the
      movie is missing. */
  datatype FeedbackError = NoUserRow | MovieNotFound

  /** One row of the existence check query. */
  datatype CheckRow = CheckRow(userExists: bool, movieExists: bool)

  /** Number of catalog edges incremented per category. */
  datatype Counts = Counts(genre: nat, director: nat, actor: nat, season: nat)

  /** The returned record: the movie's id and title and the counts. */
  datatype Feedback = Feedback(movieId: MovieId, title: string, updated: Counts)

  /** The signed weight of an interaction type: +1 exactly for "like", -1
      for every other string. */
  function WeightOf(kind: string): (w: real)
    ensures w == 1.0 <==> kind == "like"
    ensures w == 1.0 || w == -1.0
  {
    if kind == "like" then 1.0 else -1.0
  }

  /** `MATCH (u:User {id}) OPTIONAL MATCH (m:Movie {id}) RETURN ...`: no row
      when the user is missing, so a returned row never says the user is
      missing and the source's `user_exists` test cannot fail. */
  function CheckQuery(g: Graph, u: UserId, m: MovieId): (rows: seq<CheckRow>)
    ensures rows == [] <==> u !in g.users
    ensures forall r :: r in rows ==> r.userExists
    ensures forall r :: r in rows ==> (r.movieExists <==> exists mv :: mv in g.movies && mv.id == m)
  {
    if u in g.users then [CheckRow(true, FindMovie(g.movies, m).Some?)] else []
  }

  /** `SET e.peso = coalesce(e.peso, 0) + delta`. */
  function Bump(e: CatalogEdge, delta: real): (r: CatalogEdge)
    ensures r.src == e.src && r.rel == e.rel && r.dst == e.dst
    ensures r.peso == Some(PesoOf(e) + delta)
  {
    e.(peso := Some(PesoOf(e) + delta))
  }

  /** What one `OPTIONAL MATCH (m)-[rel:REL]->(:Label) SET rel.peso = ...`
      stage does to one edge. */
  function StageEdge(e: CatalogEdge, m: MovieId, c: Category, w: real): (r: CatalogEdge)
    ensures r.src == e.src && r.rel == e.rel && r.dst == e.dst
  {
    if Qualifies(e, m, c) then Bump(e, Delta(w, c)) else e
  }

  /** One stage over the whole catalog. */
  function Stage(es: seq<CatalogEdge>, m: MovieId, c: Category, w: real): (r: seq<CatalogEdge>)
    ensures |r| == |es|
    ensures forall i :: 0 <= i < |es| ==> r[i] == StageEdge(es[i], m, c, w)
    ensures forall i :: 0 <= i < |es| && Qualifies(es[i], m, c) ==>
      r[i] == es[i].(peso := Some(PesoOf(es[i]) + Delta(w, c)))
    ensures forall i :: 0 <= i < |es| && !Qualifies(es[i], m, c) ==> r[i] == es[i]
  {
    seq(|es|, i requires 0 <= i < |es| => StageEdge(es[i], m, c, w))
  }

  /** The indices of the edges a stage for category `c` matches. */
  ghost function QualifyingEdges(es: seq<CatalogEdge>, m: MovieId, c: Category): set<int> {
    set i | 0 <= i < |es| && Qualifies(es[i], m, c)
  }

  /** `COUNT(rel)` after a stage: the number of edges it matched. */
  function CountQualifying(es: seq<CatalogEdge>, m: MovieId, c: Category): (n: nat)
    ensures n == |QualifyingEdges(es, m, c)|
    decreases |es|
  {
    if |es| == 0 then
      assert QualifyingEdges(es, m, c) == {};
      0
    else
      var init := es[..|es| - 1];
      var n0 := CountQualifying(init, m, c);
      assert forall i :: 0 <= i < |init| ==> init[i] == es[i];
      if Qualifies(es[|es| - 1], m, c) then
        assert QualifyingEdges(es, m, c) == QualifyingEdges(init, m, c) + {|es| - 1};
        n0 + 1
      else
        assert QualifyingEdges(es, m, c) == QualifyingEdges(init, m, c);
        n0
  }

  /** Incrementing never changes which edges a stage matches. */
  lemma StageKeepsMatches(es: seq<CatalogEdge>, m: MovieId, c: Category, w: real, c': Category)
    ensures QualifyingEdges(Stage(es, m, c, w), m, c') == QualifyingEdges(es, m, c')
  {
  }

  /** Reference definition of the whole update on one edge: an edge of the
      movie whose target carries its category's label moves by
      `Delta(w, c)`; every other edge stays as it was. */
  function Drift(e: CatalogEdge, m: MovieId, w: real): CatalogEdge {
    if Qualifies(e, m, CategoryOf(e.rel)) then Bump(e, Delta(w, CategoryOf(e.rel))) else e
  }

  /** The genre, director, actor and season stages in the source's order. */
  function AllStages(es: seq<CatalogEdge>, m: MovieId, w: real): seq<CatalogEdge> {
    Stage(Stage(Stage(Stage(es, m, Genre, w), m, Director, w), m, Actor, w), m, Season, w)
  }

  /** On one edge the four stages in a row are the reference `Drift`: only
      the stage of the edge's own category can match it. */
  lemma StagesOnEdgeIsDrift(e: CatalogEdge, m: MovieId, w: real)
    ensures StageEdge(StageEdge(StageEdge(StageEdge(e, m, Genre, w), m, Director, w), m, Actor, w), m, Season, w)
         == Drift(e, m, w)
  {
    var e1 := StageEdge(e, m, Genre, w);
    var e2 := StageEdge(e1, m, Director, w);
    var e3 := StageEdge(e2, m, Actor, w);
    match e.rel
    case HasGenre =>
      assert e2 == e1 && e3 == e1;
    case DirectedBy =>
      assert e1 == e && e3 == e2;
    case HasActor =>
      assert e1 == e && e2 == e;
    case AppropiateForSeason =>
      assert CategoryOf(e.rel) == Season;
      assert e1 == e && e2 == e && e3 == e;
  }

  /** The four sequential stages touch every edge at most once, so together
      they equal the single-pass reference `Drift`. */
  lemma {:induction false} AllStagesIsDrift(es: seq<CatalogEdge>, m: MovieId, w: real)
    ensures |AllStages(es, m, w)| == |es|
    ensures forall i :: 0 <= i < |es| ==> AllStages(es, m, w)[i] == Drift(es[i], m, w)
  {
    forall i | 0 <= i < |es| ensures AllStages(es, m, w)[i] == Drift(es[i], m, w) {
      StagesOnEdgeIsDrift(es[i], m, w);
    }
  }

  /** What the update does to one edge, stated per category. */
  lemma DriftEffect(e: CatalogEdge, m: MovieId, w: real)
    ensures Drift(e, m, w).src == e.src && Drift(e, m, w).rel == e.rel && Drift(e, m, w).dst == e.dst
    ensures forall c :: Qualifies(e, m, c) ==> Drift(e, m, w).peso == Some(PesoOf(e) + Delta(w, c))
    ensures (forall c :: !Qualifies(e, m, c)) ==> Drift(e, m, w) == e
  {
    forall c | Qualifies(e, m, c)
      ensures Drift(e, m, w).peso == Some(PesoOf(e) + Delta(w, c))
    {
      assert c == CategoryOf(e.rel);
    }
  }

  /** How the catalog `es'` after an update of movie `m` with weight `w`
      relates to the catalog `es` before it: the same edges with the same
      endpoints; each edge that qualifies for a category moves once by that
      category's `Delta`; every other edge, in particular every edge of
      another movie and every season edge whose target is not labelled
      `Season`, is unchanged. */
  ghost predicate CatalogUpdated(es: seq<CatalogEdge>, es': seq<CatalogEdge>, m: MovieId, w: real) {
    && |es'| == |es|
    && (forall i :: 0 <= i < |es| ==>
          es'[i].src == es[i].src && es'[i].rel == es[i].rel && es'[i].dst == es[i].dst)
    && (forall i, c :: 0 <= i < |es| && Qualifies(es[i], m, c) ==>
          es'[i].peso == Some(PesoOf(es[i]) + Delta(w, c)))
    && (forall i :: 0 <= i < |es| && (forall c :: !Qualifies(es[i], m, c)) ==> es'[i] == es[i])
    && (forall i :: 0 <= i < |es| && es[i].src != m ==> es'[i] == es[i])
    && (forall i :: 0 <= i < |es| && es[i].rel == AppropiateForSeason && SeasonLabel !in es[i].dst.labels
          ==> es'[i] == es[i])
  }

  /** The four stages make exactly the change `CatalogUpdated` describes. */
  lemma {:induction false} CatalogEffect(es: seq<CatalogEdge>, m: MovieId, w: real)
    ensures CatalogUpdated(es, AllStages(es, m, w), m, w)
  {
    var es' := AllStages(es, m, w);
    AllStagesIsDrift(es, m, w);
    forall i | 0 <= i < |es| {
      DriftEffect(es[i], m, w);
    }
    forall i | 0 <= i < |es| && es[i].rel == AppropiateForSeason && SeasonLabel !in es[i].dst.labels
      ensures es'[i] == es[i]
    {
      assert !Qualifies(es[i], m, Season);
    }
  }

  /** How the `INTERACTED` edges after the upsert relate to those before:
      one edge for (u, m) holding the latest type and weight, every other
      edge as it was, no other edge added. */
  ghost predicate InteractionRecorded(
    ints: map<(UserId, MovieId), Interaction>, ints': map<(UserId, MovieId), Interaction>,
    u: UserId, m: MovieId, kind: string)
  {
    && ints'.Keys == ints.Keys + {(u, m)}
    && ints'[(u, m)] == Interaction(kind, WeightOf(kind))
    && (forall k :: k in ints && k != (u, m) ==> ints'[k] == ints[k])
  }

  /** `add_interaction(user_id, movie_id, interaction_type)` as a transition
      of the graph: fails before any write when the user or the movie is
      missing; otherwise upserts the single `INTERACTED` edge with the
      latest type and weight, moves the `peso` of each of the movie's
      qualifying catalog edges by `weight * coefficient` exactly once,
      leaves everything else as it was, and reports the movie and the
      number of edges moved per category. */
  function AddInteraction(g: Graph, u: UserId, m: MovieId, kind: string): (r: Result<(Graph, Feedback), FeedbackError>)
    ensures r.Failure? <==> u !in g.users || forall mv :: mv in g.movies ==> mv.id != m
    ensures r.Failure? ==> (r.error == NoUserRow <==> u !in g.users)
    ensures r.Success? ==>
      && r.value.0.users == g.users
      && r.value.0.movies == g.movies
      && InteractionRecorded(g.interactions, r.value.0.interactions, u, m, kind)
      && CatalogUpdated(g.catalog, r.value.0.catalog, m, WeightOf(kind))
    ensures r.Success? ==>
      && r.value.1.movieId == m
      && (exists mv :: mv in g.movies && mv.id == m && mv.title == r.value.1.title)
      && r.value.1.updated.genre == |QualifyingEdges(g.catalog, m, Genre)|
      && r.value.1.updated.director == |QualifyingEdges(g.catalog, m, Director)|
      && r.value.1.updated.actor == |QualifyingEdges(g.catalog, m, Actor)|
      && r.value.1.updated.season == |QualifyingEdges(g.catalog, m, Season)|
  {
    var rows := CheckQuery(g, u, m);
    if rows == [] then Failure(NoUserRow)
    else if !rows[0].movieExists then Failure(MovieNotFound)
    else
      var movie := FindMovie(g.movies, m).value;
      var w := WeightOf(kind);
      var s1 := Stage(g.catalog, m, Genre, w);
      var s2 := Stage(s1, m, Director, w);
      var s3 := Stage(s2, m, Actor, w);
      var s4 := Stage(s3, m, Season, w);
      var counts := Counts(
        CountQualifying(g.catalog, m, Genre),
        CountQualifying(s1, m, Director),
        CountQualifying(s2, m, Actor),
        CountQualifying(s3, m, Season));
      StageKeepsMatches(g.catalog, m, Genre, w, Director);
      StageKeepsMatches(g.catalog, m, Genre, w, Actor);
      StageKeepsMatches(s1, m, Director, w, Actor);
      StageKeepsMatches(g.catalog, m, Genre, w, Season);
      StageKeepsMatches(s1, m, Director, w, Season);
      StageKeepsMatches(s2, m, Actor, w, Season);
      CatalogEffect(g.catalog, m, w);
      assert s4 == AllStages(g.catalog, m, w);
      var g' := g.(interactions := g.interactions[(u, m) := Interaction(kind, w)], catalog := s4);
      Success((g', Feedback(m, movie.title, counts)))
  }

  /** Two updates of the same movie compose: each qualifying edge moves by
      the sum of the two deltas, every other edge is unchanged. */
  lemma {:induction false} CatalogUpdatesCompose(
    es: seq<CatalogEdge>, es1: seq<CatalogEdge>, es2: seq<CatalogEdge>, m: MovieId, w1: real, w2: real)
    requires CatalogUpdated(es, es1, m, w1) && CatalogUpdated(es1, es2, m, w2)
    ensures |es2| == |es|
    ensures forall i, c :: 0 <= i < |es| && Qualifies(es[i], m, c) ==>
      es2[i].peso == Some(PesoOf(es[i]) + Delta(w1, c) + Delta(w2, c))
    ensures forall i :: 0 <= i < |es| && (forall c :: !Qualifies(es[i], m, c)) ==> es2[i] == es[i]
  {
    forall i, c | 0 <= i < |es| && Qualifies(es[i], m, c)
      ensures es2[i].peso == Some(PesoOf(es[i]) + Delta(w1, c) + Delta(w2, c))
    {
      assert Qualifies(es1[i], m, c);
    }
    forall i | 0 <= i < |es| && (forall c :: !Qualifies(es[i], m, c))
      ensures es2[i] == es[i]
    {
      assert es1[i] == es[i];
    }
  }

  /** One like by a known user of a known movie succeeds, keeps the user
      and movie lists, records the like and moves the catalog by +1. */
  lemma LikeStep(g: Graph, u: UserId, m: MovieId)
    requires u in g.users && exists mv :: mv in g.movies && mv.id == m
    ensures AddInteraction(g, u, m, "like").Success?
    ensures var g1 := AddInteraction(g, u, m, "like").value.0;
      && g1.users == g.users && g1.movies == g.movies
      && g1.interactions.Keys == g.interactions.Keys + {(u, m)}
      && g1.interactions[(u, m)] == Interaction("like", 1.0)
      && CatalogUpdated(g.catalog, g1.catalog, m, 1.0)
  {
    assert WeightOf("like") == 1.0;
  }

  /** Two +1 updates of the same movie move each qualifying edge by twice
      its delta. */
  lemma LikesAdd(es: seq<CatalogEdge>, es1: seq<CatalogEdge>, es2: seq<CatalogEdge>, m: MovieId)
    requires CatalogUpdated(es, es1, m, 1.0) && CatalogUpdated(es1, es2, m, 1.0)
    ensures |es2| == |es|
    ensures forall i, c :: 0 <= i < |es| && Qualifies(es[i], m, c) ==>
      PesoOf(es2[i]) == PesoOf(es[i]) + 2.0 * Delta(1.0, c)
  {
    CatalogUpdatesCompose(es, es1, es2, m, 1.0, 1.0);
  }

  /** Feedback is not idempotent on `peso`: two likes of the same movie move
      every qualifying edge by twice its delta, while the `INTERACTED` edge
      of the pair stays a single "like" edge. */
  lemma {:induction false} RepeatedLikeAccumulates(g: Graph, u: UserId, m: MovieId)
    requires u in g.users && exists mv :: mv in g.movies && mv.id == m
    ensures AddInteraction(g, u, m, "like").Success?
    ensures var g1 := AddInteraction(g, u, m, "like").value.0;
      AddInteraction(g1, u, m, "like").Success?
    ensures var g1 := AddInteraction(g, u, m, "like").value.0;
      var g2 := AddInteraction(g1, u, m, "like").value.0;
      && |g2.catalog| == |g.catalog|
      && (forall i, c :: 0 <= i < |g.catalog| && Qualifies(g.catalog[i], m, c) ==>
            PesoOf(g2.catalog[i]) == PesoOf(g.catalog[i]) + 2.0 * Delta(1.0, c))
      && g2.interactions.Keys == g.interactions.Keys + {(u, m)}
      && g2.interactions[(u, m)] == Interaction("like", 1.0)
  {
    LikeStep(g, u, m);
    var g1 := AddInteraction(g, u, m, "like").value.0;
    LikeStep(g1, u, m);
    var g2 := AddInteraction(g1, u, m, "like").value.0;
    LikesAdd(g.catalog, g1.catalog, g2.catalog, m);
  }

  /** A +1 update followed by a -1 update of the same movie restores every
      edge's effective weight, and every edge whose `peso` was set. */
  lemma {:induction false} CatalogRestored(es: seq<CatalogEdge>, es1: seq<CatalogEdge>, es2: seq<CatalogEdge>, m: MovieId)
    requires CatalogUpdated(es, es1, m, 1.0) && CatalogUpdated(es1, es2, m, -1.0)
    ensures |es2| == |es|
    ensures forall i :: 0 <= i < |es| ==> PesoOf(es2[i]) == PesoOf(es[i])
    ensures forall i :: 0 <= i < |es| && es[i].peso.Some? ==> es2[i] == es[i]
  {
    CatalogUpdatesCompose(es, es1, es2, m, 1.0, -1.0);
    forall i | 0 <= i < |es|
      ensures PesoOf(es2[i]) == PesoOf(es[i])
      ensures es[i].peso.Some? ==> es2[i] == es[i]
    {
      var c := CategoryOf(es[i].rel);
      if Qualifies(es[i], m, c) {
        assert es2[i].peso == Some(PesoOf(es[i]) + Delta(1.0, c) + Delta(-1.0, c));
        assert es2[i].src == es[i].src && es2[i].rel == es[i].rel && es2[i].dst == es[i].dst by {
          assert es1[i].src == es[i].src && es1[i].rel == es[i].rel && es1[i].dst == es[i].dst;
        }
      } else {
        forall c' ensures !Qualifies(es[i], m, c') {
          QualifiesOnlyOwnCategory(es[i], m, c');
        }
      }
    }
  }

  /** A like followed by any other type of the same movie restores the
      effective weight `coalesce(peso, 0)` of every catalog edge, and every
      `peso` that was set before comes back to exactly its old value. */
  lemma {:induction false} LikeThenDislikeRestores(g: Graph, u: UserId, m: MovieId, other: string)
    requires u in g.users && exists mv :: mv in g.movies && mv.id == m
    requires other != "like"
    ensures AddInteraction(g, u, m, "like").Success?
    ensures var g1 := AddInteraction(g, u, m, "like").value.0;
      AddInteraction(g1, u, m, other).Success?
    ensures var g1 := AddInteraction(g, u, m, "like").value.0;
      var g2 := AddInteraction(g1, u, m, other).value.0;
      && |g2.catalog| == |g.catalog|
      && (forall i :: 0 <= i < |g.catalog| ==> PesoOf(g2.catalog[i]) == PesoOf(g.catalog[i]))
      && (forall i :: 0 <= i < |g.catalog| && g.catalog[i].peso.Some? ==> g2.catalog[i] == g.catalog[i])
      && g2.interactions[(u, m)] == Interaction(other, -1.0)
  {
    var g1 := AddInteraction(g, u, m, "like").value.0;
    var g2 := AddInteraction(g1, u, m, other).value.0;
    CatalogRestored(g.catalog, g1.catalog, g2.catalog, m);
  }

  /** Away from the upserted pair the positive `INTERACTED` edges into any
      movie are the same before and after. */
  lemma PositiveAwayFromPair(
    ints: map<(UserId, MovieId), Interaction>, ints': map<(UserId, MovieId), Interaction>,
    u: UserId, m: MovieId, kind: string, mid: MovieId)
    requires InteractionRecorded(ints, ints', u, m, kind)
    ensures PositiveInteractions(ints, mid) - {(u, m)} == PositiveInteractions(ints', mid) - {(u, m)}
  {
    var k := (u, m);
    forall x | x in PositiveInteractions(ints, mid) - {k} ensures x in PositiveInteractions(ints', mid) {
      assert ints'[x] == ints[x];
    }
    forall x | x in PositiveInteractions(ints', mid) - {k} ensures x in PositiveInteractions(ints, mid) {
      assert x in ints;
      assert ints'[x] == ints[x];
    }
  }

  /** Adding or removing one element moves a set's size by one. */
  lemma CardinalityAround<T>(s: set<T>, k: T)
    ensures |s| == |s - {k}| + (if k in s then 1 else 0)
  {
    if k in s {
      assert s == (s - {k}) + {k};
    } else {
      assert s == s - {k};
    }
  }

  /** The positive `INTERACTED` edges after an upsert of (u, m): the pair's
      edge is counted exactly when its new weight is positive; the edges
      into every other movie are the same. */
  lemma {:induction false} PositiveAfterRecord(
    ints: map<(UserId, MovieId), Interaction>, ints': map<(UserId, MovieId), Interaction>,
    u: UserId, m: MovieId, kind: string, other: MovieId)
    requires InteractionRecorded(ints, ints', u, m, kind)
    ensures var before := (u, m) in ints && ints[(u, m)].weight > 0.0;
      |PositiveInteractions(ints', m)|
        == |PositiveInteractions(ints, m)| - (if before then 1 else 0) + (if kind == "like" then 1 else 0)
    ensures other != m ==> PositiveInteractions(ints', other) == PositiveInteractions(ints, other)
  {
    var k := (u, m);
    PositiveAwayFromPair(ints, ints', u, m, kind, m);
    CardinalityAround(PositiveInteractions(ints, m), k);
    CardinalityAround(PositiveInteractions(ints', m), k);
    assert k in PositiveInteractions(ints', m) <==> kind == "like";
    if other != m {
      PositiveAwayFromPair(ints, ints', u, m, kind, other);
      assert k !in PositiveInteractions(ints, other) && k !in PositiveInteractions(ints', other);
      assert PositiveInteractions(ints, other) - {k} == PositiveInteractions(ints, other);
      assert PositiveInteractions(ints', other) - {k} == PositiveInteractions(ints', other);
    }
  }

  /** The popularity `get_top_movies` ranks by counts each (user, movie)
      pair once: after a call, movie `m` has gained one if the pair's edge
      turned positive, lost one if it stopped being positive, and every
      other movie's popularity is unchanged. */
  lemma {:induction false} PopularityAfterInteraction(g: Graph, u: UserId, m: MovieId, kind: string, other: MovieId)
    requires AddInteraction(g, u, m, kind).Success?
    ensures var g' := AddInteraction(g, u, m, kind).value.0;
      var before := (u, m) in g.interactions && g.interactions[(u, m)].weight > 0.0;
      && Popularity(g', m) == Popularity(g, m) - (if before then 1 else 0) + (if kind == "like" then 1 else 0)
      && (other != m ==> Popularity(g', other) == Popularity(g, other))
  {
    var g' := AddInteraction(g, u, m, kind).value.0;
    PositiveAfterRecord(g.interactions, g'.interactions, u, m, kind, other);
  }
}

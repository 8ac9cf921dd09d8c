/** The property graph the controllers query and update: Movie nodes,
    attribute nodes (Genre, Director, Actor, season) reached by catalog
    edges that may carry a `peso`, users, and the `INTERACTED` edges from
    users to movies. Nodes are identified by their `id` property. */
module Graph {
  import opened Wrappers
  import opened Seqs

  type UserId = string
  type MovieId = string

  datatype Movie = Movie(id: MovieId, title: string, year: int, description: string)

  datatype Label = GenreLabel | DirectorLabel | ActorLabel | SeasonLabel | OtherLabel(name: string)

  /** An attribute node; season nodes are named by `name` or, failing that,
      by `nombre`. */
  datatype AttrNode = AttrNode(labels: set<Label>, name: Option<string>, nombre: Option<string>)

  /** Catalog relationship types. `APPROPIATE_FOR_SEASON` keeps the
      repository's spelling. */
  datatype Rel = HasGenre | DirectedBy | HasActor | AppropiateForSeason

  /** A catalog edge from the movie with id `src` to the node `dst`. The
      position of an edge in `Graph.catalog` is its identity. */
  datatype CatalogEdge = CatalogEdge(src: MovieId, rel: Rel, dst: AttrNode, peso: Option<real>)

  /** The properties of an `INTERACTED` edge (its timestamp is not modelled). */
  datatype Interaction = Interaction(kind: string, weight: real)

  /** `movies` and `catalog` are in the store's enumeration order;
      `INTERACTED` edges are keyed by their (user, movie) endpoints. */
  datatype Graph = Graph(
    users: set<UserId>,
    movies: seq<Movie>,
    catalog: seq<CatalogEdge>,
    interactions: map<(UserId, MovieId), Interaction>)

  /** The four attribute categories, each with its relationship type, the
      label its target must carry and its feedback coefficient. */
  datatype Category = Genre | Director | Actor | Season

  function RelOf(c: Category): Rel {
    match c
    case Genre => HasGenre
    case Director => DirectedBy
    case Actor => HasActor
    case Season => AppropiateForSeason
  }

  function CategoryOf(r: Rel): (c: Category)
    ensures RelOf(c) == r
  {
    match r
    case HasGenre => Genre
    case DirectedBy => Director
    case HasActor => Actor
    case AppropiateForSeason => Season
  }

  function LabelOf(c: Category): Label {
    match c
    case Genre => GenreLabel
    case Director => DirectorLabel
    case Actor => ActorLabel
    case Season => SeasonLabel
  }

  /** `weight * coefficient`: what one feedback of signed weight `w` adds to
      the `peso` of a catalog edge of category `c`. The coefficients are
      0.10 (genre), 0.10 (director), 0.07 (actor) and 0.05 (season). */
  function Delta(w: real, c: Category): (d: real)
    ensures w == 0.0 <==> d == 0.0
    ensures w > 0.0 <==> d > 0.0
  {
    match c
    case Genre => w * 0.10
    case Director => w * 0.10
    case Actor => w * 0.07
    case Season => w * 0.05
  }

  /** `coalesce(peso, 0)`. */
  function PesoOf(e: CatalogEdge): real {
    e.peso.GetOr(0.0)
  }

  /** The edge matches `(m {id: mid})-[:REL]->(:Label)` for category `c`:
      the pattern the feedback update increments. */
  predicate Qualifies(e: CatalogEdge, mid: MovieId, c: Category) {
    e.src == mid && e.rel == RelOf(c) && LabelOf(c) in e.dst.labels
  }

  /** An edge qualifies for at most one category: the one of its
      relationship type. */
  lemma QualifiesOnlyOwnCategory(e: CatalogEdge, mid: MovieId, c: Category)
    ensures Qualifies(e, mid, c) ==> c == CategoryOf(e.rel)
  {
  }

  /** The edge matches the pattern the read queries use for category `c`:
      genre, actor and director targets must carry their label, season
      targets may carry any label. */
  predicate Displays(e: CatalogEdge, mid: MovieId, c: Category) {
    e.src == mid && e.rel == RelOf(c) && (c == Season || LabelOf(c) in e.dst.labels)
  }

  /** The name the read queries show: `name`, or for seasons
      `coalesce(name, nombre)`. */
  function DisplayName(n: AttrNode, c: Category): Option<string> {
    if c == Season && n.name.None? then n.nombre else n.name
  }

  function NameOn(e: CatalogEdge, mid: MovieId, c: Category): Option<string> {
    if Displays(e, mid, c) then DisplayName(e.dst, c) else None
  }

  /** The indices of the edges that give movie `mid` a category-`c` name. */
  ghost function NamedEdges(es: seq<CatalogEdge>, mid: MovieId, c: Category): set<int> {
    set i | 0 <= i < |es| && NameOn(es[i], mid, c).Some?
  }

  /** Splitting off the last edge splits the named edges. */
  lemma NamedEdgesSnoc(es: seq<CatalogEdge>, mid: MovieId, c: Category)
    requires |es| > 0
    ensures NamedEdges(es, mid, c) ==
      NamedEdges(es[..|es| - 1], mid, c) + (if NameOn(es[|es| - 1], mid, c).Some? then {|es| - 1} else {})
    ensures |es| - 1 !in NamedEdges(es[..|es| - 1], mid, c)
  {
    var init := es[..|es| - 1];
    assert forall i :: 0 <= i < |init| ==> init[i] == es[i];
  }

  /** Splitting off the last edge splits the names it gives. */
  lemma NameOnSnoc(es: seq<CatalogEdge>, init: seq<CatalogEdge>, mid: MovieId, c: Category, n: string)
    requires |es| > 0 && init == es[..|es| - 1]
    ensures (exists i :: 0 <= i < |es| && NameOn(es[i], mid, c) == Some(n)) <==>
      (exists i :: 0 <= i < |init| && NameOn(init[i], mid, c) == Some(n))
      || NameOn(es[|es| - 1], mid, c) == Some(n)
  {
    if exists i :: 0 <= i < |es| && NameOn(es[i], mid, c) == Some(n) {
      var i :| 0 <= i < |es| && NameOn(es[i], mid, c) == Some(n);
      if i < |es| - 1 {
        assert init[i] == es[i];
      }
    }
    if exists i :: 0 <= i < |init| && NameOn(init[i], mid, c) == Some(n) {
      var i :| 0 <= i < |init| && NameOn(init[i], mid, c) == Some(n);
      assert init[i] == es[i];
    }
  }

  /** The non-null names of the category-`c` attributes of movie `mid`, one
      per matching edge, in catalog order. */
  function Names(es: seq<CatalogEdge>, mid: MovieId, c: Category): (r: seq<string>)
    ensures forall n :: n in r <==> exists i :: 0 <= i < |es| && NameOn(es[i], mid, c) == Some(n)
    decreases |es|
  {
    if |es| == 0 then []
    else
      var init := es[..|es| - 1];
      var rest := Names(init, mid, c);
      assert forall n :: (exists i :: 0 <= i < |es| && NameOn(es[i], mid, c) == Some(n)) <==>
        (exists i :: 0 <= i < |init| && NameOn(init[i], mid, c) == Some(n))
        || NameOn(es[|es| - 1], mid, c) == Some(n) by {
        forall n {
          NameOnSnoc(es, init, mid, c, n);
        }
      }
      match NameOn(es[|es| - 1], mid, c)
      case Some(n) => rest + [n]
      case None => rest
  }

  /** `Names` gives exactly one name per edge that carries one. */
  lemma {:induction false} NamesCount(es: seq<CatalogEdge>, mid: MovieId, c: Category)
    ensures |Names(es, mid, c)| == |NamedEdges(es, mid, c)|
    decreases |es|
  {
    if |es| == 0 {
      assert NamedEdges(es, mid, c) == {};
    } else {
      NamesCount(es[..|es| - 1], mid, c);
      NamedEdgesSnoc(es, mid, c);
    }
  }

  /** `COLLECT(DISTINCT x.name)` for category `c` of movie `mid`. */
  function AttrList(es: seq<CatalogEdge>, mid: MovieId, c: Category): (r: seq<string>)
    ensures NoDup(r)
    ensures forall n :: n in r <==> n in Names(es, mid, c)
  {
    Dedup(Names(es, mid, c))
  }

  /** `MATCH (m:Movie {id: id})`: the first movie with that id. */
  function FindMovie(ms: seq<Movie>, id: MovieId): (r: Option<Movie>)
    ensures r.None? <==> forall m :: m in ms ==> m.id != id
    ensures r.Some? ==> r.value in ms && r.value.id == id
  {
    if |ms| == 0 then None
    else if ms[0].id == id then Some(ms[0])
    else
      assert forall m :: m in ms ==> m == ms[0] || m in ms[1..];
      FindMovie(ms[1..], id)
  }

  /** The `INTERACTED` edges into movie `mid` whose weight is positive. */
  function PositiveInteractions(ints: map<(UserId, MovieId), Interaction>, mid: MovieId): set<(UserId, MovieId)> {
    set k | k in ints && k.1 == mid && ints[k].weight > 0.0
  }

  /** The popularity `get_top_movies` ranks by. */
  function Popularity(g: Graph, mid: MovieId): (p: nat)
    ensures p <= |g.interactions|
    ensures p > 0 <==> exists u :: (u, mid) in g.interactions && g.interactions[(u, mid)].weight > 0.0
  {
    PositiveBounds(g.interactions, mid);
    |PositiveInteractions(g.interactions, mid)|
  }

  /** The positive edges into a movie are some of the `INTERACTED` edges,
      and there are some exactly when one user's edge is positive. */
  lemma PositiveBounds(ints: map<(UserId, MovieId), Interaction>, mid: MovieId)
    ensures |PositiveInteractions(ints, mid)| <= |ints|
    ensures |PositiveInteractions(ints, mid)| > 0 <==> exists u :: (u, mid) in ints && ints[(u, mid)].weight > 0.0
  {
    var pos := PositiveInteractions(ints, mid);
    SubsetSize(pos, ints.Keys);
    if pos != {} {
      var k :| k in pos;
      assert (k.0, mid) == k;
    }
    if exists u :: (u, mid) in ints && ints[(u, mid)].weight > 0.0 {
      var u :| (u, mid) in ints && ints[(u, mid)].weight > 0.0;
      assert (u, mid) in pos;
    }
  }

  lemma {:induction false} SubsetSize<T>(a: set<T>, b: set<T>)
    requires a <= b
    ensures |a| <= |b|
    decreases |a|
  {
    if a != {} {
      var x :| x in a;
      SubsetSize(a - {x}, b - {x});
    }
  }
}

/**
 The movie/actor relationship graph of plex_graph/data.py `graph`: count how many
 movies credit each person as an actor, drop the people below the threshold, and link
 every movie that keeps at least one actor to those actors.
 */
module RelationGraph {
  import opened Movies

  /** A graph node is either a person's name or a whole movie value. */
  datatype Node = PersonNode(name: string) | MovieNode(movie: Movie)

  /** An undirected edge always joins one movie and one person. */
  datatype Edge = Edge(movie: Movie, person: string)

  datatype Graph = Graph(nodes: set<Node>, edges: set<Edge>)

  /** `actors[actor]` raising KeyError for an actor missing from the people set. */
  datatype GraphError = UnknownActor(name: string)

  /** The built graph with the movie counter the source logs. */
  datatype Relations = Relations(graph: Graph, movieCount: nat)

  // ---------------------------------------------------------------------------
  // Specification: counting

  /** Every actor credit of every movie, in list order, duplicates kept. */
  function Credits(movies: seq<Movie>): seq<string>
  {
    if movies == [] then [] else Credits(movies[..|movies| - 1]) + movies[|movies| - 1].actors
  }

  /** How many actor credits name `p`. */
  function Appearances(movies: seq<Movie>, p: string): nat
  {
    multiset(Credits(movies))[p]
  }

  /** The counter dictionary: every person of `people` with the number of credits in `cs`. */
  function Counter(people: set<string>, cs: seq<string>): map<string, nat>
  {
    map p | p in people :: multiset(cs)[p]
  }

  /** The first credit that is not a known person, if there is one. */
  function FirstUnknown(cs: seq<string>, people: set<string>): Option<string>
  {
    if cs == [] then None
    else if cs[0] !in people then Some(cs[0])
    else FirstUnknown(cs[1..], people)
  }

  // ---------------------------------------------------------------------------
  // Specification: pruning and linking

  /** The people kept at threshold `minRelations`. */
  function Survivors(people: set<string>, movies: seq<Movie>, minRelations: int): set<string>
  {
    set p | p in people && Appearances(movies, p) >= minRelations
  }

  /** The people dropped at threshold `minRelations`. */
  function Dropped(people: set<string>, movies: seq<Movie>, minRelations: int): set<string>
  {
    set p | p in people && Appearances(movies, p) < minRelations
  }

  /** A movie is linked when at least one of its actors survived. */
  predicate Linked(m: Movie, survivors: set<string>)
  {
    exists a :: a in m.actors && a in survivors
  }

  function PersonNodes(survivors: set<string>): set<Node>
  {
    set p | p in survivors :: PersonNode(p)
  }

  function MovieNodes(movies: seq<Movie>, survivors: set<string>): set<Node>
  {
    set m | m in movies && Linked(m, survivors) :: MovieNode(m)
  }

  function Edges(movies: seq<Movie>, survivors: set<string>): set<Edge>
  {
    set m, a | m in movies && a in m.actors && a in survivors :: Edge(m, a)
  }

  /** The edges of one movie to those of the first `actors` that survived. */
  function MovieEdges(m: Movie, actors: seq<string>, survivors: set<string>): set<Edge>
  {
    set a | a in actors && a in survivors :: Edge(m, a)
  }

  /** How many list entries get a movie node (duplicate entries counted each time). */
  function LinkedEntries(movies: seq<Movie>, survivors: set<string>): nat
  {
    if movies == [] then 0
    else LinkedEntries(movies[..|movies| - 1], survivors)
         + (if Linked(movies[|movies| - 1], survivors) then 1 else 0)
  }

  /** The graph `graph(min_relations)` draws, for data whose actors are all known people. */
  function RelationGraphOf(data: MovieData, minRelations: int): Graph
  {
    var s := Survivors(data.people, data.movies, minRelations);
    Graph(PersonNodes(s) + MovieNodes(data.movies, s), Edges(data.movies, s))
  }

  // ---------------------------------------------------------------------------
  // Lemmas about the specification functions

  lemma {:induction false} CreditsAppend(xs: seq<Movie>, ys: seq<Movie>)
    ensures Credits(xs + ys) == Credits(xs) + Credits(ys)
    decreases |ys|
  {
    if ys == [] {
      assert xs + ys == xs;
    } else {
      var ys' := ys[..|ys| - 1];
      assert (xs + ys)[..|xs + ys| - 1] == xs + ys';
      CreditsAppend(xs, ys');
    }
  }

  /** Entry i's credits follow those of the entries before it. */
  lemma CreditsStep(movies: seq<Movie>, i: nat)
    requires i < |movies|
    ensures Credits(movies[..i + 1]) == Credits(movies[..i]) + movies[i].actors
  {
    assert movies[..i + 1][..i] == movies[..i];
  }

  /** Credits of a list are those before entry i, then entry i's actors, then the rest. */
  lemma CreditsSplit(movies: seq<Movie>, i: nat)
    requires i < |movies|
    ensures Credits(movies) == Credits(movies[..i]) + movies[i].actors + Credits(movies[i + 1..])
  {
    var front, rest := movies[..i + 1], movies[i + 1..];
    assert movies == front + rest;
    CreditsAppend(front, rest);
    CreditsStep(movies, i);
  }

  /** A name is credited iff some movie of the list has it among its actors. */
  lemma {:induction false} CreditedIffActor(movies: seq<Movie>, p: string)
    ensures p in Credits(movies) <==> exists i :: 0 <= i < |movies| && p in movies[i].actors
  {
    if movies != [] {
      var init := movies[..|movies| - 1];
      CreditedIffActor(init, p);
      if p in Credits(movies) && p !in Credits(init) {
        assert p in movies[|movies| - 1].actors;
      }
      if exists i :: 0 <= i < |movies| && p in movies[i].actors {
        var i :| 0 <= i < |movies| && p in movies[i].actors;
        if i < |movies| - 1 {
          assert init[i] == movies[i];
        }
      }
    }
  }

  /** Counting looks at the actor lists only: writers, directors, genres and the other
      fields never change a count. */
  lemma {:induction false} OnlyActorsCount(ms1: seq<Movie>, ms2: seq<Movie>)
    requires |ms1| == |ms2|
    requires forall i :: 0 <= i < |ms1| ==> ms1[i].actors == ms2[i].actors
    ensures Credits(ms1) == Credits(ms2)
    ensures forall p :: Appearances(ms1, p) == Appearances(ms2, p)
  {
    if ms1 != [] {
      OnlyActorsCount(ms1[..|ms1| - 1], ms2[..|ms2| - 1]);
    }
  }

  /** FirstUnknown finds an unknown credit exactly when there is one. */
  lemma {:induction false} FirstUnknownIsUnknown(cs: seq<string>, people: set<string>)
    ensures FirstUnknown(cs, people).None? <==> forall c :: c in cs ==> c in people
    ensures FirstUnknown(cs, people).Some? ==>
              FirstUnknown(cs, people).value in cs && FirstUnknown(cs, people).value !in people
  {
    if cs != [] && cs[0] in people {
      FirstUnknownIsUnknown(cs[1..], people);
      assert cs == [cs[0]] + cs[1..];
    }
  }

  /** Pruning splits the people into survivors and drops. */
  lemma PruneSplitsPeople(people: set<string>, movies: seq<Movie>, minRelations: int)
    ensures Survivors(people, movies, minRelations) <= people
    ensures Survivors(people, movies, minRelations) + Dropped(people, movies, minRelations) == people
    ensures Survivors(people, movies, minRelations) !! Dropped(people, movies, minRelations)
  {
  }

  lemma {:induction false} LinkedEntriesMonotone(movies: seq<Movie>, s1: set<string>, s2: set<string>)
    requires s2 <= s1
    ensures LinkedEntries(movies, s2) <= LinkedEntries(movies, s1)
  {
    if movies != [] {
      LinkedEntriesMonotone(movies[..|movies| - 1], s1, s2);
    }
  }

  /** Raising the threshold never adds a person, a movie node, an edge or a movie count. */
  lemma ThresholdMonotone(data: MovieData, t1: int, t2: int)
    requires t1 <= t2
    ensures Survivors(data.people, data.movies, t2) <= Survivors(data.people, data.movies, t1)
    ensures |Survivors(data.people, data.movies, t2)| <= |Survivors(data.people, data.movies, t1)|
    ensures MovieNodes(data.movies, Survivors(data.people, data.movies, t2))
            <= MovieNodes(data.movies, Survivors(data.people, data.movies, t1))
    ensures Edges(data.movies, Survivors(data.people, data.movies, t2))
            <= Edges(data.movies, Survivors(data.people, data.movies, t1))
    ensures RelationGraphOf(data, t2).nodes <= RelationGraphOf(data, t1).nodes
    ensures LinkedEntries(data.movies, Survivors(data.people, data.movies, t2))
            <= LinkedEntries(data.movies, Survivors(data.people, data.movies, t1))
  {
    var s1 := Survivors(data.people, data.movies, t1);
    var s2 := Survivors(data.people, data.movies, t2);
    LinkedEntriesMonotone(data.movies, s1, s2);
    assert s1 == s2 + (s1 - s2) && s2 !! (s1 - s2);
  }

  /** Every edge joins a movie node and a person node, and every movie node has an edge. */
  lemma GraphWellFormed(data: MovieData, minRelations: int)
    ensures var g := RelationGraphOf(data, minRelations);
            forall e :: e in g.edges ==> MovieNode(e.movie) in g.nodes && PersonNode(e.person) in g.nodes
    ensures var g := RelationGraphOf(data, minRelations);
            forall m :: MovieNode(m) in g.nodes ==> exists a :: Edge(m, a) in g.edges
  {
    var g := RelationGraphOf(data, minRelations);
    var s := Survivors(data.people, data.movies, minRelations);
    forall e | e in g.edges
      ensures MovieNode(e.movie) in g.nodes && PersonNode(e.person) in g.nodes
    {
      assert e.person in e.movie.actors && e.person in s;
      assert Linked(e.movie, s);
    }
    forall m | MovieNode(m) in g.nodes
      ensures exists a :: Edge(m, a) in g.edges
    {
      assert MovieNode(m) in MovieNodes(data.movies, s);
      var a :| a in m.actors && a in s;
      assert Edge(m, a) in g.edges;
    }
  }

  /** With a threshold of at least one, every person node has an edge: the graph has
      no isolated node at all. */
  lemma NoIsolatedPeople(data: MovieData, minRelations: int)
    requires minRelations >= 1
    ensures var g := RelationGraphOf(data, minRelations);
            forall p :: PersonNode(p) in g.nodes ==> exists m :: Edge(m, p) in g.edges
  {
    var g := RelationGraphOf(data, minRelations);
    var s := Survivors(data.people, data.movies, minRelations);
    forall p | PersonNode(p) in g.nodes
      ensures exists m :: Edge(m, p) in g.edges
    {
      assert p in s;
      assert p in multiset(Credits(data.movies));
      CreditedIffActor(data.movies, p);
      var i :| 0 <= i < |data.movies| && p in data.movies[i].actors;
      assert Edge(data.movies[i], p) in g.edges;
    }
  }

  /** A person never credited as an actor (a writer or director only) never gets an edge;
      at a threshold of zero or below such a person is still a node, an isolated one. */
  lemma UncreditedPeopleAreIsolated(data: MovieData, minRelations: int, p: string)
    requires p in data.people
    requires Appearances(data.movies, p) == 0
    ensures forall m :: Edge(m, p) !in RelationGraphOf(data, minRelations).edges
    ensures PersonNode(p) in RelationGraphOf(data, minRelations).nodes <==> minRelations <= 0
  {
    var s := Survivors(data.people, data.movies, minRelations);
    forall m | m in data.movies && p in m.actors
      ensures false
    {
      var i :| 0 <= i < |data.movies| && data.movies[i] == m;
      CreditedIffActor(data.movies, p);
    }
    if minRelations <= 0 {
      assert p in s;
    }
  }

  /** The credits of two movies with actors X, Y and Y, Z, in order. */
  lemma SharedActorCredits(a: Movie, b: Movie)
    requires a.actors == ["X", "Y"] && b.actors == ["Y", "Z"]
    ensures Credits([a, b]) == ["X", "Y", "Y", "Z"]
  {
    var movies := [a, b];
    CreditsStep(movies, 0);
    CreditsStep(movies, 1);
    assert movies[..0] == [] && movies[..2] == movies;
  }

  /** The same two movies at threshold 2: only Y, credited twice, survives. */
  lemma SharedActorSurvives(a: Movie, b: Movie)
    requires a.actors == ["X", "Y"] && b.actors == ["Y", "Z"]
    ensures Survivors({"X", "Y", "Z"}, [a, b], 2) == {"Y"}
  {
    SharedActorCredits(a, b);
    var m := multiset(Credits([a, b]));
    assert m == multiset{"X", "Y", "Y", "Z"};
    assert m["X"] == 1 && m["Y"] == 2 && m["Z"] == 1;
  }

  /** The same two movies at threshold 2: the graph is both movies joined through Y. */
  lemma SharedActorScenario(a: Movie, b: Movie)
    requires a.actors == ["X", "Y"] && b.actors == ["Y", "Z"]
    ensures RelationGraphOf(MovieData({}, {"X", "Y", "Z"}, [a, b]), 2)
            == Graph({PersonNode("Y"), MovieNode(a), MovieNode(b)}, {Edge(a, "Y"), Edge(b, "Y")})
  {
    SharedActorSurvives(a, b);
    var s: set<string> := {"Y"};
    assert Linked(a, s) && Linked(b, s);
    assert MovieNodes([a, b], s) == {MovieNode(a), MovieNode(b)};
    assert Edges([a, b], s) == {Edge(a, "Y"), Edge(b, "Y")};
  }

  /** Two entries that differ only in how their rating is spelled ("7.8" and "07.8") are
      different movies, so both become movie nodes when they share a surviving actor. */
  lemma RatingSpellingsStayDistinct(a: Movie, b: Movie, data: MovieData, minRelations: int)
    requires a.rating == Rated("7.8", 78) && b == a.(rating := Rated("07.8", 78))
    requires a in data.movies && b in data.movies
    requires exists p :: p in a.actors && p in Survivors(data.people, data.movies, minRelations)
    ensures MovieNode(a) != MovieNode(b)
    ensures MovieNode(a) in RelationGraphOf(data, minRelations).nodes
    ensures MovieNode(b) in RelationGraphOf(data, minRelations).nodes
  {
    assert a.rating.text != b.rating.text;
    var s := Survivors(data.people, data.movies, minRelations);
    assert Linked(a, s) && Linked(b, s);
  }

  /** An empty dataset gives an empty graph at any threshold. */
  lemma EmptyDataEmptyGraph(genres: set<string>, minRelations: int)
    ensures RelationGraphOf(MovieData(genres, {}, []), minRelations) == Graph({}, {})
  {
    assert Survivors({}, [], minRelations) == {};
  }

  // ---------------------------------------------------------------------------
  // The algorithm

  /** Lines 106-109: the counter starts at zero for every person and is incremented once
      per actor credit; an actor that is not a known person raises KeyError. */
  method CountActors(data: MovieData) returns (r: Result<map<string, nat>, GraphError>)
    ensures r == match FirstUnknown(Credits(data.movies), data.people)
                 case Some(a) => Err(UnknownActor(a))
                 case None => Ok(Counter(data.people, Credits(data.movies)))
  {
    var counts: map<string, nat> := map p | p in data.people :: 0;
    assert counts == Counter(data.people, []);
    ghost var seen: seq<string> := [];
    var i := 0;
    while i < |data.movies|
      invariant 0 <= i <= |data.movies|
      invariant seen == Credits(data.movies[..i])
      invariant FirstUnknown(seen, data.people) == None
      invariant counts == Counter(data.people, seen)
    {
      CreditsStep(data.movies, i);
      var counted := CountMovieActors(data.people, counts, seen, data.movies[i].actors);
      if counted.Err? {
        UnknownActorIsFirst(data, i);
        return counted;
      }
      counts := counted.value;
      FirstUnknownAppend(seen, data.movies[i].actors, data.people);
      seen := seen + data.movies[i].actors;
      i := i + 1;
    }
    assert data.movies[..i] == data.movies;
    r := Ok(counts);
  }

  /** Lines 108-109: the inner loop over one movie's actors, adding one per credit to the
      counts of the credits `seen` so far. */
  method CountMovieActors(people: set<string>, counts: map<string, nat>, ghost seen: seq<string>, actors: seq<string>)
    returns (r: Result<map<string, nat>, GraphError>)
    requires counts == Counter(people, seen)
    ensures r == match FirstUnknown(actors, people)
                 case Some(a) => Err(UnknownActor(a))
                 case None => Ok(Counter(people, seen + actors))
  {
    var current := counts;
    ghost var counted := seen;
    var j := 0;
    while j < |actors|
      invariant 0 <= j <= |actors|
      invariant counted == seen + actors[..j]
      invariant FirstUnknown(actors, people) == FirstUnknown(actors[j..], people)
      invariant current.Keys == people
      invariant forall p :: p in current ==> current[p] == multiset(counted)[p]
    {
      var a := actors[j];
      assert actors[j..] == [a] + actors[j + 1..];
      if a !in current {
        return Err(UnknownActor(a));
      }
      assert actors[..j + 1] == actors[..j] + [a];
      current := current[a := current[a] + 1];
      counted := counted + [a];
      j := j + 1;
    }
    assert actors[..j] == actors;
    assert current == Counter(people, counted);
    r := Ok(current);
  }

  /** Unknown credits of the whole concatenation: the first part's, else the second's. */
  lemma {:induction false} FirstUnknownAppend(xs: seq<string>, ys: seq<string>, people: set<string>)
    ensures FirstUnknown(xs + ys, people) ==
            if FirstUnknown(xs, people).Some? then FirstUnknown(xs, people) else FirstUnknown(ys, people)
  {
    if xs == [] {
      assert xs + ys == ys;
    } else {
      var zs := xs + ys;
      assert zs[0] == xs[0];
      assert zs[1..] == xs[1..] + ys;
      FirstUnknownAppend(xs[1..], ys, people);
    }
  }

  /** An unknown credit of the middle part, after only known credits, is the first one. */
  lemma FirstUnknownInMiddle(before: seq<string>, middle: seq<string>, after: seq<string>, people: set<string>)
    requires FirstUnknown(before, people) == None
    requires FirstUnknown(middle, people).Some?
    ensures FirstUnknown(before + middle + after, people) == FirstUnknown(middle, people)
  {
    FirstUnknownAppend(before, middle, people);
    FirstUnknownAppend(before + middle, after, people);
  }

  /** An unknown actor of entry i, after only known credits, is the first unknown credit. */
  lemma UnknownActorIsFirst(data: MovieData, i: nat)
    requires i < |data.movies|
    requires FirstUnknown(Credits(data.movies[..i]), data.people) == None
    requires FirstUnknown(data.movies[i].actors, data.people).Some?
    ensures FirstUnknown(Credits(data.movies), data.people) == FirstUnknown(data.movies[i].actors, data.people)
  {
    CreditsSplit(data.movies, i);
    FirstUnknownInMiddle(Credits(data.movies[..i]), data.movies[i].actors, Credits(data.movies[i + 1..]), data.people);
  }

  /** Lines 113-116: the people whose count is below the threshold. */
  method DropSet(people: set<string>, counts: map<string, nat>, minRelations: int) returns (drops: set<string>)
    requires people <= counts.Keys
    ensures drops == set p | p in people && counts[p] < minRelations
  {
    drops := {};
    var rest := people;
    while rest != {}
      invariant rest <= people
      invariant drops == set p | p in people - rest && counts[p] < minRelations
      decreases rest
    {
      var p :| p in rest;
      if counts[p] < minRelations {
        drops := drops + {p};
      }
      rest := rest - {p};
    }
  }

  /** Lines 122-124: a node for every surviving person, visited in any order. */
  method SeedPeople(survivors: set<string>) returns (nodes: set<Node>)
    ensures forall n :: n in nodes <==> n.PersonNode? && n.name in survivors
  {
    nodes := {};
    var rest := survivors;
    while rest != {}
      invariant rest <= survivors
      invariant nodes == PersonNodes(survivors - rest)
      decreases rest
    {
      var p :| p in rest;
      nodes := nodes + {PersonNode(p)};
      rest := rest - {p};
    }
  }

  /** Lines 122-136: the person nodes, then each movie entry in turn. */
  method Link(survivors: set<string>, movies: seq<Movie>) returns (g: Graph, movieCount: nat)
    ensures g == Graph(PersonNodes(survivors) + MovieNodes(movies, survivors), Edges(movies, survivors))
    ensures movieCount == LinkedEntries(movies, survivors)
  {
    var nodes := SeedPeople(survivors);
    var edges: set<Edge> := {};
    movieCount := 0;
    var i := 0;
    while i < |movies|
      invariant 0 <= i <= |movies|
      invariant nodes == PersonNodes(survivors) + MovieNodes(movies[..i], survivors)
      invariant edges == Edges(movies[..i], survivors)
      invariant movieCount == LinkedEntries(movies[..i], survivors)
    {
      LinkStep(movies, i, survivors);
      nodes, edges, movieCount := LinkMovie(movies[i], survivors, nodes, edges, movieCount);
      i := i + 1;
    }
    assert movies[..i] == movies;
    g := Graph(nodes, edges);
  }

  /** Lines 128-136: one movie entry. The movie becomes a node, and `movie_count` grows by
      one, the first time one of its actors survives; every surviving actor gets an edge. */
  method LinkMovie(movie: Movie, survivors: set<string>, nodes: set<Node>, edges: set<Edge>, movieCount: nat)
    returns (nodes': set<Node>, edges': set<Edge>, movieCount': nat)
    ensures nodes' == nodes + (if Linked(movie, survivors) then {MovieNode(movie)} else {})
    ensures edges' == edges + MovieEdges(movie, movie.actors, survivors)
    ensures movieCount' == movieCount + (if Linked(movie, survivors) then 1 else 0)
  {
    nodes', edges', movieCount' := nodes, edges, movieCount;
    var relationFound := false;
    var j := 0;
    while j < |movie.actors|
      invariant 0 <= j <= |movie.actors|
      invariant relationFound <==> exists a :: a in movie.actors[..j] && a in survivors
      invariant nodes' == nodes + (if relationFound then {MovieNode(movie)} else {})
      invariant edges' == edges + MovieEdges(movie, movie.actors[..j], survivors)
      invariant movieCount' == movieCount + (if relationFound then 1 else 0)
    {
      var actor := movie.actors[j];
      assert movie.actors[..j + 1] == movie.actors[..j] + [actor];
      if actor in survivors {
        if !relationFound {
          movieCount' := movieCount' + 1;
          nodes' := nodes' + {MovieNode(movie)};
          relationFound := true;
        }
        edges' := edges' + {Edge(movie, actor)};
      }
      j := j + 1;
    }
    assert movie.actors[..j] == movie.actors;
  }

  /** Adding entry i to the processed prefix adds its node (if linked), its edges and its count. */
  lemma LinkStep(movies: seq<Movie>, i: nat, survivors: set<string>)
    requires i < |movies|
    ensures MovieNodes(movies[..i + 1], survivors) ==
            MovieNodes(movies[..i], survivors) + (if Linked(movies[i], survivors) then {MovieNode(movies[i])} else {})
    ensures Edges(movies[..i + 1], survivors) ==
            Edges(movies[..i], survivors) + MovieEdges(movies[i], movies[i].actors, survivors)
    ensures LinkedEntries(movies[..i + 1], survivors) ==
            LinkedEntries(movies[..i], survivors) + (if Linked(movies[i], survivors) then 1 else 0)
  {
    var pre := movies[..i + 1];
    assert pre[..i] == movies[..i];
    assert forall m :: m in pre <==> m in movies[..i] || m == movies[i];
  }

  /** Lines 100-141 without loading, logging and drawing: count, prune, then link. */
  method BuildGraph(data: MovieData, minRelations: int) returns (r: Result<Relations, GraphError>)
    ensures r.Err? <==> exists c :: c in Credits(data.movies) && c !in data.people
    ensures r.Err? ==> Some(r.error.name) == FirstUnknown(Credits(data.movies), data.people)
    ensures r.Ok? ==> r.value.graph == RelationGraphOf(data, minRelations)
    ensures r.Ok? ==> r.value.movieCount ==
                      LinkedEntries(data.movies, Survivors(data.people, data.movies, minRelations))
  {
    FirstUnknownIsUnknown(Credits(data.movies), data.people);
    var counted := CountActors(data);
    if counted.Err? {
      return Err(counted.error);
    }
    var counts := counted.value;
    var drops := DropSet(data.people, counts, minRelations);
    var people := data.people - drops;
    assert people == Survivors(data.people, data.movies, minRelations);
    var g, movieCount := Link(people, data.movies);
    r := Ok(Relations(g, movieCount));
  }
}

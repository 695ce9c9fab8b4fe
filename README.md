# plex-graph: the movie/actor graph and the rating histogram, in Dafny

plex-graph harvests movie metadata from Plex media servers. It stores a `MovieData`
snapshot and builds two things from it, both in `plex_graph/data.py`:

- `graph(min_relations)` builds a bipartite graph of movies and actors. It counts the
  actor credits of every person and drops the people credited fewer than `min_relations`
  times. It adds a node for each remaining person. Each movie that keeps at least one
  actor becomes a node linked to those actors.
- `rating_histogram()` counts the rated movies into ten counters, one for each rounded
  rating from 1 to 10.

This project models both as imperative Dafny. Each source loop is a method with loop
invariants. Each method is proved equal to a specification function. The properties the
program promises are lemmas about those functions.

Files:

- `movies.dfy`, module `Movies`: the frozen `Movie` record, the `MovieData` aggregate, and
  `Option`/`Result`. A rating is `Unrated` (the empty string) or `Rated(text, t)`. It
  keeps the rating string verbatim, so movie identity still compares the string, and adds
  its value as an exact count of tenths: "7.8" is `Rated("7.8", 78)`.
- `relation_graph.dfy`, module `RelationGraph`: counting (`CountActors`,
  `CountMovieActors`), pruning (`DropSet`), node and edge construction (`Link`, with
  `SeedPeople` and `LinkMovie` for its loops) and the
  whole pipeline (`BuildGraph`). The graph is a `Graph(nodes, edges)` value. A node is a
  `PersonNode(name)` or a `MovieNode(movie)`, and an edge is `Edge(movie, person)`.
- `rating_histogram.dfy`, module `RatingHistogram`: the bucket arithmetic of line 88 and
  the loop that fills the ten counters (`RatingHistogram`, on a `nat` array).

Modelling decisions:

- The snapshot that `cache_read()` loads becomes the `data: MovieData` parameter.
- `movie_data.people = movie_data.people - drops` reassigns a field of an object that
  only `graph` sees, so it is a local variable `people` here.
- `actors[actor]` raises `KeyError` for an actor who is not in `people`. The model does
  not forbid this case with a precondition. It returns `Err(UnknownActor(a))`, where `a`
  is the first such credit in list order.
- `hist[i - 1] += 1` follows Python's list indexing. A negative index counts from the
  end. Index -1 (a rating from 0.0 to 0.4) wraps round to the last counter. A rating from
  -9.0 to -0.1 is floored and wraps into counters 0..8, so -0.3 lands in counter 8 (the
  counter for 9). An index of 10 or more (a rating of 10.5 or above) or below -10 (a
  rating below -9.0) raises `IndexError`, modelled as `None`. The whole histogram is `None` in that case, because
  the exception ends the function.
- `int(rating)` truncates toward zero and `math.floor` floors. Both are written out on
  tenths, so negative ratings behave as in Python.
- The loops over the people set (lines 114-116 and 123-124) choose their next element
  with `:|`. Their postconditions show that the result does not depend on iteration order.

Three behaviours of the code are easy to miss:

- Actor lists are tuples, not sets. A name listed twice on one movie counts twice
  (`Appearances` counts with a multiset).
- At a threshold of 0 or below, every person survives. A person with no actor credit
  (a writer or director only) is then an isolated node (`UncreditedPeopleAreIsolated`).
  The "no isolated nodes" property holds only from threshold 1 up (`NoIsolatedPeople`).
- The histogram does not clamp. A rating of 10.5 or more, or below -9.0, raises
  `IndexError`. A rating from 0.0 to 0.4 is counted in the counter for 10.

## Model

| member | source | states |
|---|---|---|
| `RelationGraph.CountActors` | plex_graph/data.py:106-109 | If some actor credit names a person outside `people`, the result is `KeyError` for the first such credit. Otherwise every person maps to the number of times that name occurs among all movies' actor tuples, duplicates included. |
| `RelationGraph.CountMovieActors` | plex_graph/data.py:108-109 | One movie's inner loop. The counter grows by exactly this movie's actor credits, or the loop fails with `KeyError` for the movie's first unknown actor. |
| `RelationGraph.DropSet` | plex_graph/data.py:113-116 | The drop set is exactly the people whose count is below `min_relations`, whatever order the set is visited in. |
| `RelationGraph.SeedPeople` | plex_graph/data.py:122-124 | The nodes added before any movie are exactly one person node per survivor, whatever order the set is visited in. |
| `RelationGraph.LinkMovie` | plex_graph/data.py:128-136 | One movie entry adds its movie node iff one of its actors survived. It adds one edge to each surviving actor and nothing else. The `relation_found` flag makes `movie_count` grow by at most one. |
| `RelationGraph.Link` | plex_graph/data.py:122-136 | Nodes are every survivor plus every movie with at least one surviving actor. Edges are exactly the pairs (movie, actor of that movie who survived). `movie_count` is the number of list entries with a surviving actor. |
| `RelationGraph.BuildGraph` | plex_graph/data.py:100-141 | The pipeline fails exactly when some credited actor is unknown, and it reports the first one. Otherwise its graph equals `RelationGraphOf(data, min_relations)` and its movie count equals the number of linked entries. |
| `RelationGraph.CreditedIffActor` | plex_graph/data.py:107-109 | A name has a credit iff some movie lists it among its actors. |
| `RelationGraph.OnlyActorsCount` | plex_graph/data.py:107-109 | Counts depend on the actor tuples only. Writers, directors, genres and the other fields never change a count. |
| `RelationGraph.FirstUnknownIsUnknown` | plex_graph/data.py:109 | The reported unknown actor is a credited name outside `people`. There is none iff every credited name is a person. |
| `RelationGraph.PruneSplitsPeople` | plex_graph/data.py:113-118 | The survivors are a subset of the people. Survivors and drops are disjoint, and together they are all the people. |
| `RelationGraph.ThresholdMonotone` | plex_graph/data.py:113-136 | Raising the threshold never adds a survivor (as a set, and so in number), a movie node, an edge, or to the movie count. |
| `RelationGraph.GraphWellFormed` | plex_graph/data.py:126-136 | Every edge joins a movie node to a person node. Every movie node has at least one edge. |
| `RelationGraph.NoIsolatedPeople` | plex_graph/data.py:113-136 | When `min_relations >= 1`, every person node has at least one edge, so the graph has no isolated node. |
| `RelationGraph.UncreditedPeopleAreIsolated` | plex_graph/data.py:106-136 | A person with no actor credit never gets an edge. Such a person is a node iff `min_relations <= 0`. |
| `RelationGraph.SharedActorCredits` | plex_graph/data.py:107-109 | The credits of two movies with actors (X, Y) and (Y, Z) are X, Y, Y, Z in list order. |
| `RelationGraph.SharedActorSurvives` | plex_graph/data.py:106-118 | With actors (X, Y) and (Y, Z) at threshold 2, only Y survives. |
| `RelationGraph.SharedActorScenario` | plex_graph/data.py:100-136 | For the same data, the graph has nodes Y and both movies, and its edges join each movie to Y. |
| `RelationGraph.RatingSpellingsStayDistinct` | plex_graph/data.py:19-30 | Movies that differ only in the spelling of their rating ("7.8" and "07.8") are different values. When they share a surviving actor, both become movie nodes. |
| `RelationGraph.EmptyDataEmptyGraph` | plex_graph/data.py:100-136 | An empty dataset gives a graph with no nodes and no edges, at any threshold. |
| `RatingHistogram.Truncate` | plex_graph/data.py:87 | `int(rating)` truncates toward zero. It is the floor for non-negative ratings and the ceiling for negative ones. |
| `RatingHistogram.Floor` | plex_graph/data.py:88 | `math.floor(rating)` is the largest whole number not above the rating. |
| `RatingHistogram.BucketNumber` | plex_graph/data.py:86-88 | A non-negative rating is rounded half up (x.5 goes up). A negative rating is floored. |
| `RatingHistogram.PythonIndex` | plex_graph/data.py:89 | Indexing a list of length n succeeds iff the index lies in -n..n-1, and then reaches the position below n that equals the index modulo n. Any other index raises `IndexError`. |
| `RatingHistogram.Slot` | plex_graph/data.py:88-89 | A rating has a counter iff it lies in -9.0..10.4. Ratings 0.5..10.4 land in the counter of their rounded value. Ratings 0.0..0.4 wrap to the last counter. Ratings -9.0..-0.1 wrap into counters 0..8. |
| `RatingHistogram.Histogram` | plex_graph/data.py:82-89 | When defined, the histogram always has ten counters. |
| `RatingHistogram.HistogramDefined` | plex_graph/data.py:83-89 | The histogram is produced iff every rated movie's rating has a counter. Otherwise `IndexError` ends the function. |
| `RatingHistogram.HistogramTotal` | plex_graph/data.py:83-89 | Unrated movies are skipped and each rated movie adds one to exactly one counter, so the counters sum to the number of rated movies. |
| `RatingHistogram.HistogramCounts` | plex_graph/data.py:82-89 | Counter k is the number of movies whose rating lands in counter k. |
| `RatingHistogram.TwoRatedMovies` | plex_graph/data.py:82-89 | Ratings 7.8 and 9.5 fill the counters for 8 and 10, one each, and leave the others at zero. |
| `RatingHistogram.RatingHistogram` | plex_graph/data.py:78-89 | The loop over the ten-slot array returns exactly `Histogram(movies)`, including the `IndexError` case. |

## Left out

- `cache_store` and `cache_read` (plex_graph/data.py:47-75): shelve file I/O and the version-1 check. The dataset is a parameter instead.
- `nx.Graph`, `nx.draw`, `plot.show` and the `logging` calls (plex_graph/data.py:117-122, 137-141): an external graph library, rendering and logging. The graph is a value holding node and edge sets. Of the logged numbers, only `movie_count` is returned.
- Printing the histogram (plex_graph/data.py:90-97): console output only.
- `float(movie.rating)` (plex_graph/data.py:86): the model does not parse the string. A rated movie carries its rating string and that string's value in tenths side by side, and nothing checks that the two agree. Spellings such as "07.8" or " 7.8" stay distinct movies, as in the source. A rating string with two or more decimal digits, or one that is not a number (`ValueError`), is not modelled. For one-decimal ratings, the float comparison at line 88 agrees with the exact arithmetic.
- `Movie.__str__` and `__repr__` (plex_graph/data.py:32-36): display only.
- `plex_graph/plex.py`, `plex_graph/cli.py`, `setup.py` and `plex_graph/exceptions.py`: Plex account and server calls, configuration files, the command line and packaging. None of them is part of this model.
- Running `graph` twice on the same data gives the same graph. Dafny functions are deterministic, so this holds by construction and has no lemma.

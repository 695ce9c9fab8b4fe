/**
 The rating histogram of plex_graph/data.py `rating_histogram`: ten counters, one per
 rounded rating 1..10, each rated movie adding one to the counter its rating rounds to.
 */
module RatingHistogram {
  import opened Movies

  /** The histogram is a list of ten counters. */
  const Slots: int := 10

  /** Python's `int(rating)` on a rating of `t` tenths: truncation toward zero. */
  function Truncate(t: int): (r: int)
    ensures t >= 0 ==> 10 * r <= t < 10 * r + 10
    ensures t < 0 ==> 10 * r - 10 < t <= 10 * r
  {
    if t >= 0 then t / 10 else -((-t) / 10)
  }

  /** `math.floor(rating)` on a rating of `t` tenths. */
  function Floor(t: int): (r: int)
    ensures 10 * r <= t < 10 * r + 10
  {
    t / 10
  }

  /** The `i` of line 88: the floor, plus one when the tenths left after truncation are
      five or more. A non-negative rating is rounded half up; a negative one is floored,
      since its truncated remainder is never positive. */
  function BucketNumber(t: int): (i: int)
    ensures t >= 0 ==> 10 * i - 5 <= t < 10 * i + 5
    ensures t < 0 ==> 10 * i <= t < 10 * i + 10
  {
    Floor(t) + (if t - 10 * Truncate(t) < 5 then 0 else 1)
  }

  /** Python list indexing `xs[i]` for a list of length n: a negative index counts from
      the end, anything outside -n..n-1 raises IndexError (None). */
  function PythonIndex(i: int, n: nat): (r: Option<nat>)
    ensures r.Some? <==> -(n as int) <= i < n
    ensures r.Some? ==> r.value < n && (r.value - i) % n == 0
  {
    if 0 <= i < n then Some(i) else if -(n as int) <= i < 0 then Some(n + i) else None
  }

  /** The counter that `hist[i - 1] += 1` touches for a rating of `t` tenths. Ratings from
      0.5 up to 10.4 land in the counter of their rounded value; ratings from 0.0 to 0.4
      round to 0 and wrap round to the last counter; negative ratings from -9.0 to -0.1
      are floored and wrap into counters 0..8; ratings of 10.5 and above, or below -9.0,
      raise IndexError. */
  function Slot(t: int): (r: Option<nat>)
    ensures r.Some? <==> -90 <= t < 105
    ensures 5 <= t < 105 ==> r.Some? && 10 * r.value + 5 <= t < 10 * r.value + 15
    ensures 0 <= t < 5 ==> r == Some(Slots - 1)
    ensures -90 <= t < 0 ==> r.Some? && 10 * (r.value - 9) <= t < 10 * (r.value - 9) + 10
  {
    PythonIndex(BucketNumber(t) - 1, Slots)
  }

  /** The histogram after the given movies, or None when one of them raises IndexError. */
  function Histogram(movies: seq<Movie>): (r: Option<seq<nat>>)
    ensures r.Some? ==> |r.value| == Slots
  {
    if movies == [] then Some(seq(Slots, _ => 0))
    else
      match Histogram(movies[..|movies| - 1])
      case None => None
      case Some(h) =>
        match movies[|movies| - 1].rating
        case Unrated => Some(h)
        case Rated(_, t) =>
          match Slot(t)
          case None => None
          case Some(k) => Some(h[k := h[k] + 1])
  }

  /** The number of movies with a non-empty rating. */
  function RatedCount(movies: seq<Movie>): nat
  {
    if movies == [] then 0
    else RatedCount(movies[..|movies| - 1]) + (if movies[|movies| - 1].rating.Rated? then 1 else 0)
  }

  /** The number of movies whose rating lands in counter k. */
  function SlotCount(movies: seq<Movie>, k: nat): nat
  {
    if movies == [] then 0
    else
      SlotCount(movies[..|movies| - 1], k)
      + (match movies[|movies| - 1].rating
         case Unrated => 0
         case Rated(_, t) => if Slot(t) == Some(k) then 1 else 0)
  }

  /** Every rated movie's rating has a counter. */
  predicate AllInRange(movies: seq<Movie>)
  {
    forall i :: 0 <= i < |movies| && movies[i].rating.Rated? ==> Slot(movies[i].rating.tenths).Some?
  }

  function Sum(s: seq<nat>): nat
  {
    if s == [] then 0 else Sum(s[..|s| - 1]) + s[|s| - 1]
  }

  // ---------------------------------------------------------------------------
  // Lemmas

  lemma {:induction false} SumIncrement(s: seq<nat>, k: nat)
    requires k < |s|
    ensures Sum(s[k := s[k] + 1]) == Sum(s) + 1
  {
    var t := s[k := s[k] + 1];
    assert t[..|t| - 1] == if k < |s| - 1 then s[..|s| - 1][k := s[k] + 1] else s[..|s| - 1];
    if k < |s| - 1 {
      SumIncrement(s[..|s| - 1], k);
    }
  }

  lemma {:induction false} SumZeros(n: nat)
    ensures Sum(seq(n, _ => 0)) == 0
  {
    if n > 0 {
      assert seq(n, _ => 0)[..n - 1] == seq(n - 1, _ => 0);
      SumZeros(n - 1);
    }
  }

  /** The histogram exists exactly when no rated movie's rating is out of range. */
  lemma {:induction false} HistogramDefined(movies: seq<Movie>)
    ensures Histogram(movies).Some? <==> AllInRange(movies)
  {
    if movies != [] {
      var init := movies[..|movies| - 1];
      HistogramDefined(init);
      assert forall i :: 0 <= i < |init| ==> init[i] == movies[i];
    }
  }

  /** Each rated movie adds exactly one to the counters, unrated ones nothing: the counters
      add up to the number of rated movies. */
  lemma {:induction false} HistogramTotal(movies: seq<Movie>)
    requires Histogram(movies).Some?
    ensures Sum(Histogram(movies).value) == RatedCount(movies)
  {
    if movies == [] {
      SumZeros(Slots);
    } else {
      var init := movies[..|movies| - 1];
      HistogramTotal(init);
      match movies[|movies| - 1].rating
      case Unrated =>
      case Rated(_, t) =>
        SumIncrement(Histogram(init).value, Slot(t).value);
    }
  }

  /** Counter k holds the number of movies whose rating lands in counter k. */
  lemma {:induction false} HistogramCounts(movies: seq<Movie>, k: nat)
    requires Histogram(movies).Some?
    requires k < Slots
    ensures Histogram(movies).value[k] == SlotCount(movies, k)
  {
    if movies != [] {
      HistogramCounts(movies[..|movies| - 1], k);
    }
  }

  /** Two movies rated 7.8 and 9.5 land in the counters of ratings 8 and 10. */
  lemma TwoRatedMovies(a: Movie, b: Movie)
    requires a.rating.Rated? && a.rating.tenths == 78 && b.rating.Rated? && b.rating.tenths == 95
    ensures Histogram([a, b]) == Some([0, 0, 0, 0, 0, 0, 0, 1, 0, 1])
  {
    var zeros: seq<nat> := [0, 0, 0, 0, 0, 0, 0, 0, 0, 0];
    assert seq(Slots, _ => 0) == zeros;
    assert Slot(78) == Some(7) && Slot(95) == Some(9);
    assert [a][..0] == [];
    assert Histogram([a]) == Some(zeros[7 := 1]);
    assert [a, b][..1] == [a];
    assert Histogram([a, b]) == Some(zeros[7 := 1][9 := 1]);
    assert zeros[7 := 1][9 := 1] == [0, 0, 0, 0, 0, 0, 0, 1, 0, 1];
  }

  // ---------------------------------------------------------------------------
  // The algorithm

  /** Lines 82-89: start from ten zero counters; skip movies with an empty rating; add one
      to `hist[i - 1]` for each rated movie, where an index out of range raises IndexError. */
  method RatingHistogram(data: MovieData) returns (r: Option<seq<nat>>)
    ensures r == Histogram(data.movies)
  {
    var movies := data.movies;
    var hist := new nat[Slots](_ => 0);
    var n := 0;
    assert hist[..] == seq(Slots, _ => 0);
    while n < |movies|
      invariant 0 <= n <= |movies|
      invariant Histogram(movies[..n]) == Some(hist[..])
    {
      var movie := movies[n];
      assert movies[..n + 1][..n] == movies[..n];
      if movie.rating.Unrated? {
        n := n + 1;
        continue;
      }
      var i := BucketNumber(movie.rating.tenths);
      if !(-Slots <= i - 1 < Slots) {
        HistogramDefined(movies);
        return None;
      }
      var k := if i - 1 >= 0 then i - 1 else Slots + (i - 1);
      hist[k] := hist[k] + 1;
      n := n + 1;
    }
    assert movies[..n] == movies;
    r := Some(hist[..]);
  }
}

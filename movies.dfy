/**
 The movie records harvested from a media server: the frozen `Movie` value and the
 `MovieData` aggregate of all movies, genres and people (plex_graph/data.py).
 */
module Movies {

  datatype Option<+T> = None | Some(value: T)

  datatype Result<+T, +E> = Ok(value: T) | Err(error: E)

  /** A movie's rating string: empty, or a non-empty decimal string kept verbatim in
      `text` together with its value as an exact count of tenths (so "7.8" is
      Rated("7.8", 78) and "07.8" is Rated("07.8", 78)). Movie identity compares the
      text, as the frozen record does; the histogram uses only the tenths. */
  datatype Rating = Unrated | Rated(text: string, tenths: int)

  /** A frozen record with structural equality: two entries with identical metadata are
      the same value. Role lists are tuples, so a name may occur twice in one list. */
  datatype Movie = Movie(
    name: string,
    year: int,
    studio: string,
    contentRating: string,
    rating: Rating,
    writers: seq<string>,
    directors: seq<string>,
    actors: seq<string>,
    genres: seq<string>)

  /** Everything harvested: the set of genres, the set of people in any role, and the
      movies in harvest order. */
  datatype MovieData = MovieData(genres: set<string>, people: set<string>, movies: seq<Movie>)
}

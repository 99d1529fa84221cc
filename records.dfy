/** The persistent records the views read and write. */
module Records {
  import opened Calendar

  /** The document returned by the external movie lookup, reduced to its
      string-valued fields (`details['Title']` is one of them). */
  datatype Details = Details(fields: map<string, string>)

  /** A stored movie: primary key, title, lookup document and the unique
      slug derived from the title. */
  datatype Movie = Movie(id: int, title: string, details: Details, slug: string)

  /** A stored comment: primary key, the movie it belongs to, its creation
      time and its text. */
  datatype Comment = Comment(id: int, movieId: int, created: Timestamp, text: string)

  /** Primary keys are unique across the movie table. */
  ghost predicate MovieIdsUnique(movies: seq<Movie>) {
    forall i, j | 0 <= i < j < |movies| :: movies[i].id != movies[j].id
  }

  predicate MovieExists(movies: seq<Movie>, id: int) {
    exists m | m in movies :: m.id == id
  }
}

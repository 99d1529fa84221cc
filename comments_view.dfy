/** `CommentsViewSet.get_queryset`: the comment list, optionally narrowed to
    one movie by the `movie_id` query parameter. */
module CommentsViewSet {
  import opened Wrappers
  import opened Decimal
  import opened Records
  import opened Seqs

  datatype QuerysetResult =
    | Comments(items: seq<Comment>)
    | InvalidMovieId    // exceptions.ValidationError, 400
    | MovieNotFound     // get_object_or_404, 404

  /** The queryset for a snapshot of the two tables and the optional
      `movie_id` parameter. */
  function GetQueryset(movies: seq<Movie>, comments: seq<Comment>, movieId: Option<string>): (r: QuerysetResult)
    ensures movieId.None? ==> r == Comments(comments)
    ensures r.InvalidMovieId? <==> movieId.Some? && ParseInt(movieId.value).None?
    ensures r.MovieNotFound? <==>
      movieId.Some? && ParseInt(movieId.value).Some? && !MovieExists(movies, ParseInt(movieId.value).value)
    ensures r.Comments? && movieId.Some? ==>
      && ParseInt(movieId.value).Some?
      && (forall c: Comment :: c in r.items <==> c in comments && c.movieId == ParseInt(movieId.value).value)
      && (forall c: Comment | c.movieId == ParseInt(movieId.value).value :: multiset(r.items)[c] == multiset(comments)[c])
  {
    match movieId
    case None => Comments(comments)
    case Some(text) =>
      match ParseInt(text)
      case None => InvalidMovieId
      case Some(id) =>
        if MovieExists(movies, id) then Comments(Filter(comments, (c: Comment) => c.movieId == id))
        else MovieNotFound
  }

  /** A `movie_id` written the way Python prints an integer selects that
      movie: either no such movie exists, or the result is exactly its
      comments, each as often as it is stored. */
  lemma {:induction false} IntegerMovieIdSelects(movies: seq<Movie>, comments: seq<Comment>, id: int)
    ensures var r := GetQueryset(movies, comments, Some(IntToString(id)));
      && (r.MovieNotFound? <==> !MovieExists(movies, id))
      && (r.Comments? <==> MovieExists(movies, id))
      && (r.Comments? ==> forall c: Comment :: multiset(r.items)[c] == if c.movieId == id then multiset(comments)[c] else 0)
  {
    ParseIntOfIntToString(id);
    var r := GetQueryset(movies, comments, Some(IntToString(id)));
    if r.Comments? {
      forall c: Comment ensures multiset(r.items)[c] == if c.movieId == id then multiset(comments)[c] else 0 {
        if c.movieId != id {
          assert c !in r.items;
        }
      }
    }
  }

  /** A `movie_id` holding a character that is neither a digit nor a leading
      sign (`'abcd'`) is rejected before any lookup. */
  lemma NonIntegerMovieIdRejected(movies: seq<Movie>, comments: seq<Comment>, text: string, k: nat)
    requires k < |text| && !IsDigit(text[k]) && !(k == 0 && (text[0] == '+' || text[0] == '-'))
    ensures GetQueryset(movies, comments, Some(text)) == InvalidMovieId
  {
    ParseIntRejectsNonDigit(text, k);
  }
}

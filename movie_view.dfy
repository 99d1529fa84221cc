/** `MovieViewSet.create`: adding a movie by title. The title is checked,
    its slug looked up, the external movie service consulted, and the movie
    saved under the slug of the title the service returns. `slugify` and the
    service are outside the model: the first is a parameter, the second is
    represented by the outcome it produced. */
module MovieViewSet {
  import opened Wrappers
  import opened Records

  /** What the external lookup of a title ended with. */
  datatype Lookup =
    | Found(details: Details)      // the movie document
    | HttpError(reason: string)    // requests' HTTPError (including "Movie not found")
    | RequestFailed                // any other RequestException (timeout, connection)

  datatype CreateResponse =
    | InvalidRequest              // serializer errors, 400
    | AlreadyExists               // 'Movie with given title already exists.', 409
    | LookupError(reason: string) // the HTTPError text, with no status given: 200
    | ServiceUnavailable          // 503
    | TitleMissing                // `details['Title']` raises KeyError: 500
    | Created(movie: Movie)       // the saved movie, with no status given: 200

  /** The HTTP status each outcome is answered with: the conflict, the
      unavailable service and the uncaught `KeyError` each have their own,
      and both the lookup's HTTP error and the created movie are sent
      without one, so with 200. */
  function StatusCode(r: CreateResponse): (status: int)
    ensures status == 400 <==> r.InvalidRequest?
    ensures status == 409 <==> r.AlreadyExists?
    ensures status == 503 <==> r.ServiceUnavailable?
    ensures status == 500 <==> r.TitleMissing?
    ensures status == 200 <==> r.LookupError? || r.Created?
  {
    match r
    case InvalidRequest => 400
    case AlreadyExists => 409
    case LookupError(_) => 200
    case ServiceUnavailable => 503
    case TitleMissing => 500
    case Created(_) => 200
  }

  const MaxTitleLength := 255

  /** Python's `str.isspace` for the characters it holds true of. */
  predicate IsWhitespace(c: char) {
    || ('\t' <= c <= '\r')
    || ('\U{1C}' <= c <= ' ')
    || c == '\U{85}' || c == '\U{A0}' || c == '\U{1680}'
    || ('\U{2000}' <= c <= '\U{200A}')
    || c == '\U{2028}' || c == '\U{2029}' || c == '\U{202F}' || c == '\U{205F}' || c == '\U{3000}'
  }

  /** `s.lstrip()`: the suffix of `s` after its leading whitespace. */
  function TrimStart(s: string): (r: string)
    ensures |r| <= |s|
  {
    if |s| > 0 && IsWhitespace(s[0]) then TrimStart(s[1..]) else s
  }

  /** `s.rstrip()`: the prefix of `s` before its trailing whitespace. */
  function TrimEnd(s: string): (r: string)
    ensures |r| <= |s|
  {
    if |s| > 0 && IsWhitespace(s[|s| - 1]) then TrimEnd(s[..|s| - 1]) else s
  }

  /** `s.strip()`, which the request serializer applies to `title`. */
  function Trim(s: string): string {
    TrimEnd(TrimStart(s))
  }

  /** `lstrip` removes exactly the leading run of whitespace. */
  lemma {:induction false} TrimStartRemovesLeading(s: string)
    ensures var r := TrimStart(s);
      && r == s[|s| - |r|..]
      && (r == [] || !IsWhitespace(r[0]))
      && forall i | 0 <= i < |s| - |r| :: IsWhitespace(s[i])
  {
    if |s| > 0 && IsWhitespace(s[0]) {
      TrimStartRemovesLeading(s[1..]);
    }
  }

  /** `rstrip` removes exactly the trailing run of whitespace. */
  lemma {:induction false} TrimEndRemovesTrailing(s: string)
    ensures var r := TrimEnd(s);
      && r == s[..|r|]
      && (r == [] || !IsWhitespace(r[|r| - 1]))
      && forall i | |r| <= i < |s| :: IsWhitespace(s[i])
  {
    if |s| > 0 && IsWhitespace(s[|s| - 1]) {
      TrimEndRemovesTrailing(s[..|s| - 1]);
    }
  }

  /** Stripping leaves nothing exactly when the text is all whitespace, and
      otherwise leaves a piece of the text with no whitespace at either end. */
  lemma TrimBlankIff(s: string)
    ensures Trim(s) == [] <==> forall i | 0 <= i < |s| :: IsWhitespace(s[i])
    ensures Trim(s) != [] ==>
      && !IsWhitespace(Trim(s)[0]) && !IsWhitespace(Trim(s)[|Trim(s)| - 1])
      && exists a, b | 0 <= a <= b <= |s| :: Trim(s) == s[a..b]
  {
    var t := TrimStart(s);
    var r := TrimEnd(t);
    TrimStartRemovesLeading(s);
    TrimEndRemovesTrailing(t);
    var a := |s| - |t|;
    if r == [] {
      assert t == [];
      forall i | 0 <= i < |s| ensures IsWhitespace(s[i]) {
      }
    } else {
      assert r[0] == t[0];
      assert r == s[a..a + |r|];
    }
  }

  /** The request serializer's rule for `title`: present, not blank once
      stripped, and at most 255 characters once stripped. */
  predicate ValidTitle(title: Option<string>) {
    && title.Some?
    && Trim(title.value) != []
    && |Trim(title.value)| <= MaxTitleLength
  }

  predicate SlugTaken(movies: seq<Movie>, slug: string) {
    exists m | m in movies :: m.slug == slug
  }

  /** The unique constraint on `Movie.slug`. */
  ghost predicate SlugsUnique(movies: seq<Movie>) {
    forall i, j | 0 <= i < j < |movies| :: movies[i].slug != movies[j].slug
  }

  /** Every stored key is below the next key the table hands out. */
  ghost predicate IdsBelow(movies: seq<Movie>, nextId: int) {
    forall m | m in movies :: m.id < nextId
  }

  /** The outcome of `create` and the movie table after it, for the table
      `movies` whose next primary key is `nextId`. */
  function CreateMovie(movies: seq<Movie>, nextId: int, title: Option<string>,
                       slugify: string -> string, lookup: Lookup): (r: (CreateResponse, seq<Movie>))
    ensures !r.0.Created? ==> r.1 == movies
    ensures r.0.Created? ==>
      && lookup.Found? && "Title" in lookup.details.fields
      && r.0.movie == Movie(nextId, lookup.details.fields["Title"], lookup.details,
                            slugify(lookup.details.fields["Title"]))
      && !SlugTaken(movies, r.0.movie.slug)
      && r.1 == movies + [r.0.movie]
    ensures SlugsUnique(movies) ==> SlugsUnique(r.1)
    ensures IdsBelow(movies, nextId) && MovieIdsUnique(movies) ==> IdsBelow(r.1, nextId + 1) && MovieIdsUnique(r.1)
  {
    if !ValidTitle(title) then
      (InvalidRequest, movies)
    else if SlugTaken(movies, slugify(Trim(title.value))) then
      (AlreadyExists, movies)
    else
      match lookup
      case HttpError(reason) => (LookupError(reason), movies)
      case RequestFailed => (ServiceUnavailable, movies)
      case Found(details) =>
        if "Title" !in details.fields then
          (TitleMissing, movies)
        else
          var found := details.fields["Title"];
          var slug := slugify(found);
          if SlugTaken(movies, slug) then
            (AlreadyExists, movies)
          else
            var movie := Movie(nextId, found, details, slug);
            assert forall i | 0 <= i < |movies| :: movies[i].slug != slug by {
              forall i | 0 <= i < |movies| ensures movies[i].slug != slug {
                assert movies[i] in movies;
              }
            }
            assert IdsBelow(movies, nextId) ==> forall i | 0 <= i < |movies| :: movies[i].id != nextId by {
              forall i | 0 <= i < |movies| && IdsBelow(movies, nextId) ensures movies[i].id != nextId {
                assert movies[i] in movies;
              }
            }
            (Created(movie), movies + [movie])
  }

  /** The checks made before the lookup: an invalid title is the only
      400, and a requested slug already stored is a 409 whatever the lookup
      gives. */
  lemma CreateRejections(movies: seq<Movie>, nextId: int, title: Option<string>,
                         slugify: string -> string, lookup: Lookup)
    ensures var resp := CreateMovie(movies, nextId, title, slugify, lookup).0;
      && (StatusCode(resp) == 400 <==> !ValidTitle(title))
      && (ValidTitle(title) && SlugTaken(movies, slugify(Trim(title.value))) ==> resp == AlreadyExists)
  {
  }

  /** Once the title is valid and its slug free, the lookup decides: a
      failed request is the only 503, an HTTP error is reported with its
      reason, and the movie is created exactly when the returned title is
      present and its slug is free too; otherwise the answer is 409. */
  lemma CreateLookupOutcomes(movies: seq<Movie>, nextId: int, title: Option<string>,
                             slugify: string -> string, lookup: Lookup)
    requires ValidTitle(title) && !SlugTaken(movies, slugify(Trim(title.value)))
    ensures var resp := CreateMovie(movies, nextId, title, slugify, lookup).0;
      && (StatusCode(resp) == 503 <==> lookup.RequestFailed?)
      && (resp.LookupError? <==> lookup.HttpError?)
      && (lookup.HttpError? ==> resp == LookupError(lookup.reason))
      && (resp == TitleMissing <==> lookup.Found? && "Title" !in lookup.details.fields)
      && (resp.Created? <==>
            lookup.Found? && "Title" in lookup.details.fields
            && !SlugTaken(movies, slugify(lookup.details.fields["Title"])))
      && (resp == AlreadyExists <==>
            lookup.Found? && "Title" in lookup.details.fields
            && SlugTaken(movies, slugify(lookup.details.fields["Title"])))
  {
  }

  /** The store behind `Movie.objects`: the movie table and the next primary
      key it will hand out. */
  class MovieStore {
    var movies: seq<Movie>
    var nextId: int

    ghost predicate Valid()
      reads this
    {
      SlugsUnique(movies) && MovieIdsUnique(movies) && IdsBelow(movies, nextId)
    }

    constructor ()
      ensures Valid() && movies == [] && nextId == 1
    {
      movies := [];
      nextId := 1;
    }

    /** `movie.save()`: an insert that the unique slug constraint refuses
      with `IntegrityError` (here `None`). */
    method Save(title: string, details: Details, slug: string) returns (saved: Option<Movie>)
      requires Valid()
      modifies this
      ensures Valid()
      ensures saved.None? <==> SlugTaken(old(movies), slug)
      ensures saved.Some? ==>
        && saved.value == Movie(old(nextId), title, details, slug)
        && movies == old(movies) + [saved.value]
        && nextId == old(nextId) + 1
      ensures saved.None? ==> movies == old(movies) && nextId == old(nextId)
    {
      if SlugTaken(movies, slug) {
        return None;
      }
      var movie := Movie(nextId, title, details, slug);
      assert forall i | 0 <= i < |movies| :: movies[i].slug != slug && movies[i].id != nextId by {
        forall i | 0 <= i < |movies| ensures movies[i].slug != slug && movies[i].id != nextId {
          assert movies[i] in movies;
        }
      }
      movies := movies + [movie];
      nextId := nextId + 1;
      return Some(movie);
    }

    /** `MovieViewSet.create` */
    method Create(title: Option<string>, slugify: string -> string, lookup: Lookup)
      returns (resp: CreateResponse)
      requires Valid()
      modifies this
      ensures Valid()
      ensures (resp, movies) == CreateMovie(old(movies), old(nextId), title, slugify, lookup)
      ensures nextId == if resp.Created? then old(nextId) + 1 else old(nextId)
    {
      if !ValidTitle(title) {
        return InvalidRequest;
      }
      if SlugTaken(movies, slugify(Trim(title.value))) {
        return AlreadyExists;
      }
      match lookup {
        case HttpError(reason) =>
          return LookupError(reason);
        case RequestFailed =>
          return ServiceUnavailable;
        case Found(details) =>
          if "Title" !in details.fields {
            return TitleMissing;
          }
          var found := details.fields["Title"];
          var saved := Save(found, details, slugify(found));
          if saved.None? {
            return AlreadyExists;
          }
          return Created(saved.value);
      }
    }
  }
}

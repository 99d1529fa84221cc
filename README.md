# Movies API views, modelled in Dafny

This project models the request handling of a small Django REST service.
The service stores movies, fetched by title from an external movie
database, and comments on them. It reports the most-commented movies over
a range of days. Four handlers from `src/api/views.py` are modelled:

- `TopMovies.get_start_end_date_from_request`: validates the `start` and
  `end` query parameters (`YYYY-MM-DD`). It reports missing keys (404) and
  unparseable dates (400), moves `end` one day forward, and rejects a range
  whose advanced end lies before the start (400).
- `TopMovies.get`: builds the report. Every movie is annotated with the
  number of its comments created between `start` 00:00 and the advanced
  `end` 00:00, with zero for movies that have none. Each movie gets the
  dense rank of that number in descending order. The rows are ordered by
  `(-total_comments, id)` and projected to `movie_id`, `total_comments`
  and `rank`.
- `CommentsViewSet.get_queryset`: lists all comments, or only those of the
  movie named by `movie_id`. A non-integer id is a 400 and an unknown
  movie is a 404.
- `MovieViewSet.create`: validates the title, refuses a title whose slug
  is already stored (409), and asks the external service for the movie.
  A failed request is a 503; an HTTP error is reported with its reason
  (status 200). Otherwise the movie is saved under the slug of the title
  the service returned. A collision of that slug on save is also a 409.

Layout:

- `wrappers.dfy`: the `Option` type.
- `decimal.dfy`: decimal digit strings, and Python's `int()` on them.
- `calendar.dfy`: proleptic Gregorian dates (years 1 to 9999); `strptime`
  and `strftime` for `%Y-%m-%d`; the day after a date; timestamps and SQL
  `BETWEEN`.
- `seqs.dfy`: sequence filtering and permutation facts.
- `records.dfy`: the `Movie` and `Comment` rows.
- `ranking.dfy`: the report query, as pure functions over snapshots of the
  two tables.
- `top_movies.dfy`: the validator as a specification function; the
  validator as an imperative method proved equal to it; the `get` handler.
- `top_scenario.dfy`: the one-day scenario from the report's tests, worked
  out on the model.
- `comments_view.dfy`: `get_queryset`.
- `movie_view.dfy`: the outcome of `create` as a function, and the movie
  table as a class whose `Create` method is proved against that function.
  The class keeps slugs unique and primary keys unique and fresh.

### Where the code and its intended behaviour part ways

The model follows the code as written in each of these cases:

- **A start one day after the end is accepted.** The range check compares
  the *advanced* end with the start (`src/api/views.py:148`). So
  `start=2018-01-02&end=2018-01-01` passes, with the window
  `[2018-01-02 00:00, 2018-01-02 00:00]`. `src/api/tests/test_top.py:156-162`
  expects a 400 for it. `TopMovies.StartAfterEndIff` and
  `TopMovies.StartOneDayAfterEndAccepted` state the behaviour as written.
- **Midnight after the end day is counted.** The window is passed to
  `__range`, which is SQL `BETWEEN` and inclusive at both ends. A comment
  created at exactly 00:00:00.000000 on the day after `end` is therefore
  counted, although the intent is to cover whole days from `start` to `end`.
  `Ranking.WindowCoversDays` states exactly which instants are counted.
- **The last representable end date is a server error.** Moving
  `9999-12-31` forward raises `OverflowError`, which the `except ValueError`
  does not catch. The request fails with a 500, whatever `start` holds
  (`TopMovies.EndOverflowIff`).
- **A created movie is answered with 200.** `create` returns its
  `Response` without a status (`src/api/views.py:82`).
  `src/api/tests/test_model_views.py:211` expects 201.
- **An HTTP error from the lookup is also answered with 200.** The
  response body carries the reason and no status is set
  (`src/api/views.py:59-63`).

## Model

| member | source | states |
|---|---|---|
| `TopMovies.GetStartEndDate` | src/api/views.py:111-154 | The imperative validator (accumulated missing and invalid keys, `end` advanced in place) returns exactly the outcome of the check ladder `ValidateRange`. |
| `TopMovies.MissingParamsReported` | src/api/views.py:113-126 | Not-found is raised exactly when a key is absent. It names each absent key once and no present key, whatever the other parameter holds. |
| `TopMovies.InvalidDatesReported` | src/api/views.py:128-146 | Below the overflow case, a validation error on the format is raised exactly when some date does not parse. It names each unparseable date once and no valid one. |
| `TopMovies.EndOverflowIff` | src/api/views.py:136-144 | The request ends in the uncaught overflow exactly when `end` parses to 9999-12-31, even when `start` is invalid. |
| `TopMovies.DateRangeBounds` | src/api/views.py:137-154 | On success `start` is returned unchanged. The returned end is the canonical text of the day after `end`: it parses back to that day, which lies one day number later. It is not before the start. |
| `TopMovies.StartAfterEndIff` | src/api/views.py:148-153 | The range error is raised exactly when `end` is at least two days before `start`. |
| `TopMovies.StartOneDayAfterEndAccepted` | src/api/views.py:148-154 | `start=2018-01-02&end=2018-01-01` is accepted and returns `("2018-01-02", "2018-01-02")`. |
| `TopMovies.Get` | src/api/views.py:156-182 | A rejected range is answered with that error. An accepted one is answered with the report for the window from the start date to the day after the end date. The status is 404 exactly when a key is missing. It is 500 exactly when `end` is 9999-12-31. It is 400 exactly when a date does not parse or `end` is at least two days before `start`. It is 200 exactly when the range is accepted. |
| `TopMovies.StatusCode` | src/api/views.py:126-153 | Not-found is the only 404, the uncaught overflow the only 500, the report the only 200, and every other validation error a 400. |
| `Ranking.TopList` | src/api/views.py:160-172 | The report is ordered by descending total, then ascending movie id. It is a permutation of the per-movie entries. |
| `Ranking.TotalCommentsZeroIff` | src/api/views.py:160-167 | A movie's total is zero exactly when none of its comments falls in the window (the `Coalesce` default). |
| `Ranking.TopListEntries` | src/api/views.py:160-181 | The report has one entry per movie (left join). Every movie's entry is in it, and every entry is some movie's. |
| `Ranking.TopListFields` | src/api/views.py:160-181 | Each entry's total is the count of that movie's comments in the window. Its rank is the dense rank of that total among all totals. |
| `Ranking.TopListOnePerMovie` | src/api/views.py:160-181 | With unique primary keys, every movie id appears in the report and no id appears twice. |
| `Ranking.TotalsAreEntryTotals` | src/api/views.py:160-172 | The totals shown in the report are exactly the annotated totals. |
| `Ranking.TopListRanks` | src/api/views.py:168-172 | The first rank is 1. Ranks never decrease down the report and grow by at most one per row. Two entries share a rank exactly when they share a total. |
| `Ranking.DenseRankOrder` | src/api/views.py:168-171 | A larger total never gets a larger rank. A larger total that occurs gets a strictly smaller one. |
| `Ranking.DenseRankNoGap` | src/api/views.py:168-171 | Consecutive distinct totals have consecutive ranks. |
| `Ranking.DenseRankOfMaximum` | src/api/views.py:168-171 | The largest total has rank 1. |
| `Ranking.NoCommentsInWindow` | src/api/views.py:160-172 | With no comment in the window, every movie is reported with total 0 and rank 1, in ascending id order. |
| `Ranking.WindowCoversDays` | src/api/views.py:138-140 | An instant is counted exactly when its day lies from start to end, or it is the instant 00:00 of the day after end. |
| `TopScenario.OneDayRequest` | src/api/tests/test_top.py:65-71 | `start=end=2018-04-07` is accepted with the bounds 2018-04-07 and 2018-04-08. |
| `TopScenario.OneDayReport` | src/api/tests/test_top.py:15-87 | On the test fixture, 2018-04-07 gives the second movie (1 comment, rank 1), then the first movie (0 comments, rank 2). |
| `Calendar.AddOneDay` | src/api/views.py:139 | The next day is absent exactly for 9999-12-31. Otherwise it is a valid date after the given one. |
| `Calendar.NextDayNumber` | src/api/views.py:139 | The next day's ordinal is one more than the date's. |
| `Calendar.NothingBetweenNextDay` | src/api/views.py:139 | No valid date lies strictly between a date and its next day. |
| `Calendar.BeforeIffSmallerDayNumber` | src/api/views.py:148 | The comparison of dates agrees with the comparison of their day ordinals, and equal ordinals mean equal dates. |
| `Calendar.ParseDate` | src/api/views.py:131 | Whatever `%Y-%m-%d` parsing accepts is a valid date. |
| `Calendar.ParseFormat` | src/api/views.py:137-140 | Parsing the formatted text of a valid date gives the date back. |
| `Calendar.FormatParse` | src/api/views.py:137-140 | Formatting a parsed date gives back the exact text that was parsed. |
| `CommentsViewSet.GetQueryset` | src/api/views.py:91-106 | With no `movie_id` every comment is listed. A non-integer id is rejected. An integer id naming no movie is not found. Otherwise the result is exactly that movie's comments, each as often as stored. |
| `CommentsViewSet.IntegerMovieIdSelects` | src/api/views.py:94-105 | An id written as Python prints integers is not found exactly when no such movie exists. Otherwise the multiset of results is the multiset of that movie's comments. |
| `CommentsViewSet.NonIntegerMovieIdRejected` | src/api/views.py:96-103 | A `movie_id` with a character that is neither a digit nor a leading sign is rejected. |
| `Decimal.ParseIntOfIntToString` | src/api/views.py:97 | `int()` reads back every integer from its decimal text. |
| `Decimal.ParseIntRejectsNonDigit` | src/api/views.py:97-98 | `int()` fails on text holding a character that is neither a digit nor a leading sign. |
| `Decimal.NatDigitsValue` | src/api/views.py:97 | The decimal text of a natural number has that number as its value. |
| `Seqs.Filter` | src/api/views.py:105 | Filtering keeps exactly the elements satisfying the condition, each as often as it occurs, and drops the others. |
| `MovieViewSet.TrimBlankIff` | src/api/serializers.py:15 | The stripped title is empty exactly when the title is all whitespace. Otherwise it is a piece of the title with no whitespace at either end. |
| `MovieViewSet.TrimStartRemovesLeading` | src/api/serializers.py:15 | Left stripping removes exactly the leading whitespace. |
| `MovieViewSet.TrimEndRemovesTrailing` | src/api/serializers.py:15 | Right stripping removes exactly the trailing whitespace. |
| `MovieViewSet.StatusCode` | src/api/views.py:38-82 | 400 is exactly the invalid request, 409 exactly the existing slug, 503 exactly the unavailable service, and 500 exactly the missing `Title`. 200 is exactly the lookup's HTTP error or the created movie, both answered without a status. |
| `MovieViewSet.CreateMovie` | src/api/views.py:43-82 | Outside creation the table is unchanged. A creation appends the movie under the next key, with the returned title and document and a slug no stored movie has. Unique slugs, unique keys and fresh keys are preserved. |
| `MovieViewSet.CreateRejections` | src/api/views.py:43-52 | A 400 is answered exactly when the title is invalid. A valid title whose slug is stored is a 409, whatever the lookup would give. |
| `MovieViewSet.CreateLookupOutcomes` | src/api/views.py:55-82 | After the first checks, a 503 is answered exactly for a failed request, and an HTTP error is answered with its reason. A missing `Title` is the 500. The movie is created exactly when the returned title's slug is free, and is otherwise refused with a 409. |
| `MovieViewSet.MovieStore.Save` | src/api/views.py:73-79 | The insert is refused exactly when the slug is stored. Otherwise the movie is appended under the next key. The table invariant is kept either way. |
| `MovieViewSet.MovieStore.Create` | src/api/views.py:31-82 | The answer and the new table are those of `CreateMovie`. The key counter advances only on creation, and the invariant is kept. |

## Left out

- The external movie service (`src/api/services.py`), reached over the
  network, is represented only by its outcome: a document, an HTTP error
  with its reason, or another request failure.
- `slugify` is a parameter of `create`; its rules are not modelled.
- Message texts, logging, JSON rendering of responses and the serializers
  used for output are not modelled. Each outcome is a constructor that
  carries the keys it names.
- The ORM and SQL are not modelled: the report and the comment list are
  functions of snapshots of the two tables. Time zone conversion of the
  bounds and of `created` is not modelled; both are naive timestamps.
- `Calendar.ParseDate`: `strptime` also accepts one-digit months and days
  (and a space before a one-digit day), and non-ASCII decimal digits in the
  year and the day (`２０１８-04-07` reads as 2018-04-07). The model accepts exactly two
  digits each, so the one-to-one correspondence `Calendar.FormatParse`
  states holds of the model's parser only.
- `Calendar.Format`: the year is always four digits. The C library's
  `%Y` does not zero-pad years below 1000, and such an end bound would then
  be handed to the query as a shorter text.
- `Decimal.ParseInt`: Python's `int()` also skips surrounding whitespace,
  accepts `_` between digits, and reads non-ASCII decimal digits. The model
  accepts an optional sign followed by ASCII digits.
- `MovieViewSet.ValidTitle`: a title sent as a non-string JSON value is
  converted by the serializer; the model takes the title as text or absent.
- The database's column limits are not modelled. A returned title or slug
  over 255 characters raises an uncaught `DataError` on save.
- `MovieViewSet.MovieStore.Save`, `MovieViewSet.MovieStore.Create`: the
  database sequence also consumes a key on a refused insert, including the
  409 that `Create` answers when the returned title's slug collides on save. The model advances the key only on success, which
  changes which key a movie receives but not uniqueness or freshness.
- `MovieViewSet.CreateMovie`: details values other than text are not
  modelled; the document is a map from field names to strings.
- Concurrency between requests (two creations racing past the slug check)
  is not modelled. The unique constraint that `Save` models is what
  resolves that race.
- The other handlers of the two view sets (list, retrieve, comment
  creation) come from the framework's mixins and are not part of this
  model.

/** The query behind the top-movies report: every movie annotated with the
    number of its comments created in the requested window (zero when there
    are none), a dense rank over that number, descending, and the order
    `(-total_comments, id)`, projected to `{movie_id, total_comments, rank}`. */
module Ranking {
  import opened Calendar
  import opened Records
  import opened Seqs

  /** One line of the report. */
  datatype Entry = Entry(movieId: int, totalComments: nat, rank: nat)

  /** `comment__created__range=[start, end]` with `end` already advanced by a
      day: the bounds stand for midnight of each day and SQL `BETWEEN`
      includes both of them. */
  predicate InWindow(c: Comment, start: Date, endPlus: Date) {
    Between(c.created, StartOfDay(start), StartOfDay(endPlus))
  }

  predicate CountedFor(movieId: int, c: Comment, start: Date, endPlus: Date) {
    c.movieId == movieId && InWindow(c, start, endPlus)
  }

  /** `Coalesce(Sum(Case(When(range, then=1))), 0)` for one movie. */
  function TotalComments(movieId: int, comments: seq<Comment>, start: Date, endPlus: Date): nat {
    |Filter(comments, (c: Comment) => CountedFor(movieId, c, start, endPlus))|
  }

  /** The annotated totals, one per movie, in table order. */
  function Totals(movies: seq<Movie>, comments: seq<Comment>, start: Date, endPlus: Date): (totals: seq<nat>)
    ensures |totals| == |movies|
  {
    seq(|movies|, i requires 0 <= i < |movies| => TotalComments(movies[i].id, comments, start, endPlus))
  }

  /** `DENSE_RANK() OVER (ORDER BY total_comments DESC)`: one more than the
      number of distinct totals above `t`. */
  function DenseRank(t: nat, totals: seq<nat>): nat {
    1 + |set v | v in totals && v > t|
  }

  function EntryOf(m: Movie, movies: seq<Movie>, comments: seq<Comment>, start: Date, endPlus: Date): Entry {
    var t := TotalComments(m.id, comments, start, endPlus);
    Entry(m.id, t, DenseRank(t, Totals(movies, comments, start, endPlus)))
  }

  /** The annotated rows before ordering: the left join keeps every movie. */
  function Entries(movies: seq<Movie>, comments: seq<Comment>, start: Date, endPlus: Date): (es: seq<Entry>)
    ensures |es| == |movies|
  {
    seq(|movies|, i requires 0 <= i < |movies| => EntryOf(movies[i], movies, comments, start, endPlus))
  }

  // ---------------------------------------------------------------------
  // ORDER BY -total_comments, id

  predicate Precedes(a: Entry, b: Entry) {
    a.totalComments > b.totalComments || (a.totalComments == b.totalComments && a.movieId <= b.movieId)
  }

  ghost predicate Ordered(s: seq<Entry>) {
    forall i, j | 0 <= i < j < |s| :: Precedes(s[i], s[j])
  }

  function Insert(e: Entry, s: seq<Entry>): (r: seq<Entry>)
    requires Ordered(s)
    ensures Ordered(r)
    ensures multiset(r) == multiset(s) + multiset{e}
    decreases |s|
  {
    if s == [] || Precedes(e, s[0]) then
      [e] + s
    else
      var rest := Insert(e, s[1..]);
      assert s == [s[0]] + s[1..];
      assert forall k | 0 <= k < |rest| :: Precedes(s[0], rest[k]) by {
        forall k | 0 <= k < |rest| ensures Precedes(s[0], rest[k]) {
          assert rest[k] in multiset(rest);
          if rest[k] != e {
            assert rest[k] in s[1..];
            var m :| 0 <= m < |s| - 1 && s[1..][m] == rest[k];
            assert s[m + 1] == rest[k];
          }
        }
      }
      [s[0]] + rest
  }

  function SortEntries(s: seq<Entry>): (r: seq<Entry>)
    ensures Ordered(r)
    ensures multiset(r) == multiset(s)
    decreases |s|
  {
    if s == [] then []
    else
      assert s == [s[0]] + s[1..];
      Insert(s[0], SortEntries(s[1..]))
  }

  /** The report for the window `[start 00:00, endPlus 00:00]`. */
  function TopList(movies: seq<Movie>, comments: seq<Comment>, start: Date, endPlus: Date): (r: seq<Entry>)
    ensures Ordered(r)
    ensures multiset(r) == multiset(Entries(movies, comments, start, endPlus))
  {
    SortEntries(Entries(movies, comments, start, endPlus))
  }

  // ---------------------------------------------------------------------
  // What the report promises.

  /** A movie's total is zero exactly when none of its comments falls in the
      window: movies without comments are reported, not dropped. */
  lemma TotalCommentsZeroIff(movieId: int, comments: seq<Comment>, start: Date, endPlus: Date)
    ensures TotalComments(movieId, comments, start, endPlus) == 0
        <==> forall c | c in comments && c.movieId == movieId :: !InWindow(c, start, endPlus)
  {
    var r := Filter(comments, (c: Comment) => CountedFor(movieId, c, start, endPlus));
    if |r| > 0 {
      assert r[0] in r;
    }
  }

  /** The report holds one entry per movie and nothing else: it is as long
      as the movie table, every movie's entry is in it and every entry in it
      is some movie's. */
  lemma TopListEntries(movies: seq<Movie>, comments: seq<Comment>, start: Date, endPlus: Date)
    ensures var r := TopList(movies, comments, start, endPlus);
      && |r| == |movies|
      && (forall j | 0 <= j < |movies| :: EntryOf(movies[j], movies, comments, start, endPlus) in r)
      && (forall i | 0 <= i < |r| :: exists j | 0 <= j < |movies| :: r[i] == EntryOf(movies[j], movies, comments, start, endPlus))
  {
    var r := TopList(movies, comments, start, endPlus);
    var es := Entries(movies, comments, start, endPlus);
    PermutationMembers(r, es);
    forall j | 0 <= j < |movies| ensures EntryOf(movies[j], movies, comments, start, endPlus) in r {
      assert es[j] in es;
    }
    forall i | 0 <= i < |r|
      ensures exists j | 0 <= j < |movies| :: r[i] == EntryOf(movies[j], movies, comments, start, endPlus)
    {
      assert r[i] in es;
      var j :| 0 <= j < |es| && es[j] == r[i];
    }
  }

  /** Each entry carries its movie's total and the dense rank of that total
      among all movies' totals. */
  lemma TopListFields(movies: seq<Movie>, comments: seq<Comment>, start: Date, endPlus: Date)
    ensures var r := TopList(movies, comments, start, endPlus);
      forall i | 0 <= i < |r| ::
        && r[i].totalComments == TotalComments(r[i].movieId, comments, start, endPlus)
        && r[i].rank == DenseRank(r[i].totalComments, Totals(movies, comments, start, endPlus))
  {
    var r := TopList(movies, comments, start, endPlus);
    TopListEntries(movies, comments, start, endPlus);
    forall i | 0 <= i < |r|
      ensures r[i].totalComments == TotalComments(r[i].movieId, comments, start, endPlus)
      ensures r[i].rank == DenseRank(r[i].totalComments, Totals(movies, comments, start, endPlus))
    {
      var j :| 0 <= j < |movies| && r[i] == EntryOf(movies[j], movies, comments, start, endPlus);
    }
  }

  /** With unique primary keys, every movie id appears exactly once. */
  lemma TopListOnePerMovie(movies: seq<Movie>, comments: seq<Comment>, start: Date, endPlus: Date)
    requires MovieIdsUnique(movies)
    ensures var r := TopList(movies, comments, start, endPlus);
      && |r| == |movies|
      && (forall j | 0 <= j < |movies| :: exists i | 0 <= i < |r| :: r[i].movieId == movies[j].id)
      && (forall i, k | 0 <= i < k < |r| :: r[i].movieId != r[k].movieId)
  {
    var r := TopList(movies, comments, start, endPlus);
    var es := Entries(movies, comments, start, endPlus);
    TopListEntries(movies, comments, start, endPlus);
    assert Distinct(es) by {
      forall i, j | 0 <= i < j < |es| ensures es[i] != es[j] {
        assert es[i].movieId == movies[i].id && es[j].movieId == movies[j].id;
      }
    }
    DistinctPermutation(r, es);
    forall j | 0 <= j < |movies| ensures exists i | 0 <= i < |r| :: r[i].movieId == movies[j].id {
      var e := EntryOf(movies[j], movies, comments, start, endPlus);
      assert e in r;
      var i :| 0 <= i < |r| && r[i] == e;
    }
    forall i, k | 0 <= i < k < |r| ensures r[i].movieId != r[k].movieId {
      var a :| 0 <= a < |movies| && r[i] == EntryOf(movies[a], movies, comments, start, endPlus);
      var b :| 0 <= b < |movies| && r[k] == EntryOf(movies[b], movies, comments, start, endPlus);
      if a != b {
        if a < b { assert movies[a].id != movies[b].id; } else { assert movies[b].id != movies[a].id; }
      }
    }
  }

  // ---------------------------------------------------------------------
  // Dense rank.

  lemma SubsetCardinality(a: set<nat>, b: set<nat>)
    requires a <= b
    ensures |a| <= |b|
    ensures a < b ==> |a| < |b|
  {
    assert b == a + (b - a);
    assert a * (b - a) == {};
    if a < b {
      var x :| x in b - a;
    }
  }

  /** A larger total never ranks lower; a strictly larger total that some
      movie has ranks strictly higher. */
  lemma DenseRankOrder(a: nat, b: nat, totals: seq<nat>)
    requires a <= b
    ensures DenseRank(b, totals) <= DenseRank(a, totals)
    ensures a < b && b in totals ==> DenseRank(b, totals) < DenseRank(a, totals)
  {
    var above := set v | v in totals && v > a;
    var aboveB := set v | v in totals && v > b;
    SubsetCardinality(aboveB, above);
    if a < b && b in totals {
      assert b in above && b !in aboveB;
    }
  }

  /** Consecutive distinct totals have consecutive ranks. */
  lemma DenseRankNoGap(a: nat, b: nat, totals: seq<nat>)
    requires a < b && b in totals
    requires forall v | v in totals :: !(a < v < b)
    ensures DenseRank(a, totals) == DenseRank(b, totals) + 1
  {
    var above := set v | v in totals && v > a;
    var aboveB := set v | v in totals && v > b;
    assert above == aboveB + {b};
    assert b !in aboveB;
  }

  /** The largest total ranks first. */
  lemma DenseRankOfMaximum(t: nat, totals: seq<nat>)
    requires forall v | v in totals :: v <= t
    ensures DenseRank(t, totals) == 1
  {
    var above := set v | v in totals && v > t;
    assert above == {};
  }

  /** Every total of the report is some entry's total, and conversely. */
  lemma TotalsAreEntryTotals(movies: seq<Movie>, comments: seq<Comment>, start: Date, endPlus: Date)
    ensures var r := TopList(movies, comments, start, endPlus);
      var totals := Totals(movies, comments, start, endPlus);
      && (forall i | 0 <= i < |r| :: r[i].totalComments in totals && r[i].rank == DenseRank(r[i].totalComments, totals))
      && (forall v | v in totals :: exists k | 0 <= k < |r| :: r[k].totalComments == v)
  {
    var r := TopList(movies, comments, start, endPlus);
    var totals := Totals(movies, comments, start, endPlus);
    TopListEntries(movies, comments, start, endPlus);
    forall i | 0 <= i < |r| ensures r[i].totalComments in totals {
      var j :| 0 <= j < |movies| && r[i] == EntryOf(movies[j], movies, comments, start, endPlus);
      assert totals[j] == r[i].totalComments;
    }
    forall v | v in totals ensures exists k | 0 <= k < |r| :: r[k].totalComments == v {
      var j :| 0 <= j < |totals| && totals[j] == v;
      var e := EntryOf(movies[j], movies, comments, start, endPlus);
      assert e in r;
      var k :| 0 <= k < |r| && r[k] == e;
    }
  }

  /** Along the report, ranks start at 1, never decrease, rise by at most one
      from one entry to the next, and two entries share a rank exactly when
      they share a total. */
  lemma {:induction false} TopListRanks(movies: seq<Movie>, comments: seq<Comment>, start: Date, endPlus: Date)
    ensures var r := TopList(movies, comments, start, endPlus);
      && (|r| > 0 ==> r[0].rank == 1)
      && (forall i, j | 0 <= i < j < |r| :: r[i].rank <= r[j].rank)
      && (forall i | 0 <= i < |r| - 1 :: r[i + 1].rank == r[i].rank || r[i + 1].rank == r[i].rank + 1)
      && (forall i, j | 0 <= i < |r| && 0 <= j < |r| :: r[i].rank == r[j].rank <==> r[i].totalComments == r[j].totalComments)
  {
    var r := TopList(movies, comments, start, endPlus);
    var totals := Totals(movies, comments, start, endPlus);
    TotalsAreEntryTotals(movies, comments, start, endPlus);
    if |r| > 0 {
      forall v | v in totals ensures v <= r[0].totalComments {
        var k :| 0 <= k < |r| && r[k].totalComments == v;
        if k > 0 { assert Precedes(r[0], r[k]); }
      }
      DenseRankOfMaximum(r[0].totalComments, totals);
    }
    forall i, j | 0 <= i < j < |r| ensures r[i].rank <= r[j].rank {
      assert Precedes(r[i], r[j]);
      DenseRankOrder(r[j].totalComments, r[i].totalComments, totals);
    }
    forall i | 0 <= i < |r| - 1 ensures r[i + 1].rank == r[i].rank || r[i + 1].rank == r[i].rank + 1 {
      assert Precedes(r[i], r[i + 1]);
      var a, b := r[i + 1].totalComments, r[i].totalComments;
      if a < b {
        forall v | v in totals ensures !(a < v < b) {
          var k :| 0 <= k < |r| && r[k].totalComments == v;
          if k <= i {
            if k < i { assert Precedes(r[k], r[i]); }
          } else {
            if k > i + 1 { assert Precedes(r[i + 1], r[k]); }
          }
        }
        DenseRankNoGap(a, b, totals);
      }
    }
    forall i, j | 0 <= i < |r| && 0 <= j < |r|
      ensures r[i].rank == r[j].rank <==> r[i].totalComments == r[j].totalComments
    {
      var a, b := r[i].totalComments, r[j].totalComments;
      if a < b {
        DenseRankOrder(a, b, totals);
      } else if b < a {
        DenseRankOrder(b, a, totals);
      }
    }
  }

  /** When no comment falls in the window, every movie is reported with
      total 0 and rank 1, in ascending id order. */
  lemma NoCommentsInWindow(movies: seq<Movie>, comments: seq<Comment>, start: Date, endPlus: Date)
    requires forall c | c in comments :: !InWindow(c, start, endPlus)
    ensures var r := TopList(movies, comments, start, endPlus);
      && |r| == |movies|
      && (forall i | 0 <= i < |r| :: r[i].totalComments == 0 && r[i].rank == 1)
      && (forall i, j | 0 <= i < j < |r| :: r[i].movieId <= r[j].movieId)
  {
    var r := TopList(movies, comments, start, endPlus);
    var totals := Totals(movies, comments, start, endPlus);
    TopListEntries(movies, comments, start, endPlus);
    forall j | 0 <= j < |movies| ensures totals[j] == 0 {
      TotalCommentsZeroIff(movies[j].id, comments, start, endPlus);
    }
    forall i | 0 <= i < |r| ensures r[i].totalComments == 0 && r[i].rank == 1 {
      TotalCommentsZeroIff(r[i].movieId, comments, start, endPlus);
      DenseRankOfMaximum(0, totals);
    }
    forall i, j | 0 <= i < j < |r| ensures r[i].movieId <= r[j].movieId {
      assert Precedes(r[i], r[j]);
    }
  }

  /** For a range the validator accepts, the window covers whole days: a
      valid creation time is counted exactly when its day lies from `start`
      to `end` inclusive, or when it is the very first instant of the day
      after `end`. */
  lemma WindowCoversDays(t: Timestamp, start: Date, end: Date)
    requires ValidTimestamp(t) && ValidDate(start) && ValidDate(end) && end != LastDate
    requires !Before(AddOneDay(end).value, start)
    ensures Between(t, StartOfDay(start), StartOfDay(AddOneDay(end).value))
        <==> (!Before(t.date, start) && !Before(end, t.date)) || t == StartOfDay(AddOneDay(end).value)
  {
    var next := AddOneDay(end).value;
    NothingBetweenNextDay(end, t.date);
    assert NotAfter(StartOfDay(start), t) <==> !Before(t.date, start);
    assert NotAfter(t, StartOfDay(next)) <==> Before(t.date, next) || t == StartOfDay(next);
  }
}

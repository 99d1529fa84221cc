/** The one-day scenario of the report's test suite, replayed on the model. */
module TopScenario {
  import opened Wrappers
  import opened Calendar
  import opened Records
  import opened Ranking
  import opened Seqs
  import opened TopMovies

  /** The instant `y-m-d h:min:s`. */
  function At(y: int, m: int, d: int, h: int, min: int, s: int): Timestamp {
    Timestamp(Date(y, m, d), ((h * 60 + min) * 60 + s) * 1_000_000)
  }

  const First := Movie(1, "First Movie", Details(map["Title" := "First Movie"]), "first-movie")
  const Second := Movie(2, "Second Movie", Details(map["Title" := "Second Movie"]), "second-movie")
  const Stored := [
    Comment(1, 2, At(2018, 4, 4, 1, 2, 3), "comment 1"),
    Comment(2, 1, At(2018, 4, 5, 10, 0, 0), "comment 2"),
    Comment(3, 1, At(2018, 4, 6, 19, 0, 0), "comment 3"),
    Comment(4, 2, At(2018, 4, 7, 12, 0, 0), "comment 4"),
    Comment(5, 1, At(2018, 4, 8, 3, 0, 0), "comment 5")]
  const Day := Date(2018, 4, 7)
  const DayAfter := Date(2018, 4, 8)

  lemma FirstHasNone()
    ensures TotalComments(1, Stored, Day, DayAfter) == 0
  {
    TotalCommentsZeroIff(1, Stored, Day, DayAfter);
  }

  lemma SecondHasOne()
    ensures TotalComments(2, Stored, Day, DayAfter) == 1
  {
    var f := Filter(Stored, (c: Comment) => CountedFor(2, c, Day, DayAfter));
    var only := Stored[3];
    assert CountedFor(2, only, Day, DayAfter);
    forall x: Comment ensures multiset(f)[x] == multiset{only}[x] {
      if x == only {
        assert multiset(Stored)[x] == 1;
      }
    }
    assert multiset(f) == multiset{only};
  }

  lemma ScenarioTotals()
    ensures Totals([First, Second], Stored, Day, DayAfter) == [0, 1]
  {
    FirstHasNone();
    SecondHasOne();
  }

  lemma ScenarioRanks()
    ensures DenseRank(0, [0, 1]) == 2 && DenseRank(1, [0, 1]) == 1
  {
    assert (set v | v in [0, 1] && v > 0) == {1};
    assert (set v | v in [0, 1] && v > 1) == {};
  }

  lemma ScenarioEntries()
    ensures Entries([First, Second], Stored, Day, DayAfter) == [Entry(1, 0, 2), Entry(2, 1, 1)]
  {
    FirstHasNone();
    SecondHasOne();
    ScenarioTotals();
    ScenarioRanks();
  }

  /** `start=2018-04-07&end=2018-04-07` is accepted and asks for the window
      from 2018-04-07 00:00 to 2018-04-08 00:00. */
  lemma OneDayRequest()
    ensures ValidateRange(Some("2018-04-07"), Some("2018-04-07")) == DateRange("2018-04-07", "2018-04-08")
    ensures ParseDate("2018-04-07") == Some(Day) && AddOneDay(Day) == Some(DayAfter)
  {
    ParseFormat(Day);
    assert Format(Day) == "2018-04-07";
    assert Format(DayAfter) == "2018-04-08";
  }

  /** One comment of the second movie falls on 2018-04-07; the first movie
      has none that day and is still reported, one rank below. */
  lemma OneDayReport()
    ensures TopList([First, Second], Stored, Day, DayAfter) == [Entry(2, 1, 1), Entry(1, 0, 2)]
  {
    ScenarioEntries();
    ScenarioOrder();
  }

  lemma ScenarioOrder()
    ensures SortEntries([Entry(1, 0, 2), Entry(2, 1, 1)]) == [Entry(2, 1, 1), Entry(1, 0, 2)]
  {
    assert SortEntries([Entry(2, 1, 1)]) == [Entry(2, 1, 1)];
  }
}

/**
  `stats_movie`: count, mean, median, and the best and worst movies of the
  listing. Ratings are exact reals here rather than binary floats.
 */
module MovieStats {
  import opened Wrappers
  import opened PySorted
  import opened MovieStorage

  function Sum(s: seq<real>): real {
    if s == [] then 0.0 else s[0] + Sum(s[1..])
  }

  /** `max(s)`. */
  function MaxOf(s: seq<real>): (m: real)
    requires s != []
    ensures m in s
    ensures forall x | x in s :: x <= m
  {
    if |s| == 1 then s[0]
    else
      var rest := MaxOf(s[1..]);
      assert forall x | x in s :: x == s[0] || x in s[1..];
      if s[0] >= rest then s[0] else rest
  }

  /** `min(s)`. */
  function MinOf(s: seq<real>): (m: real)
    requires s != []
    ensures m in s
    ensures forall x | x in s :: m <= x
  {
    if |s| == 1 then s[0]
    else
      var rest := MinOf(s[1..]);
      assert forall x | x in s :: x == s[0] || x in s[1..];
      if s[0] <= rest then s[0] else rest
  }

  /** Every movie of the listing has a rating. */
  predicate AllRated(movies: seq<Row>) {
    forall i | 0 <= i < |movies| :: movies[i].record.rating.Some?
  }

  /** `[data["rating"] for data in movies.values()]` when every rating is present. */
  function Ratings(movies: seq<Row>): seq<real>
    requires AllRated(movies)
  {
    seq(|movies|, i requires 0 <= i < |movies| => movies[i].record.rating.value)
  }

  function Identity(x: real): real {
    x
  }

  /** The middle element of a sorted sequence, or the mean of the two middle ones. */
  function Median(sorted: seq<real>): real
    requires sorted != []
  {
    var n := |sorted|;
    if n % 2 == 1 then sorted[n / 2] else (sorted[n / 2 - 1] + sorted[n / 2]) / 2.0
  }

  /** The titles, in listing order, whose rating equals `x`. */
  function TitlesRated(movies: seq<Row>, x: real): seq<string> {
    if movies == [] then []
    else
      var last := movies[|movies| - 1];
      TitlesRated(movies[..|movies| - 1], x) + (if last.record.rating == Some(x) then [last.title] else [])
  }

  /** A title is listed iff some movie with that title is rated exactly `x`. */
  lemma {:induction false} TitlesRatedMembers(movies: seq<Row>, x: real)
    ensures forall t :: t in TitlesRated(movies, x) <==>
              exists i | 0 <= i < |movies| :: movies[i].title == t && movies[i].record.rating == Some(x)
  {
    if movies != [] {
      var n := |movies|;
      var init := movies[..n - 1];
      TitlesRatedMembers(init, x);
      assert forall i | 0 <= i < n - 1 :: init[i] == movies[i];
    }
  }

  datatype Stats = Stats(count: nat, mean: real, median: real, maxRating: real, minRating: real,
                         best: seq<string>, worst: seq<string>)

  /**
    What `stats_movie` shows: nothing for an empty store; a TypeError from
    `sum` when some rating is None; otherwise the statistics.
   */
  datatype StatsOutcome = NoMovies | MissingRating | Computed(stats: Stats)

  function ComputeStats(movies: seq<Row>): (r: StatsOutcome)
    ensures r.NoMovies? <==> movies == []
    ensures r.MissingRating? <==> movies != [] && !AllRated(movies)
    ensures r.Computed? ==> r.stats.count == |movies|
  {
    if movies == [] then NoMovies
    else if !AllRated(movies) then MissingRating
    else
      var ratings := Ratings(movies);
      var n := |ratings|;
      var sorted := SortBy(ratings, Identity);
      var hi, lo := MaxOf(ratings), MinOf(ratings);
      Computed(Stats(n, Sum(ratings) / n as real, Median(sorted), hi, lo,
                     TitlesRated(movies, hi), TitlesRated(movies, lo)))
  }

  /** A sum of values between `lo` and `hi` lies between |s| times each. */
  lemma {:induction false} SumBounds(s: seq<real>, lo: real, hi: real)
    requires forall x | x in s :: lo <= x <= hi
    ensures |s| as real * lo <= Sum(s) <= |s| as real * hi
  {
    if s != [] {
      assert forall x | x in s[1..] :: x in s;
      SumBounds(s[1..], lo, hi);
      assert s[0] in s;
      var m := (|s| - 1) as real;
      assert m * lo + lo == |s| as real * lo;
      assert m * hi + hi == |s| as real * hi;
    }
  }

  /** The median of values between `lo` and `hi` lies between them too. */
  lemma MedianBounds(sorted: seq<real>, lo: real, hi: real)
    requires sorted != []
    requires forall x | x in sorted :: lo <= x <= hi
    ensures lo <= Median(sorted) <= hi
  {
    var n := |sorted|;
    assert sorted[n / 2] in sorted;
    if n % 2 == 0 {
      assert sorted[n / 2 - 1] in sorted;
    }
  }

  /** min <= median <= max and min <= mean <= max; max and min are ratings of the listing, and bound all of them. */
  lemma StatsBounds(movies: seq<Row>)
    requires ComputeStats(movies).Computed?
    ensures var st := ComputeStats(movies).stats;
            && st.minRating <= st.median <= st.maxRating
            && st.minRating <= st.mean <= st.maxRating
            && (forall i | 0 <= i < |movies| :: st.minRating <= movies[i].record.rating.value <= st.maxRating)
            && (exists i | 0 <= i < |movies| :: movies[i].record.rating == Some(st.maxRating))
            && (exists i | 0 <= i < |movies| :: movies[i].record.rating == Some(st.minRating))
  {
    var ratings := Ratings(movies);
    var n := |ratings|;
    var hi, lo := MaxOf(ratings), MinOf(ratings);
    RatingsBetween(movies, lo, hi);
    MeanBounds(ratings, lo, hi);
    var sorted := SortBy(ratings, Identity);
    SortByMembers(ratings, Identity);
    MedianBounds(sorted, lo, hi);
    var i :| 0 <= i < n && ratings[i] == hi;
    assert movies[i].record.rating == Some(hi);
    var j :| 0 <= j < n && ratings[j] == lo;
    assert movies[j].record.rating == Some(lo);
  }

  lemma RatingsBetween(movies: seq<Row>, lo: real, hi: real)
    requires AllRated(movies)
    requires forall x | x in Ratings(movies) :: lo <= x <= hi
    ensures forall i | 0 <= i < |movies| :: lo <= movies[i].record.rating.value <= hi
  {
    var ratings := Ratings(movies);
    assert forall i | 0 <= i < |movies| :: movies[i].record.rating.value == ratings[i] && ratings[i] in ratings;
  }

  /** The mean of values between `lo` and `hi` lies between them. */
  lemma MeanBounds(s: seq<real>, lo: real, hi: real)
    requires s != []
    requires forall x | x in s :: lo <= x <= hi
    ensures lo <= Sum(s) / |s| as real <= hi
  {
    SumBounds(s, lo, hi);
    var n := |s| as real;
    var mean := Sum(s) / n;
    assert mean * n == Sum(s);
    assert (mean - lo) * n >= 0.0;
    assert (hi - mean) * n >= 0.0;
  }

  /** The best list is exactly the titles rated at the maximum, and it is never empty; the same for the worst list and the minimum. */
  lemma BestAndWorst(movies: seq<Row>)
    requires ComputeStats(movies).Computed?
    ensures var st := ComputeStats(movies).stats;
            && st.best != [] && st.worst != []
            && (forall t :: t in st.best <==>
                  exists i | 0 <= i < |movies| :: movies[i].title == t && movies[i].record.rating == Some(st.maxRating))
            && (forall t :: t in st.worst <==>
                  exists i | 0 <= i < |movies| :: movies[i].title == t && movies[i].record.rating == Some(st.minRating))
  {
    StatsBounds(movies);
    var st := ComputeStats(movies).stats;
    TitlesRatedMembers(movies, st.maxRating);
    TitlesRatedMembers(movies, st.minRating);
    var i :| 0 <= i < |movies| && movies[i].record.rating == Some(st.maxRating);
    assert movies[i].title in st.best;
    var j :| 0 <= j < |movies| && movies[j].record.rating == Some(st.minRating);
    assert movies[j].title in st.worst;
  }

  /** With every stored movie complete, statistics of a non-empty store are always computed. */
  lemma CompleteListingStats(movies: seq<Row>)
    requires AllComplete(movies) && movies != []
    ensures ComputeStats(movies).Computed?
  {
  }

  /** Three movies rated 5, 7 and 9. */
  function Example(): seq<Row> {
    [Row("A", Record(Some(2001), Some(5.0), None)),
     Row("B", Record(Some(2002), Some(7.0), None)),
     Row("C", Record(Some(2003), Some(9.0), None))]
  }

  lemma ExampleTitles()
    ensures TitlesRated(Example(), 9.0) == ["C"]
    ensures TitlesRated(Example(), 5.0) == ["A"]
  {
    var a, b, c := Example()[0], Example()[1], Example()[2];
    assert Example()[..2] == [a, b] && [a, b][..1] == [a] && [a][..0] == [];
    assert TitlesRated([], 9.0) == [] && TitlesRated([], 5.0) == [];
    assert TitlesRated([a], 9.0) == [] && TitlesRated([a], 5.0) == ["A"];
    assert TitlesRated([a, b], 9.0) == [] && TitlesRated([a, b], 5.0) == ["A"];
  }

  lemma ExampleSorted()
    ensures SortBy([5.0, 7.0, 9.0], Identity) == [5.0, 7.0, 9.0]
  {
    assert [5.0, 7.0, 9.0][1..] == [7.0, 9.0] && [7.0, 9.0][1..] == [9.0] && [9.0][1..] == [];
    assert SortBy([9.0], Identity) == Insert(9.0, [], Identity) == [9.0];
    assert Insert(7.0, [9.0], Identity) == [7.0, 9.0];
    assert SortBy([7.0, 9.0], Identity) == [7.0, 9.0];
    assert Insert(5.0, [7.0, 9.0], Identity) == [5.0, 7.0, 9.0];
  }

  lemma ExampleMedian()
    ensures Median([5.0, 7.0, 9.0]) == 7.0
  {
    var s := [5.0, 7.0, 9.0];
    assert |s| == 3;
    assert s[1] == 7.0;
  }

  lemma ExampleSum()
    ensures Sum([5.0, 7.0, 9.0]) == 21.0
  {
    assert [5.0, 7.0, 9.0][1..] == [7.0, 9.0] && [7.0, 9.0][1..] == [9.0] && [9.0][1..] == [];
  }

  lemma ExampleRatings()
    ensures AllRated(Example()) && Ratings(Example()) == [5.0, 7.0, 9.0]
  {
    assert AllRated(Example());
  }

  lemma ExampleMean()
    ensures ComputeStats(Example()).stats.mean == 7.0
  {
    ExampleRatings();
    ExampleSum();
  }

  lemma ExampleMedianOfStats()
    ensures ComputeStats(Example()).stats.median == 7.0
  {
    ExampleRatings();
    ExampleSorted();
    ExampleMedian();
  }

  lemma ExampleBestWorst()
    ensures ComputeStats(Example()).stats.best == ["C"]
    ensures ComputeStats(Example()).stats.worst == ["A"]
  {
    var ratings := Ratings(Example());
    ExampleRatings();
    assert MaxOf(ratings) == 9.0 && MinOf(ratings) == 5.0 by {
      assert ratings[1..] == [7.0, 9.0] && ratings[1..][1..] == [9.0];
    }
    ExampleTitles();
  }

  /** Ratings 5, 7 and 9 give mean 7 and median 7; the best movie is the one rated 9, the worst the one rated 5. */
  lemma StatsExample()
    ensures var st := ComputeStats(Example()).stats;
            st.mean == 7.0 && st.median == 7.0 && st.best == ["C"] && st.worst == ["A"]
  {
    ExampleMean();
    ExampleMedianOfStats();
    ExampleBestWorst();
  }
}

/**
  The read-only commands of the front end over the listing `list_movies`
  returns: filter, search, and the two sorts. Console input arrives as
  parameters; what would be printed is returned.
 */
module MovieQueries {
  import opened Wrappers
  import opened PyText
  import opened PySorted
  import opened MovieStorage

  /** The rows of `movies` that satisfy `keep`, in their original order. */
  function Select(movies: seq<Row>, keep: Row -> bool): seq<Row> {
    if movies == [] then []
    else
      var last := movies[|movies| - 1];
      Select(movies[..|movies| - 1], keep) + (if keep(last) then [last] else [])
  }

  /** The positions of the rows `Select` keeps. */
  function SelectedIndices(movies: seq<Row>, keep: Row -> bool): seq<nat> {
    if movies == [] then []
    else
      SelectedIndices(movies[..|movies| - 1], keep)
        + (if keep(movies[|movies| - 1]) then [|movies| - 1] else [])
  }

  /** The k-th selected row is the row at the k-th selected position, and it satisfies `keep`. */
  lemma {:induction false} SelectAt(movies: seq<Row>, keep: Row -> bool)
    ensures |SelectedIndices(movies, keep)| == |Select(movies, keep)|
    ensures forall k | 0 <= k < |SelectedIndices(movies, keep)| ::
              && SelectedIndices(movies, keep)[k] < |movies|
              && Select(movies, keep)[k] == movies[SelectedIndices(movies, keep)[k]]
              && keep(Select(movies, keep)[k])
  {
    if movies != [] {
      var init := movies[..|movies| - 1];
      SelectAt(init, keep);
      assert forall i | 0 <= i < |init| :: init[i] == movies[i];
    }
  }

  /** The selected positions increase, so `Select` keeps the listing's order. */
  lemma {:induction false} SelectedIndicesIncrease(movies: seq<Row>, keep: Row -> bool)
    ensures forall k | 0 <= k < |SelectedIndices(movies, keep)| :: SelectedIndices(movies, keep)[k] < |movies|
    ensures forall k, l | 0 <= k < l < |SelectedIndices(movies, keep)| ::
              SelectedIndices(movies, keep)[k] < SelectedIndices(movies, keep)[l]
  {
    if movies != [] {
      SelectedIndicesIncrease(movies[..|movies| - 1], keep);
    }
  }

  /** Every position whose row satisfies `keep` is selected. */
  lemma {:induction false} SelectedIndicesComplete(movies: seq<Row>, keep: Row -> bool)
    ensures forall i | 0 <= i < |movies| && keep(movies[i]) :: i in SelectedIndices(movies, keep)
  {
    if movies != [] {
      var init := movies[..|movies| - 1];
      SelectedIndicesComplete(init, keep);
      assert forall i | 0 <= i < |init| :: init[i] == movies[i];
    }
  }

  /**
    `Select` keeps exactly the rows satisfying `keep`, each once, and in the
    order they have in `movies`: its k-th row is the row at the k-th kept
    position, and the kept positions increase.
   */
  lemma SelectOrder(movies: seq<Row>, keep: Row -> bool)
    ensures var r, idx := Select(movies, keep), SelectedIndices(movies, keep);
            && |idx| == |r|
            && (forall k | 0 <= k < |idx| :: idx[k] < |movies| && r[k] == movies[idx[k]] && keep(r[k]))
            && (forall k, l | 0 <= k < l < |idx| :: idx[k] < idx[l])
            && (forall i | 0 <= i < |movies| && keep(movies[i]) :: i in idx)
  {
    SelectAt(movies, keep);
    SelectedIndicesIncrease(movies, keep);
    SelectedIndicesComplete(movies, keep);
  }

  /** One more row of the listing: `Select` keeps it at the end or drops it. */
  lemma SelectStep(movies: seq<Row>, i: nat, keep: Row -> bool)
    requires i < |movies|
    ensures Select(movies[..i + 1], keep)
         == Select(movies[..i], keep) + (if keep(movies[i]) then [movies[i]] else [])
  {
    assert movies[..i + 1][..i] == movies[..i];
  }

  /** A row is selected iff it is in the listing and satisfies `keep`. */
  lemma SelectMembers(movies: seq<Row>, keep: Row -> bool)
    ensures forall m :: m in Select(movies, keep) <==> m in movies && keep(m)
  {
    SelectOrder(movies, keep);
    var r, idx := Select(movies, keep), SelectedIndices(movies, keep);
    forall m | m in movies && keep(m)
      ensures m in r
    {
      var i :| 0 <= i < |movies| && movies[i] == m;
      var k :| 0 <= k < |idx| && idx[k] == i;
      assert r[k] == m;
    }
  }

  /** Selecting from a listing without repeated titles repeats no title. */
  lemma SelectUnique(movies: seq<Row>, keep: Row -> bool)
    requires UniqueTitles(movies)
    ensures UniqueTitles(Select(movies, keep))
  {
    SelectOrder(movies, keep);
    var r, idx := Select(movies, keep), SelectedIndices(movies, keep);
    forall k, l | 0 <= k < l < |r|
      ensures Titles(r)[k] != Titles(r)[l]
    {
      assert Titles(movies)[idx[k]] != Titles(movies)[idx[l]];
    }
  }

  /** What a filter or search shows: the store was empty, nothing matched, or the matches. */
  datatype QueryOutcome = EmptyStore | NoMatch | Matches(movies: seq<Row>)

  function Shown(selected: seq<Row>): QueryOutcome {
    if selected == [] then NoMatch else Matches(selected)
  }

  // ---------------------------------------------------------------------
  // filter_movies

  /** The three optional bounds of a filter. */
  datatype Bounds = Bounds(minRating: Option<real>, startYear: Option<int>, endYear: Option<int>)

  /** A typed minimum rating: blank, or a text `float()` rejects, gives no bound. */
  function RatingBound(input: string): Option<real> {
    var t := Strip(input);
    if t == "" then None else ParseFloat(t)
  }

  /** A typed year bound: blank, or a text `int()` rejects, gives no bound. */
  function YearBound(input: string): Option<int> {
    var t := Strip(input);
    if t == "" then None else ParseInt(t)
  }

  function ReadBounds(minRating: string, startYear: string, endYear: string): Bounds {
    Bounds(RatingBound(minRating), YearBound(startYear), YearBound(endYear))
  }

  /**
    A movie passes the filter iff each given bound is met: its rating is
    present and at least the minimum, its year present and at least the
    start, its year present and at most the end.
   */
  predicate Kept(b: Bounds, r: Record) {
    && (b.minRating.None? || (r.rating.Some? && r.rating.value >= b.minRating.value))
    && (b.startYear.None? || (r.year.Some? && r.year.value >= b.startYear.value))
    && (b.endYear.None? || (r.year.Some? && r.year.value <= b.endYear.value))
  }

  function KeepFn(b: Bounds): Row -> bool {
    (m: Row) => Kept(b, m.record)
  }

  /** `filter_movies`: read the bounds, then keep the movies that pass, in listing order. */
  method FilterMovies(movies: seq<Row>, minRatingInput: string, startYearInput: string, endYearInput: string)
    returns (outcome: QueryOutcome)
    ensures movies == [] ==> outcome == EmptyStore
    ensures movies != [] ==>
              outcome == Shown(Select(movies, KeepFn(ReadBounds(minRatingInput, startYearInput, endYearInput))))
  {
    if movies == [] {
      return EmptyStore;
    }
    var bounds := ReadBounds(minRatingInput, startYearInput, endYearInput);
    var filtered := KeepWithin(movies, bounds);
    outcome := Shown(filtered);
  }

  /** The loop of `filter_movies`: skip a movie as soon as one given bound fails. */
  method KeepWithin(movies: seq<Row>, b: Bounds) returns (filtered: seq<Row>)
    ensures filtered == Select(movies, KeepFn(b))
  {
    filtered := [];
    var i := 0;
    while i < |movies|
      invariant 0 <= i <= |movies|
      invariant filtered == Select(movies[..i], KeepFn(b))
    {
      var m := movies[i];
      var rating, year := m.record.rating, m.record.year;
      SelectStep(movies, i, KeepFn(b));
      assert KeepFn(b)(m) == Kept(b, m.record);
      i := i + 1;
      if b.minRating.Some? && (rating.None? || rating.value < b.minRating.value) {
        continue;
      }
      if b.startYear.Some? && (year.None? || year.value < b.startYear.value) {
        continue;
      }
      if b.endYear.Some? && (year.None? || year.value > b.endYear.value) {
        continue;
      }
      filtered := filtered + [m];
    }
    assert movies[..i] == movies;
  }

  /** A filtered movie is one of the listing's and passes every given bound; no title repeats. */
  lemma FilterSpec(movies: seq<Row>, b: Bounds)
    requires UniqueTitles(movies)
    ensures forall m :: m in Select(movies, KeepFn(b)) <==> m in movies && Kept(b, m.record)
    ensures UniqueTitles(Select(movies, KeepFn(b)))
  {
    SelectMembers(movies, KeepFn(b));
    SelectUnique(movies, KeepFn(b));
  }

  /** With a minimum rating, no movie without a rating gets through. */
  lemma MinRatingExcludesUnrated(movies: seq<Row>, b: Bounds)
    requires b.minRating.Some?
    ensures forall m | m in Select(movies, KeepFn(b)) ::
              m.record.rating.Some? && m.record.rating.value >= b.minRating.value
  {
    SelectMembers(movies, KeepFn(b));
  }

  /** A bound `float()`/`int()` rejects is treated exactly as a blank one. */
  lemma UnparsableBoundIsBlank(input: string)
    ensures ParseFloat(Strip(input)).None? ==> RatingBound(input) == RatingBound("") == None
    ensures ParseInt(Strip(input)).None? ==> YearBound(input) == YearBound("") == None
  {
    assert Strip("") == "";
  }

  // ---------------------------------------------------------------------
  // search_movie

  /** The search text: the input stripped and lowered. */
  function Query(input: string): string {
    Lower(Strip(input))
  }

  /** `search in title.lower()`. */
  predicate TitleMatches(query: string, m: Row) {
    Contains(Lower(m.title), query)
  }

  function MatchFn(query: string): Row -> bool {
    (m: Row) => TitleMatches(query, m)
  }

  /** `search_movie`: show every movie whose lowered title contains the query, in listing order. */
  method SearchMovie(movies: seq<Row>, input: string) returns (outcome: QueryOutcome)
    ensures movies == [] ==> outcome == EmptyStore
    ensures movies != [] ==> outcome == Shown(Select(movies, MatchFn(Query(input))))
  {
    if movies == [] {
      return EmptyStore;
    }
    var search := Lower(Strip(input));
    var found := false;
    var shown := [];
    var i := 0;
    while i < |movies|
      invariant 0 <= i <= |movies|
      invariant shown == Select(movies[..i], MatchFn(search))
      invariant found <==> shown != []
    {
      SelectStep(movies, i, MatchFn(search));
      if Contains(Lower(movies[i].title), search) {
        shown := shown + [movies[i]];
        found := true;
      }
      i := i + 1;
    }
    assert movies[..i] == movies;
    if !found {
      outcome := NoMatch;
    } else {
      outcome := Matches(shown);
    }
  }

  /** Search finds exactly the movies whose lowered title has the query as a substring. */
  lemma SearchSpec(movies: seq<Row>, query: string)
    ensures forall m :: m in Select(movies, MatchFn(query)) <==> m in movies && IsSubstring(query, Lower(m.title))
  {
    SelectMembers(movies, MatchFn(query));
    forall m | m in movies
      ensures TitleMatches(query, m) <==> IsSubstring(query, Lower(m.title))
    {
      ContainsIsSubstring(Lower(m.title), query);
    }
  }

  /** An empty query (a blank input) matches every movie. */
  lemma {:induction false} EmptyQueryMatchesAll(movies: seq<Row>)
    ensures Select(movies, MatchFn("")) == movies
  {
    if movies != [] {
      EmptyQueryMatchesAll(movies[..|movies| - 1]);
      EmptyIsEverywhere(Lower(movies[|movies| - 1].title));
    }
  }

  // ---------------------------------------------------------------------
  // sort_movies_by_rating, sort_movies_by_year

  /**
    What a sort shows. `sorted` compares every item with some other one when
    there are at least two; comparing None with a number raises TypeError,
    which is `Incomparable`.
   */
  datatype SortOutcome = NothingToSort | Incomparable | Ordered(movies: seq<Row>)

  function RatingKey(m: Row): real {
    if m.record.rating.Some? then m.record.rating.value else 0.0
  }

  function YearKey(m: Row): real {
    if m.record.year.Some? then m.record.year.value as real else 0.0
  }

  /** `reverse=True` on the rating: the stable sort by the negated rating. */
  function HighestRatingFirst(m: Row): real {
    -RatingKey(m)
  }

  function LatestYearFirst(m: Row): real {
    -YearKey(m)
  }

  /** `sort_movies_by_rating`: the listing, highest rating first. */
  function SortByRating(movies: seq<Row>): (r: SortOutcome)
    ensures r.NothingToSort? <==> movies == []
    ensures r.Incomparable? <==> |movies| >= 2 && exists i | 0 <= i < |movies| :: movies[i].record.rating.None?
    ensures r.Ordered? ==> multiset(r.movies) == multiset(movies)
    ensures r.Ordered? ==>
              forall i, j | 0 <= i < j < |r.movies| ::
                && r.movies[i].record.rating.Some? && r.movies[j].record.rating.Some?
                && r.movies[i].record.rating.value >= r.movies[j].record.rating.value
  {
    if movies == [] then NothingToSort
    else if |movies| >= 2 && exists i | 0 <= i < |movies| :: movies[i].record.rating.None? then Incomparable
    else
      var sorted := SortBy(movies, HighestRatingFirst);
      SortByMembers(movies, HighestRatingFirst);
      assert forall m | m in sorted :: |movies| >= 2 ==> m.record.rating.Some?;
      Ordered(sorted)
  }

  /** "Latest first" iff the answer, stripped and lowered, starts with "y". */
  predicate LatestFirst(answer: string) {
    "y" <= Lower(Strip(answer))
  }

  /** `sort_movies_by_year`: the listing by year, latest first iff the answer starts with "y". */
  function SortMoviesByYear(movies: seq<Row>, answer: string): SortOutcome {
    SortByYear(movies, LatestFirst(answer))
  }

  /** The listing by year: non-increasing when `latestFirst`, non-decreasing otherwise. */
  function SortByYear(movies: seq<Row>, latestFirst: bool): (r: SortOutcome)
    ensures r.NothingToSort? <==> movies == []
    ensures r.Incomparable? <==> |movies| >= 2 && exists i | 0 <= i < |movies| :: movies[i].record.year.None?
    ensures r.Ordered? ==> multiset(r.movies) == multiset(movies)
    ensures r.Ordered? ==>
              forall i, j | 0 <= i < j < |r.movies| ::
                && r.movies[i].record.year.Some? && r.movies[j].record.year.Some?
                && (if latestFirst then r.movies[i].record.year.value >= r.movies[j].record.year.value
                    else r.movies[i].record.year.value <= r.movies[j].record.year.value)
  {
    if movies == [] then NothingToSort
    else if |movies| >= 2 && exists i | 0 <= i < |movies| :: movies[i].record.year.None? then Incomparable
    else if latestFirst then
      var sorted := SortBy(movies, LatestYearFirst);
      SortByMembers(movies, LatestYearFirst);
      assert forall m | m in sorted :: |movies| >= 2 ==> m.record.year.Some?;
      Ordered(sorted)
    else
      var sorted := SortBy(movies, YearKey);
      SortByMembers(movies, YearKey);
      assert forall m | m in sorted :: |movies| >= 2 ==> m.record.year.Some?;
      Ordered(sorted)
  }

  /** With every stored movie complete, neither sort can raise. */
  lemma CompleteListingSorts(movies: seq<Row>, answer: string)
    requires AllComplete(movies) && movies != []
    ensures SortByRating(movies).Ordered?
    ensures SortMoviesByYear(movies, answer).Ordered?
  {
  }

  /** Two movies, one without a rating: the rating sort raises. */
  lemma UnratedMovieBreaksRatingSort()
    ensures SortByRating([Row("A", Record(Some(2000), None, None)),
                          Row("B", Record(Some(2001), Some(5.0), None))]).Incomparable?
  {
    var movies := [Row("A", Record(Some(2000), None, None)), Row("B", Record(Some(2001), Some(5.0), None))];
    assert movies[0].record.rating.None?;
  }
}

/**
  The `movies` table of the storage module: one row per title, with the
  title UNIQUE and NOT NULL and year, rating and poster URL nullable. The
  rows come back from `SELECT` in the order they were inserted (ascending
  AUTOINCREMENT id); `order` keeps that order and `rows` the columns.
 */
module MovieStorage {
  import opened Wrappers

  /** The nullable columns of one row. */
  datatype Record = Record(year: Option<int>, rating: Option<real>, posterUrl: Option<string>)

  /** One entry of the dictionary `list_movies` returns: a title and its columns. */
  datatype Row = Row(title: string, record: Record)

  /** What the INSERT statement does with a title. */
  datatype InsertOutcome = Inserted | NullTitle | DuplicateTitle

  predicate Distinct(s: seq<string>) {
    forall i, j | 0 <= i < j < |s| :: s[i] != s[j]
  }

  function Titles(movies: seq<Row>): seq<string> {
    seq(|movies|, i requires 0 <= i < |movies| => movies[i].title)
  }

  /** No title appears twice in a listing. */
  predicate UniqueTitles(movies: seq<Row>) {
    Distinct(Titles(movies))
  }

  /** The store invariant the front end keeps: every stored movie has a year and a rating. */
  predicate Complete(rows: map<string, Record>) {
    forall t | t in rows :: rows[t].year.Some? && rows[t].rating.Some?
  }

  /** The same invariant for a listing. */
  predicate AllComplete(movies: seq<Row>) {
    forall i | 0 <= i < |movies| :: movies[i].record.year.Some? && movies[i].record.rating.Some?
  }

  /** The rows of the table in SELECT order, one per title. */
  function ListRows(order: seq<string>, rows: map<string, Record>): (r: seq<Row>)
    requires forall i | 0 <= i < |order| :: order[i] in rows
    ensures |r| == |order|
    ensures forall i | 0 <= i < |r| :: r[i] == Row(order[i], rows[order[i]])
    ensures Titles(r) == order
  {
    if order == [] then []
    else [Row(order[0], rows[order[0]])] + ListRows(order[1..], rows)
  }

  /** `order` without `title`: what DELETE leaves of the row order. */
  function Without(order: seq<string>, title: string): (r: seq<string>)
    ensures forall t :: t in r <==> t in order && t != title
    ensures Distinct(order) ==> Distinct(r)
    ensures title !in order ==> r == order
  {
    if order == [] then []
    else if order[0] == title then Without(order[1..], title)
    else
      var rest := Without(order[1..], title);
      assert Distinct(order) ==> Distinct([order[0]] + rest) by {
        if Distinct(order) {
          assert order[0] !in order[1..];
          assert order[0] !in rest;
          forall i, j | 0 <= i < j < |rest| + 1
            ensures ([order[0]] + rest)[i] != ([order[0]] + rest)[j]
          {
            if i == 0 {
              assert rest[j - 1] in rest;
            }
          }
        }
      }
      [order[0]] + rest
  }

  /** The outcome of inserting a row with title `title` into `rows`. */
  function InsertOutcomeFor(rows: map<string, Record>, title: Option<string>): (o: InsertOutcome)
    ensures o == Inserted <==> title.Some? && title.value !in rows
    ensures o == DuplicateTitle <==> title.Some? && title.value in rows
  {
    match title
    case None => NullTitle
    case Some(t) => if t in rows then DuplicateTitle else Inserted
  }

  /** The table after `UPDATE movies SET rating = :rating WHERE title = :title`. */
  function WithRating(rows: map<string, Record>, title: string, rating: Option<real>): map<string, Record> {
    if title in rows then rows[title := rows[title].(rating := rating)] else rows
  }

  /**
    The UPDATE changes only the rating of the named row: the same titles
    stay, its year and poster stay, every other row stays; an absent title
    changes nothing.
   */
  lemma WithRatingChangesOnlyRating(rows: map<string, Record>, title: string, rating: Option<real>)
    ensures WithRating(rows, title, rating).Keys == rows.Keys
    ensures title in rows ==>
              && WithRating(rows, title, rating)[title].rating == rating
              && WithRating(rows, title, rating)[title].year == rows[title].year
              && WithRating(rows, title, rating)[title].posterUrl == rows[title].posterUrl
    ensures forall t | t in rows && t != title :: WithRating(rows, title, rating)[t] == rows[t]
    ensures title !in rows ==> WithRating(rows, title, rating) == rows
  {
  }

  class MovieStore {
    /** Titles in SELECT order. */
    var order: seq<string>
    /** The table, keyed by its UNIQUE title column. */
    var rows: map<string, Record>

    ghost predicate Valid()
      reads this
    {
      && Distinct(order)
      && (forall i | 0 <= i < |order| :: order[i] in rows)
      && (forall t | t in rows :: t in order)
    }

    /** Module initialisation: DROP TABLE IF EXISTS, then CREATE TABLE: the table is empty. */
    constructor ()
      ensures Valid()
      ensures rows == map[] && order == []
    {
      order := [];
      rows := map[];
    }

    /**
      `list_movies`: one entry per stored title, in SELECT order, each with
      all three columns (any of them possibly NULL).
     */
    function List(): (r: seq<Row>)
      reads this
      requires Valid()
      ensures |r| == |rows|
      ensures UniqueTitles(r)
      ensures forall t :: t in rows <==> t in Titles(r)
      ensures forall i | 0 <= i < |r| :: r[i].title in rows && r[i].record == rows[r[i].title]
    {
      var r := ListRows(order, rows);
      assert rows.Keys == set t | t in order;
      DistinctCard(order);
      r
    }

    /**
      `add_movie`: INSERT a row. A NULL title violates NOT NULL and a present
      title violates UNIQUE; either error is caught and the table is unchanged.
     */
    method Add(title: Option<string>, record: Record) returns (outcome: InsertOutcome)
      requires Valid()
      modifies this
      ensures Valid()
      ensures outcome == InsertOutcomeFor(old(rows), title)
      ensures outcome == Inserted ==>
                rows == old(rows)[title.value := record] && order == old(order) + [title.value]
      ensures outcome != Inserted ==> rows == old(rows) && order == old(order)
    {
      outcome := InsertOutcomeFor(rows, title);
      if outcome == Inserted {
        rows := rows[title.value := record];
        order := order + [title.value];
      }
    }

    /** `delete_movie`: DELETE the row with this title, if there is one. */
    method Delete(title: string)
      requires Valid()
      modifies this
      ensures Valid()
      ensures rows == old(rows) - {title}
      ensures order == Without(old(order), title)
      ensures title !in old(rows) ==> rows == old(rows) && order == old(order)
    {
      rows := rows - {title};
      order := Without(order, title);
      assert forall i | 0 <= i < |order| :: order[i] in order;
    }

    /** `update_movie`: set the rating of the row with this title, if there is one. */
    method Update(title: string, rating: Option<real>)
      requires Valid()
      modifies this
      ensures Valid()
      ensures order == old(order)
      ensures rows == WithRating(old(rows), title, rating)
    {
      if title in rows {
        rows := rows[title := rows[title].(rating := rating)];
      }
    }
  }

  /** A sequence without repetitions has as many elements as its set. */
  lemma {:induction false} DistinctCard(s: seq<string>)
    requires Distinct(s)
    ensures |set t | t in s| == |s|
  {
    if s != [] {
      DistinctCard(s[1..]);
      assert (set t | t in s) == (set t | t in s[1..]) + {s[0]};
      assert s[0] !in s[1..];
    }
  }
}

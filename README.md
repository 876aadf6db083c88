# Movie manager: a Dafny model

The movie manager is a command-line program that keeps a personal list of movies. Each movie has:
- a title;
- a year;
- an IMDb rating;
- a poster URL.

The movies live in a single SQLite table. New movies are looked up by title in the OMDb web service. The console menu can list, add, delete and update movies. It can also show statistics, search by title, sort by rating or by year, and filter by a minimum rating and a year range.

This project models three parts of the program.

- **The storage module** (`movie_storage_sql.py`) is the class `MovieStorage.MovieStore`.
  - The class keeps the table as a map from title to record, plus the order in which `SELECT` returns the rows.
  - Insert, delete and update are methods. Their postconditions give the whole new state.
  - The `UNIQUE NOT NULL` title column becomes the outcome of the insert.
- **The OMDb client** (`omdb_client.py`) is modelled by `OmdbClient.Fetch`.
  - The API-key check is followed by the normalisation of the decoded response. This is a pure function.
  - The HTTP exchange is a parameter (`HttpOutcome`).
- **The front end** (`movies.py`) is modelled in two parts.
  - The read-only commands are in `MovieQueries` (filter, search, both sorts) and `MovieStats` (statistics). Each works on the listing that `list_movies` returns.
  - The three commands that change the store are in `MovieCommands`. Each is split into a pure guard chain (`PlanAdd`, `PlanDelete`, `PlanUpdate`) and a method that carries the plan out on the store.
  - Console input becomes parameters. What would be printed becomes a result value.

The Python built-ins the program relies on are written out in `PyText`:
- `strip()`, `lower()` and `isdigit()`;
- substring `in`;
- the texts that `int()` and `float()` accept.

`sorted` with a key is written out in `PySorted`.

When Python raises instead of printing, the model returns a distinct outcome:
- `sum` over a list holding a `None`, or `sorted` over two or more items one of which is `None`, raises `TypeError`;
- `float("abc")` raises `ValueError`.

Ratings are exact reals, so with ratings 5, 7 and 9 the mean and the median are both exactly 7 (`MovieStats.StatsExample`).

The stores the front end can reach satisfy an invariant, `MovieStorage.Complete`: every stored movie has a year and a rating.
- The table starts out empty.
- `add_movie` refuses a movie that lacks either value.
- Delete removes a row.
- Update only ever sets a rating to a number.

So a complete store lists only complete movies (`MovieCommands.CompleteStoreListing`), and on such a store the statistics and the two sorts never raise (`MovieCommands.CompleteStoreNeverRaises`, from `MovieStats.CompleteListingStats` and `MovieQueries.CompleteListingSorts`).

`add_movie` checks for a duplicate using the title as typed, but it inserts the title OMDb returns. So typing "inception" when "Inception" is stored passes every check of the front end. Only the UNIQUE constraint of the table then refuses the row (`MovieCommands.CanonicalDuplicateReachesStore`).

## Model

| member | source | states |
|---|---|---|
| PyText.Strip | movies.py:23 | `strip()` leaves no white space (in Python's `isspace` sense) at either end |
| PyText.StripKeepsMiddle | movies.py:23 | `strip()` removes only white space, and only from the two ends; what stays is a contiguous part of the input |
| PyText.StripIdempotent | movies.py:88 | stripping an already stripped input changes nothing |
| PyText.StripUnpadded | movies.py:23 | a text with no white space at its ends is returned unchanged by `strip()` |
| PyText.Lower | movies.py:163 | `lower()` keeps the length and lowers each character separately |
| PyText.NatToDigits | omdb_client.py:32 | the decimal text of a natural number passes `isdigit()` |
| PyText.DigitsRoundTrip | omdb_client.py:32 | `int()` of the decimal digits of n gives n back |
| PyText.ParseInt | movies.py:255 | definition of the texts `int()` accepts (optional sign, ASCII digits, surrounding white space); its properties are stated by `PyText.ParseIntRoundTrip` and `MovieQueries.UnparsableBoundIsBlank` |
| PyText.ParseIntRoundTrip | movies.py:255 | `int(str(i)) == i` for every integer, negative ones included |
| PyText.ParseFloatOfInt | movies.py:247 | `float(str(i)) == i` for every integer |
| PyText.ParseFloat | movies.py:247 | definition of the texts `float()` accepts (optional sign, digits with at most one '.', surrounding white space); its properties are stated by `PyText.ParseFloatOfInt`, `PyText.ParseFloatExample` and `PyText.ParseFloatNotANumber` |
| PyText.ParseFloatExample | omdb_client.py:33 | an OMDb rating such as "8.8" parses to 8.8 |
| PyText.ParseFloatNotANumber | omdb_client.py:33 | "N/A" is not a number `float()` accepts, which is why the client tests for it before calling `float()` |
| PyText.DotIndex | movies.py:247 | finds the first '.' of a numeral, or the end of the text when there is none |
| PyText.ContainsIsSubstring | movies.py:166 | the left-to-right search behind `search in title` answers true iff the query occurs at some position of the title |
| PyText.EmptyIsEverywhere | movies.py:166 | the empty query is in every title |
| PySorted.Insert | movies.py:120 | inserting one item into a sorted sequence adds exactly that item |
| PySorted.InsertSorted | movies.py:190-194 | inserting into a sequence sorted by key keeps it sorted |
| PySorted.SortBy | movies.py:120 | `sorted(s, key=…)` is a permutation of `s` in non-decreasing order of the key |
| PySorted.SortByMembers | movies.py:190-194 | the sorted sequence has exactly the items of the input |
| MovieStorage.ListRows | movie_storage_sql.py:22-32 | the rows in SELECT order: one row per stored title, position by position, each carrying that title's stored year, rating and poster |
| MovieStorage.Complete | movies.py:43-45 | definition of the store invariant "every stored movie has a year and a rating"; it is kept by `MovieCommands.AddMovie`, `MovieCommands.DeleteMovie` and `MovieCommands.UpdateMovie`, holds initially by `MovieCommands.EmptyStoreIsComplete`, and is used by `MovieCommands.CompleteStoreNeverRaises` |
| MovieStorage.Without | movie_storage_sql.py:55-60 | deleting a title from the row order keeps every other title and no repeats; an absent title changes nothing |
| MovieStorage.InsertOutcomeFor | movie_storage_sql.py:35-53 | the INSERT succeeds iff the title is non-NULL and not yet stored; it is refused as a duplicate iff the title is already stored |
| MovieStorage.WithRating | movie_storage_sql.py:67 | definition of the table after the UPDATE statement; its properties are stated by `MovieStorage.WithRatingChangesOnlyRating` |
| MovieStorage.WithRatingChangesOnlyRating | movie_storage_sql.py:64-69 | the UPDATE keeps the same titles; it sets only the rating of the named row, keeping its year and poster and every other row; an absent title changes nothing |
| MovieStorage.MovieStore.constructor | movie_storage_sql.py:7-20 | after the table is dropped and created, it is empty |
| MovieStorage.MovieStore.List | movie_storage_sql.py:22-32 | one entry per stored title with no title twice, and each entry carries that row's year, rating and poster (each possibly absent) |
| MovieStorage.MovieStore.Add | movie_storage_sql.py:35-53 | a fresh non-NULL title adds exactly that record at the end of the order; a NULL or duplicate title leaves the table unchanged and reports why |
| MovieStorage.MovieStore.Delete | movie_storage_sql.py:55-62 | removes exactly the given title and nothing else; an absent title is a no-op |
| MovieStorage.MovieStore.Update | movie_storage_sql.py:64-71 | the rows become the same table with only the named row's rating replaced, and the order is unchanged |
| OmdbClient.YearOf | omdb_client.py:32 | definition of `int(Year)` when `Year` is present and all digits, else no year; its properties are stated by `OmdbClient.Normalize` and `OmdbClient.YearRangeIsNoYear` |
| OmdbClient.Normalize | omdb_client.py:25-40 | "not found" iff `Response` is "False"; title and poster are copied; year is present iff `Year` is all digits, and is then its value; rating is absent iff `imdbRating` is missing or "N/A", and is otherwise `float(imdbRating)`; an unparsable rating raises |
| OmdbClient.Fetch | omdb_client.py:10-40 | a missing key raises before any lookup; an unreachable service raises; otherwise the response is normalised |
| OmdbClient.MissingKeyBeforeLookup | omdb_client.py:11-12 | without a key, the error is the same whatever the service would answer |
| OmdbClient.ConfiguredKeyReachesService | omdb_client.py:4-23 | with the configured key the missing-key error never occurs, and a reachable answer is always normalised |
| OmdbClient.OnlyFalseMeansNotFound | omdb_client.py:26-35 | a response without `Response`, or with any value but "False", is never "not found" |
| OmdbClient.YearRangeIsNoYear | omdb_client.py:29-32 | "2010–2012" and "" give no year; "2010" gives 2010 |
| OmdbClient.NormalizeExample | omdb_client.py:25-40 | a typical answer for Inception normalises to title, year 2010, rating 8.8 and poster |
| MovieQueries.Select | movies.py:268-285 | definition of the `filtered` and shown accumulators: the listing's movies that pass a test, in order; its properties are stated by `MovieQueries.SelectOrder`, `MovieQueries.SelectMembers` and `MovieQueries.SelectUnique` |
| MovieQueries.SelectAt | movies.py:268-285 | the k-th kept movie is the movie at the k-th kept position, and it passes the test |
| MovieQueries.SelectedIndicesIncrease | movies.py:269 | the kept positions increase, so the listing's order is kept |
| MovieQueries.SelectedIndicesComplete | movies.py:269-285 | every position whose movie passes the test is kept |
| MovieQueries.SelectOrder | movies.py:268-285 | the loop keeps exactly the movies that pass, each once, in listing order |
| MovieQueries.SelectStep | movies.py:269-285 | one more movie of the listing is appended when it passes and dropped otherwise |
| MovieQueries.SelectMembers | movies.py:268-285 | a movie is kept iff it is in the listing and passes the test |
| MovieQueries.SelectUnique | movies.py:268-285 | keeping movies from a listing with distinct titles repeats no title |
| MovieQueries.RatingBound | movies.py:244-250 | definition of the minimum-rating bound: none when blank or rejected by `float()`; its properties are stated by `MovieQueries.UnparsableBoundIsBlank` |
| MovieQueries.YearBound | movies.py:252-266 | definition of a year bound: none when blank or rejected by `int()`; its properties are stated by `MovieQueries.UnparsableBoundIsBlank` |
| MovieQueries.ReadBounds | movies.py:244-266 | definition of the three bounds read from the three inputs; used by the contract of `MovieQueries.FilterMovies` |
| MovieQueries.Kept | movies.py:273-283 | definition of the test a movie passes: each given bound met, with its rating or year present; its properties are stated by `MovieQueries.FilterSpec` and `MovieQueries.MinRatingExcludesUnrated` |
| MovieQueries.FilterMovies | movies.py:228-289 | an empty store shows nothing; otherwise the bounds are read from the three inputs and exactly the movies of the loop are shown, or "no match" |
| MovieQueries.KeepWithin | movies.py:268-285 | the `continue` chain keeps, in order, exactly the movies that pass every given bound |
| MovieQueries.FilterSpec | movies.py:268-285 | a movie is shown iff it is listed, has a rating of at least any given minimum, and has a year within any given start and end; the result repeats no title |
| MovieQueries.MinRatingExcludesUnrated | movies.py:273-275 | with a minimum rating, every movie shown has a rating at or above it |
| MovieQueries.UnparsableBoundIsBlank | movies.py:244-266 | a bound that `float()`/`int()` rejects gives the same (absent) bound as a blank input |
| MovieQueries.SearchMovie | movies.py:157-174 | an empty store shows nothing; otherwise the loop shows, in order, the movies whose lowered title contains the stripped, lowered query, and `found` is false iff there are none |
| MovieQueries.SearchSpec | movies.py:163-172 | a movie is shown iff it is listed and the query is a substring of its lowered title |
| MovieQueries.EmptyQueryMatchesAll | movies.py:163-166 | a blank query shows the whole listing |
| MovieQueries.SortByRating | movies.py:177-194 | nothing for an empty store; a TypeError iff two or more movies and one without a rating; otherwise a permutation of the listing with non-increasing ratings |
| MovieQueries.SortByYear | movies.py:207-221 | nothing for an empty store; a TypeError iff two or more movies and one without a year; otherwise a permutation of the listing with non-increasing years when latest-first, non-decreasing otherwise |
| MovieQueries.LatestFirst | movies.py:214-215 | definition of "latest first": the answer, stripped and lowered, starts with "y" |
| MovieQueries.SortMoviesByYear | movies.py:201-221 | definition of `sort_movies_by_year`: the year sort in the direction the answer gives; its properties are stated by `MovieQueries.SortByYear` and `MovieQueries.CompleteListingSorts` |
| MovieQueries.CompleteListingSorts | movies.py:183-221 | on a non-empty listing where every movie has a year and a rating, both sorts succeed, whatever the answer |
| MovieQueries.UnratedMovieBreaksRatingSort | movies.py:190-194 | two movies, one without a rating: the rating sort raises |
| MovieStats.Sum | movies.py:118 | definition of `sum(ratings)`; its properties are stated by `MovieStats.SumBounds` and `MovieStats.MeanBounds` |
| MovieStats.Median | movies.py:120-126 | definition of the median: the middle element of the sorted ratings for an odd count, the mean of the two middle ones for an even count; its properties are stated by `MovieStats.MedianBounds` and `MovieStats.StatsBounds` |
| MovieStats.TitlesRated | movies.py:131-132 | definition of the best and worst lists: the titles, in listing order, rated exactly at a value; its properties are stated by `MovieStats.TitlesRatedMembers` and `MovieStats.BestAndWorst` |
| MovieStats.MaxOf | movies.py:128 | `max(ratings)` is one of the ratings and at least every rating |
| MovieStats.MinOf | movies.py:129 | `min(ratings)` is one of the ratings and at most every rating |
| MovieStats.TitlesRatedMembers | movies.py:131-132 | the list for a rating holds exactly the titles of the movies with that rating |
| MovieStats.ComputeStats | movies.py:106-132 | nothing iff the store is empty; a TypeError iff some movie has no rating; otherwise the count is the number of movies |
| MovieStats.SumBounds | movies.py:118 | a sum of n values within [lo, hi] lies within [n·lo, n·hi] |
| MovieStats.MeanBounds | movies.py:117-118 | the mean of values within [lo, hi] lies within [lo, hi] |
| MovieStats.MedianBounds | movies.py:120-126 | the median (middle element, or mean of the two middle ones) of values within [lo, hi] lies within [lo, hi] |
| MovieStats.RatingsBetween | movies.py:112 | bounds on the rating list carry over to every movie of the listing |
| MovieStats.StatsBounds | movies.py:117-129 | min ≤ median ≤ max and min ≤ mean ≤ max; max and min are ratings of listed movies and bound every rating |
| MovieStats.BestAndWorst | movies.py:128-132 | the best list is exactly the titles rated at the maximum and is never empty; the same for the worst list and the minimum |
| MovieStats.CompleteListingStats | movies.py:106-118 | on a non-empty listing where every movie has a rating, the statistics are computed |
| MovieStats.StatsExample | movies.py:117-132 | ratings 5, 7 and 9 give mean 7 and median 7; the best movie is the one rated 9, the worst the one rated 5 |
| MovieCommands.PlanAdd | movies.py:22-45 | the store is reached iff the stripped title is non-empty, not listed, and found in OMDb with both year and rating; the row then carries OMDb's title, year, rating and poster |
| MovieCommands.GuardsBeforeLookup | movies.py:22-37 | a blank or listed title is refused whatever OMDb would answer |
| MovieCommands.AddMovie | movies.py:22-53 | the plan comes from the listing before the call; the INSERT happens iff the plan says so, and its outcome decides the new table; the store invariant "every movie has year and rating" is kept |
| MovieCommands.CanonicalDuplicateReachesStore | movies.py:29-48 | typing "inception" with "Inception" stored passes every guard; only the UNIQUE title refuses the row |
| MovieCommands.PlanDelete | movies.py:55-64 | the store is reached iff it is non-empty and the stripped name is listed; that name is deleted |
| MovieCommands.DeleteMovie | movies.py:55-67 | exactly the planned title is deleted from the rows and from the row order (`Without`), and otherwise nothing changes; the store invariant is kept |
| MovieCommands.PlanUpdate | movies.py:70-100 | the store is reached iff it is non-empty, the name is listed, and the new rating is non-blank, accepted by `float()` and within [0, 10]; that rating is written |
| MovieCommands.UpdateMovie | movies.py:70-103 | exactly the planned row gets the new rating, and otherwise nothing changes; the order is kept, and so is the store invariant |
| MovieCommands.EmptyStoreIsComplete | movie_storage_sql.py:7-20 | the empty table the program starts with satisfies the store invariant |
| MovieCommands.CompleteStoreListing | movie_storage_sql.py:22-32 | a store satisfying the invariant lists only movies with both a year and a rating |
| MovieCommands.CompleteStoreNeverRaises | movies.py:112-221 | on a non-empty store satisfying the invariant, the statistics are computed and both sorts succeed, whatever the answer |

## Left out

- The HTTP GET, its timeout and `raise_for_status` (omdb_client.py:16-23) are network I/O. Their result is the `HttpOutcome` parameter, and every request error is `Unreachable`.
- The SQLAlchemy engine, connections, commits and echo logging are a foreign library. Only the table semantics stated by the SQL text are modelled. The model assumes `SELECT` without `ORDER BY` returns rows in insertion order, which is what SQLite does for this table.
- All `input()` prompts and `print` output, including the `:.2f` formatting and the success messages, are console I/O. Inputs are parameters and outcomes are results. The storage module prints "added successfully" or the database error; the model returns the `InsertOutcome` instead.
- The front end's `list_movies` (movies.py:9-19) only prints the listing. `MovieStorage.MovieStore.List` models the listing itself.
- `random_movie` (movies.py:142-154) depends on `random.choice`.
- `generate_website` (movies.py:297-342) is file I/O and HTML templating.
- The `main` menu loop (movies.py:344-389) is interactive dispatch with no logic of its own.
- The `"rating" in data` and `"year" in data` guards (movies.py:112, 184, 208) never exclude anything, because `list_movies` always sets every key (movie_storage_sql.py:30). The "No ratings available" and "No years available" branches are therefore unreachable and not modelled. A rating that is `None` is modelled through the `TypeError` it causes instead.
- PyText.ParseFloat: accepts only an optional sign, digits and one decimal point. Python's `float()` also accepts exponents, "inf", "nan" and underscores. So "1e1" is an invalid rating in the model but 10.0 in the program. In `update_movie`, "nan" and "inf" are refused by the 0–10 check (movies.py:95) just as the model refuses them. In `filter_movies` they are real minimum ratings: "inf" matches no movie, "nan" drops only the unrated movies, and "1e1" means 10.0, whereas the model treats all three as a blank bound and shows the whole listing. `float()` also accepts non-ASCII decimal digits, which the model rejects.
- PyText.ParseInt: does not accept underscores or non-ASCII digits, both of which Python's `int()` accepts.
- PyText.IsDigits: models `isdigit()` on ASCII digits only, but Python's `isdigit()` is true for every Unicode digit. For Unicode decimal digits such as '٢٠١٠', `int()` reads the number, so the program stores year 2010 where `OmdbClient.YearOf` gives no year and `PlanAdd` refuses the movie with `MissingYearOrRating`. For other digits such as '²', `int()` raises ValueError, which aborts the add at movies.py:35-37; the model instead gives no year, with the same refusal.
- PyText.Lower: lowers only ASCII letters. Python's `lower()` applies full Unicode case mapping.
- MovieStats.ComputeStats: ratings, mean and median are exact reals, not IEEE doubles. So rounding in `sum` and in the division is not modelled.
- MovieQueries.SortByRating: the order among movies with equal ratings, which Python's stable sort fixes, is not stated. The contract gives the permutation and the ordering only.
- MovieQueries.SortByYear: the order among movies with the same year is not stated, as for the rating sort.
- OmdbClient.Normalize: models every response field as text. A JSON null in `Year` or `imdbRating` is `None` in Python and behaves as an absent key, as in the model. A JSON number behaves differently: `isdigit` raises on a number, and `float` accepts one.
- OmdbClient.Fetch: the API key is a constant in the program, so the missing-key branch is reachable only through the `apiKey` parameter.

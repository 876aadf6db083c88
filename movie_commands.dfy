/**
  The commands of the front end that change the store: add, delete and
  update. Each first decides, from the listing and the typed input, whether
  the store is touched at all (a plan), then carries the plan out.
 */
module MovieCommands {
  import opened Wrappers
  import opened PyText
  import opened OmdbClient
  import opened MovieStorage
  import opened MovieQueries
  import opened MovieStats

  // ---------------------------------------------------------------------
  // add_movie

  /** What `add_movie` decides before touching the store. */
  datatype AddPlan =
    | NoTitle
    | AlreadyExists(title: string)
    | LookupFailed(error: LookupError)
    | NotInOmdb(title: string)
    | MissingYearOrRating
    | Insert(omdbTitle: Option<string>, record: Record)

  /**
    The guard chain of `add_movie`: a non-empty typed title, not already
    listed, found in OMDb with both a year and a rating. The row inserted
    carries OMDb's title, not the typed one.
   */
  function PlanAdd(movies: seq<Row>, titleInput: string, response: HttpOutcome): (p: AddPlan)
    ensures p.Insert? <==>
              && Strip(titleInput) != ""
              && Strip(titleInput) !in Titles(movies)
              && Fetch(ApiKey, response).Found?
              && Fetch(ApiKey, response).info.year.Some?
              && Fetch(ApiKey, response).info.rating.Some?
    ensures p.Insert? ==>
              var info := Fetch(ApiKey, response).info;
              p.omdbTitle == info.title && p.record == Record(info.year, info.rating, info.posterUrl)
    ensures p.Insert? ==> p.record.year.Some? && p.record.rating.Some?
  {
    var title := Strip(titleInput);
    if title == "" then NoTitle
    else if title in Titles(movies) then AlreadyExists(title)
    else
      match Fetch(ApiKey, response)
      case Failed(e) => LookupFailed(e)
      case NotFound => NotInOmdb(title)
      case Found(info) =>
        if info.year.None? || info.rating.None? then MissingYearOrRating
        else Insert(info.title, Record(info.year, info.rating, info.posterUrl))
  }

  /** A blank or already listed title is refused before OMDb is asked: the answer plays no part. */
  lemma GuardsBeforeLookup(movies: seq<Row>, titleInput: string, a: HttpOutcome, b: HttpOutcome)
    requires Strip(titleInput) == "" || Strip(titleInput) in Titles(movies)
    ensures PlanAdd(movies, titleInput, a) == PlanAdd(movies, titleInput, b)
    ensures !PlanAdd(movies, titleInput, a).Insert?
  {
  }

  /** `add_movie`: decide, then INSERT when the plan says so. */
  method AddMovie(store: MovieStore, titleInput: string, response: HttpOutcome)
    returns (plan: AddPlan, stored: Option<InsertOutcome>)
    requires store.Valid()
    modifies store
    ensures store.Valid()
    ensures plan == PlanAdd(old(store.List()), titleInput, response)
    ensures plan.Insert? ==> stored == Some(InsertOutcomeFor(old(store.rows), plan.omdbTitle))
    ensures !plan.Insert? ==> stored == None
    ensures stored == Some(Inserted) ==>
              store.rows == old(store.rows)[plan.omdbTitle.value := plan.record]
              && store.order == old(store.order) + [plan.omdbTitle.value]
    ensures stored != Some(Inserted) ==> store.rows == old(store.rows) && store.order == old(store.order)
    ensures Complete(old(store.rows)) ==> Complete(store.rows)
  {
    var movies := store.List();
    plan := PlanAdd(movies, titleInput, response);
    if plan.Insert? {
      var outcome := store.Add(plan.omdbTitle, plan.record);
      stored := Some(outcome);
    } else {
      stored := None;
    }
  }

  /**
    The duplicate check compares the typed title, but the row gets OMDb's
    title: typing "inception" when "Inception" is stored passes every guard
    of the front end, and only the UNIQUE constraint refuses the row.
   */
  lemma CanonicalDuplicateReachesStore()
    ensures var rows := map["Inception" := Record(Some(2010), Some(8.8), None)];
            var plan := PlanAdd([Row("Inception", rows["Inception"])], "inception", InceptionAnswer());
            && plan == Insert(Some("Inception"), Record(Some(2010), Some(8.8), Some("p.jpg")))
            && InsertOutcomeFor(rows, plan.omdbTitle) == DuplicateTitle
  {
    InceptionFound();
    TypedTitleNotListed();
  }

  /** OMDb's answer for "inception". */
  function InceptionAnswer(): HttpOutcome {
    Body(map["Response" := "True", "Title" := "Inception", "Year" := "2010",
             "imdbRating" := "8.8", "Poster" := "p.jpg"])
  }

  lemma InceptionFound()
    ensures Fetch(ApiKey, InceptionAnswer())
         == Found(MovieInfo(Some("Inception"), Some(2010), Some(8.8), Some("p.jpg")))
  {
    NormalizeExample();
  }

  lemma TypedTitleNotListed()
    ensures Strip("inception") == "inception"
    ensures "inception" !in Titles([Row("Inception", Record(Some(2010), Some(8.8), None))])
  {
    StripUnpadded("inception");
    assert Titles([Row("Inception", Record(Some(2010), Some(8.8), None))]) == ["Inception"];
    assert "inception"[0] != "Inception"[0];
  }

  // ---------------------------------------------------------------------
  // delete_movie

  datatype DeletePlan = NoMoviesToDelete | DeleteUnknown(title: string) | Delete(title: string)

  /** The guard chain of `delete_movie`: a non-empty store and a listed (stripped) title. */
  function PlanDelete(movies: seq<Row>, nameInput: string): (p: DeletePlan)
    ensures p.Delete? <==> movies != [] && Strip(nameInput) in Titles(movies)
    ensures p.Delete? ==> p.title == Strip(nameInput)
    ensures p.NoMoviesToDelete? <==> movies == []
  {
    if movies == [] then NoMoviesToDelete
    else
      var name := Strip(nameInput);
      if name !in Titles(movies) then DeleteUnknown(name) else Delete(name)
  }

  /** `delete_movie`: decide, then DELETE when the plan says so. */
  method DeleteMovie(store: MovieStore, nameInput: string) returns (plan: DeletePlan)
    requires store.Valid()
    modifies store
    ensures store.Valid()
    ensures plan == PlanDelete(old(store.List()), nameInput)
    ensures plan.Delete? ==> plan.title in old(store.rows) && store.rows == old(store.rows) - {plan.title}
    ensures plan.Delete? ==> store.order == Without(old(store.order), plan.title)
    ensures !plan.Delete? ==> store.rows == old(store.rows) && store.order == old(store.order)
    ensures Complete(old(store.rows)) ==> Complete(store.rows)
  {
    var movies := store.List();
    plan := PlanDelete(movies, nameInput);
    if plan.Delete? {
      store.Delete(plan.title);
    }
  }

  // ---------------------------------------------------------------------
  // update_movie

  datatype UpdatePlan =
    | NoMoviesToUpdate
    | UpdateUnknown(title: string)
    | KeepRating
    | InvalidRating
    | SetRating(title: string, rating: real)

  /**
    The guard chain of `update_movie`: a non-empty store, a listed title,
    and a non-blank new rating that `float()` accepts and lies in [0, 10].
   */
  function PlanUpdate(movies: seq<Row>, nameInput: string, ratingInput: string): (p: UpdatePlan)
    ensures p.SetRating? <==>
              && movies != []
              && Strip(nameInput) in Titles(movies)
              && Strip(ratingInput) != ""
              && ParseFloat(Strip(ratingInput)).Some?
              && 0.0 <= ParseFloat(Strip(ratingInput)).value <= 10.0
    ensures p.SetRating? ==>
              && p.title == Strip(nameInput)
              && Some(p.rating) == ParseFloat(Strip(ratingInput))
              && 0.0 <= p.rating <= 10.0
  {
    if movies == [] then NoMoviesToUpdate
    else
      var name := Strip(nameInput);
      if name !in Titles(movies) then UpdateUnknown(name)
      else
        var text := Strip(ratingInput);
        if text == "" then KeepRating
        else
          match ParseFloat(text)
          case None => InvalidRating
          case Some(rating) =>
            if !(0.0 <= rating <= 10.0) then InvalidRating
            else SetRating(name, rating)
  }

  /** `update_movie`: decide, then UPDATE the rating when the plan says so. */
  method UpdateMovie(store: MovieStore, nameInput: string, ratingInput: string) returns (plan: UpdatePlan)
    requires store.Valid()
    modifies store
    ensures store.Valid()
    ensures plan == PlanUpdate(old(store.List()), nameInput, ratingInput)
    ensures plan.SetRating? ==>
              && plan.title in old(store.rows)
              && store.rows == WithRating(old(store.rows), plan.title, Some(plan.rating))
    ensures !plan.SetRating? ==> store.rows == old(store.rows)
    ensures store.order == old(store.order)
    ensures Complete(old(store.rows)) ==> Complete(store.rows)
  {
    var movies := store.List();
    plan := PlanUpdate(movies, nameInput, ratingInput);
    if plan.SetRating? {
      assert plan.title in store.rows;
      store.Update(plan.title, Some(plan.rating));
    }
  }

  /** The table module initialisation creates is complete, so every state the front end reaches is. */
  lemma EmptyStoreIsComplete()
    ensures Complete(map[])
  {
  }

  /** A complete store lists only movies with a year and a rating. */
  lemma CompleteStoreListing(store: MovieStore)
    requires store.Valid() && Complete(store.rows)
    ensures AllComplete(store.List())
  {
  }

  /** On a complete, non-empty store, the statistics and both sorts never raise. */
  lemma CompleteStoreNeverRaises(store: MovieStore, answer: string)
    requires store.Valid() && Complete(store.rows) && store.rows != map[]
    ensures ComputeStats(store.List()).Computed?
    ensures SortByRating(store.List()).Ordered?
    ensures SortMoviesByYear(store.List(), answer).Ordered?
  {
    var movies := store.List();
    CompleteStoreListing(store);
    assert |store.rows| > 0;
    CompleteListingStats(movies);
    CompleteListingSorts(movies, answer);
  }
}

/**
  The OMDb lookup: the API-key check and the normalisation of a decoded
  response into the movie fields the storage schema holds. The HTTP GET
  itself is not modelled: its outcome is a parameter.
 */
module OmdbClient {
  import opened Wrappers
  import opened PyText

  /** The API key the client is configured with. */
  const ApiKey: string := "1d7cd6cf"

  /** A found movie, with the keys of the dictionary the client returns. */
  datatype MovieInfo = MovieInfo(title: Option<string>, year: Option<int>, rating: Option<real>,
                                 posterUrl: Option<string>)

  /**
    Why a lookup raised: the key is missing (OmdbError), the service could
    not be reached (OmdbError), or `float()` rejected the rating (ValueError).
   */
  datatype LookupError = MissingApiKey | Unreachable | RatingNotANumber

  datatype Lookup = Failed(error: LookupError) | NotFound | Found(info: MovieInfo)

  /** The HTTP exchange: a request error, or a JSON object of text fields. */
  datatype HttpOutcome = RequestFailed | Body(fields: map<string, string>)

  /** `data.get(key)`. */
  function Get(fields: map<string, string>, key: string): Option<string> {
    if key in fields then Some(fields[key]) else None
  }

  /** `int(Year)` when `Year` is present, non-empty and all digits, otherwise absent. */
  function YearOf(raw: Option<string>): Option<int> {
    if raw.Some? && IsDigits(raw.value) then Some(DigitsValue(raw.value)) else None
  }

  /** The normalised fields of a response whose `Response` is not "False". */
  function Normalize(fields: map<string, string>): (r: Lookup)
    ensures r.NotFound? <==> Get(fields, "Response") == Some("False")
    ensures r.Failed? <==>
              && Get(fields, "Response") != Some("False")
              && "imdbRating" in fields && fields["imdbRating"] != "N/A"
              && ParseFloat(fields["imdbRating"]).None?
    ensures r.Failed? ==> r.error == RatingNotANumber
    ensures r.Found? ==> r.info.title == Get(fields, "Title") && r.info.posterUrl == Get(fields, "Poster")
    ensures r.Found? ==> (r.info.year.Some? <==> "Year" in fields && IsDigits(fields["Year"]))
    ensures r.Found? && r.info.year.Some? ==> r.info.year.value == DigitsValue(fields["Year"])
    ensures r.Found? ==> (r.info.rating.None? <==> "imdbRating" !in fields || fields["imdbRating"] == "N/A")
    ensures r.Found? && r.info.rating.Some? ==> r.info.rating == ParseFloat(fields["imdbRating"])
  {
    if Get(fields, "Response") == Some("False") then NotFound
    else
      var year := YearOf(Get(fields, "Year"));
      var rawRating := Get(fields, "imdbRating");
      if rawRating.None? || rawRating.value == "N/A" then
        Found(MovieInfo(Get(fields, "Title"), year, None, Get(fields, "Poster")))
      else
        match ParseFloat(rawRating.value)
        case None => Failed(RatingNotANumber)
        case Some(rating) => Found(MovieInfo(Get(fields, "Title"), year, Some(rating), Get(fields, "Poster")))
  }

  /** `fetch_movie_from_omdb`: check the key, take the HTTP outcome, normalise the body. */
  function Fetch(apiKey: string, response: HttpOutcome): (r: Lookup)
    ensures apiKey == "" ==> r == Failed(MissingApiKey)
    ensures apiKey != "" && response.RequestFailed? ==> r == Failed(Unreachable)
    ensures apiKey != "" && response.Body? ==> r == Normalize(response.fields)
  {
    if apiKey == "" then Failed(MissingApiKey)
    else match response
      case RequestFailed => Failed(Unreachable)
      case Body(fields) => Normalize(fields)
  }

  /** Without a key the outcome is the same error whatever the service would answer. */
  lemma MissingKeyBeforeLookup(a: HttpOutcome, b: HttpOutcome)
    ensures Fetch("", a) == Fetch("", b) == Failed(MissingApiKey)
  {
  }

  /** With the configured key, a reachable service's answer is always normalised. */
  lemma ConfiguredKeyReachesService(response: HttpOutcome)
    ensures response.Body? ==> Fetch(ApiKey, response) == Normalize(response.fields)
    ensures !Fetch(ApiKey, response).Failed? || Fetch(ApiKey, response).error != MissingApiKey
  {
  }

  /** A response with no `Response` field, or any value but "False", yields a record or an error, never "not found". */
  lemma OnlyFalseMeansNotFound(fields: map<string, string>)
    requires "Response" !in fields || fields["Response"] != "False"
    ensures !Normalize(fields).NotFound?
  {
  }

  /** A year range such as "2010–2012", or an empty year, is not a year. */
  lemma YearRangeIsNoYear()
    ensures YearOf(Some("2010\U{2013}2012")) == None
    ensures YearOf(Some("")) == None
    ensures YearOf(Some("2010")) == Some(2010)
  {
    assert !IsDigit("2010\U{2013}2012"[4]);
    var s := "2010";
    assert "2"[..0] == "";
    assert DigitsValue("2") == 2;
    assert "20"[..1] == "2";
    assert DigitsValue("20") == 20;
    assert "201"[..2] == "20";
    assert DigitsValue("201") == 201;
    assert s[..3] == "201";
  }

  /** A typical OMDb answer normalises to the movie it describes. */
  lemma NormalizeExample()
    ensures Normalize(map["Response" := "True", "Title" := "Inception", "Year" := "2010",
                          "imdbRating" := "8.8", "Poster" := "p.jpg"])
         == Found(MovieInfo(Some("Inception"), Some(2010), Some(8.8), Some("p.jpg")))
  {
    var fields := map["Response" := "True", "Title" := "Inception", "Year" := "2010",
                       "imdbRating" := "8.8", "Poster" := "p.jpg"];
    assert Get(fields, "Response") == Some("True") != Some("False");
    assert Get(fields, "Title") == Some("Inception");
    assert Get(fields, "Poster") == Some("p.jpg");
    assert Get(fields, "Year") == Some("2010");
    YearRangeIsNoYear();
    assert Get(fields, "imdbRating") == Some("8.8");
    assert "8.8" != "N/A";
    ParseFloatExample();
  }
}

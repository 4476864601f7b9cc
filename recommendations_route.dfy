/** `POST /api/recommendations`: checks the prompt, takes the completion the
    language model returned for it, cuts the text into a movies section and a
    shows section at the literal markers "Movies:" and "TV Series:", and
    parses each section into recommendation records.

    The completion request itself is not modelled: its outcome is an input,
    `Completion`. */
module RecommendationsRoute {
  import opened JsStrings
  import opened RecommendationParser

  const TvMarker := "TV Series:"
  const MoviesMarker := "Movies:"

  /** What the completion request gave. `Answered` carries
      `choices[0]?.message?.content ?? ''`, so a missing choice, message or
      content is `Answered("")`; `RequestFailed` is a call that threw. */
  datatype Completion = RequestFailed | Answered(content: string)

  /** The route's JSON response: an error with its HTTP status, or the two
      lists of records together with the unparsed completion text. */
  datatype Reply =
    | Failure(status: int, error: string)
    | Recommendations(movies: seq<Recommendation>, shows: seq<Recommendation>, raw: string)

  /** `sections[0].split('Movies:')[1]` when `sections.length > 1`, where
      `sections` is `text.split('TV Series:')`; `None` stands for
      `undefined` and for the branch not taken. */
  function MoviesSection(text: string): Option<string> {
    var sections := Split(text, TvMarker);
    if |sections| > 1 then
      var parts := Split(sections[0], MoviesMarker);
      if |parts| > 1 then Some(parts[1]) else None
    else
      None
  }

  /** `sections[1]` when `sections.length > 1`. */
  function ShowsSection(text: string): Option<string> {
    var sections := Split(text, TvMarker);
    if |sections| > 1 then Some(sections[1]) else None
  }

  /** The records of a section, parsed only when it is a non-empty string (the
      handler's `if (moviesSection)` and `if (showsSection)`). */
  function SectionRecords(section: Option<string>): seq<Recommendation> {
    match section
    case Some(s) => if s != "" then ParseRecommendations(s) else []
    case None => []
  }

  /** The handler. A missing or empty prompt is refused with 400 before the
      completion is looked at; a failed request and an empty completion give
      500; otherwise the reply carries the records of the two sections and the
      completion text unchanged, and a text without "TV Series:" gives two
      empty lists. */
  method Post(prompt: Option<string>, completion: Completion) returns (reply: Reply)
    ensures (prompt.None? || prompt == Some("")) <==> reply == Failure(400, "Prompt is required")
    ensures prompt.Some? && prompt.value != "" && completion.RequestFailed? ==>
              reply == Failure(500, "Failed to generate recommendation")
    ensures prompt.Some? && prompt.value != "" && completion == Answered("") ==>
              reply == Failure(500, "No response from AI")
    ensures prompt.Some? && prompt.value != "" && completion.Answered? && completion.content != "" ==>
              reply == Recommendations(SectionRecords(MoviesSection(completion.content)),
                                       SectionRecords(ShowsSection(completion.content)),
                                       completion.content)
    ensures prompt.Some? && prompt.value != "" && completion.Answered? && completion.content != ""
            && !Occurs(completion.content, TvMarker) ==>
              reply == Recommendations([], [], completion.content)
  {
    if prompt.None? || prompt.value == "" {
      return Failure(400, "Prompt is required");
    }
    if completion.RequestFailed? {
      return Failure(500, "Failed to generate recommendation");
    }
    var responseText := completion.content;
    if responseText == "" {
      return Failure(500, "No response from AI");
    }
    var movies: seq<Recommendation> := [];
    var shows: seq<Recommendation> := [];
    var sections := Split(responseText, TvMarker);
    if |sections| > 1 {
      var moviesParts := Split(sections[0], MoviesMarker);
      if |moviesParts| > 1 && moviesParts[1] != "" {
        movies := movies + ParseRecommendations(moviesParts[1]);
      }
      assert movies == SectionRecords(MoviesSection(responseText));
      var showsSection := sections[1];
      if showsSection != "" {
        shows := shows + ParseRecommendations(showsSection);
      }
      assert shows == SectionRecords(ShowsSection(responseText));
    } else {
      assert MoviesSection(responseText).None? && ShowsSection(responseText).None?;
    }
    if !Occurs(responseText, TvMarker) {
      SplitWithout(responseText, TvMarker);
    }
    reply := Recommendations(movies, shows, responseText);
  }

  /** The `if (section)` guards change nothing: an empty section has no
      records anyway. */
  lemma EmptySectionHasNoRecords()
    ensures ParseRecommendations("") == []
  {
    assert Split("", "\n") == [""];
    assert !KeepsLine("");
  }

  /** Without "TV Series:" there is neither a movies nor a shows section. */
  lemma NoSectionsWithoutTvMarker(text: string)
    requires !Occurs(text, TvMarker)
    ensures MoviesSection(text).None? && ShowsSection(text).None?
  {
    SplitWithout(text, TvMarker);
  }

  /** The shows section is exactly the text between the first "TV Series:"
      (at `i`) and the next one (at `k`), or the end of the text: anything
      after a second marker is ignored. */
  lemma ShowsBetweenMarkers(text: string, i: nat, k: nat)
    requires IsFirstOccurrence(text, TvMarker, i)
    requires i + |TvMarker| <= k <= |text|
    requires forall j: nat :: i + |TvMarker| <= j < k ==> !OccursAt(text, TvMarker, j)
    requires k == |text| || OccursAt(text, TvMarker, k)
    ensures ShowsSection(text) == Some(text[i + |TvMarker|..k])
  {
    SplitSecond(text, TvMarker, i, k);
  }

  /** The movies section is the text after the first "Movies:" (at `j`) and
      before the next "Movies:" (at `k`) or the end of the part before the
      first "TV Series:" (at `i`). */
  lemma MoviesBetweenMarkers(text: string, i: nat, j: nat, k: nat)
    requires IsFirstOccurrence(text, TvMarker, i)
    requires IsFirstOccurrence(text[..i], MoviesMarker, j)
    requires j + |MoviesMarker| <= k <= i
    requires forall n: nat :: j + |MoviesMarker| <= n < k ==> !OccursAt(text[..i], MoviesMarker, n)
    requires k == i || OccursAt(text[..i], MoviesMarker, k)
    ensures MoviesSection(text) == Some(text[j + |MoviesMarker|..k])
  {
    SplitFirstPiece(text, TvMarker, i);
    var before := Split(text, TvMarker)[0];
    assert before == text[..i];
    SplitSecond(before, MoviesMarker, j, k);
    SliceOfPrefix(text, i, j + |MoviesMarker|, k);
  }

  /** When the part before the first "TV Series:" has no "Movies:", there is
      no movies section. */
  lemma NoMoviesWithoutMoviesMarker(text: string, i: nat)
    requires IsFirstOccurrence(text, TvMarker, i)
    requires !Occurs(text[..i], MoviesMarker)
    ensures MoviesSection(text).None?
  {
    SplitAtFirst(text, TvMarker, i);
    SplitWithout(text[..i], MoviesMarker);
  }
}

/**
 * SearchBox's `handleSearch`: guard on the query, one request for the search
 * hits, a random pick among the first five, one request for that page's
 * extract, then either `onSearch` with the announced fact or an error toast;
 * `loading` is set for the duration and cleared on every path.
 *
 * The two requests are not performed here: what each one comes back with is
 * an input of the model.
 */
module SearchBox {
  import opened Wrappers
  import opened Cleaning

  /** What an awaited `fetch(...)` / `.json()` throws. */
  datatype Thrown = ErrorValue(message: string) | OtherValue

  /** What an awaited request yields: its body as far as the code reads it, or a throw. */
  datatype Reply<T> = Body(body: T) | Throws(thrown: Thrown)

  /**
   * One search hit, with what the content request for its page comes back
   * with: the page's extract, `None` when the page has none.
   */
  datatype Hit = Hit(content: Reply<Option<string>>)

  /** What one `handleSearch` call ends in. */
  datatype Outcome =
    | Skipped                      // blank query: returned at once
    | Delivered(fact: string)      // `onSearch(fact)` was called
    | Failed(description: string)  // the error toast was shown with this description

  /** The outcome together with the number of requests sent. */
  datatype Run = Run(requests: nat, outcome: Outcome)

  const NoResults: string := "No results found"
  const NoFact: string := "No fact found"
  const FetchFailed: string := "Failed to fetch fact from Wikipedia"

  /** The random pick is made among at most this many leading hits. */
  const MaxCandidates: nat := 5

  function Min(a: int, b: int): int {
    if a <= b then a else b
  }

  /**
   * The query is made of whitespace only; `BlankMeansTrimmedEmpty` shows
   * this is the guard `!query.trim()`.
   */
  predicate Blank(query: string) {
    forall i :: 0 <= i < |query| ==> IsWs(query[i])
  }

  /** JavaScript truthiness of the extract: neither missing nor the empty string. */
  predicate Truthy(extract: Option<string>) {
    extract.Some? && extract.value != []
  }

  /** The toast description for a caught throw. */
  function Describe(t: Thrown): string {
    match t
    case ErrorValue(m) => m
    case OtherValue => FetchFailed
  }

  /** The random pick lies among the first `MaxCandidates` hits, when there are hits. */
  predicate PickInRange(search: Reply<seq<Hit>>, pick: nat) {
    search.Body? && |search.body| > 0 ==> pick < Min(|search.body|, MaxCandidates)
  }

  /**
   * What `handleSearch` does for a query, given what the search request
   * comes back with and the index `pick` the random choice produced.
   */
  function Respond(query: string, search: Reply<seq<Hit>>, pick: nat): (r: Run)
    requires PickInRange(search, pick)
    ensures r.requests == 0 <==> r.outcome.Skipped?
    ensures r.requests <= 2
  {
    if Blank(query) then Run(0, Skipped) else Attempt(search, pick)
  }

  /** The `try` block of `handleSearch` with its `catch`: every path sends a request. */
  function Attempt(search: Reply<seq<Hit>>, pick: nat): (r: Run)
    requires PickInRange(search, pick)
    ensures 1 <= r.requests <= 2 && !r.outcome.Skipped?
  {
    match search
    case Throws(t) => Run(1, Failed(Describe(t)))
    case Body(hits) =>
      if |hits| == 0 then Run(1, Failed(NoResults))
      else match hits[pick].content
        case Throws(t) => Run(2, Failed(Describe(t)))
        case Body(extract) =>
          if Truthy(extract) then Run(2, Delivered(Announce(extract.value)))
          else Run(2, Failed(NoFact))
  }

  /** Exactly the blank queries are skipped, and nothing else is. */
  lemma SkipsExactlyBlank(query: string, search: Reply<seq<Hit>>, pick: nat)
    requires PickInRange(search, pick)
    ensures Respond(query, search, pick).outcome.Skipped? <==> Blank(query)
  {
  }

  /**
   * A fact is delivered exactly when the query is not blank, the search
   * finds at least one hit and the picked page has a non-empty extract; it
   * is then that extract, cleaned and announced, after both requests.
   */
  lemma DeliversExactly(query: string, search: Reply<seq<Hit>>, pick: nat)
    requires PickInRange(search, pick)
    ensures var r := Respond(query, search, pick);
      r.outcome.Delivered? <==>
        !Blank(query) && search.Body? && |search.body| > 0 &&
        search.body[pick].content.Body? && Truthy(search.body[pick].content.body)
    ensures var r := Respond(query, search, pick);
      r.outcome.Delivered? ==>
        r.requests == 2 && r.outcome.fact == Announce(search.body[pick].content.body.value)
  {
  }

  /** Zero search hits end in "No results found" after one request, and nothing is delivered. */
  lemma NoHitsFails(query: string, pick: nat)
    requires !Blank(query)
    ensures Respond(query, Body([]), pick) == Run(1, Failed(NoResults))
  {
  }

  /**
   * A picked page whose extract is missing or empty ends in "No fact found"
   * after both requests, and nothing is delivered.
   */
  lemma FalsyExtractFails(query: string, hits: seq<Hit>, pick: nat)
    requires !Blank(query) && PickInRange(Body(hits), pick) && |hits| > 0
    requires hits[pick].content == Body(None) || hits[pick].content == Body(Some([]))
    ensures Respond(query, Body(hits), pick) == Run(2, Failed(NoFact))
  {
  }

  /** `Blank` is exactly the source's test `!query.trim()`. */
  lemma BlankMeansTrimmedEmpty(query: string)
    ensures Blank(query) <==> Trim(query) == []
  {
    TrimBlank(query);
  }

  /** The search box component: its query text and its `loading` flag. */
  class SearchBox {
    var query: string
    var loading: bool

    constructor ()
      ensures query == [] && !loading
    {
      query := [];
      loading := false;
    }

    /** The input's `onChange`. */
    method SetQuery(q: string)
      modifies this
      ensures query == q && loading == old(loading)
    {
      query := q;
    }

    /**
     * `handleSearch`. `search` is what the search request comes back with,
     * each hit carrying what the content request for its page would come
     * back with; `pick` is the index the random choice produced.
     */
    method HandleSearch(search: Reply<seq<Hit>>) returns (run: Run, pick: nat)
      modifies this
      ensures query == old(query)
      ensures PickInRange(search, pick)
      ensures run == Respond(query, search, pick)
      ensures Blank(query) ==> loading == old(loading)
      ensures !Blank(query) ==> !loading
      ensures run.outcome.Delivered? ==> run.outcome.fact != []
    {
      pick := 0;
      if Blank(query) {
        run := Run(0, Skipped);
        return;
      }
      loading := true;
      run, pick := Try(search);
      // the `finally` block
      loading := false;
    }

    /** The `try` block and its `catch`, as `handleSearch` runs them once the query is not blank. */
    static method Try(search: Reply<seq<Hit>>) returns (run: Run, pick: nat)
      ensures PickInRange(search, pick)
      ensures run == Attempt(search, pick)
      ensures run.outcome.Delivered? ==> run.outcome.fact != []
    {
      pick := 0;
      var requests := 1;
      var outcome: Outcome;
      match search {
        case Throws(t) =>
          outcome := Failed(Describe(t));
        case Body(hits) =>
          if |hits| == 0 {
            outcome := Failed(NoResults);
          } else {
            pick :| pick < Min(|hits|, MaxCandidates);
            assert pick < Min(|hits|, MaxCandidates) <= |hits|;
            requests := 2;
            match hits[pick].content {
              case Throws(t) =>
                outcome := Failed(Describe(t));
              case Body(extract) =>
                if Truthy(extract) {
                  AnnounceNonEmpty(extract.value);
                  outcome := Delivered(Announce(extract.value));
                } else {
                  outcome := Failed(NoFact);
                }
            }
          }
      }
      run := Run(requests, outcome);
    }
  }
}

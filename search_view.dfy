/** The search view: the state slots the component keeps, the handlers that
    change the page and the query, and one fetch split at its `await` into
    the request it sends and the state updates the response causes. */
module SearchView {

  import opened Wrappers
  import opened Books
  import opened PublicationDates
  import opened Authors
  import opened Pagination

  /** What the provider's reply amounts to once the body is parsed. */
  datatype Response =
    | ApiError(message: string)                               // the body has an `error` member
    | Payload(totalItems: int, items: Option<seq<Volume>>)    // `items` is absent on an empty result
    | FetchFailed(message: string)                            // `fetch` or `response.json()` rejected

  /** The three values pasted, unencoded, into the GET request's URL. */
  datatype Request = Request(q: string, startIndex: int, maxResults: int)

  /** The message of the TypeError raised by `data.items.flatMap` when the
      body has no `items` (V8's wording). */
  const MissingItemsMessage: string := "Cannot read properties of undefined (reading 'flatMap')"

  /** The message of the TypeError raised by `reduce` on an empty array with no
      initial value (V8's wording). */
  const EmptyReduceMessage: string := "Reduce of empty array with no initial value"

  class BookSearch {
    var query: string
    var results: seq<Volume>
    var totalResults: int
    var mostCommonAuthor: string
    var earliestPublicationDate: DateText
    var latestPublicationDate: DateText
    var serverResponseTime: string
    var loading: bool
    var error: string
    var currentPage: int

    /** Pages count from 1, whatever else happens. */
    ghost predicate Valid()
      reads this
    {
      currentPage >= 1
    }

    /** The initial values of the slots. */
    constructor ()
      ensures Valid()
      ensures query == "" && results == [] && totalResults == 0 && mostCommonAuthor == ""
      ensures earliestPublicationDate == Blank && latestPublicationDate == Blank
      ensures serverResponseTime == "" && !loading && error == "" && currentPage == 1
    {
      query, results, totalResults, mostCommonAuthor := "", [], 0, "";
      earliestPublicationDate, latestPublicationDate := Blank, Blank;
      serverResponseTime, loading, error, currentPage := "", false, "", 1;
    }

    /** `handleInputChange`: the text field's value becomes the query as
        typed; the page is not reset. */
    method HandleInputChange(text: string)
      requires Valid()
      modifies this`query
      ensures Valid() && query == text
    {
      query := text;
    }

    /** `handleSearch`: back to the first page, whatever the page was. */
    method HandleSearch()
      modifies this`currentPage
      ensures Valid() && currentPage == 1
      ensures InRange(currentPage, totalResults)
    {
      currentPage := 1;
    }

    /** `handlePrevPage`: one page back unless on the first. */
    method HandlePrevPage()
      requires Valid()
      modifies this`currentPage
      ensures Valid() && currentPage == PrevPage(old(currentPage))
      ensures InRange(old(currentPage), totalResults) ==> InRange(currentPage, totalResults)
    {
      if currentPage > 1 {
        currentPage := currentPage - 1;
      }
      PrevPageBounded(old(currentPage), totalResults);
    }

    /** `handleNextPage`: one page on unless on or past the last page the
        current total makes. */
    method HandleNextPage()
      requires Valid()
      modifies this`currentPage
      ensures Valid() && currentPage == NextPage(old(currentPage), totalResults)
      ensures InRange(old(currentPage), totalResults) ==> InRange(currentPage, totalResults)
    {
      if currentPage < PageCount(totalResults) {
        currentPage := currentPage + 1;
      }
      NextPageBounded(old(currentPage), totalResults);
    }

    /** The part of `fetchBooks` before the `await`: raise the loading flag
        and build the request for the current query and page. */
    method BeginFetch() returns (request: Request)
      requires Valid()
      modifies this`loading
      ensures Valid() && loading
      ensures request == Request(query, StartIndex(currentPage), PageSize)
      ensures request.startIndex >= 0 && request.startIndex % PageSize == 0
    {
      loading := true;
      request := Request(query, StartIndex(currentPage), PageSize);
    }

    /** The writes of a fetch that got as far as choosing the author: the
        statistics, the items and the latency are shown and the error cleared. */
    method ShowPage(items: seq<Volume>, author: string, latency: string)
      modifies this`mostCommonAuthor, this`earliestPublicationDate, this`latestPublicationDate
      modifies this`results, this`serverResponseTime, this`error
      ensures mostCommonAuthor == author && results == items && error == ""
      ensures earliestPublicationDate == EarliestText(items) && latestPublicationDate == LatestText(items)
      ensures serverResponseTime == latency
    {
      mostCommonAuthor := author;
      earliestPublicationDate := EarliestText(items);
      latestPublicationDate := LatestText(items);
      results := items;
      serverResponseTime := latency;
      error := "";
    }

    /** The slots a successful fetch rewrites from its page still hold what
        they held before. */
    twostate predicate StatisticsKept()
      reads this
    {
      && results == old(results)
      && mostCommonAuthor == old(mostCommonAuthor)
      && earliestPublicationDate == old(earliestPublicationDate)
      && latestPublicationDate == old(latestPublicationDate)
      && serverResponseTime == old(serverResponseTime)
    }

    /** The state a body leaves: the total is written before anything can
        throw; a missing `items` or a page without authors throws and keeps
        the statistics; otherwise every statistic is rewritten. */
    twostate predicate AfterPayload(total: int, items: Option<seq<Volume>>, latency: string)
      reads this
    {
      && totalResults == total
      && (items.None? ==> error == MissingItemsMessage && StatisticsKept())
      && (items.Some? && AllAuthors(items.value) == [] ==> error == EmptyReduceMessage && StatisticsKept())
      && (items.Some? && AllAuthors(items.value) != [] ==>
            error == "" && results == items.value &&
            mostCommonAuthor == MostCommonOf(AllAuthors(items.value)) &&
            earliestPublicationDate == EarliestText(items.value) &&
            latestPublicationDate == LatestText(items.value) &&
            serverResponseTime == latency)
    }

    /** The part of `fetchBooks` after the `await`, given the parsed reply and
        the measured latency already formatted. The slots are written one by
        one, so a throw part-way leaves the earlier writes in place; whatever
        happens, `loading` is cleared and the query and page are kept. */
    method ApplyResponse(response: Response, latency: string)
      requires Valid()
      modifies this
      ensures Valid() && !loading
      ensures query == old(query) && currentPage == old(currentPage)
      // A provider error or a failed request: only the message changes.
      ensures !response.Payload? ==>
                error == response.message && totalResults == old(totalResults) && StatisticsKept()
      ensures response.Payload? ==> AfterPayload(response.totalItems, response.items, latency)
    {
      match response {
        case ApiError(message) =>
          error := message;
        case FetchFailed(message) =>
          error := message;
        case Payload(total, items) =>
          ApplyPayload(total, items, latency);
      }
      loading := false;
    }

    /** Lines 34-52 for a body without an `error` member. */
    method ApplyPayload(total: int, items: Option<seq<Volume>>, latency: string)
      modifies this`totalResults, this`error, this`mostCommonAuthor, this`earliestPublicationDate
      modifies this`latestPublicationDate, this`results, this`serverResponseTime
      ensures AfterPayload(total, items, latency)
    {
      totalResults := total;
      if items.None? {
        error := MissingItemsMessage;
      } else {
        var author := MostCommonAuthor(items.value);
        if author.None? {
          error := EmptyReduceMessage;
        } else {
          var all := AllAuthors(items.value);
          ReduceChoosesMostCommon(all);
          MostCommonUnique(all, author.value, MostCommonOf(all));
          ShowPage(items.value, author.value, latency);
        }
      }
    }
  }

  /** A client: a page whose books list no author shows the reduce error,
      keeps the previous (here: initial) results, yet reports the new total. */
  method AuthorlessPageClient()
  {
    var view := new BookSearch();
    view.HandleInputChange("dafny");
    view.HandleSearch();
    var request := view.BeginFetch();
    assert request == Request("dafny", 0, 10);
    var page := [Volume(None, "Untitled", None, Some("1999"))];
    assert AllAuthors(page) == [];
    view.ApplyResponse(Payload(1, Some(page)), "12.50");
    assert view.totalResults == 1 && view.results == [];
    assert view.error == EmptyReduceMessage && !view.loading;
  }
}

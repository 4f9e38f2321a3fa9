/** The paged blog list (src/BlogsPage/Blogs.jsx): pages of blogs are fetched
    one at a time, either replacing the list or appending to it, a page that
    scrolls into view asks for the next one, and a search box narrows what is
    shown.

    The request and its decoding are not modelled; their outcome is an input.
    The intersection observer is not modelled; each time the last card
    scrolls into view is a call. */
module BlogsPage {
  import opened Common
  import opened Strings
  import opened Seqs

  /** The `pagination` record of a page response. */
  datatype Pagination = Pagination(
    currentPage: int,
    totalPages: int,
    totalBlogs: int,
    limit: int,
    hasNextPage: bool,
    hasPrevPage: bool)

  /** The pagination the page starts with, and falls back to when a response
      carries none. */
  function DefaultPagination(): Pagination
  {
    Pagination(1, 1, 0, 10, false, false)
  }

  /** The outcome of one page request: it threw, was not ok or could not be
      decoded, or it was ok and carried `data.blogs` and `data.pagination`,
      each possibly absent. */
  datatype PageResponse = PageFailed | PageOk(blogs: Option<seq<Blog>>, pagination: Option<Pagination>)

  function PageBlogs(r: PageResponse): seq<Blog>
    requires r.PageOk?
  {
    match r.blogs
    case None => []
    case Some(bs) => bs
  }

  function PagePagination(r: PageResponse): Pagination
    requires r.PageOk?
  {
    match r.pagination
    case None => DefaultPagination()
    case Some(p) => p
  }

  const LoadError: string := "Failed to load blogs. Please try again later."

  /** What the page draws. */
  datatype Screen =
    | Spinner
    | ErrorText(message: string)
    | Listing(shown: seq<Blog>, loadingMore: bool, endMessage: bool, noResults: bool)

  /** Whether `tags.some(tag => tag.toLowerCase().includes(q))`. */
  function AnyTagContains(tags: seq<string>, q: string): bool
  {
    tags != [] && (Contains(ToLower(tags[0]), q) || AnyTagContains(tags[1..], q))
  }

  lemma {:induction false} AnyTagContainsIff(tags: seq<string>, q: string)
    ensures AnyTagContains(tags, q) <==> exists i :: 0 <= i < |tags| && Contains(ToLower(tags[i]), q)
  {
    if tags != [] {
      AnyTagContainsIff(tags[1..], q);
      if AnyTagContains(tags[1..], q) {
        var i :| 0 <= i < |tags[1..]| && Contains(ToLower(tags[1..][i]), q);
        assert tags[1..][i] == tags[i + 1];
      }
      if exists i :: 0 <= i < |tags| && Contains(ToLower(tags[i]), q) {
        var i :| 0 <= i < |tags| && Contains(ToLower(tags[i]), q);
        if i > 0 {
          assert tags[1..][i - 1] == tags[i];
        }
      }
    }
  }

  /** The search predicate, for a query `q` already lowered. */
  predicate Matches(b: Blog, q: string)
  {
    || Contains(ToLower(b.title), q)
    || Contains(ToLower(b.meta), q)
    || Contains(ToLower(b.category), q)
    || AnyTagContains(b.tags, q)
  }

  function MatchOf(q: string): Blog -> bool
  {
    (b: Blog) => Matches(b, q)
  }

  /** The blogs the search keeps, in list order. */
  function FilteredBlogs(blogs: seq<Blog>, query: string): seq<Blog>
  {
    Filter(MatchOf(ToLower(query)), blogs)
  }

  /** What the search means: the lowered query occurs in the lowered title,
      meta description or category, or in one of the lowered tags. */
  ghost predicate SearchHit(b: Blog, query: string)
  {
    var q := ToLower(query);
    || OccursIn(q, ToLower(b.title))
    || OccursIn(q, ToLower(b.meta))
    || OccursIn(q, ToLower(b.category))
    || exists i :: 0 <= i < |b.tags| && OccursIn(q, ToLower(b.tags[i]))
  }

  /** The computed search predicate is the one meant. */
  lemma MatchesIff(b: Blog, query: string)
    ensures Matches(b, ToLower(query)) <==> SearchHit(b, query)
  {
    var q := ToLower(query);
    ContainsIff(ToLower(b.title), q);
    ContainsIff(ToLower(b.meta), q);
    ContainsIff(ToLower(b.category), q);
    AnyTagContainsIff(b.tags, q);
    forall i | 0 <= i < |b.tags| ensures Contains(ToLower(b.tags[i]), q) <==> OccursIn(q, ToLower(b.tags[i])) {
      ContainsIff(ToLower(b.tags[i]), q);
    }
  }

  /** The search keeps the list order, and keeps a blog exactly when the
      query hits it. */
  lemma FilteredBlogsMeaning(blogs: seq<Blog>, query: string)
    ensures IsSubsequence(FilteredBlogs(blogs, query), blogs)
    ensures forall b :: b in FilteredBlogs(blogs, query) <==> b in blogs && SearchHit(b, query)
  {
    FilterIsSubsequence(MatchOf(ToLower(query)), blogs);
    forall b | b in blogs || b in FilteredBlogs(blogs, query)
      ensures b in FilteredBlogs(blogs, query) <==> b in blogs && SearchHit(b, query)
    {
      MatchesIff(b, query);
    }
  }

  /** The empty query keeps every blog. */
  lemma EmptyQueryKeepsAll(blogs: seq<Blog>)
    ensures FilteredBlogs(blogs, "") == blogs
  {
    var p := MatchOf(ToLower(""));
    forall i | 0 <= i < |blogs| ensures p(blogs[i]) {
      ContainsEmpty(ToLower(blogs[i].title));
    }
    FilterAll(p, blogs);
  }

  /** The case of the query does not matter. */
  lemma QueryCaseInsensitive(blogs: seq<Blog>, query: string)
    ensures FilteredBlogs(blogs, ToLower(query)) == FilteredBlogs(blogs, query)
  {
    ToLowerIdempotent(query);
  }

  class BlogsPage {
    var loading: bool
    var loadingMore: bool
    var blogs: seq<Blog>
    var error: Option<string>
    var searchQuery: string
    var pagination: Pagination

    /** The state when the page mounts. */
    constructor ()
      ensures loading && !loadingMore && blogs == [] && error == None
      ensures searchQuery == "" && pagination == DefaultPagination()
    {
      loading := true;
      loadingMore := false;
      blogs := [];
      error := None;
      searchQuery := "";
      pagination := DefaultPagination();
    }

    /** What is drawn: the loader while the first page loads, the error
        message after a failure, and otherwise the blogs the search keeps,
        with the load-more spinner, the end-of-list message when there is no
        further page, and the no-results message when nothing is kept. */
    function View(): (s: Screen)
      reads this
      ensures loading <==> s == Spinner
      ensures s.ErrorText? <==> !loading && error.Some? && error.value != ""
      ensures s.ErrorText? ==> s.message == error.value
      ensures s.Listing? ==>
        && s.shown == FilteredBlogs(blogs, searchQuery)
        && s.loadingMore == loadingMore
        && (s.endMessage <==> !pagination.hasNextPage && |s.shown| > 0)
        && (s.noResults <==> s.shown == [])
    {
      if loading then Spinner
      else if error.Some? && error.value != "" then ErrorText(error.value)
      else
        var shown := FilteredBlogs(blogs, searchQuery);
        Listing(shown, loadingMore, !pagination.hasNextPage && |shown| > 0, |shown| == 0)
    }

    /** The page the last card asks for when it scrolls into view, if any:
        none while a page is loading or when there is no further page. */
    function LoadMoreRequest(isIntersecting: bool): (page: Option<int>)
      reads this
      ensures page.Some? <==> !loading && !loadingMore && isIntersecting && pagination.hasNextPage
      ensures page.Some? ==> page.value == pagination.currentPage + 1
    {
      if loading || loadingMore then None
      else if isIntersecting && pagination.hasNextPage then Some(pagination.currentPage + 1)
      else None
    }

    /** The synchronous start of `fetchBlogs(page, append)`: without an API
        key nothing is requested and loading is over; otherwise page 1 shows
        the loader and any other page the load-more spinner. While the
        request is in flight the list asks for no further page. */
    method StartFetch(apiKeyPresent: bool, page: int) returns (requested: bool)
      modifies this
      ensures requested == apiKeyPresent
      ensures !apiKeyPresent ==> !loading && loadingMore == old(loadingMore)
      ensures apiKeyPresent && page == 1 ==> loading && loadingMore == old(loadingMore)
      ensures apiKeyPresent && page != 1 ==> loadingMore && loading == old(loading)
      ensures requested ==> forall isIntersecting :: LoadMoreRequest(isIntersecting) == None
      ensures blogs == old(blogs) && error == old(error)
      ensures pagination == old(pagination) && searchQuery == old(searchQuery)
    {
      if !apiKeyPresent {
        loading := false;
        return false;
      }
      requested := true;
      if page == 1 {
        loading := true;
      } else {
        loadingMore := true;
      }
    }

    /** The rest of `fetchBlogs`, once the response is in. An ok response
        appends its blogs to the list or replaces the list with them (absent
        blogs are an empty page), takes its pagination or the default one,
        and clears the error; a failure keeps the list and the pagination and
        sets the error. Both loading flags end false in every case. */
    method FinishFetch(append: bool, response: PageResponse)
      modifies this
      ensures !loading && !loadingMore
      ensures response.PageOk? ==>
        && blogs == (if append then old(blogs) + PageBlogs(response) else PageBlogs(response))
        && pagination == PagePagination(response)
        && error == None
      ensures response.PageFailed? ==>
        blogs == old(blogs) && pagination == old(pagination) && error == Some(LoadError)
      ensures searchQuery == old(searchQuery)
    {
      if response.PageOk? {
        if append {
          blogs := blogs + PageBlogs(response);
        } else {
          blogs := PageBlogs(response);
        }
        pagination := PagePagination(response);
        error := None;
      } else {
        error := Some(LoadError);
      }
      loading := false;
      loadingMore := false;
    }

    /** `fetchBlogs(page, append)` from start to finish. */
    method FetchBlogs(apiKeyPresent: bool, page: int, append: bool, response: PageResponse)
      modifies this
      ensures !loading
      ensures apiKeyPresent ==> !loadingMore
      ensures !apiKeyPresent ==>
        && blogs == old(blogs) && pagination == old(pagination) && error == old(error)
        && loadingMore == old(loadingMore)
      ensures apiKeyPresent && response.PageOk? ==>
        && blogs == (if append then old(blogs) + PageBlogs(response) else PageBlogs(response))
        && pagination == PagePagination(response)
        && error == None
      ensures apiKeyPresent && response.PageFailed? ==>
        blogs == old(blogs) && pagination == old(pagination) && error == Some(LoadError)
      ensures searchQuery == old(searchQuery)
    {
      var requested := StartFetch(apiKeyPresent, page);
      if requested {
        FinishFetch(append, response);
      }
    }

    /** The mount effect: the first page is fetched, replacing the list, only
        when there is an API key. */
    method Mount(apiKeyPresent: bool, response: PageResponse)
      modifies this
      ensures !apiKeyPresent ==>
        && loading == old(loading) && loadingMore == old(loadingMore)
        && blogs == old(blogs) && pagination == old(pagination) && error == old(error)
      ensures apiKeyPresent ==> !loading && !loadingMore
      ensures apiKeyPresent && response.PageOk? ==>
        blogs == PageBlogs(response) && pagination == PagePagination(response) && error == None
      ensures apiKeyPresent && response.PageFailed? ==>
        blogs == old(blogs) && pagination == old(pagination) && error == Some(LoadError)
      ensures searchQuery == old(searchQuery)
    {
      if apiKeyPresent {
        FetchBlogs(true, 1, false, response);
      }
    }

    /** The corrected mount effect: the fetch runs with or without a key, so
        its own missing-key branch ends the loading. */
    method MountCorrected(apiKeyPresent: bool, response: PageResponse)
      modifies this
      ensures !loading
      ensures apiKeyPresent ==> !loadingMore
      ensures !apiKeyPresent ==>
        && loadingMore == old(loadingMore)
        && blogs == old(blogs) && pagination == old(pagination) && error == old(error)
      ensures apiKeyPresent && response.PageOk? ==>
        blogs == PageBlogs(response) && pagination == PagePagination(response) && error == None
      ensures apiKeyPresent && response.PageFailed? ==>
        blogs == old(blogs) && pagination == old(pagination) && error == Some(LoadError)
      ensures searchQuery == old(searchQuery)
    {
      FetchBlogs(apiKeyPresent, 1, false, response);
    }

    /** The last card scrolled into view: when a further page may be loaded,
        it is fetched and appended. */
    method LoadMore(isIntersecting: bool, response: PageResponse) returns (requested: Option<int>)
      modifies this
      ensures requested == old(LoadMoreRequest(isIntersecting))
      ensures requested.None? ==>
        && blogs == old(blogs) && pagination == old(pagination) && error == old(error)
        && loading == old(loading) && loadingMore == old(loadingMore)
      ensures requested.Some? ==> !loading && !loadingMore
      ensures requested.Some? && response.PageOk? ==>
        && blogs == old(blogs) + PageBlogs(response) && pagination == PagePagination(response)
        && error == None
      ensures requested.Some? && response.PageFailed? ==>
        blogs == old(blogs) && pagination == old(pagination) && error == Some(LoadError)
      ensures searchQuery == old(searchQuery)
    {
      requested := LoadMoreRequest(isIntersecting);
      if requested.Some? {
        FetchBlogs(true, requested.value, true, response);
      }
    }

    /** Typing in the search box, or the clear button with `q == ""`. */
    method SetSearchQuery(q: string)
      modifies this
      ensures searchQuery == q
      ensures blogs == old(blogs) && pagination == old(pagination) && error == old(error)
      ensures loading == old(loading) && loadingMore == old(loadingMore)
    {
      searchQuery := q;
    }
  }

  /** As written: without an API key the page never leaves the loader,
      because the mount effect skips the fetch whose missing-key branch
      would have ended the loading. */
  method NoKeyKeepsLoader() returns (screen: Screen)
    ensures screen == Spinner
  {
    var page := new BlogsPage();
    page.Mount(false, PageFailed);
    screen := page.View();
  }

  /** Corrected: without an API key loading ends, and the page shows an empty
      list with its no-results message. */
  method NoKeyShowsEmptyList() returns (screen: Screen)
    ensures screen == Listing([], false, false, true)
  {
    var page := new BlogsPage();
    page.MountCorrected(false, PageFailed);
    screen := page.View();
  }
}

# irada-widgets, modelled in Dafny

This project models the logic inside the irada-widgets React components and
proves what that logic promises. The components are a blog reader, a
featured-blogs carousel, a paged blog list, a contact form and a blog card.
Rendering, HTTP and the DOM are left out. Each request's outcome is an input
value, and each browser event is a method call.

One module per concern:

- `Common`: the blog record and the outcome of a request for a list of blogs.
- `Strings`: JavaScript's white space, `trim`, ASCII `toLowerCase`,
  `includes`, and decimal rendering of non-negative integers.
- `Seqs`: `filter` and the order and distinctness facts about it.
- `BlogCard`: `truncate`, `getBlogPath`, relative-time buckets and the tag row
  (src/BlogCard/BlogCard.jsx).
- `ReadingTime`: `calculateReadingTime` (src/BlogReader/BlogRead.jsx).
- `TableOfContents`: `generateTableOfContents` and `processContentWithIds`
  (src/BlogReader/BlogRead.jsx).
- `SimilarBlogs`: the choice of similar articles in `fetchSimilarBlogs`
  (src/BlogReader/BlogRead.jsx).
- `Carousel`: the featured-blogs carousel as a class whose fields are the
  component's state and refs (src/FeaturedBlogs/FeaturedBlogsCarousel.jsx).
- `BlogsPage`: the paged list as a class, plus its search filter
  (src/BlogsPage/Blogs.jsx).
- `MessageForm`: the contact form as a class, plus its field checks
  (src/MessageForm/MessageForm.jsx).

Three details of the code that the model keeps as written:
- The similar articles leave out the blog being read by comparing each
  candidate's slug with the route's slug, not with the loaded blog's own slug.
- Common tags are counted once per occurrence in the candidate's tag list.
- When the category request throws, the similar-articles list keeps its
  previous value.

## Model

| member | source | states |
|---|---|---|
| BlogCard.Truncate | src/BlogCard/BlogCard.jsx:6-9 | An absent or empty string gives "". A string no longer than `n` comes back unchanged. A longer one keeps its first `n - 1` characters (none when `n < 1`) followed by "...", so it is `n + 2` long for `n >= 1`. |
| BlogCard.TruncateKeepsPrefix | src/BlogCard/BlogCard.jsx:8 | The result is the string itself or a proper prefix of it followed by "...". |
| BlogCard.GetBlogPath | src/BlogCard/BlogCard.jsx:43-50 | The path always ends in "/blog/<slug>". Under a path ending in "/blogs" it extends that path. Anywhere else it is exactly "/blog/<slug>". |
| BlogCard.Bucket | src/BlogCard/BlogCard.jsx:12-25 | "Just now" exactly for differences under 60 seconds, negative ones included. Otherwise the unit is the first whose next threshold is not reached, and the count is the difference in that unit rounded down (at least 1). |
| BlogCard.BucketMonotone | src/BlogCard/BlogCard.jsx:17-24 | A later time never falls in an earlier unit, and within one unit never shows a smaller count. |
| BlogCard.FormatRelativeTime | src/BlogCard/BlogCard.jsx:12-25 | The text is "Just now" exactly when the difference is under a minute. Otherwise it is the bucket's count followed by its unit suffix. |
| BlogCard.RenderInjective | src/BlogCard/BlogCard.jsx:17-24 | Two buckets that render to the same text are the same bucket, so the rendered text determines the count and the unit. |
| BlogCard.ShownTags | src/BlogCard/BlogCard.jsx:72-81 | No tag row exactly when there are no tags. Otherwise the first three tags are shown, and a "+k" badge appears exactly when there are more than three. Then k is the number of hidden tags. |
| BlogCard.ShownTagsCover | src/BlogCard/BlogCard.jsx:74-81 | The visible tags followed by the tags the badge counts are exactly the blog's tags. |
| ReadingTime.StripTags | src/BlogReader/BlogRead.jsx:10 | Removing `/<[^>]*>/g` leaves text in which no '<' has a '>' after it, made only of characters of the input. |
| ReadingTime.StripTagsRemovesTag | src/BlogReader/BlogRead.jsx:10 | Text with no '<', then a '<', then text with no '>', then a '>', loses exactly that tag: the leading text is kept and stripping goes on after the '>'. |
| ReadingTime.StripTagsKeepsPrefix | src/BlogReader/BlogRead.jsx:10 | Text with no '<' in front of the rest is kept unchanged. |
| ReadingTime.StripTagsNoTag | src/BlogReader/BlogRead.jsx:10 | Text without a tag passes through unchanged. |
| ReadingTime.StripTagsIdempotent | src/BlogReader/BlogRead.jsx:10 | Stripping twice is stripping once. |
| ReadingTime.Split | src/BlogReader/BlogRead.jsx:10 | `split(/\s+/)` gives at least one piece, and no piece holds white space. |
| ReadingTime.SplitJoin | src/BlogReader/BlogRead.jsx:10 | There is one separator fewer than pieces, and the pieces joined back with the separators between them give the text. |
| ReadingTime.SeparatorsAreRuns | src/BlogReader/BlogRead.jsx:10 | Every separator `split` cuts at is a non-empty run of white space. |
| ReadingTime.SplitInnerNonEmpty | src/BlogReader/BlogRead.jsx:10 | Every piece other than the first and the last is non-empty, so no white-space run is cut in two. |
| ReadingTime.SplitIsCutting | src/BlogReader/BlogRead.jsx:10 | The split is a cutting at maximal white-space runs: white-space-free pieces, non-empty inside, between non-empty white-space runs, joining back to the text. |
| ReadingTime.SplitUnique | src/BlogReader/BlogRead.jsx:10 | Any cutting at maximal white-space runs is the split, so the pieces, and with them the word count, are determined by the text. |
| ReadingTime.WordCount | src/BlogReader/BlogRead.jsx:10 | The word count is at least 1, and it is one more than the number of maximal white-space runs. |
| ReadingTime.SplitKeepsWords | src/BlogReader/BlogRead.jsx:10 | The pieces put back together are the text with its white space removed, in order. |
| ReadingTime.CalculateReadingTime | src/BlogReader/BlogRead.jsx:7-12 | Absent or empty content reads in 0 minutes. Other content reads in the least number of minutes that covers its word count at 200 words per minute, which is at least 1. |
| TableOfContents.Collapse | src/BlogReader/BlogRead.jsx:70 | Replacing each run outside `[a-z0-9]` by one '-' gives only `[a-z0-9-]`, no two hyphens in a row, and an empty result only for empty input. |
| TableOfContents.CollapseReplacesRuns | src/BlogReader/BlogRead.jsx:70 | A word of `[a-z0-9]` is kept, and a maximal run outside `[a-z0-9]` after it becomes one '-' in its place; as every text is such words and runs in turn, this determines the replacement. |
| TableOfContents.SlugIsSlug | src/BlogReader/BlogRead.jsx:68-71 | Every slug holds only `[a-z0-9-]`, has no two hyphens in a row, and neither starts nor ends with '-'. |
| TableOfContents.SlugKeepsLettersAndDigits | src/BlogReader/BlogRead.jsx:68-71 | The letters and digits of the lowered text appear in the slug unchanged and in order. |
| TableOfContents.HeadingsMembers | src/BlogReader/BlogRead.jsx:59 | The headings found are exactly the heading nodes of the body. |
| TableOfContents.HeadingIdMeaning | src/BlogReader/BlogRead.jsx:73 | Every heading gets a non-empty id, and a heading that has its own id keeps it. |
| TableOfContents.EntryForMeaning | src/BlogReader/BlogRead.jsx:75-80 | An entry carries the heading's level, read back from its tag name, its trimmed text, its lower-case tag name and its id. |
| TableOfContents.ParseLevelOfTagName | src/BlogReader/BlogRead.jsx:65-78 | The level read back from a heading's lower-case tag name is its level 1 to 6. |
| TableOfContents.GeneratedIdsDistinct | src/BlogReader/BlogRead.jsx:73 | `heading-<slug>-<index>` ids at different indices differ, whatever the slugs, even equal or empty ones. |
| TableOfContents.GenerateTableOfContents | src/BlogReader/BlogRead.jsx:51-84 | The loop pushes exactly the entries of `TocFor`. An empty body gives an empty outline. |
| TableOfContents.TocEntriesMeaning | src/BlogReader/BlogRead.jsx:59-81 | The outline has one entry per heading, and entry i is built from heading i: it has its heading's level, trimmed text and tag name. Its id is the heading's own non-empty id, or else the generated id, whose slug is well formed. Id-less headings at different positions get different ids. |
| TableOfContents.FindEntry | src/BlogReader/BlogRead.jsx:99-103 | `toc.find` gives the first entry with the same text and tag name, or none when no entry matches. |
| TableOfContents.ProcessContentWithIds | src/BlogReader/BlogRead.jsx:87-111 | With an empty body or an empty outline the body is returned as it is. Otherwise it copies the body into an array, annotates it in place and returns exactly the node-by-node annotation. |
| TableOfContents.AnnotateHeadings | src/BlogReader/BlogRead.jsx:97-108 | The in-place loop over the parsed nodes leaves every node as its one-node annotation of the original, and changes nothing outside the array. |
| TableOfContents.AnnotateNodeMeaning | src/BlogReader/BlogRead.jsx:99-107 | Markup and headings that have an id are untouched, and level and text never change. An id-less heading gets the id of the first entry with its trimmed text and tag name, and stays id-less when no entry matches. |
| TableOfContents.DuplicateHeadingsShareId | src/BlogReader/BlogRead.jsx:99-106 | Two id-less headings with the same trimmed text and level receive the same id. |
| TableOfContents.SecondAnchorIsLost | src/BlogReader/BlogRead.jsx:99-106 | As written, take a body with the same id-less heading twice. Both headings get the first entry's id, and no heading carries the second entry's id. |
| TableOfContents.PositionalAnchorsResolve | src/BlogReader/BlogRead.jsx:62-107 | With annotation by position, heading m carries entry m's id for every m, so every outline anchor resolves to its own heading. |
| TableOfContents.HeadingsByPosition | src/BlogReader/BlogRead.jsx:97-107 | Annotation by position keeps the headings in order and gives the m-th heading the entry of its position. |
| SimilarBlogs.FetchSimilarBlogs | src/BlogReader/BlogRead.jsx:179-258 | The list is left alone exactly when there is no API key, no blog, or the category request throws. Otherwise it is set to `Similar`. The tag request is made exactly when fewer than five category matches were found and the blog has at least two tags. |
| SimilarBlogs.SimilarLength | src/BlogReader/BlogRead.jsx:252 | At most five blogs, and fewer only when there are no more candidates. |
| SimilarBlogs.SimilarOrder | src/BlogReader/BlogRead.jsx:206-252 | The result is a prefix of the category matches followed by the tag matches, each in pool order. |
| SimilarBlogs.SimilarMembers | src/BlogReader/BlogRead.jsx:206-241 | No shown blog has the current slug. Each one comes from the ok category pool, or from the ok tag pool as a tag match. |
| SimilarBlogs.CategoryMatches | src/BlogReader/BlogRead.jsx:206 | A blog is a category match exactly when it is in the category pool and its slug is not the route's slug. |
| SimilarBlogs.CommonTags | src/BlogReader/BlogRead.jsx:235-237 | A tag is common exactly when it tags both blogs. There are never more common tags than the candidate's tags. |
| SimilarBlogs.TagMatchMeaning | src/BlogReader/BlogRead.jsx:230-241 | A blog is a tag match exactly when it is not the current blog, not of its category, and has two tag positions whose tags tag the current blog. |
| SimilarBlogs.RepeatedTagCountsTwice | src/BlogReader/BlogRead.jsx:233-238 | A candidate tagged `t` twice matches a blog tagged `t` and `u`: common tags are counted with repetition. |
| SimilarBlogs.FailedRequests | src/BlogReader/BlogRead.jsx:202-248 | A not-ok category response leaves only tag matches. A failed tag request leaves the category matches, cut to five. |
| SimilarBlogs.SimilarDistinct | src/BlogReader/BlogRead.jsx:206-252 | Suppose neither pool repeats a blog and the category pool holds only the current category. Then no blog is shown twice. |
| Carousel.NextIndex | src/FeaturedBlogs/FeaturedBlogsCarousel.jsx:88-90 | The next index always names a slide. |
| Carousel.PrevIndex | src/FeaturedBlogs/FeaturedBlogsCarousel.jsx:92-94 | The previous index always names a slide. |
| Carousel.StepsInRange | src/FeaturedBlogs/FeaturedBlogsCarousel.jsx:88-94 | `(i+1) % n` and `(i-1+n) % n` always name a slide. |
| Carousel.StepsWrap | src/FeaturedBlogs/FeaturedBlogsCarousel.jsx:88-94 | Next goes one slide on and wraps from the last to the first. Previous goes one back and wraps from the first to the last. |
| Carousel.StepsInverse | src/FeaturedBlogs/FeaturedBlogsCarousel.jsx:88-94 | Previous after next, and next after previous, return to the same slide. |
| Carousel.SwipeOf | src/FeaturedBlogs/FeaturedBlogsCarousel.jsx:110-117 | A start-minus-end travel above 60 moves forward, below -60 moves back, and anything in between stays. |
| Carousel.SwipeMirror | src/FeaturedBlogs/FeaturedBlogsCarousel.jsx:110-117 | A travel and its mirror image go opposite ways or both stay. |
| Carousel.Carousel.constructor | src/FeaturedBlogs/FeaturedBlogsCarousel.jsx:26-31 | The initial state: no blogs, loading, slide 0, no interaction, both touch refs 0. |
| Carousel.Carousel.FetchFeatured | src/FeaturedBlogs/FeaturedBlogsCarousel.jsx:35-71 | Without a key nothing is fetched. An ok response replaces the slides with `data.blogs` or []. A failure keeps them. Loading ends in every case. |
| Carousel.Carousel.NextSlide | src/FeaturedBlogs/FeaturedBlogsCarousel.jsx:88-90 | The index becomes `NextIndex` and stays on a slide. Nothing else changes. |
| Carousel.Carousel.PrevSlide | src/FeaturedBlogs/FeaturedBlogsCarousel.jsx:92-94 | The index becomes `PrevIndex` and stays on a slide. Nothing else changes. |
| Carousel.Carousel.GoToSlide | src/FeaturedBlogs/FeaturedBlogsCarousel.jsx:96-98 | The index becomes exactly the dot's index, which is always a slide. |
| Carousel.Carousel.TouchStart | src/FeaturedBlogs/FeaturedBlogsCarousel.jsx:100-103 | Interaction begins and the start is recorded. The index and the end coordinate are kept. |
| Carousel.Carousel.TouchMove | src/FeaturedBlogs/FeaturedBlogsCarousel.jsx:105-107 | Only the end coordinate changes. |
| Carousel.Carousel.TouchEnd | src/FeaturedBlogs/FeaturedBlogsCarousel.jsx:109-119 | The index moves as `SwipeOf(start - end)` says, and interaction is over in every case. |
| Carousel.Carousel.MouseEnter | src/FeaturedBlogs/FeaturedBlogsCarousel.jsx:121-126 | Interaction begins and the index is kept. |
| Carousel.Carousel.MouseLeave | src/FeaturedBlogs/FeaturedBlogsCarousel.jsx:128-130 | Interaction ends and the index is kept. |
| Carousel.Carousel.AutoAdvance | src/FeaturedBlogs/FeaturedBlogsCarousel.jsx:74-86 | A timer tick moves to `NextIndex` only when nobody interacts and there are at least two slides. Otherwise it changes nothing. |
| Carousel.TapAfterLoadAdvances | src/FeaturedBlogs/FeaturedBlogsCarousel.jsx:100-113 | As written, a tap that does not move, right after three slides load, moves from slide 0 to slide 1. |
| Carousel.Carousel.TouchStartCorrected | src/FeaturedBlogs/FeaturedBlogsCarousel.jsx:100-103 | The corrected touch start also sets the end coordinate to the start. |
| Carousel.TapKeepsSlide | src/FeaturedBlogs/FeaturedBlogsCarousel.jsx:100-119 | With the corrected touch start, a tap never changes the slide. |
| Carousel.SwipeThereAndBack | src/FeaturedBlogs/FeaturedBlogsCarousel.jsx:105-119 | A swipe and the mirror swipe return to the slide shown before. |
| BlogsPage.AnyTagContainsIff | src/BlogsPage/Blogs.jsx:134-137 | `tags.some(...)` holds exactly when some lowered tag includes the query. |
| BlogsPage.MatchesIff | src/BlogsPage/Blogs.jsx:129-138 | The computed predicate holds exactly when the lowered query occurs in the lowered title, meta, category or some tag. |
| BlogsPage.FilteredBlogsMeaning | src/BlogsPage/Blogs.jsx:129-138 | The filtered list is an order-preserving subsequence of the blogs. A blog is in it exactly when it is in the list and the query hits it. |
| BlogsPage.EmptyQueryKeepsAll | src/BlogsPage/Blogs.jsx:129-138 | The empty query keeps every blog. |
| BlogsPage.QueryCaseInsensitive | src/BlogsPage/Blogs.jsx:131-136 | Lowering the query does not change the result. |
| BlogsPage.BlogsPage.constructor | src/BlogsPage/Blogs.jsx:13-25 | The initial state: loading, not loading more, no blogs, no error, empty query, default pagination {1, 1, 0, 10, false, false}. |
| BlogsPage.BlogsPage.View | src/BlogsPage/Blogs.jsx:140-294 | The loader exactly while loading. Otherwise the error's own text when there is an error. Otherwise the filtered blogs, with the load-more spinner exactly while a further page loads, the end message when there is no next page and something is shown, and the no-results message when nothing is. |
| BlogsPage.BlogsPage.LoadMoreRequest | src/BlogsPage/Blogs.jsx:90-114 | A request is made exactly when neither loading flag is set, the last card is in view and there is a next page. It asks for page `currentPage + 1`. |
| BlogsPage.BlogsPage.StartFetch | src/BlogsPage/Blogs.jsx:30-43 | Without a key nothing is requested and loading ends. Page 1 sets `loading` and any other page `loadingMore`. While a request is in flight no further page is asked for. |
| BlogsPage.BlogsPage.FinishFetch | src/BlogsPage/Blogs.jsx:56-86 | An ok page appends to the list or replaces it (absent blogs count as an empty page), takes its pagination or the default, and clears the error. A failure keeps list and pagination and sets the error. Both loading flags end false. |
| BlogsPage.BlogsPage.FetchBlogs | src/BlogsPage/Blogs.jsx:30-87 | The whole fetch. Without a key only `loading` changes, to false, since that branch returns before the `finally`. With a key both flags end false, and the list, pagination and error are as `FinishFetch` states. |
| BlogsPage.BlogsPage.Mount | src/BlogsPage/Blogs.jsx:116-119 | The first page is fetched only when there is an API key. It replaces the list and pagination and clears the error, or on failure keeps both and sets the error, and both flags end false. Without a key, both flags, the list, the pagination and the error stay as they were. |
| BlogsPage.BlogsPage.LoadMore | src/BlogsPage/Blogs.jsx:98-103 | When `LoadMoreRequest` asks for a page, that page is fetched and both flags end false. An ok page is appended, takes over the pagination and clears the error. A failure keeps the list and pagination and sets the error. Otherwise nothing changes. |
| BlogsPage.BlogsPage.SetSearchQuery | src/BlogsPage/Blogs.jsx:203-208 | Only the query changes. |
| BlogsPage.NoKeyKeepsLoader | src/BlogsPage/Blogs.jsx:116-119 | As written, a page mounted without an API key shows the loader. |
| BlogsPage.BlogsPage.MountCorrected | src/BlogsPage/Blogs.jsx:31-35 | The corrected mount always runs the fetch, so loading ends whether or not there is a key. With a key, the list, pagination and error are as in `Mount`. Without one, the list, pagination, error and `loadingMore` are kept. |
| BlogsPage.NoKeyShowsEmptyList | src/BlogsPage/Blogs.jsx:31-35 | With the corrected mount, a page without an API key shows an empty list with its no-results message. |
| MessageForm.NameErrorIff | src/MessageForm/MessageForm.jsx:27-29 | The name has no error exactly when it is not all white space. Its only error is "Name is required". |
| MessageForm.MessageErrorIff | src/MessageForm/MessageForm.jsx:37-41 | The message has no error exactly when it has at least 10 characters once trimmed. A blank message is "required" and any other failing one "too short". |
| MessageForm.EmailValidIff | src/MessageForm/MessageForm.jsx:33 | The computed email check accepts exactly the addresses `^[^\s@]+@[^\s@]+\.[^\s@]+$` matches, read as a split into three runs around '@' and '.'. |
| MessageForm.EmailErrorIff | src/MessageForm/MessageForm.jsx:31-35 | The email field has no error exactly when the pattern matches it. |
| MessageForm.SurroundingSpaceRejected | src/MessageForm/MessageForm.jsx:31-35 | An address with white space at either end never matches. It is reported invalid, or required when it is all white space. |
| MessageForm.BlankIsRequired | src/MessageForm/MessageForm.jsx:27-41 | A field of nothing but white space, however long, reports "required", never invalid or too short. |
| MessageForm.NoErrorIff | src/MessageForm/MessageForm.jsx:25-44 | No field has an error exactly when the name is not blank, the email matches the pattern and the trimmed message has at least 10 characters. |
| MessageForm.ErrorsEmptyIff | src/MessageForm/MessageForm.jsx:43-44 | An error map holding exactly the failing fields is empty exactly when the form is acceptable. |
| MessageForm.FormData.With | src/MessageForm/MessageForm.jsx:49-52 | Setting a field changes that field and no other. |
| MessageForm.AcceptedPayload | src/MessageForm/MessageForm.jsx:85-89 | An acceptable form posts the address exactly as typed, a non-empty name and a message of at least 10 characters. |
| MessageForm.FailureMessage | src/MessageForm/MessageForm.jsx:92-113 | What a failed post reports is never empty: "HTTP error! status: N", the error's own message, or "Failed to send message". |
| MessageForm.ContactForm.ShownError | src/MessageForm/MessageForm.jsx:147-149 | A field shows an error exactly when its entry is present and not "". |
| MessageForm.ContactForm.constructor | src/MessageForm/MessageForm.jsx:16-22 | The initial state: empty fields, no errors, not loading. |
| MessageForm.CollectErrorsMeaning | src/MessageForm/MessageForm.jsx:25-41 | The object of errors built field by field holds a field exactly when that field's check fails, with that check's message. |
| MessageForm.ContactForm.ValidateForm | src/MessageForm/MessageForm.jsx:24-45 | The errors become exactly those of the failing fields, with their messages. The result is true exactly when there are none, which is exactly when the form is acceptable. |
| MessageForm.ContactForm.HandleInputChange | src/MessageForm/MessageForm.jsx:47-61 | Only the named field takes the new value. Its shown error is blanked, and every other error stays. |
| MessageForm.ContactForm.BeginSubmit | src/MessageForm/MessageForm.jsx:63-90 | An unacceptable form sends nothing. An acceptable one without a key sends nothing and reports "Configuration error". Otherwise loading starts and the trimmed fields are posted. In every case the errors become exactly the failing fields with their messages. |
| MessageForm.ContactForm.FinishSubmit | src/MessageForm/MessageForm.jsx:92-116 | Delivery resets every field and clears the errors. A failure keeps the form and reports its message. Loading ends in both cases. |
| MessageForm.ContactForm.HandleSubmit | src/MessageForm/MessageForm.jsx:63-117 | The whole submit: the outcome is consulted only when something is posted, with the states above. Unless the message is delivered, the errors are exactly the failing fields with their messages. |
| Strings.TrimMeaning | src/MessageForm/MessageForm.jsx:27 | `trim` leaves nothing exactly for an all-white-space string, and otherwise leaves no white space at either end. |
| Strings.ToLower | src/BlogsPage/Blogs.jsx:131 | Lowering keeps the length and maps each character on its own, A-Z to a-z. |
| Strings.ContainsIff | src/BlogsPage/Blogs.jsx:131 | `includes` holds exactly when the needle occurs at some position of the string. |
| Strings.NatToString | src/BlogReader/BlogRead.jsx:73 | The decimal rendering of an index is non-empty and made of digits. |
| Strings.ParseNatToString | src/BlogReader/BlogRead.jsx:73 | Reading the rendering back gives the number, so different indices render differently. |

## Left out

- HTTP requests, headers, JSON decoding and endpoint constants. Each request's outcome is an input in `Common.Response`, `BlogsPage.PageResponse` and `MessageForm.SendOutcome`.
- Promise scheduling and React's batching of state updates. Each handler runs as one sequential step, and an asynchronous fetch is split into a start and a finish (`StartFetch`/`FinishFetch`, `BeginSubmit`/`FinishSubmit`).
- The HTML parser (`innerHTML`, `querySelectorAll`, `textContent`, serialising the body back). A body is a sequence of heading records and opaque markup.
- `String.prototype.toLowerCase` beyond ASCII letters, and UTF-16 lengths. JavaScript lowers every Unicode letter and counts UTF-16 code units; the model lowers A-Z only and counts characters.
- `formatDate` and `new Date`. They rely on the locale and date libraries. The relative time takes the difference in whole seconds as an integer.
- `formatNumber` and its K/M suffixes. It depends on floating-point `toFixed` rounding.
- `handleShare`, the TOC click handler's scroll fallback, the clipboard and `window.open`. These are browser APIs.
- `setInterval`, `clearInterval` and `IntersectionObserver`. Each timer tick and each time the last card comes into view is a method call.
- Touch and mouse coordinates are whole pixels, not floating-point `clientX` values.
- BlogsPage.BlogsPage.LoadMoreRequest: reads the current state, where the observer's callback reads the values of the render that created it.
- What the carousel draws: the skeleton while loading, "No featured blogs available." for an empty list, and the arrows and dots only for two or more slides. These conditions only select markup.
- The reader's `loadingSimilar` flag and the similar-articles skeleton. These only choose what is drawn while the requests run.
- `fetchBlogDetails`. It loads the blog and runs the table of contents and annotation modelled here.
- The loaders (src/Loaders/Loader.jsx, src/Loaders/GhostLoader.jsx) and the routing in src/BlogsPage/IradaBlogsPage.jsx. These are presentation and wiring.
- The re-exports in src/index.js and webpack.config.js. These are build configuration.
- A blog record whose `title`, `meta` or `category` is missing, which makes the search throw. The fields are strings here.
- The `onSuccess` and `onError` callbacks. What the form would pass them is returned as a `Notice`.
- The contact endpoint check `!apiEndpoint`. The endpoint is a non-empty constant in the source, so the check never fails.

## Findings

| source | as written | input that shows it | evidently intended | confidence | as-written member | corrected member |
|---|---|---|---|---|---|---|
| src/BlogReader/BlogRead.jsx:99-106 | `processContentWithIds` finds the TOC entry by text and tag name, so every id-less heading with the same text and level receives the first such entry's id. | A body with `<h2>Intro</h2>` twice: both headings get "heading-intro-0", and the second outline entry, "heading-intro-1", points at no element. | The m-th heading takes the m-th entry's id, since the outline is built by position. | not executed; medium, because the click handler's scroll fallback hides part of the effect | TableOfContents.SecondAnchorIsLost | TableOfContents.PositionalAnchorsResolve |
| src/FeaturedBlogs/FeaturedBlogsCarousel.jsx:100-113 | `handleTouchStart` does not reset `touchEndX`, so a tap without movement is judged against the previous touch's end, or the initial 0. | Three slides loaded, then a tap at x = 200 with no move: the difference is 200 > 60 and the carousel advances. | A touch that does not move leaves the slide alone. | not executed; high | Carousel.TapAfterLoadAdvances | Carousel.TapKeepsSlide |
| src/BlogsPage/Blogs.jsx:31-119 | The mount effect calls `fetchBlogs` only when there is an API key, so the fetch's own missing-key branch, which would end the loading, never runs on mount. | Mount the page without an API key: `loading` stays true and the loader is shown forever. | Without a key, loading ends; the carousel's fetch behaves this way. | not executed; medium | BlogsPage.NoKeyKeepsLoader | BlogsPage.NoKeyShowsEmptyList |

/** The "similar articles" list of the blog reader (`fetchSimilarBlogs` in
    src/BlogReader/BlogRead.jsx). Up to five blogs are shown: first the blogs
    of the current category other than the current one, then, when those are
    fewer than five and the current blog has at least two tags, blogs of other
    categories that share at least two tags with it.

    The two requests are not modelled; their outcomes are inputs. */
module SimilarBlogs {
  import opened Common
  import opened Seqs

  const MaxSimilar: nat := 5
  const MinCommonTags: nat := 2

  /** The blogs of the category pool other than the one being read. */
  function CategoryMatches(pool: seq<Blog>, slug: string): (r: seq<Blog>)
    ensures forall b :: b in r <==> b in pool && b.slug != slug
  {
    Filter(NotCurrent(slug), pool)
  }

  function NotCurrent(slug: string): Blog -> bool
  {
    (b: Blog) => b.slug != slug
  }

  /** `b.tags.filter(tag => blog.tags.includes(tag))`: the candidate's tags
      that also tag the current blog, one per occurrence in the candidate. */
  function CommonTags(tags: seq<string>, current: seq<string>): (r: seq<string>)
    ensures |r| <= |tags|
    ensures forall t :: t in r <==> t in tags && t in current
  {
    Filter(TagIn(current), tags)
  }

  function TagIn(current: seq<string>): string -> bool
  {
    (t: string) => t in current
  }

  /** The tag-pool condition: not the blog being read, not of its category,
      and at least two common tags. */
  predicate IsTagMatch(b: Blog, current: Blog, slug: string)
  {
    b.slug != slug && b.category != current.category && |CommonTags(b.tags, current.tags)| >= MinCommonTags
  }

  function TagMatches(pool: seq<Blog>, current: Blog, slug: string): seq<Blog>
  {
    Filter(TagMatchOf(current, slug), pool)
  }

  function TagMatchOf(current: Blog, slug: string): Blog -> bool
  {
    (b: Blog) => IsTagMatch(b, current, slug)
  }

  /** What the category request contributes: nothing unless it was ok. */
  function CategoryPart(r: Response, slug: string): seq<Blog>
  {
    if r.Ok? then CategoryMatches(PoolOf(r), slug) else []
  }

  /** What the tag request contributes once it is made: nothing unless it was
      ok, since its failures are caught on their own. */
  function TagPart(r: Response, current: Blog, slug: string): seq<Blog>
  {
    if r.Ok? then TagMatches(PoolOf(r), current, slug) else []
  }

  /** The tag pool is consulted when the category matches are fewer than five
      and the current blog has at least two tags. */
  predicate ConsultsTagPool(categoryPart: seq<Blog>, current: Blog)
  {
    |categoryPart| < MaxSimilar && |current.tags| >= MinCommonTags
  }

  /** The candidates in the order they are accumulated. */
  function Candidates(current: Blog, slug: string, categoryResponse: Response, tagResponse: Response): seq<Blog>
  {
    var cat := CategoryPart(categoryResponse, slug);
    if ConsultsTagPool(cat, current) then cat + TagPart(tagResponse, current, slug) else cat
  }

  /** `similarBlogs.slice(0, 5)`. */
  function Similar(current: Blog, slug: string, categoryResponse: Response, tagResponse: Response): seq<Blog>
  {
    var all := Candidates(current, slug, categoryResponse, tagResponse);
    all[..Min(MaxSimilar, |all|)]
  }

  /** `fetchSimilarBlogs`: `similar` is the list the state is set to, or
      `None` when the state is left alone (no API key, no blog, or the
      category request threw into the outer handler); `tagRequested` says
      whether the second request is made. */
  method FetchSimilarBlogs(apiKeyPresent: bool, blog: Option<Blog>, slug: string,
                           categoryResponse: Response, tagResponse: Response)
    returns (similar: Option<seq<Blog>>, tagRequested: bool)
    ensures similar.None? <==> !apiKeyPresent || blog.None? || categoryResponse.Threw?
    ensures similar.Some? ==> similar.value == Similar(blog.value, slug, categoryResponse, tagResponse)
    ensures tagRequested <==> similar.Some? && ConsultsTagPool(CategoryPart(categoryResponse, slug), blog.value)
  {
    if !apiKeyPresent || blog.None? {
      return None, false;
    }
    if categoryResponse.Threw? {
      return None, false;
    }
    var current := blog.value;
    var similarBlogs: seq<Blog> := [];
    if categoryResponse.Ok? {
      similarBlogs := CategoryMatches(PoolOf(categoryResponse), slug);
    }
    tagRequested := |similarBlogs| < MaxSimilar && |current.tags| >= MinCommonTags;
    if tagRequested && tagResponse.Ok? {
      similarBlogs := similarBlogs + TagMatches(PoolOf(tagResponse), current, slug);
    }
    similar := Some(similarBlogs[..Min(MaxSimilar, |similarBlogs|)]);
  }

  /** At most five blogs; fewer only when there are no more candidates. */
  lemma SimilarLength(current: Blog, slug: string, categoryResponse: Response, tagResponse: Response)
    ensures var r := Similar(current, slug, categoryResponse, tagResponse);
            var all := Candidates(current, slug, categoryResponse, tagResponse);
            |r| <= MaxSimilar && (|r| < MaxSimilar ==> r == all)
  {
  }

  /** Category matches come first, in pool order, then tag matches in pool
      order: the result is a prefix of the category matches followed by the
      tag matches. */
  lemma SimilarOrder(current: Blog, slug: string, categoryResponse: Response, tagResponse: Response)
    ensures var r := Similar(current, slug, categoryResponse, tagResponse);
            var cat := CategoryPart(categoryResponse, slug);
            var tags := if ConsultsTagPool(cat, current) then TagPart(tagResponse, current, slug) else [];
            r == (cat + tags)[..|r|]
            && (forall i :: 0 <= i < |r| && i < |cat| ==> r[i] == cat[i])
            && (forall i :: |cat| <= i < |r| ==> r[i] == tags[i - |cat|])
  {
    var cat := CategoryPart(categoryResponse, slug);
    if !ConsultsTagPool(cat, current) {
      assert cat + [] == cat;
    }
  }

  /** Every blog shown is a category match or a tag match, and none is the
      blog being read. */
  lemma SimilarMembers(current: Blog, slug: string, categoryResponse: Response, tagResponse: Response)
    ensures var r := Similar(current, slug, categoryResponse, tagResponse);
            forall i :: 0 <= i < |r| ==>
              && r[i].slug != slug
              && (|| (categoryResponse.Ok? && r[i] in PoolOf(categoryResponse))
                  || (tagResponse.Ok? && r[i] in PoolOf(tagResponse) && IsTagMatch(r[i], current, slug)))
  {
    var r := Similar(current, slug, categoryResponse, tagResponse);
    var cat := CategoryPart(categoryResponse, slug);
    var all := Candidates(current, slug, categoryResponse, tagResponse);
    forall i | 0 <= i < |r|
      ensures r[i].slug != slug
      ensures || (categoryResponse.Ok? && r[i] in PoolOf(categoryResponse))
              || (tagResponse.Ok? && r[i] in PoolOf(tagResponse) && IsTagMatch(r[i], current, slug))
    {
      assert r[i] == all[i];
      if i < |cat| {
        assert all[i] == cat[i];
      } else {
        var tags := TagPart(tagResponse, current, slug);
        assert all[i] == tags[i - |cat|];
      }
    }
  }

  /** A tag match is exactly a blog other than the one being read, of another
      category, with two tag positions, repetitions counted, whose tags also
      tag the current blog. */
  lemma TagMatchMeaning(b: Blog, current: Blog, slug: string)
    ensures IsTagMatch(b, current, slug) <==>
      && b.slug != slug && b.category != current.category
      && exists i, j :: 0 <= i < j < |b.tags| && b.tags[i] in current.tags && b.tags[j] in current.tags
  {
    if IsTagMatch(b, current, slug) {
      FilterTwo(TagIn(current.tags), b.tags);
    }
    if exists i, j :: 0 <= i < j < |b.tags| && b.tags[i] in current.tags && b.tags[j] in current.tags {
      var i, j :| 0 <= i < j < |b.tags| && b.tags[i] in current.tags && b.tags[j] in current.tags;
      assert TagIn(current.tags)(b.tags[i]) && TagIn(current.tags)(b.tags[j]);
      TwoFilter(TagIn(current.tags), b.tags, i, j);
    }
  }

  /** Repeated tags count once per occurrence: a candidate tagged `t` twice
      matches a blog tagged `t` and `u`, although only one tag is shared. */
  lemma RepeatedTagCountsTwice(t: string, u: string, slug: string, catA: string, catB: string, s1: string, s2: string)
    requires catA != catB && s1 != slug
    ensures IsTagMatch(Blog("", s1, "", "", catB, [t, t]), Blog("", s2, "", "", catA, [t, u]), slug)
  {
    assert CommonTags([t, t], [t, u]) == [t, t];
  }

  /** When the category request fails the list is made of tag matches only;
      when the tag request fails the category matches are kept, cut to five. */
  lemma FailedRequests(current: Blog, slug: string, categoryResponse: Response, tagResponse: Response)
    ensures categoryResponse.NotOk? ==>
      Similar(current, slug, categoryResponse, tagResponse)
        == (if |current.tags| >= MinCommonTags then TagPart(tagResponse, current, slug) else [])
           [..Min(MaxSimilar, |if |current.tags| >= MinCommonTags then TagPart(tagResponse, current, slug) else []|)]
    ensures !tagResponse.Ok? ==>
      var cat := CategoryPart(categoryResponse, slug);
      Similar(current, slug, categoryResponse, tagResponse) == cat[..Min(MaxSimilar, |cat|)]
  {
    if categoryResponse.NotOk? {
      assert [] + TagPart(tagResponse, current, slug) == TagPart(tagResponse, current, slug);
    }
    if !tagResponse.Ok? {
      assert CategoryPart(categoryResponse, slug) + [] == CategoryPart(categoryResponse, slug);
    }
  }

  /** No blog appears twice, provided neither pool repeats a blog and the
      category pool holds only blogs of the current category (which the
      category request asks for): tag matches are of other categories. */
  lemma SimilarDistinct(current: Blog, slug: string, categoryResponse: Response, tagResponse: Response)
    requires categoryResponse.Ok? ==> Distinct(PoolOf(categoryResponse))
    requires categoryResponse.Ok? ==> forall i :: 0 <= i < |PoolOf(categoryResponse)| ==> PoolOf(categoryResponse)[i].category == current.category
    requires tagResponse.Ok? ==> Distinct(PoolOf(tagResponse))
    ensures Distinct(Similar(current, slug, categoryResponse, tagResponse))
  {
    var cat := CategoryPart(categoryResponse, slug);
    var tags := if ConsultsTagPool(cat, current) then TagPart(tagResponse, current, slug) else [];
    if categoryResponse.Ok? {
      FilterDistinct(NotCurrent(slug), PoolOf(categoryResponse));
      CategoryMatchesOfCategory(PoolOf(categoryResponse), slug, current.category);
    }
    if tagResponse.Ok? {
      FilterDistinct(TagMatchOf(current, slug), PoolOf(tagResponse));
    }
    assert forall j :: 0 <= j < |tags| ==> tags[j].category != current.category;
    DistinctConcat(cat, tags);
    var all := Candidates(current, slug, categoryResponse, tagResponse);
    assert all == cat + tags;
    DistinctPrefix(all, Min(MaxSimilar, |all|));
  }

  lemma CategoryMatchesOfCategory(pool: seq<Blog>, slug: string, category: string)
    requires forall i :: 0 <= i < |pool| ==> pool[i].category == category
    ensures forall i :: 0 <= i < |CategoryMatches(pool, slug)| ==> CategoryMatches(pool, slug)[i].category == category
  {
    var cat := CategoryMatches(pool, slug);
    forall i | 0 <= i < |cat| ensures cat[i].category == category {
      var k :| 0 <= k < |pool| && pool[k] == cat[i];
    }
  }
}

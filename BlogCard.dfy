/** The display rules of one blog card: title and summary truncation, the link
    target, the relative publication time and the tag row. */
module BlogCard {
  import opened Common
  import opened Strings

  /** `truncate(str, n)`. An absent or empty string gives "". A string longer
      than `n` keeps its first `n - 1` characters (none when `n < 1`, as
      `substr` clamps a negative length to 0) followed by "...", so for
      `n >= 1` the result is two characters longer than `n`. */
  function Truncate(str: Option<string>, n: int): (r: string)
    ensures str == None || str == Some("") ==> r == ""
    ensures str.Some? && str.value != "" && |str.value| <= n ==> r == str.value
    ensures str.Some? && str.value != "" && |str.value| > n ==>
      && |r| == (if n >= 1 then n + 2 else 3)
      && r[..|r| - 3] == str.value[..|r| - 3]
      && r[|r| - 3..] == "..."
  {
    match str
    case None => ""
    case Some(s) =>
      if s == "" then ""
      else if |s| > n then s[..if n - 1 < 0 then 0 else n - 1] + "..."
      else s
  }

  /** Truncation never shortens a string to less than what it keeps of it:
      the result is either the string itself or a proper prefix of it
      followed by "...". */
  lemma TruncateKeepsPrefix(s: string, n: int)
    requires s != ""
    ensures Truncate(Some(s), n) == s
         || exists k :: 0 <= k < |s| && Truncate(Some(s), n) == s[..k] + "..."
  {
    if |s| > n {
      var k := if n - 1 < 0 then 0 else n - 1;
      assert Truncate(Some(s), n) == s[..k] + "...";
    }
  }

  function EndsWith(s: string, suffix: string): bool
  {
    |suffix| <= |s| && s[|s| - |suffix|..] == suffix
  }

  /** `getBlogPath`: under a page whose path ends in "/blogs" the card links
      below that page; anywhere else it links to "/blog/<slug>". */
  function GetBlogPath(currentPath: string, slug: string): (r: string)
    ensures EndsWith(r, "/blog/" + slug)
    ensures EndsWith(currentPath, "/blogs") ==>
      |r| == |currentPath| + 6 + |slug| && r[..|currentPath|] == currentPath
    ensures !EndsWith(currentPath, "/blogs") ==> r == "/blog/" + slug
  {
    if EndsWith(currentPath, "/blogs") then currentPath + "/blog/" + slug
    else "/blog/" + slug
  }

  /** The units `formatRelativeTime` counts in. */
  datatype TimeUnit = Minutes | Hours | Days | Months | Years

  /** A relative time before it is rendered. */
  datatype Relative = JustNow | Ago(count: nat, unit: TimeUnit)

  /** Seconds in one unit (a month is 30 days, a year 365 days). */
  function UnitSeconds(u: TimeUnit): nat
  {
    match u
    case Minutes => 60
    case Hours => 3600
    case Days => 86400
    case Months => 2592000
    case Years => 31536000
  }

  function Rank(u: TimeUnit): nat
  {
    match u
    case Minutes => 0
    case Hours => 1
    case Days => 2
    case Months => 3
    case Years => 4
  }

  /** The bucket `formatRelativeTime` puts a difference of `diff` seconds in:
      the first threshold the difference is below selects the unit, and the
      count is the difference in that unit, rounded down. */
  function Bucket(diff: int): (r: Relative)
    ensures r == JustNow <==> diff < 60
    ensures r.Ago? ==>
      && r.count >= 1
      && r.count * UnitSeconds(r.unit) <= diff < (r.count + 1) * UnitSeconds(r.unit)
      && UnitSeconds(r.unit) <= diff
      && forall u :: Rank(u) == Rank(r.unit) + 1 ==> diff < UnitSeconds(u)
  {
    if diff < 60 then JustNow
    else if diff < 3600 then Ago(diff / 60, Minutes)
    else if diff < 86400 then Ago(diff / 3600, Hours)
    else if diff < 2592000 then Ago(diff / 86400, Days)
    else if diff < 31536000 then Ago(diff / 2592000, Months)
    else Ago(diff / 31536000, Years)
  }

  /** A later time never lands in an earlier unit, and within one unit never
      shows a smaller count. */
  lemma BucketMonotone(d1: int, d2: int)
    requires d1 <= d2
    ensures Bucket(d1).Ago? ==> Bucket(d2).Ago?
    ensures Bucket(d1).Ago? ==> Rank(Bucket(d1).unit) <= Rank(Bucket(d2).unit)
    ensures Bucket(d1).Ago? && Bucket(d1).unit == Bucket(d2).unit ==> Bucket(d1).count <= Bucket(d2).count
  {
  }

  function UnitSuffix(u: TimeUnit): string
  {
    match u
    case Minutes => "m ago"
    case Hours => "h ago"
    case Days => "d ago"
    case Months => "mo ago"
    case Years => "y ago"
  }

  function Render(r: Relative): string
  {
    match r
    case JustNow => "Just now"
    case Ago(k, u) => NatToString(k) + UnitSuffix(u)
  }

  /** `formatRelativeTime` on a difference of `diff` whole seconds between now
      and the card's date. Only a difference under a minute, negative ones
      included, reads "Just now"; every other one is a count followed by its
      unit. */
  function FormatRelativeTime(diff: int): (r: string)
    ensures r == "Just now" <==> diff < 60
    ensures diff >= 60 ==> r == NatToString(Bucket(diff).count) + UnitSuffix(Bucket(diff).unit)
  {
    var b := Bucket(diff);
    assert b.Ago? ==> Render(b)[0] != 'J' by {
      if b.Ago? {
        RenderAgoStartsWithDigit(b);
      }
    }
    Render(b)
  }

  /** The rendered relative time determines its bucket. */
  lemma {:induction false} RenderInjective(a: Relative, b: Relative)
    requires Render(a) == Render(b)
    ensures a == b
  {
    if a.Ago? { RenderAgoStartsWithDigit(a); }
    if b.Ago? { RenderAgoStartsWithDigit(b); }
    if a.Ago? && b.Ago? {
      var sa, sb := NatToString(a.count), NatToString(b.count);
      var ta, tb := UnitSuffix(a.unit), UnitSuffix(b.unit);
      // The suffix starts at the first character that is not a digit.
      FirstNonDigit(sa, ta);
      FirstNonDigit(sb, tb);
      assert |sa| == |sb|;
      assert sa == Render(a)[..|sa|] && sb == Render(b)[..|sb|];
      assert ta == Render(a)[|sa|..] && tb == Render(b)[|sb|..];
      NatToStringInjectiveContra(a.count, b.count);
      assert a.unit == b.unit;
    }
  }

  lemma RenderAgoStartsWithDigit(r: Relative)
    requires r.Ago?
    ensures Render(r) != [] && IsDigit(Render(r)[0])
  {
    assert Render(r)[0] == NatToString(r.count)[0];
  }

  /** A string of digits followed by a suffix with a non-digit first
      character: the number of leading digits is the length of the digits. */
  lemma FirstNonDigit(digits: string, suffix: string)
    requires forall i :: 0 <= i < |digits| ==> IsDigit(digits[i])
    requires suffix != [] && !IsDigit(suffix[0])
    ensures LeadingDigits(digits + suffix) == |digits|
  {
    var s := digits + suffix;
    assert s[|digits|] == suffix[0];
    LeadingDigitsIs(s, |digits|);
  }

  function LeadingDigits(s: string): nat
    ensures LeadingDigits(s) <= |s|
  {
    if s != [] && IsDigit(s[0]) then 1 + LeadingDigits(s[1..]) else 0
  }

  lemma {:induction false} LeadingDigitsIs(s: string, k: nat)
    requires k < |s| && !IsDigit(s[k])
    requires forall i :: 0 <= i < k ==> IsDigit(s[i])
    ensures LeadingDigits(s) == k
  {
    if k > 0 {
      LeadingDigitsIs(s[1..], k - 1);
    }
  }

  lemma NatToStringInjectiveContra(a: nat, b: nat)
    requires NatToString(a) == NatToString(b)
    ensures a == b
  {
    if a != b {
      NatToStringInjective(a, b);
    }
  }

  /** What the card's tag row shows: nothing for a blog without tags;
      otherwise the first three tags and, when there are more, a "+k" badge. */
  datatype TagRow = NoTags | Tags(visible: seq<string>, more: Option<nat>)

  function ShownTags(tags: seq<string>): (r: TagRow)
    ensures r.NoTags? <==> tags == []
    ensures r.Tags? ==>
      && |r.visible| == (if |tags| < 3 then |tags| else 3)
      && r.visible == tags[..|r.visible|]
      && (r.more.Some? <==> |tags| > 3)
      && (r.more.Some? ==> |r.visible| + r.more.value == |tags|)
  {
    if tags == [] then NoTags
    else Tags(tags[..if |tags| < 3 then |tags| else 3],
              if |tags| > 3 then Some(|tags| - 3) else None)
  }

  /** The row accounts for every tag exactly once: the visible tags followed
      by the ones the badge counts are the blog's tags. */
  lemma ShownTagsCover(tags: seq<string>)
    requires ShownTags(tags).Tags?
    ensures var r := ShownTags(tags);
            r.visible + tags[|r.visible|..] == tags
            && |tags[|r.visible|..]| == (if r.more.Some? then r.more.value else 0)
  {
    var r := ShownTags(tags);
    assert tags[..|r.visible|] + tags[|r.visible|..] == tags;
  }
}

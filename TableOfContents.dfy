/** The table of contents of a blog body (src/BlogReader/BlogRead.jsx):
    `generateTableOfContents` turns the body's h1-h6 headings into outline
    entries with anchor ids, and `processContentWithIds` writes those ids
    onto the headings that have none.

    The HTML parser is not modelled: a body is the sequence of its nodes in
    document order, where a heading node carries its level, its text content
    and its `id` attribute ("" when it has none, as the DOM reports it), and
    every other piece of markup is opaque. An absent or empty body is the
    empty sequence. */
module TableOfContents {
  import opened Common
  import opened Strings
  import opened Seqs

  type Level = l: int | 1 <= l <= 6 witness 1

  datatype Heading = Heading(level: Level, text: string, id: string)

  datatype Node = Markup(html: string) | HeadingNode(heading: Heading)

  type Document = seq<Node>

  /** One outline entry: anchor id, trimmed text, numeric level and the
      lower-case tag name. */
  datatype TocEntry = TocEntry(id: string, text: string, level: int, tagName: string)

  /** The headings of a body in document order: `querySelectorAll("h1, h2, h3, h4, h5, h6")`. */
  function Headings(doc: Document): (hs: seq<Heading>)
    ensures |hs| <= |doc|
  {
    if doc == [] then []
    else (if doc[0].HeadingNode? then [doc[0].heading] else []) + Headings(doc[1..])
  }

  /** The headings found are exactly the heading nodes of the body. */
  lemma {:induction false} HeadingsMembers(doc: Document)
    ensures forall h :: h in Headings(doc) <==> HeadingNode(h) in doc
  {
    if doc != [] {
      HeadingsMembers(doc[1..]);
      assert doc == [doc[0]] + doc[1..];
      forall h ensures h in Headings(doc) <==> HeadingNode(h) in doc {
        assert HeadingNode(h) in doc <==> doc[0] == HeadingNode(h) || HeadingNode(h) in doc[1..];
      }
    }
  }

  /** `heading.tagName.toLowerCase()`. */
  function TagName(level: Level): string
  {
    ['h', DigitChar(level)]
  }

  /** `parseInt(tagName.charAt(1))`. */
  function ParseLevel(tagName: string): int
    requires |tagName| >= 2 && IsDigit(tagName[1])
  {
    DigitValue(tagName[1])
  }

  /** The level read back from a heading's tag name is the heading's level. */
  lemma ParseLevelOfTagName(level: Level)
    ensures ParseLevel(TagName(level)) == level
  {
  }

  // ---------------------------------------------------------------- slugs

  predicate IsSlugChar(c: char)
  {
    'a' <= c <= 'z' || '0' <= c <= '9'
  }

  /** `.replace(/[^a-z0-9]+/g, "-")`: every maximal run of characters outside
      `[a-z0-9]` becomes one hyphen. Scanning left to right, a character
      outside the class is dropped while the run goes on and becomes the
      hyphen where the run ends. */
  function Collapse(s: string): (r: string)
    ensures SlugAlphabet(r) && NoDoubleHyphen(r)
    ensures r == [] <==> s == []
    ensures s != [] && IsSlugChar(s[0]) ==> r[0] == s[0]
  {
    if s == [] then []
    else if IsSlugChar(s[0]) then [s[0]] + Collapse(s[1..])
    else if |s| > 1 && !IsSlugChar(s[1]) then Collapse(s[1..])
    else ['-'] + Collapse(s[1..])
  }

  /** `Collapse` replaces runs as the regular expression does: a word of
      `[a-z0-9]` stays as it is, and a maximal run outside `[a-z0-9]` that
      follows it becomes one hyphen in its place. As every string is such
      words and runs in turn, this determines `Collapse`. */
  lemma CollapseReplacesRuns(w: string, n: string, rest: string)
    requires forall i :: 0 <= i < |w| ==> IsSlugChar(w[i])
    requires n != [] && forall i :: 0 <= i < |n| ==> !IsSlugChar(n[i])
    requires rest == [] || IsSlugChar(rest[0])
    ensures Collapse(w) == w
    ensures Collapse(w + n + rest) == w + ['-'] + Collapse(rest)
  {
    CollapseKeepsWord(w, []);
    AppendEmpty(w);
    var x := n + rest;
    AppendAssoc(w, n, rest);
    CollapseKeepsWord(w, x);
    CollapseRun(n, rest);
    AppendAssoc(w, ['-'], Collapse(rest));
  }

  lemma {:induction false} CollapseKeepsWord(w: string, x: string)
    requires forall i :: 0 <= i < |w| ==> IsSlugChar(w[i])
    ensures Collapse(w + x) == w + Collapse(x)
  {
    if w != [] {
      CollapseKeepsWord(w[1..], x);
      var s := w + x;
      assert s[0] == w[0] && s[1..] == w[1..] + x;
      CollapseSlugHead(s);
      assert Collapse(s) == [w[0]] + (w[1..] + Collapse(x));
      ConsAssoc(w[0], w[1..], Collapse(x));
      assert w == [w[0]] + w[1..];
    } else {
      assert w + x == x;
    }
  }

  lemma CollapseSlugHead(s: string)
    requires s != [] && IsSlugChar(s[0])
    ensures Collapse(s) == [s[0]] + Collapse(s[1..])
  {
  }

  lemma ConsAssoc(c: char, a: string, b: string)
    ensures [c] + a + b == [c] + (a + b)
  {
  }

  lemma {:induction false} CollapseRun(n: string, rest: string)
    requires n != [] && forall i :: 0 <= i < |n| ==> !IsSlugChar(n[i])
    requires rest == [] || IsSlugChar(rest[0])
    ensures Collapse(n + rest) == ['-'] + Collapse(rest)
  {
    var s := n + rest;
    assert s[1..] == n[1..] + rest;
    if |n| > 1 {
      assert s[1] == n[1];
      CollapseRun(n[1..], rest);
    }
  }

  /** `.replace(/(^-|-$)/g, "")`: one leading and one trailing hyphen go
      (after `Collapse` there is never a second one). */
  function StripHyphens(c: string): string
  {
    DropTrailingHyphen(DropLeadingHyphen(c))
  }

  function DropLeadingHyphen(c: string): string
  {
    if c != [] && c[0] == '-' then c[1..] else c
  }

  function DropTrailingHyphen(c: string): string
  {
    if c != [] && c[|c| - 1] == '-' then c[..|c| - 1] else c
  }

  /** The slug of a heading's trimmed text. */
  function Slug(text: string): string
  {
    StripHyphens(Collapse(ToLower(text)))
  }

  /** Only `[a-z0-9-]`, no two hyphens in a row, and no hyphen at either end. */
  ghost predicate IsSlug(s: string)
  {
    SlugAlphabet(s) && NoDoubleHyphen(s) && (s != [] ==> s[0] != '-' && s[|s| - 1] != '-')
  }

  ghost predicate SlugAlphabet(s: string)
  {
    forall i :: 0 <= i < |s| ==> IsSlugChar(s[i]) || s[i] == '-'
  }

  ghost predicate NoDoubleHyphen(s: string)
  {
    forall i, j :: 0 <= i < |s| && j == i + 1 < |s| ==> !(s[i] == '-' && s[j] == '-')
  }

  /** Every slug is well formed. */
  lemma SlugIsSlug(text: string)
    ensures IsSlug(Slug(text))
  {
    var c := Collapse(ToLower(text));
    var a := DropLeadingHyphen(c);
    assert SlugAlphabet(a) && NoDoubleHyphen(a) by {
      if c != [] && c[0] == '-' {
        assert forall i :: 0 <= i < |a| ==> a[i] == c[i + 1];
      }
    }
    assert a != [] ==> a[0] != '-' by {
      if a != [] && c[0] == '-' {
        assert a[0] == c[1];
      }
    }
    var r := DropTrailingHyphen(a);
    assert forall i :: 0 <= i < |r| ==> r[i] == a[i];
  }

  /** The letters and digits of the lower-cased text survive into the slug
      unchanged and in order: only the separators are rewritten. */
  lemma SlugKeepsLettersAndDigits(text: string)
    ensures Filter(IsSlugChar, Slug(text)) == Filter(IsSlugChar, ToLower(text))
  {
    var c := Collapse(ToLower(text));
    CollapseKeepsSlugChars(ToLower(text));
    DropLeadingKeepsSlugChars(c);
    DropTrailingKeepsSlugChars(DropLeadingHyphen(c));
  }

  lemma DropLeadingKeepsSlugChars(c: string)
    ensures Filter(IsSlugChar, DropLeadingHyphen(c)) == Filter(IsSlugChar, c)
  {
  }

  lemma DropTrailingKeepsSlugChars(c: string)
    ensures Filter(IsSlugChar, DropTrailingHyphen(c)) == Filter(IsSlugChar, c)
  {
    if c != [] && c[|c| - 1] == '-' {
      assert c == c[..|c| - 1] + ['-'];
      FilterAppend(IsSlugChar, c[..|c| - 1], ['-']);
    }
  }

  lemma {:induction false} CollapseKeepsSlugChars(s: string)
    ensures Filter(IsSlugChar, Collapse(s)) == Filter(IsSlugChar, s)
  {
    if s != [] {
      CollapseKeepsSlugChars(s[1..]);
      if IsSlugChar(s[0]) {
        assert ([s[0]] + Collapse(s[1..]))[1..] == Collapse(s[1..]);
      } else if |s| == 1 || IsSlugChar(s[1]) {
        FilterAppend(IsSlugChar, ['-'], Collapse(s[1..]));
      }
    }
  }

  // ------------------------------------------------------------------ ids

  /** The id a heading gets in the outline: its own non-empty id, otherwise
      `heading-<slug>-<index>` with its 0-based position among the headings. */
  function HeadingId(h: Heading, index: nat): string
  {
    if h.id != "" then h.id else GeneratedId(Slug(Trim(h.text)), index)
  }

  /** Every heading gets a non-empty id, and a heading's own id is kept. */
  lemma HeadingIdMeaning(h: Heading, index: nat)
    ensures HeadingId(h, index) != ""
    ensures h.id != "" ==> HeadingId(h, index) == h.id
  {
    if h.id == "" {
      assert GeneratedId(Slug(Trim(h.text)), index)[0] == 'h';
    }
  }

  function GeneratedId(slug: string, index: nat): string
  {
    "heading-" + slug + "-" + NatToString(index)
  }

  /** Generated ids at different positions differ, whatever the slugs: the
      digits after the last hyphen are the position. */
  lemma GeneratedIdsDistinct(slug1: string, i: nat, slug2: string, j: nat)
    requires i != j
    ensures GeneratedId(slug1, i) != GeneratedId(slug2, j)
  {
    if GeneratedId(slug1, i) == GeneratedId(slug2, j) {
      DigitsAfterHyphen("heading-" + slug1 + "-", NatToString(i), "heading-" + slug2 + "-", NatToString(j));
      NatToStringInjective(i, j);
    }
  }

  /** Two strings that end in a hyphen followed by digits: if they are equal,
      so are their digit parts. */
  lemma DigitsAfterHyphen(a: string, d1: string, b: string, d2: string)
    requires a != [] && a[|a| - 1] == '-' && b != [] && b[|b| - 1] == '-'
    requires forall k :: 0 <= k < |d1| ==> IsDigit(d1[k])
    requires forall k :: 0 <= k < |d2| ==> IsDigit(d2[k])
    requires a + d1 == b + d2
    ensures d1 == d2
  {
    TrailingDigitsOf(a, d1);
    TrailingDigitsOf(b, d2);
    var x := a + d1;
    assert d1 == x[|a|..] && d2 == x[|b|..];
  }

  /** The number of digits at the end of `s`. */
  function TrailingDigits(s: string): (n: nat)
    ensures n <= |s|
  {
    if s != [] && IsDigit(s[|s| - 1]) then 1 + TrailingDigits(s[..|s| - 1]) else 0
  }

  lemma {:induction false} TrailingDigitsOf(a: string, d: string)
    requires a != [] && a[|a| - 1] == '-'
    requires forall k :: 0 <= k < |d| ==> IsDigit(d[k])
    ensures TrailingDigits(a + d) == |d|
  {
    if d == [] {
      assert a + d == a;
    } else {
      assert (a + d)[..|a + d| - 1] == a + d[..|d| - 1];
      TrailingDigitsOf(a, d[..|d| - 1]);
    }
  }

  /** The outline entry of the heading at position `index`. */
  function EntryFor(h: Heading, index: nat): TocEntry
  {
    var tag := TagName(h.level);
    TocEntry(HeadingId(h, index), Trim(h.text), ParseLevel(tag), tag)
  }

  /** An entry carries its heading's level, read back from the tag name, its
      trimmed text, its tag name and its id. */
  lemma EntryForMeaning(h: Heading, index: nat)
    ensures var e := EntryFor(h, index);
      && e.level == h.level && e.text == Trim(h.text) && e.tagName == TagName(h.level)
      && e.id == HeadingId(h, index)
  {
    ParseLevelOfTagName(h.level);
  }

  /** The outline of a body: one entry per heading, in document order. */
  function TocFor(content: Document): (toc: seq<TocEntry>)
    ensures |toc| == |Headings(content)|
    ensures forall i :: 0 <= i < |toc| ==> toc[i] == EntryFor(Headings(content)[i], i)
  {
    var hs := Headings(content);
    seq(|hs|, i requires 0 <= i < |hs| => EntryFor(hs[i], i))
  }

  /** `generateTableOfContents(content)`: an empty body gives an empty
      outline; otherwise each heading in turn is pushed as its entry. */
  method GenerateTableOfContents(content: Document) returns (toc: seq<TocEntry>)
    ensures |toc| == |Headings(content)|
    ensures forall i :: 0 <= i < |toc| ==> toc[i] == EntryFor(Headings(content)[i], i)
    ensures content == [] ==> toc == []
  {
    if content == [] {
      return [];
    }
    var headings := Headings(content);
    toc := [];
    var index := 0;
    while index < |headings|
      invariant 0 <= index <= |headings|
      invariant |toc| == index
      invariant forall i :: 0 <= i < index ==> toc[i] == EntryFor(headings[i], i)
    {
      toc := toc + [EntryFor(headings[index], index)];
      index := index + 1;
    }
  }

  /** What an outline entry says about its heading: level read from the tag
      name, trimmed text, and an id that is the heading's own one when it has
      one, and otherwise a generated one that no other id-less heading of the
      body shares. */
  lemma TocEntriesMeaning(content: Document, i: nat, j: nat)
    requires i < |Headings(content)| && j < |Headings(content)|
    ensures |TocFor(content)| == |Headings(content)|
    ensures var h, e := Headings(content)[i], TocFor(content)[i];
            && e.level == h.level && e.text == Trim(h.text) && e.tagName == TagName(h.level)
            && (h.id != "" ==> e.id == h.id)
            && (h.id == "" ==> e.id == GeneratedId(Slug(Trim(h.text)), i) && IsSlug(Slug(Trim(h.text))))
    ensures i != j && Headings(content)[i].id == "" && Headings(content)[j].id == "" ==>
            TocFor(content)[i].id != TocFor(content)[j].id
  {
    SlugIsSlug(Trim(Headings(content)[i].text));
    if i != j {
      GeneratedIdsDistinct(Slug(Trim(Headings(content)[i].text)), i, Slug(Trim(Headings(content)[j].text)), j);
    }
  }

  // ----------------------------------------------------------- annotation

  predicate EntryMatches(e: TocEntry, text: string, tagName: string)
  {
    e.text == text && e.tagName == tagName
  }

  /** `toc.find(...)`: the position of the first entry with the given text and tag name. */
  function FindEntry(toc: seq<TocEntry>, text: string, tagName: string): (r: Option<nat>)
    ensures r.Some? ==> r.value < |toc| && EntryMatches(toc[r.value], text, tagName)
    ensures r.Some? ==> forall k :: 0 <= k < r.value ==> !EntryMatches(toc[k], text, tagName)
    ensures r.None? ==> forall k :: 0 <= k < |toc| ==> !EntryMatches(toc[k], text, tagName)
  {
    if toc == [] then None
    else if EntryMatches(toc[0], text, tagName) then Some(0)
    else match FindEntry(toc[1..], text, tagName)
      case None => None
      case Some(k) => Some(k + 1)
  }

  /** One node after `processContentWithIds`: a heading without an id takes
      the id of the first entry with its trimmed text and tag name; every
      other node is left alone. */
  function AnnotateNode(n: Node, toc: seq<TocEntry>): Node
  {
    match n
    case Markup(_) => n
    case HeadingNode(h) =>
      if h.id != "" then n
      else match FindEntry(toc, Trim(h.text), TagName(h.level))
        case None => n
        case Some(k) => HeadingNode(h.(id := toc[k].id))
  }

  function AnnotateAll(content: Document, toc: seq<TocEntry>): (r: Document)
    ensures |r| == |content|
    ensures forall i :: 0 <= i < |r| ==> r[i] == AnnotateNode(content[i], toc)
  {
    seq(|content|, i requires 0 <= i < |content| => AnnotateNode(content[i], toc))
  }

  /** `processContentWithIds(content, toc)`: an empty body or an empty
      outline leaves the body as it is; otherwise the headings of a copy of
      the body are visited in order and updated in place. */
  method ProcessContentWithIds(content: Document, toc: seq<TocEntry>) returns (processed: Document)
    ensures content == [] || toc == [] ==> processed == content
    ensures |processed| == |content|
    ensures forall i :: 0 <= i < |content| ==> processed[i] == AnnotateNode(content[i], toc)
  {
    if content == [] || toc == [] {
      return content;
    }
    var nodes := new Node[|content|](i requires 0 <= i < |content| => content[i]);
    AnnotateHeadings(nodes, toc);
    processed := nodes[..];
  }

  /** The `forEach` over the parsed body's headings: each heading node
      without an id is given its entry's id in place. */
  method AnnotateHeadings(nodes: array<Node>, toc: seq<TocEntry>)
    modifies nodes
    ensures forall i :: 0 <= i < nodes.Length ==> nodes[i] == AnnotateNode(old(nodes[i]), toc)
  {
    var index := 0;
    while index < nodes.Length
      invariant 0 <= index <= nodes.Length
      invariant forall i :: 0 <= i < index ==> nodes[i] == AnnotateNode(old(nodes[i]), toc)
      invariant forall i :: index <= i < nodes.Length ==> nodes[i] == old(nodes[i])
    {
      if nodes[index].HeadingNode? {
        var heading := nodes[index].heading;
        var item := FindEntry(toc, Trim(heading.text), TagName(heading.level));
        if item.Some? && heading.id == "" {
          nodes[index] := HeadingNode(heading.(id := toc[item.value].id));
        }
      }
      index := index + 1;
    }
  }

  /** What annotation does to each node: markup and headings that have an id
      are untouched, and a heading without one gets the id of the first
      matching entry, or keeps having none when no entry matches. */
  lemma AnnotateNodeMeaning(n: Node, toc: seq<TocEntry>)
    ensures n.Markup? ==> AnnotateNode(n, toc) == n
    ensures n.HeadingNode? && n.heading.id != "" ==> AnnotateNode(n, toc) == n
    ensures n.HeadingNode? ==>
      && AnnotateNode(n, toc).HeadingNode?
      && AnnotateNode(n, toc).heading.level == n.heading.level
      && AnnotateNode(n, toc).heading.text == n.heading.text
    ensures n.HeadingNode? && n.heading.id == "" ==>
      var h := n.heading;
      var id := AnnotateNode(n, toc).heading.id;
      (id == "" && forall k :: 0 <= k < |toc| ==> !EntryMatches(toc[k], Trim(h.text), TagName(h.level)))
      || (exists k :: 0 <= k < |toc| && id == toc[k].id && EntryMatches(toc[k], Trim(h.text), TagName(h.level))
           && forall m :: 0 <= m < k ==> !EntryMatches(toc[m], Trim(h.text), TagName(h.level)))
  {
    if n.HeadingNode? && n.heading.id == "" {
      var h := n.heading;
      var f := FindEntry(toc, Trim(h.text), TagName(h.level));
      if f.Some? {
        var k := f.value;
        assert AnnotateNode(n, toc).heading.id == toc[k].id;
      }
    }
  }

  /** Two id-less headings with the same trimmed text and level receive the
      same id from annotation. */
  lemma DuplicateHeadingsShareId(n1: Node, n2: Node, toc: seq<TocEntry>)
    requires n1.HeadingNode? && n2.HeadingNode?
    requires n1.heading.id == "" && n2.heading.id == ""
    requires n1.heading.level == n2.heading.level && Trim(n1.heading.text) == Trim(n2.heading.text)
    ensures AnnotateNode(n1, toc).heading.id == AnnotateNode(n2, toc).heading.id
  {
  }

  // ------------------------------ the anchor mismatch, and its correction

  /** A body in which the same id-less heading occurs twice, with other
      markup between. */
  function Twice(h: Heading, between: string): Document
  {
    [HeadingNode(h), Markup(between), HeadingNode(h)]
  }

  lemma HeadingsOfTwice(h: Heading, between: string)
    ensures Headings(Twice(h, between)) == [h, h]
  {
    var doc := Twice(h, between);
    assert doc[1..][1..] == [doc[2]];
    assert Headings([doc[2]]) == [h];
  }

  /** As written, annotating a body with two id-less headings of the same
      text and level gives both the first entry's id, so the second entry's
      anchor is on no heading of the annotated body. */
  lemma SecondAnchorIsLost(h: Heading, between: string)
    requires h.id == ""
    ensures var toc := TocFor(Twice(h, between));
            var out := AnnotateAll(Twice(h, between), toc);
            var slug := Slug(Trim(h.text));
            && |toc| == 2
            && toc[0].id == GeneratedId(slug, 0) && toc[1].id == GeneratedId(slug, 1)
            && out[0].heading.id == toc[0].id && out[2].heading.id == toc[0].id
            && forall k :: 0 <= k < |out| && out[k].HeadingNode? ==> out[k].heading.id != toc[1].id
  {
    HeadingsOfTwice(h, between);
    var toc := TocFor(Twice(h, between));
    assert EntryMatches(toc[0], Trim(h.text), TagName(h.level));
    GeneratedIdsDistinct(Slug(Trim(h.text)), 0, Slug(Trim(h.text)), 1);
  }

  /** The intended annotation: the heading at position k among the headings
      takes entry k's id when it has none, as the outline was built by
      position. */
  function AnnotateByPosition(content: Document, toc: seq<TocEntry>, k: nat): (r: Document)
    ensures |r| == |content|
  {
    if content == [] then []
    else
      match content[0]
      case Markup(_) => [content[0]] + AnnotateByPosition(content[1..], toc, k)
      case HeadingNode(h) =>
        [HeadingNode(PositionalHeading(h, toc, k))] + AnnotateByPosition(content[1..], toc, k + 1)
  }

  function PositionalHeading(h: Heading, toc: seq<TocEntry>, k: nat): Heading
  {
    if h.id == "" && k < |toc| then h.(id := toc[k].id) else h
  }

  lemma {:induction false} HeadingsByPosition(content: Document, toc: seq<TocEntry>, k: nat)
    ensures |Headings(AnnotateByPosition(content, toc, k))| == |Headings(content)|
    ensures forall m :: 0 <= m < |Headings(content)| ==>
      Headings(AnnotateByPosition(content, toc, k))[m] == PositionalHeading(Headings(content)[m], toc, k + m)
  {
    if content != [] {
      var n := content[0];
      var next := if n.HeadingNode? then k + 1 else k;
      var rest := AnnotateByPosition(content[1..], toc, next);
      HeadingsByPosition(content[1..], toc, next);
      var out0 := if n.HeadingNode? then HeadingNode(PositionalHeading(n.heading, toc, k)) else n;
      assert AnnotateByPosition(content, toc, k) == [out0] + rest;
      HeadingsCons(out0, rest);
      assert content == [n] + content[1..];
      HeadingsCons(n, content[1..]);
      if n.HeadingNode? {
        ShiftPositional(out0.heading, n.heading, Headings(rest), Headings(content[1..]), toc, k);
      }
    }
  }

  lemma HeadingsCons(n: Node, rest: Document)
    ensures Headings([n] + rest) == (if n.HeadingNode? then [n.heading] else []) + Headings(rest)
  {
    assert ([n] + rest)[1..] == rest;
  }

  lemma ShiftPositional(x: Heading, y: Heading, xs: seq<Heading>, ys: seq<Heading>, toc: seq<TocEntry>, k: nat)
    requires x == PositionalHeading(y, toc, k)
    requires |xs| == |ys| && forall m :: 0 <= m < |ys| ==> xs[m] == PositionalHeading(ys[m], toc, k + 1 + m)
    ensures forall m :: 0 <= m < |ys| + 1 ==> ([x] + xs)[m] == PositionalHeading(([y] + ys)[m], toc, k + m)
  {
    forall m | 0 <= m < |ys| + 1 ensures ([x] + xs)[m] == PositionalHeading(([y] + ys)[m], toc, k + m) {
      if m > 0 {
        assert ([x] + xs)[m] == xs[m - 1] && ([y] + ys)[m] == ys[m - 1];
      }
    }
  }

  /** With positional annotation every outline entry's anchor is the id of
      its own heading: following entry m lands on heading m. */
  lemma PositionalAnchorsResolve(content: Document)
    ensures var toc := TocFor(content);
            var hs := Headings(AnnotateByPosition(content, toc, 0));
            && |hs| == |toc|
            && forall m :: 0 <= m < |toc| ==> hs[m].id == toc[m].id
  {
    OwnIdsAgree(Headings(content), TocFor(content));
    AnchorsResolveFor(content, TocFor(content));
  }

  /** The same for any outline with one entry per heading that carries each
      heading's own id, if it has one. */
  lemma AnchorsResolveFor(content: Document, toc: seq<TocEntry>)
    requires |toc| == |Headings(content)|
    requires forall m :: 0 <= m < |toc| ==> Headings(content)[m].id == "" || Headings(content)[m].id == toc[m].id
    ensures var hs := Headings(AnnotateByPosition(content, toc, 0));
            && |hs| == |toc|
            && forall m :: 0 <= m < |toc| ==> hs[m].id == toc[m].id
  {
    HeadingsByPosition(content, toc, 0);
    AnchorsFromPositions(Headings(AnnotateByPosition(content, toc, 0)), Headings(content), toc);
  }

  /** An outline built by position carries each heading's own id, if any. */
  lemma OwnIdsAgree(original: seq<Heading>, toc: seq<TocEntry>)
    requires |toc| == |original|
    requires forall i :: 0 <= i < |toc| ==> toc[i] == EntryFor(original[i], i)
    ensures forall m :: 0 <= m < |toc| ==> original[m].id == "" || original[m].id == toc[m].id
  {
  }

  lemma AnchorsFromPositions(hs: seq<Heading>, original: seq<Heading>, toc: seq<TocEntry>)
    requires |hs| == |original| == |toc|
    requires forall m :: 0 <= m < |original| ==> hs[m] == PositionalHeading(original[m], toc, m)
    requires forall m :: 0 <= m < |toc| ==> original[m].id == "" || original[m].id == toc[m].id
    ensures forall m :: 0 <= m < |toc| ==> hs[m].id == toc[m].id
  {
  }

}

/** `calculateReadingTime` (src/BlogReader/BlogRead.jsx): the body's tags
    are removed with `/<[^>]*>/g`, the rest is split with `/\s+/`, and the
    number of pieces is divided by 200 words per minute, rounding up. */
module ReadingTime {
  import opened Common
  import opened Strings
  import opened Seqs

  const WordsPerMinute: nat := 200

  /** No '<' is followed, anywhere later, by a '>': the string holds no tag
      that `/<[^>]*>/` could match. */
  ghost predicate NoTag(s: string)
  {
    forall i, j :: 0 <= i < j < |s| && s[i] == '<' ==> s[j] != '>'
  }

  /** `s.replace(/<[^>]*>/g, "")`. Scanning from the left, a '<' that has a
      '>' somewhere after it starts a match that ends at the first such '>'
      (the class `[^>]` admits '<', so a nested '<' is swallowed); a '<'
      with no '>' after it is kept. */
  function StripTags(s: string): (r: string)
    ensures NoTag(r)
    ensures forall k :: 0 <= k < |r| ==> r[k] in s
    decreases |s|
  {
    if s == [] then []
    else if s[0] == '<' && FirstIndexOf(s[1..], '>') < |s| - 1 then
      var rest := s[FirstIndexOf(s[1..], '>') + 2..];
      assert forall k :: 0 <= k < |rest| ==> rest[k] in s by {
        forall k | 0 <= k < |rest| ensures rest[k] in s {
          assert rest[k] == s[FirstIndexOf(s[1..], '>') + 2 + k];
        }
      }
      StripTags(rest)
    else
      var tail := StripTags(s[1..]);
      assert forall k :: 0 <= k < |tail| ==> tail[k] in s by {
        forall k | 0 <= k < |tail| ensures tail[k] in s {
          var m :| 0 <= m < |s[1..]| && s[1..][m] == tail[k];
          assert s[m + 1] == tail[k];
        }
      }
      assert s[0] == '<' ==> forall k :: 0 <= k < |tail| ==> tail[k] != '>' by {
        if s[0] == '<' {
          forall k | 0 <= k < |tail| ensures tail[k] != '>' {
            assert tail[k] in s[1..];
          }
        }
      }
      [s[0]] + tail
  }

  /** Text without tags passes through unchanged; so stripping twice is
      stripping once. */
  lemma {:induction false} StripTagsNoTag(s: string)
    requires NoTag(s)
    ensures StripTags(s) == s
    decreases |s|
  {
    if s != [] {
      if s[0] == '<' {
        forall j | 0 <= j < |s[1..]| ensures s[1..][j] != '>' {
          assert s[1..][j] == s[j + 1];
        }
        NotFound(s[1..], '>');
      }
      assert NoTag(s[1..]) by {
        forall i, j | 0 <= i < j < |s[1..]| && s[1..][i] == '<' ensures s[1..][j] != '>' {
          assert s[1..][i] == s[i + 1] && s[1..][j] == s[j + 1];
        }
      }
      StripTagsNoTag(s[1..]);
    }
  }

  lemma {:induction false} NotFound(s: string, c: char)
    requires forall j :: 0 <= j < |s| ==> s[j] != c
    ensures FirstIndexOf(s, c) == |s|
  {
    if s != [] {
      NotFound(s[1..], c);
    }
  }

  /** A tag is removed whole and only the tag: stripping text that has no '<'
      before a '<'-to-'>' stretch keeps that text, drops the stretch and goes
      on with what follows. */
  lemma StripTagsRemovesTag(a: string, t: string, b: string)
    requires forall k :: 0 <= k < |a| ==> a[k] != '<'
    requires forall k :: 0 <= k < |t| ==> t[k] != '>'
    ensures StripTags(a + ['<'] + t + ['>'] + b) == a + StripTags(b)
  {
    var tagged := ['<'] + t + ['>'] + b;
    assert a + ['<'] + t + ['>'] + b == a + tagged;
    StripTagsKeepsPrefix(a, tagged);
    StripTagsTagFirst(t, b);
  }

  /** Text with no '<' in front of the rest is kept as it is. */
  lemma {:induction false} StripTagsKeepsPrefix(a: string, rest: string)
    requires forall k :: 0 <= k < |a| ==> a[k] != '<'
    ensures StripTags(a + rest) == a + StripTags(rest)
    decreases |a|
  {
    if a == [] {
      assert a + rest == rest;
    } else {
      assert a + rest == [a[0]] + (a[1..] + rest);
      StripTagsKeeps(a[0], a[1..] + rest);
      StripTagsKeepsPrefix(a[1..], rest);
      Regroup([a[0]], a[1..], StripTags(rest), a[1..] + StripTags(rest));
      assert a == [a[0]] + a[1..];
    }
  }

  /** A leading tag is dropped. */
  lemma StripTagsTagFirst(t: string, b: string)
    requires forall k :: 0 <= k < |t| ==> t[k] != '>'
    ensures StripTags(['<'] + t + ['>'] + b) == StripTags(b)
  {
    var s := ['<'] + t + ['>'] + b;
    var u := s[1..];
    assert u == t + ['>'] + b;
    assert u[|t|] == '>';
    assert forall m :: 0 <= m < |t| ==> u[m] == t[m];
    assert FirstIndexOf(u, '>') == |t|;
    assert s[|t| + 2..] == b;
  }

  /** A leading character other than '<' is kept. */
  lemma StripTagsKeeps(c: char, u: string)
    requires c != '<'
    ensures StripTags([c] + u) == [c] + StripTags(u)
  {
    assert ([c] + u)[1..] == u;
  }

  lemma StripTagsIdempotent(s: string)
    ensures StripTags(StripTags(s)) == StripTags(s)
  {
    StripTagsNoTag(StripTags(s));
  }

  predicate NoSpace(s: string)
  {
    forall i :: 0 <= i < |s| ==> IsWordChar(s[i])
  }

  /** The first white-space position of `s`, or `|s|` when there is none. */
  function FirstSpace(s: string): (k: nat)
    ensures k <= |s|
    ensures k < |s| ==> IsSpace(s[k])
    ensures NoSpace(s[..k])
  {
    if s == [] || IsSpace(s[0]) then 0
    else
      var k := 1 + FirstSpace(s[1..]);
      assert s[..k] == [s[0]] + s[1..][..k - 1];
      k
  }

  /** `s.split(/\s+/)`: the pieces between maximal runs of white space. A
      leading or trailing run gives an empty first or last piece, and the
      empty string is one empty piece. */
  function Split(s: string): (r: seq<string>)
    ensures |r| >= 1
    ensures forall k :: 0 <= k < |r| ==> NoSpace(r[k])
    decreases |s|
  {
    var i := FirstSpace(s);
    if i == |s| then
      assert s[..i] == s;
      [s]
    else
      var rest := TrimStart(s[i..]);
      TrimStartDrops(s[i..]);
      [s[..i]] + Split(rest)
  }

  lemma TrimStartDrops(t: string)
    requires t != [] && IsSpace(t[0])
    ensures |TrimStart(t)| < |t|
  {
  }

  /** The white-space runs that separate the pieces of `Split(s)`, in order. */
  function Separators(s: string): seq<string>
    decreases |s|
  {
    var i := FirstSpace(s);
    if i == |s| then []
    else
      TrimStartDrops(s[i..]);
      [LeadingRun(s[i..])] + Separators(TrimStart(s[i..]))
  }

  /** The white space `TrimStart` drops from `t`. */
  function LeadingRun(t: string): (run: string)
    ensures AllSpace(run)
    ensures t == run + TrimStart(t)
  {
    var k := |t| - |TrimStart(t)|;
    TrimStartSuffix(t);
    Cut(t, k);
    t[..k]
  }

  lemma Cut(t: string, k: nat)
    requires k <= |t|
    ensures t == t[..k] + t[k..]
  {
  }

  /** The pieces joined back with the separators between them. */
  function Join(pieces: seq<string>, seps: seq<string>): string
    requires |pieces| == |seps| + 1
    decreases |seps|
  {
    if seps == [] then pieces[0] else pieces[0] + seps[0] + Join(pieces[1..], seps[1..])
  }

  /** There is one separator fewer than pieces, and the pieces joined back
      with their separators are `s`. With `SeparatorsAreRuns` and
      `SplitInnerNonEmpty` this makes `Split` a cutting at maximal
      white-space runs (`SplitIsCutting`), and `SplitUnique` shows there is
      no other. */
  lemma {:induction false} SplitJoin(s: string)
    ensures |Split(s)| == |Separators(s)| + 1
    ensures Join(Split(s), Separators(s)) == s
    decreases |s|
  {
    if FirstSpace(s) == |s| {
      SplitNoSpace(s);
    } else {
      var p, sep, rest := SplitStep(s);
      SplitJoin(rest);
      JoinCons(p, Split(rest), sep, Separators(rest));
    }
  }

  lemma SplitNoSpace(s: string)
    requires FirstSpace(s) == |s|
    ensures Split(s) == [s] && Separators(s) == []
  {
    assert s[..|s|] == s;
  }

  /** The first piece, the first separator and the rest of a string that
      holds white space. */
  lemma SplitStep(s: string) returns (p: string, sep: string, rest: string)
    requires FirstSpace(s) < |s|
    ensures |rest| < |s|
    ensures Split(s) == [p] + Split(rest)
    ensures Separators(s) == [sep] + Separators(rest)
    ensures s == p + sep + rest
    ensures sep != [] && AllSpace(sep)
    ensures NoSpace(p) && (rest == [] || !IsSpace(rest[0]))
  {
    var i := FirstSpace(s);
    var t := s[i..];
    p, sep, rest := s[..i], LeadingRun(t), TrimStart(t);
    TrimStartDrops(t);
    SplitUnfold(s);
    Cut(s, i);
    Regroup(p, sep, rest, t);
    NonEmptyRun(t, sep, rest);
  }

  /** Every piece of `Split(s)` other than the first and the last is
      non-empty: a run of white space is never cut in two. */
  lemma {:induction false} SplitInnerNonEmpty(s: string)
    ensures forall k :: 0 < k < |Split(s)| - 1 ==> Split(s)[k] != []
    decreases |s|
  {
    if FirstSpace(s) < |s| {
      var p, sep, rest := SplitStep(s);
      SplitInnerNonEmpty(rest);
      if rest != [] {
        SplitFirstPiece(rest);
      } else {
        SplitNoSpace(rest);
      }
      InnerCons(p, Split(rest));
    }
  }

  lemma InnerCons(p: string, ps: seq<string>)
    requires |ps| > 1 ==> ps[0] != []
    requires forall k :: 0 < k < |ps| - 1 ==> ps[k] != []
    ensures forall k :: 0 < k < |[p] + ps| - 1 ==> ([p] + ps)[k] != []
  {
    forall k | 0 < k < |[p] + ps| - 1 ensures ([p] + ps)[k] != [] {
      assert ([p] + ps)[k] == ps[k - 1];
    }
  }

  /** A string that starts with a word character has a non-empty first piece. */
  lemma SplitFirstPiece(s: string)
    requires s != [] && !IsSpace(s[0])
    ensures Split(s)[0] != []
  {
    if FirstSpace(s) == |s| {
      SplitNoSpace(s);
    } else {
      SplitUnfold(s);
    }
  }

  /** A cutting of `s` at maximal white-space runs: pieces without white
      space, non-empty except perhaps the first and the last, separated by
      non-empty runs of white space, that join back to `s`. */
  ghost predicate IsCutting(s: string, pieces: seq<string>, seps: seq<string>)
  {
    && |pieces| == |seps| + 1
    && Join(pieces, seps) == s
    && (forall k :: 0 <= k < |pieces| ==> NoSpace(pieces[k]))
    && (forall k :: 0 < k < |pieces| - 1 ==> pieces[k] != [])
    && (forall k :: 0 <= k < |seps| ==> seps[k] != [] && AllSpace(seps[k]))
  }

  /** `Split` and `Separators` cut `s` at its maximal white-space runs. */
  lemma SplitIsCutting(s: string)
    ensures IsCutting(s, Split(s), Separators(s))
  {
    SplitJoin(s);
    SeparatorsAreRuns(s);
    SplitInnerNonEmpty(s);
  }

  /** There is only one cutting at maximal white-space runs, so it is the one
      `Split` gives, and the word count is its number of pieces. */
  lemma {:induction false} SplitUnique(s: string, pieces: seq<string>, seps: seq<string>)
    requires IsCutting(s, pieces, seps)
    ensures pieces == Split(s) && seps == Separators(s)
    decreases |seps|
  {
    if seps == [] {
      CuttingOne(s, pieces, seps);
    } else {
      var r := CuttingTail(s, pieces, seps);
      var p, sep, rest := SplitStep(s);
      CutUnique(pieces[0], seps[0], r, p, sep, rest);
      SplitUnique(rest, pieces[1..], seps[1..]);
      ConsSplit(pieces);
      ConsSplit(seps);
    }
  }

  lemma ConsSplit(xs: seq<string>)
    requires xs != []
    ensures xs == [xs[0]] + xs[1..]
  {
  }

  /** A cutting without separators is the one piece `Split` gives. */
  lemma CuttingOne(s: string, pieces: seq<string>, seps: seq<string>)
    requires IsCutting(s, pieces, seps) && seps == []
    ensures pieces == Split(s) && seps == Separators(s)
  {
    assert s == pieces[0];
    assert FirstSpace(s) == |s|;
    SplitNoSpace(s);
  }

  /** The first piece, the first separator and the rest of a cutting: the
      rest is a cutting of its own that does not start with white space,
      and the string holds white space right after the first piece. */
  lemma CuttingTail(s: string, pieces: seq<string>, seps: seq<string>) returns (r: string)
    requires IsCutting(s, pieces, seps) && seps != []
    ensures s == pieces[0] + seps[0] + r
    ensures NoSpace(pieces[0]) && seps[0] != [] && AllSpace(seps[0])
    ensures r == [] || !IsSpace(r[0])
    ensures IsCutting(r, pieces[1..], seps[1..])
    ensures FirstSpace(s) < |s|
  {
    r := Join(pieces[1..], seps[1..]);
    var ps, ss := pieces[1..], seps[1..];
    forall k | 0 <= k < |ps| ensures NoSpace(ps[k]) {
      assert ps[k] == pieces[k + 1];
    }
    forall k | 0 < k < |ps| - 1 ensures ps[k] != [] {
      assert ps[k] == pieces[k + 1];
    }
    forall k | 0 <= k < |ss| ensures ss[k] != [] && AllSpace(ss[k]) {
      assert ss[k] == seps[k + 1];
    }
    if ss != [] {
      assert ps[0] == pieces[1];
    }
    CuttingStart(r, ps, ss);
    Assoc(pieces[0], seps[0], r);
    AtIndex(pieces[0], seps[0] + r, |pieces[0]|);
    AtIndex(seps[0], r, 0);
    FirstSpaceBound(s, |pieces[0]|);
  }

  /** The first white-space position is at or before any position that holds
      white space. */
  lemma {:induction false} FirstSpaceBound(s: string, i: nat)
    requires i < |s| && IsSpace(s[i])
    ensures FirstSpace(s) <= i
  {
    if !IsSpace(s[0]) {
      FirstSpaceBound(s[1..], i - 1);
    }
  }

  /** A cutting whose first piece is empty only when it is the only piece
      starts with a word character, or is empty. */
  lemma CuttingStart(r: string, pieces: seq<string>, seps: seq<string>)
    requires IsCutting(r, pieces, seps)
    requires seps != [] ==> pieces[0] != []
    ensures r == [] || !IsSpace(r[0])
  {
    if seps == [] {
      assert r == pieces[0];
    } else {
      assert r == pieces[0] + seps[0] + Join(pieces[1..], seps[1..]);
      assert r[0] == pieces[0][0];
    }
  }

  /** A word, a non-empty white-space run and a rest that does not start
      with white space are determined by the string they make up. */
  lemma CutUnique(p1: string, s1: string, r1: string, p2: string, s2: string, r2: string)
    requires p1 + s1 + r1 == p2 + s2 + r2
    requires NoSpace(p1) && NoSpace(p2)
    requires s1 != [] && AllSpace(s1) && s2 != [] && AllSpace(s2)
    requires (r1 == [] || !IsSpace(r1[0])) && (r2 == [] || !IsSpace(r2[0]))
    ensures p1 == p2 && s1 == s2 && r1 == r2
  {
    var a1, a2 := s1 + r1, s2 + r2;
    Assoc(p1, s1, r1);
    Assoc(p2, s2, r2);
    assert a1[0] == s1[0] && a2[0] == s2[0];
    WordLength(p1, a1, p2, a2);
    assert p1 == (p1 + a1)[..|p1|] && p2 == (p2 + a2)[..|p2|];
    assert a1 == (p1 + a1)[|p1|..] && a2 == (p2 + a2)[|p2|..];
    RunLength(s1, r1, s2, r2);
    assert s1 == a1[..|s1|] && s2 == a2[..|s2|];
    assert r1 == a1[|s1|..] && r2 == a2[|s2|..];
  }

  lemma WordLength(p1: string, a1: string, p2: string, a2: string)
    requires p1 + a1 == p2 + a2 && NoSpace(p1) && NoSpace(p2)
    requires a1 != [] && IsSpace(a1[0]) && a2 != [] && IsSpace(a2[0])
    ensures |p1| == |p2|
  {
    if |p1| < |p2| {
      AtIndex(p1, a1, |p1|);
      AtIndex(p2, a2, |p1|);
      assert false;
    } else if |p2| < |p1| {
      AtIndex(p2, a2, |p2|);
      AtIndex(p1, a1, |p2|);
      assert false;
    }
  }

  lemma RunLength(s1: string, r1: string, s2: string, r2: string)
    requires s1 + r1 == s2 + r2 && AllSpace(s1) && AllSpace(s2)
    requires (r1 == [] || !IsSpace(r1[0])) && (r2 == [] || !IsSpace(r2[0]))
    ensures |s1| == |s2|
  {
    if |s1| < |s2| {
      AtIndex(s1, r1, |s1|);
      AtIndex(s2, r2, |s1|);
      assert false;
    } else if |s2| < |s1| {
      AtIndex(s2, r2, |s2|);
      AtIndex(s1, r1, |s2|);
      assert false;
    }
  }

  lemma Assoc(a: string, b: string, c: string)
    ensures a + b + c == a + (b + c)
  {
  }

  /** The character at position `i` of `a + b`. */
  lemma AtIndex(a: string, b: string, i: int)
    ensures 0 <= i < |a| ==> (a + b)[i] == a[i]
    ensures |a| <= i < |a| + |b| ==> (a + b)[i] == b[i - |a|]
  {
  }

  lemma NonEmptyRun(t: string, sep: string, rest: string)
    requires t == sep + rest && |rest| < |t|
    ensures sep != []
  {
  }

  lemma {:induction false} SeparatorsAreRuns(s: string)
    ensures forall k :: 0 <= k < |Separators(s)| ==> Separators(s)[k] != [] && AllSpace(Separators(s)[k])
    decreases |s|
  {
    if FirstSpace(s) == |s| {
      SplitNoSpace(s);
    } else {
      var p, sep, rest := SplitStep(s);
      SeparatorsAreRuns(rest);
      AllRunsCons(sep, Separators(rest));
    }
  }

  lemma AllRunsCons(sep: string, seps: seq<string>)
    requires sep != [] && AllSpace(sep)
    requires forall k :: 0 <= k < |seps| ==> seps[k] != [] && AllSpace(seps[k])
    ensures forall k :: 0 <= k < |[sep] + seps| ==> ([sep] + seps)[k] != [] && AllSpace(([sep] + seps)[k])
  {
    forall k | 0 <= k < |[sep] + seps| ensures ([sep] + seps)[k] != [] && AllSpace(([sep] + seps)[k]) {
      if k > 0 { assert ([sep] + seps)[k] == seps[k - 1]; }
    }
  }

  lemma Regroup(p: string, a: string, b: string, t: string)
    requires t == a + b
    ensures p + a + b == p + t
  {
  }

  lemma JoinCons(p: string, ps: seq<string>, sep: string, seps: seq<string>)
    requires |ps| == |seps| + 1
    ensures Join([p] + ps, [sep] + seps) == p + sep + Join(ps, seps)
  {
    assert ([p] + ps)[1..] == ps;
    assert ([sep] + seps)[1..] == seps;
  }

  /** The pieces joined back without separators. */
  function Concat(pieces: seq<string>): string
  {
    if pieces == [] then [] else pieces[0] + Concat(pieces[1..])
  }

  /** Splitting loses no character other than white space and keeps the
      order: the pieces put together are the string with its white space
      removed. */
  lemma {:induction false} SplitKeepsWords(s: string)
    ensures Concat(Split(s)) == Filter(IsWordChar, s)
    decreases |s|
  {
    var i := FirstSpace(s);
    if i == |s| {
      SplitOneWord(s);
    } else {
      var t := s[i..];
      assert s == s[..i] + t;
      var rest := TrimStart(t);
      TrimStartDrops(t);
      SplitKeepsWords(rest);
      SplitUnfold(s);
      ConcatCons(s[..i], Split(rest));
      assert Concat(Split(s)) == s[..i] + Filter(IsWordChar, rest);
      FilterAll(IsWordChar, s[..i]);
      DropLeadingSpace(t);
      FilterAppend(IsWordChar, s[..i], t);
    }
  }

  /** Filtering out white space ignores the leading white space `TrimStart` drops. */
  lemma DropLeadingSpace(t: string)
    ensures Filter(IsWordChar, t) == Filter(IsWordChar, TrimStart(t))
  {
    var run := LeadingRun(t);
    FilterNone(run);
    FilterAppend(IsWordChar, run, TrimStart(t));
  }

  lemma SplitUnfold(s: string)
    requires FirstSpace(s) < |s|
    ensures Split(s) == [s[..FirstSpace(s)]] + Split(TrimStart(s[FirstSpace(s)..]))
  {
  }

  lemma ConcatCons(a: string, r: seq<string>)
    ensures Concat([a] + r) == a + Concat(r)
  {
    assert ([a] + r)[1..] == r;
  }

  lemma SplitOneWord(s: string)
    requires FirstSpace(s) == |s|
    ensures Concat(Split(s)) == Filter(IsWordChar, s)
  {
    assert s[..|s|] == s;
    FilterAll(IsWordChar, s);
    assert Split(s) == [s];
    assert Concat([s]) == s + Concat([]);
  }

  lemma {:induction false} FilterNone(s: string)
    requires AllSpace(s)
    ensures Filter(IsWordChar, s) == []
  {
    if s != [] {
      FilterNone(s[1..]);
    }
  }

  predicate IsWordChar(c: char)
  {
    !IsSpace(c)
  }

  /** The word count `calculateReadingTime` divides: the number of pieces,
      one more than the number of white-space runs. */
  function WordCount(text: string): (n: nat)
    ensures n >= 1
    ensures n == |Separators(text)| + 1
  {
    SplitJoin(text);
    |Split(text)|
  }

  /** `calculateReadingTime(content)`: absent or empty content reads in 0
      minutes; any other content reads in the least whole number of minutes
      that covers its word count at 200 words per minute, which is at least
      one minute because the split always has at least one piece. */
  function CalculateReadingTime(content: Option<string>): (minutes: nat)
    ensures content == None || content == Some("") ==> minutes == 0
    ensures content.Some? && content.value != "" ==>
      var words := WordCount(StripTags(content.value));
      && minutes >= 1
      && (minutes - 1) * WordsPerMinute < words <= minutes * WordsPerMinute
  {
    match content
    case None => 0
    case Some(c) =>
      if c == "" then 0
      else (WordCount(StripTags(c)) + WordsPerMinute - 1) / WordsPerMinute
  }
}

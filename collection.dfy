/** The in-memory poem store: an ordered sequence of poems with append,
    first-match delete and update, search, and the report selections. */
module Collection {
  import opened Wrappers
  import opened Text
  import opened Poems

  // ---------------------------------------------------------------------
  // Order-preserving selection

  /** `a` is obtained from `b` by dropping elements, without reordering. */
  ghost predicate IsSubsequence(a: seq<Poem>, b: seq<Poem>)
    decreases |b|
  {
    a == [] ||
    (b != [] && ((a[0] == b[0] && IsSubsequence(a[1..], b[1..])) || IsSubsequence(a, b[1..])))
  }

  /** The conditions the store's search and reports select by. `TextLengthIs`
      is not a report of its own: the stability of the length report is
      stated with it. */
  datatype Criterion =
    | AnyFieldContains(term: string)
    | TitleEquals(title: string)
    | AuthorEquals(author: string)
    | ThemeEquals(theme: string)
    | TextContains(word: string)
    | YearEquals(year: int32)
    | TextLengthIs(length: nat)

  /** Whether `p` meets `c`. Every poem meets the criterion built from its
      own field value, and the empty search term. */
  predicate Matches(p: Poem, c: Criterion)
    ensures c == AnyFieldContains("") ==> Matches(p, c)
    ensures c == AnyFieldContains(p.title) ==> Matches(p, c)
    ensures c == TitleEquals(p.title) ==> Matches(p, c)
    ensures c == AuthorEquals(p.author) ==> Matches(p, c)
    ensures c == ThemeEquals(p.theme) ==> Matches(p, c)
    ensures c == TextContains(p.text) ==> Matches(p, c)
    ensures c == YearEquals(p.year) ==> Matches(p, c)
  {
    ContainsItself(p.title);
    ContainsItself(p.text);
    match c
    case AnyFieldContains(term) =>
      ContainsIgnoreCase(p.title, term) || ContainsIgnoreCase(p.author, term) ||
      ContainsIgnoreCase(p.text, term) || ContainsIgnoreCase(p.theme, term)
    case TitleEquals(title) => EqualsIgnoreCase(p.title, title)
    case AuthorEquals(author) => EqualsIgnoreCase(p.author, author)
    case ThemeEquals(theme) => EqualsIgnoreCase(p.theme, theme)
    case TextContains(word) => ContainsIgnoreCase(p.text, word)
    case YearEquals(year) => p.year == year
    case TextLengthIs(length) => |p.text| == length
  }

  /** The poems of `ps` that meet `c`, in their order in `ps` and with their
      multiplicity in `ps`. */
  function Select(ps: seq<Poem>, c: Criterion): (r: seq<Poem>)
    ensures IsSubsequence(r, ps)
    decreases |ps|
  {
    if ps == [] then []
    else if Matches(ps[0], c) then [ps[0]] + Select(ps[1..], c)
    else Select(ps[1..], c)
  }

  /** A poem occurs in a selection as often as in the source, if it meets
      the criterion, and otherwise not at all. */
  lemma {:induction false} SelectCount(ps: seq<Poem>, c: Criterion, p: Poem)
    ensures multiset(Select(ps, c))[p] == if Matches(p, c) then multiset(ps)[p] else 0
    decreases |ps|
  {
    if ps != [] {
      SelectCount(ps[1..], c, p);
      assert ps == [ps[0]] + ps[1..];
    }
  }

  /** What a selection contains, with multiplicities. */
  lemma SelectContents(ps: seq<Poem>, c: Criterion)
    ensures forall p :: p in Select(ps, c) <==> p in ps && Matches(p, c)
    ensures forall p :: multiset(Select(ps, c))[p] == if Matches(p, c) then multiset(ps)[p] else 0
  {
    forall p ensures multiset(Select(ps, c))[p] == if Matches(p, c) then multiset(ps)[p] else 0 {
      SelectCount(ps, c, p);
    }
  }

  /** Selecting from a sequence with a given first poem. */
  lemma SelectCons(x: Poem, s: seq<Poem>, c: Criterion)
    ensures Select([x] + s, c) == (if Matches(x, c) then [x] else []) + Select(s, c)
  {
    assert ([x] + s)[0] == x && ([x] + s)[1..] == s;
  }

  /** Selection distributes over concatenation. */
  lemma {:induction false} SelectAppend(a: seq<Poem>, b: seq<Poem>, c: Criterion)
    ensures Select(a + b, c) == Select(a, c) + Select(b, c)
    decreases |a|
  {
    if a != [] {
      var x, rest := a[0], a[1..];
      var head := if Matches(x, c) then [x] else [];
      assert a == [x] + rest;
      assert a + b == [x] + (rest + b);
      calc {
        Select(a + b, c);
        { SelectCons(x, rest + b, c); }
        head + Select(rest + b, c);
        { SelectAppend(rest, b, c); }
        head + (Select(rest, c) + Select(b, c));
        (head + Select(rest, c)) + Select(b, c);
        { SelectCons(x, rest, c); }
        Select(a, c) + Select(b, c);
      }
    } else {
      assert a + b == b;
    }
  }

  /** The empty search term matches every poem. */
  lemma {:induction false} SearchEmptyTermKeepsAll(ps: seq<Poem>)
    ensures Select(ps, AnyFieldContains("")) == ps
    decreases |ps|
  {
    if ps != [] {
      SearchEmptyTermKeepsAll(ps[1..]);
    }
  }

  // ---------------------------------------------------------------------
  // First exact-title match, delete and update

  /** The index `i` holds the first poem whose title is exactly `title`. */
  ghost predicate IsFirstTitleMatch(ps: seq<Poem>, title: string, i: int) {
    0 <= i < |ps| && ps[i].title == title && forall j :: 0 <= j < i ==> ps[j].title != title
  }

  /** Locates the first poem titled exactly `title` (ordinal, case-sensitive),
      as `FirstOrDefault` does. */
  function FirstTitleMatch(ps: seq<Poem>, title: string): (r: Option<nat>)
    ensures r.None? <==> forall i :: 0 <= i < |ps| ==> ps[i].title != title
    ensures r.Some? ==> IsFirstTitleMatch(ps, title, r.value)
    decreases |ps|
  {
    if ps == [] then None
    else if ps[0].title == title then Some(0)
    else match FirstTitleMatch(ps[1..], title)
      case None => None
      case Some(i) => Some(i + 1)
  }

  /** Deleting by title: without an exact-title match nothing changes;
      otherwise only the first match is removed and the rest keep their
      order. */
  function RemoveFirst(ps: seq<Poem>, title: string): (r: seq<Poem>)
    ensures (forall i :: 0 <= i < |ps| ==> ps[i].title != title) ==> r == ps
    ensures forall i :: IsFirstTitleMatch(ps, title, i) ==>
      |r| == |ps| - 1 && r[..i] == ps[..i] && r[i..] == ps[i + 1..]
  {
    match FirstTitleMatch(ps, title)
    case None => ps
    case Some(i) => ps[..i] + ps[i + 1..]
  }

  /** Updating by title: without an exact-title match nothing changes;
      otherwise only the first match takes the new value, title included. */
  function ReplaceFirst(ps: seq<Poem>, title: string, q: Poem): (r: seq<Poem>)
    ensures |r| == |ps|
    ensures (forall i :: 0 <= i < |ps| ==> ps[i].title != title) ==> r == ps
    ensures forall i :: IsFirstTitleMatch(ps, title, i) ==>
      r[i] == q && forall j :: 0 <= j < |ps| && j != i ==> r[j] == ps[j]
  {
    match FirstTitleMatch(ps, title)
    case None => ps
    case Some(i) => ps[i := q]
  }

  /** Of two poems sharing a title, deleting that title removes the first. */
  lemma DeleteFirstOfTwo(p1: Poem, p2: Poem)
    requires p1.title == p2.title
    ensures RemoveFirst([p1, p2], p1.title) == [p2]
  {
    assert IsFirstTitleMatch([p1, p2], p1.title, 0);
  }

  /** After a rename, searching for the new title finds the renamed poem. */
  lemma UpdateThenSearchFinds(ps: seq<Poem>, title: string, q: Poem)
    requires exists i :: 0 <= i < |ps| && ps[i].title == title
    ensures q in Select(ReplaceFirst(ps, title, q), AnyFieldContains(q.title))
  {
    var i := FirstTitleMatch(ps, title).value;
    ContainsItself(q.title);
    assert ReplaceFirst(ps, title, q)[i] == q;
    SelectContents(ReplaceFirst(ps, title, q), AnyFieldContains(q.title));
  }

  /** A poem with theme "Love" is found by "love" and by "LOVE". */
  lemma SearchIgnoresCase(p: Poem)
    requires p.theme == "Love"
    ensures p in Select([p], AnyFieldContains("love"))
    ensures p in Select([p], AnyFieldContains("LOVE"))
  {
    assert UpperString("Love") == "LOVE" && UpperString("love") == "LOVE";
    ContainsItself("LOVE");
    assert [p][1..] == [];
  }

  /** Appending a poem extends every selection by that poem when it matches. */
  lemma AddThenSelect(ps: seq<Poem>, p: Poem, c: Criterion)
    ensures Select(ps + [p], c) == Select(ps, c) + (if Matches(p, c) then [p] else [])
  {
    SelectAppend(ps, [p], c);
    assert Select([p], c) == (if Matches(p, c) then [p] else []) by {
      assert [p][1..] == [];
    }
  }

  // ---------------------------------------------------------------------
  // Stable ordering by text length

  ghost predicate SortedByLength(s: seq<Poem>) {
    forall i, j :: 0 <= i < j < |s| ==> |s[i].text| <= |s[j].text|
  }

  /** Inserts `p` before the first poem whose text is at least as long. */
  function Insert(p: Poem, s: seq<Poem>): (r: seq<Poem>)
    ensures multiset(r) == multiset(s) + multiset{p}
    decreases |s|
  {
    if s == [] || |p.text| <= |s[0].text| then [p] + s
    else
      assert s == [s[0]] + s[1..];
      [s[0]] + Insert(p, s[1..])
  }

  /** Insertion sort by text length, as LINQ `OrderBy` orders: ascending,
      and stable. */
  function SortByLength(s: seq<Poem>): (r: seq<Poem>)
    ensures multiset(r) == multiset(s)
    decreases |s|
  {
    if s == [] then []
    else
      assert s == [s[0]] + s[1..];
      Insert(s[0], SortByLength(s[1..]))
  }

  lemma {:induction false} InsertSorted(p: Poem, s: seq<Poem>)
    requires SortedByLength(s)
    ensures SortedByLength(Insert(p, s))
    decreases |s|
  {
    if s == [] || |p.text| <= |s[0].text| {
    } else {
      InsertSorted(p, s[1..]);
      var t := Insert(p, s[1..]);
      forall k | 0 <= k < |t| ensures |s[0].text| <= |t[k].text| {
        assert t[k] in multiset(t);
        assert t[k] in s[1..] || t[k] == p;
      }
    }
  }

  /** Inserting a poem of length `n` puts it ahead of every poem of that
      length; inserting one of another length leaves them alone. */
  lemma {:induction false} InsertSelect(p: Poem, s: seq<Poem>, n: nat)
    ensures Select(Insert(p, s), TextLengthIs(n)) ==
      (if |p.text| == n then [p] else []) + Select(s, TextLengthIs(n))
    decreases |s|
  {
    if s == [] || |p.text| <= |s[0].text| {
      assert ([p] + s)[1..] == s;
    } else {
      InsertSelect(p, s[1..], n);
      assert ([s[0]] + Insert(p, s[1..]))[1..] == Insert(p, s[1..]);
    }
  }

  /** The poems of each text length keep their relative order. */
  lemma {:induction false} SortByLengthStable(s: seq<Poem>, n: nat)
    ensures Select(SortByLength(s), TextLengthIs(n)) == Select(s, TextLengthIs(n))
    decreases |s|
  {
    if s != [] {
      SortByLengthStable(s[1..], n);
      InsertSelect(s[0], SortByLength(s[1..]), n);
    }
  }

  lemma {:induction false} SortByLengthSorted(s: seq<Poem>)
    ensures SortedByLength(SortByLength(s))
    decreases |s|
  {
    if s != [] {
      SortByLengthSorted(s[1..]);
      InsertSorted(s[0], SortByLength(s[1..]));
    }
  }

  /** In a sequence sorted by text length the first poem is a shortest one. */
  lemma SortedHeadShortest(s: seq<Poem>, x: Poem)
    requires SortedByLength(s) && x in s
    ensures s != [] && |s[0].text| <= |x.text|
  {
  }

  /** The group of the first poem's length starts with that poem; dropping
      the first poem shortens that group by one and leaves the others. */
  lemma SelectLengthOfTail(s: seq<Poem>, n: nat)
    requires s != []
    ensures Select(s, TextLengthIs(n)) ==
      (if |s[0].text| == n then [s[0]] else []) + Select(s[1..], TextLengthIs(n))
  {
    SelectCons(s[0], s[1..], TextLengthIs(n));
    assert s == [s[0]] + s[1..];
  }

  /** A non-empty sequence has a non-empty group: that of its first poem. */
  lemma FirstGroupNonEmpty(s: seq<Poem>)
    requires s != []
    ensures Select(s, TextLengthIs(|s[0].text|)) != []
  {
    SelectLengthOfTail(s, |s[0].text|);
  }

  /** Two non-empty sequences sorted by text length with the same groups start
      with the same poem, and their tails have the same groups. */
  lemma HeadsAndTailsAgree(a: seq<Poem>, b: seq<Poem>)
    requires a != [] && b != []
    requires SortedByLength(a) && SortedByLength(b)
    requires forall n: nat :: Select(a, TextLengthIs(n)) == Select(b, TextLengthIs(n))
    ensures a[0] == b[0]
    ensures forall n: nat :: Select(a[1..], TextLengthIs(n)) == Select(b[1..], TextLengthIs(n))
  {
    var ka, kb := |a[0].text|, |b[0].text|;
    SelectContents(a, TextLengthIs(ka));
    SelectContents(b, TextLengthIs(ka));
    SelectContents(a, TextLengthIs(kb));
    SelectContents(b, TextLengthIs(kb));
    SelectLengthOfTail(a, ka);
    SelectLengthOfTail(b, kb);
    assert a[0] in Select(b, TextLengthIs(ka));
    assert b[0] in Select(a, TextLengthIs(kb));
    SortedHeadShortest(b, a[0]);
    SortedHeadShortest(a, b[0]);
    var k := ka;
    assert kb == k;
    assert Select(a, TextLengthIs(k)) == Select(b, TextLengthIs(k));
    assert Select(a, TextLengthIs(k))[0] == a[0];
    assert Select(b, TextLengthIs(k))[0] == b[0];
    forall n: nat ensures Select(a[1..], TextLengthIs(n)) == Select(b[1..], TextLengthIs(n)) {
      assert Select(a, TextLengthIs(n)) == Select(b, TextLengthIs(n));
      SelectLengthOfTail(a, n);
      SelectLengthOfTail(b, n);
    }
  }

  /** Two sequences sorted by text length whose poems of each length come in
      the same order are equal. */
  lemma {:induction false} SortedWithSameGroupsEqual(a: seq<Poem>, b: seq<Poem>)
    requires SortedByLength(a) && SortedByLength(b)
    requires forall n: nat :: Select(a, TextLengthIs(n)) == Select(b, TextLengthIs(n))
    ensures a == b
    decreases |a|
  {
    if a != [] && b != [] {
      HeadsAndTailsAgree(a, b);
      assert SortedByLength(a[1..]) && SortedByLength(b[1..]);
      SortedWithSameGroupsEqual(a[1..], b[1..]);
      assert a == [a[0]] + a[1..] && b == [b[0]] + b[1..];
    } else if a != [] {
      FirstGroupNonEmpty(a);
    } else if b != [] {
      FirstGroupNonEmpty(b);
    }
  }

  /** The length ordering is the only ordering of the poems that is sorted
      by text length and keeps the poems of each length in their order. */
  lemma SortByLengthUnique(s: seq<Poem>, r: seq<Poem>)
    requires SortedByLength(r)
    requires forall n: nat :: Select(r, TextLengthIs(n)) == Select(s, TextLengthIs(n))
    ensures r == SortByLength(s)
  {
    SortByLengthSorted(s);
    forall n: nat ensures Select(r, TextLengthIs(n)) == Select(SortByLength(s), TextLengthIs(n)) {
      SortByLengthStable(s, n);
    }
    SortedWithSameGroupsEqual(r, SortByLength(s));
  }

  // ---------------------------------------------------------------------
  // Report text

  /** The rendering of each poem of a report, in report order. */
  function Renderings(report: seq<Poem>): (r: seq<string>)
    ensures |r| == |report|
    ensures forall i :: 0 <= i < |report| ==> r[i] == Render(report[i])
    decreases |report|
  {
    if report == [] then [] else [Render(report[0])] + Renderings(report[1..])
  }

  /** The text a saved report holds: the renderings separated by a blank line. */
  function ReportText(report: seq<Poem>): (r: string)
    ensures r == "" <==> report == []
    ensures |report| == 1 ==> r == Render(report[0])
  {
    assert report != [] ==> |Renderings(report)[0]| > 0;
    Join("\n\n", Renderings(report))
  }

  /** An empty report is empty text, a one-poem report is that poem's
      rendering, and n poems carry n - 1 two-character separators. */
  lemma ReportTextShape(report: seq<Poem>)
    ensures report == [] ==> ReportText(report) == ""
    ensures |report| == 1 ==> ReportText(report) == Render(report[0])
    ensures report != [] ==>
      |ReportText(report)| == TotalLength(Renderings(report)) + 2 * (|report| - 1)
  {
    if report != [] {
      JoinLength("\n\n", Renderings(report));
    }
  }

  /** A poem added at the end of a non-empty report follows a blank line. */
  lemma ReportTextSnoc(report: seq<Poem>, p: Poem)
    requires report != []
    ensures ReportText(report + [p]) == ReportText(report) + "\n\n" + Render(p)
  {
    assert Renderings(report + [p]) == Renderings(report) + [Render(p)];
    JoinSnoc("\n\n", Renderings(report), Render(p));
  }

  // ---------------------------------------------------------------------
  // The store

  class PoemCollection {
    var poems: seq<Poem>

    constructor ()
      ensures poems == []
    {
      poems := [];
    }

    /** Appends a poem; no duplicate-title check. */
    method AddPoem(poem: Poem)
      modifies this
      ensures poems == old(poems) + [poem]
      ensures |poems| == |old(poems)| + 1 && poems[..|old(poems)|] == old(poems)
    {
      poems := poems + [poem];
    }

    /** Removes the first poem titled exactly `title`, if there is one. The
        source removes by reference, which hits the index the title search
        found: an earlier element with that reference would have matched the
        title first. */
    method DeletePoem(title: string)
      modifies this
      ensures poems == RemoveFirst(old(poems), title)
    {
      var found := FirstTitleMatch(poems, title);
      if found.Some? {
        var i := found.value;
        poems := poems[..i] + poems[i + 1..];
      }
    }

    /** Overwrites the five fields of the first poem titled exactly `title`,
        if there is one. */
    method UpdatePoem(title: string, updatedPoem: Poem)
      modifies this
      ensures poems == ReplaceFirst(old(poems), title, updatedPoem)
    {
      var found := FirstTitleMatch(poems, title);
      if found.Some? {
        var i := found.value;
        poems := poems[i := Poem(updatedPoem.title, updatedPoem.author, updatedPoem.year,
                                 updatedPoem.text, updatedPoem.theme)];
      }
    }

    /** Loading from a file: `stored` is `None` when the file does not exist
        and otherwise the poems the file holds, which replace the store's. */
    method LoadFromFile(stored: Option<seq<Poem>>)
      modifies this
      ensures stored.None? ==> poems == old(poems)
      ensures stored.Some? ==> poems == stored.value
    {
      if stored.Some? {
        poems := stored.value;
      }
    }

    /** The poems holding `term`, ignoring case, in their title, author,
        text or theme, in storage order. */
    function SearchPoems(term: string): (r: seq<Poem>)
      reads this
      ensures IsSubsequence(r, poems)
      ensures forall p :: p in r <==>
        (p in poems &&
         (ContainsIgnoreCase(p.title, term) || ContainsIgnoreCase(p.author, term) ||
          ContainsIgnoreCase(p.text, term) || ContainsIgnoreCase(p.theme, term)))
      ensures forall p :: p in r ==> multiset(r)[p] == multiset(poems)[p]
    {
      SelectContents(poems, AnyFieldContains(term));
      Select(poems, AnyFieldContains(term))
    }

    /** The poems whose title equals `title` ignoring case, in storage order. */
    function GenerateReportByTitle(title: string): (r: seq<Poem>)
      reads this
      ensures IsSubsequence(r, poems)
      ensures forall p :: p in r <==> p in poems && EqualsIgnoreCase(p.title, title)
      ensures forall p :: p in r ==> multiset(r)[p] == multiset(poems)[p]
    {
      SelectContents(poems, TitleEquals(title));
      Select(poems, TitleEquals(title))
    }

    /** The poems whose author equals `author` ignoring case, in storage order. */
    function GenerateReportByAuthor(author: string): (r: seq<Poem>)
      reads this
      ensures IsSubsequence(r, poems)
      ensures forall p :: p in r <==> p in poems && EqualsIgnoreCase(p.author, author)
      ensures forall p :: p in r ==> multiset(r)[p] == multiset(poems)[p]
    {
      SelectContents(poems, AuthorEquals(author));
      Select(poems, AuthorEquals(author))
    }

    /** The poems whose theme equals `theme` ignoring case, in storage order. */
    function GenerateReportByTheme(theme: string): (r: seq<Poem>)
      reads this
      ensures IsSubsequence(r, poems)
      ensures forall p :: p in r <==> p in poems && EqualsIgnoreCase(p.theme, theme)
      ensures forall p :: p in r ==> multiset(r)[p] == multiset(poems)[p]
    {
      SelectContents(poems, ThemeEquals(theme));
      Select(poems, ThemeEquals(theme))
    }

    /** The poems whose text holds `word` ignoring case, in storage order. */
    function GenerateReportByWordInText(word: string): (r: seq<Poem>)
      reads this
      ensures IsSubsequence(r, poems)
      ensures forall p :: p in r <==> p in poems && ContainsIgnoreCase(p.text, word)
      ensures forall p :: p in r ==> multiset(r)[p] == multiset(poems)[p]
    {
      SelectContents(poems, TextContains(word));
      Select(poems, TextContains(word))
    }

    /** The poems of year `year`, in storage order. */
    function GenerateReportByYear(year: int32): (r: seq<Poem>)
      reads this
      ensures IsSubsequence(r, poems)
      ensures forall p :: p in r <==> p in poems && p.year == year
      ensures forall p :: p in r ==> multiset(r)[p] == multiset(poems)[p]
    {
      SelectContents(poems, YearEquals(year));
      Select(poems, YearEquals(year))
    }

    /** All poems, ordered by text length; poems of equal length keep their
        storage order. */
    function GenerateReportByLength(): (r: seq<Poem>)
      reads this
      ensures multiset(r) == multiset(poems)
      ensures SortedByLength(r)
      ensures forall n: nat :: Select(r, TextLengthIs(n)) == Select(poems, TextLengthIs(n))
    {
      SortByLengthSorted(poems);
      forall n: nat ensures Select(SortByLength(poems), TextLengthIs(n)) == Select(poems, TextLengthIs(n)) {
        SortByLengthStable(poems, n);
      }
      SortByLength(poems)
    }
  }
}

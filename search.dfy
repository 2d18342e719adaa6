/** The in-page chapter search: query normalisation, the per-chapter
    substring filter, the context snippet and the rendered result list. */
module Search {
  import opened Page
  import opened Text

  /** Queries shorter than this clear the result list and search nothing. */
  const MinQueryLength := 2
  /** Characters of context kept before the first match. */
  const ContextBefore := 50
  /** Characters kept from the first match onwards. */
  const ContextAfter := 100
  const Ellipsis := "..."

  /** One pushed result: the chapter's element id, its original-case title
      and the snippet of its lower-cased text. */
  datatype SearchResult = SearchResult(id: string, title: string, snippet: string)

  /** One `.search-result` entry of the rendered list. */
  datatype Entry = Placeholder | Item(result: SearchResult)

  /** The input handler's normalisation: lower-case, then trim. */
  function NormalizeQuery(raw: string): (q: string)
    ensures exists a, b ::
      && 0 <= a <= b <= |raw|
      && q == ToLower(raw)[a..b]
      && Blank(ToLower(raw)[..a])
      && Blank(ToLower(raw)[b..])
    ensures forall i :: 0 <= i < |q| ==> !IsUpper(q[i])
    ensures q == [] || (!IsSpace(q[0]) && !IsSpace(q[|q| - 1]))
    ensures |q| <= |raw|
  {
    Trim(ToLower(raw))
  }

  /** The body of `extractSnippet`, without the trailing ellipsis. */
  function SnippetStart(content: string, query: string): nat
  {
    var i := IndexOf(content, query);
    if i - ContextBefore < 0 then 0 else i - ContextBefore
  }

  function SnippetEnd(content: string, query: string): (e: nat)
    ensures SnippetStart(content, query) <= e <= |content|
  {
    var i := IndexOf(content, query);
    if |content| < i + ContextAfter then |content| else i + ContextAfter
  }

  function SnippetBody(content: string, query: string): (body: string)
    ensures |body| <= ContextBefore + ContextAfter
    ensures Contains(content, query) ==>
      var i := IndexOf(content, query);
      var s := SnippetStart(content, query);
      var e := SnippetEnd(content, query);
      && body == content[s..e]
      && s <= i <= e
      && i - s == (if i < ContextBefore then i else ContextBefore)
      && e - i == (if |content| - i < ContextAfter then |content| - i else ContextAfter)
  {
    content[SnippetStart(content, query)..SnippetEnd(content, query)]
  }

  /** `extractSnippet`: the context window around the first match of
      `query` in `content`, followed by an ellipsis. */
  function ExtractSnippet(content: string, query: string): (r: string)
    ensures |r| >= |Ellipsis| && r[|r| - |Ellipsis|..] == Ellipsis
    ensures r[..|r| - |Ellipsis|] == SnippetBody(content, query)
    ensures |r| <= ContextBefore + ContextAfter + |Ellipsis|
  {
    SnippetBody(content, query) + Ellipsis
  }

  /** A query no longer than the context after the match is shown whole in
      the snippet, and the snippet's own first match is the chapter's first
      match, moved by the cut-off prefix. */
  lemma SnippetShowsQuery(content: string, query: string)
    requires Contains(content, query) && |query| <= ContextAfter
    ensures Contains(SnippetBody(content, query), query)
    ensures IndexOf(SnippetBody(content, query), query)
         == IndexOf(content, query) - SnippetStart(content, query)
  {
    var i := IndexOf(content, query);
    var s := SnippetStart(content, query);
    var body := SnippetBody(content, query);
    OccursInSlice(content, query, s, SnippetEnd(content, query), i - s);
    forall j | 0 <= j < i - s ensures !OccursAt(body, query, j) {
      OccursInSlice(content, query, s, SnippetEnd(content, query), j);
    }
    IndexOfIsFirst(body, query, i - s);
  }

  /** A chapter matches when its lower-cased text contains the query. */
  predicate Matches(c: Chapter, query: string) {
    Contains(ToLower(c.text), query)
  }

  /** The result pushed for a matching chapter. */
  function Hit(c: Chapter, query: string): SearchResult {
    SearchResult(c.id, c.title, ExtractSnippet(ToLower(c.text), query))
  }

  /** What `searchContent` returns, one chapter at a time in document order. */
  function SearchResults(chapters: seq<Chapter>, query: string): seq<SearchResult>
  {
    if chapters == [] then []
    else
      var last := chapters[|chapters| - 1];
      SearchResults(chapters[..|chapters| - 1], query) + (if Matches(last, query) then [Hit(last, query)] else [])
  }

  /** The positions, in order, of the elements of `xs` that `keep` accepts. */
  ghost function Positions<T>(xs: seq<T>, keep: T -> bool): (idx: seq<nat>)
    ensures forall j :: 0 <= j < |idx| ==> idx[j] < |xs|
  {
    if xs == [] then []
    else
      var n := |xs| - 1;
      Positions(xs[..n], keep) + (if keep(xs[n]) then [n] else [])
  }

  /** `Positions` lists exactly the accepted elements, each once, in
      increasing order. */
  lemma {:induction false} PositionsExact<T>(xs: seq<T>, keep: T -> bool)
    ensures forall j :: 0 <= j < |Positions(xs, keep)| ==> keep(xs[Positions(xs, keep)[j]])
    ensures forall j1, j2 :: 0 <= j1 < j2 < |Positions(xs, keep)| ==> Positions(xs, keep)[j1] < Positions(xs, keep)[j2]
    ensures forall k :: 0 <= k < |xs| && keep(xs[k]) ==> k in Positions(xs, keep)
  {
    if xs != [] {
      var n := |xs| - 1;
      var prefix := xs[..n];
      PositionsExact(prefix, keep);
      var before := Positions(prefix, keep);
      var idx := Positions(xs, keep);
      assert idx == before + (if keep(xs[n]) then [n] else []);
      forall j | 0 <= j < |idx| ensures keep(xs[idx[j]]) {
        if j < |before| {
          assert idx[j] == before[j] && prefix[before[j]] == xs[before[j]];
        }
      }
      forall j1, j2 | 0 <= j1 < j2 < |idx| ensures idx[j1] < idx[j2] {
        if j2 >= |before| {
          assert idx[j1] == before[j1] < n;
        }
      }
      forall k | 0 <= k < |xs| && keep(xs[k]) ensures k in idx {
        if k < n {
          assert prefix[k] == xs[k];
          assert k in before;
        }
      }
    }
  }

  /** The positions of the matching chapters, in document order. */
  ghost function MatchIndices(chapters: seq<Chapter>, query: string): (idx: seq<nat>)
    ensures forall j :: 0 <= j < |idx| ==> idx[j] < |chapters|
  {
    Positions(chapters, c => Matches(c, query))
  }

  /** `MatchIndices` lists exactly the matching chapters, each once, in
      increasing order. */
  lemma MatchIndicesExact(chapters: seq<Chapter>, query: string)
    ensures forall j :: 0 <= j < |MatchIndices(chapters, query)| ==>
      Matches(chapters[MatchIndices(chapters, query)[j]], query)
    ensures forall j1, j2 :: 0 <= j1 < j2 < |MatchIndices(chapters, query)| ==>
      MatchIndices(chapters, query)[j1] < MatchIndices(chapters, query)[j2]
    ensures forall k :: 0 <= k < |chapters| && Matches(chapters[k], query) ==> k in MatchIndices(chapters, query)
  {
    PositionsExact(chapters, c => Matches(c, query));
  }

  /** `searchContent` keeps exactly the matching chapters, each once, in
      document order, with its id and title. */
  lemma {:induction false} SearchIsFilter(chapters: seq<Chapter>, query: string)
    ensures var rs := SearchResults(chapters, query); var idx := MatchIndices(chapters, query);
      |rs| == |idx| && forall j :: 0 <= j < |idx| ==> rs[j] == Hit(chapters[idx[j]], query)
  {
    if chapters != [] {
      var n := |chapters| - 1;
      SearchIsFilter(chapters[..n], query);
    }
  }

  /** The `searchContent` loop: pushes a result for every chapter whose
      lower-cased text includes the query. */
  method SearchContent(chapters: seq<Chapter>, query: string) returns (results: seq<SearchResult>)
    ensures results == SearchResults(chapters, query)
  {
    results := [];
    var k := 0;
    while k < |chapters|
      invariant 0 <= k <= |chapters|
      invariant results == SearchResults(chapters[..k], query)
    {
      var chapter := chapters[k];
      var content := ToLower(chapter.text);
      if Contains(content, query) {
        var snippet := ExtractSnippet(content, query);
        results := results + [SearchResult(chapter.id, chapter.title, snippet)];
      }
      assert chapters[..k + 1][..k] == chapters[..k];
      k := k + 1;
    }
    assert chapters[..k] == chapters;
  }

  /** `displaySearchResults`: one entry per result, or a single placeholder
      when there are none. */
  function Display(results: seq<SearchResult>): (entries: seq<Entry>)
    ensures entries != []
    ensures entries == [Placeholder] <==> results == []
    ensures results != [] ==> |entries| == |results| && forall i :: 0 <= i < |results| ==> entries[i] == Item(results[i])
  {
    if results == [] then [Placeholder]
    else
      var items := seq(|results|, i requires 0 <= i < |results| => Item(results[i]));
      assert items[0].Item?;
      items
  }

  /** The results an entry list shows; the placeholder shows none. */
  function Shown(entries: seq<Entry>): seq<SearchResult>
  {
    if entries == [] then []
    else (if entries[0].Item? then [entries[0].result] else []) + Shown(entries[1..])
  }

  lemma {:induction false} ShownItems(results: seq<SearchResult>)
    ensures Shown(seq(|results|, i requires 0 <= i < |results| => Item(results[i]))) == results
  {
    if results != [] {
      var items := seq(|results|, i requires 0 <= i < |results| => Item(results[i]));
      assert items[1..] == seq(|results[1..]|, i requires 0 <= i < |results[1..]| => Item(results[1..][i]));
      ShownItems(results[1..]);
    }
  }

  /** The rendered list shows exactly the results, in order. */
  lemma DisplayShowsResults(results: seq<SearchResult>)
    ensures Shown(Display(results)) == results
  {
    if results != [] { ShownItems(results); }
  }

  /** The result list after an input event with field value `raw`. */
  function PanelFor(raw: string, chapters: seq<Chapter>): seq<Entry>
  {
    var q := NormalizeQuery(raw);
    if |q| < MinQueryLength then [] else Display(SearchResults(chapters, q))
  }

  /** The three outcomes of an input event: cleared for a short query, a
      lone placeholder when nothing matches, otherwise one entry per
      matching chapter in document order. */
  lemma PanelCases(raw: string, chapters: seq<Chapter>)
    ensures var q := NormalizeQuery(raw); var panel := PanelFor(raw, chapters);
      var idx := MatchIndices(chapters, q);
      && (|q| < MinQueryLength ==> panel == [])
      && (|q| >= MinQueryLength && (forall k :: 0 <= k < |chapters| ==> !Matches(chapters[k], q)) ==>
            panel == [Placeholder])
      && (|q| >= MinQueryLength && idx != [] ==>
            |panel| == |idx| && forall j :: 0 <= j < |idx| ==> panel[j] == Item(Hit(chapters[idx[j]], q)))
  {
    SearchIsFilter(chapters, NormalizeQuery(raw));
    MatchIndicesExact(chapters, NormalizeQuery(raw));
  }
}

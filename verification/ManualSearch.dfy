/** Which pages a search of the manual shows, and in what order
    (src/docs_bundle.rs:229-268, 384-436, 488-507). */
module ManualSearch {
  import opened Prelude
  import opened QueryWords

  const SEARCH_RESULTS: nat := 5

  datatype PageWords = PageWords(title: set<string>, headings: map<string, nat>, body: map<string, nat>)

  /** The page's text, lowercased, and what a public search sees of it when that
      differs. */
  datatype PageText = PageText(full: string, shown: Option<string>)

  datatype Page = Page(isPrivate: bool, words: PageWords, text: PageText)

  datatype Relevance = Relevance(titleWords: nat, headingWords: nat, bodyHits: nat)

  const NO_RELEVANCE := Relevance(0, 0, 0)

  datatype Ranked = Ranked(exact: nat, relevance: Relevance, index: nat)

  predicate Contains(s: string, part: string) {
    exists i :: 0 <= i <= |s| && part <= s[i..]
  }

  predicate Holds(text: PageText, word: string, includePrivate: bool) {
    Contains(if text.shown.Some? && !includePrivate then text.shown.value else text.full, word)
  }

  function HeldCount(text: PageText, exact: seq<string>, includePrivate: bool): (n: nat) {
    if exact == [] then 0
    else HeldCount(text, exact[1..], includePrivate) + (if Holds(text, exact[0], includePrivate) then 1 else 0)
  }

  function RelevanceOf(words: PageWords, terms: seq<string>): (r: Relevance) {
    if terms == [] then NO_RELEVANCE
    else
      var rest, term := RelevanceOf(words, terms[1..]), terms[0];
      Relevance(
        rest.titleWords + (if term in words.title then 1 else 0),
        rest.headingWords + (if term in words.headings then 1 else 0),
        rest.bodyHits + (if term in words.body then words.body[term] else 0))
  }

  datatype Query = Query(terms: seq<string>, exact: seq<string>, includePrivate: bool)

  function RankOf(page: Page, q: Query, index: nat): (r: Ranked) {
    Ranked(HeldCount(page.text, q.exact, q.includePrivate), RelevanceOf(page.words, q.terms), index)
  }

  /** A page is shown only to those who may see it, and only if it matches. */
  predicate Eligible(page: Page, q: Query) {
    && (q.includePrivate || !page.isPrivate)
    && (HeldCount(page.text, q.exact, q.includePrivate) > 0 || RelevanceOf(page.words, q.terms) != NO_RELEVANCE)
  }

  // ----- the order -----

  predicate LessRelevant(a: Relevance, b: Relevance) {
    || a.titleWords < b.titleWords
    || (a.titleWords == b.titleWords
        && (a.headingWords < b.headingWords || (a.headingWords == b.headingWords && a.bodyHits < b.bodyHits)))
  }

  /** `a` comes before `b`: most exact words, then most relevant, then the
      manual's own order. */
  predicate Outranks(a: Ranked, b: Ranked) {
    || a.exact > b.exact
    || (a.exact == b.exact
        && (LessRelevant(b.relevance, a.relevance) || (a.relevance == b.relevance && a.index < b.index)))
  }

  /** Of two different pages exactly one outranks the other, and ranking is
      transitive. */
  lemma OutranksIsStrictOrder(a: Ranked, b: Ranked, c: Ranked)
    ensures !Outranks(a, a)
    ensures a.index != b.index ==> (Outranks(a, b) <==> !Outranks(b, a))
    ensures Outranks(a, b) && Outranks(b, c) ==> Outranks(a, c)
  {
  }

  // ----- filter, sort, take -----

  /** The eligible pages among the first `n`, in the manual's order. */
  function Candidates(pages: seq<Page>, q: Query, n: nat): (r: seq<Ranked>)
    requires n <= |pages|
  {
    if n == 0 then []
    else
      Candidates(pages, q, n - 1)
      + (if Eligible(pages[n - 1], q) then [RankOf(pages[n - 1], q, n - 1)] else [])
  }

  function InsertRanked(x: Ranked, sorted: seq<Ranked>): (r: seq<Ranked>) {
    if sorted == [] || Outranks(x, sorted[0]) then [x] + sorted else [sorted[0]] + InsertRanked(x, sorted[1..])
  }

  function SortRanked(s: seq<Ranked>): (r: seq<Ranked>) {
    if s == [] then [] else InsertRanked(s[|s| - 1], SortRanked(s[..|s| - 1]))
  }

  function Shown(pages: seq<Page>, q: Query): (r: seq<Ranked>) {
    if q.terms == [] then []
    else
      var sorted := SortRanked(Candidates(pages, q, |pages|));
      if |sorted| <= SEARCH_RESULTS then sorted else sorted[..SEARCH_RESULTS]
  }

  // ----- what the order makes of the pages -----

  ghost predicate SortedByRank(s: seq<Ranked>) {
    forall i, j :: 0 <= i < j < |s| ==> Outranks(s[i], s[j])
  }

  lemma {:induction false} InsertKeepsRank(x: Ranked, sorted: seq<Ranked>)
    requires SortedByRank(sorted) && forall i :: 0 <= i < |sorted| ==> sorted[i].index != x.index
    ensures SortedByRank(InsertRanked(x, sorted))
    ensures forall y :: y in InsertRanked(x, sorted) <==> y == x || y in sorted
    decreases |sorted|
  {
    hide Outranks;
    if sorted == [] {
    } else if Outranks(x, sorted[0]) {
      forall i | 0 < i < |sorted| ensures Outranks(x, sorted[i]) {
        OutranksIsStrictOrder(x, sorted[0], sorted[i]);
      }
    } else {
      var rest := sorted[1..];
      InsertKeepsRank(x, rest);
      OutranksIsStrictOrder(x, sorted[0], x);
      var r := InsertRanked(x, rest);
      forall j | 0 <= j < |r| ensures Outranks(sorted[0], r[j]) {
        assert r[j] in r;
        if r[j] != x { var k :| 0 <= k < |rest| && rest[k] == r[j]; assert sorted[k + 1] == r[j]; }
      }
      assert sorted == [sorted[0]] + rest;
    }
  }

  /** The candidates are the eligible pages, each once, in page order. */
  lemma {:induction false} CandidatesAreEligible(pages: seq<Page>, q: Query, n: nat)
    requires n <= |pages|
    ensures forall x :: x in Candidates(pages, q, n) <==>
                          x.index < n && Eligible(pages[x.index], q) && x == RankOf(pages[x.index], q, x.index)
    ensures forall i, j :: 0 <= i < j < |Candidates(pages, q, n)| ==>
                             Candidates(pages, q, n)[i].index < Candidates(pages, q, n)[j].index
  {
    hide Eligible;
    if n > 0 {
      CandidatesAreEligible(pages, q, n - 1);
      var before := Candidates(pages, q, n - 1);
      assert forall i :: 0 <= i < |before| ==> before[i] in before;
    }
  }

  lemma {:induction false} SortKeepsRank(s: seq<Ranked>)
    requires forall i, j :: 0 <= i < j < |s| ==> s[i].index < s[j].index
    ensures SortedByRank(SortRanked(s))
    ensures forall y :: y in SortRanked(s) <==> y in s
    decreases |s|
  {
    hide Outranks, InsertRanked;
    if s != [] {
      var before := s[..|s| - 1];
      SortKeepsRank(before);
      var sorted := SortRanked(before);
      forall i | 0 <= i < |sorted| ensures sorted[i].index != s[|s| - 1].index {
        assert sorted[i] in sorted;
      }
      InsertKeepsRank(s[|s| - 1], sorted);
      assert s == before + [s[|s| - 1]];
    } else {
      NothingIsRanked();
    }
  }

  lemma NothingIsRanked()
    ensures SortRanked([]) == [] && SortedByRank([])
  {
  }

  /** The eligible pages that outrank one. */
  function Above(pages: seq<Page>, q: Query, index: nat): (r: set<nat>)
    requires index < |pages|
  {
    set j: nat |
      j < |pages| && Eligible(pages[j], q) && Outranks(RankOf(pages[j], q, j), RankOf(pages[index], q, index))
  }

  /** The indices in the first `k` places of a ranking. */
  function IndicesOf(sorted: seq<Ranked>, k: nat): (r: set<nat>)
    requires k <= |sorted|
  {
    set i | 0 <= i < k :: sorted[i].index
  }

  lemma {:induction false} IndicesCount(sorted: seq<Ranked>, k: nat)
    requires k <= |sorted| && forall i, j :: 0 <= i < j < |sorted| ==> sorted[i].index != sorted[j].index
    ensures |IndicesOf(sorted, k)| == k
  {
    if k > 0 {
      IndicesCount(sorted, k - 1);
      assert IndicesOf(sorted, k) == IndicesOf(sorted, k - 1) + {sorted[k - 1].index};
    }
  }

  /** The whole ranking: the page at place `k` is outranked by exactly `k`. */
  lemma RankingPlaces(pages: seq<Page>, q: Query)
    ensures var sorted := SortRanked(Candidates(pages, q, |pages|));
            && (forall k :: 0 <= k < |sorted| ==>
                  && sorted[k].index < |pages| && Eligible(pages[sorted[k].index], q)
                  && sorted[k] == RankOf(pages[sorted[k].index], q, sorted[k].index)
                  && |Above(pages, q, sorted[k].index)| == k)
            && (forall i: nat :: i < |pages| && Eligible(pages[i], q) ==>
                  exists k :: 0 <= k < |sorted| && sorted[k].index == i)
  {
    hide Eligible, Outranks, SortRanked, Candidates;
    CandidatesAreEligible(pages, q, |pages|);
    SortKeepsRank(Candidates(pages, q, |pages|));
    var sorted := SortRanked(Candidates(pages, q, |pages|));
    assert forall k :: 0 <= k < |sorted| ==> sorted[k] in sorted;
    forall i: nat | i < |pages| && Eligible(pages[i], q)
      ensures exists k :: 0 <= k < |sorted| && sorted[k].index == i
    {
      assert RankOf(pages[i], q, i) in sorted;
    }
    forall i, j | 0 <= i < j < |sorted| ensures sorted[i].index != sorted[j].index {
      OutranksIsStrictOrder(sorted[i], sorted[j], sorted[i]);
    }
    forall k | 0 <= k < |sorted| ensures |Above(pages, q, sorted[k].index)| == k {
      AboveIsPrefix(pages, q, sorted, k);
      IndicesCount(sorted, k);
    }
  }

  lemma AboveIsPrefix(pages: seq<Page>, q: Query, sorted: seq<Ranked>, k: nat)
    requires k < |sorted| && SortedByRank(sorted)
    requires forall y :: y in sorted <==>
                           y.index < |pages| && Eligible(pages[y.index], q) && y == RankOf(pages[y.index], q, y.index)
    requires sorted[k].index < |pages| && sorted[k] == RankOf(pages[sorted[k].index], q, sorted[k].index)
    ensures Above(pages, q, sorted[k].index) == IndicesOf(sorted, k)
  {
    hide Eligible, Outranks;
    var index := sorted[k].index;
    forall j: nat | j in Above(pages, q, index) ensures j in IndicesOf(sorted, k) {
      var x := RankOf(pages[j], q, j);
      assert x in sorted;
      var at :| 0 <= at < |sorted| && sorted[at] == x;
      OutranksIsStrictOrder(sorted[k], x, sorted[k]);
      OutranksIsStrictOrder(x, sorted[k], x);
      assert at < k;
    }
    forall j: nat | j in IndicesOf(sorted, k) ensures j in Above(pages, q, index) {
      var at :| 0 <= at < k && sorted[at].index == j;
      assert sorted[at] in sorted;
    }
  }

  lemma ShownIsPrefix(pages: seq<Page>, q: Query)
    requires q.terms != []
    ensures var sorted, shown := SortRanked(Candidates(pages, q, |pages|)), Shown(pages, q);
            && |shown| == (if |sorted| <= SEARCH_RESULTS then |sorted| else SEARCH_RESULTS)
            && forall k :: 0 <= k < |shown| ==> shown[k] == sorted[k]
  {
    hide SortRanked, Candidates;
  }

  /** Search shows the first five of the eligible pages and no others: a page is
      shown exactly when it may be seen, matches, and is outranked by fewer than
      five such pages; and the page at place `k` is outranked by exactly `k`. */
  lemma ShowsTheFirstFive(pages: seq<Page>, q: Query)
    requires q.terms != []
    ensures forall i: nat :: i < |pages| ==>
              ((exists k :: 0 <= k < |Shown(pages, q)| && Shown(pages, q)[k].index == i)
               <==> Eligible(pages[i], q) && |Above(pages, q, i)| < SEARCH_RESULTS)
    ensures forall k :: 0 <= k < |Shown(pages, q)| ==>
              Shown(pages, q)[k].index < |pages| && |Above(pages, q, Shown(pages, q)[k].index)| == k
  {
    hide Eligible, Above, SortRanked, Candidates, RankOf, Shown;
    RankingPlaces(pages, q);
    ShownIsPrefix(pages, q);
    var sorted := SortRanked(Candidates(pages, q, |pages|));
    var shown := Shown(pages, q);
    forall k | 0 <= k < |shown|
      ensures shown[k].index < |pages| && |Above(pages, q, shown[k].index)| == k && Eligible(pages[shown[k].index], q)
    {
      assert shown[k] == sorted[k];
    }
    forall i: nat | i < |pages| && Eligible(pages[i], q) && |Above(pages, q, i)| < SEARCH_RESULTS
      ensures exists k :: 0 <= k < |shown| && shown[k].index == i
    {
      var k :| 0 <= k < |sorted| && sorted[k].index == i;
      assert shown[k] == sorted[k];
    }
  }

  /** No page left out outranks one that is shown. */
  lemma NothingOmittedOutranks(pages: seq<Page>, q: Query, i: nat, k: nat)
    requires q.terms != [] && i < |pages| && Eligible(pages[i], q) && k < |Shown(pages, q)|
    requires forall j :: 0 <= j < |Shown(pages, q)| ==> Shown(pages, q)[j].index != i
    ensures Outranks(Shown(pages, q)[k], RankOf(pages[i], q, i))
  {
    hide Eligible, Outranks, SortRanked, Candidates, HeldCount, RelevanceOf;
    CandidatesAreEligible(pages, q, |pages|);
    SortKeepsRank(Candidates(pages, q, |pages|));
    var sorted := SortRanked(Candidates(pages, q, |pages|));
    assert RankOf(pages[i], q, i) in sorted;
    var at :| 0 <= at < |sorted| && sorted[at] == RankOf(pages[i], q, i);
    assert forall j :: 0 <= j < |Shown(pages, q)| ==> Shown(pages, q)[j] == sorted[j];
  }

  function QueryOf(a: Alphabet, query: string, includePrivate: bool): (q: Query) {
    Query(QueryTerms(a, query), PunctuatedWords(a, query), includePrivate)
  }

  /** `Manual::search`: the pages shown, best first. */
  method Search(a: Alphabet, pages: seq<Page>, query: string, includePrivate: bool) returns (shown: seq<Ranked>)
    ensures shown == Shown(pages, QueryOf(a, query, includePrivate))
    ensures QueryTerms(a, query) == [] ==> shown == []
    ensures QueryTerms(a, query) != [] ==>
              forall i: nat :: i < |pages| ==>
                ((exists k :: 0 <= k < |shown| && shown[k].index == i)
                 <==> var q := QueryOf(a, query, includePrivate);
                      Eligible(pages[i], q) && |Above(pages, q, i)| < SEARCH_RESULTS)
  {
    hide QueryTerms, PunctuatedWords, Candidates, SortRanked, Eligible, Above;
    var terms := CollectTerms(a, query);
    if terms == [] {
      return [];
    }
    var exact := CollectPunctuated(a, query);
    var q := Query(terms, exact, includePrivate);
    var ranked := SortRanked(Candidates(pages, q, |pages|));
    shown := if |ranked| <= SEARCH_RESULTS then ranked else ranked[..SEARCH_RESULTS];
    ShowsTheFirstFive(pages, q);
  }

  /** Stop words typed after a query that means something change nothing about
      what is shown. */
  lemma StopWordsShowTheSame(a: Alphabet, pages: seq<Page>, query: string, stops: seq<string>, includePrivate: bool)
    requires a.Lawful() && (forall i :: 0 <= i < |stops| ==> IsStop(a, stops[i]) && a.AllAlnum(stops[i]))
    requires WordsOf(a, Pieces(a, query), true) != []
    ensures var more := WithStopWords(query, stops);
            Shown(pages, QueryOf(a, more, includePrivate)) == Shown(pages, QueryOf(a, query, includePrivate))
  {
    hide QueryTerms, PunctuatedWords, Shown, IsStop;
    StopWordsChangeNothing(a, query, stops);
  }
}

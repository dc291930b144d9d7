/** The ranking of the manual's search from the pages' own words
    (src/docs_bundle.rs:229-268, 384-421, 499-513). */
module ManualRanking {
  import opened Saturating
  import opened Counting
  import opened ManualSearch

  // ----- what a page scores -----

  /** The text a search looks through for the words as typed. */
  function Searched(text: PageText, includePrivate: bool): (r: string) {
    match (includePrivate, text.shown)
    case (false, Some(public)) => public
    case _ => text.full
  }

  /** `word` stands somewhere in `text`. */
  ghost predicate Occurs(text: string, word: string) {
    exists before, after :: text == before + word + after
  }

  lemma ContainedIn(text: string, word: string, before: string, after: string)
    requires text == before + word + after
    ensures Contains(text, word)
  {
    assert text[|before|..] == word + after;
  }

  lemma ContainsAt(text: string, word: string, i: nat) returns (after: string)
    requires i <= |text| && word <= text[i..]
    ensures text == text[..i] + word + after
  {
    after := text[i..][|word|..];
    assert text[i..] == word + after;
  }

  lemma OccursIff(text: string, word: string)
    ensures Contains(text, word) <==> Occurs(text, word)
  {
    if Occurs(text, word) {
      var before, after :| text == before + word + after;
      ContainedIn(text, word, before, after);
    } else if Contains(text, word) {
      var i :| 0 <= i <= |text| && word <= text[i..];
      var after := ContainsAt(text, word, i);
    }
  }

  function BodyCounts(words: PageWords, terms: seq<string>): (r: seq<nat>) {
    seq(|terms|, i requires 0 <= i < |terms| => if terms[i] in words.body then words.body[terms[i]] else 0)
  }

  function InTitle(words: PageWords, terms: seq<string>): (r: seq<bool>) {
    seq(|terms|, i requires 0 <= i < |terms| => terms[i] in words.title)
  }

  function InHeadings(words: PageWords, terms: seq<string>): (r: seq<bool>) {
    seq(|terms|, i requires 0 <= i < |terms| => terms[i] in words.headings)
  }

  ghost function InText(text: string, words: seq<string>): (r: seq<bool>) {
    seq(|words|, i requires 0 <= i < |words| => Occurs(text, words[i]))
  }

  /** What a page has of a query: how many of the words typed with punctuation,
      how many of the terms in its title, how many in its headings, and how often
      all of them stand in its body. */
  ghost function Score(page: Page, q: Query): (r: seq<nat>)
    ensures |r| == 4
  {
    [ HowMany(InText(Searched(page.text, q.includePrivate), q.exact)),
      HowMany(InTitle(page.words, q.terms)),
      HowMany(InHeadings(page.words, q.terms)),
      Sum(BodyCounts(page.words, q.terms)) ]
  }

  lemma {:induction false} HeldAre(text: PageText, exact: seq<string>, includePrivate: bool)
    ensures HeldCount(text, exact, includePrivate) == HowMany(InText(Searched(text, includePrivate), exact))
  {
    hide Occurs, Contains, HowMany;
    var searched := Searched(text, includePrivate);
    if exact != [] {
      HeldAre(text, exact[1..], includePrivate);
      assert InText(searched, exact) == [Occurs(searched, exact[0])] + InText(searched, exact[1..]);
      HowManyCons(Occurs(searched, exact[0]), InText(searched, exact[1..]));
      OccursIff(searched, exact[0]);
    } else {
      assert InText(searched, exact) == [];
      HowManyCons(true, []);
    }
  }

  lemma {:induction false} TitleWordsAre(words: PageWords, terms: seq<string>)
    ensures RelevanceOf(words, terms).titleWords == HowMany(InTitle(words, terms))
  {
    hide HowMany;
    if terms != [] {
      TitleWordsAre(words, terms[1..]);
      assert InTitle(words, terms) == [terms[0] in words.title] + InTitle(words, terms[1..]);
      HowManyCons(terms[0] in words.title, InTitle(words, terms[1..]));
    } else {
      assert InTitle(words, terms) == [];
      HowManyCons(true, []);
    }
  }

  lemma {:induction false} HeadingWordsAre(words: PageWords, terms: seq<string>)
    ensures RelevanceOf(words, terms).headingWords == HowMany(InHeadings(words, terms))
  {
    hide HowMany;
    if terms != [] {
      HeadingWordsAre(words, terms[1..]);
      assert InHeadings(words, terms) == [terms[0] in words.headings] + InHeadings(words, terms[1..]);
      HowManyCons(terms[0] in words.headings, InHeadings(words, terms[1..]));
    } else {
      assert InHeadings(words, terms) == [];
      HowManyCons(true, []);
    }
  }

  lemma {:induction false} BodyHitsAre(words: PageWords, terms: seq<string>)
    ensures RelevanceOf(words, terms).bodyHits == Sum(BodyCounts(words, terms))
  {
    if terms != [] {
      BodyHitsAre(words, terms[1..]);
      var first := if terms[0] in words.body then words.body[terms[0]] else 0;
      assert BodyCounts(words, terms) == [first] + BodyCounts(words, terms[1..]);
      SumCons(first, BodyCounts(words, terms[1..]));
    }
  }

  /** The four numbers a page is ranked by are its score. */
  lemma RankIsScore(page: Page, q: Query, index: nat)
    ensures var rank := RankOf(page, q, index);
            && [rank.exact, rank.relevance.titleWords, rank.relevance.headingWords, rank.relevance.bodyHits]
               == Score(page, q)
            && rank.index == index
  {
    hide HowMany, InText, InHeadings, InTitle, Searched, HeldCount, RelevanceOf, BodyCounts, Sum;
    HeldAre(page.text, q.exact, q.includePrivate);
    TitleWordsAre(page.words, q.terms);
    HeadingWordsAre(page.words, q.terms);
    BodyHitsAre(page.words, q.terms);
  }

  // ----- which page comes first -----

  /** The first number in which the scores differ is greater in `a`. */
  ghost predicate ScoresHigher(a: seq<nat>, b: seq<nat>) {
    exists p :: 0 <= p < |a| && p < |b| && a[..p] == b[..p] && a[p] > b[p]
  }

  /** Page `i` scores higher than page `j`, or the same and stands before it. */
  ghost predicate ComesFirst(pages: seq<Page>, q: Query, i: nat, j: nat)
    requires i < |pages| && j < |pages|
  {
    || ScoresHigher(Score(pages[i], q), Score(pages[j], q))
    || (Score(pages[i], q) == Score(pages[j], q) && i < j)
  }

  /** The page may be seen and some number of its score is not 0. */
  ghost predicate Matches(page: Page, q: Query) {
    && (q.includePrivate || !page.isPrivate)
    && Score(page, q) != [0, 0, 0, 0]
  }

  lemma EligibleIff(page: Page, q: Query)
    ensures Eligible(page, q) <==> Matches(page, q)
  {
    hide Score, HeldCount, RelevanceOf;
    RankIsScore(page, q, 0);
    var rank := RankOf(page, q, 0);
    var score := [rank.exact, rank.relevance.titleWords, rank.relevance.headingWords, rank.relevance.bodyHits];
    assert score == [0, 0, 0, 0] <==> rank.exact == 0 && rank.relevance == NO_RELEVANCE;
  }

  lemma OutranksIff(pages: seq<Page>, q: Query, i: nat, j: nat)
    requires i < |pages| && j < |pages|
    ensures Outranks(RankOf(pages[i], q, i), RankOf(pages[j], q, j)) <==> ComesFirst(pages, q, i, j)
  {
    hide Score, RankOf;
    RankIsScore(pages[i], q, i);
    RankIsScore(pages[j], q, j);
    var a, b := RankOf(pages[i], q, i), RankOf(pages[j], q, j);
    var x := [a.exact, a.relevance.titleWords, a.relevance.headingWords, a.relevance.bodyHits];
    var y := [b.exact, b.relevance.titleWords, b.relevance.headingWords, b.relevance.bodyHits];
    HigherIff(x, y);
  }

  lemma HigherIff(x: seq<nat>, y: seq<nat>)
    requires |x| == |y| == 4
    ensures ScoresHigher(x, y) <==>
              || x[0] > y[0]
              || (x[0] == y[0] && x[1] > y[1])
              || (x[0] == y[0] && x[1] == y[1] && x[2] > y[2])
              || (x[0] == y[0] && x[1] == y[1] && x[2] == y[2] && x[3] > y[3])
  {
    assert x[..0] == y[..0];
    assert x[..1] == y[..1] <==> x[0] == y[0];
    assert x[..2] == y[..2] <==> x[0] == y[0] && x[1] == y[1];
    assert x[..3] == y[..3] <==> x[0] == y[0] && x[1] == y[1] && x[2] == y[2];
    if ScoresHigher(x, y) {
      var p :| 0 <= p < |x| && p < |y| && x[..p] == y[..p] && x[p] > y[p];
      assert p == 0 || p == 1 || p == 2 || p == 3;
    }
  }

  lemma OutrankerIsBefore(sorted: seq<Ranked>, x: Ranked, k: nat) returns (m: nat)
    requires SortedByRank(sorted) && x in sorted && k < |sorted| && Outranks(x, sorted[k])
    ensures m < k && sorted[m] == x
  {
    hide Outranks;
    m :| 0 <= m < |sorted| && sorted[m] == x;
    OutranksIsStrictOrder(x, sorted[k], x);
    OutranksIsStrictOrder(sorted[k], sorted[k], sorted[k]);
  }

  lemma RankedAre(pages: seq<Page>, q: Query)
    ensures var sorted := SortRanked(Candidates(pages, q, |pages|));
            && SortedByRank(sorted)
            && forall x :: x in sorted ==> x.index < |pages| && x == RankOf(pages[x.index], q, x.index)
    ensures forall i: nat :: i < |pages| && Eligible(pages[i], q) ==>
              RankOf(pages[i], q, i) in SortRanked(Candidates(pages, q, |pages|))
  {
    hide Eligible, SortRanked, Candidates, SortedByRank, HeldCount, RelevanceOf;
    CandidatesAreEligible(pages, q, |pages|);
    SortKeepsRank(Candidates(pages, q, |pages|));
  }

  /** Of two pages that match, the one that scores higher is shown first, and the
      other is not shown without it: the words as typed count before the title,
      the title before the headings, the headings before the body, and pages that
      score alike keep the manual's order. */
  lemma BetterIsShownFirst(pages: seq<Page>, q: Query, i: nat, j: nat, k: nat)
    requires q.terms != [] && i < |pages| && Matches(pages[i], q)
    requires k < |Shown(pages, q)| && Shown(pages, q)[k].index == j < |pages|
    requires ComesFirst(pages, q, i, j)
    ensures exists m :: 0 <= m < k && Shown(pages, q)[m].index == i
  {
    hide Eligible, Outranks, SortRanked, Candidates, RankOf, ComesFirst, Matches, Shown, SortedByRank;
    EligibleIff(pages[i], q);
    OutranksIff(pages, q, i, j);
    RankedAre(pages, q);
    ShownIsPrefix(pages, q);
    var sorted, shown := SortRanked(Candidates(pages, q, |pages|)), Shown(pages, q);
    assert shown[k] == sorted[k] && sorted[k] in sorted;
    RankIsScore(pages[i], q, i);
    var m := OutrankerIsBefore(sorted, RankOf(pages[i], q, i), k);
    assert shown[m] == sorted[m];
  }

  /** So with as many words as typed, more title words come first, whatever the
      headings and the body hold. */
  lemma MoreTitleWordsComeFirst(pages: seq<Page>, q: Query, i: nat, j: nat, k: nat)
    requires q.terms != [] && i < |pages| && (q.includePrivate || !pages[i].isPrivate)
    requires k < |Shown(pages, q)| && Shown(pages, q)[k].index == j < |pages|
    requires Score(pages[i], q)[0] == Score(pages[j], q)[0]
    requires HowMany(InTitle(pages[i].words, q.terms)) > HowMany(InTitle(pages[j].words, q.terms))
    ensures exists m :: 0 <= m < k && Shown(pages, q)[m].index == i
  {
    hide Shown, HowMany, InText, InHeadings, InTitle, Searched, BodyCounts, Sum;
    var a, b := Score(pages[i], q), Score(pages[j], q);
    assert a[1] > b[1];
    HigherIff(a, b);
    BetterIsShownFirst(pages, q, i, j, k);
  }

  // ----- what a public search sees -----

  /** The two manuals differ only in what the public may not see: pages that are
      private, and the full text of those that have a public one. */
  ghost predicate SameInPublic(a: seq<Page>, b: seq<Page>) {
    && |a| == |b|
    && forall i :: 0 <= i < |a| ==>
         && a[i].isPrivate == b[i].isPrivate
         && (!a[i].isPrivate ==> a[i].words == b[i].words && a[i].text.shown == b[i].text.shown)
         && (!a[i].isPrivate && a[i].text.shown.None? ==> a[i].text == b[i].text)
  }

  lemma {:induction false} SameCandidates(a: seq<Page>, b: seq<Page>, q: Query, n: nat)
    requires SameInPublic(a, b) && !q.includePrivate && n <= |a|
    ensures Candidates(a, q, n) == Candidates(b, q, n)
  {
    if n > 0 {
      SameCandidates(a, b, q, n - 1);
      SamePublicRank(a[n - 1], b[n - 1], q, n - 1);
      hide Eligible, RankOf;
    }
  }

  lemma SamePublicRank(a: Page, b: Page, q: Query, index: nat)
    requires !q.includePrivate && a.isPrivate == b.isPrivate
    requires !a.isPrivate ==> a.words == b.words && a.text.shown == b.text.shown
    requires !a.isPrivate && a.text.shown.None? ==> a.text == b.text
    ensures Eligible(a, q) == Eligible(b, q)
    ensures Eligible(a, q) ==> RankOf(a, q, index) == RankOf(b, q, index)
  {
    if !a.isPrivate {
      hide HeldCount, RelevanceOf;
      HeldAre(a.text, q.exact, false);
      HeldAre(b.text, q.exact, false);
    }
  }

  /** A public search shows the same pages, with the same numbers, whatever is in
      private pages and in what a page does not show the public. */
  lemma PublicSearchSeesPublicText(a: seq<Page>, b: seq<Page>, q: Query)
    requires SameInPublic(a, b) && !q.includePrivate
    ensures Shown(a, q) == Shown(b, q)
    ensures forall k :: 0 <= k < |Shown(a, q)| ==> Shown(a, q)[k].index < |a| && !a[Shown(a, q)[k].index].isPrivate
  {
    hide Candidates, SortRanked, RankOf, SameInPublic;
    assert |a| == |b| by { SameLength(a, b); }
    SameCandidates(a, b, q, |a|);
    CandidatesAreEligible(a, q, |a|);
    SortKeepsRank(Candidates(a, q, |a|));
    if q.terms != [] {
      ShownIsPrefix(a, q);
      var sorted := SortRanked(Candidates(a, q, |a|));
      assert forall k :: 0 <= k < |Shown(a, q)| ==> Shown(a, q)[k] == sorted[k] && sorted[k] in sorted;
    }
  }

  lemma SameLength(a: seq<Page>, b: seq<Page>)
    requires SameInPublic(a, b)
    ensures |a| == |b|
  {
  }
}

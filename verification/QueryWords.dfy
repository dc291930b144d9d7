/** The words a search of the manual goes by
    (src/docs_bundle.rs:187-190, 510-579). */
module QueryWords {
  /** What the Unicode tables say, as far as words depend on it. */
  datatype Alphabet = Alphabet(isAlnum: char -> bool, isWhite: char -> bool, lower: string -> string) {
    ghost predicate Lawful() {
      && (forall c :: isWhite(c) ==> !isAlnum(c))
      && isWhite(' ')
    }

    predicate AllAlnum(s: string) {
      forall i :: 0 <= i < |s| ==> isAlnum(s[i])
    }
  }

  /** Words too common in the manual to say anything about a page. */
  predicate IsStopWord(word: string) {
    word in [
      "a", "an", "and", "are", "be", "can", "do", "does", "for", "how", "i", "in", "is", "it", "my",
      "of", "on", "or", "the", "to", "what", "with"]
  }

  /** The pieces between separators, empty ones included. */
  function SplitOn(isSep: char -> bool, s: string): (pieces: seq<string>)
    ensures pieces != []
  {
    if s == [] then [""]
    else
      var before := SplitOn(isSep, s[..|s| - 1]);
      if isSep(s[|s| - 1]) then before + [""]
      else before[..|before| - 1] + [before[|before| - 1] + [s[|s| - 1]]]
  }

  function Pieces(a: Alphabet, query: string): (pieces: seq<string>) {
    SplitOn(c => !a.isAlnum(c), query)
  }

  /** `split_whitespace` and nothing between two spaces. */
  function Fields(a: Alphabet, query: string): (fields: seq<string>) {
    SplitOn(a.isWhite, query)
  }

  /** Lowercased, with a trailing plural `s` dropped. */
  function NormalizeWord(a: Alphabet, word: string): (r: string) {
    var w := a.lower(word);
    var stem := if w == [] then w else w[..|w| - 1];
    if w != [] && w[|w| - 1] == 's' && |stem| >= 3 && stem[|stem| - 1] != 's' then stem else w
  }

  predicate IsStop(a: Alphabet, raw: string) {
    IsStopWord(a.lower(raw))
  }

  /** Each word once, where it first appears. */
  function Distinct(words: seq<string>): (r: seq<string>) {
    if words == [] then []
    else
      var before := Distinct(words[..|words| - 1]);
      if words[|words| - 1] in before then before else before + [words[|words| - 1]]
  }

  /** The words of the pieces, all of them or those that mean something. */
  function WordsOf(a: Alphabet, pieces: seq<string>, meaningful: bool): (r: seq<string>) {
    if pieces == [] then []
    else
      var raw := pieces[|pieces| - 1];
      var before := WordsOf(a, pieces[..|pieces| - 1], meaningful);
      if raw == "" || (meaningful && IsStop(a, raw)) then before else before + [NormalizeWord(a, raw)]
  }

  /** The distinct words, without stop words unless nothing else is left. */
  function QueryTerms(a: Alphabet, query: string): (r: seq<string>) {
    var meaningful := Distinct(WordsOf(a, Pieces(a, query), true));
    if meaningful == [] then Distinct(WordsOf(a, Pieces(a, query), false)) else meaningful
  }

  method CollectTerms(a: Alphabet, query: string) returns (terms: seq<string>)
    ensures terms == QueryTerms(a, query)
  {
    hide IsStopWord, NormalizeWord, Distinct, Pieces;
    var pieces := Pieces(a, query);
    assert Distinct([]) == [] by { EmptyIsDistinct(); }
    var every: seq<string>, meaningful: seq<string> := [], [];
    for i := 0 to |pieces|
      invariant meaningful == Distinct(WordsOf(a, pieces[..i], true))
      invariant every == Distinct(WordsOf(a, pieces[..i], false))
    {
      assert pieces[..i + 1][..i] == pieces[..i];
      var raw := pieces[i];
      DistinctSnoc(WordsOf(a, pieces[..i], true), NormalizeWord(a, raw));
      DistinctSnoc(WordsOf(a, pieces[..i], false), NormalizeWord(a, raw));
      if raw == "" {
        continue;
      }
      var word := NormalizeWord(a, raw);
      if !IsStop(a, raw) && word !in meaningful {
        meaningful := meaningful + [word];
      }
      if word !in every {
        every := every + [word];
      }
    }
    assert pieces[..|pieces|] == pieces;
    terms := if meaningful == [] then every else meaningful;
  }

  lemma EmptyIsDistinct()
    ensures Distinct([]) == []
  {
  }

  lemma DistinctSnoc(words: seq<string>, word: string)
    ensures Distinct(words + [word]) == if word in Distinct(words) then Distinct(words) else Distinct(words) + [word]
  {
    assert (words + [word])[..|words|] == words;
  }

  // ----- punctuated words -----

  function SkipPunctuation(a: Alphabet, s: string): (r: string) {
    if s == [] || a.isAlnum(s[0]) then s else SkipPunctuation(a, s[1..])
  }

  function DropPunctuation(a: Alphabet, s: string): (r: string) {
    if s == [] || a.isAlnum(s[|s| - 1]) then s else DropPunctuation(a, s[..|s| - 1])
  }

  /** A field without the punctuation at both ends. */
  function Core(a: Alphabet, field: string): (r: string) {
    DropPunctuation(a, SkipPunctuation(a, field))
  }

  function PunctuatedOf(a: Alphabet, fields: seq<string>): (r: seq<string>) {
    if fields == [] then []
    else
      var core := Core(a, fields[|fields| - 1]);
      var before := PunctuatedOf(a, fields[..|fields| - 1]);
      if a.AllAlnum(core) then before else before + [a.lower(core)]
  }

  function PunctuatedWords(a: Alphabet, query: string): (r: seq<string>) {
    Distinct(PunctuatedOf(a, Fields(a, query)))
  }

  lemma NothingPunctuated(a: Alphabet)
    ensures PunctuatedOf(a, []) == []
  {
  }

  lemma PunctuatedSnoc(a: Alphabet, fields: seq<string>, field: string)
    ensures PunctuatedOf(a, fields + [field])
            == if a.AllAlnum(Core(a, field)) then PunctuatedOf(a, fields)
               else PunctuatedOf(a, fields) + [a.lower(Core(a, field))]
  {
    hide Core;
    assert (fields + [field])[..|fields|] == fields;
  }

  method CollectPunctuated(a: Alphabet, query: string) returns (found: seq<string>)
    ensures found == PunctuatedWords(a, query)
  {
    hide Distinct, Core, PunctuatedOf, Fields;
    var fields := Fields(a, query);
    found := [];
    EmptyIsDistinct();
    NothingPunctuated(a);
    assert fields[..0] == [];
    for i := 0 to |fields|
      invariant found == Distinct(PunctuatedOf(a, fields[..i]))
    {
      PunctuatedSnoc(a, fields[..i], fields[i]);
      assert fields[..i + 1] == fields[..i] + [fields[i]];
      var core := Core(a, fields[i]);
      DistinctSnoc(PunctuatedOf(a, fields[..i]), a.lower(core));
      if a.AllAlnum(core) {
        continue;
      }
      var word := a.lower(core);
      if word !in found {
        found := found + [word];
      }
    }
    assert fields[..|fields|] == fields;
  }

  // ----- what these are -----

  /** Where a word first appears. */
  function FirstAt(words: seq<string>, word: string): (k: nat)
    requires word in words
    ensures k < |words| && words[k] == word && word !in words[..k]
  {
    if word in words[..|words| - 1] then
      var k := FirstAt(words[..|words| - 1], word);
      assert words[..|words| - 1][..k] == words[..k];
      k
    else |words| - 1
  }

  /** No word is lost, none is kept twice, and they keep the order in which they
      first appear. */
  lemma {:induction false} DistinctKeepsWords(words: seq<string>)
    ensures forall w :: w in Distinct(words) <==> w in words
    ensures forall i, j :: 0 <= i < j < |Distinct(words)| ==>
              FirstAt(words, Distinct(words)[i]) < FirstAt(words, Distinct(words)[j])
  {
    if words != [] {
      var before, last := words[..|words| - 1], words[|words| - 1];
      DistinctKeepsWords(before);
      assert words == before + [last];
      forall w | w in before ensures FirstAt(words, w) == FirstAt(before, w) {
      }
      assert forall w :: w in words ==> w in before || w == last;
    }
  }

  /** A stop word is dropped whenever a word that means something is left, and
      only then. */
  lemma {:induction false} WordsOfHolds(a: Alphabet, pieces: seq<string>, meaningful: bool, word: string)
    ensures word in WordsOf(a, pieces, meaningful)
            <==> exists i :: 0 <= i < |pieces| && pieces[i] != "" && !(meaningful && IsStop(a, pieces[i]))
                             && NormalizeWord(a, pieces[i]) == word
  {
    hide NormalizeWord, IsStop;
    if pieces != [] {
      var before := pieces[..|pieces| - 1];
      WordsOfHolds(a, before, meaningful, word);
      assert forall i :: 0 <= i < |before| ==> before[i] == pieces[i];
    }
  }

  /** A punctuated word has a letter or digit at both ends and something that is
      neither in between. */
  lemma CoreOfPunctuated(a: Alphabet, field: string)
    requires !a.AllAlnum(Core(a, field))
    ensures var core := Core(a, field);
            && |core| >= 3 && a.isAlnum(core[0]) && a.isAlnum(core[|core| - 1])
            && exists i :: 0 < i < |core| - 1 && !a.isAlnum(core[i])
  {
    var s := SkipPunctuation(a, field);
    SkipStops(a, field);
    DropStops(a, s);
    var core := Core(a, field);
    var i :| 0 <= i < |core| && !a.isAlnum(core[i]);
    assert 0 < i < |core| - 1;
  }

  lemma {:induction false} SkipStops(a: Alphabet, s: string)
    ensures var r := SkipPunctuation(a, s); r != [] ==> a.isAlnum(r[0])
  {
    if s != [] && !a.isAlnum(s[0]) { SkipStops(a, s[1..]); }
  }

  lemma {:induction false} DropStops(a: Alphabet, s: string)
    ensures var r := DropPunctuation(a, s); r != [] ==> a.isAlnum(r[|r| - 1]) && r[0] == s[0]
  {
    if s != [] && !a.isAlnum(s[|s| - 1]) { DropStops(a, s[..|s| - 1]); }
  }

  /** Singular and plural are one word, so either finds the other. */
  lemma PluralIsFolded(a: Alphabet, word: string)
    requires a.lower(word) == word && a.lower(word + "s") == word + "s"
    requires |word| >= 3 && word[|word| - 1] != 's'
    ensures NormalizeWord(a, word + "s") == NormalizeWord(a, word) == word
  {
    assert (word + "s")[..|word|] == word;
  }

  // ----- adding stop words -----

  lemma SplitSnoc(isSep: char -> bool, s: string, c: char)
    ensures var before := SplitOn(isSep, s);
            SplitOn(isSep, s + [c])
            == if isSep(c) then before + [""] else before[..|before| - 1] + [before[|before| - 1] + [c]]
  {
    assert (s + [c])[..|s|] == s;
  }

  lemma SplitEmpty(isSep: char -> bool)
    ensures SplitOn(isSep, "") == [""]
  {
  }

  lemma {:induction false} SplitAcross(isSep: char -> bool, s: string, t: string)
    requires t != [] && isSep(t[0])
    ensures SplitOn(isSep, s + t) == SplitOn(isSep, s) + SplitOn(isSep, t[1..])
    decreases |t|
  {
    hide SplitOn;
    var u, c := t[..|t| - 1], t[|t| - 1];
    assert s + t == (s + u) + [c];
    SplitSnoc(isSep, s + u, c);
    if |t| == 1 {
      assert s + u == s && t[1..] == "";
      SplitEmpty(isSep);
    } else {
      SplitAcross(isSep, s, u);
      assert t[1..] == u[1..] + [c];
      SplitSnoc(isSep, u[1..], c);
      var x, y := SplitOn(isSep, s), SplitOn(isSep, u[1..]);
      assert (x + y)[..|x + y| - 1] == x + y[..|y| - 1];
    }
  }

  lemma {:induction false} WordsOfAppend(a: Alphabet, p: seq<string>, q: seq<string>, meaningful: bool)
    ensures WordsOf(a, p + q, meaningful) == WordsOf(a, p, meaningful) + WordsOf(a, q, meaningful)
    decreases |q|
  {
    hide NormalizeWord, IsStop;
    if q == [] {
      assert p + q == p;
    } else {
      WordsOfAppend(a, p, q[..|q| - 1], meaningful);
      assert (p + q)[..|p + q| - 1] == p + q[..|q| - 1];
    }
  }

  lemma {:induction false} PunctuatedAppend(a: Alphabet, p: seq<string>, q: seq<string>)
    ensures PunctuatedOf(a, p + q) == PunctuatedOf(a, p) + PunctuatedOf(a, q)
    decreases |q|
  {
    hide Core;
    if q == [] {
      assert p + q == p;
    } else {
      PunctuatedAppend(a, p, q[..|q| - 1]);
      assert (p + q)[..|p + q| - 1] == p + q[..|q| - 1];
    }
  }

  /** Text added after a space changes nothing about a query that means
      something, when it adds neither a word that means something nor a
      punctuated one. */
  lemma MeaninglessTailIsIgnored(a: Alphabet, query: string, tail: string)
    requires a.Lawful() && tail != [] && a.isWhite(tail[0])
    requires WordsOf(a, Pieces(a, query), true) != []
    requires WordsOf(a, Pieces(a, tail[1..]), true) == [] && PunctuatedOf(a, Fields(a, tail[1..])) == []
    ensures QueryTerms(a, query + tail) == QueryTerms(a, query)
    ensures PunctuatedWords(a, query + tail) == PunctuatedWords(a, query)
    ensures WordsOf(a, Pieces(a, query + tail), true) == WordsOf(a, Pieces(a, query), true)
  {
    hide WordsOf, PunctuatedOf, SplitOn;
    SplitAcross(c => !a.isAlnum(c), query, tail);
    SplitAcross(a.isWhite, query, tail);
    WordsOfAppend(a, Pieces(a, query), Pieces(a, tail[1..]), true);
    PunctuatedAppend(a, Fields(a, query), Fields(a, tail[1..]));
    assert WordsOf(a, Pieces(a, query), true) + [] == WordsOf(a, Pieces(a, query), true);
    assert PunctuatedOf(a, Fields(a, query)) + [] == PunctuatedOf(a, Fields(a, query));
    DistinctKeepsWords(WordsOf(a, Pieces(a, query), true));
    assert WordsOf(a, Pieces(a, query), true)[0] in Distinct(WordsOf(a, Pieces(a, query), true));
  }

  lemma {:induction false} SplitNothing(isSep: char -> bool, s: string)
    requires forall i :: 0 <= i < |s| ==> !isSep(s[i])
    ensures SplitOn(isSep, s) == [s]
  {
    if s != [] {
      SplitNothing(isSep, s[..|s| - 1]);
      assert s == s[..|s| - 1] + [s[|s| - 1]];
    }
  }

  /** The query with stop words typed after it. */
  function WithStopWords(query: string, stops: seq<string>): (r: string) {
    if stops == [] then query else WithStopWords(query, stops[..|stops| - 1]) + " " + stops[|stops| - 1]
  }

  /** Any number of stop words, in whatever case, added to a query that means
      something leave its terms and its punctuated words as they are. */
  lemma {:induction false} StopWordsChangeNothing(a: Alphabet, query: string, stops: seq<string>)
    requires a.Lawful() && (forall i :: 0 <= i < |stops| ==> IsStop(a, stops[i]) && a.AllAlnum(stops[i]))
    requires WordsOf(a, Pieces(a, query), true) != []
    ensures QueryTerms(a, WithStopWords(query, stops)) == QueryTerms(a, query)
    ensures PunctuatedWords(a, WithStopWords(query, stops)) == PunctuatedWords(a, query)
    ensures WordsOf(a, Pieces(a, WithStopWords(query, stops)), true) == WordsOf(a, Pieces(a, query), true)
    decreases |stops|
  {
    hide QueryTerms, PunctuatedWords, Pieces, WordsOf, IsStop, PunctuatedOf, Fields;
    if stops != [] {
      var before, stop := stops[..|stops| - 1], stops[|stops| - 1];
      StopWordsChangeNothing(a, query, before);
      StopWordAddsNothing(a, stop);
      var tail := " " + stop;
      assert tail[1..] == stop;
      MeaninglessTailIsIgnored(a, WithStopWords(query, before), tail);
      assert WithStopWords(query, stops) == WithStopWords(query, before) + tail;
    }
  }

  lemma StopWordAddsNothing(a: Alphabet, stop: string)
    requires a.Lawful() && IsStop(a, stop) && a.AllAlnum(stop)
    ensures WordsOf(a, Pieces(a, stop), true) == []
    ensures PunctuatedOf(a, Fields(a, stop)) == []
  {
    hide NormalizeWord, IsStopWord;
    SplitNothing(c => !a.isAlnum(c), stop);
    SplitNothing(a.isWhite, stop);
    assert [stop][..0] == [];
    AlnumCore(a, stop);
  }

  lemma AlnumCore(a: Alphabet, s: string)
    requires a.AllAlnum(s)
    ensures Core(a, s) == s
  {
  }
}

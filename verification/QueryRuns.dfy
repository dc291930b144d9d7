/** The words of a query as runs of letters and digits in the text typed
    (src/docs_bundle.rs:510-579). */
module QueryRuns {
  import opened QueryWords

  // ----- pieces -----

  /** `s[i..j]` has no separator, and none could be added to it. */
  ghost predicate IsRun(isSep: char -> bool, s: string, i: int, j: int) {
    && 0 <= i <= j <= |s|
    && (forall k :: i <= k < j ==> !isSep(s[k]))
    && (i == 0 || isSep(s[i - 1]))
    && (j == |s| || isSep(s[j]))
  }

  /** Where the last run begins. */
  function LastStart(isSep: char -> bool, s: string): (i: nat)
    ensures i <= |s|
  {
    if s == [] || isSep(s[|s| - 1]) then |s| else LastStart(isSep, s[..|s| - 1])
  }

  lemma {:induction false} LastIsRun(isSep: char -> bool, s: string)
    ensures IsRun(isSep, s, LastStart(isSep, s), |s|)
    ensures SplitOn(isSep, s)[|SplitOn(isSep, s)| - 1] == s[LastStart(isSep, s)..]
  {
    if s != [] {
      var u := s[..|s| - 1];
      LastIsRun(isSep, u);
      assert s == u + [s[|s| - 1]];
      if !isSep(s[|s| - 1]) {
        var i := LastStart(isSep, u);
        assert s[i..] == u[i..] + [s[|s| - 1]];
      }
    }
  }

  lemma {:induction false} OneLastRun(isSep: char -> bool, s: string, i: int)
    requires IsRun(isSep, s, i, |s|)
    ensures i == LastStart(isSep, s)
  {
    if s != [] && !isSep(s[|s| - 1]) {
      var u := s[..|s| - 1];
      assert forall k :: 0 <= k < |u| ==> u[k] == s[k];
      OneLastRun(isSep, u, i);
    }
  }

  ghost predicate IsEarlierRun(isSep: char -> bool, s: string, piece: string) {
    exists i, j :: IsRun(isSep, s, i, j) && j < |s| && s[i..j] == piece
  }

  lemma RunGoesOn(isSep: char -> bool, s: string, c: char, i: int, j: int)
    requires j < |s|
    ensures IsRun(isSep, s + [c], i, j) <==> IsRun(isSep, s, i, j)
    ensures 0 <= i <= j ==> (s + [c])[i..j] == s[i..j]
  {
    var t := s + [c];
    assert forall k :: 0 <= k < |s| ==> t[k] == s[k];
  }

  lemma EarlierSnoc(isSep: char -> bool, s: string, c: char, piece: string)
    ensures IsEarlierRun(isSep, s + [c], piece)
            <==> IsEarlierRun(isSep, s, piece) || (isSep(c) && piece == s[LastStart(isSep, s)..])
  {
    var t := s + [c];
    LastIsRun(isSep, s);
    if IsEarlierRun(isSep, t, piece) {
      var i, j :| IsRun(isSep, t, i, j) && j < |t| && t[i..j] == piece;
      if j < |s| {
        RunGoesOn(isSep, s, c, i, j);
      } else {
        assert forall k :: 0 <= k < |s| ==> t[k] == s[k];
        assert IsRun(isSep, s, i, |s|);
        OneLastRun(isSep, s, i);
        assert t[i..j] == s[i..];
      }
    }
    if IsEarlierRun(isSep, s, piece) {
      var i, j :| IsRun(isSep, s, i, j) && j < |s| && s[i..j] == piece;
      RunGoesOn(isSep, s, c, i, j);
    }
    if isSep(c) {
      var i := LastStart(isSep, s);
      assert forall k :: 0 <= k < |s| ==> t[k] == s[k];
      assert IsRun(isSep, t, i, |s|) && t[i..|s|] == s[i..];
    }
  }

  lemma {:induction false} EarlierPieces(isSep: char -> bool, s: string, piece: string)
    ensures var pieces := SplitOn(isSep, s);
            piece in pieces[..|pieces| - 1] <==> IsEarlierRun(isSep, s, piece)
  {
    hide IsEarlierRun, SplitOn, IsRun, LastStart;
    if s == [] {
      SplitEmpty(isSep);
      NoEarlierRun(isSep, piece);
    } else {
      var u, c := s[..|s| - 1], s[|s| - 1];
      EarlierPieces(isSep, u, piece);
      EarlierSnoc(isSep, u, c, piece);
      LastIsRun(isSep, u);
      assert s == u + [c];
      SplitSnoc(isSep, u, c);
      FrontOfSplit(SplitOn(isSep, u), SplitOn(isSep, s), isSep(c), piece);
    }
  }

  lemma NoEarlierRun(isSep: char -> bool, piece: string)
    ensures !IsEarlierRun(isSep, "", piece)
  {
  }

  lemma FrontOfSplit(before: seq<string>, after: seq<string>, ended: bool, piece: string)
    requires before != [] && after != []
    requires if ended then after == before + [""]
             else |after| == |before| && after[..|after| - 1] == before[..|before| - 1]
    ensures piece in after[..|after| - 1]
            <==> piece in before[..|before| - 1] || (ended && piece == before[|before| - 1])
  {
    assert before == before[..|before| - 1] + [before[|before| - 1]];
    assert ended ==> after[..|after| - 1] == before;
  }

  /** The pieces are the runs between separators, the empty ones included. */
  lemma PieceIff(isSep: char -> bool, s: string, piece: string)
    ensures piece in SplitOn(isSep, s) <==> exists i, j :: IsRun(isSep, s, i, j) && s[i..j] == piece
  {
    hide SplitOn;
    var pieces := SplitOn(isSep, s);
    EarlierPieces(isSep, s, piece);
    LastIsRun(isSep, s);
    assert pieces == pieces[..|pieces| - 1] + [pieces[|pieces| - 1]];
    if exists i, j :: IsRun(isSep, s, i, j) && s[i..j] == piece {
      var i, j :| IsRun(isSep, s, i, j) && s[i..j] == piece;
      if j == |s| { OneLastRun(isSep, s, i); } else { assert IsEarlierRun(isSep, s, piece); }
    }
    if piece == s[LastStart(isSep, s)..] {
      assert s[LastStart(isSep, s)..|s|] == piece;
    }
  }

  // ----- terms -----

  /** A run of letters and digits in the query. */
  ghost predicate IsRawWord(a: Alphabet, query: string, raw: string) {
    raw != "" && exists i, j :: IsRun(c => !a.isAlnum(c), query, i, j) && query[i..j] == raw
  }

  lemma RawWordIff(a: Alphabet, query: string, raw: string)
    ensures IsRawWord(a, query, raw) <==> raw != "" && raw in Pieces(a, query)
  {
    PieceIff(c => !a.isAlnum(c), query, raw);
  }

  /** A word lowercased; of a plural in `s`, not `ss`, the stem if it has three
      letters or more. */
  lemma NormalizedIs(a: Alphabet, word: string)
    ensures forall stem :: a.lower(word) == stem + "s" && |stem| >= 3 && stem[|stem| - 1] != 's' ==>
              NormalizeWord(a, word) == stem
    ensures (forall stem :: a.lower(word) == stem + "s" ==> |stem| < 3 || stem[|stem| - 1] == 's') ==>
              NormalizeWord(a, word) == a.lower(word)
  {
    var w := a.lower(word);
    if w != [] {
      assert w == w[..|w| - 1] + [w[|w| - 1]];
      assert w[|w| - 1] == 's' ==> w == w[..|w| - 1] + "s";
    }
    forall stem | w == stem + "s" ensures w[..|w| - 1] == stem && w[|w| - 1] == 's' {
      assert (stem + "s")[..|stem|] == stem;
    }
  }

  lemma WordIff(a: Alphabet, query: string, meaningful: bool, word: string)
    ensures word in WordsOf(a, Pieces(a, query), meaningful)
            <==> exists raw :: IsRawWord(a, query, raw) && !(meaningful && IsStop(a, raw))
                               && NormalizeWord(a, raw) == word
  {
    hide IsStop, NormalizeWord, IsRawWord, Pieces, WordsOf;
    var pieces := Pieces(a, query);
    WordsOfHolds(a, pieces, meaningful, word);
    if word in WordsOf(a, pieces, meaningful) {
      var i :| 0 <= i < |pieces| && pieces[i] != "" && !(meaningful && IsStop(a, pieces[i]))
               && NormalizeWord(a, pieces[i]) == word;
      RawWordIff(a, query, pieces[i]);
    }
    if exists raw :: IsRawWord(a, query, raw) && !(meaningful && IsStop(a, raw)) && NormalizeWord(a, raw) == word {
      var raw :| IsRawWord(a, query, raw) && !(meaningful && IsStop(a, raw)) && NormalizeWord(a, raw) == word;
      RawWordIff(a, query, raw);
      var i :| 0 <= i < |pieces| && pieces[i] == raw;
    }
  }

  /** A query is searched by the words that are no stop words, or, if all of them
      are, by all of them. */
  lemma TermIff(a: Alphabet, query: string, word: string)
    ensures word in QueryTerms(a, query)
            <==> exists raw :: && IsRawWord(a, query, raw) && NormalizeWord(a, raw) == word
                               && (|| !IsStop(a, raw)
                                   || forall other :: IsRawWord(a, query, other) ==> IsStop(a, other))
  {
    hide IsStop, NormalizeWord, IsRawWord, Pieces, WordsOf, Distinct;
    var some, all := WordsOf(a, Pieces(a, query), true), WordsOf(a, Pieces(a, query), false);
    DistinctKeepsWords(some);
    DistinctKeepsWords(all);
    WordIff(a, query, true, word);
    WordIff(a, query, false, word);
    if forall other :: IsRawWord(a, query, other) ==> IsStop(a, other) {
      if some != [] { WordIff(a, query, true, some[0]); }
      EmptyIsDistinct();
    } else {
      var other :| IsRawWord(a, query, other) && !IsStop(a, other);
      WordIff(a, query, true, NormalizeWord(a, other));
      assert NormalizeWord(a, other) in Distinct(some);
    }
  }

  // ----- punctuated words -----

  ghost predicate AllPunctuation(a: Alphabet, s: string) {
    forall i :: 0 <= i < |s| ==> !a.isAlnum(s[i])
  }

  lemma {:induction false} SkippedIs(a: Alphabet, s: string) returns (lead: string)
    ensures s == lead + SkipPunctuation(a, s) && AllPunctuation(a, lead)
  {
    if s == [] || a.isAlnum(s[0]) {
      lead := "";
    } else {
      var rest := SkippedIs(a, s[1..]);
      lead := [s[0]] + rest;
    }
  }

  lemma {:induction false} DroppedIs(a: Alphabet, s: string) returns (tail: string)
    ensures s == DropPunctuation(a, s) + tail && AllPunctuation(a, tail)
  {
    if s == [] || a.isAlnum(s[|s| - 1]) {
      tail := "";
    } else {
      var rest := DroppedIs(a, s[..|s| - 1]);
      tail := rest + [s[|s| - 1]];
    }
  }

  /** The core is what is left of a field between the punctuation at its ends. */
  lemma CoreIs(a: Alphabet, field: string) returns (lead: string, tail: string)
    ensures field == lead + Core(a, field) + tail && AllPunctuation(a, lead) && AllPunctuation(a, tail)
    ensures var core := Core(a, field); core != "" ==> a.isAlnum(core[0]) && a.isAlnum(core[|core| - 1])
  {
    lead := SkippedIs(a, field);
    tail := DroppedIs(a, SkipPunctuation(a, field));
    SkipStops(a, field);
    DropStops(a, SkipPunctuation(a, field));
  }

  lemma {:induction false} PunctuatedHolds(a: Alphabet, fields: seq<string>, word: string)
    ensures word in PunctuatedOf(a, fields)
            <==> exists i :: 0 <= i < |fields| && !a.AllAlnum(Core(a, fields[i])) && a.lower(Core(a, fields[i])) == word
  {
    hide Core;
    if fields != [] {
      var before := fields[..|fields| - 1];
      PunctuatedHolds(a, before, word);
      assert forall i :: 0 <= i < |before| ==> before[i] == fields[i];
    }
  }

  /** A run of the query without white space. */
  ghost predicate IsField(a: Alphabet, query: string, field: string) {
    exists i, j :: IsRun(a.isWhite, query, i, j) && query[i..j] == field
  }

  lemma FieldIff(a: Alphabet, query: string, field: string)
    ensures IsField(a, query, field) <==> field in Fields(a, query)
  {
    PieceIff(a.isWhite, query, field);
  }

  /** The punctuated words are the lowercased cores, not all letters and digits, of
      the runs without white space. */
  lemma PunctuatedIff(a: Alphabet, query: string, word: string)
    ensures word in PunctuatedWords(a, query)
            <==> exists field :: && IsField(a, query, field) && !a.AllAlnum(Core(a, field))
                                 && a.lower(Core(a, field)) == word
  {
    hide Core, PunctuatedOf, IsField, Distinct, Fields;
    var fields := Fields(a, query);
    DistinctKeepsWords(PunctuatedOf(a, fields));
    PunctuatedHolds(a, fields, word);
    if word in PunctuatedOf(a, fields) {
      var k :| 0 <= k < |fields| && !a.AllAlnum(Core(a, fields[k])) && a.lower(Core(a, fields[k])) == word;
      FieldIff(a, query, fields[k]);
    }
    if exists field :: IsField(a, query, field) && !a.AllAlnum(Core(a, field)) && a.lower(Core(a, field)) == word {
      var field :| IsField(a, query, field) && !a.AllAlnum(Core(a, field)) && a.lower(Core(a, field)) == word;
      FieldIff(a, query, field);
      var k :| 0 <= k < |fields| && fields[k] == field;
    }
  }
}

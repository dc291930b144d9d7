/** Cutting a line of the manual around a match
    (src/docs_bundle.rs:183, 653-676). */
module Excerpts {
  import opened Utf8

  const EXCERPT_CHARS: nat := 240

  /** `…` */
  const ELLIPSIS: Bytes := [0xE2, 0x80, 0xA6]

  /** Where the chars before byte `n` start: at every byte that does not continue
      one. */
  function Starts(s: Bytes, n: nat): (r: seq<nat>)
    requires n <= |s|
    ensures forall i :: 0 <= i < |r| ==> r[i] < n
  {
    if n == 0 then []
    else Starts(s, n - 1) + (if IsContinuation(s[n - 1]) then [] else [n - 1])
  }

  function CharCount(s: Bytes): (n: nat) {
    |Starts(s, |s|)|
  }

  /** The first char at or after byte `at`, or else the first of all. */
  function CharAt(starts: seq<nat>, at: nat, i: nat): (k: nat)
    requires i <= |starts|
    ensures starts != [] ==> k < |starts|
    decreases |starts| - i
  {
    if i == |starts| then 0 else if starts[i] >= at then i else CharAt(starts, at, i + 1)
  }

  /** The first char shown of a line of `n`: 80 before the match, unless that
      leaves too few after it. */
  function CutStart(matched: nat, n: nat): (start: nat)
    requires n > EXCERPT_CHARS
    ensures start + EXCERPT_CHARS <= n
  {
    var before := if matched < EXCERPT_CHARS / 3 then 0 else matched - EXCERPT_CHARS / 3;
    if before <= n - EXCERPT_CHARS then before else n - EXCERPT_CHARS
  }

  /** The byte where char `k` starts, or the end of the line. */
  function ByteOf(line: Bytes, k: nat): (r: nat)
    requires k <= CharCount(line)
    ensures r <= |line| && IsBoundary(line, r)
  {
    StartsAreBoundaries(line, |line|);
    var starts := Starts(line, |line|);
    if k < |starts| then starts[k] else |line|
  }

  function Clip(line: Bytes, at: nat): (r: Bytes) {
    var n := CharCount(line);
    if n <= EXCERPT_CHARS then line
    else
      var start := CutStart(CharAt(Starts(line, |line|), at, 0), n);
      var end := start + EXCERPT_CHARS;
      ByteOfMonotone(line, start, end);
      (if start > 0 then ELLIPSIS else [])
      + Trim(Slice(line, ByteOf(line, start), ByteOf(line, end)))
      + (if end < n then ELLIPSIS else [])
  }

  // ----- counting chars -----

  lemma {:induction false} StartsAreBoundaries(s: Bytes, n: nat)
    requires n <= |s|
    ensures forall i :: 0 <= i < |Starts(s, n)| ==> Starts(s, n)[i] < n && !IsContinuation(s[Starts(s, n)[i]])
    ensures forall i, j :: 0 <= i < j < |Starts(s, n)| ==> Starts(s, n)[i] < Starts(s, n)[j]
  {
    if n > 0 { StartsAreBoundaries(s, n - 1); }
  }

  lemma NextBoundary(s: Bytes, k: nat, i: nat)
    requires k < CharCount(s) && ByteOf(s, k) < i <= |s| && IsBoundary(s, i)
    ensures ByteOf(s, k + 1) <= i
  {
    StartsAreBoundaries(s, |s|);
    if i < |s| { EveryBoundaryIsAStart(s, |s|, i); }
  }

  /** In a valid string what starts at one of these and ends before the next is
      one whole char. */
  lemma StartsAreChars(s: Bytes, k: nat)
    requires IsValid(s) && k < CharCount(s)
    ensures ByteOf(s, k) < ByteOf(s, k + 1)
    ensures CharLen(s[ByteOf(s, k)..]) == ByteOf(s, k + 1) - ByteOf(s, k)
  {
    hide IsValid, CharLen;
    StartsAreBoundaries(s, |s|);
    var from, to := ByteOf(s, k), ByteOf(s, k + 1);
    var rest := s[from..];
    ValidSplit(s, from);
    FirstOfValid(rest);
    RestIsBoundary(rest);
    NextBoundary(s, k, from + CharLen(rest));
    if to < from + CharLen(rest) { FirstCharHasNoInnerBoundary(rest, to - from); }
  }

  lemma FirstOfValid(s: Bytes)
    requires IsValid(s) && s != []
    ensures CharLen(s) > 0
  {
  }

  lemma RestIsBoundary(s: Bytes)
    requires IsValid(s) && s != []
    ensures IsBoundary(s, CharLen(s))
  {
  }

  lemma {:induction false} EveryBoundaryIsAStart(s: Bytes, n: nat, i: nat)
    requires i < n <= |s| && !IsContinuation(s[i])
    ensures |Starts(s, i)| < |Starts(s, n)| && Starts(s, n)[|Starts(s, i)|] == i
  {
    if i < n - 1 { EveryBoundaryIsAStart(s, n - 1, i); }
  }

  lemma {:induction false} StartsOfPrefix(s: Bytes, t: Bytes, n: nat)
    requires n <= |s| && n <= |t| && s[..n] == t[..n]
    ensures Starts(s, n) == Starts(t, n)
  {
    if n > 0 {
      assert s[..n - 1] == s[..n][..n - 1] == t[..n - 1];
      assert s[n - 1] == s[..n][n - 1] == t[n - 1];
      StartsOfPrefix(s, t, n - 1);
    }
  }

  lemma {:induction false} CountAppend(s: Bytes, t: Bytes)
    ensures CharCount(s + t) == CharCount(s) + CharCount(t)
    decreases |t|
  {
    if t == [] {
      assert s + t == s;
    } else {
      var u := t[..|t| - 1];
      CountAppend(s, u);
      StartsOfPrefix(s + t, s + u, |s + u|);
      StartsOfPrefix(t, u, |u|);
    }
  }

  lemma ByteOfMonotone(line: Bytes, i: nat, j: nat)
    requires i <= j <= CharCount(line)
    ensures ByteOf(line, i) <= ByteOf(line, j)
  {
    StartsAreBoundaries(line, |line|);
  }

  /** As many chars start before char `k` as its number says. */
  lemma CountBefore(line: Bytes, k: nat)
    requires k <= CharCount(line)
    ensures CharCount(line[..ByteOf(line, k)]) == k
  {
    var at := ByteOf(line, k);
    StartsAreBoundaries(line, |line|);
    StartsOfPrefix(line[..at], line, at);
    if at < |line| {
      EveryBoundaryIsAStart(line, |line|, at);
    } else {
      assert line[..at] == line;
    }
  }

  lemma CountBetween(line: Bytes, i: nat, j: nat)
    requires i <= j <= CharCount(line)
    ensures ByteOf(line, i) <= ByteOf(line, j)
    ensures CharCount(line[ByteOf(line, i)..ByteOf(line, j)]) == j - i
  {
    hide CharCount, ByteOf;
    ByteOfMonotone(line, i, j);
    CountBefore(line, i);
    CountBefore(line, j);
    var from, to := ByteOf(line, i), ByteOf(line, j);
    assert line[..to] == line[..from] + line[from..to];
    CountAppend(line[..from], line[from..to]);
  }

  lemma TrimCounts(s: Bytes)
    ensures CharCount(Trim(s)) <= CharCount(s)
  {
    hide CharCount, TrimStart, TrimEnd;
    var t := TrimStart(s);
    assert s == s[..|s| - |t|] + t;
    CountAppend(s[..|s| - |t|], t);
    var r := TrimEnd(t);
    assert t == r + t[|r|..];
    CountAppend(r, t[|r|..]);
  }

  // ----- how long an excerpt gets -----

  lemma EllipsisIsOneChar()
    ensures CharCount(ELLIPSIS) == 1 && CharCount([]) == 0 && IsValid(ELLIPSIS)
  {
    assert ELLIPSIS[3..] == [];
    assert Starts(ELLIPSIS, 1) == [0];
    assert Starts(ELLIPSIS, 2) == [0];
  }

  /** Wherever it is cut, an excerpt is a valid string of at most 242 chars, and a
      line short enough is shown as it is. */
  lemma ClipIsShort(line: Bytes, at: nat)
    requires IsValid(line)
    ensures IsValid(Clip(line, at)) && CharCount(Clip(line, at)) <= EXCERPT_CHARS + 2
    ensures CharCount(line) <= EXCERPT_CHARS ==> Clip(line, at) == line
  {
    hide IsValid, CharCount, Starts, ByteOf, CutStart, CharAt, Trim;
    var n := CharCount(line);
    if n > EXCERPT_CHARS {
      EllipsisIsOneChar();
      StartsNotEmpty(line);
      var start := CutStart(CharAt(Starts(line, |line|), at, 0), n);
      var end := start + EXCERPT_CHARS;
      CountBetween(line, start, end);
      var shown := Slice(line, ByteOf(line, start), ByteOf(line, end));
      TrimCounts(shown);
      var head: Bytes := if start > 0 then ELLIPSIS else [];
      var tail: Bytes := if end < n then ELLIPSIS else [];
      EmptyIsValid();
      CountAppend(head, Trim(shown));
      CountAppend(head + Trim(shown), tail);
      ValidAppend(head, Trim(shown));
      ValidAppend(head + Trim(shown), tail);
    }
  }

  lemma StartsNotEmpty(line: Bytes)
    ensures CharCount(line) == |Starts(line, |line|)|
  {
  }

  // ----- what survives the cut -----

  /** Trimming takes nothing from a word that neither begins nor ends in white
      space, wherever it stands. */
  lemma {:induction false} TrimStartKeeps(a: Bytes, word: Bytes, b: Bytes) returns (kept: Bytes)
    requires IsValid(a) && IsValid(word) && word != [] && WhiteHead(word) == 0
    ensures TrimStart(a + word + b) == kept + word + b
    decreases |a|
  {
    var s := a + word + b;
    if a == [] {
      assert s == word + b;
      CharLenPrefix(word, b);
      return [];
    }
    CharLenPrefix(a, word + b);
    assert s == a + (word + b);
    var n := WhiteHead(s);
    if n == 0 { return a; }
    assert s[n..] == a[n..] + word + b;
    kept := TrimStartKeeps(a[n..], word, b);
  }

  lemma TailStaysInside(s: Bytes, b: Bytes)
    requires b != [] && !IsContinuation(b[0])
    ensures WhiteTail(s + b) <= |b| && IsBoundary(b, |b| - WhiteTail(s + b))
  {
  }

  lemma {:induction false} TrimEndKeeps(a: Bytes, word: Bytes, b: Bytes) returns (kept: Bytes)
    requires IsValid(word) && IsValid(b) && word != [] && WhiteTail(word) == 0
    ensures TrimEnd(a + word + b) == a + word + kept
    decreases |b|
  {
    hide IsValid, WhiteTail, IsBoundary, IsContinuation;
    var s := a + word + b;
    var n := WhiteTail(s);
    if b == [] {
      assert s == a + word;
      FirstIsNoContinuation(word);
      TailOfAppend(a, word);
      return [];
    }
    if n == 0 { return b; }
    FirstIsNoContinuation(b);
    TailStaysInside(a + word, b);
    var c := b[..|b| - n];
    ValidSplit(b, |b| - n);
    assert s[..|s| - n] == a + word + c;
    kept := TrimEndKeeps(a, word, c);
  }

  lemma FirstIsNoContinuation(s: Bytes)
    requires IsValid(s) && s != []
    ensures !IsContinuation(s[0])
  {
  }

  lemma TailOfAppend(a: Bytes, word: Bytes)
    requires word != [] && !IsContinuation(word[0]) && WhiteTail(word) == 0
    ensures WhiteTail(a + word) == 0
  {
  }

  /** The char a word starts with is the one the cut is made around. */
  lemma {:induction false} CharAtFinds(starts: seq<nat>, at: nat, i: nat, m: nat)
    requires i <= m < |starts| && starts[m] == at
    requires forall j, k :: 0 <= j < k < |starts| ==> starts[j] < starts[k]
    ensures CharAt(starts, at, i) == m
    decreases |starts| - i
  {
    if i < m { CharAtFinds(starts, at, i + 1, m); }
  }

  lemma CountMonotone(s: Bytes, i: nat, j: nat)
    requires i < j <= |s| && !IsContinuation(s[i])
    ensures CharCount(s[..i]) < CharCount(s[..j])
  {
    StartsOfPrefix(s[..i], s, i);
    StartsOfPrefix(s[..j], s, j);
    EveryBoundaryIsAStart(s, j, i);
  }

  /** A byte position with no more than `k` chars before it lies before char `k`. */
  lemma FewCharsBefore(line: Bytes, to: nat, k: nat)
    requires to <= |line| && k <= CharCount(line) && CharCount(line[..to]) <= k
    ensures to <= ByteOf(line, k)
  {
    hide CharCount, ByteOf;
    CountBefore(line, k);
    if to > ByteOf(line, k) { CountMonotone(line, ByteOf(line, k), to); }
  }

  lemma CharAtIsCount(line: Bytes, at: nat)
    requires at < |line| && IsBoundary(line, at)
    ensures CharCount(line[..at]) < CharCount(line)
    ensures CharAt(Starts(line, |line|), at, 0) == CharCount(line[..at])
    ensures ByteOf(line, CharCount(line[..at])) == at
  {
    StartsAreBoundaries(line, |line|);
    EveryBoundaryIsAStart(line, |line|, at);
    StartsOfPrefix(line[..at], line, at);
    CharAtFinds(Starts(line, |line|), at, 0, |Starts(line, at)|);
  }

  /** The cut takes in all of the word. */
  lemma WordIsInCut(line: Bytes, at: nat, to: nat)
    requires IsValid(line) && at < to <= |line| && IsBoundary(line, at) && IsBoundary(line, to)
    requires CharCount(line[at..to]) <= 160 && CharCount(line) > EXCERPT_CHARS
    ensures var start := CutStart(CharAt(Starts(line, |line|), at, 0), CharCount(line));
            ByteOf(line, start) <= at && to <= ByteOf(line, start + EXCERPT_CHARS)
  {
    hide IsValid, CharCount, ByteOf, Starts;
    CharAtIsCount(line, at);
    var m := CharCount(line[..at]);
    var start := CutStart(m, CharCount(line));
    ByteOfMonotone(line, start, m);
    assert line[..to] == line[..at] + line[at..to];
    CountAppend(line[..at], line[at..to]);
    assert line == line[..to] + line[to..];
    CountAppend(line[..to], line[to..]);
    FewCharsBefore(line, to, start + EXCERPT_CHARS);
  }

  lemma TrimKeeps(a: Bytes, word: Bytes, b: Bytes) returns (left: Bytes, right: Bytes)
    requires IsValid(a) && IsValid(word) && IsValid(b)
    requires word != [] && WhiteHead(word) == 0 && WhiteTail(word) == 0
    ensures Trim(a + word + b) == left + word + right
  {
    hide IsValid, TrimStart, TrimEnd;
    left := TrimStartKeeps(a, word, b);
    right := TrimEndKeeps(left, word, b);
  }

  /** What is shown between the ellipses. */
  function Cut(line: Bytes, at: nat): (r: Bytes)
    requires CharCount(line) > EXCERPT_CHARS
  {
    var start := CutStart(CharAt(Starts(line, |line|), at, 0), CharCount(line));
    ByteOfMonotone(line, start, start + EXCERPT_CHARS);
    Slice(line, ByteOf(line, start), ByteOf(line, start + EXCERPT_CHARS))
  }

  lemma CutHolds(line: Bytes, at: nat, to: nat) returns (left: Bytes, right: Bytes)
    requires IsValid(line) && at < to <= |line| && IsBoundary(line, at) && IsBoundary(line, to)
    requires CharCount(line[at..to]) <= 160 && CharCount(line) > EXCERPT_CHARS
    ensures Cut(line, at) == left + line[at..to] + right && IsValid(left) && IsValid(right)
  {
    hide IsValid, IsBoundary, CharCount, Starts, ByteOf, CutStart, CharAt;
    WordIsInCut(line, at, to);
    var start := CutStart(CharAt(Starts(line, |line|), at, 0), CharCount(line));
    StartsNotEmpty(line);
    ByteOfMonotone(line, start, start + EXCERPT_CHARS);
    left, right := AroundWord(line, ByteOf(line, start), at, to, ByteOf(line, start + EXCERPT_CHARS));
  }

  lemma AroundWord(line: Bytes, from: nat, at: nat, to: nat, upTo: nat) returns (left: Bytes, right: Bytes)
    requires IsValid(line) && from <= at <= to <= upTo <= |line|
    requires IsBoundary(line, from) && IsBoundary(line, at) && IsBoundary(line, to) && IsBoundary(line, upTo)
    ensures line[from..upTo] == left + line[at..to] + right && IsValid(left) && IsValid(right)
  {
    hide IsValid, IsBoundary;
    PartsAreValid(line, from, at, to, upTo);
    left, right := line[from..at], line[to..upTo];
  }

  lemma ClipOfCut(line: Bytes, at: nat) returns (head: Bytes, tail: Bytes)
    requires CharCount(line) > EXCERPT_CHARS
    ensures Clip(line, at) == head + Trim(Cut(line, at)) + tail
  {
    hide CharCount, Starts, ByteOf, CutStart, CharAt, Trim;
    StartsNotEmpty(line);
    var start := CutStart(CharAt(Starts(line, |line|), at, 0), CharCount(line));
    head := if start > 0 then ELLIPSIS else [];
    tail := if start + EXCERPT_CHARS < CharCount(line) then ELLIPSIS else [];
  }

  /** A matched word of up to 160 chars is shown whole, wherever in the line it
      stands. */
  lemma MatchSurvives(line: Bytes, at: nat, to: nat) returns (before: Bytes, after: Bytes)
    requires IsValid(line) && at < to <= |line| && IsBoundary(line, at) && IsBoundary(line, to)
    requires CharCount(line[at..to]) <= 160
    requires WhiteHead(line[at..to]) == 0 && WhiteTail(line[at..to]) == 0
    ensures Clip(line, at) == before + line[at..to] + after
  {
    hide IsValid, CharCount, Trim, Cut, WhiteHead, WhiteTail;
    var word := line[at..to];
    if CharCount(line) <= EXCERPT_CHARS {
      before, after := line[..at], line[to..];
      assert line == line[..at] + word + line[to..];
    } else {
      hide Clip;
      PartsAreValid(line, at, at, to, to);
      var a, b := CutHolds(line, at, to);
      var left, right := TrimKeeps(a, word, b);
      var head, tail := ClipOfCut(line, at);
      before, after := head + left, right + tail;
      assert head + (left + word + right) + tail == before + word + after;
    }
  }

  lemma PartsAreValid(line: Bytes, a: nat, b: nat, c: nat, d: nat)
    requires IsValid(line) && a <= b <= c <= d <= |line|
    requires IsBoundary(line, a) && IsBoundary(line, b) && IsBoundary(line, c) && IsBoundary(line, d)
    ensures IsValid(line[a..b]) && IsValid(line[b..c]) && IsValid(line[c..d])
  {
    hide IsValid;
    var _ := Slice(line, a, b);
    var _ := Slice(line, b, c);
    var _ := Slice(line, c, d);
  }

  /** What is shown of a line of more than 240 chars: 240 of them, of which the 80
      before the match come first, or all there are if it has fewer, or the more
      the nearer it is to the end; an ellipsis on each side that was cut, and no
      white space at the ends. */
  lemma ContextComesFirst(line: Bytes, at: nat) returns (from: nat, to: nat)
    requires IsValid(line) && at < |line| && IsBoundary(line, at) && CharCount(line) > 240
    ensures from <= at < to <= |line| && IsBoundary(line, from) && IsBoundary(line, to)
    ensures CharCount(line[from..to]) == 240
    ensures var before, after := CharCount(line[..at]), CharCount(line[at..]);
            && (before < 80 ==> from == 0)
            && (before >= 80 && after >= 160 ==> CharCount(line[from..at]) == 80)
            && (after < 160 ==> to == |line|)
    ensures var ellipsis: Bytes := [0xE2, 0x80, 0xA6];
            Clip(line, at)
            == (if from > 0 then ellipsis else []) + Trim(line[from..to]) + (if to < |line| then ellipsis else [])
  {
    hide IsValid, IsBoundary, Starts, Trim;
    CharAtIsCount(line, at);
    var m, n := CharCount(line[..at]), CharCount(line);
    assert line == line[..at] + line[at..];
    CountAppend(line[..at], line[at..]);
    var start := CutStart(m, n);
    from, to := ByteOf(line, start), ByteOf(line, start + EXCERPT_CHARS);
    hide CharCount, ByteOf;
    CountBetween(line, start, start + EXCERPT_CHARS);
    CountBetween(line, start, m);
    PlaceIs(line, start);
    PlaceIs(line, start + EXCERPT_CHARS);
    PlaceGrows(line, m, start + EXCERPT_CHARS);
  }

  lemma PlaceIs(line: Bytes, k: nat)
    requires IsValid(line) && k <= CharCount(line)
    ensures ByteOf(line, k) == 0 <==> k == 0
    ensures ByteOf(line, k) == |line| <==> k == CharCount(line)
  {
    hide IsValid;
    CountBefore(line, k);
    assert line[..0] == [] && line[..|line|] == line;
    if k == 0 && line != [] { FirstIsNoContinuation(line); EveryBoundaryIsAStart(line, |line|, 0); }
  }

  lemma PlaceGrows(line: Bytes, i: nat, j: nat)
    requires i < j <= CharCount(line)
    ensures ByteOf(line, i) < ByteOf(line, j)
  {
    StartsAreBoundaries(line, |line|);
  }
}

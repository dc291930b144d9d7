/** What rewriting a page's links cannot change: the lines, which of them are
    code, and everything outside a resolved link
    (src/docs_bundle.rs:440-461, 692-706, 781-855). */
module ManualStructure {
  import opened Prelude
  import opened Utf8
  import opened ManualLinks
  import opened Wikilinks
  import opened ManualPages

  // ----- two destinations, one skeleton -----

  /** A stretch of the output: copied text, or a resolved link still without
      its destination. */
  datatype Piece = Copied(text: Bytes) | Spot(parts: LinkParts)

  function Fill(pieces: seq<Piece>, destination: Destination): (r: Bytes) {
    if pieces == [] then []
    else
      (match pieces[0] case Copied(text) => text case Spot(parts) => Shown(parts, destination))
      + Fill(pieces[1..], destination)
  }

  function LinePieces(segments: seq<Segment>, site: Site): (r: seq<Piece>) {
    if segments == [] then []
    else
      [match Replacement(segments[0], site) case Some(parts) => Spot(parts) case None => Copied(Source(segments[0]))]
      + LinePieces(segments[1..], site)
  }

  function PagePieces(lines: seq<Bytes>, flags: seq<bool>, site: Site): (r: seq<Piece>)
    requires |flags| == |lines|
  {
    if lines == [] then []
    else
      (if flags[0] then [Copied(lines[0])] else LinePieces(Parse(lines[0], 0), site))
      + PagePieces(lines[1..], flags[1..], site)
  }

  lemma {:induction false} FillAppend(a: seq<Piece>, b: seq<Piece>, destination: Destination)
    ensures Fill(a + b, destination) == Fill(a, destination) + Fill(b, destination)
  {
    hide Shown;
    if a == [] {
      assert a + b == b;
    } else {
      assert (a + b)[1..] == a[1..] + b;
      FillAppend(a[1..], b, destination);
    }
  }

  lemma {:induction false} RenderIsFill(segments: seq<Segment>, site: Site, destination: Destination)
    ensures Render(segments, site, destination) == Fill(LinePieces(segments, site), destination)
  {
    hide Shown, Source, PartsOf;
    if segments != [] {
      RenderIsFill(segments[1..], site, destination);
      assert LinePieces(segments, site)[1..] == LinePieces(segments[1..], site);
    }
  }

  /** The page's output is one skeleton, built without the destination, filled
      in: two destinations give outputs that differ only in the filled spots. */
  lemma {:induction false} PageIsFill(lines: seq<Bytes>, flags: seq<bool>, site: Site, destination: Destination)
    requires |flags| == |lines|
    ensures Join(RewriteLines(lines, flags, site, destination)) == Fill(PagePieces(lines, flags, site), destination)
  {
    hide Parse, Render, LinePieces, Shown;
    if lines != [] {
      var rest := RewriteLines(lines[1..], flags[1..], site, destination);
      assert RewriteLines(lines, flags, site, destination)[1..] == rest;
      PageIsFill(lines[1..], flags[1..], site, destination);
      if flags[0] {
        assert [Copied(lines[0])][1..] == [];
        FillAppend([Copied(lines[0])], PagePieces(lines[1..], flags[1..], site), destination);
      } else {
        RenderIsFill(Parse(lines[0], 0), site, destination);
        FillAppend(LinePieces(Parse(lines[0], 0), site), PagePieces(lines[1..], flags[1..], site), destination);
      }
    }
  }

  // ----- lines and fences survive -----

  /** The link gets an address, without a newline. */
  predicate HasAddress(parts: LinkParts, destination: Destination) {
    var address := destination(parts.name, parts.anchor);
    address.Some? && NewlineFree(address.value)
  }

  /** A byte that ends whatever a fence marker might be: graphic ASCII, and neither
      of the two markers. */
  predicate IsSolid(b: Byte) {
    33 <= b < 127 && b != TICK && b != TILDE
  }

  predicate HasSolid(s: Bytes) {
    exists i :: 0 <= i < |s| && IsSolid(s[i])
  }

  /** A segment of the line starts at `at`, counting from `from`. */
  ghost predicate StartsSegment(line: Bytes, from: nat, at: nat)
    ensures StartsSegment(line, from, at) ==> from <= at < |line|
    decreases |line| - from
  {
    from < |line| && (at == from || StartsSegment(line, NextAt(line, from), at))
  }

  /** The link at `at`, if it is replaced, gets an address without a newline; or it
      gets none, and either stands after something solid on its line or leaves a
      text that begins so. */
  ghost predicate LinkFits(line: Bytes, at: nat, site: Site, destination: Destination)
    requires at < |line|
  {
    match Replacement(SegmentAt(line, at), site)
    case None => true
    case Some(parts) =>
      || HasAddress(parts, destination)
      || (&& destination(parts.name, parts.anchor).None?
          && (HasSolid(line[..at]) || (parts.text != [] && IsSolid(parts.text[0]))))
  }

  ghost predicate LineFits(line: Bytes, site: Site, destination: Destination) {
    forall at: nat :: StartsSegment(line, 0, at) ==> LinkFits(line, at, site, destination)
  }

  /** All links on the page's own prose lines fit. */
  ghost predicate PageFits(markdown: Bytes, site: Site, destination: Destination) {
    var lines := SplitLines(markdown);
    forall i :: 0 <= i < |lines| && !CodeFlags(lines, None)[i] ==> LineFits(lines[i], site, destination)
  }

  lemma {:induction false} NextStarts(line: Bytes, from: nat, at: nat)
    requires StartsSegment(line, from, at) && NextAt(line, at) < |line|
    ensures StartsSegment(line, from, NextAt(line, at))
    decreases |line| - from
  {
    hide NextAt;
    if at == from {
      assert StartsSegment(line, NextAt(line, from), NextAt(line, from));
    } else {
      NextStarts(line, NextAt(line, from), at);
    }
  }

  /** One element of `split_inclusive('\n')`: a newline only at the very end. */
  predicate LineShaped(line: Bytes) {
    line != [] && NewlineFree(line[..|line| - 1])
  }

  predicate Ends(line: Bytes) {
    line != [] && line[|line| - 1] == NEWLINE
  }

  lemma InnerIsNewlineFree(line: Bytes, lo: nat, hi: nat)
    requires LineShaped(line) && lo <= hi < |line|
    ensures NewlineFree(line[lo..hi])
  {
    assert forall j :: lo <= j < hi ==> line[j] == line[..|line| - 1][j];
  }

  lemma LinkIs(line: Bytes, at: nat)
    requires at < |line| && SegmentAt(line, at).Link?
    ensures at + 2 <= |line| && line[at] == OPEN && line[at + 1] == OPEN
    ensures FindClose(line, at + 2).Some? && FindClose(line, at + 2).value < |line|
    ensures SegmentAt(line, at).inner == line[at + 2..FindClose(line, at + 2).value]
  {
    hide FindRun, RunAt;
  }

  lemma BracketedIsNewlineFree(text: Bytes, address: Bytes)
    requires NewlineFree(text) && NewlineFree(address)
    ensures NewlineFree([OPEN] + text + [CLOSE, 40] + address + [41])
  {
  }

  // ----- the shape of a line -----

  /** Free of newlines, but for one at the end where there is to be one. */
  predicate Shaped(s: Bytes, ends: bool) {
    if ends then Ends(s) && NewlineFree(s[..|s| - 1]) else NewlineFree(s)
  }

  lemma AppendShaped(one: Bytes, rest: Bytes, ends: bool)
    requires NewlineFree(one) && Shaped(rest, ends)
    ensures Shaped(one + rest, ends)
  {
    if ends { assert (one + rest)[..|one + rest| - 1] == one + rest[..|rest| - 1]; }
  }

  lemma LinkEndsInClose(line: Bytes, at: nat)
    requires at < |line| && SegmentAt(line, at).Link?
    ensures line[NextAt(line, at) - 1] == CLOSE
  {
    LinkIs(line, at);
    LinkAtIs(line, at);
  }

  /** A link that is replaced: its parts, and that it brings no newline. */
  lemma ReplacedIs(line: Bytes, at: nat, site: Site)
    requires LineShaped(line) && at < |line| && Replacement(SegmentAt(line, at), site).Some?
    ensures SegmentAt(line, at).Link? && NewlineFree(SegmentAt(line, at).inner)
    ensures Replacement(SegmentAt(line, at), site) == PartsOf(SegmentAt(line, at).inner, site)
  {
    hide SegmentAt, PartsOf, LineShaped, NewlineFree, FindClose;
    LinkIs(line, at);
    InnerIsNewlineFree(line, at + 2, FindClose(line, at + 2).value);
  }

  lemma ShownIsNewlineFree(parts: LinkParts, destination: Destination)
    requires NewlineFree(parts.text)
    requires HasAddress(parts, destination) || destination(parts.name, parts.anchor).None?
    ensures NewlineFree(Shown(parts, destination))
  {
    hide NewlineFree;
    var address := destination(parts.name, parts.anchor);
    if address.Some? { BracketedIsNewlineFree(parts.text, address.value); }
  }

  lemma LinkShaped(line: Bytes, at: nat, site: Site, destination: Destination)
    requires LineShaped(line) && at < |line| && LinkFits(line, at, site, destination)
    requires Replacement(SegmentAt(line, at), site).Some?
    ensures NewlineFree(RenderOne(SegmentAt(line, at), site, destination))
    ensures NextAt(line, at) == |line| ==> !Ends(line)
  {
    hide SegmentAt, NextAt, PartsOf, NewlineFree, LineShaped, HasSolid, FindClose, HasAddress, Replacement, Shown;
    ReplacedIs(line, at, site);
    LinkEndsInClose(line, at);
    var parts := Replacement(SegmentAt(line, at), site).value;
    TextIsNewlineFree(SegmentAt(line, at).inner, site);
    ShownIsNewlineFree(parts, destination);
  }

  lemma CopiedShaped(line: Bytes, at: nat, site: Site, destination: Destination)
    requires LineShaped(line) && at < |line| && Replacement(SegmentAt(line, at), site).None?
    ensures var one := RenderOne(SegmentAt(line, at), site, destination);
            && one == line[at..NextAt(line, at)]
            && (NextAt(line, at) < |line| ==> NewlineFree(one))
            && (NextAt(line, at) == |line| ==> Shaped(one, Ends(line)))
  {
    ParseStep(line, at);
    hide SegmentAt, NextAt, PartsOf, Source;
    var next := NextAt(line, at);
    SliceShaped(line, at, next);
  }

  lemma SliceShaped(line: Bytes, at: nat, next: nat)
    requires LineShaped(line) && at < next <= |line|
    ensures next < |line| ==> NewlineFree(line[at..next])
    ensures next == |line| ==> Shaped(line[at..next], Ends(line))
  {
    assert forall k :: 0 <= k < |line| - 1 ==> line[k] == line[..|line| - 1][k];
    if next == |line| {
      var one := line[at..];
      assert one[|one| - 1] == line[|line| - 1];
      assert forall k :: 0 <= k < |one| - 1 ==> one[k] == line[at + k];
    }
  }

  lemma {:induction false} RenderShaped(line: Bytes, at: nat, site: Site, destination: Destination)
    requires LineShaped(line) && LineFits(line, site, destination) && StartsSegment(line, 0, at)
    ensures Shaped(Render(Parse(line, at), site, destination), Ends(line))
    decreases |line| - at
  {
    hide SegmentAt, NextAt, RenderOne, LineShaped, LinkFits, Replacement, NewlineFree, Ends, Shaped, Source;
    assert LinkFits(line, at, site, destination);
    var next := NextAt(line, at);
    var one := RenderOne(SegmentAt(line, at), site, destination);
    OneShaped(line, at, site, destination);
    ParseStep(line, at);
    assert Parse(line, at)[1..] == Parse(line, next);
    if next < |line| {
      NextStarts(line, 0, at);
      RenderShaped(line, next, site, destination);
      AppendShaped(one, Render(Parse(line, next), site, destination), Ends(line));
    } else {
      assert Render(Parse(line, next), site, destination) == [];
      assert one + [] == one;
    }
  }

  lemma OneShaped(line: Bytes, at: nat, site: Site, destination: Destination)
    requires LineShaped(line) && at < |line| && LinkFits(line, at, site, destination)
    ensures var one := RenderOne(SegmentAt(line, at), site, destination);
            && (NextAt(line, at) < |line| ==> NewlineFree(one))
            && (NextAt(line, at) == |line| ==> Shaped(one, Ends(line)))
  {
    hide SegmentAt, NextAt, RenderOne, LineShaped, LinkFits, Replacement, NewlineFree, Ends;
    if Replacement(SegmentAt(line, at), site).Some? {
      LinkShaped(line, at, site, destination);
    } else {
      CopiedShaped(line, at, site, destination);
    }
  }

  // ----- the start of a line -----

  /** Up to `k` the two are the same, and there both are solid, or the rest is the
      same too. */
  ghost predicate SameUntilSolid(a: Bytes, b: Bytes, k: nat) {
    && k <= |a| && k <= |b| && a[..k] == b[..k]
    && (a[k..] == b[k..] || (k < |a| && k < |b| && IsSolid(a[k]) && IsSolid(b[k])))
  }

  lemma ShownIsSolid(parts: LinkParts, destination: Destination)
    requires || HasAddress(parts, destination)
             || (&& destination(parts.name, parts.anchor).None?
                 && parts.text != [] && IsSolid(parts.text[0]))
    ensures Shown(parts, destination) != [] && IsSolid(Shown(parts, destination)[0])
  {
  }

  /** With nothing solid before it, a link that is replaced leaves something solid. */
  lemma FirstLinkIsSolid(line: Bytes, at: nat, site: Site, destination: Destination)
    requires at < |line| && LinkFits(line, at, site, destination) && !HasSolid(line[..at])
    requires Replacement(SegmentAt(line, at), site).Some?
    ensures var one := RenderOne(SegmentAt(line, at), site, destination);
            one != [] && IsSolid(one[0]) && IsSolid(line[at])
  {
    hide SegmentAt, PartsOf, HasSolid, FindClose, Shown, HasAddress, IsSolid;
    LinkIs(line, at);
    OpenIsSolid();
    ShownIsSolid(Replacement(SegmentAt(line, at), site).value, destination);
  }

  lemma OpenIsSolid()
    ensures IsSolid(OPEN)
  {
  }

  lemma SolidWithin(line: Bytes, at: nat, next: nat)
    requires at <= next <= |line| && !HasSolid(line[..at]) && !HasSolid(line[at..next])
    ensures !HasSolid(line[..next])
  {
    forall i | 0 <= i < next ensures !IsSolid(line[..next][i]) {
      if i < at { assert line[..at][i] == line[i]; } else { assert line[at..next][i - at] == line[i]; }
    }
  }

  lemma {:induction false} RenderHead(line: Bytes, at: nat, site: Site, destination: Destination) returns (k: nat)
    requires LineFits(line, site, destination) && StartsSegment(line, 0, at)
    requires !HasSolid(line[..at])
    ensures SameUntilSolid(line[at..], Render(Parse(line, at), site, destination), k)
    ensures Render(Parse(line, at), site, destination) != []
    decreases |line| - at
  {
    hide SegmentAt, NextAt, LinkFits, RenderOne, Replacement, HasSolid, IsSolid, Source;
    assert LinkFits(line, at, site, destination);
    ParseStep(line, at);
    var segment, next := SegmentAt(line, at), NextAt(line, at);
    assert Parse(line, at)[1..] == Parse(line, next);
    var one, rest := RenderOne(segment, site, destination), Render(Parse(line, next), site, destination);
    assert line[at..] == line[at..next] + line[next..];
    if Replacement(segment, site).Some? {
      FirstLinkIsSolid(line, at, site, destination);
      return 0;
    }
    CopiedIs(line, at, site, destination);
    if HasSolid(one) {
      k := FirstSolid(one);
      SameStart(one, line[next..], rest, k);
    } else if next == |line| {
      assert rest == [] && line[next..] == [];
      k := |one|;
    } else {
      NextStarts(line, 0, at);
      SolidWithin(line, at, next);
      var j := RenderHead(line, next, site, destination);
      SameBehind(one, line[next..], rest, j);
      k := |one| + j;
    }
  }

  lemma CopiedIs(line: Bytes, at: nat, site: Site, destination: Destination)
    requires at < |line| && Replacement(SegmentAt(line, at), site).None?
    ensures RenderOne(SegmentAt(line, at), site, destination) == line[at..NextAt(line, at)]
  {
    ParseStep(line, at);
    hide SegmentAt, NextAt, PartsOf, Source;
  }

  lemma FirstSolid(s: Bytes) returns (k: nat)
    requires HasSolid(s)
    ensures k < |s| && IsSolid(s[k])
  {
    k :| k < |s| && IsSolid(s[k]);
  }

  lemma SameStart(one: Bytes, a: Bytes, b: Bytes, k: nat)
    requires k < |one| && IsSolid(one[k])
    ensures SameUntilSolid(one + a, one + b, k)
  {
    assert (one + a)[..k] == one[..k] == (one + b)[..k];
  }

  lemma SameBehind(one: Bytes, a: Bytes, b: Bytes, j: nat)
    requires SameUntilSolid(a, b, j)
    ensures SameUntilSolid(one + a, one + b, |one| + j)
  {
    var k := |one| + j;
    assert (one + a)[..k] == one + a[..j] && (one + b)[..k] == one + b[..j];
    assert (one + a)[k..] == a[j..] && (one + b)[k..] == b[j..];
  }

  lemma WhiteHeadStopsAtSolid(a: Bytes, b: Bytes, k: nat)
    requires k < |a| && k < |b| && a[..k] == b[..k] && IsSolid(a[k]) && IsSolid(b[k])
    ensures WhiteHead(a) == WhiteHead(b) <= k
  {
    assert forall i :: 0 <= i < k ==> a[i] == a[..k][i] == b[..k][i] == b[i];
  }

  lemma {:induction false} RunStopsAtSolid(a: Bytes, b: Bytes, k: nat, marker: Byte)
    requires k < |a| && k < |b| && a[..k] == b[..k] && IsSolid(a[k]) && IsSolid(b[k]) && !IsSolid(marker)
    ensures LeadingRun(a, marker) == LeadingRun(b, marker)
    decreases k
  {
    if k > 0 {
      assert a[0] == a[..k][0] == b[..k][0] == b[0];
      assert a[1..][..k - 1] == a[..k][1..] == b[..k][1..] == b[1..][..k - 1];
      RunStopsAtSolid(a[1..], b[1..], k - 1, marker);
    }
  }

  lemma SamePartsSame(a: Bytes, b: Bytes, k: nat, n: nat)
    requires n <= k <= |a| && k <= |b| && a[..k] == b[..k]
    ensures a[n..][..k - n] == b[n..][..k - n]
    ensures k > 0 ==> a[0] == b[0]
  {
    assert a[n..][..k - n] == a[..k][n..] && b[n..][..k - n] == b[..k][n..];
    assert k > 0 ==> a[0] == a[..k][0] && b[0] == b[..k][0];
  }

  lemma MarkerSkipsWhite(s: Bytes)
    ensures WhiteHead(s) > 0 ==> MarkerOf(s) == MarkerOf(s[WhiteHead(s)..])
    ensures WhiteHead(s) == 0 ==> MarkerOf(s) == FenceMarker(s)
  {
    hide WhiteHead, FenceMarker;
  }

  /** A line's fence marker is settled before its first solid byte. */
  lemma {:induction false} MarkerStopsAtSolid(a: Bytes, b: Bytes, k: nat)
    requires k < |a| && k < |b| && a[..k] == b[..k] && IsSolid(a[k]) && IsSolid(b[k])
    ensures MarkerOf(a) == MarkerOf(b)
    decreases k
  {
    hide WhiteHead, MarkerOf;
    WhiteHeadStopsAtSolid(a, b, k);
    var n := WhiteHead(a);
    SamePartsSame(a, b, k, n);
    MarkerSkipsWhite(a);
    MarkerSkipsWhite(b);
    if n > 0 {
      MarkerStopsAtSolid(a[n..], b[n..], k - n);
    } else if a[0] == TICK || a[0] == TILDE {
      RunStopsAtSolid(a, b, k, a[0]);
    }
  }

  lemma StartOfLine(line: Bytes)
    requires line != []
    ensures StartsSegment(line, 0, 0) && !HasSolid(line[..0])
  {
  }

  lemma RewriteKeepsLine(line: Bytes, site: Site, destination: Destination)
    requires LineShaped(line) && LineFits(line, site, destination)
    ensures var shown := Render(Parse(line, 0), site, destination);
            MarkerOf(shown) == MarkerOf(line) && LineShaped(shown) && Ends(shown) == Ends(line)
  {
    hide MarkerOf, Render, Parse, LineFits, StartsSegment, HasSolid, LineShaped, NewlineFree, Ends, SameUntilSolid;
    assert line != [] by { ShapedIsSomething(line); }
    StartOfLine(line);
    RenderShaped(line, 0, site, destination);
    var shown := Render(Parse(line, 0), site, destination);
    var k := RenderHead(line, 0, site, destination);
    assert line[0..] == line;
    HeadKeepsMarker(line, shown, k);
    ShapedIsLine(shown, Ends(line));
  }

  lemma ShapedIsSomething(line: Bytes)
    requires LineShaped(line)
    ensures line != []
  {
  }

  lemma HeadKeepsMarker(a: Bytes, b: Bytes, k: nat)
    requires SameUntilSolid(a, b, k)
    ensures MarkerOf(a) == MarkerOf(b)
  {
    hide MarkerOf, IsSolid;
    if a[k..] == b[k..] {
      assert a == a[..k] + a[k..] && b == b[..k] + b[k..];
    } else {
      MarkerStopsAtSolid(a, b, k);
    }
  }

  lemma ShapedIsLine(shown: Bytes, ends: bool)
    requires shown != [] && Shaped(shown, ends)
    ensures LineShaped(shown) && Ends(shown) == ends
  {
  }

  // ----- the page -----

  /** Lines of a page: every one but the last ends in a newline. */
  ghost predicate AreLines(lines: seq<Bytes>) {
    && (forall i :: 0 <= i < |lines| ==> LineShaped(lines[i]))
    && (forall i :: 0 <= i < |lines| - 1 ==> Ends(lines[i]))
  }

  lemma {:induction false} SplitLinesAreLines(text: Bytes)
    ensures AreLines(SplitLines(text))
    decreases |text|
  {
    var newline := FindByteFrom(text, NEWLINE, 0);
    if text != [] && newline.Some? {
      SplitLinesAreLines(text[newline.value + 1..]);
    }
  }

  lemma FirstNewline(first: Bytes, rest: Bytes)
    requires LineShaped(first) && (Ends(first) || rest == [])
    ensures FindByteFrom(first + rest, NEWLINE, 0) == if Ends(first) then Some(|first| - 1) else None
  {
    var text, body := first + rest, first[..|first| - 1];
    assert forall i :: 0 <= i < |first| - 1 ==> text[i] == body[i] != NEWLINE;
    assert text[|first| - 1] == first[|first| - 1];
  }

  /** Splitting is the inverse of joining, for anything shaped like lines. */
  lemma {:induction false} SplitJoin(lines: seq<Bytes>)
    requires AreLines(lines)
    ensures SplitLines(Join(lines)) == lines
  {
    hide NewlineFree, FindByteFrom;
    if lines != [] {
      var first, rest := lines[0], Join(lines[1..]);
      SplitJoin(lines[1..]);
      if !Ends(first) { assert lines[1..] == [] && rest == []; }
      FirstNewline(first, rest);
      assert (first + rest)[..|first|] == first && (first + rest)[|first|..] == rest;
      assert lines == [first] + lines[1..];
    }
  }

  lemma {:induction false} FlagsKept(lines: seq<Bytes>, shown: seq<Bytes>, open: Option<Fence>)
    requires |shown| == |lines|
    requires forall i :: 0 <= i < |lines| ==> MarkerOf(shown[i]) == MarkerOf(lines[i])
    ensures CodeFlags(shown, open) == CodeFlags(lines, open)
    decreases |lines|
  {
    hide MarkerOf;
    if lines != [] {
      FlagsKept(lines[1..], shown[1..], StepFence(open, MarkerOf(lines[0])).0);
    }
  }

  /** Splitting the rewritten page gives each original line's own rewriting, and
      the fences fall where they did. */
  ghost predicate KeepsStructure(markdown: Bytes, site: Site, destination: Destination) {
    var lines := SplitLines(markdown);
    var flags := CodeFlags(lines, None);
    var shown := RewriteLines(lines, flags, site, destination);
    SplitLines(Join(shown)) == shown && CodeFlags(shown, None) == flags
  }

  /** A page whose own links fit keeps its lines in number, in code and in order;
      no other page, and no other link of the site, has a say in it. */
  lemma StructureKept(markdown: Bytes, site: Site, destination: Destination)
    requires PageFits(markdown, site, destination)
    ensures KeepsStructure(markdown, site, destination)
  {
    hide MarkerOf, Parse, Render, LineShaped, LineFits, SplitLines, Join, CodeFlags, Ends;
    var lines := SplitLines(markdown);
    var flags := CodeFlags(lines, None);
    var shown := RewriteLines(lines, flags, site, destination);
    SplitLinesAreLines(markdown);
    forall i | 0 <= i < |lines|
      ensures MarkerOf(shown[i]) == MarkerOf(lines[i])
      ensures LineShaped(shown[i]) && Ends(shown[i]) == Ends(lines[i])
    {
      if !flags[i] { RewriteKeepsLine(lines[i], site, destination); }
    }
    SplitJoin(shown);
    FlagsKept(lines, shown, None);
  }
}

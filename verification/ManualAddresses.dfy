/** Which link destinations keep a page's lines and fences, exactly, and that those
    in use are such (src/docs_bundle.rs:440-461, 692-706, 768-896). */
module ManualAddresses {
  import opened Prelude
  import opened Utf8
  import opened ManualLinks
  import opened Wikilinks
  import opened ManualPages
  import opened ManualStructure

  const TICKS: Bytes := [96, 96, 96]

  // ----- every link of the site -----

  /** An inner text that can be written between `[[` and `]]` on a line, and is
      read back as just that. */
  ghost predicate Writable(inner: Bytes) {
    && IsValid(inner) && NewlineFree(inner)
    && forall i :: 0 <= i < |inner| ==> !ClosesAt(inner + [CLOSE, CLOSE], i)
  }

  /** Every link that can be written and resolves has one. */
  ghost predicate KeepsLines(site: Site, destination: Destination) {
    forall inner :: Writable(inner) && PartsOf(inner, site).Some? ==>
      HasAddress(PartsOf(inner, site).value, destination)
  }

  /** What lies between two places of a line, up to the first `]]`. */
  lemma InnerNeverCloses(line: Bytes, lo: nat, hi: nat)
    requires lo <= hi && ClosesAt(line, hi) && forall i :: lo <= i < hi ==> !ClosesAt(line, i)
    ensures forall i :: 0 <= i < hi - lo ==> !ClosesAt(line[lo..hi] + [CLOSE, CLOSE], i)
  {
    var text := line[lo..hi] + [CLOSE, CLOSE];
    forall i | 0 <= i < hi - lo ensures !ClosesAt(text, i) {
      assert !ClosesAt(line, lo + i);
      assert text[i] == line[lo + i] && text[i + 1] == line[lo + i + 1];
    }
  }

  lemma LinkInnerIsValid(line: Bytes, lo: nat, hi: nat)
    requires IsValid(line) && lo <= hi <= |line| && IsBoundary(line, lo) && IsBoundary(line, hi)
    ensures IsValid(line[lo..hi])
  {
    hide IsValid, IsBoundary;
    var _ := Slice(line, lo, hi);
  }

  /** The links of a line can be written. */
  lemma LinkIsWritable(line: Bytes, at: nat)
    requires IsValid(line) && LineShaped(line) && at < |line| && SegmentAt(line, at).Link?
    ensures Writable(SegmentAt(line, at).inner)
  {
    LinkIs(line, at);
    hide IsValid, IsBoundary, SegmentAt, LineShaped, NewlineFree, ClosesAt;
    var close := FindClose(line, at + 2).value;
    LinkBoundaries(line, at);
    LinkInnerIsValid(line, at + 2, close);
    InnerNeverCloses(line, at + 2, close);
    InnerIsNewlineFree(line, at + 2, close);
  }

  lemma SegmentsFit(line: Bytes, site: Site, destination: Destination)
    requires IsValid(line) && LineShaped(line) && KeepsLines(site, destination)
    ensures LineFits(line, site, destination)
  {
    hide IsValid, Writable, PartsOf, HasSolid, SegmentAt, LineShaped;
    forall at: nat | StartsSegment(line, 0, at) ensures LinkFits(line, at, site, destination) {
      if SegmentAt(line, at).Link? { LinkIsWritable(line, at); }
    }
  }

  /** Addresses for all links of the site fit every page. */
  lemma SiteFitsPages(markdown: Bytes, site: Site, destination: Destination)
    requires IsValid(markdown) && KeepsLines(site, destination)
    ensures PageFits(markdown, site, destination)
  {
    hide IsValid, KeepsLines, LineFits, LineShaped, SplitLines, CodeFlags;
    var lines := SplitLines(markdown);
    SplitLinesAreLines(markdown);
    forall i | 0 <= i < |lines| ensures LineFits(lines[i], site, destination) {
      LinesAreValid(markdown, i);
      SegmentsFit(lines[i], site, destination);
    }
  }

  // ----- a page of one link -----

  function LineOf(inner: Bytes): (r: Bytes) {
    [OPEN, OPEN] + inner + [CLOSE, CLOSE]
  }

  lemma LineOfIsValid(inner: Bytes)
    requires Writable(inner)
    ensures IsValid(LineOf(inner)) && NewlineFree(LineOf(inner))
  {
    hide ClosesAt, IsValid;
    AsciiIsValid([OPEN, OPEN]);
    AsciiIsValid([CLOSE, CLOSE]);
    ValidAppend([OPEN, OPEN], inner);
    ValidAppend([OPEN, OPEN] + inner, [CLOSE, CLOSE]);
  }

  lemma LineOfCloses(inner: Bytes)
    requires Writable(inner)
    ensures FindClose(LineOf(inner), 2) == Some(2 + |inner|)
  {
    hide IsValid, NewlineFree;
    var line, tail := LineOf(inner), inner + [CLOSE, CLOSE];
    assert forall j :: 0 <= j < |tail| ==> line[2 + j] == tail[j];
    assert ClosesAt(line, 2 + |inner|);
    forall i | 2 <= i < 2 + |inner| ensures !ClosesAt(line, i) {
      assert !ClosesAt(tail, i - 2);
    }
  }

  lemma LineOfParses(inner: Bytes)
    requires Writable(inner)
    ensures Parse(LineOf(inner), 0) == [Link(inner, false)]
  {
    var line := LineOf(inner);
    LineOfCloses(inner);
    hide IsValid, NewlineFree, ClosesAt, FindClose;
    assert line[2..2 + |inner|] == inner;
    assert SegmentAt(line, 0) == Link(inner, false);
    assert NextAt(line, 0) == |line|;
    assert Parse(line, |line|) == [];
    assert Parse(line, 0) == [Link(inner, false)] + Parse(line, |line|);
  }

  lemma OneLinkRendered(inner: Bytes, site: Site, destination: Destination)
    requires PartsOf(inner, site).Some?
    ensures Render([Link(inner, false)], site, destination) == Shown(PartsOf(inner, site).value, destination)
  {
    hide PartsOf, Shown;
    var segments := [Link(inner, false)];
    assert segments[1..] == [];
    assert Render(segments, site, destination) == Shown(PartsOf(inner, site).value, destination) + [];
  }

  lemma OneLine(text: Bytes)
    requires text != [] && NewlineFree(text)
    ensures SplitLines(text) == [text] && CodeFlags([text], None) == [MarkerOf(text).Some?]
  {
    hide MarkerOf;
    assert FindByteFrom(text, NEWLINE, 0) == None;
    assert [text][1..] == [];
  }

  lemma LinkLineIsProse(inner: Bytes)
    ensures MarkerOf(LineOf(inner)) == None
  {
    hide IsValid;
    assert LineOf(inner)[0] == OPEN;
    assert WhiteHead(LineOf(inner)) == 0;
    assert TrimStart(LineOf(inner)) == LineOf(inner);
  }

  /** What rewriting the page `[[inner]]` comes to. */
  lemma PageOfOneLink(inner: Bytes, site: Site, destination: Destination)
    requires Writable(inner) && PartsOf(inner, site).Some?
    ensures var line, shown := LineOf(inner), Shown(PartsOf(inner, site).value, destination);
            && IsValid(line)
            && (KeepsStructure(line, site, destination)
                <==> SplitLines(Join([shown])) == [shown] && CodeFlags([shown], None) == [false])
  {
    hide IsValid, Parse, PartsOf, Render, MarkerOf, Writable, SplitLines, CodeFlags, Join;
    var line := LineOf(inner);
    LineOfIsValid(inner);
    LineOfParses(inner);
    OneLinkRendered(inner, site, destination);
    OneLine(line);
    LinkLineIsProse(inner);
    var shown := Shown(PartsOf(inner, site).value, destination);
    assert RewriteLines([line], [false], site, destination) == [shown];
  }

  // ----- an address with a newline -----

  lemma NewlineBreaks(inner: Bytes, site: Site, destination: Destination)
    requires Writable(inner) && PartsOf(inner, site).Some?
    requires var address := destination(PartsOf(inner, site).value.name, PartsOf(inner, site).value.anchor);
             address.Some? && !NewlineFree(address.value)
    ensures IsValid(LineOf(inner)) && !KeepsStructure(LineOf(inner), site, destination)
  {
    PageOfOneLink(inner, site, destination);
    hide PartsOf, Writable, IsValid, KeepsStructure;
    var parts := PartsOf(inner, site).value;
    var address := destination(parts.name, parts.anchor).value;
    var shown := Shown(parts, destination);
    var before := [OPEN] + parts.text + [CLOSE, 40];
    assert shown == before + address + [41];
    assert shown[..|shown| - 1] == before + address;
    assert NEWLINE in address && NEWLINE in before + address;
    NotALine(shown);
  }

  lemma NotALine(text: Bytes)
    requires text != [] && !NewlineFree(text[..|text| - 1])
    ensures SplitLines(Join([text])) != [text]
  {
    var lines := SplitLines(Join([text]));
    SplitLinesAreLines(Join([text]));
    assert lines != [] ==> LineShaped(lines[0]);
  }

  // ----- no address -----

  /** The same link with three backticks for its text. */
  function Ticked(inner: Bytes): (r: Bytes) {
    SplitAlias(inner).0 + [BACKSLASH, PIPE] + TICKS
  }

  lemma TargetIsStart(inner: Bytes)
    ensures SplitAlias(inner).0 <= inner && PIPE !in SplitAlias(inner).0
  {
    var bar := FindByteFrom(inner, PIPE, 0);
    if bar.Some? {
      var head := inner[..bar.value];
      assert StripSuffix(head, [BACKSLASH]) <= head;
      assert forall i :: 0 <= i < |head| ==> head[i] == inner[i] != PIPE;
    }
  }

  lemma TickedNeverCloses(target: Bytes, inner: Bytes)
    requires target <= inner && forall i :: 0 <= i < |inner| ==> !ClosesAt(inner + [CLOSE, CLOSE], i)
    ensures var ticked := target + ([BACKSLASH, PIPE] + TICKS);
            forall i :: 0 <= i < |ticked| ==> !ClosesAt(ticked + [CLOSE, CLOSE], i)
  {
    var suffix := [BACKSLASH, PIPE] + TICKS;
    var text, line := target + suffix + [CLOSE, CLOSE], inner + [CLOSE, CLOSE];
    forall i | 0 <= i < |target| + 5 ensures !ClosesAt(text, i) {
      if i + 1 < |target| {
        assert !ClosesAt(line, i);
        assert text[i] == target[i] == line[i] && text[i + 1] == target[i + 1] == line[i + 1];
      } else if i < |target| {
        assert text[i + 1] == suffix[0] == BACKSLASH;
      } else {
        assert text[i] == suffix[i - |target|] != CLOSE;
      }
    }
  }

  lemma TickedIsNewlineFree(target: Bytes, inner: Bytes)
    requires target <= inner && NewlineFree(inner)
    ensures NewlineFree(target + ([BACKSLASH, PIPE] + TICKS))
  {
    assert forall b :: b in target ==> b in inner;
  }

  lemma TickedIsWritable(inner: Bytes)
    requires Writable(inner)
    ensures Writable(Ticked(inner))
  {
    hide SplitAlias, IsValid, NewlineFree, ClosesAt, Trim;
    var target, suffix := SplitAlias(inner).0, [BACKSLASH, PIPE] + TICKS;
    TargetIsStart(inner);
    SplitAliasIsValid(inner);
    SuffixIsValid();
    ValidAppend(target, suffix);
    TickedNeverCloses(target, inner);
    TickedIsNewlineFree(target, inner);
    assert Ticked(inner) == target + suffix;
  }

  lemma SuffixIsValid()
    ensures IsValid([BACKSLASH, PIPE] + TICKS)
  {
    var s: Bytes := [92, 124, 96, 96, 96];
    assert [BACKSLASH, PIPE] + TICKS == s;
    assert s[1..] == [124, 96, 96, 96] && s[1..][1..] == TICKS;
    TicksAreValid();
  }

  lemma TicksAreValid()
    ensures IsValid(TICKS)
  {
    var two: Bytes := [96, 96];
    assert TICKS[1..] == two && two[1..] == [96];
    assert IsValid([96]);
    assert IsValid(two);
  }

  /** It asks for the same page and heading. */
  lemma TickedParts(inner: Bytes, site: Site)
    requires PartsOf(inner, site).Some?
    ensures var parts := PartsOf(inner, site).value;
            PartsOf(Ticked(inner), site) == Some(LinkParts(parts.name, TICKS, parts.anchor))
  {
    var (target, alias) := SplitAlias(inner);
    TickedSplits(inner);
    hide SplitAlias, Ticked;
    var (page, heading) := SplitHeading(target);
    hide SplitHeading;
    assert PartsOf(inner, site) == PartsFrom(page, alias, heading, site);
    assert PartsOf(Ticked(inner), site) == PartsFrom(page, Some(TICKS), heading, site);
    hide Resolve;
  }

  lemma TickedSplits(inner: Bytes)
    ensures SplitAlias(Ticked(inner)) == (SplitAlias(inner).0, Some(TICKS))
  {
    TargetIsStart(inner);
    var target := SplitAlias(inner).0;
    hide SplitAlias;
    var before := target + [BACKSLASH];
    assert Ticked(inner) == before + [PIPE] + TICKS;
    FirstByteIs(before, PIPE, TICKS);
    GraphicIsTrimmed(TICKS);
    TickedSplitsAt(before, target);
  }

  lemma TickedSplitsAt(before: Bytes, target: Bytes)
    requires before == target + [BACKSLASH] && Trim(TICKS) == TICKS
    requires FindByteFrom(before + [PIPE] + TICKS, PIPE, 0) == Some(|before|)
    ensures SplitAlias(before + [PIPE] + TICKS) == (target, Some(TICKS))
  {
    hide Trim, FindByteFrom;
    var s := before + [PIPE] + TICKS;
    assert s[..|before|] == before && s[|before| + 1..] == TICKS;
    assert before[|target|..] == [BACKSLASH] && before[..|target|] == target;
  }

  lemma TicksOpenAFence()
    ensures MarkerOf(TICKS) == Some(Fence(TICK, 3))
  {
    GraphicIsTrimmed(TICKS);
    hide TrimStart, IsValid;
    var two: Bytes := [96, 96];
    var one: Bytes := [96];
    assert TICKS[1..] == two && two[1..] == one && one[1..] == [];
    assert LeadingRun(one, TICK) == 1;
    assert LeadingRun(two, TICK) == 2;
  }

  /** Its text is all that is left of it, and that opens a fence: what was a line
      of prose becomes code. */
  lemma NoAddressBreaks(inner: Bytes, site: Site, destination: Destination)
    requires Writable(inner) && PartsOf(inner, site).Some?
    requires destination(PartsOf(inner, site).value.name, PartsOf(inner, site).value.anchor).None?
    ensures var line := LineOf(Ticked(inner));
            IsValid(line) && !KeepsStructure(line, site, destination)
  {
    TickedIsWritable(inner);
    TickedParts(inner, site);
    PageOfOneLink(Ticked(inner), site, destination);
    TicksOpenAFence();
    hide PartsOf, Writable, IsValid, KeepsStructure, MarkerOf, Ticked, SplitLines;
    OneLine(TICKS);
  }

  // ----- exactly when -----

  /** Every page keeps its lines and its code flags if and only if every link that
      can be written and resolves gets an address without a newline. */
  lemma StructureKeptIff(site: Site, destination: Destination)
    ensures KeepsLines(site, destination)
            <==> forall markdown :: IsValid(markdown) ==> KeepsStructure(markdown, site, destination)
  {
    hide IsValid, Writable, PartsOf, KeepsStructure, NewlineFree, PageFits;
    if KeepsLines(site, destination) {
      hide KeepsLines;
      forall markdown | IsValid(markdown) ensures KeepsStructure(markdown, site, destination) {
        SiteFitsPages(markdown, site, destination);
        StructureKept(markdown, site, destination);
      }
    } else {
      var inner :| Writable(inner) && PartsOf(inner, site).Some?
        && !HasAddress(PartsOf(inner, site).value, destination);
      if destination(PartsOf(inner, site).value.name, PartsOf(inner, site).value.anchor).Some? {
        NewlineBreaks(inner, site, destination);
      } else {
        NoAddressBreaks(inner, site, destination);
      }
    }
  }

  // ----- the destinations in use -----

  /** What a destination can be asked for on this site: a page of it, with a
      heading's slug as the anchor, if any. */
  ghost predicate IsTarget(site: Site, name: Bytes, anchor: Option<Bytes>) {
    && (name == site.thisPage || name in site.byKey.Values)
    && (anchor.Some? ==> exists heading :: NewlineFree(heading) && site.slug(heading) == anchor.value)
  }

  lemma PartsAreTargets(inner: Bytes, site: Site)
    requires NewlineFree(inner) && PartsOf(inner, site).Some?
    ensures IsTarget(site, PartsOf(inner, site).value.name, PartsOf(inner, site).value.anchor)
  {
    hide SplitAlias, SplitHeading, NewlineFree, Trim;
    SplitsKeepNewlineFree(inner);
    var (target, alias) := SplitAlias(inner);
    SplitsKeepNewlineFree(target);
    var (page, heading) := SplitHeading(target);
    assert PartsOf(inner, site) == PartsFrom(page, alias, heading, site);
  }

  /** Page names and slugs hold no newline. */
  ghost predicate SiteIsNewlineFree(site: Site) {
    && NewlineFree(site.thisPage)
    && (forall name :: name in site.byKey.Values ==> NewlineFree(name))
    && (forall heading :: NewlineFree(heading) ==> NewlineFree(site.slug(heading)))
  }

  function PageAddress(name: Bytes, anchor: Option<Bytes>): (r: Bytes) {
    match anchor
    case Some(a) => name + [HASH] + a
    case None => name
  }

  /** `ManualPage::markdown` links to every page by its name. */
  const NAMED_PAGES: Destination := (name, anchor) => Some(PageAddress(name, anchor))

  /** `markdown_linking` asks `link` only about names that are pages. */
  function LinkingPages(isPage: Bytes -> bool, link: Destination): (r: Destination) {
    (name, anchor) => if isPage(name) then link(name, anchor) else None
  }

  /** The bundled pages keep their lines and fences. */
  lemma BundledPagesKeepStructure(markdown: Bytes, site: Site)
    requires IsValid(markdown) && SiteIsNewlineFree(site)
    ensures KeepsStructure(markdown, site, NAMED_PAGES)
  {
    hide KeepsStructure, PartsOf, IsValid, ClosesAt, PageFits;
    forall inner | Writable(inner) && PartsOf(inner, site).Some?
      ensures HasAddress(PartsOf(inner, site).value, NAMED_PAGES)
    {
      PartsAreTargets(inner, site);
    }
    SiteFitsPages(markdown, site, NAMED_PAGES);
    StructureKept(markdown, site, NAMED_PAGES);
  }

  /** Pages linked otherwise keep theirs exactly when every link that can be
      written and resolves names a page and `link` has an address without a
      newline for it. The public one has none for a private page. */
  lemma LinkingKeepsLinesIff(site: Site, isPage: Bytes -> bool, link: Destination)
    ensures (forall markdown :: IsValid(markdown) ==> KeepsStructure(markdown, site, LinkingPages(isPage, link)))
            <==> forall inner :: Writable(inner) && PartsOf(inner, site).Some? ==>
                   isPage(PartsOf(inner, site).value.name) && HasAddress(PartsOf(inner, site).value, link)
  {
    hide KeepsStructure, PartsOf, IsValid, Writable, NewlineFree;
    StructureKeptIff(site, LinkingPages(isPage, link));
    assert forall parts: LinkParts ::
      HasAddress(parts, LinkingPages(isPage, link)) <==> isPage(parts.name) && HasAddress(parts, link);
  }

  /** The public addresses: by name, and none for a private page. */
  function PublicPages(isPrivate: Bytes -> bool): (r: Destination) {
    (name, anchor) => if isPrivate(name) then None else Some(PageAddress(name, anchor))
  }

  /** A page shown in public keeps its lines and fences whenever each of its own
      links to a private page stands after something solid on its line, or leaves
      a text that begins so; a page without such links always does. */
  lemma PublicPageKeepsStructure(markdown: Bytes, site: Site, isPrivate: Bytes -> bool)
    requires SiteIsNewlineFree(site)
    requires forall i, at: nat ::
               && 0 <= i < |SplitLines(markdown)| && !CodeFlags(SplitLines(markdown), None)[i]
               && StartsSegment(SplitLines(markdown)[i], 0, at)
               ==> PrivateLinkFollows(SplitLines(markdown)[i], at, site, isPrivate)
    ensures KeepsStructure(markdown, site, PublicPages(isPrivate))
  {
    var destination := PublicPages(isPrivate);
    SplitLinesAreLines(markdown);
    hide KeepsStructure, SplitLines, CodeFlags, StartsSegment, PrivateLinkFollows, LinkFits, LineShaped;
    var lines := SplitLines(markdown);
    forall i | 0 <= i < |lines| && !CodeFlags(lines, None)[i] ensures LineFits(lines[i], site, destination) {
      forall at: nat | StartsSegment(lines[i], 0, at) ensures LinkFits(lines[i], at, site, destination) {
        PublicLinkFits(lines[i], at, site, isPrivate);
      }
    }
    StructureKept(markdown, site, destination);
  }

  /** What is left of a link to a private page cannot be taken for a fence. */
  ghost predicate PrivateLinkFollows(line: Bytes, at: nat, site: Site, isPrivate: Bytes -> bool)
    requires at < |line|
  {
    match Replacement(SegmentAt(line, at), site)
    case None => true
    case Some(parts) =>
      isPrivate(parts.name) ==> HasSolid(line[..at]) || (parts.text != [] && IsSolid(parts.text[0]))
  }

  lemma PublicLinkFits(line: Bytes, at: nat, site: Site, isPrivate: Bytes -> bool)
    requires SiteIsNewlineFree(site) && LineShaped(line) && at < |line|
    requires PrivateLinkFollows(line, at, site, isPrivate)
    ensures LinkFits(line, at, site, PublicPages(isPrivate))
  {
    hide PartsOf, SegmentAt, HasSolid, LineShaped, FindClose, Replacement, IsTarget, NewlineFree;
    if Replacement(SegmentAt(line, at), site).Some? {
      ReplacedIs(line, at, site);
      PartsAreTargets(SegmentAt(line, at).inner, site);
      var parts := Replacement(SegmentAt(line, at), site).value;
      TargetAddress(site, parts.name, parts.anchor);
    }
  }

  lemma TargetAddress(site: Site, name: Bytes, anchor: Option<Bytes>)
    requires SiteIsNewlineFree(site) && IsTarget(site, name, anchor)
    ensures NewlineFree(PageAddress(name, anchor))
  {
  }
}

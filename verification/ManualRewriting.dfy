/** What the rewriter makes of a link, and which lines it leaves alone, in the
    bytes themselves (src/docs_bundle.rs:692-706, 750-766, 808-896;
    src/cache/parse.rs:354-371). */
module ManualRewriting {
  import opened Prelude
  import opened Utf8
  import opened ManualLinks
  import opened Wikilinks
  import opened ManualPages
  import opened ManualAddresses

  // ----- a link in its line -----

  /** Text with nothing in it that could begin a link or a code span. */
  predicate IsPlain(text: Bytes) {
    forall i :: 0 <= i < |text| ==> text[i] != TICK && text[i] != OPEN
  }

  function InPlace(before: Bytes, inner: Bytes, after: Bytes): (r: Bytes) {
    before + LineOf(inner) + after
  }

  lemma PlainIsText(line: Bytes, before: Bytes, at: nat)
    requires IsPlain(before) && before <= line && at < |before|
    ensures SegmentAt(line, at) == Text(before[at]) && NextAt(line, at) == at + 1
  {
    assert line[at] == before[at];
    TextAtIs(line, at);
  }

  lemma LinkInPlace(before: Bytes, inner: Bytes, after: Bytes)
    requires Writable(inner)
    ensures var line, at := InPlace(before, inner, after), |before|;
            && SegmentAt(line, at) == Link(inner, before != [] && before[at - 1] == BANG)
            && NextAt(line, at) == at + |inner| + 4
  {
    hide IsValid, NewlineFree, SegmentAt, NextAt;
    var line, at, tail := InPlace(before, inner, after), |before|, inner + [CLOSE, CLOSE];
    assert line[at] == OPEN && line[at + 1] == OPEN;
    assert forall j :: 0 <= j < |tail| ==> line[at + 2 + j] == tail[j];
    assert ClosesAt(line, at + 2 + |inner|);
    forall i | at + 2 <= i < at + 2 + |inner| ensures !ClosesAt(line, i) {
      assert !ClosesAt(tail, i - at - 2);
    }
    assert FindClose(line, at + 2) == Some(at + 2 + |inner|);
    LinkAtIs(line, at);
    assert line[at + 2..at + 2 + |inner|] == inner;
  }

  lemma {:induction false} PlainIsCopied(
    line: Bytes, before: Bytes, at: nat, site: Site, destination: Destination)
    requires IsPlain(before) && before <= line && at <= |before|
    ensures Render(Parse(line, at), site, destination)
            == before[at..] + Render(Parse(line, |before|), site, destination)
    ensures Unresolved(Parse(line, at), site) == Unresolved(Parse(line, |before|), site)
    decreases |before| - at
  {
    hide SegmentAt, NextAt, Render, Unresolved, PartsOf;
    if at < |before| {
      PlainIsText(line, before, at);
      ParseStep(line, at);
      PlainIsCopied(line, before, at + 1, site, destination);
      RenderCopied(Text(before[at]), Parse(line, at + 1), site, destination);
      assert before[at..] == [before[at]] + before[at + 1..];
    }
  }

  lemma FirstRendered(segment: Segment, rest: seq<Segment>, site: Site, destination: Destination)
    ensures Render([segment] + rest, site, destination)
            == RenderOne(segment, site, destination) + Render(rest, site, destination)
    ensures Unresolved([segment] + rest, site)
            == (if segment.Link? && Replacement(segment, site).None? then [Source(segment)] else [])
               + Unresolved(rest, site)
  {
    hide RenderOne, Replacement, Source;
    assert ([segment] + rest)[1..] == rest;
  }

  /** Plain text is copied, then comes what the link becomes, then what the rest of
      the line does. */
  lemma LinkRenderedInPlace(before: Bytes, inner: Bytes, after: Bytes, site: Site, destination: Destination)
    requires IsPlain(before) && Writable(inner)
    ensures var line, next := InPlace(before, inner, after), |before| + |inner| + 4;
            var segment := Link(inner, before != [] && before[|before| - 1] == BANG);
            && Render(Parse(line, 0), site, destination)
               == before + RenderOne(segment, site, destination) + Render(Parse(line, next), site, destination)
            && Unresolved(Parse(line, 0), site)
               == (if Replacement(segment, site).None? then [LineOf(inner)] else [])
                  + Unresolved(Parse(line, next), site)
  {
    hide SegmentAt, NextAt, Render, Unresolved, PartsOf, RenderOne, Replacement, Writable;
    var line, at := InPlace(before, inner, after), |before|;
    assert before <= line;
    PlainIsCopied(line, before, 0, site, destination);
    LinkInPlace(before, inner, after);
    ParseStep(line, at);
    var segment := SegmentAt(line, at);
    FirstRendered(segment, Parse(line, NextAt(line, at)), site, destination);
    assert before[0..] == before;
    assert Source(segment) == LineOf(inner);
  }

  // ----- what the link becomes -----

  /** How a page is named in a link: by its key, perhaps with slashes before it and
      `.md` behind it. */
  predicate Names(page: Bytes, lead: Bytes, core: Bytes, suffix: Bytes) {
    && page == lead + core + suffix
    && (forall i :: 0 <= i < |lead| ==> lead[i] == SLASH)
    && core != [] && core[0] != SLASH
    && (suffix == [46, 109, 100]
        || (suffix == [] && !(|core| >= 3 && core[|core| - 3..] == [46, 109, 100])))
  }

  lemma {:induction false} LeadingSlashesGo(lead: Bytes, rest: Bytes)
    requires (forall i :: 0 <= i < |lead| ==> lead[i] == SLASH) && rest != [] && rest[0] != SLASH
    ensures TrimLeadingSlashes(lead + rest) == rest
  {
    if lead == [] {
      assert lead + rest == rest;
    } else {
      assert (lead + rest)[1..] == lead[1..] + rest;
      LeadingSlashesGo(lead[1..], rest);
    }
  }

  lemma NamedIsResolved(site: Site, page: Bytes, lead: Bytes, core: Bytes, suffix: Bytes)
    requires Names(page, lead, core, suffix) && Trim(page) == page
    ensures Resolve(site, page)
            == if site.lower(core) in site.byKey then Some(site.byKey[site.lower(core)]) else None
  {
    hide Trim;
    assert page == lead + (core + suffix);
    LeadingSlashesGo(lead, core + suffix);
    var named := core + suffix;
    if suffix == [46, 109, 100] {
      assert named[|named| - 3..] == [46, 109, 100] && named[..|named| - 3] == core;
    } else {
      assert named == core;
    }
    assert StripSuffix(named, MD_SUFFIX) == core;
  }

  /** A link's page: the one it names, or, naming none, the page it stands on. */
  predicate PointsTo(site: Site, page: Bytes, lead: Bytes, core: Bytes, suffix: Bytes, name: Bytes) {
    || (page == [] && name == site.thisPage)
    || (&& Names(page, lead, core, suffix)
        && site.lower(core) in site.byKey && name == site.byKey[site.lower(core)])
  }

  /** What may be written in a link so that it is read back as it was meant. */
  predicate WellWritten(page: Bytes, heading: Option<Bytes>, alias: Option<Bytes>, inTable: bool) {
    && HASH !in page && Trim(page) == page
    && (heading.Some? ==> Trim(heading.value) == heading.value)
    && (alias.Some? ==> Trim(alias.value) == alias.value)
    && var target := Written(page, heading, None, false);
       PIPE !in target && (alias.Some? && !inTable && target != [] ==> target[|target| - 1] != BACKSLASH)
  }

  /** A link to a page of the site becomes `[label](address)`, or the label alone
      where there is no address. The label is the alias, or else the heading,
      behind the page if one is named, or else the page. */
  lemma LinkBecomes(
    site: Site, destination: Destination,
    page: Bytes, heading: Option<Bytes>, alias: Option<Bytes>, inTable: bool,
    lead: Bytes, core: Bytes, suffix: Bytes, name: Bytes)
    requires WellWritten(page, heading, alias, inTable)
    requires PointsTo(site, page, lead, core, suffix, name)
    ensures var arrow: Bytes, middle: Bytes, end: Bytes := [32, 62, 32], [CLOSE, 40], [41];
            var shown :=
              if alias.Some? && alias.value != [] then alias.value
              else if heading.None? then page
              else if page == [] then heading.value
              else page + arrow + heading.value;
            var anchor := if heading.Some? && heading.value != [] then Some(site.slug(heading.value)) else None;
            var address := destination(name, anchor);
            LinkMarkdown(Written(page, heading, alias, inTable), site, destination)
            == Some(if address.Some? then [OPEN] + shown + middle + address.value + end else shown)
  {
    hide Trim, Resolve, Written, WellWritten, PartsOf;
    WrittenReadsBack(site, page, heading, alias, inTable);
    if page != [] {
      PointsResolve(site, page, heading, alias, inTable, lead, core, suffix, name);
    }
  }

  lemma WrittenReadsBack(site: Site, page: Bytes, heading: Option<Bytes>, alias: Option<Bytes>, inTable: bool)
    requires WellWritten(page, heading, alias, inTable)
    ensures PartsOf(Written(page, heading, alias, inTable), site) == PartsFrom(page, alias, heading, site)
  {
    hide Trim, PartsOf, PartsFrom;
    WrittenLinkReadsBack(page, heading, alias, inTable, site);
  }

  lemma PointsResolve(
    site: Site, page: Bytes, heading: Option<Bytes>, alias: Option<Bytes>, inTable: bool,
    lead: Bytes, core: Bytes, suffix: Bytes, name: Bytes)
    requires WellWritten(page, heading, alias, inTable)
    requires PointsTo(site, page, lead, core, suffix, name) && page != []
    ensures Resolve(site, page) == Some(name)
  {
    hide Trim, Resolve, Written, Names;
    NamedIsResolved(site, page, lead, core, suffix);
  }

  /** Anywhere after plain text that does not end in `!`, a link to a page becomes
      just that, and nothing else of the line changes. */
  lemma LinkIsRewritten(site: Site, destination: Destination, before: Bytes, inner: Bytes, after: Bytes)
    requires IsPlain(before) && (before != [] ==> before[|before| - 1] != BANG)
    requires Writable(inner) && LinkMarkdown(inner, site, destination).Some?
    ensures var line, next := before + [OPEN, OPEN] + inner + [CLOSE, CLOSE] + after, |before| + |inner| + 4;
            && Render(Parse(line, 0), site, destination)
               == before + LinkMarkdown(inner, site, destination).value
                  + Render(Parse(line, next), site, destination)
            && Unresolved(Parse(line, 0), site) == Unresolved(Parse(line, next), site)
  {
    hide Parse, Render, Unresolved, Writable, PartsOf, Shown, IsPlain;
    assert before + [OPEN, OPEN] + inner + [CLOSE, CLOSE] + after == InPlace(before, inner, after);
    LinkRenderedInPlace(before, inner, after, site, destination);
  }

  /** A line that is nothing but such a link becomes nothing but that. */
  lemma LoneLinkIsRewritten(site: Site, destination: Destination, inner: Bytes)
    requires Writable(inner) && LinkMarkdown(inner, site, destination).Some?
    ensures var segments := Parse([OPEN, OPEN] + inner + [CLOSE, CLOSE], 0);
            && Render(segments, site, destination) == LinkMarkdown(inner, site, destination).value
            && Unresolved(segments, site) == []
  {
    hide LinkMarkdown, Writable, Render, Unresolved, SegmentAt, NextAt;
    var line := [OPEN, OPEN] + inner + [CLOSE, CLOSE];
    assert [] + [OPEN, OPEN] + inner + [CLOSE, CLOSE] + [] == line;
    LinkIsRewritten(site, destination, [], inner, []);
    assert Parse(line, |line|) == [];
    NothingRendered(site, destination);
  }

  lemma NothingRendered(site: Site, destination: Destination)
    ensures Render([], site, destination) == [] && Unresolved([], site) == []
  {
  }

  /** A link to no page of the site, and any link behind a `!`, stays as it is, and
      is the next one in the unresolved list. */
  lemma LinkIsLeft(
    site: Site, destination: Destination, before: Bytes, after: Bytes,
    page: Bytes, heading: Option<Bytes>, alias: Option<Bytes>, inTable: bool,
    lead: Bytes, core: Bytes, suffix: Bytes)
    requires IsPlain(before)
    requires WellWritten(page, heading, alias, inTable) && Writable(Written(page, heading, alias, inTable))
    requires || (before != [] && before[|before| - 1] == BANG)
             || (Names(page, lead, core, suffix) && site.lower(core) !in site.byKey)
    ensures var inner := Written(page, heading, alias, inTable);
            var link := [OPEN, OPEN] + inner + [CLOSE, CLOSE];
            var line, next := before + link + after, |before| + |link|;
            && Render(Parse(line, 0), site, destination)
               == before + link + Render(Parse(line, next), site, destination)
            && Unresolved(Parse(line, 0), site) == [link] + Unresolved(Parse(line, next), site)
  {
    hide Parse, Render, Unresolved, Trim, Writable, Resolve, SplitAlias, SplitHeading;
    var inner := Written(page, heading, alias, inTable);
    assert before + ([OPEN, OPEN] + inner + [CLOSE, CLOSE]) + after == InPlace(before, inner, after);
    LinkRenderedInPlace(before, inner, after, site, destination);
    WrittenLinkReadsBack(page, heading, alias, inTable, site);
    if Names(page, lead, core, suffix) { NamedIsResolved(site, page, lead, core, suffix); }
  }

  // ----- white space -----

  /** White space, one char after another. */
  predicate AllWhite(s: Bytes)
    decreases |s|
  {
    s == [] || (WhiteHead(s) > 0 && AllWhite(s[WhiteHead(s)..]))
  }

  lemma StartStep(s: Bytes)
    ensures WhiteHead(s) == 0 ==> TrimStart(s) == s
    ensures WhiteHead(s) > 0 ==> TrimStart(s) == TrimStart(s[WhiteHead(s)..])
  {
    hide WhiteHead, IsValid;
  }

  lemma WhiteThenWhite(s: Bytes, rest: Bytes)
    requires WhiteHead(s) > 0 && AllWhite(rest)
    ensures AllWhite(s[..WhiteHead(s)] + rest)
  {
    WhiteHeadOfPrefix(s, rest);
    hide WhiteHead;
    assert (s[..WhiteHead(s)] + rest)[WhiteHead(s)..] == rest;
  }

  /** Trimming the start takes white space off it, all there is and nothing else. */
  lemma {:induction false} TrimStartIs(s: Bytes) returns (lead: Bytes)
    ensures s == lead + TrimStart(s) && AllWhite(lead) && WhiteHead(TrimStart(s)) == 0
    decreases |s|
  {
    hide WhiteHead, IsValid, TrimStart, AllWhite;
    StartStep(s);
    var n := WhiteHead(s);
    if n == 0 {
      EmptyIsWhite();
      lead := [];
    } else {
      var rest := TrimStartIs(s[n..]);
      lead := s[..n] + rest;
      WhiteThenWhite(s, rest);
      assert s == s[..n] + (rest + TrimStart(s));
    }
  }

  lemma EmptyIsWhite()
    ensures AllWhite([])
  {
  }

  lemma WhiteHeadOfPrefix(s: Bytes, rest: Bytes)
    requires WhiteHead(s) > 0
    ensures WhiteHead(s[..WhiteHead(s)] + rest) == WhiteHead(s)
  {
  }

  lemma TailIsWhite(s: Bytes)
    requires WhiteTail(s) > 0
    ensures WhiteHead(s[|s| - WhiteTail(s)..]) == WhiteTail(s)
  {
  }

  lemma {:induction false} AllWhiteJoin(a: Bytes, b: Bytes)
    requires AllWhite(a) && AllWhite(b)
    ensures AllWhite(a + b)
    decreases |a|
  {
    if a == [] {
      assert a + b == b;
    } else {
      var n := WhiteHead(a);
      WhiteHeadOfWhole(a, b);
      hide WhiteHead;
      assert (a + b)[n..] == a[n..] + b;
      AllWhiteJoin(a[n..], b);
    }
  }

  lemma EndStep(s: Bytes)
    ensures WhiteTail(s) == 0 ==> TrimEnd(s) == s
    ensures WhiteTail(s) > 0 ==> TrimEnd(s) == TrimEnd(s[..|s| - WhiteTail(s)])
  {
    hide WhiteTail, IsValid;
  }

  lemma OneIsWhite(s: Bytes)
    requires s != [] && WhiteHead(s) == |s|
    ensures AllWhite(s)
  {
    hide WhiteHead;
    assert s[|s|..] == [];
  }

  lemma {:induction false} TrimEndIs(s: Bytes) returns (tail: Bytes)
    ensures s == TrimEnd(s) + tail && AllWhite(tail)
    decreases |s|
  {
    hide WhiteHead, WhiteTail, IsValid, IsBoundary, TrimEnd, AllWhite;
    EndStep(s);
    var n := WhiteTail(s);
    if n == 0 {
      EmptyIsWhite();
      tail := [];
    } else {
      TailIsWhite(s);
      var before, last := s[..|s| - n], s[|s| - n..];
      OneIsWhite(last);
      var rest := TrimEndIs(before);
      AllWhiteJoin(rest, last);
      tail := rest + last;
      assert s == before + last;
      assert before + last == TrimEnd(before) + (rest + last);
    }
  }

  /** Trimming takes white space off both ends, all there is and nothing else. */
  lemma TrimIs(s: Bytes) returns (lead: Bytes, tail: Bytes)
    ensures s == lead + Trim(s) + tail && AllWhite(lead) && AllWhite(tail)
    ensures WhiteHead(Trim(s)) == 0 && WhiteTail(Trim(s)) == 0
  {
    hide WhiteHead, WhiteTail, IsValid, TrimStart, TrimEnd, AllWhite;
    lead := TrimStartIs(s);
    tail := TrimEndIs(TrimStart(s));
    assert lead + TrimStart(s) == lead + (Trim(s) + tail);
    if WhiteHead(Trim(s)) > 0 { WhiteHeadOfWhole(Trim(s), tail); }
  }

  // ----- fences -----

  function Copies(b: Byte, n: nat): (r: Bytes) {
    seq(n, _ => b)
  }

  lemma {:induction false} RunOfCopies(b: Byte, n: nat, rest: Bytes)
    requires rest != [] ==> rest[0] != b
    ensures LeadingRun(Copies(b, n) + rest, b) == n
  {
    if n == 0 {
      assert Copies(b, 0) + rest == rest;
    } else {
      assert (Copies(b, n) + rest)[1..] == Copies(b, n - 1) + rest;
      RunOfCopies(b, n - 1, rest);
    }
  }

  lemma {:induction false} WhiteGoes(lead: Bytes, s: Bytes)
    requires AllWhite(lead) && WhiteHead(s) == 0
    ensures TrimStart(lead + s) == s
    decreases |lead|
  {
    if lead == [] {
      assert lead + s == s;
    } else {
      var n := WhiteHead(lead);
      WhiteHeadOfWhole(lead, s);
      assert (lead + s)[n..] == lead[n..] + s;
      WhiteGoes(lead[n..], s);
    }
  }

  lemma WhiteHeadOfWhole(lead: Bytes, s: Bytes)
    requires WhiteHead(lead) > 0
    ensures WhiteHead(lead + s) == WhiteHead(lead)
  {
  }

  /** White space, then three or more of one of the two markers: that is a fence
      marker of just so many. */
  lemma FenceIsMarker(lead: Bytes, marker: Byte, n: nat, rest: Bytes)
    requires AllWhite(lead) && (marker == TICK || marker == TILDE) && n > 0 && (rest != [] ==> rest[0] != marker)
    ensures MarkerOf(lead + Copies(marker, n) + rest) == if n >= 3 then Some(Fence(marker, n)) else None
  {
    hide AllWhite;
    var s := Copies(marker, n) + rest;
    assert s[0] == marker;
    assert WhiteHead(s) == 0;
    assert lead + Copies(marker, n) + rest == lead + s;
    WhiteGoes(lead, s);
    RunOfCopies(marker, n, rest);
  }

  /** A line that begins, after its white space, with neither marker has none. */
  lemma OtherIsNoMarker(lead: Bytes, s: Bytes)
    requires AllWhite(lead) && WhiteHead(s) == 0 && (s != [] ==> s[0] != TICK && s[0] != TILDE)
    ensures MarkerOf(lead + s) == None
  {
    hide AllWhite, WhiteHead;
    WhiteGoes(lead, s);
  }

  /** The line closes a fence of `n` markers: as many of the same, or more. */
  predicate Closes(line: Bytes, marker: Byte, n: nat) {
    var m := MarkerOf(line);
    m.Some? && m.value.marker == marker && m.value.len >= n
  }

  function Trues(n: nat): (r: seq<bool>) {
    seq(n, _ => true)
  }

  lemma {:induction false} OpenStaysCode(body: seq<Bytes>, rest: seq<Bytes>, open: Fence)
    requires forall i :: 0 <= i < |body| ==> !Closes(body[i], open.marker, open.len)
    ensures CodeFlags(body + rest, Some(open)) == Trues(|body|) + CodeFlags(rest, Some(open))
  {
    hide MarkerOf;
    if body == [] {
      assert body + rest == rest;
    } else {
      assert !Closes(body[0], open.marker, open.len);
      assert (body + rest)[1..] == body[1..] + rest;
      OpenStaysCode(body[1..], rest, open);
      assert Trues(|body|) == [true] + Trues(|body| - 1);
    }
  }

  lemma FlagsStep(line: Bytes, rest: seq<Bytes>, open: Option<Fence>)
    ensures CodeFlags([line] + rest, open)
            == [StepFence(open, MarkerOf(line)).1] + CodeFlags(rest, StepFence(open, MarkerOf(line)).0)
  {
    hide MarkerOf, StepFence;
    assert ([line] + rest)[1..] == rest;
  }

  /** A fenced block is code from its opening line to the first line that closes
      it, both included; after that the page goes on as if from its start. */
  lemma BlockIsCode(opening: Bytes, body: seq<Bytes>, closing: Bytes, rest: seq<Bytes>)
    requires MarkerOf(opening).Some?
    requires var fence := MarkerOf(opening).value;
             && (forall i :: 0 <= i < |body| ==> !Closes(body[i], fence.marker, fence.len))
             && Closes(closing, fence.marker, fence.len)
    ensures CodeFlags([opening] + body + [closing] + rest, None)
            == [true] + Trues(|body|) + [true] + CodeFlags(rest, None)
  {
    hide MarkerOf, CodeFlags;
    var fence := MarkerOf(opening).value;
    assert [opening] + body + [closing] + rest == [opening] + (body + ([closing] + rest));
    FlagsStep(opening, body + ([closing] + rest), None);
    OpenStaysCode(body, [closing] + rest, fence);
    FlagsStep(closing, rest, Some(fence));
  }

  /** A block that nothing closes is code to the end of the page. */
  lemma OpenBlockIsCode(opening: Bytes, body: seq<Bytes>)
    requires MarkerOf(opening).Some?
    requires var fence := MarkerOf(opening).value;
             forall i :: 0 <= i < |body| ==> !Closes(body[i], fence.marker, fence.len)
    ensures CodeFlags([opening] + body, None) == [true] + Trues(|body|)
  {
    hide MarkerOf;
    FlagsStep(opening, body, None);
    OpenStaysCode(body, [], MarkerOf(opening).value);
    assert body + [] == body;
  }

  /** A line outside every block that opens none is prose. */
  lemma ProseIsProse(line: Bytes, rest: seq<Bytes>)
    requires MarkerOf(line).None?
    ensures CodeFlags([line] + rest, None) == [false] + CodeFlags(rest, None)
  {
    hide MarkerOf;
    FlagsStep(line, rest, None);
  }
}

/** The manual's wikilink rewriter on one prose line
    (src/docs_bundle.rs, `rewrite_line`).

    A line is a sequence of segments: code spans, wikilinks outside them, and
    single bytes of other text. `IsParse` says by local conditions what a
    segmentation is, `ParseUnique` shows there is only one, and the byte
    scanner with its splice bookkeeping is proved to render exactly it. */
module Wikilinks {
  import opened Prelude
  import opened Utf8
  import opened ManualLinks

  datatype Segment =
    | Text(byte: Byte)
    | Code(ticks: nat, body: Bytes, closed: bool)
    | Link(inner: Bytes, embed: bool)

  function Ticks(n: nat): (r: Bytes) {
    seq(n, _ => TICK)
  }

  /** The bytes of the line a segment stands for. */
  function Source(segment: Segment): (r: Bytes)
    ensures segment.Link? ==> |r| == |segment.inner| + 4
    ensures segment.Text? ==> |r| == 1
    ensures segment.Code? ==> |r| == |segment.body| + segment.ticks * (if segment.closed then 2 else 1)
  {
    match segment
    case Text(b) => [b]
    case Code(n, body, closed) => Ticks(n) + body + (if closed then Ticks(n) else [])
    case Link(inner, _) => [OPEN, OPEN] + inner + [CLOSE, CLOSE]
  }

  function Flatten(segments: seq<Segment>): (r: Bytes) {
    if segments == [] then [] else Source(segments[0]) + Flatten(segments[1..])
  }

  // ----- what a segmentation of a line is -----

  predicate ClosesAt(line: Bytes, i: nat) {
    i + 2 <= |line| && line[i] == CLOSE && line[i + 1] == CLOSE
  }

  /** `[[` at `at` with a `]]` somewhere after it. */
  ghost predicate LinkOpens(line: Bytes, at: nat) {
    && at + 2 <= |line| && line[at] == OPEN && line[at + 1] == OPEN
    && exists i :: at + 2 <= i && ClosesAt(line, i)
  }

  /** A run of exactly `n` backticks, neither side of it a backtick. */
  ghost predicate RunAt(line: Bytes, i: nat, n: nat) {
    && n > 0 && i + n <= |line|
    && (forall k :: i <= k < i + n ==> line[k] == TICK)
    && (i == 0 || line[i - 1] != TICK)
    && (i + n == |line| || line[i + n] != TICK)
  }

  /** `segment` is the one that starts at `at`. */
  ghost predicate StartsAt(segment: Segment, line: Bytes, at: nat) {
    var end := at + |Source(segment)|;
    && end <= |line|
    && line[at..end] == Source(segment)
    && match segment
       case Text(b) => b != TICK && !LinkOpens(line, at)
       case Code(n, _, closed) =>
         && n > 0
         && (at + n == |line| || line[at + n] != TICK)
         && (if closed
             then RunAt(line, end - n, n) && forall i :: at + n <= i < end - n ==> !RunAt(line, i, n)
             else end == |line| && forall i :: at + n <= i ==> !RunAt(line, i, n))
       case Link(_, embed) =>
         && ClosesAt(line, end - 2)
         && (forall i :: at + 2 <= i < end - 2 ==> !ClosesAt(line, i))
         && embed == (at > 0 && line[at - 1] == BANG)
  }

  ghost predicate IsParse(segments: seq<Segment>, line: Bytes, at: nat)
    decreases |segments|
  {
    if segments == [] then at == |line|
    else
      && 0 < |Source(segments[0])| <= |line| - at
      && StartsAt(segments[0], line, at)
      && IsParse(segments[1..], line, at + |Source(segments[0])|)
  }

  // ----- the segmentation, computed -----

  /** How many backticks stand at `at`. */
  function TickRun(line: Bytes, at: nat): (n: nat)
    requires at <= |line|
    ensures at + n <= |line|
    ensures forall k :: at <= k < at + n ==> line[k] == TICK
    ensures at + n == |line| || line[at + n] != TICK
    decreases |line| - at
  {
    if at < |line| && line[at] == TICK then 1 + TickRun(line, at + 1) else 0
  }

  /** The first `]]` at or after `from`: `str::find("]]")`. */
  function FindClose(line: Bytes, from: nat): (r: Option<nat>)
    requires from <= |line|
    ensures r.Some? ==> from <= r.value && ClosesAt(line, r.value)
    ensures r.Some? ==> forall i :: from <= i < r.value ==> !ClosesAt(line, i)
    ensures r.None? ==> forall i :: from <= i ==> !ClosesAt(line, i)
    decreases |line| - from
  {
    if from == |line| then None
    else if ClosesAt(line, from) then Some(from)
    else FindClose(line, from + 1)
  }

  /** `from` is not strictly inside a run of backticks. */
  predicate Aligned(line: Bytes, from: nat) {
    from <= |line| && (0 < from < |line| && line[from] == TICK ==> line[from - 1] != TICK)
  }

  /** Where the first run of exactly `n` backticks at or after `from` starts. */
  function FindRun(line: Bytes, from: nat, n: nat): (r: Option<nat>)
    requires n > 0 && Aligned(line, from)
    ensures r.Some? ==> from <= r.value && RunAt(line, r.value, n)
    ensures r.Some? ==> forall i :: from <= i < r.value ==> !RunAt(line, i, n)
    ensures r.None? ==> forall i :: from <= i ==> !RunAt(line, i, n)
    decreases |line| - from
  {
    if from == |line| then None
    else if line[from] == TICK then
      var run := TickRun(line, from);
      if run == n then Some(from)
      else
        FindRun(line, from + run, n)
    else FindRun(line, from + 1, n)
  }

  /** The segment that starts at `at`. */
  function SegmentAt(line: Bytes, at: nat): (r: Segment)
    requires at < |line|
    ensures 0 < |Source(r)| <= |line| - at
  {
    if line[at] == TICK then
      var n := TickRun(line, at);
      var run := FindRun(line, at + n, n);
      if run.Some? then Code(n, line[at + n..run.value], true) else Code(n, line[at + n..], false)
    else if at + 2 <= |line| && line[at] == OPEN && line[at + 1] == OPEN
            && FindClose(line, at + 2).Some? then
      Link(line[at + 2..FindClose(line, at + 2).value], at > 0 && line[at - 1] == BANG)
    else Text(line[at])
  }

  /** Where the segment that starts at `at` ends. */
  function NextAt(line: Bytes, at: nat): (r: nat)
    requires at < |line|
    ensures at < r <= |line|
  {
    at + |Source(SegmentAt(line, at))|
  }

  function Parse(line: Bytes, at: nat): (r: seq<Segment>)
    requires at <= |line|
    decreases |line| - at
  {
    if at == |line| then [] else [SegmentAt(line, at)] + Parse(line, NextAt(line, at))
  }

  lemma CodeSource(line: Bytes, at: nat)
    requires at < |line| && line[at] == TICK
    ensures line[at..at + |Source(SegmentAt(line, at))|] == Source(SegmentAt(line, at))
  {
    hide FindRun, RunAt;
    var segment := SegmentAt(line, at);
    var n := TickRun(line, at);
    assert line[at..at + n] == Ticks(n);
    if segment.closed {
      var p := FindRun(line, at + n, n).value;
      RunIsTicks(line, p, n);
      assert line[at..p + n] == line[at..at + n] + line[at + n..p] + line[p..p + n];
    } else {
      assert line[at..] == line[at..at + n] + line[at + n..];
    }
  }

  lemma RunIsTicks(line: Bytes, i: nat, n: nat)
    requires RunAt(line, i, n)
    ensures i + n <= |line| && line[i..i + n] == Ticks(n)
  {
  }

  lemma CodeAtStartsAt(line: Bytes, at: nat)
    requires at < |line| && line[at] == TICK
    ensures StartsAt(SegmentAt(line, at), line, at)
  {
    CodeSource(line, at);
    hide RunAt;
    var segment := SegmentAt(line, at);
    var n := segment.ticks;
    var run := FindRun(line, at + n, n);
    if segment.closed {
      assert at + |Source(segment)| - n == run.value;
    }
  }

  lemma SegmentAtStartsAt(line: Bytes, at: nat)
    requires at < |line|
    ensures StartsAt(SegmentAt(line, at), line, at)
  {
    if line[at] == TICK {
      CodeAtStartsAt(line, at);
    } else {
      var segment := SegmentAt(line, at);
      var end := at + |Source(segment)|;
      if segment.Link? {
        assert line[at..end] == line[at..at + 2] + line[at + 2..end - 2] + line[end - 2..end];
      }
    }
  }

  lemma SegmentAtSource(line: Bytes, at: nat)
    requires at < |line|
    ensures line[at..at + |Source(SegmentAt(line, at))|] == Source(SegmentAt(line, at))
  {
    hide SegmentAt;
    SegmentAtStartsAt(line, at);
  }

  /** Some segmentation exists, whatever the line. */
  lemma {:induction false} ParseIsParse(line: Bytes, at: nat)
    requires at <= |line|
    ensures IsParse(Parse(line, at), line, at)
    decreases |line| - at
  {
    hide SegmentAt, StartsAt;
    if at < |line| {
      SegmentAtStartsAt(line, at);
      var segment := SegmentAt(line, at);
      ParseIsParse(line, at + |Source(segment)|);
      assert Parse(line, at)[1..] == Parse(line, at + |Source(segment)|);
    }
  }

  /** The local conditions leave no choice of what starts at `at`. */
  lemma StartsAtUnique(a: Segment, b: Segment, line: Bytes, at: nat)
    requires StartsAt(a, line, at) && StartsAt(b, line, at)
    requires |Source(a)| > 0 && |Source(b)| > 0
    ensures a == b
  {
    assert line[at] == Source(a)[0] == Source(b)[0];
    if a.Code? || b.Code? {
      assert a.Code? && b.Code?;
      CodeUnique(a, b, line, at);
    } else if a.Link? || b.Link? {
      LinkIsNotText(a, b, line, at);
      LinkIsNotText(b, a, line, at);
      var p, q := at + |Source(a)| - 2, at + |Source(b)| - 2;
      assert p == q;
      assert a.inner == Source(a)[2..|Source(a)| - 2] == b.inner;
    }
  }

  lemma LinkIsNotText(a: Segment, b: Segment, line: Bytes, at: nat)
    requires StartsAt(a, line, at) && StartsAt(b, line, at)
    requires a.Link?
    ensures !b.Text?
  {
    var end := at + |Source(a)|;
    assert line[at] == line[at..end][0] && line[at + 1] == line[at..end][1];
    assert ClosesAt(line, end - 2);
    assert LinkOpens(line, at);
  }

  lemma CodeUnique(a: Segment, b: Segment, line: Bytes, at: nat)
    requires a.Code? && b.Code?
    requires StartsAt(a, line, at) && StartsAt(b, line, at)
    ensures a == b
  {
    var n, m := a.ticks, b.ticks;
    var endA, endB := at + |Source(a)|, at + |Source(b)|;
    assert forall k :: 0 <= k < n ==> line[at + k] == line[at..endA][k] == TICK;
    assert forall k :: 0 <= k < m ==> line[at + k] == line[at..endB][k] == TICK;
    assert n == m;
    assert a.closed == b.closed;
    assert endA == endB;
    assert a.body == Source(a)[n..n + |a.body|] == b.body;
  }

  /** No line has two segmentations. */
  lemma {:induction false} ParseUnique(a: seq<Segment>, b: seq<Segment>, line: Bytes, at: nat)
    requires IsParse(a, line, at) && IsParse(b, line, at)
    ensures a == b
    decreases |a|
  {
    hide StartsAt;
    if a != [] && b != [] {
      StartsAtUnique(a[0], b[0], line, at);
      ParseUnique(a[1..], b[1..], line, at + |Source(a[0])|);
      assert a == [a[0]] + a[1..] && b == [b[0]] + b[1..];
    }
  }

  lemma ParseStep(line: Bytes, at: nat)
    requires at < |line|
    ensures line[at..NextAt(line, at)] == Source(SegmentAt(line, at))
    ensures Parse(line, at) == [SegmentAt(line, at)] + Parse(line, NextAt(line, at))
  {
    hide SegmentAt, Source;
    SegmentAtSource(line, at);
  }

  /** The segments are the line, every byte once and in order. */
  lemma {:induction false} ParseFlatten(line: Bytes, at: nat)
    requires at <= |line|
    ensures Flatten(Parse(line, at)) == line[at..]
    decreases |line| - at
  {
    hide SegmentAt, NextAt, Source;
    if at < |line| {
      ParseStep(line, at);
      var next := NextAt(line, at);
      ParseFlatten(line, next);
      assert Parse(line, at)[1..] == Parse(line, next);
      assert line[at..] == line[at..next] + line[next..];
    }
  }

  // ----- rendering -----

  /** Whether a segment is replaced, and by what. */
  function Replacement(segment: Segment, site: Site): (r: Option<LinkParts>) {
    if segment.Link? && !segment.embed then PartsOf(segment.inner, site) else None
  }

  function RenderOne(segment: Segment, site: Site, destination: Destination): (r: Bytes) {
    match Replacement(segment, site)
    case Some(parts) => Shown(parts, destination)
    case None => Source(segment)
  }

  function Render(segments: seq<Segment>, site: Site, destination: Destination): (r: Bytes) {
    if segments == [] then []
    else RenderOne(segments[0], site, destination) + Render(segments[1..], site, destination)
  }

  /** The wikilinks left as written, in order. */
  function Unresolved(segments: seq<Segment>, site: Site): (r: seq<Bytes>) {
    if segments == [] then []
    else
      (if segments[0].Link? && Replacement(segments[0], site).None? then [Source(segments[0])] else [])
      + Unresolved(segments[1..], site)
  }

  lemma {:induction false} RenderAppend(a: seq<Segment>, b: seq<Segment>, site: Site, destination: Destination)
    ensures Render(a + b, site, destination) == Render(a, site, destination) + Render(b, site, destination)
    ensures Unresolved(a + b, site) == Unresolved(a, site) + Unresolved(b, site)
    decreases |a|
  {
    hide RenderOne, Replacement, Source;
    if a == [] {
      assert a + b == b;
    } else {
      assert (a + b)[1..] == a[1..] + b;
      RenderAppend(a[1..], b, site, destination);
    }
  }

  lemma RenderSnoc(a: seq<Segment>, last: Segment, site: Site, destination: Destination)
    ensures Render(a + [last], site, destination)
            == Render(a, site, destination) + RenderOne(last, site, destination)
    ensures Unresolved(a + [last], site)
            == if last.Link? && Replacement(last, site).None?
               then Unresolved(a, site) + [Source(last)] else Unresolved(a, site)
  {
    RenderAppend(a, [last], site, destination);
    assert [last][1..] == [];
    assert Render([last], site, destination) == RenderOne(last, site, destination);
  }

  lemma RenderCopied(segment: Segment, rest: seq<Segment>, site: Site, destination: Destination)
    requires !segment.Link?
    ensures Render([segment] + rest, site, destination) == Source(segment) + Render(rest, site, destination)
    ensures Unresolved([segment] + rest, site) == Unresolved(rest, site)
  {
    assert ([segment] + rest)[1..] == rest;
  }

  /** With no `]]` left, nothing more is a link: the scanner may stop early. */
  lemma {:induction false} NoCloseNoLinks(line: Bytes, at: nat, site: Site, destination: Destination)
    requires at <= |line|
    requires forall i :: at <= i ==> !ClosesAt(line, i)
    ensures Render(Parse(line, at), site, destination) == line[at..]
    ensures Unresolved(Parse(line, at), site) == []
    decreases |line| - at
  {
    hide SegmentAt, Source, Render, Unresolved;
    if at < |line| {
      NoCloseNotLink(line, at);
      SegmentAtSource(line, at);
      var segment := SegmentAt(line, at);
      var next := at + |Source(segment)|;
      NoCloseNoLinks(line, next, site, destination);
      RenderCopied(segment, Parse(line, next), site, destination);
      assert line[at..] == line[at..next] + line[next..];
    } else {
      RenderNothing(site, destination);
    }
  }

  lemma RenderNothing(site: Site, destination: Destination)
    ensures Render([], site, destination) == []
    ensures Unresolved([], site) == []
  {
  }

  lemma NoCloseNotLink(line: Bytes, at: nat)
    requires at < |line|
    requires forall i :: at <= i ==> !ClosesAt(line, i)
    ensures !SegmentAt(line, at).Link?
  {
  }

  /** What the scanner knows after the segments `passed`, which end at `start`:
      everything before `copied` is rendered, the rest is still to be copied. */
  ghost predicate Spliced(
    line: Bytes, start: nat, copied: nat, out: Bytes, unresolved: seq<Bytes>,
    before: Bytes, missing: seq<Bytes>, passed: seq<Segment>, site: Site, destination: Destination)
  {
    && copied <= start <= |line|
    && Parse(line, 0) == passed + Parse(line, start)
    && out + line[copied..start] == before + Render(passed, site, destination)
    && unresolved == missing + Unresolved(passed, site)
    && IsBoundary(line, copied)
    && (Sound(before, site, destination) ==> IsValid(out))
  }

  /** All that comes from outside the line is valid UTF-8. */
  ghost predicate Sound(before: Bytes, site: Site, destination: Destination) {
    IsValid(before) && SiteIsValid(site) && DestinationIsValid(destination)
  }

  lemma NothingSpliced(line: Bytes, before: Bytes, missing: seq<Bytes>, site: Site, destination: Destination)
    requires IsValid(line)
    ensures Spliced(line, 0, 0, before, missing, before, missing, [], site, destination)
  {
    hide Parse;
    StartIsBoundary(line);
    assert [] + Parse(line, 0) == Parse(line, 0);
    assert before + line[0..0] == before + [];
  }

  /** Passing a segment that is copied leaves `copied` where it was. */
  lemma CopySegment(
    line: Bytes, start: nat, copied: nat, out: Bytes, unresolved: seq<Bytes>,
    before: Bytes, missing: seq<Bytes>, passed: seq<Segment>, site: Site, destination: Destination)
    requires start < |line|
    requires Spliced(line, start, copied, out, unresolved, before, missing, passed, site, destination)
    requires Replacement(SegmentAt(line, start), site).None?
    ensures Spliced(
              line, NextAt(line, start), copied, out,
              if SegmentAt(line, start).Link?
              then unresolved + [line[start..NextAt(line, start)]] else unresolved,
              before, missing, passed + [SegmentAt(line, start)], site, destination)
  {
    hide SegmentAt, NextAt, PartsOf, Source, Parse, Render, Unresolved, IsValid, Sound;
    ParseStep(line, start);
    var segment := SegmentAt(line, start);
    RenderSnoc(passed, segment, site, destination);
    var end := NextAt(line, start);
    assert out + line[copied..end] == out + line[copied..start] + line[start..end];
    assert before + Render(passed, site, destination) + Source(segment)
        == before + (Render(passed, site, destination) + Source(segment));
    assert passed + Parse(line, start) == passed + [segment] + Parse(line, end);
  }

  lemma ReplacementIsValid(
    line: Bytes, start: nat, copied: nat, out: Bytes, segment: Segment, site: Site, destination: Destination)
    requires IsValid(line) && copied <= start <= |line| && IsBoundary(line, copied) && IsBoundary(line, start)
    requires IsValid(out) && SiteIsValid(site) && DestinationIsValid(destination)
    requires Replacement(segment, site).Some? && IsValid(segment.inner)
    ensures IsValid(out + line[copied..start] + RenderOne(segment, site, destination))
  {
    hide IsValid, SiteIsValid, DestinationIsValid, PartsOf, Shown, IsBoundary;
    LinkMarkdownIsValid(segment.inner, site, destination);
    ValidAppend(out, Slice(line, copied, start));
    ValidAppend(out + line[copied..start], RenderOne(segment, site, destination));
  }

  /** Passing a link that is replaced copies up to it and skips over it. */
  lemma ReplaceLink(
    line: Bytes, start: nat, copied: nat, out: Bytes, shown: Bytes, unresolved: seq<Bytes>,
    before: Bytes, missing: seq<Bytes>, passed: seq<Segment>, site: Site, destination: Destination)
    requires start < |line| && IsBoundary(line, NextAt(line, start))
    requires Spliced(line, start, copied, out, unresolved, before, missing, passed, site, destination)
    requires Replacement(SegmentAt(line, start), site).Some?
    requires shown == RenderOne(SegmentAt(line, start), site, destination)
    requires Sound(before, site, destination) ==> IsValid(out + line[copied..start] + shown)
    ensures Spliced(
              line, NextAt(line, start), NextAt(line, start), out + line[copied..start] + shown, unresolved,
              before, missing, passed + [SegmentAt(line, start)], site, destination)
  {
    hide SegmentAt, NextAt, PartsOf, Source, Parse, Render, Unresolved, Shown, IsValid, Sound, IsBoundary;
    ParseStep(line, start);
    var segment := SegmentAt(line, start);
    RenderSnoc(passed, segment, site, destination);
    var end := NextAt(line, start);
    assert line[end..end] == [];
    assert out + line[copied..start] + shown == before + Render(passed, site, destination) + shown
        == before + (Render(passed, site, destination) + shown);
    assert passed + Parse(line, start) == passed + [segment] + Parse(line, end);
  }

  /** Passing a link, replaced or not. */
  lemma PassLink(
    line: Bytes, start: nat, copied: nat, out: Bytes, unresolved: seq<Bytes>, markdown: Option<Bytes>,
    before: Bytes, missing: seq<Bytes>, passed: seq<Segment>, site: Site, destination: Destination)
    requires IsValid(line) && start < |line| && SegmentAt(line, start).Link?
    requires IsValid(SegmentAt(line, start).inner)
    requires IsBoundary(line, start) && IsBoundary(line, NextAt(line, start))
    requires Spliced(line, start, copied, out, unresolved, before, missing, passed, site, destination)
    requires markdown == if SegmentAt(line, start).embed then None
                         else LinkMarkdown(SegmentAt(line, start).inner, site, destination)
    ensures var end := NextAt(line, start);
            Spliced(
              line, end,
              if markdown.Some? then end else copied,
              if markdown.Some? then out + line[copied..start] + markdown.value else out,
              if markdown.Some? then unresolved else unresolved + [line[start..end]],
              before, missing, passed + [SegmentAt(line, start)], site, destination)
  {
    hide SegmentAt, NextAt, PartsOf, Source, Parse, Render, Unresolved, Shown, IsValid, IsBoundary;
    hide SiteIsValid, DestinationIsValid;
    var segment := SegmentAt(line, start);
    if markdown.Some? {
      assert markdown.value == RenderOne(segment, site, destination);
      if Sound(before, site, destination) {
        ReplacementIsValid(line, start, copied, out, segment, site, destination);
      }
      ReplaceLink(line, start, copied, out, markdown.value, unresolved, before, missing, passed, site, destination);
    } else {
      CopySegment(line, start, copied, out, unresolved, before, missing, passed, site, destination);
    }
  }

  /** At the end of the line, copying the rest completes the rendering. */
  lemma Finish(
    line: Bytes, copied: nat, out: Bytes, unresolved: seq<Bytes>,
    before: Bytes, missing: seq<Bytes>, passed: seq<Segment>, site: Site, destination: Destination)
    requires Spliced(line, |line|, copied, out, unresolved, before, missing, passed, site, destination)
    ensures out + line[copied..] == before + Render(Parse(line, 0), site, destination)
    ensures unresolved == missing + Unresolved(Parse(line, 0), site)
  {
    hide PartsOf, Source, Render, Unresolved, IsValid;
    assert Parse(line, |line|) == [];
    assert passed + [] == passed;
    assert line[copied..|line|] == line[copied..];
  }

  /** With no `]]` left the scanner stops, and copying the rest is right. */
  lemma StopEarly(
    line: Bytes, at: nat, copied: nat, out: Bytes, unresolved: seq<Bytes>,
    before: Bytes, missing: seq<Bytes>, passed: seq<Segment>, site: Site, destination: Destination)
    requires Spliced(line, at, copied, out, unresolved, before, missing, passed, site, destination)
    requires forall i :: at <= i ==> !ClosesAt(line, i)
    ensures out + line[copied..] == before + Render(Parse(line, 0), site, destination)
    ensures unresolved == missing + Unresolved(Parse(line, 0), site)
  {
    hide PartsOf, Source, Render, Unresolved, Parse, ClosesAt, IsValid;
    NoCloseNoLinks(line, at, site, destination);
    RenderAppend(passed, Parse(line, at), site, destination);
    assert out + line[copied..] == out + line[copied..at] + line[at..];
    assert before + Render(passed, site, destination) + line[at..]
        == before + (Render(passed, site, destination) + line[at..]);
  }

  /** Copying the rest is on char boundaries and keeps the output valid. */
  lemma TailIsValid(line: Bytes, copied: nat, out: Bytes)
    requires IsValid(line) && copied <= |line| && IsBoundary(line, copied)
    ensures IsBoundary(line, |line|)
    ensures IsValid(out) ==> IsValid(out + line[copied..])
  {
    ValidSplit(line, copied);
    if IsValid(out) { ValidAppend(out, line[copied..]); }
  }

  // ----- which segment the scanner has in hand -----

  /** The scanner is inside the code span that opened at `start`. */
  predicate InCode(line: Bytes, start: nat, at: nat, ticks: nat) {
    && start < |line| && line[start] == TICK && ticks == TickRun(line, start)
    && start + ticks <= at && Aligned(line, at)
    && FindRun(line, at, ticks) == FindRun(line, start + ticks, ticks)
  }

  lemma EnterCode(line: Bytes, at: nat)
    requires at < |line| && line[at] == TICK
    ensures InCode(line, at, at + TickRun(line, at), TickRun(line, at))
  {
  }

  lemma StayInCode(line: Bytes, start: nat, at: nat, ticks: nat)
    requires InCode(line, start, at, ticks) && at < |line|
    requires line[at] == TICK ==> TickRun(line, at) != ticks
    ensures InCode(line, start, if line[at] == TICK then at + TickRun(line, at) else at + 1, ticks)
  {
  }

  lemma LeaveCode(line: Bytes, start: nat, at: nat, ticks: nat)
    requires InCode(line, start, at, ticks)
    requires at < |line| ==> line[at] == TICK && TickRun(line, at) == ticks
    ensures SegmentAt(line, start).Code?
    ensures NextAt(line, start) == if at == |line| then at else at + ticks
  {
  }

  /** Every index the scanner slices at around a link is a char boundary. */
  lemma LinkBoundaries(line: Bytes, at: nat)
    requires IsValid(line)
    requires at + 2 <= |line| && line[at] == OPEN && line[at + 1] == OPEN
    ensures IsBoundary(line, at) && IsBoundary(line, at + 2)
    ensures var close := FindClose(line, at + 2);
            close.Some? ==> IsBoundary(line, close.value) && IsBoundary(line, close.value + 2)
  {
    AsciiIsWholeChar(line, at);
    AsciiIsWholeChar(line, at + 1);
    var close := FindClose(line, at + 2);
    if close.Some? {
      AsciiIsWholeChar(line, close.value);
      AsciiIsWholeChar(line, close.value + 1);
    }
  }

  lemma LinkAtIs(line: Bytes, at: nat)
    requires at + 2 <= |line| && line[at] == OPEN && line[at + 1] == OPEN
    requires FindClose(line, at + 2).Some?
    ensures SegmentAt(line, at)
            == Link(line[at + 2..FindClose(line, at + 2).value], at > 0 && line[at - 1] == BANG)
    ensures NextAt(line, at) == FindClose(line, at + 2).value + 2
  {
  }

  lemma TextAtIs(line: Bytes, at: nat)
    requires at < |line| && line[at] != TICK
    requires at + 2 > |line| || line[at] != OPEN || line[at + 1] != OPEN
    ensures SegmentAt(line, at) == Text(line[at])
    ensures NextAt(line, at) == at + 1
  {
  }

  /** The scanner of the source: one pass over the bytes, copying lazily. */
  method RewriteLine(
    line: Bytes, site: Site, destination: Destination, before: Bytes, missing: seq<Bytes>)
    returns (out: Bytes, unresolved: seq<Bytes>)
    requires IsValid(line)
    ensures out == before + Render(Parse(line, 0), site, destination)
    ensures unresolved == missing + Unresolved(Parse(line, 0), site)
    ensures IsValid(before) && SiteIsValid(site) && DestinationIsValid(destination) ==> IsValid(out)
  {
    hide Parse, SegmentAt, NextAt, Source, Render, Unresolved, PartsOf, Shown, IsValid, InCode, IsBoundary;
    hide LinkMarkdown, SiteIsValid, DestinationIsValid, RunAt, RenderOne, Aligned;
    out, unresolved := before, missing;
    var codeTicks: nat, copied: nat, at: nat := 0, 0, 0;
    // The segments passed so far, and where the one being read started.
    ghost var passed: seq<Segment>, start: nat := [], 0;
    NothingSpliced(line, before, missing, site, destination);
    while at < |line|
      invariant start <= at <= |line|
      invariant Spliced(line, start, copied, out, unresolved, before, missing, passed, site, destination)
      invariant if codeTicks == 0 then start == at else InCode(line, start, at, codeTicks)
    {
      if line[at] == TICK {
        var run := TickRun(line, at);
        if codeTicks == 0 {
          codeTicks := run;
          EnterCode(line, at);
        } else if run == codeTicks {
          LeaveCode(line, start, at, codeTicks);
          CopySegment(line, start, copied, out, unresolved, before, missing, passed, site, destination);
          passed, start := passed + [SegmentAt(line, start)], at + run;
          codeTicks := 0;
        } else {
          StayInCode(line, start, at, codeTicks);
        }
        at := at + run;
        continue;
      }
      if codeTicks == 0 && at + 2 <= |line| && line[at] == OPEN && line[at + 1] == OPEN {
        LinkBoundaries(line, at);
        assert IsBoundary(line, at + 2);  // `line[at + 2..]` does not panic
        var close := FindClose(line, at + 2);
        if close.None? {
          StopEarly(line, at, copied, out, unresolved, before, missing, passed, site, destination);
          break;
        }
        LinkAtIs(line, at);
        var inner := Slice(line, at + 2, close.value);
        var end := close.value + 2;
        var embed := at > 0 && line[at - 1] == BANG;
        var link := if embed then None else LinkMarkdown(inner, site, destination);
        PassLink(line, at, copied, out, unresolved, link, before, missing, passed, site, destination);
        match link {
          case Some(markdown) =>
            out := out + Slice(line, copied, at) + markdown;
            copied := end;
          case None =>
            unresolved := unresolved + [Slice(line, at, end)];
        }
        passed, start := passed + [SegmentAt(line, at)], end;
        at := end;
        continue;
      }
      if codeTicks == 0 {
        TextAtIs(line, at);
        CopySegment(line, at, copied, out, unresolved, before, missing, passed, site, destination);
        passed, start := passed + [SegmentAt(line, at)], at + 1;
      } else {
        StayInCode(line, start, at, codeTicks);
      }
      at := at + 1;
    }
    if at == |line| {
      if codeTicks > 0 {
        LeaveCode(line, start, at, codeTicks);
        CopySegment(line, start, copied, out, unresolved, before, missing, passed, site, destination);
        passed := passed + [SegmentAt(line, start)];
      }
      Finish(line, copied, out, unresolved, before, missing, passed, site, destination);
    }
    TailIsValid(line, copied, out);
    out := out + Slice(line, copied, |line|);
  }
}

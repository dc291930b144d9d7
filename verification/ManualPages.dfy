/** A whole manual page: fenced code lines are copied, prose lines rewritten
    (src/docs_bundle.rs, `fenced_lines` and `rewrite_wikilinks_with`;
    `parse_fence_marker` in src/cache/parse.rs). */
module ManualPages {
  import opened Prelude
  import opened Utf8
  import opened ManualLinks
  import opened Wikilinks

  datatype Fence = Fence(marker: Byte, len: nat)

  /** How many copies of `b` the string starts with. */
  function LeadingRun(s: Bytes, b: Byte): (n: nat)
    ensures n <= |s|
  {
    if s != [] && s[0] == b then 1 + LeadingRun(s[1..], b) else 0
  }

  function FenceMarker(trimmed: Bytes): (r: Option<Fence>) {
    if trimmed == [] || (trimmed[0] != TICK && trimmed[0] != TILDE) then None
    else
      var len := LeadingRun(trimmed, trimmed[0]);
      if len >= 3 then Some(Fence(trimmed[0], len)) else None
  }

  function MarkerOf(line: Bytes): (r: Option<Fence>) {
    FenceMarker(TrimStart(line))
  }

  /** The open fence after a line, and whether the line belongs to code. */
  function StepFence(open: Option<Fence>, marker: Option<Fence>): (Option<Fence>, bool) {
    match (open, marker)
    case (Some(o), Some(m)) => (if m.marker == o.marker && m.len >= o.len then None else open, true)
    case (Some(_), None) => (open, true)
    case (None, Some(_)) => (marker, true)
    case (None, None) => (None, false)
  }

  /** `split_inclusive('\n')`. */
  function SplitLines(text: Bytes): (lines: seq<Bytes>)
    ensures Join(lines) == text
    decreases |text|
  {
    if text == [] then []
    else
      var newline := FindByteFrom(text, NEWLINE, 0);
      if newline.None? then
        assert [text][1..] == [];
        [text]
      else
        var first, rest := text[..newline.value + 1], text[newline.value + 1..];
        var lines := [first] + SplitLines(rest);
        assert lines[1..] == SplitLines(rest);
        lines
  }

  function Join(lines: seq<Bytes>): (r: Bytes) {
    if lines == [] then [] else lines[0] + Join(lines[1..])
  }

  /** Which lines belong to fenced code, the fence lines included. */
  function CodeFlags(lines: seq<Bytes>, open: Option<Fence>): (flags: seq<bool>)
    ensures |flags| == |lines|
  {
    if lines == [] then []
    else
      var (next, code) := StepFence(open, MarkerOf(lines[0]));
      [code] + CodeFlags(lines[1..], next)
  }

  function RewriteOne(line: Bytes, code: bool, site: Site, destination: Destination): (r: Bytes) {
    if code then line else Render(Parse(line, 0), site, destination)
  }

  function RewriteLines(lines: seq<Bytes>, flags: seq<bool>, site: Site, destination: Destination): (r: seq<Bytes>)
    requires |flags| == |lines|
    ensures |r| == |lines|
    ensures forall i :: 0 <= i < |r| ==> r[i] == RewriteOne(lines[i], flags[i], site, destination)
  {
    seq(|lines|, i requires 0 <= i < |lines| => RewriteOne(lines[i], flags[i], site, destination))
  }

  /** The links left as written on prose lines, in page order. */
  function MissingLinks(lines: seq<Bytes>, flags: seq<bool>, site: Site): (r: seq<Bytes>)
    requires |flags| == |lines|
  {
    if lines == [] then []
    else (if flags[0] then [] else Unresolved(Parse(lines[0], 0), site)) + MissingLinks(lines[1..], flags[1..], site)
  }

  lemma {:induction false} JoinSnoc(lines: seq<Bytes>, last: Bytes)
    ensures Join(lines + [last]) == Join(lines) + last
  {
    if lines == [] {
      assert [last][1..] == [];
    } else {
      assert (lines + [last])[1..] == lines[1..] + [last];
      JoinSnoc(lines[1..], last);
    }
  }

  lemma {:induction false} MissingSnoc(lines: seq<Bytes>, flags: seq<bool>, line: Bytes, code: bool, site: Site)
    requires |flags| == |lines|
    ensures MissingLinks(lines + [line], flags + [code], site)
            == MissingLinks(lines, flags, site) + (if code then [] else Unresolved(Parse(line, 0), site))
  {
    hide Parse, Unresolved;
    if lines == [] {
      assert [line][1..] == [] && [code][1..] == [];
    } else {
      assert (lines + [line])[1..] == lines[1..] + [line];
      assert (flags + [code])[1..] == flags[1..] + [code];
      MissingSnoc(lines[1..], flags[1..], line, code, site);
    }
  }

  /** The fence state the loop carries after the first `i` lines. */
  function OpenAfter(lines: seq<Bytes>, open: Option<Fence>): (r: Option<Fence>) {
    if lines == [] then open else OpenAfter(lines[1..], StepFence(open, MarkerOf(lines[0])).0)
  }

  lemma {:induction false} FlagsSnoc(lines: seq<Bytes>, line: Bytes, open: Option<Fence>)
    ensures CodeFlags(lines + [line], open)
            == CodeFlags(lines, open) + [StepFence(OpenAfter(lines, open), MarkerOf(line)).1]
    ensures OpenAfter(lines + [line], open) == StepFence(OpenAfter(lines, open), MarkerOf(line)).0
  {
    hide MarkerOf, StepFence;
    if lines == [] {
      assert [line][1..] == [];
    } else {
      assert (lines + [line])[1..] == lines[1..] + [line];
      FlagsSnoc(lines[1..], line, StepFence(open, MarkerOf(lines[0])).0);
    }
  }

  /** Every line of a valid page is valid: lines end after an ASCII byte. */
  lemma {:induction false} LinesAreValid(text: Bytes, i: nat)
    requires IsValid(text) && i < |SplitLines(text)|
    ensures IsValid(SplitLines(text)[i])
    decreases |text|
  {
    hide IsValid;
    var newline := FindByteFrom(text, NEWLINE, 0);
    if newline.Some? {
      AsciiIsWholeChar(text, newline.value);
      ValidSplit(text, newline.value + 1);
      if i > 0 { LinesAreValid(text[newline.value + 1..], i - 1); }
    }
  }

  lemma RewriteLinesSnoc(
    lines: seq<Bytes>, flags: seq<bool>, line: Bytes, code: bool, site: Site, destination: Destination)
    requires |flags| == |lines|
    ensures Join(RewriteLines(lines + [line], flags + [code], site, destination))
            == Join(RewriteLines(lines, flags, site, destination)) + RewriteOne(line, code, site, destination)
  {
    hide RewriteOne;
    assert RewriteLines(lines + [line], flags + [code], site, destination)
        == RewriteLines(lines, flags, site, destination) + [RewriteOne(line, code, site, destination)];
    JoinSnoc(RewriteLines(lines, flags, site, destination), RewriteOne(line, code, site, destination));
  }

  method RewriteWikilinks(markdown: Bytes, site: Site, destination: Destination)
    returns (out: Bytes, unresolved: seq<Bytes>)
    requires IsValid(markdown)
    ensures var lines := SplitLines(markdown);
            var flags := CodeFlags(lines, None);
            && out == Join(RewriteLines(lines, flags, site, destination))
            && unresolved == MissingLinks(lines, flags, site)
    ensures SiteIsValid(site) && DestinationIsValid(destination) ==> IsValid(out)
  {
    hide IsValid, Parse, Render, Unresolved, MarkerOf, Join, MissingLinks, CodeFlags, OpenAfter;
    hide SiteIsValid, DestinationIsValid, RewriteLines, SplitLines;
    out, unresolved := [], [];
    var lines := SplitLines(markdown);
    var open: Option<Fence> := None;
    ghost var sound := SiteIsValid(site) && DestinationIsValid(destination);
    var i: nat := 0;
    Empty(site, destination);
    while i < |lines|
      invariant i <= |lines|
      invariant open == OpenAfter(lines[..i], None)
      invariant out == Join(RewriteLines(lines[..i], CodeFlags(lines[..i], None), site, destination))
      invariant unresolved == MissingLinks(lines[..i], CodeFlags(lines[..i], None), site)
      invariant sound ==> IsValid(out)
    {
      var line := lines[i];
      var (next, code) := StepFence(open, MarkerOf(line));
      ghost var flags := CodeFlags(lines[..i], None);
      FlagsSnoc(lines[..i], line, None);
      RewriteLinesSnoc(lines[..i], flags, line, code, site, destination);
      MissingSnoc(lines[..i], flags, line, code, site);
      assert lines[..i + 1] == lines[..i] + [line];
      LinesAreValid(markdown, i);
      if code {
        if sound { ValidAppend(out, line); }
        out := out + line;
      } else {
        out, unresolved := RewriteLine(line, site, destination, out, unresolved);
      }
      open := next;
      i := i + 1;
    }
    assert lines[..i] == lines;
  }

  lemma Empty(site: Site, destination: Destination)
    ensures OpenAfter([], None) == None && CodeFlags([], None) == []
    ensures Join(RewriteLines([], [], site, destination)) == []
    ensures MissingLinks([], [], site) == []
    ensures IsValid([])
  {
  }
}

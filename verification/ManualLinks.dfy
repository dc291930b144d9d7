/** One wikilink of the manual: where it points and the Markdown it becomes
    (src/docs_bundle.rs, `LinkTargets::resolve` and `link_markdown`). */
module ManualLinks {
  import opened Prelude
  import opened Utf8

  /** What a page's links are resolved against. `byKey` is keyed by lowercased
      path or file name; `lower` and `slug` stand for `str::to_lowercase` and
      the note slug rule. */
  datatype Site = Site(
    thisPage: Bytes, byKey: map<Bytes, Bytes>, lower: Bytes -> Bytes, slug: Bytes -> Bytes)

  /** Where a link to a page name and an optional heading anchor points, or
      None to leave only the link's text. */
  type Destination = (Bytes, Option<Bytes>) -> Option<Bytes>

  /** A resolved link before its destination is chosen. */
  datatype LinkParts = LinkParts(name: Bytes, text: Bytes, anchor: Option<Bytes>)

  const MD_SUFFIX: Bytes := [46, 109, 100]
  const ARROW: Bytes := [32, 62, 32]

  function StripSuffix(s: Bytes, suffix: Bytes): (r: Bytes)
    ensures r <= s
  {
    if |suffix| <= |s| && s[|s| - |suffix|..] == suffix then s[..|s| - |suffix|] else s
  }

  function TrimLeadingSlashes(s: Bytes): (r: Bytes) {
    if s != [] && s[0] == SLASH then TrimLeadingSlashes(s[1..]) else s
  }

  function Resolve(site: Site, target: Bytes): (r: Option<Bytes>) {
    var key := site.lower(StripSuffix(TrimLeadingSlashes(Trim(target)), MD_SUFFIX));
    if key in site.byKey then Some(site.byKey[key]) else None
  }

  /** The target and the alias: split at the first `|`, which a table row
      writes `\|`. */
  function SplitAlias(inner: Bytes): (Bytes, Option<Bytes>) {
    var bar := FindByteFrom(inner, PIPE, 0);
    if bar.None? then (inner, None)
    else (StripSuffix(inner[..bar.value], [BACKSLASH]), Some(Trim(inner[bar.value + 1..])))
  }

  /** The page and the heading: split at the first `#`. */
  function SplitHeading(target: Bytes): (Bytes, Option<Bytes>) {
    var hash := FindByteFrom(target, HASH, 0);
    if hash.None? then (Trim(target), None)
    else (Trim(target[..hash.value]), Some(Trim(target[hash.value + 1..])))
  }

  /** The alias if it is not empty, else the heading, else the page. */
  function LinkText(page: Bytes, alias: Option<Bytes>, heading: Option<Bytes>): (r: Bytes) {
    if alias.Some? && alias.value != [] then alias.value
    else if heading.None? then page
    else if page == [] then heading.value
    else page + ARROW + heading.value
  }

  function PartsFrom(page: Bytes, alias: Option<Bytes>, heading: Option<Bytes>, site: Site): (r: Option<LinkParts>) {
    var name := if page == [] then Some(site.thisPage) else Resolve(site, page);
    if name.None? then None
    else
      var anchor :=
        if heading.Some? && heading.value != [] then Some(site.slug(heading.value)) else None;
      Some(LinkParts(name.value, LinkText(page, alias, heading), anchor))
  }

  function PartsOf(inner: Bytes, site: Site): (r: Option<LinkParts>) {
    var (target, alias) := SplitAlias(inner);
    var (page, heading) := SplitHeading(target);
    PartsFrom(page, alias, heading, site)
  }

  function Shown(parts: LinkParts, destination: Destination): (r: Bytes) {
    match destination(parts.name, parts.anchor)
    case Some(address) => [OPEN] + parts.text + [CLOSE, 40] + address + [41]
    case None => parts.text
  }

  /** The Markdown for a link's inner text, or None when it names no page. */
  function LinkMarkdown(inner: Bytes, site: Site, destination: Destination): (r: Option<Bytes>) {
    match PartsOf(inner, site)
    case Some(parts) => Some(Shown(parts, destination))
    case None => None
  }

  // ----- reading a link back -----

  /** A link as an author writes it. */
  function Written(page: Bytes, heading: Option<Bytes>, alias: Option<Bytes>, inTable: bool): (r: Bytes) {
    page
    + (match heading case Some(h) => [HASH] + h case None => [])
    + (match alias case Some(a) => (if inTable then [BACKSLASH] else []) + [PIPE] + a case None => [])
  }

  lemma FirstByteIs(s: Bytes, b: Byte, rest: Bytes)
    requires b !in s
    ensures FindByteFrom(s + [b] + rest, b, 0) == Some(|s|)
    ensures FindByteFrom(s, b, 0) == None
  {
    var all := s + [b] + rest;
    assert all[|s|] == b;
    assert forall i :: 0 <= i < |s| ==> all[i] == s[i] != b;
  }

  function Trimmed(s: Option<Bytes>): (r: Option<Bytes>) {
    match s case Some(text) => Some(Trim(text)) case None => None
  }

  lemma AliasReadsBack(target: Bytes, alias: Option<Bytes>, inTable: bool)
    requires PIPE !in target
    requires alias.Some? && !inTable && target != [] ==> target[|target| - 1] != BACKSLASH
    ensures SplitAlias(Written(target, None, alias, inTable)) == (target, Trimmed(alias))
  {
    hide Trim;
    var inner := Written(target, None, alias, inTable);
    if alias.None? {
      assert inner == target;
      FirstByteIs(target, PIPE, []);
    } else {
      var before := target + (if inTable then [BACKSLASH] else []);
      assert inner == before + [PIPE] + alias.value;
      FirstByteIs(before, PIPE, alias.value);
      assert inner[..|before|] == before && inner[|before| + 1..] == alias.value;
      BackslashGoes(target, inTable);
    }
  }

  lemma BackslashGoes(target: Bytes, inTable: bool)
    requires !inTable && target != [] ==> target[|target| - 1] != BACKSLASH
    ensures StripSuffix(target + (if inTable then [BACKSLASH] else []), [BACKSLASH]) == target
  {
    if inTable {
      var before := target + [BACKSLASH];
      assert before[|target|..] == [BACKSLASH] && before[..|target|] == target;
    } else {
      assert target + [] == target;
      if target != [] { assert target[|target| - 1..][0] == target[|target| - 1]; }
    }
  }

  lemma HeadingReadsBack(page: Bytes, heading: Option<Bytes>)
    requires HASH !in page
    ensures SplitHeading(Written(page, heading, None, false)) == (Trim(page), Trimmed(heading))
  {
    hide Trim;
    var target := Written(page, heading, None, false);
    if heading.None? {
      assert target == page;
      FirstByteIs(page, HASH, []);
    } else {
      assert target == page + [HASH] + heading.value;
      FirstByteIs(page, HASH, heading.value);
      assert target[..|page|] == page && target[|page| + 1..] == heading.value;
    }
  }

  /** A link put together from a page, a heading and an alias is taken apart into
      just those, without the white space around them, in a table row as
      elsewhere. */
  lemma WrittenLinkReadsBack(page: Bytes, heading: Option<Bytes>, alias: Option<Bytes>, inTable: bool, site: Site)
    requires HASH !in page
    requires var target := Written(page, heading, None, false);
             PIPE !in target && (alias.Some? && !inTable && target != [] ==> target[|target| - 1] != BACKSLASH)
    ensures PartsOf(Written(page, heading, alias, inTable), site)
            == PartsFrom(Trim(page), Trimmed(alias), Trimmed(heading), site)
  {
    hide Trim, SplitAlias, SplitHeading, PartsFrom, Trimmed;
    var target := Written(page, heading, None, false);
    assert Written(page, heading, alias, inTable) == Written(target, None, alias, inTable);
    AliasReadsBack(target, alias, inTable);
    HeadingReadsBack(page, heading);
  }

  // ----- what a rewritten link may contain -----

  predicate AllNewlineFree(s: Bytes, t: Option<Bytes>) {
    NewlineFree(s) && (t.Some? ==> NewlineFree(t.value))
  }

  predicate AllValid(s: Bytes, t: Option<Bytes>) {
    IsValid(s) && (t.Some? ==> IsValid(t.value))
  }

  lemma SplitsKeepNewlineFree(inner: Bytes)
    requires NewlineFree(inner)
    ensures AllNewlineFree(SplitAlias(inner).0, SplitAlias(inner).1)
    ensures AllNewlineFree(SplitHeading(inner).0, SplitHeading(inner).1)
  {
    var bar := FindByteFrom(inner, PIPE, 0);
    if bar.Some? {
      assert forall b :: b in inner[..bar.value] ==> b in inner;
      assert forall b :: b in StripSuffix(inner[..bar.value], [BACKSLASH]) ==> b in inner[..bar.value];
      assert forall b :: b in inner[bar.value + 1..] ==> b in inner;
    }
    var hash := FindByteFrom(inner, HASH, 0);
    if hash.Some? {
      assert forall b :: b in inner[..hash.value] ==> b in inner;
      assert forall b :: b in inner[hash.value + 1..] ==> b in inner;
    }
  }

  lemma PartsFromIsNewlineFree(page: Bytes, alias: Option<Bytes>, heading: Option<Bytes>, site: Site)
    requires AllNewlineFree(page, alias) && AllNewlineFree(page, heading)
    ensures var parts := PartsFrom(page, alias, heading, site);
            parts.Some? ==> NewlineFree(parts.value.text)
  {
  }

  /** The link's text is made of the inner text, so it brings no newline in. */
  lemma TextIsNewlineFree(inner: Bytes, site: Site)
    requires NewlineFree(inner) && PartsOf(inner, site).Some?
    ensures NewlineFree(PartsOf(inner, site).value.text)
  {
    SplitsKeepNewlineFree(inner);
    var (target, alias) := SplitAlias(inner);
    SplitsKeepNewlineFree(target);
    var (page, heading) := SplitHeading(target);
    PartsFromIsNewlineFree(page, alias, heading, site);
  }

  /** Every page name is valid UTF-8, as is what the slug rule makes. */
  ghost predicate SiteIsValid(site: Site) {
    && IsValid(site.thisPage)
    && (forall key :: key in site.byKey ==> IsValid(site.byKey[key]))
    && (forall s :: IsValid(s) ==> IsValid(site.slug(s)))
  }

  ghost predicate DestinationIsValid(destination: Destination) {
    forall name: Bytes, anchor: Option<Bytes> ::
      && AllValid(name, anchor)
      && destination(name, anchor).Some?
      ==> IsValid(destination(name, anchor).value)
  }

  /** Splitting at an ASCII byte leaves two valid strings. */
  lemma SplitAtAscii(s: Bytes, i: nat)
    requires IsValid(s) && i < |s| && s[i] < 0x80
    ensures IsValid(s[..i]) && IsValid(s[i + 1..])
  {
    AsciiIsWholeChar(s, i);
    ValidSplit(s, i);
    ValidSplit(s, i + 1);
  }

  lemma StripBackslashIsValid(s: Bytes)
    requires IsValid(s)
    ensures IsValid(StripSuffix(s, [BACKSLASH]))
  {
    if s != [] && s[|s| - 1] == BACKSLASH {
      SplitAtAscii(s, |s| - 1);
    } else {
      assert s != [] ==> s[|s| - 1..][0] == s[|s| - 1];
    }
  }

  lemma SplitAliasIsValid(inner: Bytes)
    requires IsValid(inner)
    ensures AllValid(SplitAlias(inner).0, SplitAlias(inner).1)
  {
    hide IsValid, Trim, StripSuffix;
    var bar := FindByteFrom(inner, PIPE, 0);
    if bar.Some? {
      SplitAtAscii(inner, bar.value);
      StripBackslashIsValid(inner[..bar.value]);
    }
  }

  lemma SplitHeadingIsValid(target: Bytes)
    requires IsValid(target)
    ensures AllValid(SplitHeading(target).0, SplitHeading(target).1)
  {
    hide IsValid, Trim;
    var hash := FindByteFrom(target, HASH, 0);
    if hash.Some? { SplitAtAscii(target, hash.value); }
  }

  lemma TextIsValid(page: Bytes, alias: Option<Bytes>, heading: Option<Bytes>)
    requires AllValid(page, alias) && AllValid(page, heading)
    ensures IsValid(LinkText(page, alias, heading))
  {
    if heading.Some? {
      ValidAppend(page, ARROW);
      ValidAppend(page + ARROW, heading.value);
    }
  }

  lemma BracketedIsValid(text: Bytes, address: Bytes)
    requires IsValid(text) && IsValid(address)
    ensures IsValid([OPEN] + text + [CLOSE, 40] + address + [41])
  {
    hide IsValid;
    AsciiIsValid([OPEN]);
    AsciiIsValid([CLOSE, 40]);
    AsciiIsValid([41]);
    ValidAppend([OPEN], text);
    ValidAppend([OPEN] + text, [CLOSE, 40]);
    ValidAppend([OPEN] + text + [CLOSE, 40], address);
    ValidAppend([OPEN] + text + [CLOSE, 40] + address, [41]);
  }

  lemma PartsFromIsValid(page: Bytes, alias: Option<Bytes>, heading: Option<Bytes>, site: Site)
    requires AllValid(page, alias) && AllValid(page, heading) && SiteIsValid(site)
    ensures var parts := PartsFrom(page, alias, heading, site);
            parts.Some? ==> IsValid(parts.value.text) && AllValid(parts.value.name, parts.value.anchor)
  {
    TextIsValid(page, alias, heading);
  }

  lemma ShownIsValid(parts: LinkParts, destination: Destination)
    requires IsValid(parts.text) && AllValid(parts.name, parts.anchor) && DestinationIsValid(destination)
    ensures IsValid(Shown(parts, destination))
  {
    var address := destination(parts.name, parts.anchor);
    if address.Some? { BracketedIsValid(parts.text, address.value); }
  }

  /** Every slice `link_markdown` takes is on a char boundary, so what it makes
      of a valid string is valid. */
  lemma LinkMarkdownIsValid(inner: Bytes, site: Site, destination: Destination)
    requires IsValid(inner) && SiteIsValid(site) && DestinationIsValid(destination)
    requires LinkMarkdown(inner, site, destination).Some?
    ensures IsValid(LinkMarkdown(inner, site, destination).value)
  {
    hide SplitAlias, SplitHeading;
    SplitAliasIsValid(inner);
    var (target, alias) := SplitAlias(inner);
    SplitHeadingIsValid(target);
    var (page, heading) := SplitHeading(target);
    PartsFromIsValid(page, alias, heading, site);
    ShownIsValid(PartsOf(inner, site).value, destination);
  }
}

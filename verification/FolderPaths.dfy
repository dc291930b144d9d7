/** Relative paths and folder names (src/folder_listing.rs, `parse_relative`,
    `is_plain_name`, `is_hidden`, `is_markdown`). */
module FolderPaths {
  import opened Prelude
  import opened Utf8

  type Name = Bytes

  const DOT: Byte := 46
  const MAX_NAME_BYTES: nat := 255

  datatype ListingError = OutsideRoot | NotFound | Unreadable

  predicate IsHidden(name: Name) {
    name != [] && name[0] == DOT
  }

  /** The extension of the file name is `md`; `.md` itself has none. */
  predicate IsMarkdown(name: Name) {
    |name| > 3 && name[|name| - 3..] == [DOT, 109, 100]
  }

  /** `char::is_control` at `i`: U+0000 to U+001F and U+007F to U+009F. */
  predicate ControlAt(name: Name, i: nat)
    requires i < |name|
  {
    name[i] < 0x20 || name[i] == 0x7F || (name[i] == 0xC2 && i + 1 < |name| && 0x80 <= name[i + 1] < 0xA0)
  }

  predicate IsPlainName(name: Name) {
    && name != []
    && |name| <= MAX_NAME_BYTES
    && Trim(name) == name
    && !IsHidden(name)
    && forall i :: 0 <= i < |name| ==> name[i] != SLASH && name[i] != BACKSLASH && !ControlAt(name, i)
  }

  // ----- splitting and joining -----

  function SplitSlash(s: Bytes): (parts: seq<Bytes>)
    ensures parts != []
    decreases |s|
  {
    var slash := FindByteFrom(s, SLASH, 0);
    if slash.None? then [s] else [s[..slash.value]] + SplitSlash(s[slash.value + 1..])
  }

  function JoinSlash(parts: seq<Bytes>): (r: Bytes) {
    if parts == [] then []
    else if |parts| == 1 then parts[0]
    else parts[0] + [SLASH] + JoinSlash(parts[1..])
  }

  lemma {:induction false} SplitJoinSlash(parts: seq<Bytes>)
    requires parts != [] && forall i :: 0 <= i < |parts| ==> SLASH !in parts[i]
    ensures SplitSlash(JoinSlash(parts)) == parts
  {
    var s, first := JoinSlash(parts), parts[0];
    if |parts| == 1 {
      assert FindByteFrom(s, SLASH, 0) == None;
    } else {
      assert s[|first|] == SLASH;
      assert forall i :: 0 <= i < |first| ==> s[i] == first[i] != SLASH;
      assert FindByteFrom(s, SLASH, 0) == Some(|first|);
      assert s[..|first|] == first && s[|first| + 1..] == JoinSlash(parts[1..]);
      SplitJoinSlash(parts[1..]);
    }
  }

  // ----- parse_relative -----

  predicate IsDotDot(part: Bytes) {
    part == [DOT, DOT]
  }

  predicate IsIgnored(part: Bytes) {
    part == [] || part == [DOT]
  }

  /** A component `parse_relative` lets through. */
  predicate IsComponent(part: Bytes) {
    !IsIgnored(part) && !IsDotDot(part) && 0 !in part && SLASH !in part
  }

  predicate IsAbsolute(relative: Bytes) {
    relative != [] && (relative[0] == SLASH || relative[0] == BACKSLASH)
  }

  /** The first offending part decides the error. */
  function KeepParts(parts: seq<Bytes>): (r: Result<seq<Name>, ListingError>) {
    if parts == [] then Ok([])
    else
      match KeepParts(parts[..|parts| - 1])
      case Err(error) => Err(error)
      case Ok(kept) =>
        var last := parts[|parts| - 1];
        if IsIgnored(last) then Ok(kept)
        else if IsDotDot(last) then Err(OutsideRoot)
        else if 0 in last then Err(NotFound)
        else Ok(kept + [last])
  }

  function Parsed(relative: Bytes): (r: Result<seq<Name>, ListingError>) {
    if IsAbsolute(relative) then Err(OutsideRoot) else KeepParts(SplitSlash(relative))
  }

  lemma NothingKept()
    ensures KeepParts([]) == Ok([])
  {
  }

  lemma KeepSnoc(parts: seq<Bytes>, i: nat)
    requires i < |parts| && KeepParts(parts[..i]).Ok?
    ensures KeepParts(parts[..i + 1])
            == if IsIgnored(parts[i]) then KeepParts(parts[..i])
               else if IsDotDot(parts[i]) then Err(OutsideRoot)
               else if 0 in parts[i] then Err(NotFound)
               else Ok(KeepParts(parts[..i]).value + [parts[i]])
  {
    hide IsIgnored, IsDotDot;
    assert parts[..i + 1][..i] == parts[..i];
  }

  method ParseRelative(relative: Bytes) returns (r: Result<seq<Name>, ListingError>)
    ensures r == Parsed(relative)
  {
    if IsAbsolute(relative) {
      return Err(OutsideRoot);
    }
    hide KeepParts, IsIgnored, IsDotDot, SplitSlash;
    var parts := SplitSlash(relative);
    var components: seq<Name> := [];
    var i := 0;
    NothingKept();
    assert parts[..0] == [];
    while i < |parts|
      invariant 0 <= i <= |parts|
      invariant KeepParts(parts[..i]) == Ok(components)
    {
      KeepSnoc(parts, i);
      var component := parts[i];
      if IsIgnored(component) {
      } else if IsDotDot(component) {
        ErrorStays(parts, i + 1);
        return Err(OutsideRoot);
      } else if 0 in component {
        ErrorStays(parts, i + 1);
        return Err(NotFound);
      } else {
        components := components + [component];
      }
      i := i + 1;
    }
    assert parts[..i] == parts;
    return Ok(components);
  }

  lemma {:induction false} ErrorStays(parts: seq<Bytes>, n: nat)
    requires n <= |parts| && KeepParts(parts[..n]).Err?
    ensures KeepParts(parts) == KeepParts(parts[..n])
    decreases |parts|
  {
    if n == |parts| {
      assert parts[..n] == parts;
    } else {
      assert parts[..|parts| - 1][..n] == parts[..n];
      ErrorStays(parts[..|parts| - 1], n);
    }
  }

  lemma {:induction false} SplitHasNoSlash(s: Bytes, i: nat)
    requires i < |SplitSlash(s)|
    ensures SLASH !in SplitSlash(s)[i]
    decreases |s|
  {
    var slash := FindByteFrom(s, SLASH, 0);
    if slash.Some? && i > 0 { SplitHasNoSlash(s[slash.value + 1..], i - 1); }
  }

  lemma {:induction false} KeptAreComponents(parts: seq<Bytes>)
    requires forall i :: 0 <= i < |parts| ==> SLASH !in parts[i]
    requires KeepParts(parts).Ok?
    ensures forall i :: 0 <= i < |KeepParts(parts).value| ==> IsComponent(KeepParts(parts).value[i])
  {
    if parts != [] { KeptAreComponents(parts[..|parts| - 1]); }
  }

  /** No accepted path can climb out: what comes back is plain components. */
  lemma ParsedAreComponents(relative: Bytes)
    requires Parsed(relative).Ok?
    ensures forall i :: 0 <= i < |Parsed(relative).value| ==> IsComponent(Parsed(relative).value[i])
  {
    forall i | 0 <= i < |SplitSlash(relative)|
      ensures SLASH !in SplitSlash(relative)[i]
    {
      SplitHasNoSlash(relative, i);
    }
    KeptAreComponents(SplitSlash(relative));
  }

  lemma {:induction false} KeepComponents(parts: seq<Bytes>)
    requires forall i :: 0 <= i < |parts| ==> IsComponent(parts[i])
    ensures KeepParts(parts) == Ok(parts)
  {
    if parts != [] {
      KeepComponents(parts[..|parts| - 1]);
      assert parts == parts[..|parts| - 1] + [parts[|parts| - 1]];
    }
  }

  predicate StartsWithBackslash(s: Bytes) {
    s != [] && s[0] == BACKSLASH
  }

  /** Joining components and parsing the result gives them back, except that a
      first component may not start with a backslash: there, and only there,
      the path a listing reports is refused when it is sent back. */
  lemma ReparseIff(components: seq<Name>)
    requires forall i :: 0 <= i < |components| ==> IsComponent(components[i])
    ensures Parsed(JoinSlash(components))
            == if components != [] && StartsWithBackslash(components[0]) then Err(OutsideRoot) else Ok(components)
  {
    if components == [] {
      var parts: seq<Bytes> := [[]];
      assert parts[..0] == [];
      assert KeepParts(parts) == Ok([]);
    } else {
      SplitJoinSlash(components);
      KeepComponents(components);
      assert IsComponent(components[0]);
      assert components[0][0] != SLASH;
      assert JoinSlash(components)[0] == components[0][0];
    }
  }

  /** A name that may be created is a component, and never the odd one out. */
  lemma PlainNameIsComponent(name: Name)
    requires IsPlainName(name)
    ensures IsComponent(name) && !StartsWithBackslash(name)
  {
    assert forall i :: 0 <= i < |name| ==> !ControlAt(name, i);
  }
}

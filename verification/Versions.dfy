/** Reading and comparing release versions
    (src/update_check.rs, `parse_version`, `release_version`, `is_newer`;
    src/instance_state.rs, `base_version` and `VersionRecord::after_start`). */
module Versions {
  import opened Prelude
  import Utf8

  type Bytes = Utf8.Bytes

  const U64_MAX: nat := 0xFFFF_FFFF_FFFF_FFFF
  const POINT: Utf8.Byte := 46
  const V: Utf8.Byte := 118
  /** " (dev" */
  const DEV_MARK: Bytes := [32, 40, 100, 101, 118]

  datatype Version = Version(major: nat, minor: nat, patch: nat)

  predicate IsDigit(b: Utf8.Byte) {
    48 <= b <= 57
  }

  predicate AllDigits(s: Bytes) {
    forall i :: 0 <= i < |s| ==> IsDigit(s[i])
  }

  function DigitsValue(s: Bytes): (n: nat)
    requires AllDigits(s)
  {
    if s == [] then 0 else 10 * DigitsValue(s[..|s| - 1]) + (s[|s| - 1] - 48)
  }

  /** A part that is one or more digits and fits 64 bits. */
  function ParsePart(s: Bytes): (r: Option<nat>) {
    if s == [] || !AllDigits(s) || DigitsValue(s) > U64_MAX then None else Some(DigitsValue(s))
  }

  function SplitPoints(s: Bytes): (parts: seq<Bytes>)
    ensures parts != []
    decreases |s|
  {
    var point := Utf8.FindByteFrom(s, POINT, 0);
    if point.None? then [s] else [s[..point.value]] + SplitPoints(s[point.value + 1..])
  }

  /** Exactly three parts, each a number. */
  function ParseVersion(s: Bytes): (r: Option<Version>) {
    var parts := SplitPoints(s);
    if |parts| != 3 then None
    else
      match (ParsePart(parts[0]), ParsePart(parts[1]), ParsePart(parts[2]))
      case (Some(major), Some(minor), Some(patch)) => Some(Version(major, minor, patch))
      case _ => None
  }

  function StripV(tag: Bytes): (r: Bytes) {
    var trimmed := Utf8.Trim(tag);
    if trimmed != [] && trimmed[0] == V then trimmed[1..] else trimmed
  }

  /** The version a release tag names. */
  function ReleaseVersion(tag: Bytes): (r: Option<Version>) {
    ParseVersion(StripV(tag))
  }

  // ----- writing a version out -----

  function Decimal(n: nat): (r: Bytes)
    ensures r != []
  {
    if n < 10 then [48 + n] else Decimal(n / 10) + [48 + n % 10]
  }

  function Format(v: Version): (r: Bytes) {
    Decimal(v.major) + [POINT] + Decimal(v.minor) + [POINT] + Decimal(v.patch)
  }

  lemma {:induction false} DecimalParses(n: nat)
    ensures AllDigits(Decimal(n)) && DigitsValue(Decimal(n)) == n
  {
    if n < 10 {
      assert [48 + n][..0] == [];
    } else {
      DecimalParses(n / 10);
      var r := Decimal(n);
      assert r[..|r| - 1] == Decimal(n / 10);
    }
  }

  lemma SplitAtPoint(head: Bytes, tail: Bytes)
    requires AllDigits(head)
    ensures SplitPoints(head + [POINT] + tail) == [head] + SplitPoints(tail)
  {
    var s := head + [POINT] + tail;
    assert forall i :: 0 <= i < |head| ==> s[i] == head[i] && IsDigit(head[i]);
    assert s[|head|] == POINT;
    assert Utf8.FindByteFrom(s, POINT, 0) == Some(|head|);
    assert s[..|head|] == head && s[|head| + 1..] == tail;
  }

  lemma NoPoint(s: Bytes)
    requires AllDigits(s)
    ensures SplitPoints(s) == [s]
  {
    assert forall i :: 0 <= i < |s| ==> IsDigit(s[i]) && s[i] != POINT;
  }

  /** The stored version reads back as the version the tag named. */
  lemma FormatParses(v: Version)
    requires v.major <= U64_MAX && v.minor <= U64_MAX && v.patch <= U64_MAX
    ensures ParseVersion(Format(v)) == Some(v)
  {
    hide Decimal, AllDigits, DigitsValue, SplitPoints;
    DecimalParses(v.major);
    DecimalParses(v.minor);
    DecimalParses(v.patch);
    var rest := Decimal(v.minor) + [POINT] + Decimal(v.patch);
    assert Format(v) == Decimal(v.major) + [POINT] + rest;
    SplitAtPoint(Decimal(v.major), rest);
    SplitAtPoint(Decimal(v.minor), Decimal(v.patch));
    NoPoint(Decimal(v.patch));
    assert SplitPoints(Format(v)) == [Decimal(v.major), Decimal(v.minor), Decimal(v.patch)];
  }

  /** What the record keeps is what the tag said, whatever leading zeros, `v` or
      white space the tag had. */
  lemma ReleaseVersionRoundTrips(tag: Bytes)
    requires ReleaseVersion(tag).Some?
    ensures ParseVersion(Format(ReleaseVersion(tag).value)) == ReleaseVersion(tag)
  {
    hide StripV, SplitPoints, Format;
    FormatParses(ReleaseVersion(tag).value);
  }

  lemma {:induction false} SplitIsJoined(s: Bytes)
    ensures |SplitPoints(s)| == 1 ==> SplitPoints(s) == [s]
    ensures |SplitPoints(s)| > 1 ==>
              && s == SplitPoints(s)[0] + [POINT] + s[|SplitPoints(s)[0]| + 1..]
              && SplitPoints(s)[1..] == SplitPoints(s[|SplitPoints(s)[0]| + 1..])
  {
  }

  /** What is read as a version is three groups of digits with points between, and
      nothing else; each is a number of at most 64 bits, leading zeros allowed. */
  lemma VersionIsThreeNumbers(s: Bytes) returns (major: Bytes, minor: Bytes, patch: Bytes)
    requires ParseVersion(s).Some?
    ensures s == major + [POINT] + minor + [POINT] + patch
    ensures AllDigits(major) && AllDigits(minor) && AllDigits(patch) && major != [] && minor != [] && patch != []
    ensures var v := ParseVersion(s).value;
            && DigitsValue(major) == v.major <= U64_MAX && DigitsValue(minor) == v.minor <= U64_MAX
            && DigitsValue(patch) == v.patch <= U64_MAX
  {
    hide AllDigits, DigitsValue, SplitPoints;
    var parts := SplitPoints(s);
    major, minor, patch := parts[0], parts[1], parts[2];
    ThreePartsJoin(s);
  }

  lemma ThreePartsJoin(s: Bytes)
    requires |SplitPoints(s)| == 3
    ensures s == SplitPoints(s)[0] + [POINT] + SplitPoints(s)[1] + [POINT] + SplitPoints(s)[2]
  {
    hide SplitPoints;
    var parts := SplitPoints(s);
    SplitIsJoined(s);
    var rest := s[|parts[0]| + 1..];
    SplitIsJoined(rest);
    var last := rest[|parts[1]| + 1..];
    SplitIsJoined(last);
    assert rest == parts[1] + [POINT] + parts[2];
  }

  /** And every three such groups are read as those numbers. */
  lemma ThreeNumbersAreAVersion(major: Bytes, minor: Bytes, patch: Bytes)
    requires AllDigits(major) && AllDigits(minor) && AllDigits(patch) && major != [] && minor != [] && patch != []
    ensures ParseVersion(major + [POINT] + minor + [POINT] + patch)
            == if DigitsValue(major) <= U64_MAX && DigitsValue(minor) <= U64_MAX && DigitsValue(patch) <= U64_MAX
               then Some(Version(DigitsValue(major), DigitsValue(minor), DigitsValue(patch))) else None
  {
    hide AllDigits, DigitsValue, SplitPoints;
    var rest := minor + [POINT] + patch;
    assert major + [POINT] + minor + [POINT] + patch == major + [POINT] + rest;
    SplitAtPoint(major, rest);
    SplitAtPoint(minor, patch);
    NoPoint(patch);
    assert SplitPoints(major + [POINT] + rest) == [major, minor, patch];
  }

  // ----- comparing -----

  function FindMark(s: Bytes, from: nat): (r: Option<nat>)
    requires from <= |s|
    ensures r.Some? ==> from <= r.value <= |s|
    decreases |s| - from
  {
    if DEV_MARK <= s[from..] then Some(from)
    else if from == |s| then None
    else FindMark(s, from + 1)
  }

  /** A development build compares as its release. */
  function BaseVersion(version: Bytes): (r: Bytes) {
    match FindMark(version, 0)
    case Some(at) => Utf8.Trim(version[..at])
    case None => Utf8.Trim(version)
  }

  predicate Later(a: Version, b: Version) {
    a.major > b.major || (a.major == b.major && (a.minor > b.minor || (a.minor == b.minor && a.patch > b.patch)))
  }

  predicate IsNewer(latest: Bytes, running: Bytes) {
    match (ParseVersion(latest), ParseVersion(BaseVersion(running)))
    case (Some(a), Some(b)) => Later(a, b)
    case _ => false
  }

  /** The order the banner goes by: of two readable versions exactly one is
      later, or they are the same release; and it is transitive. */
  lemma LaterIsStrictOrder(a: Version, b: Version, c: Version)
    ensures || (Later(a, b) && !Later(b, a) && a != b)
            || (Later(b, a) && !Later(a, b) && a != b)
            || (a == b && !Later(a, b))
    ensures Later(a, b) && Later(b, c) ==> Later(a, c)
  {
  }

  /** It is the order of the numbers one gets by writing the three parts one after
      another, 64 bits each. */
  lemma LaterIsNumeric(a: Version, b: Version)
    requires a.major <= U64_MAX && a.minor <= U64_MAX && a.patch <= U64_MAX
    requires b.major <= U64_MAX && b.minor <= U64_MAX && b.patch <= U64_MAX
    ensures var base := 0x1_0000_0000_0000_0000;
            Later(a, b) <==> (a.major * base + a.minor) * base + a.patch > (b.major * base + b.minor) * base + b.patch
  {
  }

  lemma {:induction false} MarkIsFirst(s: Bytes, rest: Bytes, from: nat)
    requires from <= |s| && forall i :: 0 <= i < |s| ==> s[i] != DEV_MARK[0]
    ensures FindMark(s + DEV_MARK + rest, from) == Some(|s|)
    decreases |s| - from
  {
    var all := s + DEV_MARK + rest;
    if from < |s| {
      assert all[from..][0] == s[from];
      MarkIsFirst(s, rest, from + 1);
    } else {
      assert all[from..] == DEV_MARK + rest;
    }
  }

  predicate NumbersAndPoints(s: Bytes) {
    forall i :: 0 <= i < |s| ==> IsDigit(s[i]) || s[i] == POINT
  }

  lemma FormatIsPlain(v: Version)
    ensures NumbersAndPoints(Format(v)) && Format(v) != []
  {
    hide Decimal;
    DecimalParses(v.major);
    DecimalParses(v.minor);
    DecimalParses(v.patch);
  }

  lemma BaseOfDevBuild(v: Version, rest: Bytes)
    ensures BaseVersion(Format(v) + DEV_MARK + rest) == Format(v)
  {
    hide Format, FindMark, Utf8.Trim;
    FormatIsPlain(v);
    MarkIsFirst(Format(v), rest, 0);
    assert (Format(v) + DEV_MARK + rest)[..|Format(v)|] == Format(v);
    Utf8.GraphicIsTrimmed(Format(v));
  }

  /** A development build is offered exactly the releases its own release would
      be: those later than it. */
  lemma DevBuildComparesAsRelease(latest: Version, running: Version, rest: Bytes)
    requires latest.major <= U64_MAX && latest.minor <= U64_MAX && latest.patch <= U64_MAX
    requires running.major <= U64_MAX && running.minor <= U64_MAX && running.patch <= U64_MAX
    ensures IsNewer(Format(latest), Format(running) + DEV_MARK + rest) <==> Later(latest, running)
  {
    hide Format, BaseVersion, ParseVersion;
    FormatParses(latest);
    FormatParses(running);
    BaseOfDevBuild(running, rest);
  }

  // ----- which versions an instance has run -----

  datatype VersionRecord = VersionRecord(current: Bytes, previous: Option<Bytes>, freshInstall: Option<Bytes>)

  /** "2.7.0" */
  const UNRECORDED_UPGRADE_FROM: Bytes := [50, 46, 55, 46, 48]

  function AfterStart(existing: Option<VersionRecord>, running: Bytes, existingInstall: bool): (r: VersionRecord) {
    var base := BaseVersion(running);
    match existing
    case Some(record) =>
      if record.current == base then record else VersionRecord(base, Some(record.current), record.freshInstall)
    case None =>
      if existingInstall
      then VersionRecord(base, if base != UNRECORDED_UPGRADE_FROM then Some(UNRECORDED_UPGRADE_FROM) else None, None)
      else VersionRecord(base, None, Some(base))
  }

  function AfterStarts(existing: Option<VersionRecord>, starts: seq<Bytes>, existingInstall: bool)
    : (r: Option<VersionRecord>)
  {
    if starts == [] then existing
    else
      var before := AfterStarts(existing, starts[..|starts| - 1], existingInstall);
      Some(AfterStart(before, starts[|starts| - 1], existingInstall))
  }

  /** Over any starts: the record names the release running now and the last
      different one before it, counting what an earlier record named, or, for an
      existing install without one, the release it is taken to come from. A fresh
      install keeps the first release it ever ran; no other gains one. */
  lemma {:induction false} RecordFollowsStarts(
    existing: Option<VersionRecord>, starts: seq<Bytes>, existingInstall: bool)
    requires starts != []
    ensures var record := AfterStarts(existing, starts, existingInstall).value;
            && record.current == BaseVersion(starts[|starts| - 1])
            && record.previous == LastOther(existing, starts, existingInstall)
            && record.freshInstall
               == match existing
                  case Some(before) => before.freshInstall
                  case None => if existingInstall then None else Some(BaseVersion(starts[0]))
    decreases |starts|
  {
    hide BaseVersion;
    var earlier := starts[..|starts| - 1];
    if earlier != [] { RecordFollowsStarts(existing, earlier, existingInstall); }
  }

  /** The last release before the current one that differs from it. */
  function LastOther(existing: Option<VersionRecord>, starts: seq<Bytes>, existingInstall: bool): (r: Option<Bytes>)
    requires starts != []
  {
    var current := BaseVersion(starts[|starts| - 1]);
    if |starts| > 1 then
      var before := BaseVersion(starts[|starts| - 2]);
      if before != current then Some(before) else LastOther(existing, starts[..|starts| - 1], existingInstall)
    else
      match existing
      case Some(record) => if record.current != current then Some(record.current) else record.previous
      case None => if existingInstall && current != UNRECORDED_UPGRADE_FROM then Some(UNRECORDED_UPGRADE_FROM) else None
  }

  // ----- tags and builds -----

  /** A tag names the version it spells, with a `v` before it or without. */
  lemma TagNamesVersion(v: Version)
    requires v.major <= U64_MAX && v.minor <= U64_MAX && v.patch <= U64_MAX
    ensures ReleaseVersion(Format(v)) == Some(v) && ReleaseVersion([118] + Format(v)) == Some(v)
  {
    hide Format, ParseVersion, Utf8.Trim;
    FormatParses(v);
    FormatIsPlain(v);
    Utf8.GraphicIsTrimmed(Format(v));
    Utf8.GraphicIsTrimmed([118] + Format(v));
    assert ([118] + Format(v))[1..] == Format(v);
  }

  lemma {:induction false} MarkIsFound(s: Bytes, at: nat, from: nat)
    requires from <= at <= |s| && DEV_MARK <= s[at..]
    requires forall i :: from <= i < at ==> !(DEV_MARK <= s[i..])
    ensures FindMark(s, from) == Some(at)
    decreases at - from
  {
    if from < at { MarkIsFound(s, at, from + 1); }
  }

  lemma {:induction false} NoMarkIsFound(s: Bytes, from: nat)
    requires from <= |s| && forall i :: from <= i <= |s| ==> !(DEV_MARK <= s[i..])
    ensures FindMark(s, from) == None
    decreases |s| - from
  {
    if from < |s| { NoMarkIsFound(s, from + 1); }
  }

  /** The base of a version is what stands before the first ` (dev`, or all of it,
      trimmed. */
  lemma BaseIs(version: Bytes)
    ensures forall at :: && 0 <= at <= |version| && [32, 40, 100, 101, 118] <= version[at..]
                         && (forall i :: 0 <= i < at ==> !([32, 40, 100, 101, 118] <= version[i..]))
                         ==> BaseVersion(version) == Utf8.Trim(version[..at])
    ensures (forall i :: 0 <= i <= |version| ==> !([32, 40, 100, 101, 118] <= version[i..])) ==>
              BaseVersion(version) == Utf8.Trim(version)
  {
    hide Utf8.Trim;
    forall at | && 0 <= at <= |version| && DEV_MARK <= version[at..]
                && (forall i :: 0 <= i < at ==> !(DEV_MARK <= version[i..]))
      ensures BaseVersion(version) == Utf8.Trim(version[..at])
    {
      MarkIsFound(version, at, 0);
    }
    if forall i :: 0 <= i <= |version| ==> !(DEV_MARK <= version[i..]) {
      NoMarkIsFound(version, 0);
    }
  }
}

/** Rust `str` as bytes: UTF-8 validity (RFC 3629, section 4), char boundaries,
    slicing that may not split a char, and trimming of Unicode white space. */
module Utf8 {
  import opened Prelude

  type Byte = b: int | 0 <= b < 256
  type Bytes = seq<Byte>

  const NEWLINE: Byte := 10
  const BANG: Byte := 33
  const HASH: Byte := 35
  const SLASH: Byte := 47
  const OPEN: Byte := 91
  const BACKSLASH: Byte := 92
  const CLOSE: Byte := 93
  const TICK: Byte := 96
  const PIPE: Byte := 124
  const TILDE: Byte := 126

  predicate IsContinuation(b: Byte) {
    0x80 <= b < 0xC0
  }

  /** The length of the well-formed char `s` starts with, or 0 if there is none. */
  function CharLen(s: Bytes): (n: nat)
    ensures n <= |s|
  {
    if s == [] then 0
    else if s[0] < 0x80 then 1
    else if 0xC2 <= s[0] <= 0xDF then
      if |s| >= 2 && IsContinuation(s[1]) then 2 else 0
    else if 0xE0 <= s[0] <= 0xEF then
      if |s| >= 3 && IsContinuation(s[1]) && IsContinuation(s[2])
         && (s[0] == 0xE0 ==> 0xA0 <= s[1]) && (s[0] == 0xED ==> s[1] < 0xA0) then 3 else 0
    else if 0xF0 <= s[0] <= 0xF4 then
      if |s| >= 4 && IsContinuation(s[1]) && IsContinuation(s[2]) && IsContinuation(s[3])
         && (s[0] == 0xF0 ==> 0x90 <= s[1]) && (s[0] == 0xF4 ==> s[1] < 0x90) then 4 else 0
    else 0
  }

  predicate IsValid(s: Bytes) {
    s == [] || (CharLen(s) > 0 && IsValid(s[CharLen(s)..]))
  }

  /** Rust's `is_char_boundary`. */
  predicate IsBoundary(s: Bytes, i: int) {
    i == |s| || (0 <= i < |s| && !IsContinuation(s[i]))
  }

  /** CharLen looks only at the bytes of the char itself. */
  lemma CharLenPrefix(s: Bytes, t: Bytes)
    requires CharLen(s) > 0
    ensures CharLen(s + t) == CharLen(s)
    ensures CharLen(s[..CharLen(s)] + t) == CharLen(s)
  {
  }

  /** No char boundary falls strictly inside the first char. */
  lemma FirstCharHasNoInnerBoundary(s: Bytes, i: nat)
    requires 0 < i < CharLen(s)
    ensures !IsBoundary(s, i)
  {
  }

  lemma ValidTail(s: Bytes)
    requires IsValid(s) && s != []
    ensures CharLen(s) > 0 && IsValid(s[CharLen(s)..])
  {
  }

  lemma ValidPrepend(s: Bytes, t: Bytes)
    requires CharLen(s) > 0 && IsValid(t)
    ensures IsValid(s[..CharLen(s)] + t)
  {
    var n := CharLen(s);
    CharLenPrefix(s, t);
    hide CharLen;
    assert (s[..n] + t)[n..] == t;
  }

  lemma EmptyIsValid()
    ensures IsValid([])
  {
  }

  lemma {:induction false} ValidSplit(s: Bytes, i: nat)
    requires IsValid(s) && i <= |s| && IsBoundary(s, i)
    ensures IsValid(s[..i]) && IsValid(s[i..])
    decreases |s|
  {
    hide IsValid, CharLen;
    if i == 0 {
      assert s[..0] == [] && s[0..] == s;
      EmptyIsValid();
    } else {
      ValidTail(s);
      var n := CharLen(s);
      if i < n { FirstCharHasNoInnerBoundary(s, i); }
      var rest := s[n..];
      ValidSplit(rest, i - n);
      ValidPrepend(s, rest[..i - n]);
      assert rest[i - n..] == s[i..];
      assert s[..n] + rest[..i - n] == s[..i];
    }
  }

  lemma StartIsBoundary(s: Bytes)
    requires IsValid(s)
    ensures IsBoundary(s, 0)
  {
  }

  lemma {:induction false} ValidAppend(s: Bytes, t: Bytes)
    requires IsValid(s) && IsValid(t)
    ensures IsValid(s + t)
    decreases |s|
  {
    hide IsValid, CharLen;
    if s == [] {
      assert s + t == t;
    } else {
      ValidTail(s);
      var n := CharLen(s);
      ValidAppend(s[n..], t);
      ValidPrepend(s, s[n..] + t);
      assert s[..n] + (s[n..] + t) == s + t;
    }
  }

  /** ASCII is valid. */
  lemma {:induction false} AsciiIsValid(s: Bytes)
    requires forall i :: 0 <= i < |s| ==> s[i] < 0x80
    ensures IsValid(s)
  {
    if s != [] { AsciiIsValid(s[1..]); }
  }

  /** An ASCII byte of a valid string is a whole char. */
  lemma {:induction false} AsciiIsWholeChar(s: Bytes, i: nat)
    requires IsValid(s) && i < |s| && s[i] < 0x80
    ensures IsBoundary(s, i) && IsBoundary(s, i + 1)
    decreases |s|
  {
    var n := CharLen(s);
    if i < n {
      if n < |s| { assert CharLen(s[n..]) > 0; }
    } else {
      AsciiIsWholeChar(s[n..], i - n);
    }
  }

  /** `&s[lo..hi]`: Rust panics unless both ends are char boundaries, which is
      exactly the precondition here. */
  function Slice(s: Bytes, lo: nat, hi: nat): (r: Bytes)
    requires lo <= hi <= |s| && IsBoundary(s, lo) && IsBoundary(s, hi)
    ensures r == s[lo..hi]
    ensures IsValid(s) ==> IsValid(r)
  {
    if IsValid(s) then
      ValidSplit(s, hi);
      assert IsBoundary(s[..hi], lo);
      ValidSplit(s[..hi], lo);
      assert s[..hi][lo..] == s[lo..hi];
      s[lo..hi]
    else s[lo..hi]
  }

  /** The index of the first `b` in `s` at or after `from`. */
  function FindByteFrom(s: Bytes, b: Byte, from: nat): (r: Option<nat>)
    requires from <= |s|
    ensures r.Some? ==> from <= r.value < |s| && s[r.value] == b
    ensures r.Some? ==> forall i :: from <= i < r.value ==> s[i] != b
    ensures r.None? ==> forall i :: from <= i < |s| ==> s[i] != b
    decreases |s| - from
  {
    if from == |s| then None
    else if s[from] == b then Some(from)
    else FindByteFrom(s, b, from + 1)
  }

  // ----- trimming (White_Space of the Unicode Character Database) -----

  predicate IsAsciiWhite(b: Byte) {
    9 <= b <= 13 || b == 32
  }

  predicate IsWhite2(a: Byte, b: Byte) {
    a == 0xC2 && (b == 0x85 || b == 0xA0)
  }

  predicate IsWhite3(a: Byte, b: Byte, c: Byte) {
    || (a == 0xE1 && b == 0x9A && c == 0x80)
    || (a == 0xE2 && b == 0x80 && (0x80 <= c <= 0x8A || c == 0xA8 || c == 0xA9 || c == 0xAF))
    || (a == 0xE2 && b == 0x81 && c == 0x9F)
    || (a == 0xE3 && b == 0x80 && c == 0x80)
  }

  /** The length of the white-space char `s` starts with, or 0. */
  function WhiteHead(s: Bytes): (n: nat)
    ensures n <= |s|
    ensures n > 0 ==> n == CharLen(s)
  {
    if |s| >= 1 && IsAsciiWhite(s[0]) then 1
    else if |s| >= 2 && IsWhite2(s[0], s[1]) then 2
    else if |s| >= 3 && IsWhite3(s[0], s[1], s[2]) then 3
    else 0
  }

  /** The length of the white-space char `s` ends with, or 0. */
  function WhiteTail(s: Bytes): (n: nat)
    ensures n <= |s|
    ensures n > 0 ==> IsBoundary(s, |s| - n)
  {
    var e := |s|;
    if e >= 1 && IsAsciiWhite(s[e - 1]) then 1
    else if e >= 2 && IsWhite2(s[e - 2], s[e - 1]) then 2
    else if e >= 3 && IsWhite3(s[e - 3], s[e - 2], s[e - 1]) then 3
    else 0
  }

  predicate IsEndOf(r: Bytes, s: Bytes) {
    |r| <= |s| && r == s[|s| - |r|..]
  }

  lemma EndOfEnd(s: Bytes, t: Bytes, r: Bytes)
    requires IsEndOf(t, s) && IsEndOf(r, t)
    ensures IsEndOf(r, s)
  {
  }

  function TrimStart(s: Bytes): (r: Bytes)
    ensures IsEndOf(r, s) && WhiteHead(r) == 0
    decreases |s|
  {
    hide WhiteHead, IsValid, CharLen;
    if WhiteHead(s) == 0 then s
    else
      var rest := s[WhiteHead(s)..];
      EndOfEnd(s, rest, TrimStart(rest));
      TrimStart(rest)
  }

  lemma {:induction false} TrimStartIsValid(s: Bytes)
    requires IsValid(s)
    ensures IsValid(TrimStart(s))
    decreases |s|
  {
    hide IsValid, WhiteHead;
    if WhiteHead(s) > 0 {
      ValidTail(s);
      TrimStartIsValid(s[WhiteHead(s)..]);
    }
  }

  function TrimEnd(s: Bytes): (r: Bytes)
    ensures |r| <= |s| && r == s[..|r|]
    ensures WhiteTail(r) == 0
    ensures IsValid(s) ==> IsValid(r)
    decreases |s|
  {
    hide WhiteTail, IsValid, CharLen;
    if WhiteTail(s) == 0 then s
    else
      var t := s[..|s| - WhiteTail(s)];
      if IsValid(s) then
        ValidSplit(s, |s| - WhiteTail(s));
        TrimEnd(t)
      else TrimEnd(t)
  }

  function Trim(s: Bytes): (r: Bytes)
    ensures forall b :: b in r ==> b in s
    ensures IsValid(s) ==> IsValid(r)
  {
    assert IsValid(s) ==> IsValid(TrimStart(s)) by { if IsValid(s) { TrimStartIsValid(s); } }
    TrimEnd(TrimStart(s))
  }

  /** Graphic ASCII, space not included. */
  predicate IsGraphic(s: Bytes) {
    forall i :: 0 <= i < |s| ==> 33 <= s[i] < 127
  }

  lemma GraphicHasNoWhiteEnds(s: Bytes)
    requires IsGraphic(s)
    ensures WhiteHead(s) == 0 && WhiteTail(s) == 0
  {
  }

  lemma GraphicIsTrimmed(s: Bytes)
    requires IsGraphic(s)
    ensures TrimStart(s) == s && Trim(s) == s
  {
    hide IsValid, WhiteHead, WhiteTail, IsGraphic;
    GraphicHasNoWhiteEnds(s);
    assert TrimStart(s) == s;
    assert TrimEnd(s) == s;
  }

  predicate NewlineFree(s: Bytes) {
    NEWLINE !in s
  }
}

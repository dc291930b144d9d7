/** Client names as they are kept and shown
    (src/instance_state.rs, `clean_client_name` and `is_invisible_format`). */
module AgentNames {
  import opened Prelude

  const AGENT_NAME_MAX_CHARS: nat := 100
  const UNNAMED_AGENT := "Unknown agent"

  /** `char::is_control`: general category Cc. */
  predicate IsControl(c: char) {
    var p := c as int;
    p <= 0x1F || 0x7F <= p <= 0x9F
  }

  /** `char::is_whitespace`: the White_Space property. */
  predicate IsWhite(c: char) {
    var p := c as int;
    || 9 <= p <= 13 || p == 0x20 || p == 0x85 || p == 0xA0 || p == 0x1680
    || 0x2000 <= p <= 0x200A || p == 0x2028 || p == 0x2029 || p == 0x202F || p == 0x205F || p == 0x3000
  }

  predicate IsInvisibleFormat(c: char) {
    var p := c as int;
    || p == 0x00AD || p == 0x061C || p == 0x180E
    || 0x200B <= p <= 0x200F || 0x202A <= p <= 0x202E || p == 0x2028 || p == 0x2029
    || 0x2060 <= p <= 0x206F || p == 0xFEFF || 0xE0000 <= p <= 0xE007F
  }

  predicate IsKept(c: char) {
    !IsControl(c) && !IsInvisibleFormat(c)
  }

  function Filtered(s: string): (r: string)
    ensures forall i :: 0 <= i < |r| ==> IsKept(r[i])
  {
    if s == [] then [] else (if IsKept(s[0]) then [s[0]] else []) + Filtered(s[1..])
  }

  function TrimStart(s: string): (r: string)
    ensures |r| <= |s| && r == s[|s| - |r|..]
    ensures r != [] ==> !IsWhite(r[0])
  {
    if s != [] && IsWhite(s[0]) then TrimStart(s[1..]) else s
  }

  function TrimEnd(s: string): (r: string)
    ensures |r| <= |s| && r == s[..|r|]
    ensures r != [] ==> !IsWhite(r[|r| - 1])
  {
    if s != [] && IsWhite(s[|s| - 1]) then TrimEnd(s[..|s| - 1]) else s
  }

  function Take(s: string, n: nat): (r: string)
    ensures r == if |s| <= n then s else s[..n]
  {
    if |s| <= n then s else s[..n]
  }

  function CleanClientName(raw: string): (r: Option<string>) {
    var cut := Take(TrimEnd(TrimStart(Filtered(raw))), AGENT_NAME_MAX_CHARS);
    var cleaned := TrimEnd(cut);
    if cleaned == [] then None else Some(cleaned)
  }

  function CleanAgentName(raw: string): (r: string) {
    match CleanClientName(raw) case Some(name) => name case None => UNNAMED_AGENT
  }

  /** A clean name: one visible line of at most 100 characters, no white space
      at either end. */
  predicate IsCleanName(name: string) {
    && 0 < |name| <= AGENT_NAME_MAX_CHARS
    && (forall i :: 0 <= i < |name| ==> IsKept(name[i]))
    && !IsWhite(name[0]) && !IsWhite(name[|name| - 1])
  }

  lemma {:induction false} FilteredKeepsClean(s: string)
    requires forall i :: 0 <= i < |s| ==> IsKept(s[i])
    ensures Filtered(s) == s
  {
    if s != [] {
      assert IsKept(s[0]);
      FilteredKeepsClean(s[1..]);
      assert s == [s[0]] + s[1..];
    }
  }

  /** Every name kept is clean, and the names cleaning leaves alone are exactly
      the clean ones; so cleaning twice is cleaning once. */
  lemma CleaningIsExact(raw: string)
    ensures CleanClientName(raw).Some? ==> IsCleanName(CleanClientName(raw).value)
    ensures CleanClientName(raw) == Some(raw) <==> IsCleanName(raw)
    ensures CleanClientName(CleanAgentName(raw)) == Some(CleanAgentName(raw))
  {
    hide CleanClientName, IsCleanName;
    CleanedIsClean(raw);
    if IsCleanName(raw) { CleanIsKept(raw); }
    UnnamedIsClean();
    CleanIsKept(CleanAgentName(raw));
  }

  lemma UnnamedIsClean()
    ensures IsCleanName(UNNAMED_AGENT)
  {
  }

  predicate AllKept(s: string) {
    forall i :: 0 <= i < |s| ==> IsKept(s[i])
  }

  lemma PartIsKept(s: string, lo: nat, hi: nat)
    requires lo <= hi <= |s| && AllKept(s)
    ensures AllKept(s[lo..hi])
  {
    hide IsKept;
  }

  lemma CleanedIsClean(raw: string)
    ensures CleanClientName(raw).Some? ==> IsCleanName(CleanClientName(raw).value)
  {
    hide IsKept, IsWhite, Filtered, AllKept, TrimStart, TrimEnd;
    var filtered := Filtered(raw);
    assert AllKept(filtered) by { FilteredIsKept(raw); }
    var started := TrimStart(filtered);
    PartIsKept(filtered, |filtered| - |started|, |filtered|);
    assert filtered[|filtered| - |started|..|filtered|] == started;
    var cleaned := TrimEnd(Take(TrimEnd(started), AGENT_NAME_MAX_CHARS));
    PartIsKept(started, 0, |cleaned|);
    assert cleaned == started[0..|cleaned|];
    if cleaned != [] {
      assert cleaned[0] == started[0];
      KeptIsClean(cleaned);
    }
  }

  lemma FilteredIsKept(raw: string)
    ensures AllKept(Filtered(raw))
  {
    hide IsKept;
  }

  lemma KeptIsClean(name: string)
    requires AllKept(name) && 0 < |name| <= AGENT_NAME_MAX_CHARS
    requires !IsWhite(name[0]) && !IsWhite(name[|name| - 1])
    ensures IsCleanName(name)
  {
    hide IsKept, IsWhite;
  }

  lemma CleanIsKept(name: string)
    requires IsCleanName(name)
    ensures CleanClientName(name) == Some(name)
  {
    hide IsKept, IsWhite, Filtered;
    FilteredKeepsClean(name);
    assert TrimStart(name) == name;
    assert TrimEnd(name) == name;
  }

  // ----- what cleaning makes of any name -----

  /** Cleaning looks at each char on its own: what is kept of two strings put
      together is what is kept of both. */
  lemma {:induction false} FilteredJoin(a: string, b: string)
    ensures Filtered(a + b) == Filtered(a) + Filtered(b)
    ensures |a| == 1 ==> Filtered(a) == if IsControl(a[0]) || IsInvisibleFormat(a[0]) then [] else a
  {
    if a == [] {
      assert a + b == b;
    } else {
      assert (a + b)[1..] == a[1..] + b;
      FilteredJoin(a[1..], b);
    }
  }

  /** Printable ASCII is kept; control chars, soft hyphens, zero-width and
      direction marks, embeddings, overrides and isolates, and tags are not. */
  lemma KeptChars(c: char)
    ensures 0x20 <= c as int < 0x7F ==> IsKept(c)
    ensures c as int < 0x20 || 0x7F <= c as int < 0xA0 || c as int == 0xAD ==> !IsKept(c)
    ensures 0x200B <= c as int <= 0x200F || 0x202A <= c as int <= 0x202E || 0x2060 <= c as int <= 0x206F ==>
              !IsKept(c)
    ensures c as int == 0xFEFF || 0xE0000 <= c as int <= 0xE007F ==> !IsKept(c)
    ensures 0xA1 <= c as int < 0x2000 && c as int !in {0xAD, 0x61C, 0x180E} ==> IsKept(c)
  {
  }

  predicate AllWhite(s: string) {
    forall i :: 0 <= i < |s| ==> IsWhite(s[i])
  }

  lemma {:induction false} TrimStartIs(s: string)
    ensures AllWhite(s[..|s| - |TrimStart(s)|])
  {
    if s != [] && IsWhite(s[0]) {
      TrimStartIs(s[1..]);
      var n := |s[1..]| - |TrimStart(s[1..])|;
      assert s[..n + 1] == [s[0]] + s[1..][..n];
    }
  }

  lemma {:induction false} TrimEndIs(s: string)
    ensures AllWhite(s[|TrimEnd(s)|..])
  {
    if s != [] && IsWhite(s[|s| - 1]) {
      TrimEndIs(s[..|s| - 1]);
      var n := |TrimEnd(s[..|s| - 1])|;
      assert s[n..] == s[..|s| - 1][n..] + [s[|s| - 1]];
    }
  }

  predicate NoWhiteEnds(s: string) {
    s != [] ==> !IsWhite(s[0]) && !IsWhite(s[|s| - 1])
  }

  /** What becomes of any name: without its hidden chars it is `lead + core +
      tail`, white space around a core that has none at its ends. With nothing for
      a core there is no name; up to 100 chars the core is the name; of a longer
      one the first 100 are, but for the white space they end with. */
  lemma CleaningIs(raw: string) returns (lead: string, core: string, tail: string)
    ensures Filtered(raw) == lead + core + tail && AllWhite(lead) && AllWhite(tail) && NoWhiteEnds(core)
    ensures core == [] ==> CleanClientName(raw) == None && CleanAgentName(raw) == "Unknown agent"
    ensures 0 < |core| <= 100 ==> CleanClientName(raw) == Some(core)
    ensures |core| > 100 ==>
              && CleanClientName(raw).Some?
              && var name := CleanClientName(raw).value;
                 && |name| <= 100 && core[..|name|] == name && NoWhiteEnds(name) && AllWhite(core[|name|..100])
    ensures CleanClientName(raw).Some? ==> CleanAgentName(raw) == CleanClientName(raw).value
  {
    hide Filtered, IsWhite, IsKept;
    var filtered := Filtered(raw);
    var started := TrimStart(filtered);
    TrimStartIs(filtered);
    TrimEndIs(started);
    core := TrimEnd(started);
    lead, tail := filtered[..|filtered| - |started|], started[|core|..];
    CutIs(core);
  }

  lemma {:induction false} SolidStays(s: string)
    requires s != [] && !IsWhite(s[0])
    ensures TrimEnd(s) != []
  {
    if IsWhite(s[|s| - 1]) { SolidStays(s[..|s| - 1]); }
  }

  lemma CutIs(core: string)
    requires NoWhiteEnds(core)
    ensures var name := TrimEnd(Take(core, AGENT_NAME_MAX_CHARS));
            && (|core| <= 100 ==> name == core)
            && (|core| > 100 ==>
                  && 0 < |name| <= 100 && core[..|name|] == name && NoWhiteEnds(name)
                  && AllWhite(core[|name|..100]))
  {
    hide IsWhite;
    if |core| > 100 {
      var cut := core[..100];
      TrimEndIs(cut);
      var name := TrimEnd(cut);
      assert cut[|name|..] == core[|name|..100];
      SolidStays(cut);
    }
  }
}

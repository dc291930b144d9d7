/** The collection-wide reading of a first-run indexing pass
    (src/startup.rs, `IndexingProgressSnapshot` and `FirstRunPass`). */
module FirstRun {
  import opened Prelude
  import opened Saturating

  /** Vault ids are ordered, as the source's `BTreeMap` and `BTreeSet` need. */
  type VaultId = nat

  datatype Progress = Progress(
    notesCompleted: U64, notesTotal: U64, chunksCompleted: U64, chunksTotal: U64,
    tokensCompleted: U64, tokensTotal: U64, elapsedSeconds: U64)
  {
    function Percent(): (r: nat)
      ensures r <= 100
    {
      if tokensTotal == 0 then 0 else Min(SatMul(tokensCompleted, 100) / tokensTotal, 100)
    }

    function EtaSeconds(): (r: Option<nat>) {
      if tokensCompleted == 0 || tokensCompleted >= tokensTotal then None
      else Some(SatMul(elapsedSeconds, tokensTotal - tokensCompleted) / tokensCompleted)
    }
  }

  datatype Participant = Participant(vaultId: VaultId, settled: bool)

  datatype Pass = Pass(
    generation: U64,
    noteCountsClaimed: bool,
    participants: Option<seq<Participant>>,
    reported: map<VaultId, Progress>,
    noteCounts: map<VaultId, Option<U64>>,
    highWater: nat)

  const FRESH_PASS := Pass(0, false, None, map[], map[], 0)

  // ----- ordered iteration -----

  ghost predicate IsLeast(x: VaultId, ids: set<VaultId>) {
    x in ids && forall y :: y in ids ==> x <= y
  }

  lemma {:induction false} LeastExists(ids: set<VaultId>)
    requires ids != {}
    ensures exists x :: IsLeast(x, ids)
  {
    var z :| z in ids;
    var rest := ids - {z};
    assert ids == rest + {z};
    if rest == {} {
      assert IsLeast(z, ids);
    } else {
      LeastExists(rest);
      var x :| IsLeast(x, rest);
      assert IsLeast(if z <= x then z else x, ids);
    }
  }

  function Least(ids: set<VaultId>): (x: VaultId)
    requires ids != {}
    ensures x in ids && forall y :: y in ids ==> x <= y
  {
    LeastExists(ids);
    assert exists x :: x in ids && forall y :: y in ids ==> x <= y by {
      var x :| IsLeast(x, ids);
      assert x in ids;
    }
    var x :| x in ids && forall y :: y in ids ==> x <= y;
    x
  }

  /** The ids as a `BTreeSet` yields them. */
  function Ascending(ids: set<VaultId>): (r: seq<VaultId>)
    ensures forall x :: x in r <==> x in ids
    ensures |r| == |ids|
  {
    if ids == {} then [] else [Least(ids)] + Ascending(ids - {Least(ids)})
  }

  // ----- one reading -----

  function ParticipantIds(participants: seq<Participant>): (r: set<VaultId>) {
    set p | p in participants :: p.vaultId
  }

  /** The Vaults a pass knows about. */
  function Known(participants: seq<Participant>, reported: map<VaultId, Progress>): (r: set<VaultId>) {
    ParticipantIds(participants) + reported.Keys
  }

  /** A Vault that is no longer active counts as settled. */
  function Settled(participants: seq<Participant>, id: VaultId): (r: bool) {
    if participants == [] then true
    else if participants[0].vaultId == id then participants[0].settled
    else Settled(participants[1..], id)
  }

  function NoteCount(pass: Pass, id: VaultId): (r: Option<U64>) {
    if id in pass.reported && pass.reported[id].notesTotal > 0 then Some(pass.reported[id].notesTotal)
    else if id in pass.noteCounts then pass.noteCounts[id]
    else None
  }

  function KnownNotes(pass: Pass, ids: seq<VaultId>): (r: seq<nat>) {
    if ids == [] then []
    else
      KnownNotes(pass, ids[..|ids| - 1])
      + (match NoteCount(pass, ids[|ids| - 1]) case Some(n) => [n] case None => [])
  }

  /** `sum::<usize>()` does not saturate: release builds wrap it. */
  function AverageNotes(pass: Pass, ids: seq<VaultId>): (r: Option<U64>) {
    var notes := KnownNotes(pass, ids);
    if notes == [] then None
    else
      var sum := Sum(notes) % (U64_MAX + 1);
      assert sum / |notes| <= sum by { DivAntitone(sum, sum, |notes|, 1); }
      Some(sum / |notes|)
  }

  function ReportedProgress(reported: map<VaultId, Progress>): (r: seq<Progress>) {
    var ids := Ascending(reported.Keys);
    seq(|ids|, i requires 0 <= i < |ids| => reported[ids[i]])
  }

  /** Tokens and notes of the reports that know their notes. */
  function Samples(reports: seq<Progress>): (r: (nat, nat)) {
    if reports == [] then (0, 0)
    else
      var (tokens, notes) := Samples(reports[..|reports| - 1]);
      var last := reports[|reports| - 1];
      if last.notesTotal > 0 then (tokens + last.tokensTotal, notes + last.notesTotal) else (tokens, notes)
  }

  /** One Vault's part of the job, or None when nothing estimates it yet. */
  datatype Share = Share(weight: U64, done: U64)

  function ShareOf(
    pass: Pass, participants: seq<Participant>, average: Option<U64>, tokens: U64, notes: U64, id: VaultId)
    : (r: Option<Share>)
    ensures r.Some? ==> r.value.done <= r.value.weight
  {
    if id in pass.reported then
      var progress := pass.reported[id];
      Some(Share(
        progress.tokensTotal,
        if Settled(participants, id) then progress.tokensTotal
        else Min(progress.tokensCompleted, progress.tokensTotal)))
    else if Settled(participants, id) then Some(Share(0, 0))
    else
      var count := if NoteCount(pass, id).Some? then NoteCount(pass, id) else average;
      if count.None? || notes == 0 then None
      else
        assert SatMul(count.value, tokens) / notes <= SatMul(count.value, tokens) by {
          DivAntitone(SatMul(count.value, tokens), SatMul(count.value, tokens), notes, 1);
        }
        Some(Share(SatMul(count.value, tokens) / notes, 0))
  }

  /** All shares in order, or None when one of them is unknown. */
  function Shares(
    pass: Pass, participants: seq<Participant>, average: Option<U64>, tokens: U64, notes: U64, ids: seq<VaultId>)
    : (r: Option<seq<Share>>)
    ensures r.Some? ==> |r.value| == |ids|
    ensures r.Some? ==> forall i :: 0 <= i < |r.value| ==> r.value[i].done <= r.value[i].weight
  {
    if ids == [] then Some([])
    else
      var before := Shares(pass, participants, average, tokens, notes, ids[..|ids| - 1]);
      var last := ShareOf(pass, participants, average, tokens, notes, ids[|ids| - 1]);
      if before.None? || last.None? then None else Some(before.value + [last.value])
  }

  function Weights(shares: seq<Share>): (r: seq<nat>)
    ensures |r| == |shares|
  {
    seq(|shares|, i requires 0 <= i < |shares| => shares[i].weight)
  }

  function Dones(shares: seq<Share>): (r: seq<nat>)
    ensures |r| == |shares|
  {
    seq(|shares|, i requires 0 <= i < |shares| => shares[i].done)
  }

  lemma TotalsStep(shares: seq<Share>, share: Share)
    ensures Sat(Sum(Weights(shares + [share]))) == SatAdd(Sat(Sum(Weights(shares))), share.weight)
    ensures Sat(Sum(Dones(shares + [share]))) == SatAdd(Sat(Sum(Dones(shares))), share.done)
    ensures Sum(Weights([])) == Sum(Dones([])) == 0
  {
    hide Sum;
    SatSumStep(Weights(shares), share.weight);
    SatSumStep(Dones(shares), share.done);
    assert Weights(shares + [share]) == Weights(shares) + [share.weight];
    assert Dones(shares + [share]) == Dones(shares) + [share.done];
    assert Weights([]) == [] && Dones([]) == [];
    SumOfNothing();
  }

  lemma SumOfNothing()
    ensures Sum([]) == 0
  {
  }

  /** The whole job and how much of it is done. */
  datatype Job = Job(total: U64, done: U64)

  function JobOf(pass: Pass, participants: seq<Participant>): (r: Option<Job>) {
    var ids := Ascending(Known(participants, pass.reported));
    var (tokens, notes) := Samples(ReportedProgress(pass.reported));
    var shares := Shares(pass, participants, AverageNotes(pass, ids), Sat(tokens), Sat(notes), ids);
    if shares.None? then None
    else Some(Job(Sat(Sum(Weights(shares.value))), Sat(Sum(Dones(shares.value)))))
  }

  function JobPercent(job: Job): (r: nat)
    ensures r <= 100
  {
    if job.total == 0 then 0 else Min(SatMul(job.done, 100) / job.total, 100)
  }

  /** Tokens embedded and seconds spent, over every report. */
  function Spent(reports: seq<Progress>): (r: (nat, nat)) {
    if reports == [] then (0, 0)
    else
      var (completed, elapsed) := Spent(reports[..|reports| - 1]);
      var last := reports[|reports| - 1];
      (completed + last.tokensCompleted, elapsed + last.elapsedSeconds)
  }

  function JobEta(job: Job, reports: seq<Progress>): (r: Option<nat>) {
    var (completed, elapsed) := Spent(reports);
    if Sat(completed) > 0 && job.total > job.done
    then Some(SatMul(Sat(elapsed), job.total - job.done) / Sat(completed))
    else None
  }

  /** Whether the pass has met a second Vault, so that a reading covers a job. */
  predicate ManyVaults(pass: Pass) {
    pass.participants.Some? && |Known(pass.participants.value, pass.reported)| > 1
  }

  function MarkAfter(pass: Pass): (r: nat) {
    if !ManyVaults(pass) then pass.highWater
    else match JobOf(pass, pass.participants.value)
      case Some(job) => Max(pass.highWater, JobPercent(job))
      case None => pass.highWater
  }

  function ReadingOf(pass: Pass, current: Progress): (r: (nat, Option<nat>)) {
    if pass.participants.None? then (current.Percent(), current.EtaSeconds())
    else if !ManyVaults(pass) then (Max(current.Percent(), pass.highWater), current.EtaSeconds())
    else match JobOf(pass, pass.participants.value)
      case Some(job) => (MarkAfter(pass), JobEta(job, ReportedProgress(pass.reported)))
      case None => (pass.highWater, None)
  }

  /** The pass as the source keeps it, behind its mutex. */
  class FirstRunPass {
    var generation: U64
    var noteCountsClaimed: bool
    var participants: Option<seq<Participant>>
    var reported: map<VaultId, Progress>
    var noteCounts: map<VaultId, Option<U64>>
    var highWater: nat

    ghost function Model(): (r: Pass)
      reads this
    {
      Pass(generation, noteCountsClaimed, participants, reported, noteCounts, highWater)
    }

    constructor ()
      ensures Model() == FRESH_PASS
    {
      generation, noteCountsClaimed, participants := 0, false, None;
      reported, noteCounts, highWater := map[], map[], 0;
    }

    method Reset()
      modifies this
      ensures Model() == FRESH_PASS.(generation := (old(generation) + 1) % (U64_MAX + 1))
    {
      generation := (generation + 1) % (U64_MAX + 1);
      noteCountsClaimed, participants := false, None;
      reported, noteCounts, highWater := map[], map[], 0;
    }

    method Reading(current: Progress) returns (percent: nat, eta: Option<nat>)
      modifies this`highWater
      ensures (percent, eta) == ReadingOf(old(Model()), current)
      ensures highWater == MarkAfter(old(Model()))
    {
      hide Ascending, Known, AverageNotes, Samples, ReportedProgress, Spent, NoteCount, Settled, ShareOf;
      hide Sum, Weights, Dones, JobPercent, JobEta;
      if participants.None? {
        return current.Percent(), current.EtaSeconds();
      }
      var known := Known(participants.value, reported);
      if |known| <= 1 {
        return Max(current.Percent(), highWater), current.EtaSeconds();
      }
      ghost var before := Model();
      var pass := Pass(generation, noteCountsClaimed, participants, reported, noteCounts, highWater);
      var vaults := Ascending(known);
      var average := AverageNotes(pass, vaults);
      var reports := ReportedProgress(reported);
      var (sampleTokens, sampleNotes) := Samples(reports);
      var total: U64, done: U64 := 0, 0;
      ghost var shares: seq<Share> := [];
      var i := 0;
      assert vaults[..0] == [];
      TotalsStep([], Share(0, 0));
      while i < |vaults|
        invariant 0 <= i <= |vaults|
        invariant highWater == before.highWater
        invariant Shares(pass, participants.value, average, Sat(sampleTokens), Sat(sampleNotes), vaults[..i])
                  == Some(shares)
        invariant total == Sat(Sum(Weights(shares))) && done == Sat(Sum(Dones(shares)))
      {
        var share := ShareOf(pass, participants.value, average, Sat(sampleTokens), Sat(sampleNotes), vaults[i]);
        assert vaults[..i + 1][..i] == vaults[..i];
        if share.None? {
          SharesStayUnknown(pass, participants.value, average, Sat(sampleTokens), Sat(sampleNotes), vaults, i + 1);
          return highWater, None;
        }
        TotalsStep(shares, share.value);
        total := SatAdd(total, share.value.weight);
        done := SatAdd(done, share.value.done);
        shares := shares + [share.value];
        i := i + 1;
      }
      assert vaults[..i] == vaults;
      highWater := Max(highWater, JobPercent(Job(total, done)));
      eta := JobEta(Job(total, done), reports);
      percent := highWater;
    }
  }

  lemma {:induction false} SharesStayUnknown(
    pass: Pass, participants: seq<Participant>, average: Option<U64>, tokens: U64, notes: U64,
    ids: seq<VaultId>, n: nat)
    requires n <= |ids| && Shares(pass, participants, average, tokens, notes, ids[..n]).None?
    ensures Shares(pass, participants, average, tokens, notes, ids).None?
    decreases |ids|
  {
    hide ShareOf;
    if n == |ids| {
      assert ids[..n] == ids;
    } else {
      assert ids[..|ids| - 1][..n] == ids[..n];
      SharesStayUnknown(pass, participants, average, tokens, notes, ids[..|ids| - 1], n);
    }
  }
}

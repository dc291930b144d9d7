/** The startup tracker around a first-run pass
    (src/startup.rs, `StartupTracker`; phases from src/vault_runtime.rs).
    Each method is one atomic step. */
module StartupTracking {
  import opened Prelude
  import opened Saturating
  import opened FirstRun

  datatype Phase =
    | Validating | TermsRequired | Downloading | Scanning | Indexing | Ready
    | Unavailable(modelSetupFailed: bool)

  const NO_PROGRESS := Progress(0, 0, 0, 0, 0, 0, 0)

  datatype Tracker = Tracker(phase: Phase, indexing: Progress, pass: Pass)

  function ResetPass(pass: Pass): (r: Pass) {
    FRESH_PASS.(generation := (pass.generation + 1) % (U64_MAX + 1))
  }

  function Restarted(t: Tracker, phase: Phase): (r: Tracker) {
    Tracker(phase, NO_PROGRESS, ResetPass(t.pass))
  }

  function Reported(t: Tracker, id: VaultId, progress: Progress, participants: seq<Participant>): (r: Tracker) {
    if t.phase.Ready? then t
    else
      Tracker(
        Indexing, progress,
        t.pass.(reported := t.pass.reported[id := progress], participants := Some(participants)))
  }

  function Refreshed(t: Tracker, participants: seq<Participant>): (r: Tracker) {
    if t.pass.participants.None? then t
    else t.(pass := t.pass.(participants := Some(participants)))
  }

  /** The claim for the pass's one round of note counting, if it is granted. */
  function Claimed(t: Tracker): (r: (Tracker, Option<U64>)) {
    if t.phase.Ready? || t.pass.noteCountsClaimed then (t, None)
    else (t.(pass := t.pass.(noteCountsClaimed := true)), Some(t.pass.generation))
  }

  function Recorded(t: Tracker, generation: U64, id: VaultId, notes: Option<U64>): (r: Tracker) {
    if t.pass.generation != generation then t
    else t.(pass := t.pass.(noteCounts := t.pass.noteCounts[id := notes]))
  }

  function Settling(t: Tracker): (r: (Tracker, bool)) {
    if t.phase.Validating? || t.phase.Scanning? || t.phase.Indexing?
    then (t.(phase := Ready, indexing := NO_PROGRESS), true)
    else (t, false)
  }

  /** The percent a status request shows while indexing. */
  function Shown(t: Tracker): (r: Option<nat>) {
    if t.phase.Indexing? then Some(ReadingOf(t.pass, t.indexing).0) else None
  }

  function Looked(t: Tracker): (r: Tracker) {
    if t.phase.Indexing? then t.(pass := t.pass.(highWater := MarkAfter(t.pass))) else t
  }

  class StartupTracker {
    var phase: Phase
    var indexing: Progress
    const pass: FirstRunPass

    ghost function Model(): (r: Tracker)
      reads this, pass
    {
      Tracker(phase, indexing, pass.Model())
    }

    constructor (initial: Phase)
      requires !initial.Indexing?
      ensures Model() == Tracker(initial, NO_PROGRESS, FRESH_PASS)
      ensures fresh(pass)
    {
      phase, indexing := initial, NO_PROGRESS;
      pass := new FirstRunPass();
    }

    /** `set_scanning`, `set_terms_required`, `set_downloading` and
        `set_model_setup_failed`: each starts the pass over, then sets its phase. */
    method Restart(next: Phase)
      requires next.Scanning? || next.TermsRequired? || next.Downloading? || next == Unavailable(true)
      modifies this, pass
      ensures Model() == Restarted(old(Model()), next)
    {
      pass.Reset();
      phase, indexing := next, NO_PROGRESS;
    }

    method ReportIndexingProgress(id: VaultId, progress: Progress, participants: seq<Participant>)
      modifies this, pass
      ensures Model() == Reported(old(Model()), id, progress, participants)
    {
      if phase.Ready? {
        return;
      }
      pass.reported := pass.reported[id := progress];
      pass.participants := Some(participants);
      phase, indexing := Indexing, progress;
    }

    method RefreshIndexingParticipants(participants: seq<Participant>)
      modifies pass
      ensures Model() == Refreshed(old(Model()), participants)
    {
      if pass.participants.Some? {
        pass.participants := Some(participants);
      }
    }

    method ClaimNoteCounts() returns (generation: Option<U64>)
      modifies pass
      ensures (Model(), generation) == Claimed(old(Model()))
    {
      if phase.Ready? || pass.noteCountsClaimed {
        return None;
      }
      pass.noteCountsClaimed := true;
      return Some(pass.generation);
    }

    method RecordNoteCount(generation: U64, id: VaultId, notes: Option<U64>)
      modifies pass
      ensures Model() == Recorded(old(Model()), generation, id, notes)
    {
      if pass.generation == generation {
        pass.noteCounts := pass.noteCounts[id := notes];
      }
    }

    method SetReady()
      modifies this
      ensures Model() == old(Model()).(phase := Ready, indexing := NO_PROGRESS)
    {
      phase, indexing := Ready, NO_PROGRESS;
    }

    method SettleReady() returns (latched: bool)
      modifies this
      ensures (Model(), latched) == Settling(old(Model()))
    {
      if !(phase.Validating? || phase.Scanning? || phase.Indexing?) {
        return false;
      }
      phase, indexing := Ready, NO_PROGRESS;
      return true;
    }

    /** The percent and the time left, as a status request sees them. */
    method Status() returns (percent: Option<nat>, eta: Option<nat>)
      modifies pass
      ensures Model() == Looked(old(Model()))
      ensures percent == Shown(old(Model()))
      ensures eta == if old(phase).Indexing? then ReadingOf(old(pass.Model()), old(indexing)).1 else None
    {
      hide MarkAfter, ReadingOf;
      if !phase.Indexing? {
        return None, None;
      }
      var shown, left := pass.Reading(indexing);
      return Some(shown), left;
    }
  }

  // ----- runs -----

  datatype Event =
    | Report(id: VaultId, progress: Progress, participants: seq<Participant>)
    | Refresh(participants: seq<Participant>)
    | Claim
    | Record(generation: U64, id: VaultId, notes: Option<U64>)
    | SetReady
    | Settle
    | Restart(phase: Phase)
    | Status

  function Step(t: Tracker, event: Event): (r: Tracker) {
    match event
    case Report(id, progress, participants) => Reported(t, id, progress, participants)
    case Refresh(participants) => Refreshed(t, participants)
    case Claim => Claimed(t).0
    case Record(generation, id, notes) => Recorded(t, generation, id, notes)
    case SetReady => t.(phase := Ready, indexing := NO_PROGRESS)
    case Settle => Settling(t).0
    case Restart(phase) => if phase.Indexing? then t else Restarted(t, phase)
    case Status => Looked(t)
  }

  function Run(t: Tracker, events: seq<Event>): (r: Tracker)
    decreases |events|
  {
    if events == [] then t else Run(Step(t, events[0]), events[1..])
  }

  /** Every percent shown along a run. */
  function Readings(t: Tracker, events: seq<Event>): (r: seq<nat>)
    decreases |events|
  {
    if events == [] then []
    else
      (if events[0].Status? && Shown(t).Some? then [Shown(t).value] else [])
      + Readings(Step(t, events[0]), events[1..])
  }

  predicate OnePass(events: seq<Event>) {
    forall i :: 0 <= i < |events| ==> !events[i].Restart?
  }

  predicate AllAtLeast(xs: seq<nat>, floor: nat) {
    forall i :: 0 <= i < |xs| ==> xs[i] >= floor
  }

  /** What every reachable tracker satisfies. */
  predicate Consistent(t: Tracker) {
    && (t.pass.participants.None? ==> t.pass.reported == map[] && t.pass.highWater == 0)
    && (t.phase.Indexing? ==> t.pass.participants.Some?)
    && t.pass.highWater <= 100
  }

  lemma StepConsistent(t: Tracker, event: Event)
    requires Consistent(t)
    ensures Consistent(Step(t, event))
    ensures !event.Restart? ==> Step(t, event).pass.highWater >= t.pass.highWater
  {
    hide JobOf;
  }

  lemma {:induction false} RunConsistent(t: Tracker, events: seq<Event>)
    requires Consistent(t)
    ensures Consistent(Run(t, events))
    ensures OnePass(events) ==> Run(t, events).pass.highWater >= t.pass.highWater
    decreases |events|
  {
    hide Step, Consistent;
    if events != [] {
      StepConsistent(t, events[0]);
      RunConsistent(Step(t, events[0]), events[1..]);
    }
  }

  /** No reading of a pass is below the mark as it stood at any earlier moment. */
  lemma {:induction false} NoReadingBelowMark(t: Tracker, events: seq<Event>, floor: nat)
    requires Consistent(t) && OnePass(events) && floor <= t.pass.highWater
    ensures AllAtLeast(Readings(t, events), floor)
    decreases |events|
  {
    hide Step, JobOf;
    if events != [] {
      StepConsistent(t, events[0]);
      NoReadingBelowMark(Step(t, events[0]), events[1..], floor);
    }
  }

  /** Two or more Vaults known: the reading shown is the mark it leaves. */
  lemma ManyVaultsReadingIsMark(t: Tracker)
    requires t.phase.Indexing? && ManyVaults(t.pass)
    ensures Shown(t) == Some(Looked(t).pass.highWater)
  {
    hide JobOf;
  }

  /** Exactly when a reading is a floor for the rest of its pass: when the pass
      has met a second Vault, or the one Vault's own percent is not above the
      mark. Any other reading is undercut by that Vault's own next report. */
  lemma ReadingIsFloorIff(t: Tracker)
    requires Consistent(t) && t.phase.Indexing?
    ensures (forall events: seq<Event> :: OnePass(events) ==> AllAtLeast(Readings(Looked(t), events), Shown(t).value))
            <==> ManyVaults(t.pass) || t.indexing.Percent() <= t.pass.highWater
  {
    hide JobOf, Readings, ManyVaults;
    var after, shown := Looked(t), Shown(t).value;
    StepConsistent(t, Status);
    ShownAboveMarkIff(t);
    if shown <= after.pass.highWater {
      forall events: seq<Event> | OnePass(events)
        ensures AllAtLeast(Readings(after, events), shown)
      {
        NoReadingBelowMark(after, events, shown);
      }
    } else {
      var events := UndercutBy(t);
    }
  }

  lemma ShownAboveMarkIff(t: Tracker)
    requires Consistent(t) && t.phase.Indexing?
    ensures Shown(t).value <= Looked(t).pass.highWater
            <==> ManyVaults(t.pass) || t.indexing.Percent() <= t.pass.highWater
  {
    hide JobOf;
    if ManyVaults(t.pass) { ManyVaultsReadingIsMark(t); }
  }

  lemma UndercutBy(t: Tracker) returns (events: seq<Event>)
    requires Consistent(t) && t.phase.Indexing? && Shown(t).value > Looked(t).pass.highWater
    ensures OnePass(events) && !AllAtLeast(Readings(Looked(t), events), Shown(t).value)
  {
    hide JobOf, Known;
    var id := OnlyId(Known(t.pass.participants.value, t.pass.reported));
    var report := Report(id, NO_PROGRESS, [Participant(id, false)]);
    var after := Looked(t);
    var next := Step(after, report);
    assert next == Reported(after, id, NO_PROGRESS, [Participant(id, false)]);
    StillOneVault(t.pass, next.pass, id);
    assert Shown(next) == Some(after.pass.highWater);
    events := [report, Status];
    TwoEventReadings(after, report);
    assert Readings(after, events)[0] == after.pass.highWater;
  }

  lemma TwoEventReadings(t: Tracker, first: Event)
    requires !first.Status? && Shown(Step(t, first)).Some?
    ensures Readings(t, [first, Status]) == [Shown(Step(t, first)).value]
  {
    hide Shown, Step;
    assert [first, Status][1..] == [Status] && [Status][1..] == [];
    assert Readings(Step(t, first), [Status]) == [Shown(Step(t, first)).value];
  }

  /** A set of at most one id is within some `{id}`. */
  lemma OnlyId(known: set<VaultId>) returns (id: VaultId)
    requires |known| <= 1
    ensures known <= {id}
  {
    id := 0;
    if known != {} {
      id :| id in known;
      if !(known <= {id}) {
        var other :| other in known && other != id;
        CardinalityOfSubset({id, other}, known);
      }
    }
  }

  lemma StillOneVault(before: Pass, after: Pass, id: VaultId)
    requires before.participants.Some? && Known(before.participants.value, before.reported) <= {id}
    requires after.participants == Some([Participant(id, false)])
    requires after.reported.Keys == before.reported.Keys + {id}
    ensures !ManyVaults(after)
  {
    var known := Known(after.participants.value, after.reported);
    assert known <= {id};
    CardinalityOfSubset(known, {id});
  }

  lemma {:induction false} CardinalityOfSubset<T>(a: set<T>, b: set<T>)
    requires a <= b
    ensures |a| <= |b|
    decreases |a|
  {
    if a != {} {
      var x :| x in a;
      CardinalityOfSubset(a - {x}, b - {x});
    }
  }

  // ----- a reading that falls -----

  const HALF_DONE := Progress(0, 0, 0, 0, 50, 100, 0)
  const NOT_BEGUN := Progress(0, 0, 0, 0, 0, 100, 0)

  /** Vault 1 reports half its tokens; then Vault 2 joins and reports none. */
  const SECOND_JOINS: seq<Event> := [
    Report(1, HALF_DONE, [Participant(1, false)]), Status,
    Report(2, NOT_BEGUN, [Participant(1, false), Participant(2, false)]), Status]

  lemma OneVaultReads(t: Tracker)
    requires t.phase.Indexing? && t.indexing == HALF_DONE && t.pass.highWater == 0
    requires t.pass.participants == Some([Participant(1, false)]) && t.pass.reported == map[1 := HALF_DONE]
    ensures Shown(t) == Some(50) && Looked(t) == t
  {
    hide JobOf, JobEta, Progress.EtaSeconds;
    OneVaultKnown(t.pass.reported);
    assert HALF_DONE.Percent() == 50;
    hide Known;
    assert !ManyVaults(t.pass);
  }

  lemma OneVaultKnown(reported: map<VaultId, Progress>)
    requires reported == map[1 := HALF_DONE]
    ensures Known([Participant(1, false)], reported) == {1}
  {
  }

  lemma AscendingOneTwo()
    ensures Ascending({1, 2}) == [1, 2]
  {
    assert Least({1, 2}) == 1;
    assert {1, 2} - {1} == {2} && {2} - {2} == {};
    assert Least({2}) == 2;
    assert Ascending({2}) == [2];
  }

  lemma TwoVaultsKnown(participants: seq<Participant>, reported: map<VaultId, Progress>)
    requires participants == [Participant(1, false), Participant(2, false)]
    requires reported == map[1 := HALF_DONE, 2 := NOT_BEGUN]
    ensures Known(participants, reported) == {1, 2}
    ensures !Settled(participants, 1) && !Settled(participants, 2)
  {
    assert participants[0].vaultId == 1 && participants[1].vaultId == 2;
    assert participants[1..] == [Participant(2, false)];
  }

  lemma TwoShares(pass: Pass, participants: seq<Participant>, average: Option<U64>, tokens: U64, notes: U64)
    requires participants == [Participant(1, false), Participant(2, false)]
    requires pass.reported == map[1 := HALF_DONE, 2 := NOT_BEGUN]
    ensures Shares(pass, participants, average, tokens, notes, [1, 2]) == Some([Share(100, 50), Share(100, 0)])
  {
    hide Settled, NoteCount;
    TwoVaultsKnown(participants, pass.reported);
    var two: seq<VaultId>, one: seq<VaultId>, none: seq<VaultId> := [1, 2], [1], [];
    assert two == one + [2] && one == none + [1];
    SharesSnoc(pass, participants, average, tokens, notes, none, 1);
    SharesSnoc(pass, participants, average, tokens, notes, one, 2);
    var first, second := Share(100, 50), Share(100, 0);
    assert ShareOf(pass, participants, average, tokens, notes, 1) == Some(first);
    assert ShareOf(pass, participants, average, tokens, notes, 2) == Some(second);
    assert [] + [first] == [first] && [first] + [second] == [first, second];
  }

  lemma SharesSnoc(
    pass: Pass, participants: seq<Participant>, average: Option<U64>, tokens: U64, notes: U64,
    ids: seq<VaultId>, id: VaultId)
    ensures var before := Shares(pass, participants, average, tokens, notes, ids);
            var last := ShareOf(pass, participants, average, tokens, notes, id);
            Shares(pass, participants, average, tokens, notes, ids + [id])
            == if before.None? || last.None? then None else Some(before.value + [last.value])
  {
    hide ShareOf;
    assert (ids + [id])[..|ids|] == ids;
  }

  lemma TwoVaultsRead(t: Tracker)
    requires t.phase.Indexing? && t.pass.highWater == 0
    requires t.pass.participants == Some([Participant(1, false), Participant(2, false)])
    requires t.pass.reported == map[1 := HALF_DONE, 2 := NOT_BEGUN]
    ensures Shown(t) == Some(25)
  {
    hide Ascending, Known, AverageNotes, Samples, ReportedProgress, Shares, JobEta;
    var participants, reported := t.pass.participants.value, t.pass.reported;
    AscendingOneTwo();
    TwoVaultsKnown(participants, reported);
    var ids: seq<VaultId> := [1, 2];
    var (tokens, notes) := Samples(ReportedProgress(reported));
    TwoShares(t.pass, participants, AverageNotes(t.pass, ids), Sat(tokens), Sat(notes));
    SumOfTwo(100, 100);
    SumOfTwo(50, 0);
    assert Weights([Share(100, 50), Share(100, 0)]) == [100, 100];
    assert Dones([Share(100, 50), Share(100, 0)]) == [50, 0];
    assert JobOf(t.pass, participants) == Some(Job(200, 50));
  }

  lemma SumOfTwo(a: nat, b: nat)
    ensures Sum([a, b]) == a + b
  {
    var two: seq<nat>, one: seq<nat> := [a, b], [a];
    assert two[..1] == one && one[..0] == [];
    assert Sum(one) == a;
  }

  /** From a fresh tracker: the first status shows 50, the second 25. */
  lemma ReadingCanFall()
    ensures OnePass(SECOND_JOINS)
    ensures Readings(Tracker(Scanning, NO_PROGRESS, FRESH_PASS), SECOND_JOINS) == [50, 25]
  {
    hide Shown, Looked, JobOf;
    var fresh0 := Tracker(Scanning, NO_PROGRESS, FRESH_PASS);
    var events := SECOND_JOINS;
    var first := Step(fresh0, events[0]);
    OneVaultReads(first);
    var second := Step(first, events[2]);
    assert second.pass.reported == map[1 := HALF_DONE, 2 := NOT_BEGUN];
    TwoVaultsRead(second);
    assert events[1..][1..] == events[2..] && events[2..][1..] == [Status] && [Status][1..] == [];
    assert events[2..][0] == events[2] && events[1..][0] == Status;
    assert Readings(second, [Status]) == [25] + Readings(Looked(second), []);
    assert Readings(first, events[2..]) == Readings(second, [Status]);
    assert Readings(first, events[1..]) == [50] + Readings(first, events[2..]);
  }
}

/** What the collection-wide reading promises (src/startup.rs:84-177) and what
    keeps stale note counts out of it (src/startup.rs:75-80, 285-342). */
module FirstRunLaws {
  import opened Prelude
  import opened Saturating
  import opened FirstRun
  import opened StartupTracking

  // ----- the job and its percent -----

  lemma {:induction false} SumMonotone(a: seq<nat>, b: seq<nat>)
    requires |a| == |b| && forall i :: 0 <= i < |a| ==> a[i] <= b[i]
    ensures Sum(a) <= Sum(b)
    decreases |a|
  {
    if a != [] { SumMonotone(a[..|a| - 1], b[..|b| - 1]); }
  }

  /** Done never passes total, however far both saturate. */
  lemma DoneWithinTotal(pass: Pass, participants: seq<Participant>)
    requires JobOf(pass, participants).Some?
    ensures JobOf(pass, participants).value.done <= JobOf(pass, participants).value.total
  {
    hide Ascending, Known, AverageNotes, Samples, ReportedProgress, ShareOf;
    var ids := Ascending(Known(participants, pass.reported));
    var (tokens, notes) := Samples(ReportedProgress(pass.reported));
    var shares := Shares(pass, participants, AverageNotes(pass, ids), Sat(tokens), Sat(notes), ids).value;
    SumMonotone(Dones(shares), Weights(shares));
  }

  /** 100 is shown for a job that is done, and for such a job exactly when its
      size leaves room for the factor 100. */
  lemma HundredIffDone(job: Job)
    requires job.done <= job.total
    ensures JobPercent(job) == 100 <==> job.done == job.total && 0 < job.total <= U64_MAX / 100
  {
    if job.total > 0 {
      DivAtLeast(SatMul(job.done, 100), job.total, 100);
    }
  }

  /** More done of a job that is no larger never shows less. */
  lemma PercentMonotone(before: Job, after: Job)
    requires before.done <= before.total && after.done <= after.total
    requires before.done <= after.done && after.total <= before.total
    ensures JobPercent(before) <= JobPercent(after)
  {
    if after.total > 0 {
      DivAntitone(SatMul(before.done, 100), SatMul(after.done, 100), before.total, after.total);
    } else if before.total > 0 {
      DivAtLeast(0, before.total, 1);
    }
  }

  // ----- settling -----

  /** `after` differs from `before` only in that more Vaults are settled. */
  ghost predicate SettlesMore(before: seq<Participant>, after: seq<Participant>, reported: map<VaultId, Progress>) {
    && Known(before, reported) == Known(after, reported)
    && forall id :: Settled(before, id) ==> Settled(after, id)
  }

  lemma {:induction false} SharesSettle(
    pass: Pass, before: seq<Participant>, after: seq<Participant>, average: Option<U64>,
    tokens: U64, notes: U64, ids: seq<VaultId>)
    requires forall id :: Settled(before, id) ==> Settled(after, id)
    requires Shares(pass, before, average, tokens, notes, ids).Some?
    ensures var now := Shares(pass, after, average, tokens, notes, ids);
            var was := Shares(pass, before, average, tokens, notes, ids).value;
            && now.Some?
            && forall i :: 0 <= i < |ids| ==> now.value[i].weight <= was[i].weight && was[i].done <= now.value[i].done
    decreases |ids|
  {
    hide Settled, NoteCount;
    if ids != [] {
      SharesSettle(pass, before, after, average, tokens, notes, ids[..|ids| - 1]);
    }
  }

  /** Settling Vaults, with the Vault set, the reports and the counts as they
      were, never lowers the computed percent and never makes it unknown. */
  lemma SettlingNeverLowers(pass: Pass, before: seq<Participant>, after: seq<Participant>)
    requires SettlesMore(before, after, pass.reported)
    requires JobOf(pass, before).Some?
    ensures JobOf(pass, after).Some?
    ensures JobPercent(JobOf(pass, before).value) <= JobPercent(JobOf(pass, after).value)
  {
    hide Ascending, Known, AverageNotes, Samples, ReportedProgress, ShareOf, Settled;
    var ids := Ascending(Known(before, pass.reported));
    var (tokens, notes) := Samples(ReportedProgress(pass.reported));
    var average := AverageNotes(pass, ids);
    SharesSettle(pass, before, after, average, Sat(tokens), Sat(notes), ids);
    var was := Shares(pass, before, average, Sat(tokens), Sat(notes), ids).value;
    var now := Shares(pass, after, average, Sat(tokens), Sat(notes), ids).value;
    SumMonotone(Weights(now), Weights(was));
    SumMonotone(Dones(was), Dones(now));
    DoneWithinTotal(pass, before);
    DoneWithinTotal(pass, after);
    PercentMonotone(JobOf(pass, before).value, JobOf(pass, after).value);
  }

  lemma {:induction false} SharesAllSettled(
    pass: Pass, participants: seq<Participant>, average: Option<U64>, tokens: U64, notes: U64, ids: seq<VaultId>)
    requires forall id :: id in ids ==> Settled(participants, id)
    ensures var shares := Shares(pass, participants, average, tokens, notes, ids);
            shares.Some? && forall i :: 0 <= i < |ids| ==> shares.value[i].done == shares.value[i].weight
    decreases |ids|
  {
    if ids != [] {
      SharesAllSettled(pass, participants, average, tokens, notes, ids[..|ids| - 1]);
    }
  }

  /** With every known Vault settled the job is done, and the reading is 100
      exactly when there was a job and it is not too large to multiply. */
  lemma AllSettledReadsHundredIff(pass: Pass, participants: seq<Participant>)
    requires forall id :: id in Known(participants, pass.reported) ==> Settled(participants, id)
    ensures JobOf(pass, participants).Some?
    ensures var job := JobOf(pass, participants).value;
            JobPercent(job) == 100 <==> 0 < job.total <= U64_MAX / 100
  {
    hide AverageNotes, Samples, ReportedProgress, ShareOf, Settled;
    var ids := Ascending(Known(participants, pass.reported));
    var (tokens, notes) := Samples(ReportedProgress(pass.reported));
    var average := AverageNotes(pass, ids);
    SharesAllSettled(pass, participants, average, Sat(tokens), Sat(notes), ids);
    var shares := Shares(pass, participants, average, Sat(tokens), Sat(notes), ids).value;
    assert Dones(shares) == Weights(shares);
    HundredIffDone(JobOf(pass, participants).value);
  }

  /** So the reading shown is 100 exactly then, or if the pass has read 100 before. */
  lemma AllSettledShowsHundredIff(pass: Pass, current: Progress)
    requires ManyVaults(pass) && pass.highWater <= 100
    requires forall id :: id in Known(pass.participants.value, pass.reported) ==> Settled(pass.participants.value, id)
    ensures JobOf(pass, pass.participants.value).Some?
    ensures var job := JobOf(pass, pass.participants.value).value;
            ReadingOf(pass, current).0 == 100 <==> pass.highWater == 100 || 0 < job.total <= U64_MAX / 100
  {
    hide JobOf, JobEta, Settled, Known;
    AllSettledReadsHundredIff(pass, pass.participants.value);
  }

  const HUGE := Progress(0, 0, 0, 0, 0, U64_MAX, 0)

  lemma HugeShares(pass: Pass, participants: seq<Participant>, average: Option<U64>, tokens: U64, notes: U64)
    requires participants == [Participant(1, true), Participant(2, true)] && pass.reported == map[1 := HUGE]
    ensures Shares(pass, participants, average, tokens, notes, [1, 2]) == Some([Share(U64_MAX, U64_MAX), Share(0, 0)])
  {
    hide NoteCount;
    assert participants[0].vaultId == 1 && participants[1..] == [Participant(2, true)];
    assert Settled(participants[1..], 2);
    var two: seq<VaultId>, one: seq<VaultId>, none: seq<VaultId> := [1, 2], [1], [];
    assert two == one + [2] && one == none + [1];
    SharesSnoc(pass, participants, average, tokens, notes, none, 1);
    SharesSnoc(pass, participants, average, tokens, notes, one, 2);
    var first, second := Share(U64_MAX, U64_MAX), Share(0, 0);
    assert ShareOf(pass, participants, average, tokens, notes, 1) == Some(first);
    assert ShareOf(pass, participants, average, tokens, notes, 2) == Some(second);
    assert [] + [first] == [first] && [first] + [second] == [first, second];
  }

  /** It can be too large: two Vaults, both settled, and the reading is 1. */
  lemma AllSettledCanReadOne(current: Progress)
    ensures var participants := [Participant(1, true), Participant(2, true)];
            var pass := FRESH_PASS.(participants := Some(participants), reported := map[1 := HUGE]);
            && (forall id :: id in Known(participants, pass.reported) ==> Settled(participants, id))
            && ReadingOf(pass, current).0 == 1
  {
    hide Ascending, AverageNotes, Samples, ReportedProgress, Shares, JobEta;
    var participants := [Participant(1, true), Participant(2, true)];
    var pass := FRESH_PASS.(participants := Some(participants), reported := map[1 := HUGE]);
    assert participants[0].vaultId == 1 && participants[1].vaultId == 2;
    assert participants[1..] == [Participant(2, true)] && Settled(participants[1..], 2);
    assert Known(participants, pass.reported) == {1, 2};
    AscendingOneTwo();
    var ids: seq<VaultId> := [1, 2];
    var (tokens, notes) := Samples(ReportedProgress(pass.reported));
    HugeShares(pass, participants, AverageNotes(pass, ids), Sat(tokens), Sat(notes));
    SumOfTwo(U64_MAX, 0);
    var shares := [Share(U64_MAX, U64_MAX), Share(0, 0)];
    assert Weights(shares) == [U64_MAX, 0] && Dones(shares) == [U64_MAX, 0];
    assert JobOf(pass, participants) == Some(Job(U64_MAX, U64_MAX));
    assert JobPercent(Job(U64_MAX, U64_MAX)) == 1;
  }

  // ----- estimates -----

  lemma {:induction false} SamplesAreProportional(reports: seq<Progress>, rate: nat)
    requires forall i :: 0 <= i < |reports| && reports[i].notesTotal > 0 ==>
               reports[i].tokensTotal == rate * reports[i].notesTotal
    ensures Samples(reports).0 == rate * Samples(reports).1
  {
    if reports != [] {
      var before, last := reports[..|reports| - 1], reports[|reports| - 1];
      SamplesAreProportional(before, rate);
      if last.notesTotal > 0 { Distribute(rate, Samples(before).1, last.notesTotal); }
    }
  }

  lemma Distribute(a: nat, b: nat, c: nat)
    ensures a * (b + c) == a * b + a * c
  {
  }

  lemma RateComesOut(count: nat, rate: nat, notes: nat)
    requires notes > 0
    ensures count * (rate * notes) / notes == count * rate
  {
    assert count * (rate * notes) == (count * rate) * notes;
    DivAtLeast(count * rate * notes, notes, count * rate);
    DivAtLeast(count * rate * notes, notes, count * rate + 1);
  }

  /** Where every Vault that has reported has `rate` tokens a note, a queued Vault
      is weighed at `rate` tokens for each of its notes, or for each of the
      average if its notes were not counted, as long as nothing saturates, and
      none of it is done. */
  lemma EstimateIsProportional(pass: Pass, participants: seq<Participant>, average: Option<U64>, id: VaultId, rate: nat)
    requires id !in pass.reported && !Settled(participants, id)
    requires NoteCount(pass, id).Some? || average.Some?
    requires var reports := ReportedProgress(pass.reported);
             var count := if NoteCount(pass, id).Some? then NoteCount(pass, id).value else average.value;
             && (forall i :: 0 <= i < |reports| && reports[i].notesTotal > 0 ==>
                   reports[i].tokensTotal == rate * reports[i].notesTotal)
             && 0 < Samples(reports).1 <= U64_MAX && Samples(reports).0 <= U64_MAX
             && count * Samples(reports).0 <= U64_MAX
    ensures var (tokens, notes) := Samples(ReportedProgress(pass.reported));
            var count := if NoteCount(pass, id).Some? then NoteCount(pass, id).value else average.value;
            var share := ShareOf(pass, participants, average, Sat(tokens), Sat(notes), id);
            share.Some? && share.value.weight == count * rate && share.value.done == 0
  {
    hide Settled, NoteCount, ReportedProgress, Samples;
    var reports := ReportedProgress(pass.reported);
    SamplesAreProportional(reports, rate);
    var count := if NoteCount(pass, id).Some? then NoteCount(pass, id).value else average.value;
    RateComesOut(count, rate, Samples(reports).1);
  }

  // ----- where a mark comes from -----

  /** Event `i` of the run reads the collection, and computes `percent`. */
  ghost predicate ReadsAt(t: Tracker, events: seq<Event>, i: nat, percent: nat) {
    && i < |events| && events[i].Status?
    && var at := Run(t, events[..i]);
       && at.phase.Indexing? && ManyVaults(at.pass)
       && JobOf(at.pass, at.pass.participants.value).Some?
       && JobPercent(JobOf(at.pass, at.pass.participants.value).value) == percent
  }

  lemma {:induction false} RunSplit(t: Tracker, events: seq<Event>, i: nat)
    requires i < |events|
    ensures Run(t, events[..i + 1]) == Step(Run(t, events[..i]), events[i])
    decreases |events|
  {
    hide Step;
    if i == 0 {
      assert events[..1] == [events[0]] && events[..0] == [];
      assert Run(Step(t, events[0]), []) == Step(t, events[0]);
    } else {
      assert events[..i + 1][1..] == events[1..][..i] && events[..i][1..] == events[1..][..i - 1];
      RunSplit(Step(t, events[0]), events[1..], i - 1);
    }
  }

  lemma StepMark(t: Tracker, event: Event)
    requires Consistent(t) && !event.Restart? && Step(t, event).pass.highWater != t.pass.highWater
    ensures event.Status? && t.phase.Indexing? && ManyVaults(t.pass)
    ensures JobOf(t.pass, t.pass.participants.value).Some?
    ensures Step(t, event).pass.highWater == JobPercent(JobOf(t.pass, t.pass.participants.value).value)
  {
    hide JobOf, JobPercent, ManyVaults;
  }

  /** In a pass that began at 0, the mark is a percent some reading of that pass
      computed. */
  lemma {:induction false} MarkWasRead(t: Tracker, events: seq<Event>) returns (i: nat)
    requires Consistent(t) && OnePass(events) && t.pass.highWater == 0
    requires Run(t, events).pass.highWater > 0
    ensures ReadsAt(t, events, i, Run(t, events).pass.highWater)
    decreases |events|
  {
    hide JobOf, JobPercent, Step, ManyVaults, Consistent, Run;
    var n := |events| - 1;
    if n < 0 {
      assert events == [];
      RunOfNothing(t);
      assert false;
    }
    assert events[..n + 1] == events;
    RunSplit(t, events, n);
    var before := Run(t, events[..n]);
    RunConsistent(t, events[..n]);
    if Step(before, events[n]).pass.highWater == before.pass.highWater {
      i := MarkWasRead(t, events[..n]);
      assert events[..n][..i] == events[..i];
    } else {
      StepMark(before, events[n]);
      i := n;
    }
  }

  lemma RunOfNothing(t: Tracker)
    ensures Run(t, []) == t
  {
  }

  /** A reading over two or more Vaults shows 100 only in a pass some reading of
      which found the whole job done. */
  lemma HundredMeansDone(t: Tracker, events: seq<Event>) returns (i: nat, job: Job)
    requires Consistent(t) && OnePass(events) && t.pass.highWater == 0
    requires Run(t, events).pass.highWater == 100
    ensures ReadsAt(t, events, i, 100)
    ensures var at := Run(t, events[..i]);
            JobOf(at.pass, at.pass.participants.value) == Some(job)
    ensures job.done == job.total > 0
  {
    hide JobOf, JobPercent, Run;
    i := MarkWasRead(t, events);
    var at := Run(t, events[..i]);
    job := JobOf(at.pass, at.pass.participants.value).value;
    DoneWithinTotal(at.pass, at.pass.participants.value);
    HundredIffDone(job);
  }

  // ----- stale note counts -----

  /** A granted claim, and the pass (counted from the start) it was granted in. */
  datatype Ticket = Ticket(generation: U64, pass: nat)

  datatype History = History(tracker: Tracker, passes: nat, tickets: seq<Ticket>)

  /** A step of the run. Whoever records a count holds a ticket of the run. */
  datatype Move = Plain(event: Event) | UseTicket(ticket: nat, id: VaultId, notes: Option<U64>)

  predicate CanMove(h: History, move: Move) {
    match move
    case Plain(event) => !event.Record?
    case UseTicket(k, _, _) => k < |h.tickets|
  }

  function EventOf(h: History, move: Move): (r: Event)
    requires CanMove(h, move)
  {
    match move
    case Plain(event) => event
    case UseTicket(k, id, notes) => Record(h.tickets[k].generation, id, notes)
  }

  function Advance(h: History, move: Move): (r: History)
    requires CanMove(h, move)
  {
    var event := EventOf(h, move);
    var granted := if event.Claim? then Claimed(h.tracker).1 else None;
    History(
      Step(h.tracker, event),
      if event.Restart? && !event.phase.Indexing? then h.passes + 1 else h.passes,
      if granted.Some? then h.tickets + [Ticket(granted.value, h.passes)] else h.tickets)
  }

  ghost predicate ValidHistory(h: History) {
    && h.tracker.pass.generation == h.passes % (U64_MAX + 1)
    && (forall i :: 0 <= i < |h.tickets| ==>
          h.tickets[i].pass <= h.passes && h.tickets[i].generation == h.tickets[i].pass % (U64_MAX + 1))
    && (forall i, j :: 0 <= i < j < |h.tickets| ==> h.tickets[i].pass < h.tickets[j].pass)
    && (!h.tracker.pass.noteCountsClaimed ==>
          forall i :: 0 <= i < |h.tickets| ==> h.tickets[i].pass < h.passes)
  }

  lemma WrapNext(n: nat)
    ensures (n % (U64_MAX + 1) + 1) % (U64_MAX + 1) == (n + 1) % (U64_MAX + 1)
  {
  }

  /** Every run keeps the tickets in step with the passes; in particular a pass
      grants at most one claim. */
  lemma AdvanceValid(h: History, move: Move)
    requires ValidHistory(h) && CanMove(h, move)
    ensures ValidHistory(Advance(h, move))
  {
    hide JobOf, MarkAfter;
    WrapNext(h.passes);
  }

  lemma SameRemainder(a: nat, b: nat)
    requires b <= a
    ensures a % (U64_MAX + 1) == b % (U64_MAX + 1) <==> (a - b) % (U64_MAX + 1) == 0
    ensures a <= U64_MAX ==> a % (U64_MAX + 1) == a && b % (U64_MAX + 1) == b
  {
  }

  predicate Lands(h: History, ticket: nat)
    requires ticket < |h.tickets|
  {
    h.tickets[ticket].generation == h.tracker.pass.generation
  }

  /** Exactly which tickets still record: those of the current pass, and, once
      2^64 passes have gone by, those whose number has come round again. */
  lemma TicketLandsIff(h: History, ticket: nat)
    requires ValidHistory(h) && ticket < |h.tickets|
    ensures Lands(h, ticket) <==> (h.passes - h.tickets[ticket].pass) % (U64_MAX + 1) == 0
    ensures h.passes <= U64_MAX ==> (Lands(h, ticket) <==> h.tickets[ticket].pass == h.passes)
  {
    SameRemainder(h.passes, h.tickets[ticket].pass);
  }

  predicate CanPlay(h: History, moves: seq<Move>)
    decreases |moves|
  {
    moves != [] ==> CanMove(h, moves[0]) && CanPlay(Advance(h, moves[0]), moves[1..])
  }

  function Play(h: History, moves: seq<Move>): (r: History)
    requires CanPlay(h, moves)
    decreases |moves|
  {
    if moves == [] then h else Play(Advance(h, moves[0]), moves[1..])
  }

  lemma {:induction false} PlayValid(h: History, moves: seq<Move>)
    requires ValidHistory(h) && CanPlay(h, moves)
    ensures ValidHistory(Play(h, moves))
    decreases |moves|
  {
    hide Advance, ValidHistory;
    if moves != [] {
      AdvanceValid(h, moves[0]);
      PlayValid(Advance(h, moves[0]), moves[1..]);
    }
  }

  /** In any run from startup with fewer than 2^64 restarts, a ticket records a
      count exactly if it was granted in the pass now running, and no two
      tickets were granted in one pass. */
  lemma OnlyCurrentTicketsLand(start: Phase, moves: seq<Move>, ticket: nat, other: nat)
    requires !start.Indexing?
    requires var h := History(Tracker(start, NO_PROGRESS, FRESH_PASS), 0, []);
             && CanPlay(h, moves)
             && Play(h, moves).passes <= U64_MAX
             && ticket < |Play(h, moves).tickets| && other < |Play(h, moves).tickets|
    ensures var h := Play(History(Tracker(start, NO_PROGRESS, FRESH_PASS), 0, []), moves);
            && (Lands(h, ticket) <==> h.tickets[ticket].pass == h.passes)
            && (ticket != other ==> h.tickets[ticket].pass != h.tickets[other].pass)
  {
    hide Play, CanPlay, Lands;
    var h := History(Tracker(start, NO_PROGRESS, FRESH_PASS), 0, []);
    PlayValid(h, moves);
    TicketLandsIff(Play(h, moves), ticket);
  }

  /** A count that does not land changes nothing, and neither progress nor a
      claim gets anywhere once the collection is ready. */
  lemma NothingStaleLands(h: History, move: Move)
    requires ValidHistory(h) && CanMove(h, move)
    ensures move.UseTicket? && !Lands(h, move.ticket) ==> Advance(h, move).tracker == h.tracker
    ensures h.tracker.phase.Ready? && move.Plain? && (move.event.Report? || move.event.Claim?) ==>
              Advance(h, move) == h
    ensures Advance(h, move).tracker.pass.noteCounts != h.tracker.pass.noteCounts ==>
              (move.UseTicket? && Lands(h, move.ticket)) || Advance(h, move).passes == h.passes + 1
  {
    hide JobOf, MarkAfter;
  }
}

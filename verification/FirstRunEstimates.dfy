/** What the numbers of a collection-wide reading come to, from the counts and
    the progress themselves (src/startup.rs:21-38, 107-177, 285-342). */
module FirstRunEstimates {
  import opened Prelude
  import opened Saturating
  import opened Counting
  import opened FirstRun
  import opened StartupTracking
  import opened FirstRunLaws

  // ----- sums -----

  lemma {:induction false} SomeAtMost(xs: seq<nat>, n: nat) returns (i: nat)
    requires Sum(xs) < |xs| * (n + 1)
    ensures i < |xs| && xs[i] <= n
    decreases |xs|
  {
    var last := |xs| - 1;
    if xs[last] <= n {
      i := last;
    } else {
      TimesLess(|xs|, n + 1);
      i := SomeAtMost(xs[..last], n);
    }
  }

  lemma {:induction false} SomeAtLeast(xs: seq<nat>, n: nat) returns (i: nat)
    requires xs != [] && |xs| * n <= Sum(xs)
    ensures i < |xs| && n <= xs[i]
    decreases |xs|
  {
    var last := |xs| - 1;
    assert xs[..0] == [];
    if |xs| == 1 || n <= xs[last] {
      i := last;
    } else {
      TimesLess(|xs|, n);
      i := SomeAtLeast(xs[..last], n);
    }
  }

  lemma TimesLess(k: nat, n: nat)
    requires k > 0
    ensures (k - 1) * n == k * n - n
  {
  }

  lemma {:induction false} SumOfSame(xs: seq<nat>, x: nat)
    requires forall i :: 0 <= i < |xs| ==> xs[i] == x
    ensures Sum(xs) == |xs| * x
    decreases |xs|
  {
    if xs != [] {
      SumOfSame(xs[..|xs| - 1], x);
      TimesLess(|xs|, x);
    }
  }

  lemma FloorIs(n: nat, d: nat)
    requires d > 0
    ensures (n / d) * d <= n < (n / d + 1) * d
  {
    DivAtLeast(n, d, n / d);
    DivAtLeast(n, d, n / d + 1);
  }

  // ----- who is settled -----

  /** A Vault is settled if its first entry says so, or if it has none. */
  lemma {:induction false} SettledIff(participants: seq<Participant>, id: VaultId)
    ensures Settled(participants, id) <==>
              forall i :: && 0 <= i < |participants| && participants[i].vaultId == id
                          && (forall j :: 0 <= j < i ==> participants[j].vaultId != id)
                          ==> participants[i].settled
  {
    if participants != [] && participants[0].vaultId != id {
      var rest := participants[1..];
      SettledIff(rest, id);
      assert forall i :: 0 <= i < |rest| ==> rest[i] == participants[i + 1];
      assert forall i :: 0 < i < |participants| ==> participants[i] == rest[i - 1];
    }
  }

  // ----- the average note count -----

  /** The places of the ids whose notes are counted. */
  function CountedAt(pass: Pass, ids: seq<VaultId>): (r: set<nat>) {
    set i: nat | i < |ids| && NoteCount(pass, ids[i]).Some?
  }

  function NotesAt(pass: Pass, ids: seq<VaultId>): (r: seq<nat>) {
    seq(|ids|, i requires 0 <= i < |ids| =>
      if NoteCount(pass, ids[i]).Some? then NoteCount(pass, ids[i]).value else 0)
  }

  lemma {:induction false} CountedAre(pass: Pass, ids: seq<VaultId>)
    ensures |KnownNotes(pass, ids)| == |CountedAt(pass, ids)|
    decreases |ids|
  {
    hide NoteCount;
    if ids == [] {
      assert CountedAt(pass, ids) == {};
    } else {
      var k := |ids| - 1;
      CountedAre(pass, ids[..k]);
      assert CountedAt(pass, ids)
          == CountedAt(pass, ids[..k]) + (if NoteCount(pass, ids[k]).Some? then {k} else {});
    }
  }

  lemma {:induction false} NotesAre(pass: Pass, ids: seq<VaultId>)
    ensures Sum(KnownNotes(pass, ids)) == Sum(NotesAt(pass, ids))
    decreases |ids|
  {
    hide NoteCount, Sum;
    if ids == [] {
      assert NotesAt(pass, ids) == [];
    } else {
      var k := |ids| - 1;
      var before, last := ids[..k], NoteCount(pass, ids[k]);
      NotesAre(pass, before);
      assert NotesAt(pass, ids) == NotesAt(pass, before) + [if last.Some? then last.value else 0];
      SumSnoc(NotesAt(pass, before), if last.Some? then last.value else 0);
      if last.Some? { SumSnoc(KnownNotes(pass, before), last.value); }
      else { assert KnownNotes(pass, before) + [] == KnownNotes(pass, before); }
    }
  }

  lemma {:induction false} PlaceOf(pass: Pass, ids: seq<VaultId>, k: nat) returns (i: nat)
    requires k < |KnownNotes(pass, ids)|
    ensures i in CountedAt(pass, ids) && NoteCount(pass, ids[i]) == Some(KnownNotes(pass, ids)[k])
    decreases |ids|
  {
    hide NoteCount;
    var before := ids[..|ids| - 1];
    if k < |KnownNotes(pass, before)| {
      i := PlaceOf(pass, before, k);
    } else {
      i := |ids| - 1;
    }
  }

  /** The average of the counts that are known, rounded down; it is no less than
      one of them and no more than another. */
  lemma AverageIs(pass: Pass, ids: seq<VaultId>) returns (low: nat, high: nat)
    requires CountedAt(pass, ids) != {} && Sum(NotesAt(pass, ids)) <= U64_MAX
    ensures AverageNotes(pass, ids).Some?
    ensures var n, sum, average := |CountedAt(pass, ids)|, Sum(NotesAt(pass, ids)), AverageNotes(pass, ids).value;
            n * average <= sum < n * (average + 1)
    ensures low in CountedAt(pass, ids) && high in CountedAt(pass, ids)
    ensures NoteCount(pass, ids[low]).value <= AverageNotes(pass, ids).value <= NoteCount(pass, ids[high]).value
  {
    hide NoteCount, KnownNotes, CountedAt, Sum, NotesAt;
    CountedAre(pass, ids);
    NotesAre(pass, ids);
    var notes := KnownNotes(pass, ids);
    var average := AverageNotes(pass, ids).value;
    FloorIs(Sum(notes), |notes|);
    var i := SomeAtMost(notes, average);
    low := PlaceOf(pass, ids, i);
    var j := SomeAtLeast(notes, average);
    high := PlaceOf(pass, ids, j);
  }

  /** Without a count there is no average. */
  lemma NoAverage(pass: Pass, ids: seq<VaultId>)
    requires CountedAt(pass, ids) == {}
    ensures AverageNotes(pass, ids).None?
  {
    CountedAre(pass, ids);
  }

  // ----- sums over the reports -----

  /** Tokens of the reports that know their notes, and notes of all. */
  lemma {:induction false} SamplesAre(reports: seq<Progress>)
    ensures Samples(reports).0 == Sum(seq(|reports|, i requires 0 <= i < |reports| =>
              if reports[i].notesTotal > 0 then reports[i].tokensTotal else 0))
    ensures Samples(reports).1 == Sum(seq(|reports|, i requires 0 <= i < |reports| => reports[i].notesTotal))
  {
    var tokens := seq(|reports|, i requires 0 <= i < |reports| =>
      if reports[i].notesTotal > 0 then reports[i].tokensTotal else 0);
    var notes := seq(|reports|, i requires 0 <= i < |reports| => reports[i].notesTotal);
    if reports != [] {
      var before := reports[..|reports| - 1];
      SamplesAre(before);
      assert tokens[..|reports| - 1] == seq(|before|, i requires 0 <= i < |before| =>
        if before[i].notesTotal > 0 then before[i].tokensTotal else 0);
      assert notes[..|reports| - 1] == seq(|before|, i requires 0 <= i < |before| => before[i].notesTotal);
    }
  }

  /** Tokens embedded and seconds spent, over every report. */
  lemma {:induction false} SpentIs(reports: seq<Progress>)
    ensures Spent(reports).0 == Sum(seq(|reports|, i requires 0 <= i < |reports| => reports[i].tokensCompleted))
    ensures Spent(reports).1 == Sum(seq(|reports|, i requires 0 <= i < |reports| => reports[i].elapsedSeconds))
  {
    var tokens := seq(|reports|, i requires 0 <= i < |reports| => reports[i].tokensCompleted);
    var seconds := seq(|reports|, i requires 0 <= i < |reports| => reports[i].elapsedSeconds);
    if reports != [] {
      var before := reports[..|reports| - 1];
      SpentIs(before);
      assert tokens[..|reports| - 1] == seq(|before|, i requires 0 <= i < |before| => before[i].tokensCompleted);
      assert seconds[..|reports| - 1] == seq(|before|, i requires 0 <= i < |before| => before[i].elapsedSeconds);
    }
  }

  // ----- the share of one Vault -----

  /** A queued Vault stands for as many tokens as its notes, or the average, have
      at the rate of the reports, rounded down; one that is settled without a
      report stands for none, and a reported one for its own. */
  lemma ShareIs(pass: Pass, participants: seq<Participant>, average: Option<U64>, tokens: U64, notes: U64, id: VaultId)
    ensures var share := ShareOf(pass, participants, average, tokens, notes, id);
            var count := if NoteCount(pass, id).Some? then NoteCount(pass, id) else average;
            && (id !in pass.reported && Settled(participants, id) ==>
                  share.Some? && share.value.weight == 0)
            && (id !in pass.reported && !Settled(participants, id) ==>
                  (share.Some? <==> count.Some? && notes > 0))
            && (id !in pass.reported && !Settled(participants, id) && share.Some?
                && count.value * tokens <= U64_MAX ==>
                  && share.value.done == 0
                  && share.value.weight * notes <= count.value * tokens < (share.value.weight + 1) * notes)
            && (id in pass.reported ==>
                  && share.Some? && share.value.weight == pass.reported[id].tokensTotal
                  && (Settled(participants, id) ==> share.value.done == share.value.weight)
                  && (!Settled(participants, id) && pass.reported[id].tokensCompleted <= share.value.weight ==>
                        share.value.done == pass.reported[id].tokensCompleted))
  {
    hide Settled, NoteCount;
    var count := if NoteCount(pass, id).Some? then NoteCount(pass, id) else average;
    if count.Some? && notes > 0 { FloorIs(SatMul(count.value, tokens), notes); }
  }

  // ----- percent and time left -----

  /** The percent is the share done, rounded down, where 100 times it does not
      saturate. */
  lemma PercentIs(job: Job)
    requires job.done <= job.total && 0 < job.total && job.done * 100 <= U64_MAX
    ensures JobPercent(job) * job.total <= job.done * 100 < (JobPercent(job) + 1) * job.total
  {
    FloorIs(job.done * 100, job.total);
    DivAtLeast(job.done * 100, job.total, 101);
  }

  lemma OwnPercentIs(progress: Progress)
    requires progress.tokensCompleted <= progress.tokensTotal && 0 < progress.tokensTotal
    requires progress.tokensCompleted * 100 <= U64_MAX
    ensures progress.Percent() * progress.tokensTotal <= progress.tokensCompleted * 100
            < (progress.Percent() + 1) * progress.tokensTotal
  {
    FloorIs(progress.tokensCompleted * 100, progress.tokensTotal);
    DivAtLeast(progress.tokensCompleted * 100, progress.tokensTotal, 101);
  }

  /** The time left stands to the rest of the job as the time spent to what it
      has embedded; there is none before the first token and none with the job
      done. */
  lemma EtaIsProportional(job: Job, reports: seq<Progress>)
    requires Spent(reports).0 <= U64_MAX && Spent(reports).1 <= U64_MAX && job.done <= job.total
    requires Spent(reports).1 * (job.total - job.done) <= U64_MAX
    ensures JobEta(job, reports).None? <==> Spent(reports).0 == 0 || job.done == job.total
    ensures JobEta(job, reports).Some? ==>
              var (embedded, seconds) := Spent(reports);
              var eta := JobEta(job, reports).value;
              eta * embedded <= seconds * (job.total - job.done) < (eta + 1) * embedded
  {
    hide Spent;
    var (embedded, seconds) := Spent(reports);
    if embedded > 0 { FloorIs(seconds * (job.total - job.done), embedded); }
  }

  lemma OwnEtaIsProportional(progress: Progress)
    requires progress.tokensCompleted <= progress.tokensTotal
    requires progress.elapsedSeconds * (progress.tokensTotal - progress.tokensCompleted) <= U64_MAX
    ensures progress.EtaSeconds().None? <==>
              progress.tokensCompleted == 0 || progress.tokensCompleted == progress.tokensTotal
    ensures progress.EtaSeconds().Some? ==>
              var eta := progress.EtaSeconds().value;
              eta * progress.tokensCompleted
              <= progress.elapsedSeconds * (progress.tokensTotal - progress.tokensCompleted)
              < (eta + 1) * progress.tokensCompleted
  {
    if progress.tokensCompleted > 0 {
      FloorIs(progress.elapsedSeconds * (progress.tokensTotal - progress.tokensCompleted), progress.tokensCompleted);
    }
  }

  // ----- Vaults alike -----

  /** Every report has `count` notes and `rate` tokens a note; every other Vault
      is still queued, and its notes are `count` too or not counted; nothing
      saturates. */
  ghost predicate Alike(pass: Pass, participants: seq<Participant>, count: nat, rate: nat) {
    var known := Known(participants, pass.reported);
    && pass.reported != map[] && count > 0
    && (forall id :: id in pass.reported ==>
          pass.reported[id].notesTotal == count && pass.reported[id].tokensTotal == rate * count)
    && (forall id :: id in known && id !in pass.reported ==>
          !Settled(participants, id) && NoteCount(pass, id) in {None, Some(count)})
    && |known| * count <= U64_MAX && |known| * (rate * count) <= U64_MAX
    && |pass.reported| * count <= U64_MAX && count * (|pass.reported| * (rate * count)) <= U64_MAX
    && |pass.reported| * (rate * count) <= U64_MAX
  }

  lemma {:induction false} AlikeSamples(reports: seq<Progress>, count: nat, tokens: nat)
    requires count > 0
    requires forall i :: 0 <= i < |reports| ==> reports[i].notesTotal == count && reports[i].tokensTotal == tokens
    ensures Samples(reports) == (|reports| * tokens, |reports| * count)
  {
    if reports != [] {
      AlikeSamples(reports[..|reports| - 1], count, tokens);
      TimesLess(|reports|, count);
      TimesLess(|reports|, tokens);
    }
  }

  lemma AlikeAverage(pass: Pass, participants: seq<Participant>, count: nat, rate: nat)
    requires Alike(pass, participants, count, rate)
    ensures AverageNotes(pass, Ascending(Known(participants, pass.reported))) == Some(count)
  {
    hide Settled, Ascending, AverageNotes, Sum;
    var ids := Ascending(Known(participants, pass.reported));
    var first :| first in pass.reported;
    assert first in ids;
    var at :| 0 <= at < |ids| && ids[at] == first;
    assert at in CountedAt(pass, ids);
    SumAtMost(NotesAt(pass, ids), count);
    var low, high := AverageIs(pass, ids);
  }

  lemma {:induction false} SumAtMost(xs: seq<nat>, x: nat)
    requires forall i :: 0 <= i < |xs| ==> xs[i] <= x
    ensures Sum(xs) <= |xs| * x
    decreases |xs|
  {
    if xs != [] {
      SumAtMost(xs[..|xs| - 1], x);
      TimesLess(|xs|, x);
    }
  }

  lemma AlikeShare(pass: Pass, participants: seq<Participant>, count: nat, rate: nat, id: VaultId)
    requires Alike(pass, participants, count, rate) && id in Known(participants, pass.reported)
    ensures var (tokens, notes) := Samples(ReportedProgress(pass.reported));
            var share := ShareOf(pass, participants, Some(count), Sat(tokens), Sat(notes), id);
            && share.Some? && share.value.weight == rate * count
            && (id !in pass.reported ==> share.value.done == 0)
  {
    hide Settled, NoteCount, Samples, Ascending;
    var reports := ReportedProgress(pass.reported);
    assert forall i :: 0 <= i < |reports| ==> reports[i].notesTotal == count && reports[i].tokensTotal == rate * count;
    AlikeSamples(reports, count, rate * count);
    assert |reports| == |pass.reported| > 0;
    hide ReportedProgress;
    if id !in pass.reported {
      EstimateIsProportional(pass, participants, Some(count), id, rate);
    }
  }

  lemma {:induction false} AlikeShares(
    pass: Pass, participants: seq<Participant>, count: nat, rate: nat, ids: seq<VaultId>)
    requires Alike(pass, participants, count, rate)
    requires forall id :: id in ids ==> id in Known(participants, pass.reported)
    ensures var (tokens, notes) := Samples(ReportedProgress(pass.reported));
            var shares := Shares(pass, participants, Some(count), Sat(tokens), Sat(notes), ids);
            && shares.Some?
            && forall i :: 0 <= i < |ids| ==> shares.value[i].weight == rate * count
    decreases |ids|
  {
    hide Alike, Known, Samples, ReportedProgress, ShareOf;
    if ids != [] {
      AlikeShares(pass, participants, count, rate, ids[..|ids| - 1]);
      AlikeShare(pass, participants, count, rate, ids[|ids| - 1]);
    }
  }

  /** Among Vaults alike, a queued one weighs what a reported one does, its notes
      counted or not: the job is as many times `rate * count` as there are
      Vaults. */
  lemma AlikeWeighAlike(pass: Pass, participants: seq<Participant>, count: nat, rate: nat)
    requires Alike(pass, participants, count, rate)
    ensures var job := JobOf(pass, participants);
            job.Some? && job.value.total == |Known(participants, pass.reported)| * (rate * count)
  {
    hide Alike, Known, Samples, ReportedProgress, Shares, AverageNotes, Ascending, Sum;
    AlikeAverage(pass, participants, count, rate);
    var ids := Ascending(Known(participants, pass.reported));
    AlikeShares(pass, participants, count, rate, ids);
    AlikeFits(pass, participants, count, rate);
    var (tokens, notes) := Samples(ReportedProgress(pass.reported));
    var shares := Shares(pass, participants, Some(count), Sat(tokens), Sat(notes), ids).value;
    SumOfSame(Weights(shares), rate * count);
  }

  lemma AlikeFits(pass: Pass, participants: seq<Participant>, count: nat, rate: nat)
    requires Alike(pass, participants, count, rate)
    ensures count <= U64_MAX && |Known(participants, pass.reported)| * (rate * count) <= U64_MAX
  {
    hide Known, Settled, NoteCount;
    var id :| id in pass.reported;
    assert pass.reported[id].notesTotal == count;
  }

  // ----- what a pass knows -----

  /** The event says nothing new of the Vault and begins no pass. */
  predicate SparesReport(event: Event, id: VaultId) {
    !event.Restart? && !(event.Report? && event.id == id)
  }

  predicate SparesCount(event: Event, id: VaultId) {
    !event.Restart? && !(event.Record? && event.id == id)
  }

  predicate SparesParticipants(event: Event) {
    !event.Restart? && !event.Report? && !event.Refresh?
  }

  lemma {:induction false} ReportStays(t: Tracker, events: seq<Event>, id: VaultId)
    requires forall i :: 0 <= i < |events| ==> SparesReport(events[i], id)
    ensures id in Run(t, events).pass.reported <==> id in t.pass.reported
    ensures id in t.pass.reported ==> Run(t, events).pass.reported[id] == t.pass.reported[id]
    decreases |events|
  {
    hide MarkAfter;
    if events != [] {
      assert SparesReport(events[0], id);
      ReportStays(Step(t, events[0]), events[1..], id);
    }
  }

  lemma {:induction false} CountStays(t: Tracker, events: seq<Event>, id: VaultId)
    requires forall i :: 0 <= i < |events| ==> SparesCount(events[i], id)
    ensures id in Run(t, events).pass.noteCounts <==> id in t.pass.noteCounts
    ensures id in t.pass.noteCounts ==> Run(t, events).pass.noteCounts[id] == t.pass.noteCounts[id]
    decreases |events|
  {
    hide MarkAfter;
    if events != [] {
      assert SparesCount(events[0], id);
      CountStays(Step(t, events[0]), events[1..], id);
    }
  }

  lemma {:induction false} ParticipantsStay(t: Tracker, events: seq<Event>)
    requires forall i :: 0 <= i < |events| ==> SparesParticipants(events[i])
    ensures Run(t, events).pass.participants == t.pass.participants
    decreases |events|
  {
    hide MarkAfter;
    if events != [] {
      assert SparesParticipants(events[0]);
      ParticipantsStay(Step(t, events[0]), events[1..]);
    }
  }

  /** A report counts for its Vault until that Vault's next one or the next pass,
      unless startup was ready when it came; and so do the Vaults it lists, until
      they are listed again. */
  lemma LatestReportCounts(
    t: Tracker, id: VaultId, progress: Progress, participants: seq<Participant>, after: seq<Event>)
    requires !t.phase.Ready?
    ensures var now := Run(Step(t, Report(id, progress, participants)), after).pass;
            && ((forall i :: 0 <= i < |after| ==> SparesReport(after[i], id)) ==>
                  id in now.reported && now.reported[id] == progress)
            && ((forall i :: 0 <= i < |after| ==> SparesParticipants(after[i])) ==>
                  now.participants == Some(participants))
  {
    hide Run, MarkAfter;
    var next := Step(t, Report(id, progress, participants));
    if forall i :: 0 <= i < |after| ==> SparesReport(after[i], id) { ReportStays(next, after, id); }
    if forall i :: 0 <= i < |after| ==> SparesParticipants(after[i]) { ParticipantsStay(next, after); }
  }

  /** A note count that lands counts until the next one for its Vault or the next
      pass; a later list of Vaults counts from the first report on. */
  lemma LatestCountCounts(t: Tracker, id: VaultId, notes: Option<U64>, after: seq<Event>)
    requires forall i :: 0 <= i < |after| ==> SparesCount(after[i], id)
    ensures var now := Run(Step(t, Record(t.pass.generation, id, notes)), after).pass;
            id in now.noteCounts && now.noteCounts[id] == notes
  {
    hide Run, MarkAfter;
    CountStays(Step(t, Record(t.pass.generation, id, notes)), after, id);
  }

  /** From the first report on a refreshed list of Vaults counts until the next. */
  lemma LatestListCounts(t: Tracker, participants: seq<Participant>, after: seq<Event>)
    requires t.pass.participants.Some? && forall i :: 0 <= i < |after| ==> SparesParticipants(after[i])
    ensures Run(Step(t, Refresh(participants)), after).pass.participants == Some(participants)
  {
    hide Run, MarkAfter;
    ParticipantsStay(Step(t, Refresh(participants)), after);
  }
}

/** How often the last agent is saved and how often a newer release is asked for
    (src/instance_state.rs:229-248; src/update_check.rs:149-256). Times are
    nanoseconds relative to the epoch. */
module RateLimits {
  import opened Prelude
  import opened AgentNames
  import opened Versions

  const SECOND: int := 1_000_000_000
  const MINUTE: int := 60 * SECOND
  const DAY: int := 24 * 60 * MINUTE

  /** RFC 3339 with seconds precision keeps the whole seconds (section 5.6). */
  function WholeSeconds(at: int): (r: int) {
    at / SECOND * SECOND
  }

  // ----- the last agent -----

  datatype AgentConnection = AgentConnection(name: string, connectedAt: int)

  datatype SavedAgent = SavedAgent(name: string, at: int)

  datatype AgentLog = AgentLog(hasStore: bool, latest: Option<AgentConnection>, saved: Option<SavedAgent>)

  /** Whether an earlier time is at least `interval` before `now`; a time in the
      future is not. */
  predicate Elapsed(earlier: int, now: int, interval: int) {
    earlier <= now && now - earlier >= interval
  }

  predicate IsDue(log: AgentLog, name: string, at: int) {
    log.hasStore && (log.saved.None? || log.saved.value.name != name || Elapsed(log.saved.value.at, at, MINUTE))
  }

  function Observed(log: AgentLog, rawName: string, at: int): (r: AgentLog) {
    var name := CleanAgentName(rawName);
    AgentLog(
      log.hasStore, Some(AgentConnection(name, WholeSeconds(at))),
      if IsDue(log, name, at) then Some(SavedAgent(name, at)) else log.saved)
  }

  class AgentConnectionLog {
    const hasStore: bool
    var latest: Option<AgentConnection>
    var saved: Option<SavedAgent>

    ghost function Model(): (r: AgentLog)
      reads this
    {
      AgentLog(hasStore, latest, saved)
    }

    constructor (hasStore: bool, stored: Option<AgentConnection>)
      ensures Model() == AgentLog(hasStore, stored, None)
    {
      this.hasStore, latest, saved := hasStore, stored, None;
    }

    method Observe(rawName: string, at: int) returns (due: bool)
      modifies this
      ensures Model() == Observed(old(Model()), rawName, at)
      ensures due == IsDue(old(Model()), CleanAgentName(rawName), at)
    {
      var name := CleanAgentName(rawName);
      latest := Some(AgentConnection(name, WholeSeconds(at)));
      due := hasStore
             && (saved.None? || saved.value.name != name || Elapsed(saved.value.at, at, MINUTE));
      if due {
        saved := Some(SavedAgent(name, at));
      }
    }
  }

  /** A call is due for saving exactly if there is a store and it is the first to be
      saved, comes from another client, or comes sixty seconds or more after the
      last one saved; a save stamped in the future does not make it due. */
  lemma DueIff(log: AgentLog, rawName: string, at: int)
    ensures IsDue(log, CleanAgentName(rawName), at)
            <==> && log.hasStore
                 && (|| log.saved.None?
                     || log.saved.value.name != CleanAgentName(rawName)
                     || at - log.saved.value.at >= 60_000_000_000)
    ensures Observed(log, rawName, at).saved
            == if IsDue(log, CleanAgentName(rawName), at) then Some(SavedAgent(CleanAgentName(rawName), at))
               else log.saved
  {
    hide CleanAgentName;
  }

  datatype Call = Call(rawName: string, at: int)

  function LogAfter(log: AgentLog, calls: seq<Call>): (r: AgentLog) {
    if calls == [] then log
    else Observed(LogAfter(log, calls[..|calls| - 1]), calls[|calls| - 1].rawName, calls[|calls| - 1].at)
  }

  /** How many of the calls come due for a save. */
  function DueCalls(log: AgentLog, calls: seq<Call>): (n: nat) {
    if calls == [] then 0
    else
      DueCalls(log, calls[..|calls| - 1])
      + (if IsDue(
           LogAfter(log, calls[..|calls| - 1]), CleanAgentName(calls[|calls| - 1].rawName), calls[|calls| - 1].at)
         then 1 else 0)
  }

  /** How many calls come from another client than the call before. */
  function NameChanges(calls: seq<Call>): (n: nat) {
    if |calls| <= 1 then 0
    else
      NameChanges(calls[..|calls| - 1])
      + (if CleanAgentName(calls[|calls| - 1].rawName) != CleanAgentName(calls[|calls| - 2].rawName) then 1 else 0)
  }

  predicate InTimeOrder(calls: seq<Call>) {
    forall i, j :: 0 <= i <= j < |calls| ==> calls[i].at <= calls[j].at
  }

  /** The saves due beyond the first and the name changes each used up a minute
      of their own; and what is saved names the last client, less than a minute
      behind. */
  lemma {:induction false} DueCallsCounted(stored: Option<AgentConnection>, calls: seq<Call>)
    requires InTimeOrder(calls) && calls != []
    ensures var log := LogAfter(AgentLog(true, stored, None), calls);
            var last := calls[|calls| - 1];
            && log.hasStore
            && log.latest == Some(AgentConnection(CleanAgentName(last.rawName), WholeSeconds(last.at)))
            && log.saved.Some?
            && log.saved.value.name == CleanAgentName(last.rawName)
            && calls[0].at <= log.saved.value.at <= last.at < log.saved.value.at + MINUTE
            && 1 + NameChanges(calls) <= DueCalls(AgentLog(true, stored, None), calls)
            && (DueCalls(AgentLog(true, stored, None), calls) - 1 - NameChanges(calls)) * MINUTE
               <= log.saved.value.at - calls[0].at
    decreases |calls|
  {
    hide CleanAgentName, WholeSeconds;
    var earlier := calls[..|calls| - 1];
    if earlier == [] {
      assert DueCalls(AgentLog(true, stored, None), calls) == 1;
    } else {
      DueCallsCounted(stored, earlier);
    }
  }

  /** A steady stream of calls is saved at most once a minute, beyond the first
      call and the changes of client; and the client remembered is always the
      last one seen. */
  lemma DueCallsBounded(stored: Option<AgentConnection>, calls: seq<Call>)
    requires InTimeOrder(calls) && calls != []
    ensures DueCalls(AgentLog(true, stored, None), calls)
            <= 1 + NameChanges(calls) + (calls[|calls| - 1].at - calls[0].at) / MINUTE
    ensures LogAfter(AgentLog(true, stored, None), calls).latest
            == Some(AgentConnection(CleanAgentName(calls[|calls| - 1].rawName), WholeSeconds(calls[|calls| - 1].at)))
  {
    hide CleanAgentName, DueCalls, NameChanges, LogAfter;
    DueCallsCounted(stored, calls);
  }

  // ----- the release check -----

  datatype CheckRecord = CheckRecord(checkedAt: int, latest: Option<Version>)

  /** The checker's own memory, and the record in the state file. */
  datatype Checker = Checker(wasEnabled: Option<bool>, lastAttempt: Option<int>, record: Option<CheckRecord>)

  predicate Within(last: Option<int>, now: int, interval: int) {
    last.Some? && last.value <= now && now - last.value < interval
  }

  function StoredAttempt(c: Checker): (r: Option<int>) {
    match c.record case Some(record) => Some(record.checkedAt) case None => None
  }

  predicate TurnedOn(c: Checker, enabled: bool) {
    c.wasEnabled == Some(false) && enabled
  }

  predicate Asks(c: Checker, enabled: bool, now: int) {
    enabled
    && if TurnedOn(c, enabled) then !Within(c.lastAttempt, now, MINUTE)
       else !Within(c.lastAttempt, now, DAY) && !Within(StoredAttempt(c), now, DAY)
  }

  /** A tick with the setting as it stands: `fetched` is the tag the release API
      gave, if it gave one, and `writes` whether the record can be written. */
  datatype Tick = Tick(enabled: bool, now: int, fetched: Option<Bytes>, writes: bool)

  function Ticked(c: Checker, tick: Tick): (r: Checker) {
    if !Asks(c, tick.enabled, tick.now) then c.(wasEnabled := Some(tick.enabled))
    else
      Checker(
        Some(true), Some(tick.now),
        if tick.writes
        then Some(CheckRecord(
          WholeSeconds(tick.now),
          match tick.fetched case Some(tag) => ReleaseVersion(tag) case None => None))
        else c.record)
  }

  class UpdateChecker {
    var wasEnabled: Option<bool>
    var lastAttempt: Option<int>
    var record: Option<CheckRecord>

    ghost function Model(): (r: Checker)
      reads this
    {
      Checker(wasEnabled, lastAttempt, record)
    }

    constructor (stored: Option<CheckRecord>)
      ensures Model() == Checker(None, None, stored)
    {
      wasEnabled, lastAttempt, record := None, None, stored;
    }

    method RunTick(tick: Tick) returns (asked: bool)
      modifies this
      ensures Model() == Ticked(old(Model()), tick)
      ensures asked == Asks(old(Model()), tick.enabled, tick.now)
    {
      hide ReleaseVersion, WholeSeconds;
      var turnedOn := wasEnabled == Some(false) && tick.enabled;
      wasEnabled := Some(tick.enabled);
      if !tick.enabled {
        return false;
      }
      var storedAttempt := match record case Some(r) => Some(r.checkedAt) case None => None;
      var due := if turnedOn then !Within(lastAttempt, tick.now, MINUTE)
                 else !Within(lastAttempt, tick.now, DAY) && !Within(storedAttempt, tick.now, DAY);
      if !due {
        return false;
      }
      lastAttempt := Some(tick.now);
      var latest := match tick.fetched case Some(tag) => ReleaseVersion(tag) case None => None;
      if tick.writes {
        record := Some(CheckRecord(WholeSeconds(tick.now), latest));
      }
      return true;
    }
  }

  /** A time in nanoseconds is less than `interval` ago; one in the future is not. */
  predicate IsRecent(last: Option<int>, now: int, interval: int) {
    last.Some? && 0 <= now - last.value < interval
  }

  /** With the setting off nothing is asked. Just switched on, a tick asks at once,
      unless this process has asked in the last sixty seconds, and whatever is
      recorded. Otherwise it asks unless this process has, or the record says some
      process has, in the last 24 hours. */
  lemma AsksIff(c: Checker, enabled: bool, now: int)
    ensures !enabled ==> !Asks(c, enabled, now)
    ensures enabled && c.wasEnabled == Some(false) ==>
              (Asks(c, enabled, now) <==> !IsRecent(c.lastAttempt, now, 60_000_000_000))
    ensures enabled && c.wasEnabled != Some(false) ==>
              (Asks(c, enabled, now)
               <==> && !IsRecent(c.lastAttempt, now, 86_400_000_000_000)
                    && (c.record.Some? ==> !IsRecent(Some(c.record.value.checkedAt), now, 86_400_000_000_000)))
  {
  }

  /** A tick that asks records when, to the second, and the version of the tag it
      was given, or that there was none; it leaves the record when it cannot write,
      and when it does not ask. */
  lemma TickRecords(c: Checker, tick: Tick)
    ensures Ticked(c, tick).wasEnabled == Some(tick.enabled)
    ensures !Asks(c, tick.enabled, tick.now) ==>
              Ticked(c, tick).lastAttempt == c.lastAttempt && Ticked(c, tick).record == c.record
    ensures Asks(c, tick.enabled, tick.now) ==> Ticked(c, tick).lastAttempt == Some(tick.now)
    ensures !tick.writes ==> Ticked(c, tick).record == c.record
    ensures Asks(c, tick.enabled, tick.now) && tick.writes ==>
              var record := Ticked(c, tick).record;
              && record.Some?
              && 0 <= tick.now - record.value.checkedAt < 1_000_000_000
              && record.value.checkedAt % 1_000_000_000 == 0
              && (tick.fetched.None? ==> record.value.latest.None?)
              && (tick.fetched.Some? ==> record.value.latest == ReleaseVersion(tick.fetched.value))
  {
    hide ReleaseVersion, WholeSeconds;
    SecondsMonotone(tick.now, tick.now);
    SecondsAreWhole(tick.now);
  }

  lemma SecondsAreWhole(at: int)
    ensures WholeSeconds(at) % 1_000_000_000 == 0
  {
    assert (at / SECOND * SECOND) % SECOND == 0;
  }

  function CheckerAfter(c: Checker, ticks: seq<Tick>): (r: Checker) {
    if ticks == [] then c else Ticked(CheckerAfter(c, ticks[..|ticks| - 1]), ticks[|ticks| - 1])
  }

  /** Tick `i` asked for the latest release. */
  predicate AsksAt(c: Checker, ticks: seq<Tick>, i: nat)
    requires i < |ticks|
  {
    Asks(CheckerAfter(c, ticks[..i]), ticks[i].enabled, ticks[i].now)
  }

  function Fetches(c: Checker, ticks: seq<Tick>): (n: nat) {
    if ticks == [] then 0
    else
      Fetches(c, ticks[..|ticks| - 1])
      + (if Asks(CheckerAfter(c, ticks[..|ticks| - 1]), ticks[|ticks| - 1].enabled, ticks[|ticks| - 1].now)
         then 1 else 0)
  }

  /** How often a tick found the setting on after one that found it off. */
  function Switches(ticks: seq<Tick>): (n: nat) {
    if |ticks| <= 1 then 0
    else Switches(ticks[..|ticks| - 1]) + (if !ticks[|ticks| - 2].enabled && ticks[|ticks| - 1].enabled then 1 else 0)
  }

  predicate TicksInOrder(ticks: seq<Tick>) {
    forall i, j :: 0 <= i <= j < |ticks| ==> ticks[i].now <= ticks[j].now
  }

  /** What one process's memory says after `n` fetches: each beyond the first and
      the switches used up a day of its own. */
  ghost predicate DaysUsed(c: Checker, n: nat, switches: nat, first: int, tick: Tick) {
    && c.wasEnabled == Some(tick.enabled)
    && (c.lastAttempt.None? ==> n == 0)
    && (c.lastAttempt.Some? ==>
          first <= c.lastAttempt.value <= tick.now && (n - 1 - switches) * DAY <= c.lastAttempt.value - first)
  }

  lemma DaysUsedNext(c: Checker, n: nat, switches: nat, first: int, tick: Tick, next: Tick)
    requires DaysUsed(c, n, switches, first, tick) && first <= tick.now <= next.now
    ensures DaysUsed(
      Ticked(c, next),
      n + if Asks(c, next.enabled, next.now) then 1 else 0,
      switches + if !tick.enabled && next.enabled then 1 else 0, first, next)
  {
    hide ReleaseVersion, WholeSeconds;
  }

  /** Every fetch beyond the first and the switches used up a day of its own. */
  lemma {:induction false} FetchesCounted(stored: Option<CheckRecord>, ticks: seq<Tick>)
    requires TicksInOrder(ticks) && ticks != []
    ensures var start := Checker(None, None, stored);
            DaysUsed(
              CheckerAfter(start, ticks), Fetches(start, ticks), Switches(ticks), ticks[0].now, ticks[|ticks| - 1])
    decreases |ticks|
  {
    hide ReleaseVersion, WholeSeconds, DaysUsed, Ticked, Asks;
    var earlier := ticks[..|ticks| - 1];
    var start := Checker(None, None, stored);
    if earlier == [] {
      FirstTick(stored, ticks[0]);
      assert CheckerAfter(start, earlier) == start;
    } else {
      FetchesCounted(stored, earlier);
      assert earlier[|earlier| - 1] == ticks[|ticks| - 2];
      assert earlier[0] == ticks[0];
      DaysUsedNext(
        CheckerAfter(start, earlier), Fetches(start, earlier), Switches(earlier), ticks[0].now,
        ticks[|ticks| - 2], ticks[|ticks| - 1]);
    }
  }

  lemma FirstTick(stored: Option<CheckRecord>, tick: Tick)
    ensures var start := Checker(None, None, stored);
            DaysUsed(Ticked(start, tick), if Asks(start, tick.enabled, tick.now) then 1 else 0, 0, tick.now, tick)
  {
    hide ReleaseVersion, WholeSeconds;
  }

  /** No tick with the setting on leaves the answer a day old. */
  lemma EnabledTickIsFresh(c: Checker, tick: Tick)
    requires tick.enabled
    ensures var after := Ticked(c, tick);
            Within(after.lastAttempt, tick.now, DAY) || Within(StoredAttempt(after), tick.now, DAY)
  {
    hide ReleaseVersion, WholeSeconds;
  }

  /** One process asks at most once, plus once a switch, plus once a day. */
  lemma FetchesBounded(stored: Option<CheckRecord>, ticks: seq<Tick>)
    requires TicksInOrder(ticks) && ticks != []
    ensures Fetches(Checker(None, None, stored), ticks)
            <= 1 + Switches(ticks) + (ticks[|ticks| - 1].now - ticks[0].now) / DAY
  {
    hide Fetches, Switches, CheckerAfter;
    FetchesCounted(stored, ticks);
  }

  lemma {:induction false} LastAttemptIsRecent(c: Checker, ticks: seq<Tick>, i: nat, j: nat)
    requires TicksInOrder(ticks) && i < j <= |ticks| && AsksAt(c, ticks, i)
    ensures var after := CheckerAfter(c, ticks[..j]);
            after.lastAttempt.Some? && ticks[i].now <= after.lastAttempt.value <= ticks[j - 1].now
    decreases j
  {
    hide ReleaseVersion, WholeSeconds;
    assert ticks[..j][..j - 1] == ticks[..j - 1];
    if i < j - 1 {
      LastAttemptIsRecent(c, ticks, i, j - 1);
      assert ticks[j - 2].now <= ticks[j - 1].now;
    }
  }

  /** Two requests of one process are never within a minute of each other, even
      when the setting is switched off and on. */
  lemma NeverTwiceAMinute(c: Checker, ticks: seq<Tick>, i: nat, j: nat)
    requires TicksInOrder(ticks) && i < j < |ticks|
    requires AsksAt(c, ticks, i) && AsksAt(c, ticks, j)
    ensures ticks[j].now - ticks[i].now >= MINUTE
  {
    hide CheckerAfter;
    LastAttemptIsRecent(c, ticks, i, j);
    assert ticks[j - 1].now <= ticks[j].now;
  }

  /** What a process remembers is the time of its last request. */
  lemma {:induction false} LastAttemptIsLastAsked(stored: Option<CheckRecord>, ticks: seq<Tick>, n: nat)
    returns (k: nat)
    requires n <= |ticks|
    ensures var start := Checker(None, None, stored);
            var after := CheckerAfter(start, ticks[..n]);
            && (after.lastAttempt.None? ==> forall i: nat :: i < n ==> !AsksAt(start, ticks, i))
            && (after.lastAttempt.Some? ==>
                  && k < n && AsksAt(start, ticks, k) && after.lastAttempt == Some(ticks[k].now)
                  && forall i: nat :: k < i < n ==> !AsksAt(start, ticks, i))
    ensures n > 0 ==> CheckerAfter(Checker(None, None, stored), ticks[..n]).wasEnabled == Some(ticks[n - 1].enabled)
  {
    hide Asks, Ticked, CheckerAfter;
    var start := Checker(None, None, stored);
    k := 0;
    if n == 0 {
      NoTicks(start);
      assert ticks[..0] == [];
    } else {
      k := LastAttemptIsLastAsked(stored, ticks, n - 1);
      TickAfter(start, ticks, n - 1);
      TickRecords(CheckerAfter(start, ticks[..n - 1]), ticks[n - 1]);
      if AsksAt(start, ticks, n - 1) { k := n - 1; }
    }
  }

  lemma NoTicks(c: Checker)
    ensures CheckerAfter(c, []) == c
  {
  }

  lemma TickAfter(c: Checker, ticks: seq<Tick>, n: nat)
    requires n < |ticks|
    ensures CheckerAfter(c, ticks[..n + 1]) == Ticked(CheckerAfter(c, ticks[..n]), ticks[n])
  {
    hide Ticked;
    assert ticks[..n + 1][..n] == ticks[..n];
  }

  /** Whoever switches the check on has an answer asked for at that tick, however
      fresh the record, unless one of this process's requests is less than a minute
      old. */
  lemma SwitchingOnAsks(stored: Option<CheckRecord>, ticks: seq<Tick>, n: nat)
    requires TicksInOrder(ticks) && 0 < n < |ticks| && !ticks[n - 1].enabled && ticks[n].enabled
    ensures var start := Checker(None, None, stored);
            AsksAt(start, ticks, n)
            <==> forall i: nat :: i < n && AsksAt(start, ticks, i) ==> ticks[n].now - ticks[i].now >= 60_000_000_000
  {
    var start := Checker(None, None, stored);
    var k := LastAttemptIsLastAsked(stored, ticks, n);
    AsksIff(CheckerAfter(start, ticks[..n]), true, ticks[n].now);
    hide Asks, CheckerAfter;
    if CheckerAfter(start, ticks[..n]).lastAttempt.Some? {
      assert ticks[k].now <= ticks[n].now;
      forall i: nat | i < n && AsksAt(start, ticks, i) ensures ticks[i].now <= ticks[k].now {
        assert i <= k;
      }
    }
  }

  // ----- across restarts -----

  datatype Event = Run(tick: Tick) | Restart

  function AfterEvent(c: Checker, event: Event): (r: Checker) {
    match event
    case Run(tick) => Ticked(c, tick)
    case Restart => Checker(None, None, c.record)
  }

  function AfterEvents(c: Checker, events: seq<Event>): (r: Checker) {
    if events == [] then c else AfterEvent(AfterEvents(c, events[..|events| - 1]), events[|events| - 1])
  }

  predicate AsksAtEvent(c: Checker, events: seq<Event>, i: nat)
    requires i < |events|
  {
    events[i].Run? && Asks(AfterEvents(c, events[..i]), events[i].tick.enabled, events[i].tick.now)
  }

  /** The clock does not go back, every record can be written, and no process
      sees the setting switched on. */
  ghost predicate Undisturbed(c: Checker, events: seq<Event>) {
    && (forall i, j :: 0 <= i <= j < |events| && events[i].Run? && events[j].Run? ==>
          events[i].tick.now <= events[j].tick.now)
    && (forall i :: 0 <= i < |events| && events[i].Run? ==> events[i].tick.writes)
    && (forall i :: 0 <= i < |events| && events[i].Run? ==>
          !TurnedOn(AfterEvents(c, events[..i]), events[i].tick.enabled))
  }

  lemma {:induction false} RecordIsRecent(c: Checker, events: seq<Event>, i: nat, j: nat)
    requires Undisturbed(c, events) && i < j <= |events| && AsksAtEvent(c, events, i)
    ensures var after := AfterEvents(c, events[..j]);
            && after.record.Some? && WholeSeconds(events[i].tick.now) <= after.record.value.checkedAt
            && exists k ::
                 i <= k < j && events[k].Run? && after.record.value.checkedAt == WholeSeconds(events[k].tick.now)
    decreases j
  {
    hide ReleaseVersion, WholeSeconds, TurnedOn, Asks;
    assert events[..j][..j - 1] == events[..j - 1];
    if i < j - 1 {
      RecordIsRecent(c, events, i, j - 1);
      if events[j - 1].Run? { SecondsMonotone(events[i].tick.now, events[j - 1].tick.now); }
    }
  }

  lemma SecondsMonotone(a: int, b: int)
    ensures a <= b ==> WholeSeconds(a) <= WholeSeconds(b)
    ensures WholeSeconds(a) <= a < WholeSeconds(a) + SECOND
  {
  }

  /** Across any number of restarts two requests are more than a day less one
      second apart: the second is what the stored time may have lost. */
  lemma RestartsKeepTheDay(c: Checker, events: seq<Event>, i: nat, j: nat)
    requires Undisturbed(c, events) && i < j < |events|
    requires AsksAtEvent(c, events, i) && AsksAtEvent(c, events, j)
    ensures events[j].tick.now - events[i].tick.now > DAY - SECOND
  {
    hide AfterEvents, WholeSeconds;
    RecordIsRecent(c, events, i, j);
    var after := AfterEvents(c, events[..j]);
    var k :| i <= k < j && events[k].Run? && after.record.value.checkedAt == WholeSeconds(events[k].tick.now);
    SecondsMonotone(events[i].tick.now, events[k].tick.now);
    SecondsMonotone(events[k].tick.now, events[j].tick.now);
    assert !TurnedOn(after, events[j].tick.enabled);
  }
}

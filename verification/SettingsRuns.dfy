/** Runs of saves, removals, crashes and restarts over one settings file
    (src/runtime_config.rs:177-253, 381-405, 429-454, 483-561). Calls hold one
    lock from start to end, so a run lists them in lock order. */
module SettingsRuns {
  import opened Prelude
  import opened DurableFile
  import opened Settings

  datatype Event<T, E> =
    | Save(
        updates: seq<(string, string)>, decide: Snapshot -> Verdict<T, E>,
        mishap: Mishap, setup: Setup<E>, restore: Mishap, stopsBeforePublish: bool)
    | Remove(keys: seq<string>, mishap: Mishap, stopsBeforePublish: bool)
    /** The process comes up again and reads the file. */
    | Restart(environment: Values)
    /** The machine comes up again; the file is one of those that may survive. */
    | PowerLoss(environment: Values, survivor: Content<Values>)

  /** The configuration and what is worth remembering about the run:
      every snapshot published since startup, the map the last call tried to
      save, and every map tried or replaced since the last publication. */
  datatype World = World(
    c: Config, alive: bool, history: seq<Snapshot>, attempt: Option<Values>, tried: set<Values>)

  function Decoded(content: Content<Values>): (r: Values) {
    if content.Whole? then content.value else map[]
  }

  function Loaded(w: World, environment: Values, disk: Disk<Values>): (r: World) {
    var values := Decoded(disk.main);
    var snapshot := Resolve(environment, values, w.c.defaults);
    World(
      Config(environment, w.c.defaults, snapshot, values, map[], false, disk),
      disk.main != Torn, [snapshot], None, w.tried + {w.c.stored})
  }

  /** The map a save gets as far as trying to persist. */
  function AttemptOf<T, E>(c: Config, event: Event<T, E>): (r: Option<Values>) {
    match event
    case Save(updates, decide, _, _, _, _) =>
      if !c.poisoned && decide(Resolve(c.environment, c.stored, c.defaults)).Allow?
      then Some(Extended(c.stored, updates)) else None
    case Remove(keys, _, _) =>
      if !c.poisoned && AnyStored(c.stored, keys) then Some(Without(c.stored, keys)) else None
    case _ => None
  }

  function AfterCall<T, E>(c: Config, event: Event<T, E>): (r: Config)
    requires event.Save? || event.Remove?
  {
    match event
    case Save(updates, decide, mishap, setup, restore, stops) =>
      AfterSave(c, updates, decide, mishap, setup, restore, stops).0
    case Remove(keys, mishap, stops) => AfterRemove(c, keys, mishap, stops).0
  }

  /** The call published a snapshot. */
  predicate Publishes<T, E>(c: Config, event: Event<T, E>) {
    match event
    case Save(updates, decide, mishap, setup, restore, stops) =>
      AfterSave(c, updates, decide, mishap, setup, restore, stops).1.Saved?
    case Remove(keys, mishap, stops) =>
      AnyStored(c.stored, keys) && AfterRemove(c, keys, mishap, stops).1.Removed?
    case _ => false
  }

  predicate Stops<T, E>(c: Config, event: Event<T, E>) {
    match event
    case Save(updates, decide, mishap, setup, restore, stops) =>
      AfterSave(c, updates, decide, mishap, setup, restore, stops).1.ProcessStopped?
    case Remove(keys, mishap, stops) => AfterRemove(c, keys, mishap, stops).1.RemoveStopped?
    case _ => false
  }

  predicate CanStep<T, E>(w: World, event: Event<T, E>) {
    match event
    case Save(_, _, _, _, _, _) => w.alive
    case Remove(_, _, _) => w.alive
    case Restart(_) => true
    case PowerLoss(_, survivor) => survivor in w.c.disk.survivors
  }

  function Step<T, E>(w: World, event: Event<T, E>): (r: World)
    requires CanStep(w, event)
  {
    match event
    case Restart(environment) => Loaded(w, environment, w.c.disk)
    case PowerLoss(environment, survivor) => Loaded(w, environment, Disk(survivor, {survivor}))
    case _ =>
      var c := AfterCall(w.c, event);
      var attempt := AttemptOf(w.c, event);
      World(
        c,
        !Stops(w.c, event),
        if Publishes(w.c, event) then w.history + [c.snapshot] else w.history,
        if attempt.Some? then attempt else w.attempt,
        if Publishes(w.c, event) then {}
        else if attempt.Some? then w.tried + {attempt.value} else w.tried)
  }

  predicate CanRun<T, E>(w: World, events: seq<Event<T, E>>)
    decreases |events|
  {
    events != [] ==> CanStep(w, events[0]) && CanRun(Step(w, events[0]), events[1..])
  }

  function Run<T, E>(w: World, events: seq<Event<T, E>>): (r: World)
    requires CanRun(w, events)
    decreases |events|
  {
    if events == [] then w else Run(Step(w, events[0]), events[1..])
  }

  // ----- what every run keeps -----

  /** How many of the snapshots differ from the one before in `key`'s value. */
  function Changes(history: seq<Snapshot>, key: string): (n: nat) {
    if |history| <= 1 then 0
    else
      Changes(history[..|history| - 1], key)
      + (if key in Changed(history[|history| - 2], history[|history| - 1]) then 1 else 0)
  }

  ghost predicate FileIsWhole(disk: Disk<Values>) {
    disk.main in disk.survivors && Torn !in disk.survivors
  }

  ghost predicate HistoryFits(w: World) {
    && w.history != [] && w.history[|w.history| - 1] == w.c.snapshot
    && (forall i :: 0 <= i < |w.history| ==> w.history[i].Keys == w.c.defaults.Keys)
    && (forall i, key :: 0 <= i < |w.history| && key in w.c.defaults && key in w.c.environment ==>
          w.history[i][key].value == w.c.environment[key])
    && (forall key :: RevisionOf(w.c.revisions, key) == Changes(w.history, key) % U64_RANGE)
  }

  /** Whatever the file may turn out to hold was published last, or was tried
      (or replaced) since. */
  ghost predicate NothingUnknown(w: World) {
    forall content :: content in w.c.disk.survivors ==> Decoded(content) == w.c.stored || Decoded(content) in w.tried
  }

  ghost predicate Valid(w: World) {
    && FileIsWhole(w.c.disk)
    && w.c.snapshot == Resolve(w.c.environment, w.c.stored, w.c.defaults)
    && HistoryFits(w)
    && NothingUnknown(w)
  }

  lemma BumpedCounts(history: seq<Snapshot>, next: Snapshot, revisions: map<string, nat>, key: string)
    requires history != [] && RevisionOf(revisions, key) == Changes(history, key) % U64_RANGE
    ensures RevisionOf(Bumped(revisions, Changed(history[|history| - 1], next)), key)
            == Changes(history + [next], key) % U64_RANGE
  {
    hide Changed, Bumped, RevisionOf, Changes;
    BumpedAt(revisions, Changed(history[|history| - 1], next), key);
    ChangesSnoc(history, next, key);
    WrapNext(Changes(history, key));
  }

  lemma BumpedAt(revisions: map<string, nat>, changed: set<string>, key: string)
    ensures RevisionOf(Bumped(revisions, changed), key)
            == if key in changed then (RevisionOf(revisions, key) + 1) % U64_RANGE else RevisionOf(revisions, key)
  {
  }

  lemma ChangesSnoc(history: seq<Snapshot>, next: Snapshot, key: string)
    requires history != []
    ensures Changes(history + [next], key)
            == Changes(history, key) + (if key in Changed(history[|history| - 1], next) then 1 else 0)
  {
    hide Changed;
    var longer := history + [next];
    assert longer[..|longer| - 1] == history;
    assert longer[|longer| - 2] == history[|history| - 1] && longer[|longer| - 1] == next;
  }

  lemma WrapNext(n: nat)
    ensures (n % U64_RANGE + 1) % U64_RANGE == (n + 1) % U64_RANGE
  {
  }

  lemma PublishKeepsHistory(w: World, c: Config, values: Values)
    requires HistoryFits(w)
    requires c.environment == w.c.environment && c.defaults == w.c.defaults
    requires c.snapshot == Resolve(c.environment, values, c.defaults)
    requires c.revisions == Bumped(w.c.revisions, Changed(w.c.snapshot, c.snapshot))
    ensures HistoryFits(w.(c := c, history := w.history + [c.snapshot]))
  {
    hide Changed, Bumped, RevisionOf, Changes;
    forall key
      ensures RevisionOf(c.revisions, key) == Changes(w.history + [c.snapshot], key) % U64_RANGE
    {
      BumpedCounts(w.history, c.snapshot, w.c.revisions, key);
    }
  }

  /** A call that does not publish leaves what is live as it was; the file may
      turn out to hold what it held, the stored map again, or the attempt. */
  ghost predicate Held(c: Config, after: Config, attempt: Option<Values>) {
    && after.stored == c.stored && after.snapshot == c.snapshot && after.revisions == c.revisions
    && forall content :: content in after.disk.survivors ==>
         || content in c.disk.survivors || content == Whole(c.stored)
         || (attempt.Some? && content == Whole(attempt.value))
  }

  /** A call that publishes leaves memory, file and anything a power loss leaves
      in agreement. */
  ghost predicate Took(c: Config, after: Config, attempt: Option<Values>) {
    && attempt == Some(after.stored)
    && after.snapshot == Resolve(c.environment, after.stored, c.defaults)
    && after.revisions == Bumped(c.revisions, Changed(c.snapshot, after.snapshot))
    && after.disk == Disk(Whole(after.stored), {Whole(after.stored)})
  }

  /** What any call comes to: it publishes, or leaves what is live as it was. */
  ghost predicate Fits<T, E>(c: Config, event: Event<T, E>)
    requires event.Save? || event.Remove?
  {
    && (if Publishes(c, event) then Took(c, AfterCall(c, event), AttemptOf(c, event))
        else Held(c, AfterCall(c, event), AttemptOf(c, event)))
    && (FileIsWhole(c.disk) ==> FileIsWhole(AfterCall(c, event).disk))
  }

  lemma SaveNotTried<T, E>(c: Config, event: Event<T, E>)
    requires event.Save? && AttemptOf(c, event).None?
    ensures Fits(c, event)
  {
    hide Resolve, Extended, Bumped, Changed, AfterWrite, FileIsWhole, CommitOf;
  }

  lemma SaveNotPersisted<T, E>(c: Config, event: Event<T, E>)
    requires event.Save? && AttemptOf(c, event).Some? && !OutcomeOf(event.mishap).Done?
    ensures Fits(c, event)
  {
    hide Resolve, Extended, Bumped, Changed, AfterWrite, FileIsWhole, CommitOf;
    WriteSurvivors(c.disk, AttemptOf(c, event).value, CommitOf(event.mishap));
  }

  /** The attempt is on disk, and after a setup that fails, restored over. */
  lemma SaveNotSetUpIs<T, E>(c: Config, event: Event<T, E>)
    requires event.Save? && AttemptOf(c, event).Some? && OutcomeOf(event.mishap).Done? && !event.setup.SetUp?
    ensures var written := AfterWrite(c.disk, AttemptOf(c, event).value, CommitOf(event.mishap));
            AfterCall(c, event)
            == c.(poisoned := event.setup.SetupPanics?,
                  disk := if event.setup.SetupPanics? then written
                          else AfterWrite(written, c.stored, CommitOf(event.restore)))
    ensures !Publishes(c, event)
  {
    hide Resolve, Extended, Bumped, Changed, AfterWrite, CommitOf;
  }

  lemma SaveNotSetUp<T, E>(c: Config, event: Event<T, E>)
    requires event.Save? && AttemptOf(c, event).Some? && OutcomeOf(event.mishap).Done? && !event.setup.SetUp?
    ensures Fits(c, event)
  {
    SaveNotSetUpIs(c, event);
    hide AttemptOf, AfterCall, Publishes, AfterWrite, FileIsWhole, CommitOf;
    var written := AfterWrite(c.disk, AttemptOf(c, event).value, CommitOf(event.mishap));
    WriteSurvivors(c.disk, AttemptOf(c, event).value, CommitOf(event.mishap));
    WriteSurvivors(written, c.stored, CommitOf(event.restore));
  }

  lemma SaveSetUp<T, E>(c: Config, event: Event<T, E>)
    requires event.Save? && AttemptOf(c, event).Some? && OutcomeOf(event.mishap).Done? && event.setup.SetUp?
    ensures Fits(c, event)
  {
    hide Resolve, Extended, Bumped, Changed, AfterWrite, FileIsWhole, CommitOf;
    SmoothIsDurable();
    WriteSurvivors(c.disk, AttemptOf(c, event).value, CommitOf(event.mishap));
  }

  lemma SaveEffect<T, E>(c: Config, event: Event<T, E>)
    requires event.Save?
    ensures Fits(c, event)
  {
    hide Fits, AttemptOf;
    if AttemptOf(c, event).None? {
      SaveNotTried(c, event);
    } else if !OutcomeOf(event.mishap).Done? {
      SaveNotPersisted(c, event);
    } else if !event.setup.SetUp? {
      SaveNotSetUp(c, event);
    } else {
      SaveSetUp(c, event);
    }
  }

  lemma SmoothIsDurable()
    ensures CommitOf(Smooth) == Durable
  {
  }

  lemma WriteSurvivors(disk: Disk<Values>, values: Values, commit: Commit)
    ensures AfterWrite(disk, values, commit).survivors <= disk.survivors + {Whole(values)}
    ensures FileIsWhole(disk) ==> FileIsWhole(AfterWrite(disk, values, commit))
    ensures commit.Durable? ==> AfterWrite(disk, values, commit) == Disk(Whole(values), {Whole(values)})
  {
  }

  lemma RemoveEffect<T, E>(c: Config, event: Event<T, E>)
    requires event.Remove?
    ensures Publishes(c, event) ==> Took(c, AfterCall(c, event), AttemptOf(c, event))
    ensures !Publishes(c, event) ==> Held(c, AfterCall(c, event), AttemptOf(c, event))
    ensures FileIsWhole(c.disk) ==> FileIsWhole(AfterCall(c, event).disk)
    ensures AttemptOf(c, event).None? ==> AfterCall(c, event).disk == c.disk
  {
    hide Resolve, Without, Bumped, Changed, AnyStored;
    if AttemptOf(c, event).Some? {
      WriteSurvivors(c.disk, AttemptOf(c, event).value, CommitOf(event.mishap));
    }
    hide AfterWrite, FileIsWhole;
  }

  lemma CallEffect<T, E>(c: Config, event: Event<T, E>)
    requires event.Save? || event.Remove?
    ensures Publishes(c, event) ==> Took(c, AfterCall(c, event), AttemptOf(c, event))
    ensures !Publishes(c, event) ==> Held(c, AfterCall(c, event), AttemptOf(c, event))
    ensures FileIsWhole(c.disk) ==> FileIsWhole(AfterCall(c, event).disk)
    ensures AfterCall(c, event).environment == c.environment && AfterCall(c, event).defaults == c.defaults
  {
    hide Held, Took, FileIsWhole, AttemptOf, Publishes, AfterCall;
    if event.Save? { SaveEffect(c, event); } else { RemoveEffect(c, event); }
    CallKeepsSurroundings(c, event);
  }

  lemma SaveKeepsSurroundings<T, E>(
    c: Config, updates: seq<(string, string)>, decide: Snapshot -> Verdict<T, E>,
    mishap: Mishap, setup: Setup<E>, restore: Mishap, stopsBeforePublish: bool)
    ensures var after := AfterSave(c, updates, decide, mishap, setup, restore, stopsBeforePublish).0;
            after.environment == c.environment && after.defaults == c.defaults
  {
    hide Resolve, Extended, AfterWrite, Bumped, Changed, CommitOf;
  }

  lemma CallKeepsSurroundings<T, E>(c: Config, event: Event<T, E>)
    requires event.Save? || event.Remove?
    ensures AfterCall(c, event).environment == c.environment && AfterCall(c, event).defaults == c.defaults
  {
    hide AfterSave, Resolve, Without, AfterWrite, Bumped, Changed, CommitOf, AnyStored;
    match event
    case Save(updates, decide, mishap, setup, restore, stops) =>
      SaveKeepsSurroundings(c, updates, decide, mishap, setup, restore, stops);
    case Remove(_, _, _) =>
  }

  lemma LoadValid(w: World, environment: Values, disk: Disk<Values>)
    requires Valid(w) && FileIsWhole(disk) && disk.survivors <= w.c.disk.survivors
    ensures Valid(Loaded(w, environment, disk)) && Loaded(w, environment, disk).alive
  {
    var after := Loaded(w, environment, disk);
    assert forall key :: Changes(after.history, key) == 0;
  }

  lemma StepValid<T, E>(w: World, event: Event<T, E>)
    requires Valid(w) && CanStep(w, event)
    ensures Valid(Step(w, event))
  {
    hide Resolve, Extended, Without, Bumped, Changed, AfterSave, AfterRemove, HistoryFits;
    match event {
      case Restart(environment) => LoadValid(w, environment, w.c.disk);
      case PowerLoss(environment, survivor) => LoadValid(w, environment, Disk(survivor, {survivor}));
      case _ =>
        CallEffect(w.c, event);
        var after := AfterCall(w.c, event);
        if Publishes(w.c, event) {
          PublishKeepsHistory(w, after, after.stored);
          HistoryIgnores(w.(c := after, history := w.history + [after.snapshot]), Step(w, event));
        } else {
          HistoryIgnores(w, Step(w, event));
        }
    }
  }

  lemma HistoryIgnores(w: World, v: World)
    requires HistoryFits(w) && v.history == w.history
    requires v.c.snapshot == w.c.snapshot && v.c.revisions == w.c.revisions
    requires v.c.environment == w.c.environment && v.c.defaults == w.c.defaults
    ensures HistoryFits(v)
  {
  }

  /** Over any run, with any step failing or the process or the machine stopping
      anywhere: the file decodes to a whole map, that map was published last or
      tried since, and the live snapshot is the resolution of what was stored. */
  lemma {:induction false} RunValid<T, E>(w: World, events: seq<Event<T, E>>)
    requires Valid(w) && CanRun(w, events)
    ensures Valid(Run(w, events))
    decreases |events|
  {
    hide Valid, Step;
    if events != [] {
      StepValid(w, events[0]);
      RunValid(Step(w, events[0]), events[1..]);
    }
  }

  lemma FirstStartValid(environment: Values, defaults: Values, content: Content<Values>)
    requires content != Torn
    ensures Valid(Start(environment, defaults, content)) && Start(environment, defaults, content).alive
  {
    var w := Start(environment, defaults, content);
    assert forall key :: Changes(w.history, key) == 0;
  }

  function Start(environment: Values, defaults: Values, content: Content<Values>): (r: World) {
    var snapshot := Resolve(environment, Decoded(content), defaults);
    World(
      Config(environment, defaults, snapshot, Decoded(content), map[], false, Disk(content, {content})),
      true, [snapshot], None, {})
  }

  // ----- published or attempted: exactly when -----

  /** The file holds the map published last, or the one the last call tried. */
  predicate PublishedOrAttempted(w: World) {
    Decoded(w.c.disk.main) == w.c.stored || Some(Decoded(w.c.disk.main)) == w.attempt
  }

  /** After a call that tries to save a map, the file holds the published map or
      that one exactly if the call got as far as its rename, or the file already
      held one of the two. */
  lemma PublishedOrAttemptedIff<T, E>(w: World, event: Event<T, E>)
    requires Valid(w) && CanStep(w, event) && AttemptOf(w.c, event).Some?
    ensures PublishedOrAttempted(Step(w, event))
            <==> || !CommitOf(event.mishap).Untouched?
                 || Decoded(w.c.disk.main) == w.c.stored
                 || Decoded(w.c.disk.main) == AttemptOf(w.c, event).value
  {
    hide Resolve, Extended, Without, Bumped, Changed, HistoryFits;
  }

  lemma FailedSaveIs<T, E>(
    w: World, updates: seq<(string, string)>, decide: Snapshot -> Verdict<T, E>, step: FileStep, setup: Setup<E>)
    requires w.alive && !w.c.poisoned && decide(Resolve(w.c.environment, w.c.stored, w.c.defaults)).Allow?
    ensures var event := Save(updates, decide, FailAt(step), setup, Smooth, false);
            var values := Extended(w.c.stored, updates);
            && CanStep(w, event)
            && Step(w, event)
               == World(
                 w.c.(disk := AfterWrite(w.c.disk, values, CommitOf(FailAt(step)))),
                 true, w.history, Some(values), w.tried + {values})
  {
    hide Resolve, Extended, AfterWrite, CommitOf, Bumped, Changed;
  }

  lemma RunTwo<T, E>(w: World, a: Event<T, E>, b: Event<T, E>)
    requires CanStep(w, a) && CanStep(Step(w, a), b)
    ensures CanRun(w, [a, b]) && Run(w, [a, b]) == Step(Step(w, a), b)
  {
    hide Step, CanStep;
    assert [a, b][1..] == [b] && [b][1..] == [];
    assert CanRun(Step(w, a), [b]) && Run(Step(w, a), [b]) == Step(Step(w, a), b);
  }

  const DEFAULTS: Values := map["k" := "0"]

  /** It can fail: a save that fails after its rename, then one that fails before,
      leave a map on disk that is neither. */
  lemma TwoFailuresLeaveAnOlderAttempt(decide: Snapshot -> Verdict<int, int>) returns (w: World)
    requires forall s :: decide(s).Allow?
    ensures var first := Save([("k", "1")], decide, FailAt(SyncDirectory), SetUp, Smooth, false);
            var second := Save([("k", "2")], decide, FailAt(CreateTemp), SetUp, Smooth, false);
            var start := Start(map[], DEFAULTS, Absent);
            && CanRun(start, [first, second]) && w == Run(start, [first, second])
    ensures w.c.disk.main == Whole(map["k" := "1"])
    ensures w.c.stored == map[] && w.attempt == Some(map["k" := "2"])
    ensures !PublishedOrAttempted(w)
  {
    hide Resolve, Extended, Step, CanStep, Run, CanRun;
    var start := Start(map[], DEFAULTS, Absent);
    var first := Save([("k", "1")], decide, FailAt(SyncDirectory), SetUp, Smooth, false);
    var second := Save([("k", "2")], decide, FailAt(CreateTemp), SetUp, Smooth, false);
    ExtendOne("k", "1");
    ExtendOne("k", "2");
    FailedSaveIs(start, [("k", "1")], decide, SyncDirectory, SetUp);
    var middle := Step(start, first);
    FailedSaveIs(middle, [("k", "2")], decide, CreateTemp, SetUp);
    RunTwo(start, first, second);
    w := Step(middle, second);
    assert map["k" := "1"]["k"] != map["k" := "2"]["k"];
    assert "k" in map["k" := "1"];
  }

  lemma ExtendOne(key: string, value: string)
    ensures Extended(map[], [(key, value)]) == map[key := value]
  {
    assert [(key, value)][..0] == [];
  }

  // ----- success and restart -----

  /** Memory, file and anything a power loss leaves agree. */
  ghost predicate Clean(w: World) {
    forall content :: content in w.c.disk.survivors ==> Decoded(content) == w.c.stored
  }

  /** From a clean world a restart, with or without a power loss, resolves to
      exactly the snapshot that was live. */
  lemma CleanRestarts<T, E>(w: World, event: Event<T, E>)
    requires Valid(w) && Clean(w) && CanStep(w, event)
    requires (event.Restart? || event.PowerLoss?) && event.environment == w.c.environment
    ensures Step(w, event).c.snapshot == w.c.snapshot
  {
    hide HistoryFits, Resolve;
  }

  /** Every published value was durable first, and a successful save leaves the
      world clean. */
  lemma SuccessIsDurable<T, E>(w: World, event: Event<T, E>)
    requires Valid(w) && CanStep(w, event) && Publishes(w.c, event)
    ensures Clean(Step(w, event))
    ensures Step(w, event).c.disk == Disk(Whole(Step(w, event).c.stored), {Whole(Step(w, event).c.stored)})
  {
    hide AfterSave, AfterRemove, HistoryFits;
    CallEffect(w.c, event);
  }

  /** A successful removal leaves the world clean exactly if it had something to
      remove, or the world was clean before: with nothing to remove it writes
      nothing, and a map an earlier failure left stays on disk. */
  lemma RemovalLeavesCleanIff<T, E>(w: World, event: Event<T, E>)
    requires Valid(w) && CanStep(w, event) && event.Remove?
    requires AfterRemove(w.c, event.keys, event.mishap, event.stopsBeforePublish).1.Removed?
    ensures Clean(Step(w, event)) <==> AnyStored(w.c.stored, event.keys) || Clean(w)
  {
    hide HistoryFits, AfterSave, Changed, Bumped, Resolve, Without;
    RemoveEffect(w.c, event);
  }

  /** Removing what is not stored succeeds, and a restart still brings in the map
      of the save that had failed. */
  lemma RemovalLeavesAFailedSaveBehind(decide: Snapshot -> Verdict<int, int>) returns (w: World)
    requires forall s :: decide(s).Allow?
    ensures var save := Save([("k", "1")], decide, FailAt(SyncDirectory), SetUp, Smooth, false);
            var remove: Event<int, int> := Remove(["x"], Smooth, false);
            var start := Start(map[], DEFAULTS, Absent);
            && CanRun(start, [save, remove]) && w == Run(start, [save, remove])
            && AfterRemove(Step(start, save).c, ["x"], Smooth, false).1.Removed?
    ensures var restart: Event<int, int> := Restart(map[]);
            && w.c.snapshot == Resolve(map[], map[], DEFAULTS)
            && Step(w, restart).c.snapshot == Resolve(map[], map["k" := "1"], DEFAULTS)
            && Step(w, restart).c.snapshot != w.c.snapshot
  {
    hide Extended, Run, CanRun;
    var start := Start(map[], DEFAULTS, Absent);
    var save := Save([("k", "1")], decide, FailAt(SyncDirectory), SetUp, Smooth, false);
    var remove: Event<int, int> := Remove(["x"], Smooth, false);
    ExtendOne("k", "1");
    FailedSaveIs(start, [("k", "1")], decide, SyncDirectory, SetUp);
    NothingRemovedIs<int, int>(Step(start, save), ["x"]);
    RunTwo(start, save, remove);
    w := Step(Step(start, save), remove);
    assert Resolve(map[], map["k" := "1"], DEFAULTS)["k"].value == "1";
    assert Resolve(map[], map[], DEFAULTS)["k"].value == "0";
  }

  lemma NothingRemovedIs<T, E>(w: World, keys: seq<string>)
    requires w.alive && !w.c.poisoned && !AnyStored(w.c.stored, keys)
    ensures var remove: Event<T, E> := Remove(keys, Smooth, false);
            && CanStep(w, remove)
            && AfterRemove(w.c, keys, Smooth, false) == (w.c, Removed(w.c.snapshot))
            && Step(w, remove) == w
  {
    hide Resolve, Without, AfterWrite;
  }

  // ----- saves serialise -----

  datatype Change = Extend(updates: seq<(string, string)>) | Drop(keys: seq<string>)

  function Apply(values: Values, changes: seq<Change>): (r: Values)
    decreases |changes|
  {
    if changes == [] then values
    else
      Apply(
        (match changes[0]
         case Extend(updates) => Extended(values, updates)
         case Drop(keys) => Without(values, keys)),
        changes[1..])
  }

  /** The changes of the calls that published, in lock order. */
  function Successes<T, E>(w: World, events: seq<Event<T, E>>): (r: seq<Change>)
    requires CanRun(w, events)
    decreases |events|
  {
    if events == [] then []
    else
      (match events[0]
       case Save(updates, _, _, _, _, _) => if Publishes(w.c, events[0]) then [Extend(updates)] else []
       case Remove(keys, _, _) => if Publishes(w.c, events[0]) then [Drop(keys)] else []
       case _ => [])
      + Successes(Step(w, events[0]), events[1..])
  }

  predicate OneProcess<T, E>(events: seq<Event<T, E>>) {
    forall i :: 0 <= i < |events| ==> events[i].Save? || events[i].Remove?
  }

  /** Within one process the stored map is the successful changes applied in
      order, and what the next decision is shown is the resolution of them all. */
  lemma {:induction false} StoredIsFoldOfSuccesses<T, E>(w: World, events: seq<Event<T, E>>)
    requires Valid(w) && CanRun(w, events) && OneProcess(events)
    ensures Run(w, events).c.stored == Apply(w.c.stored, Successes(w, events))
    ensures Run(w, events).c.snapshot
            == Resolve(w.c.environment, Apply(w.c.stored, Successes(w, events)), w.c.defaults)
    decreases |events|
  {
    hide Resolve, Extended, Without, Bumped, Changed, AfterSave, AfterRemove, Valid;
    if events != [] {
      var event := events[0];
      StepValid(w, event);
      CallEffect(w.c, event);
      StoredIsFoldOfSuccesses(Step(w, event), events[1..]);
      var rest := Successes(Step(w, event), events[1..]);
      if Publishes(w.c, event) {
        var change := if event.Save? then Extend(event.updates) else Drop(event.keys);
        assert Successes(w, events) == [change] + rest;
        assert ([change] + rest)[1..] == rest;
        assert Step(w, event).c.stored == AttemptOf(w.c, event).value;
      } else {
        assert Successes(w, events) == [] + rest == rest;
      }
    } else {
      ValidResolves(w);
    }
  }

  lemma ValidResolves(w: World)
    requires Valid(w)
    ensures w.c.snapshot == Resolve(w.c.environment, w.c.stored, w.c.defaults)
  {
  }

  // ----- revisions -----

  lemma {:induction false} ChangesGrow(history: seq<Snapshot>, key: string, i: nat, j: nat)
    requires 0 < i <= j <= |history|
    ensures Changes(history[..i], key) <= Changes(history[..j], key) <= Changes(history[..i], key) + (j - i)
    decreases j
  {
    hide Changed;
    if i < j {
      assert history[..j][..j - 1] == history[..j - 1];
      ChangesGrow(history, key, i, j - 1);
    }
  }

  lemma {:induction false} NoChangesSameValue(history: seq<Snapshot>, key: string, i: nat, j: nat)
    requires i <= j < |history| && forall k :: 0 <= k < |history| ==> key in history[k]
    requires Changes(history[..i + 1], key) == Changes(history[..j + 1], key)
    ensures history[i][key].value == history[j][key].value
    decreases j
  {
    if i < j {
      assert history[..j + 1][..j] == history[..j];
      ChangesGrow(history, key, i + 1, j);
      assert key !in Changed(history[j - 1], history[j]);
      NoChangesSameValue(history, key, i, j - 1);
    }
  }

  /** Equal counts of changes up to two publications of one history leave the
      value the same at every publication between. */
  lemma EqualCountsMeanSameValue(w: World, key: string, i: nat, j: nat, k: nat)
    requires Valid(w) && key in w.c.defaults && i <= k <= j < |w.history| && j - i < U64_RANGE
    requires Changes(w.history[..i + 1], key) % U64_RANGE == Changes(w.history[..j + 1], key) % U64_RANGE
    ensures w.history[i][key].value == w.history[k][key].value
  {
    hide Changed, Changes, Resolve, NothingUnknown;
    ChangesGrow(w.history, key, i + 1, j + 1);
    ChangesGrow(w.history, key, i + 1, k + 1);
    ChangesGrow(w.history, key, k + 1, j + 1);
    NoChangesSameValue(w.history, key, i, k);
  }

  /** Within one process publications are only ever added. */
  lemma {:induction false} HistoryGrows<T, E>(w: World, events: seq<Event<T, E>>)
    requires CanRun(w, events) && OneProcess(events)
    ensures |w.history| <= |Run(w, events).history| && Run(w, events).history[..|w.history|] == w.history
    ensures Run(w, events).c.defaults == w.c.defaults
    decreases |events|
  {
    hide AfterSave, AfterRemove, Publishes, AttemptOf, Stops;
    if events != [] {
      var next := Step(w, events[0]);
      CallKeepsSurroundings(w.c, events[0]);
      HistoryGrows(next, events[1..]);
      assert next.history[..|w.history|] == w.history;
      assert Run(w, events).history[..|w.history|] == Run(w, events).history[..|next.history|][..|w.history|];
    }
  }

  /** A consumer that reads a key's revision at two moments of a process and finds
      it the same knows the value was the same at every publication between, even
      one that had changed back, and is still the same. The counter is 64 bits
      wide, hence the bound on publications between. */
  lemma EqualRevisionsMeanSameValue<T, E>(w: World, events: seq<Event<T, E>>, key: string, k: nat)
    requires Valid(w) && CanRun(w, events) && OneProcess(events) && key in w.c.defaults
    requires RevisionOf(w.c.revisions, key) == RevisionOf(Run(w, events).c.revisions, key)
    requires |Run(w, events).history| - |w.history| < U64_RANGE
    requires |w.history| <= k + 1 <= |Run(w, events).history|
    ensures key in w.c.snapshot && key in Run(w, events).history[k] && key in Run(w, events).c.snapshot
    ensures Run(w, events).history[k][key].value == w.c.snapshot[key].value
    ensures Run(w, events).c.snapshot[key].value == w.c.snapshot[key].value
  {
    hide Run, CanRun, Changed, Changes, Resolve, NothingUnknown, FileIsWhole;
    var after := Run(w, events);
    RunValid(w, events);
    HistoryGrows(w, events);
    var i, j := |w.history| - 1, |after.history| - 1;
    assert after.history[..i + 1] == w.history && after.history[..j + 1] == after.history;
    EqualCountsMeanSameValue(after, key, i, j, k);
    EqualCountsMeanSameValue(after, key, i, j, j);
    assert after.history[i] == after.history[..i + 1][i];
  }

  lemma {:induction false} ConstantNeverChanges(history: seq<Snapshot>, key: string, value: string)
    requires forall i :: 0 <= i < |history| ==> key in history[i] && history[i][key].value == value
    ensures Changes(history, key) == 0
  {
    if |history| > 1 { ConstantNeverChanges(history[..|history| - 1], key, value); }
  }

  lemma PinnedStaysAtZero(w: World, key: string)
    requires Valid(w) && key in w.c.defaults && key in w.c.environment
    ensures RevisionOf(w.c.revisions, key) == 0
  {
    hide Changed, Changes, Resolve, NothingUnknown;
    ConstantNeverChanges(w.history, key, w.c.environment[key]);
  }
}

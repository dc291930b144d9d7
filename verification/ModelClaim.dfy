/** The one model-setup lifecycle that may run at a time
    (src/server.rs:772-961, 1015-1042; src/vault_executor.rs:424-452;
    src/vault_runtime.rs:268-357): requests, the background load, indexing
    progress and the settling of startup, interleaved step by step. */
module ModelClaim {
  import opened Prelude
  import opened ModelSelection
  import Tracking = StartupTracking

  type Phase = Tracking.Phase

  const SETUP_FAILED: Phase := Tracking.Unavailable(true)

  /** Only from these phases does settling latch `Ready`. */
  predicate CanSettle(phase: Phase) {
    phase.Validating? || phase.Scanning? || phase.Indexing?
  }

  /** `StartupTracker::model_setup_pending`. */
  predicate Pending(phase: Phase) {
    phase.TermsRequired? || phase.Downloading? || phase == SETUP_FAILED
  }

  /** Where a thread stands. `named` says of a lifecycle whether the selection
      named its model when the claim was made. */
  datatype Pc =
    | Idle
    | ChoiceAsked(model: SelectedModel)
    | SelectionRead(model: SelectedModel)
    | Persisting(model: SelectedModel, step: nat)
    | PersistFailed
    | Claimed(model: SelectedModel, named: bool)
    | Loading(model: SelectedModel, named: bool, installed: bool)
    | LoadFailed
    | ReportingFailure
    | SettleAsked
    | CollectionAsked
    | Settling
    | Latched

  /** The Vault collection as settling asks it: whether any Vault is active,
      whether every active one has settled its first index, and whether the
      registry loads normally. */
  datatype Collection = Collection(active: bool, indexed: bool, registryReady: bool) {
    predicate IsSettled() {
      (active ==> indexed) && (!active ==> registryReady)
    }
  }

  /** `embedder` says whether a search model is installed: without one no Index
      turn gets as far as reporting progress. */
  datatype World = World(
    disk: ModelDisk, started: bool, phase: Phase, embedder: bool, collection: Collection, threads: map<nat, Pc>)

  datatype Action =
    /** Accept or decline arrives. */
    | AskChoice(thread: nat, model: SelectedModel)
    /** Retry reads the selection; without a model to load it ends here. */
    | ReadSelection(thread: nat)
    /** The compare-and-exchange on the flag. A loser is refused. */
    | Claim(thread: nat)
    | PersistStep(thread: nat, fails: bool, partly: bool)
    | ReleaseAfterPersist(thread: nat)
    | StartLoad(thread: nat)
    | DownloadProgress(thread: nat)
    | InstallModel(thread: nat)
    | LoadEnds(thread: nat)
    | ReleaseAfterLoad(thread: nat)
    | ReportFailure(thread: nat)
    /** An Index turn reports progress, its Vault still active or not: a turn that
        is running when its Vault leaves is not stopped. */
    | ReportProgress
    /** Vaults come and go, and their first indexes settle. */
    | CollectionChanges(collection: Collection)
    /** `settle_startup`: ready already? setup pending? Vaults unsettled? latch;
        release. */
    | AskReady(thread: nat)
    | AskPending(thread: nat)
    | AskCollection(thread: nat)
    | Latch(thread: nat)
    | ReleaseAfterLatch(thread: nat)
    /** The process ends; the next one starts thread 0 on the saved model. */
    | Restart

  function PcOf(w: World, t: nat): (r: Pc) {
    if t in w.threads then w.threads[t] else Idle
  }

  predicate CanAct(w: World, a: Action) {
    match a
    case AskChoice(t, _) => PcOf(w, t).Idle?
    case ReadSelection(t) => PcOf(w, t).Idle?
    case Claim(t) => PcOf(w, t).ChoiceAsked? || PcOf(w, t).SelectionRead?
    case PersistStep(t, _, _) => PcOf(w, t).Persisting? && PcOf(w, t).step < StepCount(PcOf(w, t).model)
    case ReleaseAfterPersist(t) => PcOf(w, t).PersistFailed?
    case StartLoad(t) => PcOf(w, t).Claimed?
    case DownloadProgress(t) => PcOf(w, t).Loading? && PcOf(w, t).model.Gemma?
    case InstallModel(t) => PcOf(w, t).Loading? && !PcOf(w, t).installed
    case LoadEnds(t) => PcOf(w, t).Loading?
    case ReleaseAfterLoad(t) => PcOf(w, t).LoadFailed?
    case ReportFailure(t) => PcOf(w, t).ReportingFailure?
    case ReportProgress => w.embedder
    case CollectionChanges(_) => true
    case AskReady(t) => PcOf(w, t).Idle?
    case AskPending(t) => PcOf(w, t).SettleAsked?
    case AskCollection(t) => PcOf(w, t).CollectionAsked?
    case Latch(t) => PcOf(w, t).Settling?
    case ReleaseAfterLatch(t) => PcOf(w, t).Latched?
    case Restart => Selected(w.disk).Ok?
  }

  function At(w: World, t: nat, pc: Pc): (r: World) {
    w.(threads := w.threads[t := pc])
  }

  function Claiming(w: World, t: nat): (r: World)
    requires CanAct(w, Claim(t))
  {
    if w.started then At(w, t, Idle)
    else
      At(w.(started := true), t,
         match PcOf(w, t)
         case ChoiceAsked(model) => if model.TermsRequired? then PersistFailed else Persisting(model, 0)
         case SelectionRead(model) => Claimed(model, Selected(w.disk) == Ok(model))
         case _ => Idle)
  }

  function PersistingOn(w: World, t: nat, fails: bool, partly: bool): (r: World)
    requires CanAct(w, PersistStep(t, fails, partly))
  {
    var model, step := PcOf(w, t).model, PcOf(w, t).step;
    if fails then At(w.(disk := StepFailed(w.disk, model, step, partly)), t, PersistFailed)
    else
      At(w.(disk := StepDone(w.disk, model, step)), t,
         if step + 1 == StepCount(model) then Claimed(model, true) else Persisting(model, step + 1))
  }

  function Started(disk: ModelDisk, collection: Collection): (r: World)
    requires Selected(disk).Ok?
  {
    var model := Selected(disk).value;
    if model.TermsRequired? then World(disk, false, Tracking.TermsRequired, false, collection, map[])
    else World(disk, false, Tracking.Downloading, false, collection, map[0 := SelectionRead(model)])
  }

  function Act(w: World, a: Action): (r: World)
    requires CanAct(w, a)
  {
    match a
    case AskChoice(t, model) => At(w, t, ChoiceAsked(model))
    case ReadSelection(t) =>
      if Selected(w.disk).Ok? && !Selected(w.disk).value.TermsRequired?
      then At(w, t, SelectionRead(Selected(w.disk).value)) else w
    case Claim(t) => Claiming(w, t)
    case PersistStep(t, fails, partly) => PersistingOn(w, t, fails, partly)
    case ReleaseAfterPersist(t) => At(w.(started := false), t, Idle)
    case StartLoad(t) => At(w.(phase := Tracking.Downloading), t, Loading(PcOf(w, t).model, PcOf(w, t).named, false))
    case DownloadProgress(_) => w.(phase := Tracking.Downloading)
    case InstallModel(t) => At(w.(embedder := true), t, PcOf(w, t).(installed := true))
    case LoadEnds(t) =>
      if PcOf(w, t).installed then At(w.(phase := Tracking.Scanning), t, Idle) else At(w, t, LoadFailed)
    case ReleaseAfterLoad(t) => At(w.(started := false), t, ReportingFailure)
    case ReportFailure(t) => At(w.(phase := SETUP_FAILED), t, Idle)
    case ReportProgress => if w.phase.Ready? then w else w.(phase := Tracking.Indexing)
    case CollectionChanges(collection) => w.(collection := collection)
    case AskReady(t) => if w.phase.Ready? then w else At(w, t, SettleAsked)
    case AskPending(t) => At(w, t, if Pending(w.phase) then Idle else CollectionAsked)
    case AskCollection(t) => At(w, t, if w.collection.IsSettled() then Settling else Idle)
    case Latch(t) => if CanSettle(w.phase) then At(w.(phase := Tracking.Ready), t, Latched) else At(w, t, Idle)
    case ReleaseAfterLatch(t) => At(w.(started := false), t, Idle)
    case Restart => Started(w.disk, w.collection)
  }

  /** The phases here move as the startup tracker's own methods move them. */
  lemma PhasesAreTheTrackers(
    t: Tracking.Tracker, id: nat, progress: Tracking.FirstRun.Progress,
    participants: seq<Tracking.FirstRun.Participant>, next: Phase)
    ensures Tracking.Settling(t).1 <==> CanSettle(t.phase)
    ensures Tracking.Settling(t).0.phase == if CanSettle(t.phase) then Tracking.Ready else t.phase
    ensures Tracking.Reported(t, id, progress, participants).phase
            == if t.phase.Ready? then t.phase else Tracking.Indexing
    ensures Tracking.Restarted(t, next).phase == next
  {
  }

  // ----- what every step keeps -----

  /** A lifecycle, from its claim to handing over to indexing or giving up. */
  predicate IsLifecycle(pc: Pc) {
    pc.Persisting? || pc.PersistFailed? || pc.Claimed? || pc.Loading? || pc.LoadFailed?
  }

  /** A thread that is going to release the claim. */
  predicate OwnsClaim(pc: Pc) {
    IsLifecycle(pc) || pc.Latched?
  }

  ghost predicate NoOwner(w: World) {
    forall t: nat :: !OwnsClaim(PcOf(w, t))
  }

  ghost predicate OneOwner(w: World) {
    && (forall t: nat :: OwnsClaim(PcOf(w, t)) ==> w.started)
    && (forall t: nat, u: nat :: OwnsClaim(PcOf(w, t)) && OwnsClaim(PcOf(w, u)) ==> t == u)
  }

  /** What the saved choice says to a lifecycle at this point. */
  predicate ChoiceAgrees(disk: ModelDisk, pc: Pc) {
    match pc
    case Persisting(model, step) =>
      !model.TermsRequired? && step < StepCount(model) && (model.Gemma? && step == 2 ==> disk.receipt == Receipt(true))
    case Claimed(model, named) => !model.TermsRequired? && named == (Selected(disk) == Ok(model))
    case Loading(model, named, _) => !model.TermsRequired? && named == (Selected(disk) == Ok(model))
    case SelectionRead(model) => !model.TermsRequired?
    case _ => true
  }

  /** The claim is held with nobody left to give it back. */
  ghost predicate LeftToIndexing(w: World) {
    w.started && NoOwner(w)
  }

  /** The same with model setup failed, so that startup cannot settle. */
  ghost predicate Stuck(w: World) {
    LeftToIndexing(w) && w.phase == SETUP_FAILED
  }

  predicate InstallsFirst(embedder: bool, pc: Pc) {
    pc.Loading? && pc.installed ==> embedder
  }

  /** The claim has one owner at most, startup can be latched only while the
      claim is left to the indexing after a load, and what a lifecycle runs on
      is on the disk. */
  ghost predicate Sound(w: World) {
    && OneOwner(w)
    && (CanSettle(w.phase) ==> LeftToIndexing(w))
    && (LeftToIndexing(w) ==> w.embedder && (CanSettle(w.phase) || w.phase == SETUP_FAILED))
    && w.phase != Tracking.Unavailable(false)
    && (forall t: nat :: ChoiceAgrees(w.disk, PcOf(w, t)))
    && (forall t: nat :: InstallsFirst(w.embedder, PcOf(w, t)))
  }

  /** Progress may come when model setup is not pending, and when the instance is
      stranded anyway. */
  ghost predicate Harmless(w: World) {
    !Pending(w.phase) || Stuck(w)
  }

  /** Every action but one: progress that arrives when it does harm. */
  ghost predicate Quiet(w: World, a: Action) {
    a.ReportProgress? ==> Harmless(w)
  }

  lemma PersistKeepsChoice(w: World, t: nat, fails: bool, partly: bool)
    requires Sound(w) && CanAct(w, PersistStep(t, fails, partly))
    ensures Sound(PersistingOn(w, t, fails, partly))
  {
    var next := PersistingOn(w, t, fails, partly);
    assert OwnsClaim(PcOf(w, t));
    assert ChoiceAgrees(w.disk, PcOf(w, t));
    forall u: nat ensures ChoiceAgrees(next.disk, PcOf(next, u)) && InstallsFirst(next.embedder, PcOf(next, u)) {
      assert ChoiceAgrees(w.disk, PcOf(w, u)) && InstallsFirst(w.embedder, PcOf(w, u));
      if u != t { assert !OwnsClaim(PcOf(w, u)); }
    }
    forall u: nat ensures OwnsClaim(PcOf(next, u)) <==> u == t {
      if u != t { assert PcOf(next, u) == PcOf(w, u); }
    }
    assert OwnsClaim(PcOf(next, t));
  }

  ghost predicate OthersOwnNothing(w: World, t: nat) {
    forall u: nat :: u != t ==> !OwnsClaim(PcOf(w, u))
  }

  /** One thread moves, without touching the disk. */
  lemma MoveKeepsSound(w: World, t: nat, started: bool, phase: Phase, embedder: bool, pc: Pc)
    requires Sound(w) && ChoiceAgrees(w.disk, pc) && InstallsFirst(embedder, pc) && (w.embedder ==> embedder)
    requires started == w.started || OthersOwnNothing(w, t)
    requires OwnsClaim(pc) ==> started && OthersOwnNothing(w, t)
    requires CanSettle(phase) ==> started && !OwnsClaim(pc) && OthersOwnNothing(w, t)
    requires started && !OwnsClaim(pc) && OthersOwnNothing(w, t) ==>
               embedder && (CanSettle(phase) || phase == SETUP_FAILED)
    requires phase != Tracking.Unavailable(false)
    ensures Sound(At(w.(started := started, phase := phase, embedder := embedder), t, pc))
  {
    hide Selected;
    var next := At(w.(started := started, phase := phase, embedder := embedder), t, pc);
    assert forall u: nat :: u != t ==> PcOf(next, u) == PcOf(w, u);
    assert PcOf(next, t) == pc;
    forall u: nat ensures InstallsFirst(next.embedder, PcOf(next, u)) {
      assert InstallsFirst(w.embedder, PcOf(w, u));
    }
    assert OthersOwnNothing(w, t) && !OwnsClaim(pc) <==> NoOwner(next);
  }

  lemma ClaimKeepsSound(w: World, t: nat)
    requires Sound(w) && CanAct(w, Claim(t))
    ensures Sound(Claiming(w, t))
  {
    hide Selected, OwnsClaim, CanSettle;
    assert ChoiceAgrees(w.disk, PcOf(w, t));
    var next := Claiming(w, t);
    ClaimMakesLifecycle(w, t);
    assert OthersOwnNothing(w, t) <==> NoOwner(w);
    MoveKeepsSound(w, t, true, w.phase, w.embedder, PcOf(next, t));
    assert next == At(w.(started := true), t, PcOf(next, t));
  }

  lemma ClaimMakesLifecycle(w: World, t: nat)
    requires CanAct(w, Claim(t))
    ensures !OwnsClaim(Idle) && !OwnsClaim(PcOf(w, t)) && OwnsClaim(PcOf(Claiming(w, t), t)) == !w.started
    ensures ChoiceAgrees(w.disk, PcOf(w, t)) ==> ChoiceAgrees(w.disk, PcOf(Claiming(w, t), t))
  {
  }

  /** Every action that moves one thread and leaves the disk alone. */
  predicate IsMove(a: Action) {
    !a.PersistStep? && !a.Claim? && !a.ReportProgress? && !a.CollectionChanges? && !a.DownloadProgress?
    && !a.Restart?
  }

  lemma MoveIsSound(w: World, a: Action)
    requires Sound(w) && CanAct(w, a) && IsMove(a)
    ensures Sound(Act(w, a))
  {
    hide Selected, StepCount;
    var t, next := a.thread, Act(w, a);
    assert ChoiceAgrees(w.disk, PcOf(w, t)) && InstallsFirst(w.embedder, PcOf(w, t));
    assert OthersOwnNothing(w, t) && !OwnsClaim(PcOf(w, t)) <==> NoOwner(w);
    if next != w {
      MoveKeepsSound(w, t, next.started, next.phase, next.embedder, PcOf(next, t));
      assert next == At(w.(started := next.started, phase := next.phase, embedder := next.embedder), t, PcOf(next, t));
    }
  }

  lemma SameThreadsSound(w: World, a: Action)
    requires Sound(w) && CanAct(w, a) && Quiet(w, a)
    requires a.ReportProgress? || a.CollectionChanges? || a.DownloadProgress?
    ensures Sound(Act(w, a))
  {
    hide ChoiceAgrees, InstallsFirst;
    var next := Act(w, a);
    assert a.DownloadProgress? ==> OwnsClaim(PcOf(w, a.thread));
    assert next.threads == w.threads && next.disk == w.disk && next.embedder == w.embedder;
    assert forall u: nat :: PcOf(next, u) == PcOf(w, u);
    assert NoOwner(next) <==> NoOwner(w);
  }

  lemma SoundKept(w: World, a: Action)
    requires Sound(w) && CanAct(w, a) && Quiet(w, a)
    ensures Sound(Act(w, a))
  {
    hide Selected, StepDone, StepFailed;
    if IsMove(a) {
      hide Sound, CanAct, Act;
      MoveIsSound(w, a);
    } else if a.PersistStep? {
      PersistKeepsChoice(w, a.thread, a.fails, a.partly);
    } else if a.Claim? {
      ClaimKeepsSound(w, a.thread);
    } else if !a.Restart? {
      SameThreadsSound(w, a);
    }
  }

  // ----- whole runs -----

  /** An action that cannot be taken is skipped; `CanPlay` says none is. */
  function Play(w: World, actions: seq<Action>): (r: World)
    decreases |actions|
  {
    if actions == [] then w
    else
      var before := Play(w, actions[..|actions| - 1]);
      if CanAct(before, actions[|actions| - 1]) then Act(before, actions[|actions| - 1]) else before
  }

  predicate CanPlay(w: World, actions: seq<Action>)
    decreases |actions|
  {
    actions != [] ==>
      CanPlay(w, actions[..|actions| - 1]) && CanAct(Play(w, actions[..|actions| - 1]), actions[|actions| - 1])
  }

  /** Every progress report of the run finds model setup over, or the instance
      stranded. */
  ghost predicate QuietRun(w: World, actions: seq<Action>)
    decreases |actions|
  {
    actions != [] ==>
      QuietRun(w, actions[..|actions| - 1]) && Quiet(Play(w, actions[..|actions| - 1]), actions[|actions| - 1])
  }

  lemma {:induction false} RunSound(w: World, actions: seq<Action>)
    requires Sound(w) && CanPlay(w, actions) && QuietRun(w, actions)
    ensures Sound(Play(w, actions))
    decreases |actions|
  {
    hide Sound, Act, CanAct, Quiet;
    if actions != [] {
      RunSound(w, actions[..|actions| - 1]);
      SoundKept(Play(w, actions[..|actions| - 1]), actions[|actions| - 1]);
    }
  }

  lemma StartSound(disk: ModelDisk, collection: Collection)
    requires Selected(disk).Ok?
    ensures Sound(Started(disk, collection))
  {
  }

  ghost predicate OneLifecycle(w: World) {
    forall t: nat, u: nat :: IsLifecycle(PcOf(w, t)) && IsLifecycle(PcOf(w, u)) ==> t == u
  }

  /** Over any interleaving without a disturbing report: one lifecycle at most;
      it holds the claim; and if the selection named its model when it was begun,
      as it does for every choice, the selection names it until it ends. A retry
      that read the selection before another choice was persisted runs on a model
      the selection never names meanwhile. */
  lemma OneLifecycleOnItsChoice(disk: ModelDisk, collection: Collection, actions: seq<Action>)
    requires Selected(disk).Ok?
    requires CanPlay(Started(disk, collection), actions) && QuietRun(Started(disk, collection), actions)
    ensures var w := Play(Started(disk, collection), actions);
            && OneLifecycle(w)
            && (forall t: nat :: IsLifecycle(PcOf(w, t)) ==> w.started)
            && (forall t: nat :: PcOf(w, t).Loading? ==>
                  (PcOf(w, t).named <==> Selected(w.disk) == Ok(PcOf(w, t).model)))
  {
    hide Play, CanPlay, QuietRun, Selected, Started;
    StartSound(disk, collection);
    RunSound(Started(disk, collection), actions);
    var w := Play(Started(disk, collection), actions);
    forall t: nat | PcOf(w, t).Loading?
      ensures PcOf(w, t).named <==> Selected(w.disk) == Ok(PcOf(w, t).model)
    {
      assert ChoiceAgrees(w.disk, PcOf(w, t));
    }
  }

  /** The disk changes only under the claim, by the one lifecycle that holds it;
      a refused request changes nothing at all. */
  lemma OnlyTheHolderWrites(w: World, a: Action)
    requires Sound(w) && CanAct(w, a)
    ensures Act(w, a).disk != w.disk ==>
              a.PersistStep? && w.started && IsLifecycle(PcOf(w, a.thread)) && OthersOwnNothing(w, a.thread)
    ensures a.Claim? && w.started ==> Act(w, a) == At(w, a.thread, Idle)
  {
    hide Selected, StepDone, StepFailed;
    if a.PersistStep? { assert OwnsClaim(PcOf(w, a.thread)); }
  }

  /** A persist or a load that failed gives the claim back: nobody holds it, and
      the next request gets it. */
  lemma FailureFreesTheClaim(w: World, a: Action, u: nat)
    requires Sound(w) && CanAct(w, a) && (a.ReleaseAfterPersist? || a.ReleaseAfterLoad?)
    requires CanAct(Act(w, a), Claim(u))
    ensures NoOwner(Act(w, a)) && !Act(w, a).started
    ensures IsLifecycle(PcOf(Act(Act(w, a), Claim(u)), u))
  {
    hide Selected;
    assert OwnsClaim(PcOf(w, a.thread));
    assert forall v: nat :: v != a.thread ==> PcOf(Act(w, a), v) == PcOf(w, v);
  }

  // ----- progress that arrives while setup is pending -----

  lemma Extend(w: World, actions: seq<Action>, a: Action)
    requires CanPlay(w, actions) && QuietRun(w, actions)
    requires CanAct(Play(w, actions), a) && Quiet(Play(w, actions), a)
    ensures CanPlay(w, actions + [a]) && QuietRun(w, actions + [a])
    ensures Play(w, actions + [a]) == Act(Play(w, actions), a)
  {
    hide Act, CanAct, Quiet;
    assert (actions + [a])[..|actions|] == actions;
  }

  ghost predicate QuietlyReaches(w: World, goal: World) {
    exists actions: seq<Action> :: CanPlay(w, actions) && QuietRun(w, actions) && Play(w, actions) == goal
  }

  lemma ReachesItself(w: World)
    ensures QuietlyReaches(w, w)
  {
    assert CanPlay(w, []) && QuietRun(w, []) && Play(w, []) == w;
  }

  lemma ReachesNext(w: World, goal: World, a: Action)
    requires QuietlyReaches(w, goal) && CanAct(goal, a) && Quiet(goal, a)
    ensures QuietlyReaches(w, Act(goal, a))
  {
    hide Act, CanAct, Quiet, CanPlay, QuietRun, Play;
    var actions :| CanPlay(w, actions) && QuietRun(w, actions) && Play(w, actions) == goal;
    Extend(w, actions, a);
  }

  lemma {:induction false} BeyondAll(s: set<nat>) returns (n: nat)
    ensures forall t :: t in s ==> t < n
    decreases |s|
  {
    if s == {} { return 0; }
    var x :| x in s;
    var m := BeyondAll(s - {x});
    n := if m <= x then x + 1 else m;
    assert forall t :: t in s ==> t == x || t in s - {x};
  }

  const SETTLED := Collection(true, true, true)

  /** Its Vaults settle, and a thread settles startup, from asking to latching. */
  lemma SettlesFrom(w: World, goal: World, s: nat) returns (next: World)
    requires QuietlyReaches(w, goal) && PcOf(goal, s).Idle? && CanSettle(goal.phase)
    ensures QuietlyReaches(w, next)
    ensures next == goal.(phase := Tracking.Ready, collection := SETTLED, threads := next.threads)
    ensures PcOf(next, s).Latched? && forall u: nat :: u != s ==> PcOf(next, u) == PcOf(goal, u)
  {
    hide QuietlyReaches;
    ReachesNext(w, goal, CollectionChanges(SETTLED));
    var settled := Act(goal, CollectionChanges(SETTLED));
    ReachesNext(w, settled, AskReady(s));
    var asked := Act(settled, AskReady(s));
    ReachesNext(w, asked, AskPending(s));
    var waiting := Act(asked, AskPending(s));
    ReachesNext(w, waiting, AskCollection(s));
    var settling := Act(waiting, AskCollection(s));
    ReachesNext(w, settling, Latch(s));
    next := Act(settling, Latch(s));
  }

  /** A choice arrives and gets the free claim. */
  lemma ClaimsFrom(w: World, goal: World, r: nat) returns (next: World)
    requires QuietlyReaches(w, goal) && PcOf(goal, r).Idle? && !goal.started
    ensures QuietlyReaches(w, next)
    ensures next == goal.(started := true, threads := next.threads)
    ensures IsLifecycle(PcOf(next, r)) && forall u: nat :: u != r ==> PcOf(next, u) == PcOf(goal, u)
  {
    hide QuietlyReaches;
    ReachesNext(w, goal, AskChoice(r, Gemma));
    var asked := Act(goal, AskChoice(r, Gemma));
    ReachesNext(w, asked, Claim(r));
    next := Act(asked, Claim(r));
  }

  lemma ReleasesFrom(w: World, goal: World, s: nat) returns (next: World)
    requires QuietlyReaches(w, goal) && PcOf(goal, s).Latched?
    ensures QuietlyReaches(w, next)
    ensures next == goal.(started := false, threads := next.threads)
    ensures PcOf(next, s).Idle? && forall u: nat :: u != s ==> PcOf(next, u) == PcOf(goal, u)
  {
    hide QuietlyReaches;
    ReachesNext(w, goal, ReleaseAfterLatch(s));
    next := Act(goal, ReleaseAfterLatch(s));
  }

  lemma ReportActs(w: World)
    requires w.embedder && !w.phase.Ready?
    ensures CanAct(w, ReportProgress) && Act(w, ReportProgress) == w.(phase := Tracking.Indexing)
  {
  }

  lemma DisturbedClaim(w: World) returns (end: World)
    requires Sound(w) && CanAct(w, ReportProgress) && !Harmless(w)
    ensures QuietlyReaches(Act(w, ReportProgress), end) && !OneLifecycle(end)
  {
    hide QuietlyReaches, Selected, ChoiceAgrees;
    var after := w.(phase := Tracking.Indexing);
    ReportActs(w);
    hide Act, CanAct;
    ReachesItself(after);
    var n := BeyondAll(w.threads.Keys);
    assert forall t: nat :: t >= n ==> PcOf(after, t).Idle?;
    assert forall t: nat :: PcOf(after, t) == PcOf(w, t);
    var latched := SettlesFrom(after, after, n);
    if !w.started {
      var claimed := ClaimsFrom(after, latched, n + 1);
      var released := ReleasesFrom(after, claimed, n);
      end := ClaimsFrom(after, released, n + 2);
      assert IsLifecycle(PcOf(end, n + 1)) && IsLifecycle(PcOf(end, n + 2));
    } else {
      var owner: nat :| OwnsClaim(PcOf(w, owner));
      var released := ReleasesFrom(after, latched, n);
      var claimed := ClaimsFrom(after, released, n + 1);
      if IsLifecycle(PcOf(w, owner)) {
        end := claimed;
        assert IsLifecycle(PcOf(end, owner)) && IsLifecycle(PcOf(end, n + 1));
      } else {
        var again := ReleasesFrom(after, claimed, owner);
        end := ClaimsFrom(after, again, n + 2);
        assert IsLifecycle(PcOf(end, n + 1)) && IsLifecycle(PcOf(end, n + 2));
      }
    }
  }

  /** Exactly when a progress report is safe: when model setup is not pending, or
      nobody is left to be harmed. Any other takes the phase to where settling
      latches it, and settling then releases a claim that is not its own: two
      lifecycles can run at once. */
  lemma ReportIsHarmlessIff(w: World)
    requires Sound(w) && CanAct(w, ReportProgress)
    ensures Harmless(w) <==> forall end :: QuietlyReaches(Act(w, ReportProgress), end) ==> OneLifecycle(end)
  {
    hide Sound, Harmless, Act, CanPlay, QuietRun, Play;
    if Harmless(w) {
      SoundKept(w, ReportProgress);
      var after := Act(w, ReportProgress);
      forall end | QuietlyReaches(after, end) ensures OneLifecycle(end) {
        var actions :| CanPlay(after, actions) && QuietRun(after, actions) && Play(after, actions) == end;
        RunSound(after, actions);
        SoundIsOneLifecycle(end);
      }
    } else {
      var end := DisturbedClaim(w);
    }
  }

  lemma SoundIsOneLifecycle(w: World)
    requires Sound(w)
    ensures OneLifecycle(w)
  {
  }

  // ----- a failure reported late -----

  /** A failed load gives its claim back before it reports the failure. The
      report lands on whatever has happened since, and strands the instance
      exactly when it finds a phase that startup can settle from: when another
      lifecycle has meanwhile loaded its model and left the claim to indexing. */
  lemma LateFailureStrandsIff(w: World, t: nat)
    requires Sound(w) && CanAct(w, ReportFailure(t))
    ensures Stuck(Act(w, ReportFailure(t))) <==> CanSettle(w.phase) || Stuck(w)
  {
    hide ChoiceAgrees, InstallsFirst;
    var next := Act(w, ReportFailure(t));
    assert forall u: nat :: u != t ==> PcOf(next, u) == PcOf(w, u);
    assert forall u: nat :: OwnsClaim(PcOf(next, u)) <==> OwnsClaim(PcOf(w, u));
  }

  /** Exactly two things end it: progress of an Index turn, and a restart. */
  lemma StrandedIff(w: World, a: Action)
    requires Stuck(w) && CanAct(w, a)
    ensures Stuck(Act(w, a)) <==> !a.ReportProgress? && !a.Restart?
  {
    hide Selected;
    if !a.ReportProgress? && !a.Restart? {
      assert !a.CollectionChanges? ==> !OwnsClaim(PcOf(w, a.thread));
      assert forall u: nat :: OwnsClaim(PcOf(Act(w, a), u)) <==> OwnsClaim(PcOf(w, u));
    }
  }

  /** Until then a stranded instance refuses every request. */
  lemma {:induction false} StrandedUntilReport(w: World, actions: seq<Action>, t: nat)
    requires Stuck(w) && CanPlay(w, actions)
    requires forall i :: 0 <= i < |actions| ==> !actions[i].ReportProgress? && !actions[i].Restart?
    ensures Stuck(Play(w, actions))
    ensures CanAct(Play(w, actions), Claim(t)) ==>
              Act(Play(w, actions), Claim(t)) == At(Play(w, actions), t, Idle)
    decreases |actions|
  {
    hide Selected;
    if actions != [] {
      StrandedUntilReport(w, actions[..|actions| - 1], t);
      StrandedIff(Play(w, actions[..|actions| - 1]), actions[|actions| - 1]);
    }
  }

  /** A report is always possible, from any Index turn that is running, and
      settling then latches startup and frees the claim, with no restart. */
  lemma ReportFreesStranded(w: World) returns (end: World)
    requires Sound(w) && Stuck(w)
    ensures CanAct(w, ReportProgress) && QuietlyReaches(Act(w, ReportProgress), end)
    ensures !end.started && end.phase.Ready? && end.embedder && NoOwner(end)
  {
    hide QuietlyReaches, ChoiceAgrees, InstallsFirst;
    var after := w.(phase := Tracking.Indexing);
    ReportActs(w);
    ReachesItself(after);
    var n := BeyondAll(w.threads.Keys);
    assert PcOf(after, n).Idle?;
    var latched := SettlesFrom(after, after, n);
    end := ReleasesFrom(after, latched, n);
    assert forall u: nat :: u != n ==> PcOf(end, u) == PcOf(w, u);
  }

  const ONE_VAULT := Collection(true, false, true)

  const NOMIC_DISK := ModelDisk(Names("nomic"), false, NoReceipt)

  /** A load that fails gives its claim back, its failure not yet reported. */
  lemma LoadFailsFrom(w: World, goal: World, t: nat) returns (next: World)
    requires QuietlyReaches(w, goal) && PcOf(goal, t).Claimed?
    ensures QuietlyReaches(w, next)
    ensures next == goal.(
      started := false, phase := Tracking.Downloading, threads := goal.threads[t := ReportingFailure])
  {
    hide QuietlyReaches, Selected;
    ReachesNext(w, goal, StartLoad(t));
    var loading := Act(goal, StartLoad(t));
    ReachesNext(w, loading, LoadEnds(t));
    var failed := Act(loading, LoadEnds(t));
    ReachesNext(w, failed, ReleaseAfterLoad(t));
    next := Act(failed, ReleaseAfterLoad(t));
    assert next.threads == goal.threads[t := ReportingFailure];
  }

  /** The process starts and its first load fails. */
  lemma FirstLoadFails() returns (w: World)
    ensures QuietlyReaches(Started(NOMIC_DISK, ONE_VAULT), w)
    ensures w == World(
      NOMIC_DISK, false, Tracking.Downloading, false, ONE_VAULT, map[0 := ReportingFailure])
  {
    hide QuietlyReaches;
    var start := Started(NOMIC_DISK, ONE_VAULT);
    ReachesItself(start);
    ReachesNext(start, start, Claim(0));
    w := LoadFailsFrom(start, Act(start, Claim(0)), 0);
    assert w.threads == map[0 := ReportingFailure];
  }

  /** A retry reads the selection. */
  lemma RetryReads() returns (w: World)
    ensures QuietlyReaches(Started(NOMIC_DISK, ONE_VAULT), w)
    ensures w == World(
      NOMIC_DISK, false, Tracking.Downloading, false, ONE_VAULT, map[0 := ReportingFailure, 1 := SelectionRead(Nomic)])
  {
    hide QuietlyReaches, Started;
    var failed := FirstLoadFails();
    ReachesNext(Started(NOMIC_DISK, ONE_VAULT), failed, ReadSelection(1));
    w := Act(failed, ReadSelection(1));
  }

  /** The first load fails and has given its claim back; a retry is loading. */
  lemma LateFailureAhead() returns (w: World)
    ensures QuietlyReaches(Started(NOMIC_DISK, ONE_VAULT), w)
    ensures w == World(
      NOMIC_DISK, true, Tracking.Downloading, false, ONE_VAULT,
      map[0 := ReportingFailure, 1 := Loading(Nomic, true, false)])
  {
    hide QuietlyReaches, Started;
    var read := RetryReads();
    ReachesNext(Started(NOMIC_DISK, ONE_VAULT), read, Claim(1));
    var again := Act(read, Claim(1));
    ReachesNext(Started(NOMIC_DISK, ONE_VAULT), again, StartLoad(1));
    w := Act(again, StartLoad(1));
  }

  /** One failed load, one retry that succeeds, and the instance is stranded. */
  lemma InstanceCanBeStranded() returns (w: World)
    ensures QuietlyReaches(Started(NOMIC_DISK, ONE_VAULT), w) && Stuck(w)
  {
    hide QuietlyReaches;
    var start := Started(NOMIC_DISK, ONE_VAULT);
    var loading := LateFailureAhead();
    ReachesNext(start, loading, InstallModel(1));
    var installed := Act(loading, InstallModel(1));
    ReachesNext(start, installed, LoadEnds(1));
    var loaded := Act(installed, LoadEnds(1));
    ReachesNext(start, loaded, ReportFailure(0));
    w := Act(loaded, ReportFailure(0));
  }

  /** The very first load comes to a point where progress is not harmless: the
      model is installed, the load not yet over. */
  lemma DisturbanceIsReachable() returns (w: World)
    ensures QuietlyReaches(Started(NOMIC_DISK, ONE_VAULT), w) && CanAct(w, ReportProgress) && !Harmless(w)
  {
    hide QuietlyReaches;
    var start := Started(NOMIC_DISK, ONE_VAULT);
    ReachesItself(start);
    ReachesNext(start, start, Claim(0));
    var claimed := Act(start, Claim(0));
    ReachesNext(start, claimed, StartLoad(0));
    var loading := Act(claimed, StartLoad(0));
    ReachesNext(start, loading, InstallModel(0));
    w := Act(loading, InstallModel(0));
    assert OwnsClaim(PcOf(w, 0));
  }

  /** The first load has failed; a retry has read the selection, and a choice has
      been made since. */
  lemma RetryOvertaken() returns (w: World)
    ensures QuietlyReaches(Started(NOMIC_DISK, ONE_VAULT), w)
    ensures PcOf(w, 1) == SelectionRead(Nomic) && PcOf(w, 2) == Persisting(Gemma, 0)
    ensures w.disk == NOMIC_DISK && w.started
  {
    hide QuietlyReaches, Started;
    var read := RetryReads();
    ReachesNext(Started(NOMIC_DISK, ONE_VAULT), read, AskChoice(2, Gemma));
    var asked := Act(read, AskChoice(2, Gemma));
    ReachesNext(Started(NOMIC_DISK, ONE_VAULT), asked, Claim(2));
    w := Act(asked, Claim(2));
  }

  const GEMMA_DISK := ModelDisk(Names("gemma"), true, Receipt(true))

  lemma ChoiceIsSaved() returns (w: World)
    ensures QuietlyReaches(Started(NOMIC_DISK, ONE_VAULT), w)
    ensures PcOf(w, 1) == SelectionRead(Nomic) && PcOf(w, 2) == Claimed(Gemma, true)
    ensures w.disk == GEMMA_DISK && w.started
  {
    hide QuietlyReaches, Started;
    var start := Started(NOMIC_DISK, ONE_VAULT);
    hide Selected;
    var first := RetryOvertaken();
    ReachesNext(start, first, PersistStep(2, false, false));
    var second := Act(first, PersistStep(2, false, false));
    ReachesNext(start, second, PersistStep(2, false, false));
    var third := Act(second, PersistStep(2, false, false));
    ReachesNext(start, third, PersistStep(2, false, false));
    w := Act(third, PersistStep(2, false, false));
  }

  /** The choice is saved and its load fails too; then the retry loads the model
      it had read, which is no longer the one selected. */
  lemma RetryMayLoadAnOlderChoice() returns (w: World)
    ensures QuietlyReaches(Started(NOMIC_DISK, ONE_VAULT), w)
    ensures PcOf(w, 1) == Loading(Nomic, false, false) && Selected(w.disk) == Ok(Gemma)
  {
    hide QuietlyReaches, Started;
    var start := Started(NOMIC_DISK, ONE_VAULT);
    var saved := ChoiceIsSaved();
    var released := LoadFailsFrom(start, saved, 2);
    ReachesNext(start, released, Claim(1));
    var claimed := Act(released, Claim(1));
    ReachesNext(start, claimed, StartLoad(1));
    w := Act(claimed, StartLoad(1));
  }
}

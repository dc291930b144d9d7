/** What keeps startup from settling while the Vault collection has work to do
    (src/vault_executor.rs:424-452). */
module ModelSettling {
  import opened ModelSelection
  import opened ModelClaim
  import Tracking = StartupTracking

  /** Some Vault is active and not every active one has settled its first index,
      or none is and the registry does not load. */
  predicate IsUnsettled(collection: Collection) {
    if collection.active then !collection.indexed else !collection.registryReady
  }

  /** Asking the collection leads on to settling exactly if it is settled: an
      active Vault waits for its first index, and an empty collection for its
      registry. */
  lemma SettlingNeedsTheCollection(w: World, t: nat)
    requires CanAct(w, AskCollection(t))
    ensures PcOf(Act(w, AskCollection(t)), t).Settling? <==> !IsUnsettled(w.collection)
    ensures IsUnsettled(w.collection) ==> Act(w, AskCollection(t)) == At(w, t, Idle)
  {
  }

  /** And only if model setup is neither waiting for the terms nor downloading nor
      failed is the collection asked at all; nothing is where startup is ready. */
  lemma SettlingNeedsTheModel(w: World, t: nat)
    ensures CanAct(w, AskPending(t)) ==>
              (PcOf(Act(w, AskPending(t)), t).CollectionAsked?
               <==> !w.phase.TermsRequired? && !w.phase.Downloading? && w.phase != Tracking.Unavailable(true))
    ensures CanAct(w, AskReady(t)) ==> (PcOf(Act(w, AskReady(t)), t).SettleAsked? <==> !w.phase.Ready?)
    ensures CanAct(w, Latch(t)) ==>
              (Act(w, Latch(t)).phase.Ready? && PcOf(Act(w, Latch(t)), t).Latched?
               <==> w.phase.Validating? || w.phase.Scanning? || w.phase.Indexing?)
  {
  }

  /** Startup is not ready, and nobody is about to make it so. */
  ghost predicate FarFromReady(w: World) {
    && IsUnsettled(w.collection) && !w.phase.Ready?
    && forall t: nat :: !PcOf(w, t).Settling? && !PcOf(w, t).Latched?
  }

  predicate LeavesUnsettled(a: Action) {
    a.CollectionChanges? ==> IsUnsettled(a.collection)
  }

  lemma StaysFar(w: World, a: Action)
    requires FarFromReady(w) && CanAct(w, a) && LeavesUnsettled(a)
    ensures FarFromReady(Act(w, a))
  {
    hide Selected, StepDone, StepFailed, StepCount;
    var next := Act(w, a);
    if !a.Restart? {
      forall t: nat ensures !PcOf(next, t).Settling? && !PcOf(next, t).Latched? {
        assert !PcOf(w, t).Settling? && !PcOf(w, t).Latched?;
      }
    }
  }

  /** However the threads interleave, with failures, restarts and progress reports
      anywhere, startup is not ready and its claim not given back by settling, as
      long as the collection is unsettled. */
  lemma {:induction false} UnsettledIsNeverReady(w: World, actions: seq<Action>)
    requires FarFromReady(w) && CanPlay(w, actions)
    requires forall i :: 0 <= i < |actions| ==> LeavesUnsettled(actions[i])
    ensures FarFromReady(Play(w, actions))
    decreases |actions|
  {
    hide FarFromReady, Act, CanAct, LeavesUnsettled;
    if actions != [] {
      UnsettledIsNeverReady(w, actions[..|actions| - 1]);
      StaysFar(Play(w, actions[..|actions| - 1]), actions[|actions| - 1]);
    }
  }

  /** In particular from the start of a process. */
  lemma StartsUnready(disk: ModelDisk, collection: Collection, actions: seq<Action>)
    requires Selected(disk).Ok? && IsUnsettled(collection)
    requires CanPlay(Started(disk, collection), actions)
    requires forall i :: 0 <= i < |actions| ==> LeavesUnsettled(actions[i])
    ensures !Play(Started(disk, collection), actions).phase.Ready?
  {
    hide Play, CanPlay, Selected, LeavesUnsettled;
    var start := Started(disk, collection);
    UnsettledIsNeverReady(start, actions);
  }
}

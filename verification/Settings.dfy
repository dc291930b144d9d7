/** The live settings transaction (src/runtime_config.rs). */
module Settings {
  import opened DurableFile

  type Values = map<string, string>

  datatype SettingSource = Environment | Stored | Default

  datatype ResolvedSetting = ResolvedSetting(value: string, source: SettingSource, pinned: bool)

  type Snapshot = map<string, ResolvedSetting>

  const U64_RANGE: nat := 0x1_0000_0000_0000_0000

  /** Environment pins over stored values over defaults. */
  function Resolve(environment: Values, stored: Values, defaults: Values): (r: Snapshot) {
    map key | key in defaults ::
      if key in environment then ResolvedSetting(environment[key], Environment, true)
      else if key in stored then ResolvedSetting(stored[key], Stored, false)
      else ResolvedSetting(defaults[key], Default, false)
  }

  /** `BTreeMap::extend`: later pairs win. */
  function Extended(values: Values, updates: seq<(string, string)>): (r: Values) {
    if updates == [] then values
    else Extended(values, updates[..|updates| - 1])[updates[|updates| - 1].0 := updates[|updates| - 1].1]
  }

  function Without(values: Values, keys: seq<string>): (r: Values) {
    values - (set key | key in keys)
  }

  // ----- revisions -----

  /** The keys whose resolved value the next snapshot changes. */
  function Changed(previous: Snapshot, next: Snapshot): (r: set<string>) {
    set key | key in next && (key !in previous || previous[key].value != next[key].value)
  }

  function RevisionOf(revisions: map<string, nat>, key: string): (r: nat) {
    if key in revisions then revisions[key] else 0
  }

  function Bumped(revisions: map<string, nat>, changed: set<string>): (r: map<string, nat>) {
    map key | key in revisions.Keys + changed ::
      if key in changed then (RevisionOf(revisions, key) + 1) % U64_RANGE else revisions[key]
  }

  // ----- the configuration as a value -----

  datatype Config = Config(
    environment: Values, defaults: Values, snapshot: Snapshot, stored: Values,
    revisions: map<string, nat>, poisoned: bool, disk: Disk<Values>)

  /** What `decide` makes of the current snapshot, or that it panicked. */
  datatype Verdict<T, E> = Allow(value: T) | Refuse(error: E) | Panic

  /** How the action between persisting and publishing went. */
  datatype Setup<E> = SetUp | SetupFails(error: E) | SetupPanics

  datatype Reply<T, E> =
    | Saved(value: T, snapshot: Snapshot)
    | Refused(error: E)
    | LockPoisoned
    | PersistFailed
    | RestoreFailed
    | SetupFailed(error: E)
    | Panicked
    | ProcessStopped

  function Published(c: Config, next: Snapshot, values: Values): (r: Config) {
    c.(snapshot := next, revisions := Bumped(c.revisions, Changed(c.snapshot, next)), stored := values)
  }

  /** A save as one step: what may go wrong is its parameter. */
  function AfterSave<T, E>(
    c: Config, updates: seq<(string, string)>, decide: Snapshot -> Verdict<T, E>,
    mishap: Mishap, setup: Setup<E>, restore: Mishap, stopsBeforePublish: bool)
    : (r: (Config, Reply<T, E>))
  {
    if c.poisoned then (c, LockPoisoned)
    else
      match decide(Resolve(c.environment, c.stored, c.defaults))
      case Panic => (c.(poisoned := true), Panicked)
      case Refuse(error) => (c, Refused(error))
      case Allow(value) =>
        var values := Extended(c.stored, updates);
        var written := c.(disk := AfterWrite(c.disk, values, CommitOf(mishap)));
        match OutcomeOf(mishap)
        case Failed => (written, PersistFailed)
        case Stopped => (written, ProcessStopped)
        case Done =>
          var next := Resolve(c.environment, values, c.defaults);
          match setup
          case SetupPanics => (written.(poisoned := true), Panicked)
          case SetupFails(error) =>
            var restored := written.(disk := AfterWrite(written.disk, c.stored, CommitOf(restore)));
            (match OutcomeOf(restore)
             case Done => (restored, SetupFailed(error))
             case Failed => (restored, RestoreFailed)
             case Stopped => (restored, ProcessStopped))
          case SetUp =>
            if stopsBeforePublish then (written, ProcessStopped)
            else (Published(written, next, values), Saved(value, next))
  }

  datatype RemoveReply = Removed(snapshot: Snapshot) | RemoveLockPoisoned | RemoveFailed | RemoveStopped

  predicate AnyStored(values: Values, keys: seq<string>) {
    exists key :: key in keys && key in values
  }

  function AfterRemove(c: Config, keys: seq<string>, mishap: Mishap, stopsBeforePublish: bool)
    : (r: (Config, RemoveReply))
  {
    if c.poisoned then (c, RemoveLockPoisoned)
    else if !AnyStored(c.stored, keys) then (c, Removed(c.snapshot))
    else
      var values := Without(c.stored, keys);
      var written := c.(disk := AfterWrite(c.disk, values, CommitOf(mishap)));
      match OutcomeOf(mishap)
      case Failed => (written, RemoveFailed)
      case Stopped => (written, RemoveStopped)
      case Done =>
        var next := Resolve(c.environment, values, c.defaults);
        if stopsBeforePublish then (written, RemoveStopped)
        else (Published(written, next, values), Removed(next))
  }

  // ----- the configuration as the source keeps it -----

  class RuntimeConfig {
    const environment: Values
    const defaults: Values
    const store: ReplacedFile<Values>
    var snapshot: Snapshot
    var storedValues: Values
    var revisions: map<string, nat>
    var poisoned: bool

    ghost function Model(): (r: Config)
      reads this, store
    {
      Config(environment, defaults, snapshot, storedValues, revisions, poisoned, store.Model())
    }

    /** `RuntimeConfig::load` once the file has decoded to `stored`. */
    constructor (environment: Values, defaults: Values, store: ReplacedFile<Values>, stored: Values)
      ensures Model()
              == Config(
                environment, defaults, Resolve(environment, stored, defaults), stored, map[], false, store.Model())
    {
      this.environment, this.defaults, this.store := environment, defaults, store;
      snapshot, storedValues := Resolve(environment, stored, defaults), stored;
      revisions, poisoned := map[], false;
    }

    method Publish(next: Snapshot)
      modifies this
      ensures snapshot == next
      ensures revisions == Bumped(old(revisions), Changed(old(snapshot), next))
      ensures storedValues == old(storedValues) && poisoned == old(poisoned)
    {
      var previous := snapshot;
      ghost var before := revisions;
      var keys := next.Keys;
      ghost var counted: set<string> := {};
      assert Bumped(before, {}) == before;
      while keys != {}
        invariant keys <= next.Keys
        invariant counted == (set key | key in Changed(previous, next) && key !in keys)
        invariant revisions == Bumped(before, counted)
        invariant snapshot == previous && storedValues == old(storedValues) && poisoned == old(poisoned)
        decreases keys
      {
        var key :| key in keys;
        if key !in previous || previous[key].value != next[key].value {
          revisions := revisions[key := (RevisionOf(revisions, key) + 1) % U64_RANGE];
          assert Bumped(before, counted + {key}) == revisions;
          counted := counted + {key};
        }
        keys := keys - {key};
      }
      assert counted == Changed(previous, next);
      snapshot := next;
    }

    method ValidateAndSaveThen<T, E>(
      updates: seq<(string, string)>, decide: Snapshot -> Verdict<T, E>,
      mishap: Mishap, setup: Setup<E>, restore: Mishap, stopsBeforePublish: bool)
      returns (reply: Reply<T, E>)
      modifies this, store
      ensures (Model(), reply)
              == AfterSave(old(Model()), updates, decide, mishap, setup, restore, stopsBeforePublish)
    {
      if poisoned {
        return LockPoisoned;
      }
      var current := Resolve(environment, storedValues, defaults);
      var verdict := decide(current);
      if verdict.Panic? {
        poisoned := true;
        return Panicked;
      }
      if verdict.Refuse? {
        return Refused(verdict.error);
      }
      var nextValues := Extended(storedValues, updates);
      var outcome := store.Persist(nextValues, mishap);
      if outcome.Failed? {
        return PersistFailed;
      }
      if outcome.Stopped? {
        return ProcessStopped;
      }
      var next := Resolve(environment, nextValues, defaults);
      if setup.SetupPanics? {
        poisoned := true;
        return Panicked;
      }
      if setup.SetupFails? {
        outcome := store.Persist(storedValues, restore);
        match outcome {
          case Done => return SetupFailed(setup.error);
          case Failed => return RestoreFailed;
          case Stopped => return ProcessStopped;
        }
      }
      if stopsBeforePublish {
        return ProcessStopped;
      }
      Publish(next);
      storedValues := nextValues;
      return Saved(verdict.value, next);
    }

    method RemoveStored(keys: seq<string>, mishap: Mishap, stopsBeforePublish: bool) returns (reply: RemoveReply)
      modifies this, store
      ensures (Model(), reply) == AfterRemove(old(Model()), keys, mishap, stopsBeforePublish)
    {
      if poisoned {
        return RemoveLockPoisoned;
      }
      var nextValues := storedValues;
      var changed := false;
      var i := 0;
      while i < |keys|
        invariant 0 <= i <= |keys|
        invariant nextValues == Without(storedValues, keys[..i])
        invariant changed == AnyStored(storedValues, keys[..i])
      {
        assert keys[..i + 1] == keys[..i] + [keys[i]];
        changed := changed || keys[i] in nextValues;
        nextValues := nextValues - {keys[i]};
        assert nextValues == Without(storedValues, keys[..i + 1]);
        i := i + 1;
      }
      assert keys[..i] == keys;
      if !changed {
        return Removed(snapshot);
      }
      var outcome := store.Persist(nextValues, mishap);
      if outcome.Failed? {
        return RemoveFailed;
      }
      if outcome.Stopped? {
        return RemoveStopped;
      }
      var next := Resolve(environment, nextValues, defaults);
      if stopsBeforePublish {
        return RemoveStopped;
      }
      Publish(next);
      storedValues := nextValues;
      return Removed(next);
    }
  }

  /** The view a save is validated against before it is written
      (`ConfigSnapshot::with_updates`). */
  function WithUpdates(snapshot: Snapshot, updates: Values): (r: Snapshot) {
    map key | key in snapshot ::
      if key in updates then snapshot[key].(value := updates[key]) else snapshot[key]
  }

  predicate SameValues(a: Snapshot, b: Snapshot) {
    a.Keys == b.Keys && forall key :: key in a ==> a[key].value == b[key].value
  }

  /** The prospective view shows what the save would resolve to, except that it
      lets an update override a pin: exactly then the two differ. */
  lemma ProspectiveViewIff(environment: Values, stored: Values, defaults: Values, updates: Values)
    ensures SameValues(
              WithUpdates(Resolve(environment, stored, defaults), updates),
              Resolve(environment, stored + updates, defaults))
            <==> forall key ::
                   key in updates && key in defaults && key in environment ==> updates[key] == environment[key]
  {
    var view := WithUpdates(Resolve(environment, stored, defaults), updates);
    var saved := Resolve(environment, stored + updates, defaults);
    if SameValues(view, saved) {
      forall key | key in updates && key in defaults && key in environment
        ensures updates[key] == environment[key]
      {
        assert view[key].value == saved[key].value;
      }
    }
  }
}

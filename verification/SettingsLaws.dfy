/** What a save and a removal do to each setting (src/runtime_config.rs:119-137,
    429-461, 483-561). */
module SettingsLaws {
  import opened DurableFile
  import opened Settings
  import opened SettingsRuns

  /** Pair `i` is the last of the updates that names `key`. */
  predicate NamedLast(updates: seq<(string, string)>, i: nat, key: string) {
    i < |updates| && updates[i].0 == key && forall j :: i < j < |updates| ==> updates[j].0 != key
  }

  predicate Named(updates: seq<(string, string)>, key: string) {
    exists i :: 0 <= i < |updates| && updates[i].0 == key
  }

  /** A setting is stored afterwards if it was before or some pair names it; the
      last such pair's value counts, or else the one it had. */
  lemma {:induction false} ExtendedIs(values: Values, updates: seq<(string, string)>)
    ensures forall key :: key in Extended(values, updates) <==> key in values || Named(updates, key)
    ensures forall key :: key in values && !Named(updates, key) ==> Extended(values, updates)[key] == values[key]
    ensures forall i: nat, key :: NamedLast(updates, i, key) ==>
              key in Extended(values, updates) && Extended(values, updates)[key] == updates[i].1
    decreases |updates|
  {
    if updates != [] {
      var n := |updates| - 1;
      var before := updates[..n];
      ExtendedIs(values, before);
      assert forall key :: Named(updates, key) <==> Named(before, key) || updates[n].0 == key;
      assert forall i: nat, key :: NamedLast(updates, i, key) ==> i == n || NamedLast(before, i, key);
    }
  }

  lemma {:induction false} SomePairIsLast(updates: seq<(string, string)>, key: string) returns (i: nat)
    requires Named(updates, key)
    ensures NamedLast(updates, i, key)
    decreases |updates|
  {
    var n := |updates| - 1;
    if updates[n].0 == key {
      i := n;
    } else {
      i := SomePairIsLast(updates[..n], key);
    }
  }

  /** `values` is what was stored, with the updates made. */
  ghost predicate Takes(stored: Values, updates: seq<(string, string)>, values: Values) {
    && (forall i: nat, key :: NamedLast(updates, i, key) ==> key in values && values[key] == updates[i].1)
    && (forall key :: !Named(updates, key) ==> (key in values <==> key in stored))
    && (forall key :: !Named(updates, key) && key in stored ==> values[key] == stored[key])
  }

  /** A save replies Saved exactly if nothing goes wrong on its way; then every
      setting but those the environment pins has its last update's value, in the
      reply, in the live snapshot, in memory and in the file. */
  lemma SavedTakesEffect<T, E>(
    c: Config, updates: seq<(string, string)>, decide: Snapshot -> Verdict<T, E>,
    mishap: Mishap, setup: Setup<E>, restore: Mishap, stops: bool)
    ensures var reply := AfterSave(c, updates, decide, mishap, setup, restore, stops).1;
            reply.Saved? <==>
              && !c.poisoned && decide(Resolve(c.environment, c.stored, c.defaults)).Allow?
              && mishap.Smooth? && setup.SetUp? && !stops
    ensures var (next, reply) := AfterSave(c, updates, decide, mishap, setup, restore, stops);
            reply.Saved? ==>
              && next.snapshot == reply.snapshot && Takes(c.stored, updates, next.stored)
              && next.disk == Disk(Whole(next.stored), {Whole(next.stored)})
              && next.snapshot.Keys == c.defaults.Keys
    ensures var (next, reply) := AfterSave(c, updates, decide, mishap, setup, restore, stops);
            reply.Saved? ==>
              && (forall key :: key in c.defaults && key in c.environment ==>
                    reply.snapshot[key] == ResolvedSetting(c.environment[key], Environment, true))
              && (forall i: nat, key :: NamedLast(updates, i, key) && key in c.defaults && key !in c.environment ==>
                    reply.snapshot[key] == ResolvedSetting(updates[i].1, Stored, false))
              && (forall key :: !Named(updates, key) && key in c.defaults && key !in c.environment ==>
                    reply.snapshot[key]
                    == if key in c.stored then ResolvedSetting(c.stored[key], Stored, false)
                       else ResolvedSetting(c.defaults[key], Default, false))
  {
    hide Extended, Changed, Bumped;
    ExtendedIs(c.stored, updates);
  }

  /** A save whose setup fails puts the stored values back, and the settings as
      they are seen do not change. */
  lemma FailedSetupRestores<T, E>(
    c: Config, updates: seq<(string, string)>, decide: Snapshot -> Verdict<T, E>,
    mishap: Mishap, setup: Setup<E>, restore: Mishap, stops: bool)
    ensures var (next, reply) := AfterSave(c, updates, decide, mishap, setup, restore, stops);
            && (!reply.Saved? ==>
                  next.snapshot == c.snapshot && next.stored == c.stored && next.revisions == c.revisions)
            && (reply.SetupFailed? ==> next.disk == Disk(Whole(c.stored), {Whole(c.stored)}) && !next.poisoned)
            && (reply.Refused? || reply.LockPoisoned? ==> next == c)
            && (reply.Panicked? ==> next.poisoned)
  {
    hide Extended, Changed, Bumped, Resolve;
  }

  /** A removal that replies Removed leaves none of its keys stored and every other
      one as it was, in memory and, if there was anything to remove, in the file;
      a removed setting falls back to its default unless it is pinned. */
  lemma RemovalTakesEffect(c: Config, keys: seq<string>, mishap: Mishap, stops: bool)
    requires c.snapshot == Resolve(c.environment, c.stored, c.defaults)
    ensures var (next, reply) := AfterRemove(c, keys, mishap, stops);
            reply.Removed? ==>
              && next.snapshot == reply.snapshot
              && (forall key :: key in next.stored <==> key in c.stored && key !in keys)
              && (forall key :: key in next.stored ==> next.stored[key] == c.stored[key])
              && ((exists key :: key in keys && key in c.stored) ==>
                    next.disk == Disk(Whole(next.stored), {Whole(next.stored)}))
    ensures var (next, reply) := AfterRemove(c, keys, mishap, stops);
            reply.Removed? ==>
              forall key :: key in c.defaults ==>
                && key in next.snapshot
                && (key in c.environment || key !in keys ==> next.snapshot[key] == c.snapshot[key])
                && (key !in c.environment && key in keys ==>
                      next.snapshot[key] == ResolvedSetting(c.defaults[key], Default, false))
  {
    hide Changed, Bumped;
  }

  // ----- over a run -----

  predicate Touches(change: Change, key: string) {
    match change
    case Extend(updates) => Named(updates, key)
    case Drop(keys) => key in keys
  }

  lemma {:induction false} UntouchedStays(values: Values, changes: seq<Change>, key: string)
    requires forall i :: 0 <= i < |changes| ==> !Touches(changes[i], key)
    ensures key in Apply(values, changes) <==> key in values
    ensures key in values ==> Apply(values, changes)[key] == values[key]
    decreases |changes|
  {
    hide Extended;
    if changes != [] {
      assert !Touches(changes[0], key);
      if changes[0].Extend? { ExtendedIs(values, changes[0].updates); }
      var next :=
        match changes[0]
        case Extend(updates) => Extended(values, updates)
        case Drop(keys) => Without(values, keys);
      UntouchedStays(next, changes[1..], key);
    }
  }

  lemma {:induction false} ApplyJoin(values: Values, a: seq<Change>, b: seq<Change>)
    ensures Apply(values, a + b) == Apply(Apply(values, a), b)
    decreases |a|
  {
    hide Extended, Without;
    if a == [] {
      assert a + b == b;
    } else {
      assert (a + b)[1..] == a[1..] + b;
      var next :=
        match a[0]
        case Extend(updates) => Extended(values, updates)
        case Drop(keys) => Without(values, keys);
      ApplyJoin(next, a[1..], b);
    }
  }

  /** After any changes a setting has the value the last change that touched it
      gave it, is not stored if that one dropped it, and is as it was if none
      touched it. */
  lemma LastChangeCounts(values: Values, before: seq<Change>, change: Change, after: seq<Change>, key: string)
    requires Touches(change, key) && forall i :: 0 <= i < |after| ==> !Touches(after[i], key)
    ensures var stored := Apply(values, before + [change] + after);
            && (change.Drop? ==> key !in stored)
            && (change.Extend? ==>
                  && key in stored
                  && forall i: nat :: NamedLast(change.updates, i, key) ==> stored[key] == change.updates[i].1)
  {
    hide Extended;
    var earlier := Apply(values, before);
    ApplyJoin(values, before, [change]);
    ApplyJoin(values, before + [change], after);
    assert [change][1..] == [];
    var changed := Apply(earlier, [change]);
    UntouchedStays(changed, after, key);
    if change.Extend? {
      assert changed == Extended(earlier, change.updates);
      ExtendedIs(earlier, change.updates);
    }
  }
}

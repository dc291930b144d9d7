/** A consumer that reads a key's revision and then its value while saves publish
    (src/runtime_config.rs:373-405). A publication counts its changes and stores
    its snapshot under the revisions lock, which reading a revision takes too;
    reading the snapshot takes no lock. */
module SettingsReaders {
  import opened Settings
  import opened SettingsRuns

  /** How far the one publication under way has got. */
  datatype Publishing = NotPublishing | Entered(next: Snapshot) | Counted(next: Snapshot) | SnapshotStored

  /** A consumer before its first read, between the two, and after both. `at` is
      how many snapshots had been published when the revision was read, `index`
      which of them was live when the value was. */
  datatype Reader =
    | NothingRead
    | RevisionRead(key: string, revision: nat, at: nat)
    | BothRead(key: string, revision: nat, at: nat, value: string, index: nat)

  /** The snapshots published since startup, the last of them live. */
  datatype Moment = Moment(
    history: seq<Snapshot>, revisions: map<string, nat>, publishing: Publishing, readers: map<nat, Reader>)

  datatype Action =
    | Enter(next: Snapshot)
    | Count
    | Store
    | Leave
    | ReadRevision(reader: nat, key: string)
    | ReadValue(reader: nat)

  function ReaderOf(w: Moment, reader: nat): (r: Reader) {
    if reader in w.readers then w.readers[reader] else NothingRead
  }

  predicate CanAct(w: Moment, action: Action) {
    match action
    case Enter(next) => w.publishing.NotPublishing? && w.history != [] && next.Keys == w.history[|w.history| - 1].Keys
    case Count => w.publishing.Entered? && w.history != []
    case Store => w.publishing.Counted?
    case Leave => w.publishing.SnapshotStored?
    case ReadRevision(_, key) => w.publishing.NotPublishing? && w.history != [] && key in w.history[|w.history| - 1]
    case ReadValue(t) =>
      && ReaderOf(w, t).RevisionRead? && w.history != []
      && ReaderOf(w, t).key in w.history[|w.history| - 1]
  }

  function Act(w: Moment, action: Action): (r: Moment)
    requires CanAct(w, action)
  {
    match action
    case Enter(next) => w.(publishing := Entered(next))
    case Count =>
      var changed := Changed(w.history[|w.history| - 1], w.publishing.next);
      w.(revisions := Bumped(w.revisions, changed), publishing := Counted(w.publishing.next))
    case Store => w.(history := w.history + [w.publishing.next], publishing := SnapshotStored)
    case Leave => w.(publishing := NotPublishing)
    case ReadRevision(t, key) =>
      w.(readers := w.readers[t := RevisionRead(key, RevisionOf(w.revisions, key), |w.history|)])
    case ReadValue(t) =>
      var r := ReaderOf(w, t);
      w.(readers := w.readers[t := BothRead(
        r.key, r.revision, r.at, w.history[|w.history| - 1][r.key].value, |w.history| - 1)])
  }

  // ----- what every step keeps -----

  /** What the counters count: the changes published, and those about to be. */
  function Counting(w: Moment): (r: seq<Snapshot>) {
    if w.publishing.Counted? then w.history + [w.publishing.next] else w.history
  }

  /** The revision is the count up to a moment, and the value is not from before
      that moment. */
  ghost predicate ReadsFit(history: seq<Snapshot>, r: Reader) {
    match r
    case NothingRead => true
    case RevisionRead(key, revision, at) =>
      0 < at <= |history| && revision == Changes(history[..at], key) % U64_RANGE
    case BothRead(key, revision, at, value, index) =>
      && 0 < at <= |history| && revision == Changes(history[..at], key) % U64_RANGE
      && at <= index + 1 <= |history| && key in history[index] && history[index][key].value == value
  }

  ghost predicate Consistent(w: Moment) {
    && w.history != []
    && (forall key :: RevisionOf(w.revisions, key) == Changes(Counting(w), key) % U64_RANGE)
    && (forall t: nat :: ReadsFit(w.history, ReaderOf(w, t)))
  }

  lemma FitsGrow(history: seq<Snapshot>, next: Snapshot, r: Reader)
    requires ReadsFit(history, r)
    ensures ReadsFit(history + [next], r)
  {
    hide Changes;
    if !r.NothingRead? { assert (history + [next])[..r.at] == history[..r.at]; }
  }

  lemma CountConsistent(w: Moment)
    requires Consistent(w) && CanAct(w, Count)
    ensures Consistent(Act(w, Count))
  {
    hide ReadsFit, Changes, Bumped, Changed, RevisionOf;
    var next := Act(w, Count);
    forall key ensures RevisionOf(next.revisions, key) == Changes(Counting(next), key) % U64_RANGE {
      BumpedCounts(w.history, w.publishing.next, w.revisions, key);
    }
    assert forall t: nat :: ReaderOf(next, t) == ReaderOf(w, t);
  }

  lemma StoreConsistent(w: Moment)
    requires Consistent(w) && CanAct(w, Store)
    ensures Consistent(Act(w, Store))
  {
    hide ReadsFit, Changes, RevisionOf;
    var next := Act(w, Store);
    forall t: nat ensures ReadsFit(next.history, ReaderOf(next, t)) {
      FitsGrow(w.history, w.publishing.next, ReaderOf(w, t));
    }
  }

  lemma ReadConsistent(w: Moment, action: Action)
    requires Consistent(w) && CanAct(w, action) && (action.ReadRevision? || action.ReadValue?)
    ensures Consistent(Act(w, action))
  {
    hide Changes, RevisionOf;
    var next := Act(w, action);
    assert w.history[..|w.history|] == w.history;
    assert ReadsFit(w.history, ReaderOf(w, action.reader));
    assert ReadsFit(next.history, ReaderOf(next, action.reader));
    forall t: nat | t != action.reader ensures ReadsFit(next.history, ReaderOf(next, t)) {
      assert ReaderOf(next, t) == ReaderOf(w, t);
    }
  }

  lemma ActConsistent(w: Moment, action: Action)
    requires Consistent(w) && CanAct(w, action)
    ensures Consistent(Act(w, action))
  {
    match action {
      case Count => CountConsistent(w);
      case Store => StoreConsistent(w);
      case ReadRevision(_, _) => ReadConsistent(w, action);
      case ReadValue(_) => ReadConsistent(w, action);
      case _ =>
        hide ReadsFit, Changes, RevisionOf;
        assert forall t: nat :: ReaderOf(Act(w, action), t) == ReaderOf(w, t);
    }
  }

  predicate CanPlay(w: Moment, actions: seq<Action>)
    decreases |actions|
  {
    actions != [] ==> CanAct(w, actions[0]) && CanPlay(Act(w, actions[0]), actions[1..])
  }

  function Play(w: Moment, actions: seq<Action>): (r: Moment)
    requires CanPlay(w, actions)
    decreases |actions|
  {
    if actions == [] then w else Play(Act(w, actions[0]), actions[1..])
  }

  lemma {:induction false} PlayConsistent(w: Moment, actions: seq<Action>)
    requires Consistent(w) && CanPlay(w, actions)
    ensures Consistent(Play(w, actions))
    decreases |actions|
  {
    hide Consistent, Act;
    if actions != [] {
      ActConsistent(w, actions[0]);
      PlayConsistent(Act(w, actions[0]), actions[1..]);
    }
  }

  /** Over any interleaving of publications and reads: a consumer's revision is the
      number of changes up to some publication, and the value it reads next is
      from that publication or a later one. It never pairs a new revision with an
      old value. */
  lemma RevisionIsNeverAheadOfValue(first: Snapshot, actions: seq<Action>, reader: nat)
    requires CanPlay(Moment([first], map[], NotPublishing, map[]), actions)
    requires ReaderOf(Play(Moment([first], map[], NotPublishing, map[]), actions), reader).BothRead?
    ensures var w := Play(Moment([first], map[], NotPublishing, map[]), actions);
            ReadsFit(w.history, ReaderOf(w, reader))
  {
    hide Play, CanPlay;
    var start := Moment([first], map[], NotPublishing, map[]);
    assert forall key :: Changes([first], key) == 0;
    PlayConsistent(start, actions);
  }

  /** So whoever reads a revision, then the value, and finds the revision the same
      afterwards has read the value that goes with it. */
  lemma SameRevisionAfterwardsMeansItsValue(w: Moment, reader: nat)
    requires Consistent(w) && w.publishing.NotPublishing? && ReaderOf(w, reader).BothRead?
    requires var r := ReaderOf(w, reader);
             RevisionOf(w.revisions, r.key) == r.revision && |w.history| - r.at < U64_RANGE
    requires forall i :: 0 <= i < |w.history| ==> ReaderOf(w, reader).key in w.history[i]
    ensures var r := ReaderOf(w, reader);
            r.value == w.history[r.at - 1][r.key].value == w.history[|w.history| - 1][r.key].value
  {
    hide Changes, RevisionOf, Changed;
    var r := ReaderOf(w, reader);
    var n := |w.history|;
    assert ReadsFit(w.history, r);
    assert w.history[..n] == w.history;
    ChangesGrow(w.history, r.key, r.at, n);
    ChangesGrow(w.history, r.key, r.at, r.index + 1);
    ChangesGrow(w.history, r.key, r.index + 1, n);
    NoChangesSameValue(w.history, r.key, r.at - 1, r.index);
    NoChangesSameValue(w.history, r.key, r.at - 1, n - 1);
  }
}

/** The section file several features share (src/instance_state.rs:268-470):
    every write is a read-modify-write under one lock, ended by a rename. */
module InstanceState {
  import opened Prelude
  import opened DurableFile

  const SCHEMA: nat := 1

  /** The file's JSON object: its schema version and its named sections. */
  datatype Doc<V> = Doc(schema: nat, sections: map<string, V>)

  datatype LoadedState<V> = Usable(doc: Doc<V>) | FutureSchema(found: nat) | Unusable

  datatype Op<V> = Write(name: string, value: V) | Remove(name: string)

  datatype Reply = Completed | NewerSchema(found: nat) | WriteFailed | ProcessStopped

  function Load<V(==)>(content: Content<Doc<V>>): (r: LoadedState<V>) {
    match content
    case Whole(doc) => if doc.schema > SCHEMA then FutureSchema(doc.schema) else Usable(doc)
    case _ => Unusable
  }

  /** What an operation does under the lock once it has loaded the file. */
  datatype Plan<V> = Refuse(found: nat) | Nothing | Put(doc: Doc<V>)

  function PlanOf<V(==)>(op: Op<V>, state: LoadedState<V>): (r: Plan<V>) {
    match (op, state)
    case (_, FutureSchema(found)) => Refuse(found)
    case (Write(name, value), Usable(doc)) => Put(doc.(sections := doc.sections[name := value]))
    case (Write(name, value), Unusable) => Put(Doc(SCHEMA, map[name := value]))
    case (Remove(name), Usable(doc)) =>
      if name in doc.sections then Put(doc.(sections := doc.sections - {name})) else Nothing
    case (Remove(_), Unusable) => Nothing
  }

  /** An operation carried out on the file on its own. */
  function Apply<V(==)>(content: Content<Doc<V>>, op: Op<V>): (r: Content<Doc<V>>) {
    match PlanOf(op, Load(content)) case Put(doc) => Whole(doc) case _ => content
  }

  class InstanceStateStore<V(==)> {
    const file: ReplacedFile<Doc<V>>

    constructor (file: ReplacedFile<Doc<V>>)
      ensures this.file == file
    {
      this.file := file;
    }

    /** `write_section` and `remove_section`, between taking the lock and
        releasing it. */
    method Execute(op: Op<V>, mishap: Mishap) returns (reply: Reply)
      modifies file
      ensures var was := old(file.main);
              was.Whole? && was.value.schema > SCHEMA ==>
                reply == NewerSchema(was.value.schema) && file.Model() == old(file.Model())
      ensures var was := old(file.main);
              var schema := if was.Whole? then was.value.schema else SCHEMA;
              var held := if was.Whole? then was.value.sections else map[];
              schema <= SCHEMA ==>
                if op.Remove? && op.name !in held
                then reply == Completed && file.Model() == old(file.Model())
                else if CommitOf(mishap).Untouched?
                then
                  && reply == (if OutcomeOf(mishap).Failed? then WriteFailed else ProcessStopped)
                  && file.Model() == old(file.Model())
                else
                  var sections := if op.Write? then held[op.name := op.value] else held - {op.name};
                  reply == Completed && file.Model() == AfterWrite(old(file.Model()), Doc(schema, sections), Renamed)
    {
      var plan := PlanOf(op, Load(file.main));
      match plan {
        case Refuse(found) => return NewerSchema(found);
        case Nothing => return Completed;
        case Put(doc) =>
          var outcome := file.Replace(doc, mishap);
          match outcome {
            case Done => return Completed;
            case Failed => return WriteFailed;
            case Stopped => return ProcessStopped;
          }
      }
    }
  }

  // ----- one operation -----

  /** The sections a file holds, as any reader sees them. */
  function SectionsOf<V(==)>(content: Content<Doc<V>>): (r: map<string, V>) {
    match Load(content) case Usable(doc) => doc.sections case _ => map[]
  }

  /** A reader sees the sections of a whole file that is no newer, and none else. */
  lemma SectionsAre<V>(content: Content<Doc<V>>)
    ensures content.Whole? && content.value.schema <= SCHEMA ==> SectionsOf(content) == content.value.sections
    ensures !content.Whole? || content.value.schema > SCHEMA ==> SectionsOf(content) == map[]
  {
  }

  /** An operation touches its own section only, and leaves the schema; a newer
      file it does not touch at all. */
  lemma OpTouchesItsOwnSection<V>(content: Content<Doc<V>>, op: Op<V>)
    ensures content.Whole? && content.value.schema > SCHEMA ==> Apply(content, op) == content
    ensures !content.Whole? || content.value.schema <= SCHEMA ==>
              SectionsOf(Apply(content, op))
              == match op
                 case Write(name, value) => SectionsOf(content)[name := value]
                 case Remove(name) => SectionsOf(content) - {name}
    ensures content.Whole? ==> Apply(content, op).Whole? && Apply(content, op).value.schema == content.value.schema
    ensures !content.Whole? && Apply(content, op).Whole? ==> Apply(content, op).value.schema == SCHEMA
    ensures op.Write? ==> Apply(content, op).Whole?
  {
  }

  // ----- interleaved operations -----

  /** Where a thread stands in its operation. */
  datatype Pc<V> =
    | Idle
    | Waiting(op: Op<V>)
    | Locked(op: Op<V>)
    | Read(op: Op<V>, plan: Plan<V>)

  /** The file as it was at first and as it is, who holds the lock, every thread,
      and the operations that have taken effect so far, in the order they did. */
  datatype World<V(==)> = World(
    first: Content<Doc<V>>, file: Disk<Doc<V>>, holder: Option<nat>, threads: map<nat, Pc<V>>, done: seq<Op<V>>)

  datatype Action<V> =
    | Begin(thread: nat, op: Op<V>)
    | Lock(thread: nat)
    | LoadFile(thread: nat)
    /** Carry the plan out and let go of the lock; a write may fail first. */
    | Finish(thread: nat, fails: bool)
    /** The process stops; another one starts on the same file. */
    | Crash
    /** The machine stops; the file comes back as any that may survive. */
    | PowerLoss(survivor: Content<Doc<V>>)

  function Start<V(==)>(first: Content<Doc<V>>): (r: World<V>) {
    World(first, Disk(first, {first}), None, map[], [])
  }

  function PcOf<V>(w: World<V>, thread: nat): (r: Pc<V>) {
    if thread in w.threads then w.threads[thread] else Idle
  }

  predicate CanAct<V(==)>(w: World<V>, action: Action<V>) {
    match action
    case Begin(t, _) => PcOf(w, t).Idle?
    case Lock(t) => PcOf(w, t).Waiting? && w.holder.None?
    case LoadFile(t) => PcOf(w, t).Locked?
    case Finish(t, fails) => PcOf(w, t).Read? && (fails ==> PcOf(w, t).plan.Put?)
    case Crash => true
    case PowerLoss(survivor) => survivor in w.file.survivors
  }

  function Act<V(==)>(w: World<V>, action: Action<V>): (r: World<V>)
    requires CanAct(w, action)
  {
    match action
    case Begin(t, op) => w.(threads := w.threads[t := Waiting(op)])
    case Lock(t) => w.(threads := w.threads[t := Locked(w.threads[t].op)], holder := Some(t))
    case LoadFile(t) =>
      w.(threads := w.threads[t := Read(w.threads[t].op, PlanOf(w.threads[t].op, Load(w.file.main)))])
    case Finish(t, fails) =>
      var released := w.(threads := w.threads[t := Idle], holder := None);
      (match w.threads[t].plan
       case Refuse(_) => released
       case Nothing => released.(done := w.done + [w.threads[t].op])
       case Put(doc) =>
         if fails then released
         else released.(file := AfterWrite(w.file, doc, Renamed), done := w.done + [w.threads[t].op]))
    case Crash => w.(threads := map[], holder := None)
    case PowerLoss(survivor) =>
      World(w.first, Disk(survivor, {survivor}), None, map[], Kept(w.first, w.done, survivor))
  }

  function Fold<V(==)>(content: Content<Doc<V>>, ops: seq<Op<V>>): (r: Content<Doc<V>>) {
    if ops == [] then content else Apply(Fold(content, ops[..|ops| - 1]), ops[|ops| - 1])
  }

  /** As many of the first operations as still show in the file that came back. */
  function Kept<V(==)>(first: Content<Doc<V>>, ops: seq<Op<V>>, survivor: Content<Doc<V>>): (r: seq<Op<V>>)
    ensures r <= ops
  {
    if ops == [] || Fold(first, ops) == survivor then ops else Kept(first, ops[..|ops| - 1], survivor)
  }

  /** A file the first few of the operations make. */
  ghost predicate IsPrefixFold<V>(first: Content<Doc<V>>, ops: seq<Op<V>>, content: Content<Doc<V>>) {
    exists k :: 0 <= k <= |ops| && content == Fold(first, ops[..k])
  }

  /** Only the holder is past the lock, its plan is made from the file as it
      still is, the file is what the operations done make of the first one, and
      whatever may survive a power loss is what some first few of them made. */
  ghost predicate Consistent<V>(w: World<V>) {
    && w.file.main == Fold(w.first, w.done)
    && (forall content :: content in w.file.survivors ==> IsPrefixFold(w.first, w.done, content))
    && (forall t :: t in w.threads && (w.threads[t].Locked? || w.threads[t].Read?) ==> w.holder == Some(t))
    && (forall t :: t in w.threads && w.threads[t].Read? ==>
          w.threads[t].plan == PlanOf(w.threads[t].op, Load(w.file.main)))
  }

  lemma FoldSnoc<V>(content: Content<Doc<V>>, ops: seq<Op<V>>, op: Op<V>)
    ensures Fold(content, ops + [op]) == Apply(Fold(content, ops), op)
  {
    hide Apply;
    assert (ops + [op])[..|ops|] == ops;
  }

  lemma PrefixSnoc<V>(first: Content<Doc<V>>, ops: seq<Op<V>>, op: Op<V>, content: Content<Doc<V>>)
    requires IsPrefixFold(first, ops, content)
    ensures IsPrefixFold(first, ops + [op], content)
  {
    hide Fold;
    var k :| 0 <= k <= |ops| && content == Fold(first, ops[..k]);
    assert (ops + [op])[..k] == ops[..k];
  }

  lemma WholeIsPrefix<V>(first: Content<Doc<V>>, ops: seq<Op<V>>)
    ensures IsPrefixFold(first, ops, Fold(first, ops))
  {
    hide Fold;
    assert ops[..|ops|] == ops;
  }

  lemma FinishConsistent<V>(w: World<V>, t: nat, fails: bool)
    requires Consistent(w) && CanAct(w, Finish(t, fails))
    ensures Consistent(Act(w, Finish(t, fails)))
  {
    hide PlanOf, Load, Fold, IsPrefixFold;
    var op := w.threads[t].op;
    FoldSnoc(w.first, w.done, op);
    WholeIsPrefix(w.first, w.done + [op]);
    forall content | content in w.file.survivors ensures IsPrefixFold(w.first, w.done + [op], content) {
      PrefixSnoc(w.first, w.done, op, content);
    }
  }

  lemma {:induction false} KeptMakes<V>(first: Content<Doc<V>>, ops: seq<Op<V>>, survivor: Content<Doc<V>>)
    requires IsPrefixFold(first, ops, survivor)
    ensures Fold(first, Kept(first, ops, survivor)) == survivor
    decreases |ops|
  {
    hide Fold;
    var k :| 0 <= k <= |ops| && survivor == Fold(first, ops[..k]);
    if k == |ops| {
      assert ops[..k] == ops;
    } else if Fold(first, ops) != survivor {
      assert ops[..|ops| - 1][..k] == ops[..k];
      KeptMakes(first, ops[..|ops| - 1], survivor);
    }
  }

  lemma PowerLossConsistent<V>(w: World<V>, survivor: Content<Doc<V>>)
    requires Consistent(w) && CanAct(w, PowerLoss(survivor))
    ensures Consistent(Act(w, PowerLoss(survivor)))
  {
    hide PlanOf, Load, Fold, IsPrefixFold, Kept;
    var kept := Kept(w.first, w.done, survivor);
    KeptMakes(w.first, w.done, survivor);
    WholeIsPrefix(w.first, kept);
  }

  lemma ActConsistent<V>(w: World<V>, action: Action<V>)
    requires Consistent(w) && CanAct(w, action)
    ensures Consistent(Act(w, action))
  {
    hide PlanOf, Load, Fold, IsPrefixFold;
    match action {
      case Finish(t, fails) => FinishConsistent(w, t, fails);
      case PowerLoss(survivor) => PowerLossConsistent(w, survivor);
      case _ =>
    }
  }

  predicate CanPlay<V(==)>(w: World<V>, actions: seq<Action<V>>)
    decreases |actions|
  {
    actions != [] ==> CanAct(w, actions[0]) && CanPlay(Act(w, actions[0]), actions[1..])
  }

  function Play<V(==)>(w: World<V>, actions: seq<Action<V>>): (r: World<V>)
    requires CanPlay(w, actions)
    decreases |actions|
  {
    if actions == [] then w else Play(Act(w, actions[0]), actions[1..])
  }

  lemma {:induction false} PlayConsistent<V>(w: World<V>, actions: seq<Action<V>>)
    requires Consistent(w) && CanPlay(w, actions)
    ensures Consistent(Play(w, actions)) && Play(w, actions).first == w.first
    decreases |actions|
  {
    hide Consistent, Fold, PlanOf, Load;
    if actions != [] {
      ActConsistent(w, actions[0]);
      PlayConsistent(Act(w, actions[0]), actions[1..]);
    }
  }

  lemma StartConsistent<V>(first: Content<Doc<V>>)
    ensures Consistent(Start(first))
  {
    assert Start(first).done[..0] == [];
    assert IsPrefixFold(first, [], first);
  }

  /** For any interleaving of writes and removals, with failed writes, crashes and
      power losses anywhere, the file is the operations done, applied one after
      another: none is lost, and none overwrites another's section. A power loss
      may undo the last few, never one before another that stays. */
  lemma InterleavingsSerialise<V>(first: Content<Doc<V>>, actions: seq<Action<V>>)
    requires CanPlay(Start(first), actions)
    ensures var w := Play(Start(first), actions);
            && w.file.main == Fold(first, w.done)
            && forall survivor :: survivor in w.file.survivors ==> IsPrefixFold(first, w.done, survivor)
  {
    hide Act, PlanOf, Load, Fold, CanPlay, Play, IsPrefixFold;
    StartConsistent(first);
    PlayConsistent(Start(first), actions);
  }

  /** Whatever comes back after a power loss is what some first few of the
      operations done had made: none is undone before another that stays. */
  lemma PowerLossKeepsAPrefix<V>(first: Content<Doc<V>>, actions: seq<Action<V>>, survivor: Content<Doc<V>>)
    requires CanPlay(Start(first), actions) && survivor in Play(Start(first), actions).file.survivors
    ensures var before := Play(Start(first), actions);
            var after := Act(before, PowerLoss(survivor));
            && after.done <= before.done
            && after.file.main == survivor == Fold(first, after.done)
  {
    hide PlanOf, Load, Fold, CanPlay, Play, IsPrefixFold, Kept;
    StartConsistent(first);
    PlayConsistent(Start(first), actions);
    KeptMakes(first, Play(Start(first), actions).done, survivor);
  }

  /** No operations change a file of a newer schema; and a file that is not newer
      is not made so. */
  lemma {:induction false} FoldKeepsSchema<V>(content: Content<Doc<V>>, ops: seq<Op<V>>)
    ensures content.Whole? && content.value.schema > SCHEMA ==> Fold(content, ops) == content
    ensures !content.Whole? || content.value.schema <= SCHEMA ==>
              !Fold(content, ops).Whole? || Fold(content, ops).value.schema <= SCHEMA
  {
    hide Apply;
    if ops != [] {
      FoldKeepsSchema(content, ops[..|ops| - 1]);
      OpTouchesItsOwnSection(Fold(content, ops[..|ops| - 1]), ops[|ops| - 1]);
    }
  }

  /** The value a section ends with is the last one written to it, if no removal
      came after. */
  function LastFor<V>(ops: seq<Op<V>>, name: string, before: Option<V>): (r: Option<V>) {
    if ops == [] then before
    else
      var last := ops[|ops| - 1];
      if last.name != name then LastFor(ops[..|ops| - 1], name, before)
      else match last case Write(_, value) => Some(value) case Remove(_) => None
  }

  function SectionAt<V>(sections: map<string, V>, name: string): (r: Option<V>) {
    if name in sections then Some(sections[name]) else None
  }

  lemma {:induction false} FoldSections<V>(content: Content<Doc<V>>, ops: seq<Op<V>>, name: string)
    requires !content.Whole? || content.value.schema <= SCHEMA
    ensures SectionAt(SectionsOf(Fold(content, ops)), name) == LastFor(ops, name, SectionAt(SectionsOf(content), name))
  {
    hide Apply, SectionsOf;
    if ops != [] {
      FoldSections(content, ops[..|ops| - 1], name);
      FoldKeepsSchema(content, ops[..|ops| - 1]);
      OpTouchesItsOwnSection(Fold(content, ops[..|ops| - 1]), ops[|ops| - 1]);
    }
  }

  /** Read by any process after any run: each section is the last completed
      write to it, whatever happened to the others; a file of a newer schema is
      still the one it was. */
  lemma SectionsAreIndependent<V>(first: Content<Doc<V>>, actions: seq<Action<V>>, name: string)
    requires CanPlay(Start(first), actions)
    ensures var last := Play(Start(first), actions);
            && (first.Whole? && first.value.schema > SCHEMA ==> last.file.main == first)
            && (!first.Whole? || first.value.schema <= SCHEMA ==>
                  SectionAt(SectionsOf(last.file.main), name)
                  == LastFor(last.done, name, SectionAt(SectionsOf(first), name)))
  {
    hide Play, CanPlay, SectionsOf, Fold;
    InterleavingsSerialise(first, actions);
    var done := Play(Start(first), actions).done;
    FoldKeepsSchema(first, done);
    if !first.Whole? || first.value.schema <= SCHEMA { FoldSections(first, done, name); }
  }
}

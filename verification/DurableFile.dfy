/** One file that is only ever replaced whole: written beside, synced, renamed
    over, and, where the writer asks for it, made durable by syncing the
    directory. A step may fail, or be the last one before the process stops. */
module DurableFile {

  /** What a name in the directory holds: nothing, a decodable value, or a file
      cut short. */
  datatype Content<T> = Absent | Whole(value: T) | Torn

  datatype Temp<T> = NoTemp | Temp(content: Content<T>, synced: bool)

  datatype FileStep = Prepare | CreateTemp | WriteTemp | SyncTemp | Rename | SyncDirectory

  /** Which step goes wrong, if any: it fails, or the process stops there. */
  datatype Mishap = Smooth | FailAt(step: FileStep) | StopAt(step: FileStep)

  datatype Outcome = Done | Failed | Stopped

  /** The file as a running process sees it, and everything it may turn out to
      be after the machine loses power. */
  datatype Disk<T(==)> = Disk(main: Content<T>, survivors: set<Content<T>>)

  /** How far a write got, as far as the file itself can show. */
  datatype Commit = Untouched | Renamed | Durable

  function CommitOf(mishap: Mishap): (r: Commit) {
    if mishap.Smooth? then Durable
    else if mishap.step.SyncDirectory? then Renamed
    else Untouched
  }

  function OutcomeOf(mishap: Mishap): (r: Outcome) {
    match mishap
    case Smooth => Done
    case FailAt(_) => Failed
    case StopAt(_) => Stopped
  }

  /** What writing `value` leaves: the old file, or all of the new one. */
  function AfterWrite<T(==)>(disk: Disk<T>, value: T, commit: Commit): (r: Disk<T>) {
    match commit
    case Untouched => disk
    case Renamed => Disk(Whole(value), disk.survivors + {Whole(value)})
    case Durable => Disk(Whole(value), {Whole(value)})
  }

  class ReplacedFile<T(==)> {
    var main: Content<T>
    var temp: Temp<T>
    var survivors: set<Content<T>>

    ghost function Model(): (r: Disk<T>)
      reads this
    {
      Disk(main, survivors)
    }

    constructor (initial: Content<T>)
      ensures Model() == Disk(initial, {initial})
    {
      main, temp, survivors := initial, NoTemp, {initial};
    }

    /** Renaming a file that was not synced may leave a torn one after a power
        loss, and until the directory is synced the old one may come back. */
    method RenameTemp()
      requires temp.Temp?
      modifies this
      ensures main == old(temp).content && temp == NoTemp
      ensures survivors == old(survivors) + (if old(temp).synced then {main} else {main, Torn})
    {
      main := temp.content;
      survivors := survivors + (if temp.synced then {temp.content} else {temp.content, Torn});
      temp := NoTemp;
    }

    /** `SettingsStore::persist` (src/runtime_config.rs:209-253): with a
        directory sync at the end. */
    method Persist(value: T, mishap: Mishap) returns (outcome: Outcome)
      modifies this
      ensures outcome == OutcomeOf(mishap)
      ensures Model() == AfterWrite(old(Model()), value, CommitOf(mishap))
    {
      outcome := Replace(value, mishap);
      if outcome.Done? {
        // `sync_directory`: only now is the new file sure to be there.
        if mishap == FailAt(SyncDirectory) {
          temp := NoTemp;
          return Failed;
        }
        if mishap == StopAt(SyncDirectory) {
          return Stopped;
        }
        survivors := {main};
      }
    }

    /** Everything up to and including the rename; all there is to
        `InstanceStateStore::persist` (src/instance_state.rs:391-432). */
    method Replace(value: T, mishap: Mishap) returns (outcome: Outcome)
      modifies this
      ensures outcome == if CommitOf(mishap).Untouched? then OutcomeOf(mishap) else Done
      ensures Model()
              == if CommitOf(mishap).Untouched? then old(Model()) else AfterWrite(old(Model()), value, Renamed)
    {
      if mishap == FailAt(Prepare) || mishap == FailAt(CreateTemp) {
        return Failed;
      }
      if mishap == StopAt(Prepare) || mishap == StopAt(CreateTemp) {
        return Stopped;
      }
      temp := Temp(Torn, false);
      if mishap == StopAt(WriteTemp) {
        return Stopped;
      }
      if mishap == FailAt(WriteTemp) {
        temp := NoTemp;
        return Failed;
      }
      temp := Temp(Whole(value), false);
      if mishap == StopAt(SyncTemp) {
        return Stopped;
      }
      if mishap == FailAt(SyncTemp) {
        temp := NoTemp;
        return Failed;
      }
      temp := Temp(Whole(value), true);
      if mishap == StopAt(Rename) {
        return Stopped;
      }
      if mishap == FailAt(Rename) {
        temp := NoTemp;
        return Failed;
      }
      RenameTemp();
      return Done;
    }
  }
}

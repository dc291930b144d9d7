/** A finite tree of folders, and the capped walk that counts the notes in one
    (src/folder_listing.rs, `count_tree`). */
module FolderTree {
  import opened Utf8
  import opened FolderPaths

  /** What a directory entry turns out to be. `Other` is a symlink or device,
      which the listing never follows; `Broken` one whose type cannot be read. */
  datatype Entry =
    | File(name: Name)
    | Dir(name: Name, folder: Folder)
    | Other(name: Name)
    | Broken(name: Name)

  /** A folder with its permissions and its entries in reading order. */
  datatype Folder = Folder(readable: bool, searchable: bool, writable: bool, entries: seq<Entry>)

  /** A folder entry the listing shows. */
  predicate IsVisible(entry: Entry) {
    entry.Dir? && IsValid(entry.name) && !IsHidden(entry.name)
  }

  predicate HasVisible(entries: seq<Entry>) {
    exists i :: 0 <= i < |entries| && IsVisible(entries[i])
  }

  /** All Markdown notes the walk may see under a folder. */
  function Notes(folder: Folder): (n: nat)
    decreases folder, 1
  {
    if folder.readable then EntriesNotes(folder.entries) else 0
  }

  function EntryNotes(entry: Entry): (n: nat)
    decreases entry, 0
  {
    match entry
    case File(name) => if IsMarkdown(name) then 1 else 0
    case Dir(name, folder) => if IsVisible(entry) then Notes(folder) else 0
    case _ => 0
  }

  function EntriesNotes(entries: seq<Entry>): (n: nat)
    decreases entries, 0
  {
    if entries == [] then 0 else EntryNotes(entries[0]) + EntriesNotes(entries[1..])
  }

  /** How often a whole walk looks at the clock. */
  function Work(folder: Folder): (n: nat)
    ensures n > 0
    decreases folder, 1
  {
    1 + (if folder.readable then EntriesWork(folder.entries) else 0)
  }

  function EntryWork(entry: Entry): (n: nat)
    ensures n > 0
    decreases entry, 0
  {
    1 + (if IsVisible(entry) then Work(entry.folder) else 0)
  }

  function EntriesWork(entries: seq<Entry>): (n: nat)
    decreases entries, 0
  {
    if entries == [] then 0 else EntryWork(entries[0]) + EntriesWork(entries[1..])
  }

  /** A directory still to be walked, with its path below the counted folder. */
  datatype Pending = Pending(path: seq<Name>, folder: Folder)

  function PendingNotes(pending: seq<Pending>): (n: nat) {
    if pending == [] then 0
    else PendingNotes(pending[..|pending| - 1]) + Notes(pending[|pending| - 1].folder)
  }

  function PendingWork(pending: seq<Pending>): (n: nat) {
    if pending == [] then 0
    else PendingWork(pending[..|pending| - 1]) + Work(pending[|pending| - 1].folder)
  }

  lemma PendingSnoc(pending: seq<Pending>, last: Pending)
    ensures PendingNotes(pending + [last]) == PendingNotes(pending) + Notes(last.folder)
    ensures PendingWork(pending + [last]) == PendingWork(pending) + Work(last.folder)
  {
    assert (pending + [last])[..|pending|] == pending;
  }

  datatype TreeCount = TreeCount(count: nat, atLeast: bool, hasSubfolders: bool)

  /** No directory but the counted one has an empty path. */
  predicate Deeper(pending: seq<Pending>) {
    forall i :: 0 <= i < |pending| ==> pending[i].path != []
  }

  /** Counts the notes under `folder`. The clock allows `clock` more looks
      before the deadline; `left` is what remains of it. */
  method CountTree(folder: Folder, cap: nat, clock: nat) returns (tree: TreeCount, left: nat)
    ensures left <= clock
    ensures tree.count <= cap && tree.count <= Notes(folder)
    ensures !tree.atLeast ==>
              tree.count == Notes(folder) && (tree.hasSubfolders <==> folder.readable && HasVisible(folder.entries))
    ensures tree.atLeast ==> tree.count == cap || left == 0
    ensures !tree.hasSubfolders ==> !folder.readable || !HasVisible(folder.entries)
    ensures clock >= Work(folder) ==> left >= clock - Work(folder) && (tree.atLeast ==> tree.count == cap)
  {
    hide EntriesNotes, EntriesWork, HasVisible, IsMarkdown, IsVisible, PendingNotes, PendingWork, Notes, Work;
    hide EntryNotes, EntryWork;
    var count: nat, hasSubfolders, topLevelDone, finished := 0, false, false, true;
    var pending := [Pending([], folder)];
    NoPending();
    PendingSnoc([], pending[0]);
    assert [] + pending == pending;
    left := clock;
    // Looks taken so far, to account for the clock.
    ghost var looks: nat := 0;
    while |pending| > 0
      invariant if topLevelDone then Deeper(pending) else pending == [Pending([], folder)] && !hasSubfolders
      invariant topLevelDone ==> (hasSubfolders <==> folder.readable && HasVisible(folder.entries))
      invariant finished && count <= cap
      invariant count + PendingNotes(pending) == Notes(folder)
      invariant left + looks == clock && looks + PendingWork(pending) == Work(folder)
      decreases Work(folder) - looks
    {
      var directory := pending[|pending| - 1];
      PendingSnoc(pending[..|pending| - 1], directory);
      assert pending[..|pending| - 1] + [directory] == pending;
      if left == 0 {
        assert clock < Work(folder);
        finished := false;
        break;
      }
      pending := pending[..|pending| - 1];
      OpenFolder(directory.folder);
      ghost var before := looks;
      left, looks := left - 1, looks + 1;
      var topLevel := directory.path == [];
      if !directory.folder.readable {
        topLevelDone := topLevelDone || topLevel;
        continue;
      }
      var entries := directory.folder.entries;
      ghost var shown := hasSubfolders;
      var i := 0;
      assert entries[0..] == entries && entries[..0] == [];
      NoEntries();
      while i < |entries|
        invariant 0 <= i <= |entries| && Deeper(pending) && finished && count <= cap
        invariant count + EntriesNotes(entries[i..]) + PendingNotes(pending) == Notes(folder)
        invariant left + looks == clock && looks > before
        invariant looks + EntriesWork(entries[i..]) + PendingWork(pending) == Work(folder)
        invariant hasSubfolders == ((!topLevel && shown) || (topLevel && HasVisible(entries[..i])))
      {
        FirstEntry(entries, i);
        if count >= cap || left == 0 {
          assert count == cap || clock < Work(folder);
          finished := false;
          break;
        }
        var entry := entries[i];
        VisibleSnoc(entries, i);
        EntryIs(entry);
        left, looks := left - 1, looks + 1;
        match entry {
          case File(name) =>
            count := count + (if IsMarkdown(name) then 1 else 0);
          case Dir(name, sub) =>
            if IsVisible(entry) {
              hasSubfolders := hasSubfolders || topLevel;
              PendingSnoc(pending, Pending(directory.path + [name], sub));
              pending := pending + [Pending(directory.path + [name], sub)];
            }
          case _ =>
        }
        i := i + 1;
      }
      if !finished {
        break;
      }
      assert entries[..i] == entries && entries[i..] == [];
      NoEntries();
      topLevelDone := topLevelDone || topLevel;
    }
    if |pending| == 0 && finished { NoPending(); }
    tree := TreeCount(count, !finished, hasSubfolders || !topLevelDone);
  }

  lemma NoPending()
    ensures PendingNotes([]) == 0 && PendingWork([]) == 0
  {
  }

  lemma OpenFolder(folder: Folder)
    ensures Notes(folder) == if folder.readable then EntriesNotes(folder.entries) else 0
    ensures Work(folder) == 1 + (if folder.readable then EntriesWork(folder.entries) else 0)
  {
  }

  lemma NoEntries()
    ensures EntriesNotes([]) == 0 && EntriesWork([]) == 0 && !HasVisible([])
  {
  }

  lemma FirstEntry(entries: seq<Entry>, i: nat)
    requires i < |entries|
    ensures EntriesNotes(entries[i..]) == EntryNotes(entries[i]) + EntriesNotes(entries[i + 1..])
    ensures EntriesWork(entries[i..]) == EntryWork(entries[i]) + EntriesWork(entries[i + 1..])
  {
    hide IsVisible, IsMarkdown;
    assert entries[i..][1..] == entries[i + 1..];
  }

  lemma EntryIs(entry: Entry)
    ensures entry.File? ==> EntryNotes(entry) == if IsMarkdown(entry.name) then 1 else 0
    ensures IsVisible(entry) ==> entry.Dir? && EntryNotes(entry) == Notes(entry.folder)
    ensures !entry.File? && !IsVisible(entry) ==> EntryNotes(entry) == 0
    ensures EntryWork(entry) == 1 + if IsVisible(entry) then Work(entry.folder) else 0
  {
    hide IsMarkdown, Notes, Work;
  }

  lemma VisibleSnoc(entries: seq<Entry>, i: nat)
    requires i < |entries|
    ensures HasVisible(entries[..i + 1]) == (HasVisible(entries[..i]) || IsVisible(entries[i]))
    ensures IsVisible(entries[i]) ==> entries[i].Dir?
  {
    assert IsVisible(entries[i]) ==> entries[i].Dir?;
    hide IsVisible;
    var longer := entries[..i + 1];
    assert forall k :: 0 <= k < i ==> entries[..i][k] == longer[k];
    if IsVisible(entries[i]) { assert IsVisible(longer[i]); }
    if HasVisible(entries[..i]) {
      var k :| 0 <= k < i && IsVisible(entries[..i][k]);
      assert IsVisible(longer[k]);
    }
  }
}

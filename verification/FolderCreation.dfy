/** Making one new folder, and what the next listing shows of it
    (src/folder_listing.rs:208-264, 290-374). The checks and the making of the
    directory are one step here. */
module FolderCreation {
  import opened Prelude
  import opened Utf8
  import opened FolderPaths
  import opened FolderTree
  import opened FolderListing

  datatype CreateError =
    | InvalidName | NameTaken | MountNotFound | ParentNotFound | ParentOutsideRoot
    | InsideVault | NotWritable | VaultsUnknown

  function ParentError(error: ListingError): (r: CreateError) {
    match error
    case OutsideRoot => ParentOutsideRoot
    case NotFound => ParentNotFound
    case Unreadable => NotWritable
  }

  /** What the system may still refuse a directory for. */
  datatype MkdirFault = Vanished | BadName | Denied

  const EMPTY_FOLDER := Folder(true, true, true, [])

  function InsertAt(entries: seq<Entry>, position: nat, entry: Entry): (r: seq<Entry>) {
    var p := if position <= |entries| then position else |entries|;
    entries[..p] + [entry] + entries[p..]
  }

  /** The first entry with this name, if it is a folder, given new contents. */
  function Update(entries: seq<Entry>, name: Name, folder: Folder): (r: seq<Entry>)
    ensures |r| == |entries|
  {
    if entries == [] then []
    else if entries[0].name == name then
      [if entries[0].Dir? then Dir(name, folder) else entries[0]] + entries[1..]
    else [entries[0]] + Update(entries[1..], name, folder)
  }

  /** The tree with a new entry in the folder at `components`. */
  function AddAt(folder: Folder, components: seq<Name>, position: nat, entry: Entry): (r: Folder)
    decreases |components|
  {
    if components == [] then folder.(entries := InsertAt(folder.entries, position, entry))
    else
      match Find(folder.entries, components[0])
      case Some(Dir(name, child)) =>
        folder.(entries := Update(folder.entries, name, AddAt(child, components[1..], position, entry)))
      case _ => folder
  }

  /** `fs::create_dir` in a folder. */
  function MkdirError(parent: Folder, name: Name, fault: Option<MkdirFault>): (r: Option<CreateError>) {
    if !parent.searchable then Some(NotWritable)
    else if IndexOf(parent.entries, name).Some? then Some(NameTaken)
    else if !parent.writable then Some(NotWritable)
    else match fault
      case None => None
      case Some(Vanished) => Some(ParentNotFound)
      case Some(BadName) => Some(InvalidName)
      case Some(Denied) => Some(NotWritable)
  }

  /** Why nothing is made, or the components of the parent it is made in. */
  function Admitted(
    state: MountState, root: Path, parent: Bytes, name: Name, registry: Registry, fault: Option<MkdirFault>)
    : (r: Result<seq<Name>, CreateError>)
  {
    match Parsed(parent)
    case Err(error) => Err(ParentError(error))
    case Ok(components) =>
      if !IsPlainName(name) then Err(InvalidName)
      else match state
        case Missing => Err(MountNotFound)
        case Forbidden => Err(ParentError(Unreadable))
        case There(tree) =>
          match Shown(tree, root, components, registry)
          case Err(error) => Err(ParentError(error))
          case Ok(folder) =>
            var target := root + components + [name];
            if registry.roots.None? then Err(VaultsUnknown)
            else if InsideSomeVault(registry.roots.value, target) then Err(InsideVault)
            else if !registry.mayBeVault(target) then Err(InvalidName)
            else
              match MkdirError(folder, name, fault)
              case Some(error) => Err(error)
              case None => Ok(components)
  }

  function NewEntry(components: seq<Name>, name: Name): (r: FolderEntry) {
    FolderEntry(name, EntryPath(components, name), MarkdownCount(0, false), None, false)
  }

  class Mount {
    const root: Path
    var state: MountState

    constructor (root: Path, state: MountState)
      ensures this.root == root && this.state == state
    {
      this.root, this.state := root, state;
    }

    /** `position` is where the new directory turns up when its parent is read. */
    method CreateFolder(parent: Bytes, name: Name, registry: Registry, fault: Option<MkdirFault>, position: nat)
      returns (r: Result<FolderEntry, CreateError>)
      modifies this
      ensures match Admitted(old(state), root, parent, name, registry, fault)
              case Err(error) => r == Err(error) && state == old(state)
              case Ok(components) =>
                && r == Ok(NewEntry(components, name))
                && old(state).There?
                && state == There(AddAt(old(state).tree, components, position, Dir(name, EMPTY_FOLDER)))
    {
      hide IsPlainName, AddAt, EntryPath;
      var parsed := ParseRelative(parent);
      if parsed.Err? {
        return Err(ParentError(parsed.error));
      }
      var components := parsed.value;
      if !IsPlainName(name) {
        return Err(InvalidName);
      }
      if state.Missing? {
        return Err(MountNotFound);
      }
      if state.Forbidden? {
        return Err(ParentError(Unreadable));
      }
      var found := ShownFolder(state.tree, root, components, registry);
      if found.Err? {
        return Err(ParentError(found.error));
      }
      var target := root + components + [name];
      if registry.roots.None? {
        return Err(VaultsUnknown);
      }
      if InsideSomeVault(registry.roots.value, target) {
        return Err(InsideVault);
      }
      if !registry.mayBeVault(target) {
        return Err(InvalidName);
      }
      var refused := MkdirError(found.value, name, fault);
      if refused.Some? {
        return Err(refused.value);
      }
      state := There(AddAt(state.tree, components, position, Dir(name, EMPTY_FOLDER)));
      return Ok(NewEntry(components, name));
    }
  }

  // ----- exactly one directory, outside every Vault -----

  lemma {:induction false} FindAppend(a: seq<Entry>, b: seq<Entry>, name: Name)
    ensures Find(a + b, name) == if Find(a, name).Some? then Find(a, name) else Find(b, name)
  {
    if a == [] {
      assert a + b == b;
    } else {
      assert (a + b)[1..] == a[1..] + b;
      FindAppend(a[1..], b, name);
    }
  }

  lemma FindInserted(entries: seq<Entry>, position: nat, entry: Entry, name: Name)
    requires IndexOf(entries, entry.name).None?
    ensures Find(InsertAt(entries, position, entry), name)
            == if name == entry.name then Some(entry) else Find(entries, name)
  {
    var p := if position <= |entries| then position else |entries|;
    FindAppend(entries[..p] + [entry], entries[p..], name);
    FindAppend(entries[..p], [entry], name);
    FindAppend(entries[..p], entries[p..], name);
    assert entries[..p] + entries[p..] == entries;
    assert [entry][1..] == [];
  }

  lemma {:induction false} FindUpdated(entries: seq<Entry>, key: Name, folder: Folder, name: Name)
    requires Find(entries, key).Some? && Find(entries, key).value.Dir?
    ensures Find(Update(entries, key, folder), name)
            == if name == key then Some(Dir(key, folder)) else Find(entries, name)
  {
    if entries[0].name != key {
      FindUpdated(entries[1..], key, folder, name);
      assert Update(entries, key, folder)[1..] == Update(entries[1..], key, folder);
    } else {
      assert Update(entries, key, folder)[1..] == entries[1..];
    }
  }

  /** The parent can be entered and has no entry of that name yet. */
  ghost predicate CanAdd(folder: Folder, components: seq<Name>, name: Name) {
    && Descend(folder, components).Ok?
    && Descend(folder, components).value.searchable
    && IndexOf(Descend(folder, components).value.entries, name).None?
  }

  lemma EnterFind(folder: Folder, component: Name)
    requires Enter(folder, component).Ok?
    ensures folder.searchable && Find(folder.entries, component) == Some(Dir(component, Enter(folder, component).value))
  {
  }

  /** After the folder is made the paths that exist are those that did, and the
      new one. */
  lemma {:induction false} OnlyOnePathIsNew(
    folder: Folder, components: seq<Name>, position: nat, name: Name, path: Path)
    requires CanAdd(folder, components, name)
    ensures Exists(AddAt(folder, components, position, Dir(name, EMPTY_FOLDER)), path)
            <==> Exists(folder, path) || path == components + [name]
    decreases |components|
  {
    var entry := Dir(name, EMPTY_FOLDER);
    var after := AddAt(folder, components, position, entry);
    if path == [] {
    } else if components == [] {
      FindInserted(folder.entries, position, entry, path[0]);
      ExistsByFind(folder, path);
      ExistsByFind(after, path);
      if path[0] == name && |path| > 1 { ExistsByFind(EMPTY_FOLDER, path[1..]); }
    } else {
      var child := Enter(folder, components[0]).value;
      EnterFind(folder, components[0]);
      var below := AddAt(child, components[1..], position, entry);
      FindUpdated(folder.entries, components[0], below, path[0]);
      ExistsByFind(folder, path);
      ExistsByFind(after, path);
      if path[0] == components[0] {
        OnlyOnePathIsNew(child, components[1..], position, name, path[1..]);
        assert path == [path[0]] + path[1..];
        assert components + [name] == [components[0]] + (components[1..] + [name]);
      }
    }
  }

  lemma ExistsByFind(folder: Folder, path: Path)
    requires path != []
    ensures Exists(folder, path)
            <==> && folder.searchable
                 && Find(folder.entries, path[0]).Some?
                 && (|path| > 1 ==>
                       Find(folder.entries, path[0]).value.Dir?
                       && Exists(Find(folder.entries, path[0]).value.folder, path[1..]))
  {
  }

  /** The parent is the same folder with the entry in it. */
  lemma {:induction false} DescendAfter(folder: Folder, components: seq<Name>, position: nat, name: Name)
    requires CanAdd(folder, components, name)
    ensures var parent := Descend(folder, components).value;
            Descend(AddAt(folder, components, position, Dir(name, EMPTY_FOLDER)), components)
            == Ok(parent.(entries := InsertAt(parent.entries, position, Dir(name, EMPTY_FOLDER))))
    decreases |components|
  {
    if components != [] {
      var child := Enter(folder, components[0]).value;
      EnterFind(folder, components[0]);
      var below := AddAt(child, components[1..], position, Dir(name, EMPTY_FOLDER));
      FindUpdated(folder.entries, components[0], below, components[0]);
      DescendAfter(child, components[1..], position, name);
    }
  }

  /** A success makes exactly the one path, under the mount and inside no Vault,
      so no registered Vault appears, disappears or moves. */
  lemma CreationIsContained(
    tree: Folder, root: Path, parent: Bytes, name: Name, registry: Registry, fault: Option<MkdirFault>, position: nat)
    requires Admitted(There(tree), root, parent, name, registry, fault).Ok?
    ensures var components := Admitted(There(tree), root, parent, name, registry, fault).value;
            var after := AddAt(tree, components, position, Dir(name, EMPTY_FOLDER));
            && CanAdd(tree, components, name)
            && (forall path :: Exists(after, path) <==> Exists(tree, path) || path == components + [name])
            && !Exists(tree, components + [name])
            && (forall vault :: vault in registry.roots.value ==> !(vault.path <= root + components + [name]))
            && RegisteredVaults(after, root, registry) == RegisteredVaults(tree, root, registry)
  {
    hide IsPlainName, Parsed, AddAt, Exists;
    var components := Admitted(There(tree), root, parent, name, registry, fault).value;
    var after := AddAt(tree, components, position, Dir(name, EMPTY_FOLDER));
    forall path
      ensures Exists(after, path) <==> Exists(tree, path) || path == components + [name]
    {
      OnlyOnePathIsNew(tree, components, position, name, path);
    }
    NotThereYet(tree, components, name);
    SameVaults(tree, after, root, components + [name], registry, registry.roots.value);
  }

  lemma {:induction false} NotThereYet(folder: Folder, components: seq<Name>, name: Name)
    requires CanAdd(folder, components, name)
    ensures !Exists(folder, components + [name])
    decreases |components|
  {
    var path := components + [name];
    if components != [] {
      EnterFind(folder, components[0]);
      assert path[1..] == components[1..] + [name];
      NotThereYet(Enter(folder, components[0]).value, components[1..], name);
    }
  }

  lemma {:induction false} SameVaults(
    before: Folder, after: Folder, root: Path, added: Path, registry: Registry, roots: seq<VaultRoot>)
    requires forall path :: Exists(after, path) <==> Exists(before, path) || path == added
    requires !InsideSomeVault(roots, root + added)
    ensures Present(after, root, registry, roots) == Present(before, root, registry, roots)
    decreases |roots|
  {
    hide Exists;
    if roots != [] {
      var path := roots[0].path;
      assert !(path <= root + added);
      assert root <= path ==> path == root + path[|root|..];
      assert forall i :: 0 <= i < |roots| - 1 ==> roots[1..][i] == roots[i + 1];
      SameVaults(before, after, root, added, registry, roots[1..]);
    }
  }
}

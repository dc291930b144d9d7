/** Listing a folder under the Vault mount
    (src/folder_listing.rs, `list_folders`, `shown_folder`). */
module FolderListing {
  import opened Prelude
  import opened Utf8
  import opened FolderPaths
  import opened FolderTree

  /** An absolute path, symlinks resolved. */
  type Path = seq<Name>

  datatype VaultRoot = VaultRoot(path: Path, vaultId: nat, name: Bytes)

  /** The Vault registry as the listing asks it: its Vaults' roots, unless it is
      unreadable or in recovery, whether a folder may be a Vault as far as
      instance state goes, and which paths outside the mount exist. */
  datatype Registry = Registry(
    roots: Option<seq<VaultRoot>>, mayBeVault: Path -> bool, existsOutside: Path -> bool)

  datatype MountState = Missing | Forbidden | There(tree: Folder)

  datatype MarkdownCount = MarkdownCount(count: nat, atLeast: bool)

  datatype FolderEntry = FolderEntry(
    name: Name, path: Bytes, markdown: MarkdownCount, vault: Option<VaultRoot>, hasSubfolders: bool)

  datatype Listing = Listing(
    rootFound: bool, path: Bytes, markdown: MarkdownCount, vault: Option<VaultRoot>,
    folders: seq<FolderEntry>, skippedInvalidNames: nat)

  // ----- finding entries -----

  function IndexOf(entries: seq<Entry>, name: Name): (r: Option<nat>)
    ensures r.Some? ==> r.value < |entries| && entries[r.value].name == name
    ensures r.None? ==> forall i :: 0 <= i < |entries| ==> entries[i].name != name
  {
    if entries == [] then None
    else if entries[0].name == name then Some(0)
    else match IndexOf(entries[1..], name) case Some(i) => Some(i + 1) case None => None
  }

  function Find(entries: seq<Entry>, name: Name): (r: Option<Entry>) {
    match IndexOf(entries, name) case Some(i) => Some(entries[i]) case None => None
  }

  /** One step of `shown_folder`: what `symlink_metadata` says of the child. */
  function Enter(folder: Folder, component: Name): (r: Result<Folder, ListingError>)
    ensures r.Ok? ==> r.value < folder
  {
    if IsHidden(component) then Err(NotFound)
    else if !folder.searchable then Err(Unreadable)
    else
      match IndexOf(folder.entries, component)
      case None => Err(NotFound)
      case Some(i) => if folder.entries[i].Dir? then Ok(folder.entries[i].folder) else Err(NotFound)
  }

  function Descend(folder: Folder, components: seq<Name>): (r: Result<Folder, ListingError>) {
    if components == [] then Ok(folder)
    else match Enter(folder, components[0])
      case Err(error) => Err(error)
      case Ok(child) => Descend(child, components[1..])
  }

  function Shown(mount: Folder, root: Path, components: seq<Name>, registry: Registry)
    : (r: Result<Folder, ListingError>)
  {
    match Descend(mount, components)
    case Err(error) => Err(error)
    case Ok(folder) =>
      if components != [] && !registry.mayBeVault(root + components) then Err(NotFound) else Ok(folder)
  }

  method ShownFolder(mount: Folder, root: Path, components: seq<Name>, registry: Registry)
    returns (r: Result<Folder, ListingError>)
    ensures r == Shown(mount, root, components, registry)
  {
    var target, folder := root, mount;
    var i := 0;
    assert components[0..] == components;
    while i < |components|
      invariant 0 <= i <= |components|
      invariant target == root + components[..i]
      invariant Descend(mount, components) == Descend(folder, components[i..])
    {
      assert components[i..][1..] == components[i + 1..];
      target := target + [components[i]];
      var next := Enter(folder, components[i]);
      if next.Err? {
        return Err(next.error);
      }
      folder := next.value;
      i := i + 1;
    }
    assert components[..i] == components;
    if components != [] && !registry.mayBeVault(target) {
      return Err(NotFound);
    }
    return Ok(folder);
  }

  // ----- Vaults -----

  /** Whether a resolved path exists below a folder. */
  predicate Exists(folder: Folder, path: Path) {
    path != [] ==>
      && folder.searchable
      && var i := IndexOf(folder.entries, path[0]);
         && i.Some?
         && (|path| > 1 ==> folder.entries[i.value].Dir? && Exists(folder.entries[i.value].folder, path[1..]))
  }

  predicate IsPresent(mount: Folder, root: Path, registry: Registry, path: Path) {
    if root <= path then Exists(mount, path[|root|..]) else registry.existsOutside(path)
  }

  function Present(mount: Folder, root: Path, registry: Registry, roots: seq<VaultRoot>): (r: seq<VaultRoot>) {
    if roots == [] then []
    else
      (if IsPresent(mount, root, registry, roots[0].path) then [roots[0]] else [])
      + Present(mount, root, registry, roots[1..])
  }

  /** `registered_vaults`: the Vaults whose folder is there. */
  function RegisteredVaults(mount: Folder, root: Path, registry: Registry): (r: seq<VaultRoot>) {
    if registry.roots.None? then [] else Present(mount, root, registry, registry.roots.value)
  }

  function VaultAt(vaults: seq<VaultRoot>, path: Path): (r: Option<VaultRoot>) {
    if vaults == [] then None
    else if vaults[0].path == path then Some(vaults[0])
    else VaultAt(vaults[1..], path)
  }

  predicate InsideSomeVault(roots: seq<VaultRoot>, target: Path) {
    exists i :: 0 <= i < |roots| && roots[i].path <= target
  }

  // ----- sorting by name -----

  predicate NameLess(a: Name, b: Name)
    decreases |a|
  {
    if b == [] then false
    else if a == [] then true
    else a[0] < b[0] || (a[0] == b[0] && NameLess(a[1..], b[1..]))
  }

  datatype Child = Child(name: Name, folder: Folder)

  function InsertChild(child: Child, sorted: seq<Child>): (r: seq<Child>)
    ensures |r| == |sorted| + 1
  {
    if sorted == [] || !NameLess(sorted[0].name, child.name) then [child] + sorted
    else [sorted[0]] + InsertChild(child, sorted[1..])
  }

  /** `sort_by` on the names, which are distinct within one folder. */
  function SortChildren(children: seq<Child>): (r: seq<Child>)
    ensures |r| == |children|
  {
    if children == [] then [] else InsertChild(children[0], SortChildren(children[1..]))
  }

  // ----- listing -----

  /** The subfolders a listing shows, in reading order. */
  function VisibleChildren(entries: seq<Entry>, at: Path, registry: Registry): (r: seq<Child>) {
    if entries == [] then []
    else
      (if IsVisible(entries[0]) && registry.mayBeVault(at + [entries[0].name])
       then [Child(entries[0].name, entries[0].folder)] else [])
      + VisibleChildren(entries[1..], at, registry)
  }

  function DirectNotes(entries: seq<Entry>): (n: nat) {
    if entries == [] then 0
    else (if entries[0].File? && IsMarkdown(entries[0].name) then 1 else 0) + DirectNotes(entries[1..])
  }

  function InvalidNames(entries: seq<Entry>): (n: nat) {
    if entries == [] then 0
    else (if entries[0].Dir? && !IsValid(entries[0].name) then 1 else 0) + InvalidNames(entries[1..])
  }

  function EntryPath(components: seq<Name>, name: Name): (r: Bytes) {
    if JoinSlash(components) == [] then name else JoinSlash(components) + [SLASH] + name
  }

  /** How a child is listed when nothing cuts its count short. */
  function ExactEntry(child: Child, components: seq<Name>, root: Path, vaults: seq<VaultRoot>): (r: FolderEntry) {
    FolderEntry(
      child.name, EntryPath(components, child.name), MarkdownCount(Notes(child.folder), false),
      VaultAt(vaults, root + components + [child.name]),
      child.folder.readable && HasVisible(child.folder.entries))
  }

  function ExactEntries(children: seq<Child>, components: seq<Name>, root: Path, vaults: seq<VaultRoot>)
    : (r: seq<FolderEntry>)
    ensures |r| == |children|
    ensures forall i :: 0 <= i < |r| ==> r[i] == ExactEntry(children[i], components, root, vaults)
  {
    seq(|children|, i requires 0 <= i < |children| => ExactEntry(children[i], components, root, vaults))
  }

  function ChildrenNotes(children: seq<Child>): (n: nat) {
    if children == [] then 0
    else ChildrenNotes(children[..|children| - 1]) + Notes(children[|children| - 1].folder)
  }

  function ChildrenWork(children: seq<Child>): (n: nat) {
    if children == [] then 0
    else ChildrenWork(children[..|children| - 1]) + Work(children[|children| - 1].folder)
  }

  /** The listing that nothing cuts short. */
  function ExactListing(
    folder: Folder, components: seq<Name>, root: Path, registry: Registry, vaults: seq<VaultRoot>)
    : (r: Listing)
  {
    var children := SortChildren(VisibleChildren(folder.entries, root + components, registry));
    Listing(
      true, JoinSlash(components), MarkdownCount(DirectNotes(folder.entries) + ChildrenNotes(children), false),
      VaultAt(vaults, root + components), ExactEntries(children, components, root, vaults),
      InvalidNames(folder.entries))
  }

  /** The listed folder, or why there is none. */
  function ListedFolder(mount: MountState, root: Path, relative: Bytes, registry: Registry)
    : (r: Result<Option<(seq<Name>, Folder)>, ListingError>)
  {
    match Parsed(relative)
    case Err(error) => Err(error)
    case Ok(components) =>
      match mount
      case Missing => Ok(None)
      case Forbidden => Err(Unreadable)
      case There(tree) =>
        match Shown(tree, root, components, registry)
        case Err(error) => Err(error)
        case Ok(folder) => if folder.readable then Ok(Some((components, folder))) else Err(Unreadable)
  }

  const ROOT_MISSING := Listing(false, [], MarkdownCount(0, false), None, [], 0)

  /** Some count in the listing was cut short. */
  predicate IsCut(listing: Listing) {
    exists i :: 0 <= i < |listing.folders| && listing.folders[i].markdown.atLeast
  }

  /** A listing whose counts may be cut is still right about everything else,
      and never above the exact one. */
  ghost predicate Approximates(listing: Listing, exact: Listing) {
    && |listing.folders| == |exact.folders|
    && listing.rootFound == exact.rootFound && listing.path == exact.path && listing.vault == exact.vault
    && listing.skippedInvalidNames == exact.skippedInvalidNames
    && listing.markdown.count <= exact.markdown.count && listing.markdown.atLeast == IsCut(listing)
    && (forall i :: 0 <= i < |listing.folders| ==> EntryApproximates(listing.folders[i], exact.folders[i]))
    && (!IsCut(listing) ==> listing == exact)
  }

  predicate EntryApproximates(entry: FolderEntry, exact: FolderEntry) {
    && entry.name == exact.name && entry.path == exact.path && entry.vault == exact.vault
    && entry.markdown.count <= exact.markdown.count
    && (exact.hasSubfolders ==> entry.hasSubfolders)
    && (!entry.markdown.atLeast ==> entry == exact)
  }

  lemma ChildrenSnoc(children: seq<Child>, i: nat)
    requires i < |children|
    ensures ChildrenNotes(children[..i + 1]) == ChildrenNotes(children[..i]) + Notes(children[i].folder)
    ensures ChildrenWork(children[..i + 1]) == ChildrenWork(children[..i]) + Work(children[i].folder)
  {
    assert children[..i + 1][..i] == children[..i];
  }

  /** The sorted children counted one after another against one deadline. */
  method CountChildren(
    children: seq<Child>, components: seq<Name>, root: Path, vaults: seq<VaultRoot>, cap: nat, clock: nat)
    returns (folders: seq<FolderEntry>, count: nat, atLeast: bool)
    ensures |folders| == |children|
    ensures forall i :: 0 <= i < |folders| ==>
              EntryApproximates(folders[i], ExactEntry(children[i], components, root, vaults))
    ensures forall i :: 0 <= i < |folders| ==> folders[i].markdown.count <= cap
    ensures count <= ChildrenNotes(children) && (!atLeast ==> count == ChildrenNotes(children))
    ensures atLeast <==> exists i :: 0 <= i < |folders| && folders[i].markdown.atLeast
    ensures clock >= ChildrenWork(children) && cap > ChildrenNotes(children) ==> !atLeast
  {
    hide Notes, Work, HasVisible, ChildrenNotes, ChildrenWork, VaultAt, EntryPath;
    folders, count, atLeast := [], 0, false;
    var left: nat := clock;
    var i := 0;
    NoChildren();
    assert children[..0] == [];
    while i < |children|
      invariant 0 <= i == |folders| <= |children|
      invariant forall k :: 0 <= k < i ==>
                  EntryApproximates(folders[k], ExactEntry(children[k], components, root, vaults))
      invariant forall k :: 0 <= k < i ==> folders[k].markdown.count <= cap
      invariant count <= ChildrenNotes(children[..i]) && (!atLeast ==> count == ChildrenNotes(children[..i]))
      invariant atLeast <==> exists k :: 0 <= k < i && folders[k].markdown.atLeast
      invariant clock >= ChildrenWork(children) && cap > ChildrenNotes(children) ==>
                  !atLeast && left >= clock - ChildrenWork(children[..i])
    {
      var child := children[i];
      ChildrenSnoc(children, i);
      ChildrenGrow(children, i + 1);
      ghost var before := left;
      var tree: TreeCount;
      tree, left := CountTree(child.folder, cap, left);
      count := count + tree.count;
      atLeast := atLeast || tree.atLeast;
      folders := folders + [FolderEntry(
        child.name, EntryPath(components, child.name), MarkdownCount(tree.count, tree.atLeast),
        VaultAt(vaults, root + components + [child.name]), tree.hasSubfolders)];
      i := i + 1;
    }
    assert children[..i] == children;
  }

  lemma NoChildren()
    ensures ChildrenNotes([]) == 0 && ChildrenWork([]) == 0
  {
  }

  lemma {:induction false} ChildrenGrow(children: seq<Child>, i: nat)
    requires i <= |children|
    ensures ChildrenNotes(children[..i]) <= ChildrenNotes(children)
    ensures ChildrenWork(children[..i]) <= ChildrenWork(children)
    decreases |children|
  {
    hide Notes, Work;
    if i == |children| {
      assert children[..i] == children;
    } else {
      assert children[..|children| - 1][..i] == children[..i];
      ChildrenGrow(children[..|children| - 1], i);
    }
  }

  /** What a listing of a folder that was found may say: everything as in the
      exact listing but what time or cap cut short, and with enough of both the
      exact listing itself. */
  ghost predicate ListsFolder(
    listing: Listing, tree: Folder, components: seq<Name>, folder: Folder, root: Path, registry: Registry,
    cap: nat, clock: nat)
  {
    var exact := ExactListing(folder, components, root, registry, RegisteredVaults(tree, root, registry));
    && Approximates(listing, exact)
    && (forall i :: 0 <= i < |listing.folders| ==> listing.folders[i].markdown.count <= cap)
    && (&& clock >= ChildrenWork(SortChildren(VisibleChildren(folder.entries, root + components, registry)))
        && cap > exact.markdown.count
        ==> listing == exact)
  }

  /** What may come back from listing the folder at a relative path. */
  ghost predicate IsListing(
    r: Result<Listing, ListingError>, mount: MountState, root: Path, relative: Bytes, registry: Registry,
    cap: nat, clock: nat)
  {
    match ListedFolder(mount, root, relative, registry)
    case Err(error) => r == Err(error)
    case Ok(found) =>
      if found.None? then r == Ok(ROOT_MISSING)
      else
        && mount.There?
        && r.Ok?
        && ListsFolder(r.value, mount.tree, found.value.0, found.value.1, root, registry, cap, clock)
  }

  method ListFolders(mount: MountState, root: Path, relative: Bytes, registry: Registry, cap: nat, clock: nat)
    returns (r: Result<Listing, ListingError>)
    ensures IsListing(r, mount, root, relative, registry, cap, clock)
  {
    hide IsMarkdown, IsVisible, IsValid, Work, SortChildren, VaultAt, Notes, ChildrenNotes, ChildrenWork;
    hide RegisteredVaults, EntryApproximates, ExactEntry, DirectNotes, InvalidNames, VisibleChildren, ListsFolder;
    hide Parsed, Shown, JoinSlash;
    var parsed := ParseRelative(relative);
    if parsed.Err? {
      return Err(parsed.error);
    }
    var components := parsed.value;
    if mount.Missing? {
      return Ok(ROOT_MISSING);
    }
    if mount.Forbidden? {
      return Err(Unreadable);
    }
    var found := ShownFolder(mount.tree, root, components, registry);
    if found.Err? {
      return Err(found.error);
    }
    var folder := found.value;
    var vaults := RegisteredVaults(mount.tree, root, registry);
    if !folder.readable {
      return Err(Unreadable);
    }
    var directMarkdown: nat, skipped: nat, children: seq<Child> := 0, 0, [];
    var entries := folder.entries;
    var at := root + components;
    var i := 0;
    assert entries[0..] == entries;
    while i < |entries|
      invariant 0 <= i <= |entries|
      invariant directMarkdown + DirectNotes(entries[i..]) == DirectNotes(entries)
      invariant skipped + InvalidNames(entries[i..]) == InvalidNames(entries)
      invariant children + VisibleChildren(entries[i..], at, registry) == VisibleChildren(entries, at, registry)
    {
      TakeEntry(entries, i, at, registry);
      var entry := entries[i];
      if entry.File? {
        if IsMarkdown(entry.name) {
          directMarkdown := directMarkdown + 1;
        }
      } else if entry.Dir? {
        if !IsValid(entry.name) {
          skipped := skipped + 1;
        } else if !IsHidden(entry.name) && registry.mayBeVault(at + [entry.name]) {
          children := children + [Child(entry.name, entry.folder)];
        }
      }
      i := i + 1;
    }
    NothingLeft(entries, at, registry);
    assert children + [] == children;
    var sorted := SortChildren(children);
    var folders, count, atLeast := CountChildren(sorted, components, root, vaults, cap, clock);
    var listing := Listing(
      true, JoinSlash(components), MarkdownCount(directMarkdown + count, atLeast),
      VaultAt(vaults, at), folders, skipped);
    CountedFits(listing, mount.tree, components, folder, root, registry, cap, clock, sorted, count);
    return Ok(listing);
  }

  /** The listing put together from the children's counts fits. */
  lemma CountedFits(
    listing: Listing, tree: Folder, components: seq<Name>, folder: Folder, root: Path, registry: Registry,
    cap: nat, clock: nat, children: seq<Child>, count: nat)
    requires children == SortChildren(VisibleChildren(folder.entries, root + components, registry))
    requires var vaults := RegisteredVaults(tree, root, registry);
             && listing.rootFound && listing.path == JoinSlash(components)
             && listing.vault == VaultAt(vaults, root + components)
             && listing.skippedInvalidNames == InvalidNames(folder.entries)
             && listing.markdown.count == DirectNotes(folder.entries) + count
             && |listing.folders| == |children|
             && (forall i :: 0 <= i < |children| ==>
                   EntryApproximates(listing.folders[i], ExactEntry(children[i], components, root, vaults)))
             && (forall i :: 0 <= i < |children| ==> listing.folders[i].markdown.count <= cap)
    requires count <= ChildrenNotes(children) && (!listing.markdown.atLeast ==> count == ChildrenNotes(children))
    requires listing.markdown.atLeast == IsCut(listing)
    requires clock >= ChildrenWork(children) && cap > ChildrenNotes(children) ==> !listing.markdown.atLeast
    ensures ListsFolder(listing, tree, components, folder, root, registry, cap, clock)
  {
    hide SortChildren, VisibleChildren, VaultAt, ChildrenNotes, ChildrenWork, RegisteredVaults, EntryApproximates;
    hide ExactEntry, DirectNotes, InvalidNames;
    UncutIsExact(listing, ExactListing(folder, components, root, registry, RegisteredVaults(tree, root, registry)));
  }

  lemma UncutIsExact(listing: Listing, exact: Listing)
    requires |listing.folders| == |exact.folders|
    requires forall i :: 0 <= i < |listing.folders| ==> EntryApproximates(listing.folders[i], exact.folders[i])
    ensures !IsCut(listing) ==> listing.folders == exact.folders
  {
    if !IsCut(listing) {
      assert forall i :: 0 <= i < |listing.folders| ==>
        EntryApproximates(listing.folders[i], exact.folders[i]) && listing.folders[i] == exact.folders[i];
    }
  }

  lemma NothingLeft(entries: seq<Entry>, at: Path, registry: Registry)
    ensures DirectNotes(entries[|entries|..]) == InvalidNames(entries[|entries|..]) == 0
    ensures VisibleChildren(entries[|entries|..], at, registry) == []
  {
  }

  lemma TakeEntry(entries: seq<Entry>, i: nat, at: Path, registry: Registry)
    requires i < |entries|
    ensures DirectNotes(entries[i..])
            == (if entries[i].File? && IsMarkdown(entries[i].name) then 1 else 0) + DirectNotes(entries[i + 1..])
    ensures InvalidNames(entries[i..])
            == (if entries[i].Dir? && !IsValid(entries[i].name) then 1 else 0) + InvalidNames(entries[i + 1..])
    ensures VisibleChildren(entries[i..], at, registry)
            == (if entries[i].Dir? && IsValid(entries[i].name) && !IsHidden(entries[i].name)
                   && registry.mayBeVault(at + [entries[i].name])
                then [Child(entries[i].name, entries[i].folder)] else [])
               + VisibleChildren(entries[i + 1..], at, registry)
  {
    hide IsMarkdown, IsValid;
    assert entries[i..][1..] == entries[i + 1..];
  }

  /** `\a` */
  const BACKSLASHED: Name := [92, 97]

  /** A folder whose name starts with a backslash is listed under a path that is
      refused when it is sent back. */
  lemma ListedPathCanBeRefused(root: Path, registry: Registry)
    requires registry.mayBeVault(root + [] + [BACKSLASHED])
    ensures var mount := Folder(true, true, true, [Dir(BACKSLASHED, Folder(true, true, true, []))]);
            var listing := ExactListing(mount, [], root, registry, []);
            && |listing.folders| == 1
            && listing.folders[0].path == BACKSLASHED
            && Parsed(listing.folders[0].path) == Err(OutsideRoot)
  {
    var child := Folder(true, true, true, []);
    var entries := [Dir(BACKSLASHED, child)];
    assert entries[1..] == [];
    assert BACKSLASHED[1..] == [97] && BACKSLASHED[1..][1..] == [];
    assert CharLen(BACKSLASHED) == 1 && CharLen(BACKSLASHED[1..]) == 1;
    assert IsValid(BACKSLASHED);
    hide IsValid, Notes;
    assert VisibleChildren(entries, root + [], registry) == [Child(BACKSLASHED, child)];
    assert SortChildren([Child(BACKSLASHED, child)]) == [Child(BACKSLASHED, child)];
  }
}

/** What a listing says of each child, entry by entry, and when a folder may be
    made (src/folder_listing.rs:208-264, 290-425, 439-469). */
module FolderLaws {
  import opened Prelude
  import opened Utf8
  import opened Saturating
  import opened Counting
  import opened FolderPaths
  import opened FolderTree
  import opened FolderListing
  import opened FolderCreation

  // ----- a child's path -----

  lemma {:induction false} JoinSnoc(components: seq<Name>, name: Name)
    requires components != []
    ensures JoinSlash(components + [name]) == JoinSlash(components) + [SLASH] + name
  {
    var all := components + [name];
    assert all[1..] == components[1..] + [name];
    if |components| == 1 {
      assert all[1..] == [name];
    } else {
      JoinSnoc(components[1..], name);
    }
  }

  lemma JoinIsNotEmpty(components: seq<Name>)
    requires components != [] && components[0] != []
    ensures JoinSlash(components) != []
  {
  }

  /** The path a child is listed under parses back to the components of its folder
      and its own name, unless the whole begins with a backslash. */
  lemma EntryPathReparses(components: seq<Name>, name: Name)
    requires IsComponent(name) && forall i :: 0 <= i < |components| ==> IsComponent(components[i])
    ensures var all := components + [name];
            Parsed(EntryPath(components, name)) == if StartsWithBackslash(all[0]) then Err(OutsideRoot) else Ok(all)
  {
    hide Parsed;
    var all := components + [name];
    if components == [] {
      assert all == [name];
    } else {
      assert IsComponent(components[0]);
      JoinIsNotEmpty(components);
      JoinSnoc(components, name);
    }
    assert EntryPath(components, name) == JoinSlash(all);
    ReparseIff(all);
  }

  // ----- which children -----

  /** Exactly the folders with a valid name that does not begin with a dot, and
      that may be Vaults as far as instance state goes. */
  lemma {:induction false} ChildIsListedIff(entries: seq<Entry>, at: Path, registry: Registry, child: Child)
    ensures child in VisibleChildren(entries, at, registry)
            <==> && Dir(child.name, child.folder) in entries
                 && IsValid(child.name) && !(child.name != [] && child.name[0] == DOT)
                 && registry.mayBeVault(at + [child.name])
  {
    hide IsValid;
    if entries != [] {
      ChildIsListedIff(entries[1..], at, registry, child);
      assert entries == [entries[0]] + entries[1..];
    }
  }

  lemma {:induction false} DescendSnoc(folder: Folder, components: seq<Name>, name: Name)
    ensures Descend(folder, components + [name])
            == match Descend(folder, components)
               case Err(error) => Err(error)
               case Ok(parent) => Enter(parent, name)
    decreases |components|
  {
    hide Enter;
    var all := components + [name];
    if components == [] {
      assert all[1..] == [];
    } else {
      assert all[1..] == components[1..] + [name];
      if Enter(folder, components[0]).Ok? {
        DescendSnoc(Enter(folder, components[0]).value, components[1..], name);
      }
    }
  }

  /** Entry `k` is the first of its name. */
  predicate FirstNamed(entries: seq<Entry>, k: nat, name: Name) {
    k < |entries| && entries[k].name == name && forall j :: 0 <= j < k ==> entries[j].name != name
  }

  /** One component further down: an error stays what it was; a hidden name is not
      found, wherever it is; a folder that cannot be searched is unreadable; else
      the entry of that name is entered if it is a folder, and not found if not. */
  lemma DescendStep(folder: Folder, components: seq<Name>, name: Name)
    ensures Descend(folder, []) == Ok(folder)
    ensures Descend(folder, components).Err? ==> Descend(folder, components + [name]) == Descend(folder, components)
    ensures Descend(folder, components).Ok? ==>
              var parent, r := Descend(folder, components).value, Descend(folder, components + [name]);
              && (name != [] && name[0] == 46 ==> r == Err(NotFound))
              && (!(name != [] && name[0] == 46) && !parent.searchable ==> r == Err(Unreadable))
              && (!(name != [] && name[0] == 46) && parent.searchable ==>
                    && (forall k: nat :: FirstNamed(parent.entries, k, name) ==>
                          r == if parent.entries[k].Dir? then Ok(parent.entries[k].folder) else Err(NotFound))
                    && ((forall k :: 0 <= k < |parent.entries| ==> parent.entries[k].name != name) ==>
                          r == Err(NotFound)))
  {
    DescendSnoc(folder, components, name);
    if Descend(folder, components).Ok? {
      var entries := Descend(folder, components).value.entries;
      forall k: nat | FirstNamed(entries, k, name) ensures IndexOf(entries, name) == Some(k) {
        FirstIsIndex(entries, k, name);
      }
      hide Descend;
    }
  }

  lemma {:induction false} FirstIsIndex(entries: seq<Entry>, k: nat, name: Name)
    requires FirstNamed(entries, k, name)
    ensures IndexOf(entries, name) == Some(k)
  {
    if k > 0 {
      assert forall j :: 0 <= j < |entries| - 1 ==> entries[1..][j] == entries[j + 1];
      FirstIsIndex(entries[1..], k - 1, name);
    }
  }

  ghost predicate DistinctNames(entries: seq<Entry>) {
    forall i, j :: 0 <= i < j < |entries| ==> entries[i].name != entries[j].name
  }

  /** A listed child can be listed in its turn: the path reported for it leads to
      just that folder. */
  lemma ListedPathOpensChild(mount: Folder, root: Path, components: seq<Name>, registry: Registry, child: Child)
    requires forall i :: 0 <= i < |components| ==> IsComponent(components[i])
    requires Shown(mount, root, components, registry).Ok?
    requires var folder := Shown(mount, root, components, registry).value;
             && folder.searchable && DistinctNames(folder.entries)
             && child in VisibleChildren(folder.entries, root + components, registry)
    requires IsComponent(child.name) && !StartsWithBackslash((components + [child.name])[0])
    ensures Parsed(EntryPath(components, child.name)) == Ok(components + [child.name])
    ensures Shown(mount, root, components + [child.name], registry) == Ok(child.folder)
  {
    hide IsValid, Parsed, EntryPath, VisibleChildren, IsComponent;
    EntryPathReparses(components, child.name);
    var folder := Shown(mount, root, components, registry).value;
    ChildIsListedIff(folder.entries, root + components, registry, child);
    DescendSnoc(mount, components, child.name);
    hide Descend;
    var i :| 0 <= i < |folder.entries| && folder.entries[i] == Dir(child.name, child.folder);
    assert root + (components + [child.name]) == root + components + [child.name];
  }

  // ----- order -----

  /** The names agree up to `p`, and there the first has a smaller byte, or ends. */
  predicate ComesBefore(a: Name, b: Name, p: nat) {
    && p <= |a| && p < |b|
    && (forall i :: 0 <= i < p ==> a[i] == b[i])
    && (p == |a| || a[p] < b[p])
  }

  lemma ComesBeforeTail(a: Name, b: Name, p: nat)
    requires a != [] && b != [] && a[0] == b[0]
    ensures ComesBefore(a, b, p + 1) <==> ComesBefore(a[1..], b[1..], p)
  {
    if ComesBefore(a, b, p + 1) {
      assert forall i :: 0 <= i < p ==> a[1..][i] == a[i + 1] && b[1..][i] == b[i + 1];
    }
  }

  /** Names are compared byte by byte. */
  lemma {:induction false} NameLessIff(a: Name, b: Name)
    ensures NameLess(a, b) <==> exists p: nat :: ComesBefore(a, b, p)
  {
    if a == [] || b == [] || a[0] != b[0] {
      assert NameLess(a, b) ==> ComesBefore(a, b, 0);
    } else {
      NameLessIff(a[1..], b[1..]);
      if NameLess(a[1..], b[1..]) {
        var p: nat :| ComesBefore(a[1..], b[1..], p);
        ComesBeforeTail(a, b, p);
      }
      if exists p: nat :: ComesBefore(a, b, p) {
        var p: nat :| ComesBefore(a, b, p);
        ComesBeforeTail(a, b, p - 1);
      }
    }
  }

  // ----- notes -----

  predicate IsNote(entry: Entry) {
    entry.File? && |entry.name| > 3 && entry.name[|entry.name| - 3..] == [46, 109, 100]
  }

  function NoteFlags(entries: seq<Entry>): (r: seq<bool>) {
    seq(|entries|, i requires 0 <= i < |entries| => IsNote(entries[i]))
  }

  function InvalidFlags(entries: seq<Entry>): (r: seq<bool>) {
    seq(|entries|, i requires 0 <= i < |entries| => entries[i].Dir? && !IsValid(entries[i].name))
  }

  /** A folder's own notes are its files whose names end in `.md`, and the names
      skipped those of its folders that are not valid. */
  lemma {:induction false} DirectAre(entries: seq<Entry>)
    ensures DirectNotes(entries) == HowMany(NoteFlags(entries))
    ensures InvalidNames(entries) == HowMany(InvalidFlags(entries))
  {
    hide HowMany, IsValid;
    if entries == [] {
      assert NoteFlags(entries) == [] && InvalidFlags(entries) == [];
      HowManyCons(true, []);
    } else {
      DirectAre(entries[1..]);
      assert NoteFlags(entries) == [IsNote(entries[0])] + NoteFlags(entries[1..]);
      HowManyCons(IsNote(entries[0]), NoteFlags(entries[1..]));
      var invalid := entries[0].Dir? && !IsValid(entries[0].name);
      assert InvalidFlags(entries) == [invalid] + InvalidFlags(entries[1..]);
      HowManyCons(invalid, InvalidFlags(entries[1..]));
    }
  }

  function VisibleNotes(entries: seq<Entry>): (r: seq<nat>) {
    seq(|entries|, i requires 0 <= i < |entries| =>
      if entries[i].Dir? && IsValid(entries[i].name) && !(entries[i].name != [] && entries[i].name[0] == DOT)
      then Notes(entries[i].folder) else 0)
  }

  /** All notes under a readable folder are its own and those under its visible
      folders; under one that cannot be read there are none. */
  lemma NotesAre(folder: Folder)
    ensures folder.readable ==>
              Notes(folder) == HowMany(NoteFlags(folder.entries)) + Sum(VisibleNotes(folder.entries))
    ensures !folder.readable ==> Notes(folder) == 0
  {
    EntriesNotesAre(folder.entries);
  }

  lemma {:induction false} EntriesNotesAre(entries: seq<Entry>)
    ensures EntriesNotes(entries) == HowMany(NoteFlags(entries)) + Sum(VisibleNotes(entries))
  {
    hide HowMany, IsValid, Notes, Sum;
    if entries == [] {
      assert NoteFlags(entries) == [] && VisibleNotes(entries) == [];
      HowManyCons(true, []);
      SumCons(0, []);
    } else {
      EntriesNotesAre(entries[1..]);
      assert NoteFlags(entries) == [IsNote(entries[0])] + NoteFlags(entries[1..]);
      HowManyCons(IsNote(entries[0]), NoteFlags(entries[1..]));
      assert VisibleNotes(entries) == [VisibleNotes(entries)[0]] + VisibleNotes(entries[1..]);
      SumCons(VisibleNotes(entries)[0], VisibleNotes(entries[1..]));
    }
  }

  // ----- Vaults -----

  /** A folder is listed as a Vault if some Vault found has its path; the first
      such one is named. */
  lemma {:induction false} VaultAtIs(vaults: seq<VaultRoot>, path: Path)
    ensures VaultAt(vaults, path).None? <==> forall i :: 0 <= i < |vaults| ==> vaults[i].path != path
    ensures forall i :: && 0 <= i < |vaults| && vaults[i].path == path
                        && (forall j :: 0 <= j < i ==> vaults[j].path != path)
                        ==> VaultAt(vaults, path) == Some(vaults[i])
  {
    if vaults != [] && vaults[0].path != path {
      var rest := vaults[1..];
      VaultAtIs(rest, path);
      assert forall i :: 0 <= i < |rest| ==> rest[i] == vaults[i + 1];
      forall i | && 0 <= i < |vaults| && vaults[i].path == path
                 && (forall j :: 0 <= j < i ==> vaults[j].path != path)
        ensures VaultAt(vaults, path) == Some(vaults[i])
      {
        assert vaults[i] == rest[i - 1];
        assert forall j :: 0 <= j < i - 1 ==> rest[j] == vaults[j + 1];
      }
    }
  }

  /** The Vaults found are those registered whose folder is there, inside the mount
      or outside. */
  lemma VaultIsFoundIff(mount: Folder, root: Path, registry: Registry, vault: VaultRoot)
    ensures vault in RegisteredVaults(mount, root, registry)
            <==> && registry.roots.Some? && vault in registry.roots.value
                 && (if root <= vault.path then Exists(mount, vault.path[|root|..])
                     else registry.existsOutside(vault.path))
  {
    hide Exists;
    if registry.roots.Some? { PresentIff(mount, root, registry, registry.roots.value, vault); }
  }

  lemma {:induction false} PresentIff(
    mount: Folder, root: Path, registry: Registry, roots: seq<VaultRoot>, vault: VaultRoot)
    ensures vault in Present(mount, root, registry, roots)
            <==> vault in roots && IsPresent(mount, root, registry, vault.path)
  {
    hide IsPresent;
    if roots != [] {
      PresentIff(mount, root, registry, roots[1..], vault);
      assert roots == [roots[0]] + roots[1..];
    }
  }

  // ----- making a folder -----

  /** A folder is made exactly if its parent is shown, can be entered and written,
      has no entry of that name, and the name, the Vault registry and the system
      have nothing against it. */
  lemma CreationSucceedsIff(
    state: MountState, root: Path, parent: Bytes, name: Name, registry: Registry, fault: Option<MkdirFault>)
    ensures Admitted(state, root, parent, name, registry, fault).Ok?
            <==> && state.There? && Parsed(parent).Ok? && IsPlainName(name)
                 && Shown(state.tree, root, Parsed(parent).value, registry).Ok?
                 && var folder := Shown(state.tree, root, Parsed(parent).value, registry).value;
                    && folder.searchable && folder.writable
                    && (forall i :: 0 <= i < |folder.entries| ==> folder.entries[i].name != name)
                    && registry.roots.Some?
                    && (forall vault :: vault in registry.roots.value ==>
                          !(vault.path <= root + Parsed(parent).value + [name]))
                    && registry.mayBeVault(root + Parsed(parent).value + [name]) && fault.None?
    ensures Admitted(state, root, parent, name, registry, fault).Ok? ==>
              Admitted(state, root, parent, name, registry, fault).value == Parsed(parent).value
  {
    hide Parsed, IsPlainName, Shown;
  }

  /** What a refused creation answers, where only the directory itself stands
      against it: a name in use is told before a parent that cannot be written. */
  lemma TakenNameIsTold(
    tree: Folder, root: Path, parent: Bytes, name: Name, registry: Registry, fault: Option<MkdirFault>)
    requires Parsed(parent).Ok? && IsPlainName(name) && registry.roots.Some?
    requires Shown(tree, root, Parsed(parent).value, registry).Ok?
    requires var target := root + Parsed(parent).value + [name];
             !InsideSomeVault(registry.roots.value, target) && registry.mayBeVault(target)
    ensures var folder := Shown(tree, root, Parsed(parent).value, registry).value;
            var r := Admitted(There(tree), root, parent, name, registry, fault);
            && (r == Err(NameTaken) <==>
                  folder.searchable && exists i :: 0 <= i < |folder.entries| && folder.entries[i].name == name)
            && (!folder.searchable ==> r == Err(NotWritable))
            && (r.Err? && r != Err(NameTaken) && fault.None? ==>
                  r == Err(NotWritable) && !(folder.searchable && folder.writable))
  {
    hide Parsed, IsPlainName, Shown, InsideSomeVault;
  }

  /** The first reason against a folder is the one that is told: the parent's path,
      the name, the mount, the parent itself, the registry, a Vault around it, what
      instance state says, the directory. */
  lemma FirstReasonIsTold(
    state: MountState, root: Path, parent: Bytes, name: Name, registry: Registry, fault: Option<MkdirFault>)
    ensures var r := Admitted(state, root, parent, name, registry, fault);
            && (Parsed(parent) == Err(OutsideRoot) ==> r == Err(ParentOutsideRoot))
            && (Parsed(parent) == Err(NotFound) ==> r == Err(ParentNotFound))
            && (Parsed(parent).Ok? && !IsPlainName(name) ==> r == Err(InvalidName))
            && (Parsed(parent).Ok? && IsPlainName(name) ==>
                  && (state.Missing? ==> r == Err(MountNotFound))
                  && (state.Forbidden? ==> r == Err(NotWritable))
                  && (state.There? ==>
                        var shown, target := Shown(state.tree, root, Parsed(parent).value, registry),
                                             root + Parsed(parent).value + [name];
                        && (shown == Err(NotFound) ==> r == Err(ParentNotFound))
                        && (shown == Err(Unreadable) ==> r == Err(NotWritable))
                        && (shown.Ok? && registry.roots.None? ==> r == Err(VaultsUnknown))
                        && ((shown.Ok? && registry.roots.Some?
                             && exists vault :: vault in registry.roots.value && vault.path <= target) ==>
                              r == Err(InsideVault))
                        && ((shown.Ok? && registry.roots.Some?
                             && !(exists vault :: vault in registry.roots.value && vault.path <= target)
                             && !registry.mayBeVault(target)) ==> r == Err(InvalidName))))
  {
    hide Parsed, IsPlainName, Shown;
  }

  /** What was made can be used at once: its path leads to an empty folder that can
      be read, searched and written. */
  lemma NewFolderIsUsable(
    tree: Folder, root: Path, parent: Bytes, name: Name, registry: Registry, fault: Option<MkdirFault>, position: nat)
    requires Admitted(There(tree), root, parent, name, registry, fault).Ok?
    ensures var components := Admitted(There(tree), root, parent, name, registry, fault).value;
            var after := AddAt(tree, components, position, Dir(name, EMPTY_FOLDER));
            Shown(after, root, components + [name], registry) == Ok(Folder(true, true, true, []))
  {
    hide IsPlainName, Parsed, AddAt, Exists, Descend, Enter, InsertAt;
    CreationIsContained(tree, root, parent, name, registry, fault, position);
    var components := Admitted(There(tree), root, parent, name, registry, fault).value;
    var after := AddAt(tree, components, position, Dir(name, EMPTY_FOLDER));
    DescendAfter(tree, components, position, name);
    DescendSnoc(after, components, name);
    PlainIsNotHidden(name);
    EnterNew(Descend(tree, components).value, position, name);
    assert root + (components + [name]) == root + components + [name];
  }

  lemma EnterNew(below: Folder, position: nat, name: Name)
    requires below.searchable && IndexOf(below.entries, name).None? && !IsHidden(name)
    ensures Enter(below.(entries := InsertAt(below.entries, position, Dir(name, EMPTY_FOLDER))), name)
            == Ok(Folder(true, true, true, []))
  {
    hide InsertAt;
    FindInserted(below.entries, position, Dir(name, EMPTY_FOLDER), name);
  }

  lemma PlainIsNotHidden(name: Name)
    requires IsPlainName(name)
    ensures !IsHidden(name)
  {
  }

  // ----- names and paths -----

  lemma KeepLast(parts: seq<Bytes>)
    requires parts != []
    ensures var before, last := KeepParts(parts[..|parts| - 1]), parts[|parts| - 1];
            KeepParts(parts)
            == if before.Err? || last == [] || last == [46] then before
               else if last == [46, 46] then Err(OutsideRoot)
               else if 0 in last then Err(NotFound) else Ok(before.value + [last])
  {
  }

  lemma {:induction false} KeepJoin(a: seq<Bytes>, b: seq<Bytes>)
    ensures KeepParts(a + b)
            == if KeepParts(a).Err? then KeepParts(a)
               else if KeepParts(b).Err? then KeepParts(b)
               else Ok(KeepParts(a).value + KeepParts(b).value)
    decreases |b|
  {
    if b == [] {
      assert a + b == a;
      NothingKept();
      if KeepParts(a).Ok? { assert KeepParts(a).value + [] == KeepParts(a).value; }
    } else {
      var n := |b| - 1;
      hide KeepParts;
      KeepJoin(a, b[..n]);
      assert a + b[..n + 1] == a + b && b[..n + 1] == b;
      assert (a + b)[..|a| + n] == a + b[..n];
      KeepLast(a + b);
      KeepLast(b);
      if KeepParts(a).Ok? && KeepParts(b[..n]).Ok? {
        assert KeepParts(a).value + (KeepParts(b[..n]).value + [b[n]])
            == KeepParts(a).value + KeepParts(b[..n]).value + [b[n]];
      }
    }
  }

  lemma KeepOne(part: Bytes)
    ensures KeepParts([part])
            == if part == [] || part == [46] then Ok([])
               else if part == [46, 46] then Err(OutsideRoot)
               else if 0 in part then Err(NotFound) else Ok([part])
  {
    assert [part][..0] == [];
    NothingKept();
    var none: seq<Name> := [];
    assert none + [part] == [part];
  }

  /** Of a path's parts those that are empty or `.` are passed over, `..` leaves
      the root, a NUL byte is found nowhere, the others are kept in order; the first
      that is refused decides. `before` is what comes before the part that does. */
  lemma PartsAreTaken(relative: Bytes, before: seq<Bytes>, part: Bytes, after: seq<Bytes>)
    requires SplitSlash(relative) == before + [part] + after && KeepParts(before).Ok?
    requires !(relative != [] && (relative[0] == 47 || relative[0] == 92))
    ensures part == [46, 46] ==> Parsed(relative) == Err(OutsideRoot)
    ensures part != [46, 46] && 0 in part ==> Parsed(relative) == Err(NotFound)
    ensures part == [] || part == [46] ==> Parsed(relative) == KeepParts(before + after)
    ensures part != [] && part != [46] && part != [46, 46] && 0 !in part ==>
              Parsed(relative)
              == match KeepParts(after)
                 case Err(error) => Err(error)
                 case Ok(rest) => Ok(KeepParts(before).value + [part] + rest)
  {
    hide KeepParts, SplitSlash;
    KeepOne(part);
    KeepJoin(before, [part]);
    KeepJoin(before + [part], after);
    KeepJoin(before, after);
    if part == [] || part == [46] { assert KeepParts(before).value + [] == KeepParts(before).value; }
  }

  /** What a path is read as: nothing of it is empty, `.`, `..`, or holds a slash
      or a NUL byte. */
  lemma ParsedAreNames(relative: Bytes)
    requires Parsed(relative).Ok?
    ensures forall i :: 0 <= i < |Parsed(relative).value| ==>
              var part := Parsed(relative).value[i];
              part != [] && part != [46] && part != [46, 46] && 47 !in part && 0 !in part
    ensures !(relative != [] && (relative[0] == 47 || relative[0] == 92))
  {
    hide KeepParts, SplitSlash;
    ParsedAreComponents(relative);
  }

  /** A name that may be created: up to 255 bytes, at least one, no white space at
      either end, no dot in front, and neither slashes nor control characters. */
  lemma PlainNameIff(name: Name)
    ensures IsPlainName(name)
            <==> && 0 < |name| <= 255 && WhiteHead(name) == 0 && WhiteTail(name) == 0 && name[0] != 46
                 && 47 !in name && 92 !in name
                 && (forall i :: 0 <= i < |name| ==> name[i] >= 0x20 && name[i] != 0x7F)
                 && (forall i :: 0 <= i < |name| - 1 ==> !(name[i] == 0xC2 && 0x80 <= name[i + 1] < 0xA0))
  {
    hide WhiteHead, WhiteTail, IsValid;
    TrimmedIff(name);
    hide Trim;
    if IsPlainName(name) {
      assert forall i :: 0 <= i < |name| ==> !ControlAt(name, i);
    }
  }

  lemma TrimmedIff(s: Bytes)
    ensures Trim(s) == s <==> WhiteHead(s) == 0 && WhiteTail(s) == 0
  {
    hide WhiteHead, WhiteTail, IsValid;
  }

  /** A child is listed as having subfolders exactly if listing it would show one,
      whatever instance state says, and it can be read. */
  lemma SubfoldersAreListed(
    child: Child, components: seq<Name>, root: Path, vaults: seq<VaultRoot>, at: Path, registry: Registry)
    ensures ExactEntry(child, components, root, vaults).hasSubfolders
            <==> child.folder.readable
                 && exists name, below :: && Dir(name, below) in child.folder.entries && IsValid(name)
                                          && !(name != [] && name[0] == 46)
    ensures child.folder.readable && VisibleChildren(child.folder.entries, at, registry) != [] ==>
              ExactEntry(child, components, root, vaults).hasSubfolders
  {
    hide IsValid, Notes, VaultAt, EntryPath, VisibleChildren;
    var entries := child.folder.entries;
    if exists name, below :: Dir(name, below) in entries && IsValid(name) && !(name != [] && name[0] == 46) {
      var name, below :| Dir(name, below) in entries && IsValid(name) && !(name != [] && name[0] == 46);
      var i :| 0 <= i < |entries| && entries[i] == Dir(name, below);
      assert IsVisible(entries[i]);
    }
    if HasVisible(entries) {
      var i :| 0 <= i < |entries| && IsVisible(entries[i]);
      assert Dir(entries[i].name, entries[i].folder) in entries;
    }
    if VisibleChildren(entries, at, registry) != [] {
      var shown := VisibleChildren(entries, at, registry)[0];
      ChildIsListedIff(entries, at, registry, shown);
    }
  }
}

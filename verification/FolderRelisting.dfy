/** An exact listing of the parent after a creation is the earlier one with the
    returned entry put in its sorted place (src/folder_listing.rs:290-374). */
module FolderRelisting {
  import opened Prelude
  import opened Utf8
  import opened FolderPaths
  import opened FolderTree
  import opened FolderListing
  import opened FolderCreation

  // ----- the order on names -----

  lemma {:induction false} NameLessIsTotal(a: Name, b: Name)
    ensures a == b || NameLess(a, b) || NameLess(b, a)
    ensures !(NameLess(a, b) && NameLess(b, a))
    decreases |a|
  {
    if a != [] && b != [] {
      NameLessIsTotal(a[1..], b[1..]);
      if a[0] == b[0] && a[1..] == b[1..] { assert a == [a[0]] + a[1..] == b; }
    }
  }

  lemma {:induction false} NameLessIsTransitive(a: Name, b: Name, c: Name)
    requires NameLess(a, b) && NameLess(b, c)
    ensures NameLess(a, c)
    decreases |a|
  {
    if a != [] { if a[0] == b[0] == c[0] { NameLessIsTransitive(a[1..], b[1..], c[1..]); } }
  }

  /** `a` may come before `b`. */
  predicate InOrder(a: Child, b: Child) {
    !NameLess(b.name, a.name)
  }

  lemma InOrderIsTransitive(a: Child, b: Child, c: Child)
    requires InOrder(a, b) && InOrder(b, c)
    ensures InOrder(a, c)
  {
    NameLessIsTotal(a.name, b.name);
    NameLessIsTotal(b.name, c.name);
    if NameLess(c.name, a.name) {
      if NameLess(a.name, b.name) { NameLessIsTransitive(c.name, a.name, b.name); }
    }
  }

  ghost predicate Sorted(children: seq<Child>) {
    forall i, j :: 0 <= i < j < |children| ==> InOrder(children[i], children[j])
  }

  /** Where a child goes: after every smaller name. */
  function PlaceOf(child: Child, sorted: seq<Child>): (k: nat)
    ensures k <= |sorted|
  {
    if sorted == [] || !NameLess(sorted[0].name, child.name) then 0 else 1 + PlaceOf(child, sorted[1..])
  }

  lemma PlaceStep(child: Child, sorted: seq<Child>)
    requires sorted != [] && NameLess(sorted[0].name, child.name)
    ensures PlaceOf(child, sorted) == 1 + PlaceOf(child, sorted[1..])
    ensures InsertChild(child, sorted) == [sorted[0]] + InsertChild(child, sorted[1..])
  {
    hide NameLess;
  }

  lemma {:induction false} PlaceSplits(child: Child, sorted: seq<Child>)
    ensures var k := PlaceOf(child, sorted);
            && InsertChild(child, sorted) == sorted[..k] + [child] + sorted[k..]
            && (forall i :: 0 <= i < k ==> NameLess(sorted[i].name, child.name))
            && (k < |sorted| ==> !NameLess(sorted[k].name, child.name))
    decreases |sorted|
  {
    hide NameLess;
    if sorted == [] || !NameLess(sorted[0].name, child.name) {
      assert sorted[..0] == [] && sorted[0..] == sorted;
    } else {
      PlaceStep(child, sorted);
      hide PlaceOf, InsertChild;
      var first, rest := sorted[0], sorted[1..];
      PlaceSplits(child, rest);
      assert sorted == [first] + rest;
      PutBehind(first, rest, child, PlaceOf(child, rest));
      forall i | 0 <= i < PlaceOf(child, sorted) ensures NameLess(sorted[i].name, child.name) {
        if i > 0 { assert sorted[i] == rest[i - 1]; }
      }
    }
  }

  lemma PutBehind(first: Child, rest: seq<Child>, child: Child, k: nat)
    requires k <= |rest|
    ensures var all := [first] + rest;
            all[..k + 1] + [child] + all[k + 1..] == [first] + (rest[..k] + [child] + rest[k..])
    ensures k < |rest| ==> ([first] + rest)[k + 1] == rest[k]
  {
    var all := [first] + rest;
    assert all[..k + 1] == [first] + rest[..k];
    assert all[k + 1..] == rest[k..];
  }

  lemma InsertKeepsSorted(child: Child, sorted: seq<Child>)
    requires Sorted(sorted)
    ensures Sorted(InsertChild(child, sorted))
  {
    hide InsertChild, NameLess, PlaceOf;
    PlaceSplits(child, sorted);
    var k := PlaceOf(child, sorted);
    forall i | 0 <= i < k
      ensures InOrder(sorted[i], child)
    {
      NameLessIsTotal(sorted[i].name, child.name);
    }
    forall i | k <= i < |sorted|
      ensures InOrder(child, sorted[i])
    {
      if i > k { InOrderIsTransitive(child, sorted[k], sorted[i]); }
    }
  }

  /** The sort the listing relies on: in order, and the same children. */
  lemma {:induction false} SortIsSorted(children: seq<Child>)
    ensures Sorted(SortChildren(children))
    ensures multiset(SortChildren(children)) == multiset(children)
  {
    hide InsertChild, Sorted;
    if children != [] {
      SortIsSorted(children[1..]);
      var sorted := SortChildren(children[1..]);
      InsertKeepsSorted(children[0], sorted);
      InsertIsPermutation(children[0], sorted);
      assert children == [children[0]] + children[1..];
    } else {
      NothingIsSorted();
    }
  }

  lemma NothingIsSorted()
    ensures Sorted([])
  {
  }

  lemma InsertIsPermutation(child: Child, sorted: seq<Child>)
    ensures multiset(InsertChild(child, sorted)) == multiset([child] + sorted)
  {
    hide InsertChild, PlaceOf, NameLess;
    PlaceSplits(child, sorted);
    var k := PlaceOf(child, sorted);
    assert sorted == sorted[..k] + sorted[k..];
  }

  lemma {:induction false} InsertsCommute(a: Child, b: Child, sorted: seq<Child>)
    requires a.name != b.name
    ensures InsertChild(a, InsertChild(b, sorted)) == InsertChild(b, InsertChild(a, sorted))
  {
    hide NameLess;
    NameLessIsTotal(a.name, b.name);
    if sorted != [] {
      var h := sorted[0];
      InsertsCommute(a, b, sorted[1..]);
      NameLessIsTotal(h.name, a.name);
      NameLessIsTotal(h.name, b.name);
      if NameLess(h.name, a.name) && NameLess(b.name, h.name) { NameLessIsTransitive(b.name, h.name, a.name); }
      if NameLess(h.name, b.name) && NameLess(a.name, h.name) { NameLessIsTransitive(a.name, h.name, b.name); }
      InsertHead(a, h, sorted[1..]);
      InsertHead(b, h, sorted[1..]);
      InsertHead(a, b, sorted);
      InsertHead(b, a, sorted);
      InsertHead(a, h, InsertChild(b, sorted[1..]));
      InsertHead(b, h, InsertChild(a, sorted[1..]));
      assert sorted == [h] + sorted[1..];
    } else {
      InsertHead(a, b, []);
      InsertHead(b, a, []);
    }
  }

  lemma InsertHead(child: Child, head: Child, tail: seq<Child>)
    ensures InsertChild(child, [head] + tail)
            == if NameLess(head.name, child.name) then [head] + InsertChild(child, tail) else [child, head] + tail
    ensures InsertChild(child, []) == [child]
  {
    assert ([head] + tail)[1..] == tail;
    assert [child] + ([head] + tail) == [child, head] + tail;
  }

  /** Wherever a new name turns up in reading order, sorting puts it in its place
      among the others. */
  lemma {:induction false} SortInserted(before: seq<Child>, child: Child, after: seq<Child>)
    requires forall i :: 0 <= i < |before| ==> before[i].name != child.name
    ensures SortChildren(before + [child] + after) == InsertChild(child, SortChildren(before + after))
  {
    hide InsertChild;
    if before == [] {
      assert before + [child] + after == [child] + after;
      assert ([child] + after)[1..] == after && before + after == after;
    } else {
      assert (before + [child] + after)[1..] == before[1..] + [child] + after;
      assert (before + after)[1..] == before[1..] + after;
      SortInserted(before[1..], child, after);
      InsertsCommute(before[0], child, SortChildren(before[1..] + after));
    }
  }

  // ----- the listing -----

  lemma {:induction false} VisibleAppend(a: seq<Entry>, b: seq<Entry>, at: Path, registry: Registry)
    ensures VisibleChildren(a + b, at, registry) == VisibleChildren(a, at, registry) + VisibleChildren(b, at, registry)
    ensures DirectNotes(a + b) == DirectNotes(a) + DirectNotes(b)
    ensures InvalidNames(a + b) == InvalidNames(a) + InvalidNames(b)
  {
    hide IsVisible, IsMarkdown, IsValid;
    if a == [] {
      assert a + b == b;
    } else {
      assert (a + b)[1..] == a[1..] + b;
      VisibleAppend(a[1..], b, at, registry);
    }
  }

  lemma {:induction false} VisibleAreEntries(entries: seq<Entry>, at: Path, registry: Registry, i: nat)
    requires i < |VisibleChildren(entries, at, registry)|
    ensures exists k :: 0 <= k < |entries| && entries[k].name == VisibleChildren(entries, at, registry)[i].name
  {
    hide IsVisible;
    var rest := VisibleChildren(entries[1..], at, registry);
    var n := |VisibleChildren(entries, at, registry)| - |rest|;
    if i >= n {
      VisibleAreEntries(entries[1..], at, registry, i - n);
      var k :| 0 <= k < |entries[1..]| && entries[1..][k].name == rest[i - n].name;
      assert entries[k + 1].name == VisibleChildren(entries, at, registry)[i].name;
    }
  }

  /** The new folder among its siblings: nothing else of the folder changes. */
  lemma InsertedIsListed(entries: seq<Entry>, position: nat, name: Name, at: Path, registry: Registry)
    requires IndexOf(entries, name).None? && IsValid(name) && !IsHidden(name) && registry.mayBeVault(at + [name])
    ensures var after := InsertAt(entries, position, Dir(name, EMPTY_FOLDER));
            && SortChildren(VisibleChildren(after, at, registry))
               == InsertChild(Child(name, EMPTY_FOLDER), SortChildren(VisibleChildren(entries, at, registry)))
            && DirectNotes(after) == DirectNotes(entries)
            && InvalidNames(after) == InvalidNames(entries)
  {
    hide IsMarkdown, IsValid, SortChildren, InsertChild;
    var p := if position <= |entries| then position else |entries|;
    var entry := Dir(name, EMPTY_FOLDER);
    var a, b := entries[..p], entries[p..];
    assert entries == a + b;
    VisibleAppend(a, b, at, registry);
    VisibleAppend(a + [entry], b, at, registry);
    VisibleAppend(a, [entry], at, registry);
    OneVisible(entry, at, registry);
    var before := VisibleChildren(a, at, registry);
    forall i | 0 <= i < |before|
      ensures before[i].name != name
    {
      VisibleAreEntries(a, at, registry, i);
    }
    SortInserted(before, Child(name, EMPTY_FOLDER), VisibleChildren(b, at, registry));
  }

  lemma OneVisible(entry: Entry, at: Path, registry: Registry)
    requires IsVisible(entry) && registry.mayBeVault(at + [entry.name])
    ensures VisibleChildren([entry], at, registry) == [Child(entry.name, entry.folder)]
    ensures DirectNotes([entry]) == 0 && InvalidNames([entry]) == 0
  {
    assert [entry][1..] == [];
  }

  lemma {:induction false} ChildrenNotesAppend(a: seq<Child>, b: seq<Child>)
    ensures ChildrenNotes(a + b) == ChildrenNotes(a) + ChildrenNotes(b)
    decreases |b|
  {
    hide Notes;
    if b == [] {
      assert a + b == a;
    } else {
      assert (a + b)[..|a + b| - 1] == a + b[..|b| - 1];
      ChildrenNotesAppend(a, b[..|b| - 1]);
    }
  }

  lemma InsertedAddsNoNotes(children: seq<Child>, name: Name, k: nat)
    requires k <= |children|
    ensures ChildrenNotes(children[..k] + [Child(name, EMPTY_FOLDER)] + children[k..]) == ChildrenNotes(children)
  {
    var child := Child(name, EMPTY_FOLDER);
    ChildrenNotesAppend(children[..k] + [child], children[k..]);
    ChildrenNotesAppend(children[..k], [child]);
    ChildrenNotesAppend(children[..k], children[k..]);
    assert children[..k] + children[k..] == children;
    assert [child][..0] == [];
    assert Notes(EMPTY_FOLDER) == 0;
    assert ChildrenNotes([child]) == 0;
  }

  lemma {:induction false} VaultAtNone(vaults: seq<VaultRoot>, path: Path)
    requires forall i :: 0 <= i < |vaults| ==> vaults[i].path != path
    ensures VaultAt(vaults, path) == None
  {
    if vaults != [] { VaultAtNone(vaults[1..], path); }
  }

  lemma {:induction false} PresentAreRoots(
    mount: Folder, root: Path, registry: Registry, roots: seq<VaultRoot>, vault: VaultRoot)
    requires vault in Present(mount, root, registry, roots)
    ensures vault in roots
  {
    hide IsPresent;
    if vault != roots[0] { PresentAreRoots(mount, root, registry, roots[1..], vault); }
  }

  /** `now` is `was` with one more entry, in its sorted place `k`. */
  ghost predicate HasOneMore(was: Listing, now: Listing, entry: FolderEntry, k: nat) {
    && k <= |was.folders|
    && now == was.(folders := was.folders[..k] + [entry] + was.folders[k..])
    && (forall i :: 0 <= i < k ==> NameLess(was.folders[i].name, entry.name))
    && (forall i :: k <= i < |was.folders| ==> !NameLess(was.folders[i].name, entry.name))
  }

  lemma ExactListingAfterInsert(
    folder: Folder, position: nat, name: Name, components: seq<Name>, root: Path, registry: Registry,
    vaults: seq<VaultRoot>)
    returns (k: nat)
    requires IndexOf(folder.entries, name).None? && IsValid(name) && !IsHidden(name)
    requires registry.mayBeVault(root + components + [name])
    requires VaultAt(vaults, root + components + [name]) == None
    ensures HasOneMore(
              ExactListing(folder, components, root, registry, vaults),
              ExactListing(
                folder.(entries := InsertAt(folder.entries, position, Dir(name, EMPTY_FOLDER))),
                components, root, registry, vaults),
              NewEntry(components, name), k)
  {
    hide IsValid, IsHidden, VaultAt, NameLess, SortChildren, InsertChild, VisibleChildren, DirectNotes, InvalidNames;
    hide ChildrenNotes, InsertAt, IndexOf, NewEntry, ExactEntry, ExactEntries, JoinSlash, PlaceOf;
    var at := root + components;
    InsertedIsListed(folder.entries, position, name, at, registry);
    var visible := VisibleChildren(folder.entries, at, registry);
    var children := SortChildren(visible);
    var child := Child(name, EMPTY_FOLDER);
    k := PlaceOf(child, children);
    PlaceSplits(child, children);
    SortedAfter(visible, child, k);
    InsertedAddsNoNotes(children, name, k);
    EntriesSplit(children, child, k, components, root, vaults);
    EmptyEntry(components, name, root, vaults);
    EntryName(components, name);
  }

  lemma EntryName(components: seq<Name>, name: Name)
    ensures NewEntry(components, name).name == name
  {
  }

  /** The exact listing of the parent, before and after: the same but for the
      returned entry, which stands where its name sorts. */
  lemma RelistingShowsTheEntry(
    tree: Folder, root: Path, parent: Bytes, name: Name, registry: Registry, fault: Option<MkdirFault>, position: nat)
    returns (k: nat)
    requires Admitted(There(tree), root, parent, name, registry, fault).Ok? && IsValid(name)
    ensures var components := Admitted(There(tree), root, parent, name, registry, fault).value;
            var after := AddAt(tree, components, position, Dir(name, EMPTY_FOLDER));
            && Shown(tree, root, components, registry).Ok?
            && Shown(after, root, components, registry).Ok?
            && HasOneMore(
                 ExactListing(
                   Shown(tree, root, components, registry).value,
                   components, root, registry, RegisteredVaults(tree, root, registry)),
                 ExactListing(
                   Shown(after, root, components, registry).value,
                   components, root, registry, RegisteredVaults(after, root, registry)),
                 NewEntry(components, name), k)
  {
    hide IsValid, Parsed, AddAt, VaultAt, Descend, RegisteredVaults, ExactListing, Exists, InsideSomeVault, Trim;
    hide HasOneMore, IndexOf, InsertAt, NewEntry;
    var components := Admitted(There(tree), root, parent, name, registry, fault).value;
    CreationIsContained(tree, root, parent, name, registry, fault, position);
    CanAddMeans(tree, components, name);
    DescendAfter(tree, components, position, name);
    NoVaultThere(tree, root, registry, root + components + [name]);
    k := ExactListingAfterInsert(
      Descend(tree, components).value, position, name, components, root, registry,
      RegisteredVaults(tree, root, registry));
  }

  /** Two listings of the parent that nothing cut short, one before a creation and
      one after: the second is the first with the returned entry in its sorted
      place. */
  lemma UncutRelistingShowsTheEntry(
    tree: Folder, root: Path, parent: Bytes, name: Name, registry: Registry, fault: Option<MkdirFault>, position: nat,
    before: Listing, cap: nat, clock: nat, after: Listing, nextCap: nat, nextClock: nat)
    returns (k: nat)
    requires Admitted(There(tree), root, parent, name, registry, fault).Ok? && IsValid(name)
    requires IsListing(Ok(before), There(tree), root, parent, registry, cap, clock) && !IsCut(before)
    requires var components := Admitted(There(tree), root, parent, name, registry, fault).value;
             var tree' := AddAt(tree, components, position, Dir(name, EMPTY_FOLDER));
             IsListing(Ok(after), There(tree'), root, parent, registry, nextCap, nextClock) && !IsCut(after)
    ensures HasOneMore(
              before, after, NewEntry(Admitted(There(tree), root, parent, name, registry, fault).value, name), k)
  {
    hide IsValid, Parsed, AddAt, Descend, RegisteredVaults, ExactListing, HasOneMore, NewEntry, IsPlainName, MkdirError;
    hide InsideSomeVault, IsCut, Shown;
    var components := Admitted(There(tree), root, parent, name, registry, fault).value;
    k := RelistingShowsTheEntry(tree, root, parent, name, registry, fault, position);
  }

  lemma CanAddMeans(tree: Folder, components: seq<Name>, name: Name)
    requires CanAdd(tree, components, name)
    ensures Descend(tree, components).Ok?
    ensures IndexOf(Descend(tree, components).value.entries, name).None?
  {
  }

  lemma SortedAfter(children: seq<Child>, child: Child, k: nat)
    requires k <= |children|
    requires k == PlaceOf(child, SortChildren(children))
    ensures forall i :: k <= i < |children| ==> !NameLess(SortChildren(children)[i].name, child.name)
  {
    hide SortChildren, NameLess, PlaceOf, InsertChild;
    SortIsSorted(children);
    var sorted := SortChildren(children);
    PlaceSplits(child, sorted);
    forall i | k <= i < |children|
      ensures !NameLess(sorted[i].name, child.name)
    {
      if i > k { InOrderIsTransitive(child, sorted[k], sorted[i]); }
    }
  }

  lemma NoVaultThere(tree: Folder, root: Path, registry: Registry, target: Path)
    requires registry.roots.Some?
    requires forall vault :: vault in registry.roots.value ==> !(vault.path <= target)
    ensures VaultAt(RegisteredVaults(tree, root, registry), target) == None
  {
    var vaults := RegisteredVaults(tree, root, registry);
    forall i | 0 <= i < |vaults|
      ensures vaults[i].path != target
    {
      PresentAreRoots(tree, root, registry, registry.roots.value, vaults[i]);
    }
    VaultAtNone(vaults, target);
  }

  lemma EmptyEntry(components: seq<Name>, name: Name, root: Path, vaults: seq<VaultRoot>)
    requires VaultAt(vaults, root + components + [name]) == None
    ensures ExactEntry(Child(name, EMPTY_FOLDER), components, root, vaults) == NewEntry(components, name)
  {
    hide VaultAt, EntryPath;
  }

  lemma EntriesSplit(
    children: seq<Child>, child: Child, k: nat, components: seq<Name>, root: Path, vaults: seq<VaultRoot>)
    requires k <= |children|
    ensures var was := ExactEntries(children, components, root, vaults);
            ExactEntries(children[..k] + [child] + children[k..], components, root, vaults)
            == was[..k] + [ExactEntry(child, components, root, vaults)] + was[k..]
    ensures forall i :: 0 <= i < |children| ==>
              ExactEntries(children, components, root, vaults)[i].name == children[i].name
  {
    hide VaultAt, EntryPath, Notes, HasVisible;
  }
}

/** Which chunks of the built frontend only a lazy import pulls in
    (frontend/vite.config.ts, `findLazyChunks` and its inner `reach`). */
module ChunkGraph {
  import opened Prelude

  datatype Chunk = Chunk(
    fileName: string, imports: seq<string>, dynamicImports: seq<string>,
    isEntry: bool, isDynamicEntry: bool, facadeModuleId: Option<string>)

  type Bundle = map<string, Chunk>

  /** Which of a chunk's imports a walk follows. */
  type Follow = Chunk -> seq<string>

  const LAZY_PACKAGES: seq<string> := ["/node_modules/mermaid/", "/node_modules/pdfjs-dist/"]

  const STATIC_IMPORTS: Follow := (chunk: Chunk) => chunk.imports

  const ALL_IMPORTS: Follow := (chunk: Chunk) => chunk.imports + chunk.dynamicImports

  /** `String.includes`. */
  predicate Includes(s: string, part: string) {
    exists i :: 0 <= i <= |s| && part <= s[i..]
  }

  predicate IsLazyRoot(chunk: Chunk) {
    && chunk.isDynamicEntry
    && chunk.facadeModuleId.Some?
    && exists i :: 0 <= i < |LAZY_PACKAGES| && Includes(chunk.facadeModuleId.value, LAZY_PACKAGES[i])
  }

  /** The chunks by name; a name that comes twice keeps the later chunk. */
  function ByName(chunks: seq<Chunk>): (g: Bundle) {
    if chunks == [] then map[]
    else
      var last := chunks[|chunks| - 1];
      ByName(chunks[..|chunks| - 1])[last.fileName := last]
  }

  // ----- reachability -----

  /** A walk along followed imports that stays in the bundle and off `stopAt`. */
  ghost predicate IsWalk(g: Bundle, follow: Follow, stopAt: set<string>, walk: seq<string>) {
    && walk != []
    && (forall i :: 0 <= i < |walk| ==> walk[i] in g && walk[i] !in stopAt)
    && (forall i :: 0 <= i < |walk| - 1 ==> walk[i + 1] in follow(g[walk[i]]))
  }

  ghost predicate Reaches(g: Bundle, follow: Follow, stopAt: set<string>, roots: set<string>, name: string) {
    exists walk: seq<string> ::
      IsWalk(g, follow, stopAt, walk) && walk[0] in roots && walk[|walk| - 1] == name
  }

  ghost function Reachable(g: Bundle, follow: Follow, stopAt: set<string>, roots: set<string>): (r: set<string>) {
    set name | name in g && Reaches(g, follow, stopAt, roots, name)
  }

  ghost predicate Open(g: Bundle, stopAt: set<string>, name: string) {
    name in g && name !in stopAt
  }

  /** `names` has the roots and all that is imported from it, as far as open. */
  ghost predicate IsClosed(g: Bundle, follow: Follow, stopAt: set<string>, roots: set<string>, names: set<string>) {
    && (forall name :: name in roots && Open(g, stopAt, name) ==> name in names)
    && (forall from, to :: from in names && from in g && to in follow(g[from]) && Open(g, stopAt, to) ==> to in names)
  }

  lemma RootReaches(g: Bundle, follow: Follow, stopAt: set<string>, roots: set<string>, name: string)
    requires name in roots && Open(g, stopAt, name)
    ensures Reaches(g, follow, stopAt, roots, name)
  {
    assert IsWalk(g, follow, stopAt, [name]);
  }

  lemma ImportReaches(g: Bundle, follow: Follow, stopAt: set<string>, roots: set<string>, from: string, to: string)
    requires Reaches(g, follow, stopAt, roots, from) && from in g
    requires to in follow(g[from]) && Open(g, stopAt, to)
    ensures Reaches(g, follow, stopAt, roots, to)
  {
    var walk :| IsWalk(g, follow, stopAt, walk) && walk[0] in roots && walk[|walk| - 1] == from;
    assert IsWalk(g, follow, stopAt, walk + [to]);
  }

  lemma {:induction false} WalkStaysInClosed(
    g: Bundle, follow: Follow, stopAt: set<string>, roots: set<string>, names: set<string>, walk: seq<string>, i: nat)
    requires IsWalk(g, follow, stopAt, walk) && walk[0] in roots && i < |walk|
    requires IsClosed(g, follow, stopAt, roots, names)
    ensures walk[i] in names
  {
    if i > 0 {
      WalkStaysInClosed(g, follow, stopAt, roots, names, walk, i - 1);
      assert walk[(i - 1) + 1] in follow(g[walk[i - 1]]);
    }
    assert Open(g, stopAt, walk[i]);
  }

  /** Reachability is the least closed set. */
  lemma ReachableIsLeastClosed(g: Bundle, follow: Follow, stopAt: set<string>, roots: set<string>)
    ensures IsClosed(g, follow, stopAt, roots, Reachable(g, follow, stopAt, roots))
    ensures forall names :: IsClosed(g, follow, stopAt, roots, names) ==> Reachable(g, follow, stopAt, roots) <= names
    ensures Reachable(g, follow, stopAt, roots) !! stopAt
  {
    hide Reaches;
    var reachable := Reachable(g, follow, stopAt, roots);
    forall name | name in roots && Open(g, stopAt, name)
      ensures name in reachable
    {
      RootReaches(g, follow, stopAt, roots, name);
    }
    forall from, to | from in reachable && from in g && to in follow(g[from]) && Open(g, stopAt, to)
      ensures to in reachable
    {
      ImportReaches(g, follow, stopAt, roots, from, to);
    }
    forall name | name in reachable
      ensures name !in stopAt
      ensures forall names :: IsClosed(g, follow, stopAt, roots, names) ==> name in names
    {
      ReachedIsInClosed(g, follow, stopAt, roots, name);
    }
  }

  lemma ReachedIsInClosed(g: Bundle, follow: Follow, stopAt: set<string>, roots: set<string>, name: string)
    requires Reaches(g, follow, stopAt, roots, name)
    ensures name !in stopAt
    ensures forall names :: IsClosed(g, follow, stopAt, roots, names) ==> name in names
  {
    var walk :| IsWalk(g, follow, stopAt, walk) && walk[0] in roots && walk[|walk| - 1] == name;
    forall names | IsClosed(g, follow, stopAt, roots, names)
      ensures name in names
    {
      WalkStaysInClosed(g, follow, stopAt, roots, names, walk, |walk| - 1);
    }
  }

  // ----- the worklist -----

  /** The names still on the stack are worth visiting only if reachable. */
  ghost predicate StackSound(
    g: Bundle, follow: Follow, stopAt: set<string>, roots: set<string>, stack: seq<string>)
  {
    forall name :: name in stack && Open(g, stopAt, name) ==> Reaches(g, follow, stopAt, roots, name)
  }

  /** Closed, but for what the stack still holds. */
  ghost predicate ClosedUpTo(
    g: Bundle, follow: Follow, stopAt: set<string>, roots: set<string>, seen: set<string>, stack: seq<string>)
  {
    && (forall name :: name in roots && Open(g, stopAt, name) ==> name in seen || name in stack)
    && (forall from, to ::
          from in seen && from in g && to in follow(g[from]) && Open(g, stopAt, to) ==> to in seen || to in stack)
  }

  lemma VisitKeeps(
    g: Bundle, follow: Follow, stopAt: set<string>, roots: set<string>, seen: set<string>, stack: seq<string>)
    requires stack != []
    requires var name := stack[|stack| - 1];
             Open(g, stopAt, name) && name !in seen
    requires StackSound(g, follow, stopAt, roots, stack)
    requires ClosedUpTo(g, follow, stopAt, roots, seen, stack)
    ensures var name := stack[|stack| - 1];
            var rest := stack[..|stack| - 1];
            && Reaches(g, follow, stopAt, roots, name)
            && StackSound(g, follow, stopAt, roots, rest + follow(g[name]))
            && ClosedUpTo(g, follow, stopAt, roots, seen + {name}, rest + follow(g[name]))
  {
    hide Reaches;
    var name := stack[|stack| - 1];
    var rest := stack[..|stack| - 1];
    assert stack == rest + [name];
    forall to | to in rest + follow(g[name]) && Open(g, stopAt, to)
      ensures Reaches(g, follow, stopAt, roots, to)
    {
      if to !in rest { ImportReaches(g, follow, stopAt, roots, name, to); }
    }
  }

  lemma SkipKeeps(
    g: Bundle, follow: Follow, stopAt: set<string>, roots: set<string>, seen: set<string>, stack: seq<string>)
    requires stack != []
    requires var name := stack[|stack| - 1];
             !Open(g, stopAt, name) || name in seen
    requires StackSound(g, follow, stopAt, roots, stack)
    requires ClosedUpTo(g, follow, stopAt, roots, seen, stack)
    ensures StackSound(g, follow, stopAt, roots, stack[..|stack| - 1])
    ensures ClosedUpTo(g, follow, stopAt, roots, seen, stack[..|stack| - 1])
  {
    hide Reaches, Open;
    assert stack == stack[..|stack| - 1] + [stack[|stack| - 1]];
  }

  method Reach(g: Bundle, roots: seq<string>, follow: Follow, stopAt: set<string>) returns (seen: set<string>)
    ensures seen == Reachable(g, follow, stopAt, set name | name in roots)
  {
    hide Reaches;
    ghost var rootSet := set name | name in roots;
    seen := {};
    var stack := roots;
    forall name | name in stack && Open(g, stopAt, name)
      ensures Reaches(g, follow, stopAt, rootSet, name)
    {
      RootReaches(g, follow, stopAt, rootSet, name);
    }
    while |stack| > 0
      invariant seen <= g.Keys
      invariant forall name :: name in seen ==> Reaches(g, follow, stopAt, rootSet, name)
      invariant StackSound(g, follow, stopAt, rootSet, stack)
      invariant ClosedUpTo(g, follow, stopAt, rootSet, seen, stack)
      decreases g.Keys - seen, |stack|
    {
      var fileName := stack[|stack| - 1];
      if fileName !in g || fileName in seen || fileName in stopAt {
        SkipKeeps(g, follow, stopAt, rootSet, seen, stack);
        stack := stack[..|stack| - 1];
        continue;
      }
      VisitKeeps(g, follow, stopAt, rootSet, seen, stack);
      stack := stack[..|stack| - 1];
      seen := seen + {fileName};
      stack := stack + follow(g[fileName]);
    }
    ReachableIsLeastClosed(g, follow, stopAt, rootSet);
    assert IsClosed(g, follow, stopAt, rootSet, seen);
  }

  // ----- the lazy chunks -----

  function EntryNames(g: Bundle): (r: set<string>) {
    set name | name in g && g[name].isEntry
  }

  function LazyRootNames(g: Bundle): (r: set<string>) {
    set name | name in g && IsLazyRoot(g[name])
  }

  ghost function EagerChunks(g: Bundle): (r: set<string>) {
    Reachable(g, STATIC_IMPORTS, {}, EntryNames(g))
  }

  ghost function LazyChunks(g: Bundle): (r: set<string>) {
    Reachable(g, ALL_IMPORTS, EagerChunks(g), LazyRootNames(g))
  }

  /** Every chunk is stored under its own name. */
  lemma {:induction false} ByNameKeys(chunks: seq<Chunk>, name: string)
    requires name in ByName(chunks)
    ensures ByName(chunks)[name].fileName == name && ByName(chunks)[name] in chunks
  {
    var last := chunks[|chunks| - 1];
    if name != last.fileName { ByNameKeys(chunks[..|chunks| - 1], name); }
  }

  /** `[...byName.values()].filter(keep).map(fileName)`, in the map's order. */
  method NamesWhere(g: Bundle, order: seq<string>, keep: Chunk -> bool) returns (names: seq<string>)
    requires forall name :: name in order <==> name in g
    requires forall name :: name in g ==> g[name].fileName == name
    ensures forall name :: name in names <==> name in g && keep(g[name])
  {
    names := [];
    var i := 0;
    while i < |order|
      invariant 0 <= i <= |order|
      invariant forall name :: name in names <==> name in order[..i] && keep(g[name])
    {
      var chunk := g[order[i]];
      assert order[..i + 1] == order[..i] + [order[i]];
      if keep(chunk) {
        names := names + [chunk.fileName];
      }
      i := i + 1;
    }
    assert order[..i] == order;
  }

  method FindLazyChunks(chunks: seq<Chunk>) returns (lazy: set<string>)
    ensures lazy == LazyChunks(ByName(chunks))
  {
    hide Reachable, IsLazyRoot;
    var byName: Bundle := map[];
    var order: seq<string> := [];
    var i := 0;
    while i < |chunks|
      invariant 0 <= i <= |chunks|
      invariant byName == ByName(chunks[..i])
      invariant forall name :: name in order <==> name in byName
    {
      var chunk := chunks[i];
      assert chunks[..i + 1][..i] == chunks[..i];
      if chunk.fileName !in byName {
        order := order + [chunk.fileName];
      }
      byName := byName[chunk.fileName := chunk];
      i := i + 1;
    }
    assert chunks[..i] == chunks;
    forall name | name in byName
      ensures byName[name].fileName == name
    {
      ByNameKeys(chunks, name);
    }
    var entries := NamesWhere(byName, order, (chunk: Chunk) => chunk.isEntry);
    assert (set name | name in entries) == EntryNames(byName);
    var eager := Reach(byName, entries, STATIC_IMPORTS, {});
    var roots := NamesWhere(byName, order, (chunk: Chunk) => IsLazyRoot(chunk));
    assert (set name | name in roots) == LazyRootNames(byName);
    lazy := Reach(byName, roots, ALL_IMPORTS, eager);
  }

  // ----- what the split promises -----

  /** No chunk is both lazy and eager, and whatever a lazy chunk imports, in any
      way, is lazy or eager if the bundle has it. */
  lemma LazyChunksAreSelfContained(g: Bundle)
    ensures LazyChunks(g) !! EagerChunks(g)
    ensures forall from, to ::
              from in LazyChunks(g) && to in g && (to in g[from].imports || to in g[from].dynamicImports)
              ==> to in LazyChunks(g) || to in EagerChunks(g)
  {
    hide Reaches;
    ReachableIsLeastClosed(g, ALL_IMPORTS, EagerChunks(g), LazyRootNames(g));
    var lazy, eager := LazyChunks(g), EagerChunks(g);
    forall from, to | from in lazy && to in g && (to in g[from].imports || to in g[from].dynamicImports)
      ensures to in lazy || to in eager
    {
      assert to in ALL_IMPORTS(g[from]);
      assert to !in eager ==> Open(g, eager, to);
    }
  }

  /** The app shell loads exactly the static closure of the entries. */
  lemma EagerIsStaticClosure(g: Bundle)
    ensures forall name :: name in g && g[name].isEntry ==> name in EagerChunks(g)
    ensures forall from, to ::
              from in EagerChunks(g) && to in g && to in g[from].imports ==> to in EagerChunks(g)
    ensures forall names: set<string> ::
              && (forall name :: name in g && g[name].isEntry ==> name in names)
              && (forall from, to {:trigger from in names, to in g} ::
                    from in names && from in g && to in g && to in g[from].imports ==> to in names)
              ==> EagerChunks(g) <= names
  {
    hide Reaches;
    ReachableIsLeastClosed(g, STATIC_IMPORTS, {}, EntryNames(g));
    forall name | name in g && g[name].isEntry
      ensures name in EagerChunks(g)
    {
      assert name in EntryNames(g) && Open(g, {}, name);
    }
    forall from, to | from in EagerChunks(g) && to in g && to in g[from].imports
      ensures to in EagerChunks(g)
    {
      assert Open(g, {}, to) && to in STATIC_IMPORTS(g[from]);
    }
    forall names: set<string> |
      && (forall name :: name in g && g[name].isEntry ==> name in names)
      && (forall from, to {:trigger from in names, to in g} ::
            from in names && from in g && to in g && to in g[from].imports ==> to in names)
      ensures EagerChunks(g) <= names
    {
      assert IsClosed(g, STATIC_IMPORTS, {}, EntryNames(g), names);
    }
  }

  /** `part` stands somewhere in `whole`. */
  ghost predicate StandsIn(part: string, whole: string) {
    exists before, after :: whole == before + part + after
  }

  /** A module of Mermaid or PDF.js that some code imports dynamically. */
  ghost predicate IsLazyPackage(chunk: Chunk) {
    && chunk.isDynamicEntry && chunk.facadeModuleId.Some?
    && (|| StandsIn("/node_modules/mermaid/", chunk.facadeModuleId.value)
        || StandsIn("/node_modules/pdfjs-dist/", chunk.facadeModuleId.value))
  }

  lemma IncludedIn(whole: string, part: string, before: string, after: string)
    requires whole == before + part + after
    ensures Includes(whole, part)
  {
    assert whole[|before|..] == part + after;
  }

  lemma IncludedAt(whole: string, part: string, i: nat) returns (after: string)
    requires i <= |whole| && part <= whole[i..]
    ensures whole == whole[..i] + part + after
  {
    after := whole[i..][|part|..];
    assert whole[i..] == part + after;
  }

  lemma IncludesIff(whole: string, part: string)
    ensures Includes(whole, part) <==> StandsIn(part, whole)
  {
    if StandsIn(part, whole) {
      var before, after :| whole == before + part + after;
      IncludedIn(whole, part, before, after);
    } else if Includes(whole, part) {
      var i :| 0 <= i <= |whole| && part <= whole[i..];
      var after := IncludedAt(whole, part, i);
    }
  }

  lemma LazyRootIff(chunk: Chunk)
    ensures IsLazyRoot(chunk) <==> IsLazyPackage(chunk)
  {
    hide Includes, StandsIn;
    if chunk.facadeModuleId.Some? {
      IncludesIff(chunk.facadeModuleId.value, LAZY_PACKAGES[0]);
      IncludesIff(chunk.facadeModuleId.value, LAZY_PACKAGES[1]);
    }
  }

  /** The lazy chunks are the dynamic entries of the two packages and all they
      import in any way, leaving out what the app shell loads: the least set that
      has these. */
  lemma LazyIsLeast(g: Bundle)
    ensures forall name :: name in g && IsLazyPackage(g[name]) && name !in EagerChunks(g) ==> name in LazyChunks(g)
    ensures forall names: set<string> ::
              && (forall name :: name in g && IsLazyPackage(g[name]) && name !in EagerChunks(g) ==> name in names)
              && (forall from, to {:trigger from in names, to in g} ::
                    (from in names && from in g && to in g && to !in EagerChunks(g)
                     && (to in g[from].imports || to in g[from].dynamicImports)) ==> to in names)
              ==> LazyChunks(g) <= names
  {
    hide Reaches, Reachable, IsLazyRoot, IsLazyPackage;
    var eager, roots := EagerChunks(g), LazyRootNames(g);
    ReachableIsLeastClosed(g, ALL_IMPORTS, eager, roots);
    forall name | name in g ensures name in roots <==> IsLazyPackage(g[name]) {
      LazyRootIff(g[name]);
    }
    forall name | name in g && IsLazyPackage(g[name]) && name !in eager
      ensures name in LazyChunks(g)
    {
      assert Open(g, eager, name);
    }
    forall names: set<string> |
      && (forall name :: name in g && IsLazyPackage(g[name]) && name !in eager ==> name in names)
      && (forall from, to {:trigger from in names, to in g} ::
            (from in names && from in g && to in g && to !in eager
             && (to in g[from].imports || to in g[from].dynamicImports)) ==> to in names)
      ensures LazyChunks(g) <= names
    {
      assert IsClosed(g, ALL_IMPORTS, eager, roots, names);
    }
  }

  /** The same bundle, with every import list in whatever order. */
  ghost predicate SameGraph(g: Bundle, h: Bundle) {
    && g.Keys == h.Keys
    && forall name :: name in g ==>
         && g[name].isEntry == h[name].isEntry
         && IsLazyRoot(g[name]) == IsLazyRoot(h[name])
         && (forall to :: to in g[name].imports <==> to in h[name].imports)
         && (forall to :: to in g[name].dynamicImports <==> to in h[name].dynamicImports)
  }

  lemma WalksAgree(g: Bundle, h: Bundle, follow: Follow, stopAt: set<string>, roots: set<string>)
    requires g.Keys == h.Keys
    requires forall name, to :: name in g ==> (to in follow(g[name]) <==> to in follow(h[name]))
    ensures Reachable(g, follow, stopAt, roots) == Reachable(h, follow, stopAt, roots)
  {
    forall walk: seq<string>
      ensures IsWalk(g, follow, stopAt, walk) == IsWalk(h, follow, stopAt, walk)
    {
    }
  }

  lemma SameGraphSameLazy(g: Bundle, h: Bundle)
    requires SameGraph(g, h)
    ensures LazyChunks(g) == LazyChunks(h)
  {
    hide Reachable, IsLazyRoot;
    assert EntryNames(g) == EntryNames(h) && LazyRootNames(g) == LazyRootNames(h);
    WalksAgree(g, h, STATIC_IMPORTS, {}, EntryNames(g));
    WalksAgree(g, h, ALL_IMPORTS, EagerChunks(g), LazyRootNames(g));
  }

  ghost predicate DistinctNames(chunks: seq<Chunk>) {
    forall i, j :: 0 <= i < j < |chunks| ==> chunks[i].fileName != chunks[j].fileName
  }

  /** Of the chunks with one name the last is the one kept. */
  lemma {:induction false} LastOfNameCounts(chunks: seq<Chunk>, i: nat)
    requires i < |chunks| && forall j :: i < j < |chunks| ==> chunks[j].fileName != chunks[i].fileName
    ensures chunks[i].fileName in ByName(chunks) && ByName(chunks)[chunks[i].fileName] == chunks[i]
    decreases |chunks|
  {
    var n := |chunks| - 1;
    if i < n {
      LastOfNameCounts(chunks[..n], i);
      assert chunks[i].fileName != chunks[n].fileName;
    }
  }

  /** With distinct file names, chunk order does not matter. */
  lemma InputOrderIsIrrelevant(a: seq<Chunk>, b: seq<Chunk>)
    requires DistinctNames(a) && DistinctNames(b)
    requires forall chunk :: chunk in a <==> chunk in b
    ensures LazyChunks(ByName(a)) == LazyChunks(ByName(b))
  {
    hide DistinctNames, LazyChunks;
    forall name | name in ByName(a) || name in ByName(b)
      ensures name in ByName(a) && name in ByName(b) && ByName(a)[name] == ByName(b)[name]
    {
      if name in ByName(a) { SameChunk(a, b, name); } else { SameChunk(b, a, name); }
    }
    assert ByName(a) == ByName(b);
  }

  lemma SameChunk(a: seq<Chunk>, b: seq<Chunk>, name: string)
    requires DistinctNames(b) && name in ByName(a)
    requires forall chunk :: chunk in a <==> chunk in b
    ensures name in ByName(b) && ByName(b)[name] == ByName(a)[name]
  {
    ByNameKeys(a, name);
    var chunk := ByName(a)[name];
    assert chunk in b;
    var i :| 0 <= i < |b| && b[i] == chunk;
    LastOfNameCounts(b, i);
  }
}

/**
  Modules, their names and their directories (oj/src/app.rs, oj/src/manifest.rs): discovery in the mounted
  trees, the assembly of a generation, and the grants of the `platform:` section. Privilege goes by
  module name; that the directory behind the name is a controlled one has to be shown.
 */
module Platform {
  import opened Wrappers
  import ImportGraph
  import ModuleScan

  type Path = seq<string>

  datatype Tree = Tree(root: Path, ts: bool)

  datatype Found = Found(name: string, dir: Path)

  /** The module index of `--module-root`, made once, for the tree with this root. */
  datatype Index = Index(base: Path, modules: seq<Found>)

  /**
    The file system as assembly sees it: the first-level module directories of a source tree (whose
    manifests bear the directory's name), the version lock of a release tree in name order, and what
    directories exist.
   */
  datatype Files = Files(
    index: Option<Index>,
    sourceModules: Path -> Option<seq<string>>,
    lock: Path -> Option<seq<(string, string)>>,
    isDir: Path -> bool,
    schemaOk: (string, Path) -> bool,
    tables: Path -> seq<string>,
    canonical: string -> Option<Path>)

  datatype AssemblyError =
    | DiscoveryFailed(root: Path)
    | DuplicateModule(name: string)
    | BadSchema(name: string)
    | DuplicateTable(table: string)
    | RootMissing
    | RootNotFound
    | RootOverlaps(other: Path)
    | RootNotMounted
    | Squatting(name: string)
    | Dangling(name: string)

  // ----- discovery -----

  function SourceModules(root: Path, names: seq<string>): (r: seq<Found>)
    ensures |r| == |names|
    ensures forall i :: 0 <= i < |names| ==> r[i] == Found(names[i], root + [names[i]])
  {
    seq(|names|, i requires 0 <= i < |names| => Found(names[i], root + [names[i]]))
  }

  function LockedModules(root: Path, lock: seq<(string, string)>): (r: seq<Found>)
    ensures |r| == |lock|
    ensures forall i :: 0 <= i < |lock| ==>
              r[i] == Found(lock[i].0, root + [ImportGraph.VersionDir(lock[i].0, lock[i].1)])
  {
    seq(|lock|, i requires 0 <= i < |lock| =>
      Found(lock[i].0, root + [ImportGraph.VersionDir(lock[i].0, lock[i].1)]))
  }

  /** `manifest::discover`: the index where it covers the tree, else source or release layout. */
  function Discover(f: Files, t: Tree): Option<seq<Found>> {
    if f.index.Some? && f.index.value.base == t.root then Some(f.index.value.modules)
    else if t.ts then
      match f.sourceModules(t.root)
      case Some(names) => Some(SourceModules(t.root, names))
      case None => None
    else
      match f.lock(t.root)
      case None => None
      case Some(lock) =>
        var ms := LockedModules(t.root, lock);
        if forall i :: 0 <= i < |ms| ==> f.isDir(ms[i].dir) then Some(ms) else None
  }

  /** A tree under the index has the modules of the index. */
  predicate IsIndexed(f: Files, t: Tree) {
    f.index.Some? && f.index.value.base == t.root
  }

  /**
    What discovery finds: the first-level directories of sources, or the version directories of a lock, which
    must all be there.
   */
  lemma DiscoverIff(f: Files, t: Tree)
    ensures IsIndexed(f, t) ==> Discover(f, t) == Some(f.index.value.modules)
    ensures !IsIndexed(f, t) ==>
              (Discover(f, t).Some? <==>
                 if t.ts then f.sourceModules(t.root).Some?
                 else f.lock(t.root).Some?
                      && forall i :: 0 <= i < |f.lock(t.root).value| ==>
                           var (m, v) := f.lock(t.root).value[i]; f.isDir(t.root + [m + "-" + v]))
    ensures !IsIndexed(f, t) && Discover(f, t).Some? ==>
              var found := Discover(f, t).value;
              if t.ts then
                var names := f.sourceModules(t.root).value;
                |found| == |names| && forall i :: 0 <= i < |names| ==> found[i] == Found(names[i], t.root + [names[i]])
              else
                var lock := f.lock(t.root).value;
                && |found| == |lock|
                && forall i :: 0 <= i < |lock| ==>
                     found[i] == Found(lock[i].0, t.root + [lock[i].0 + "-" + lock[i].1])
  {
    if f.lock(t.root).Some? {
      var lock := f.lock(t.root).value;
      forall i | 0 <= i < |lock|
        ensures LockedModules(t.root, lock)[i].dir == t.root + [lock[i].0 + "-" + lock[i].1]
      {
      }
    }
  }

  /** The index is what a scan of its tree gives. */
  ghost predicate IndexIsScanned(f: Files) {
    f.index.Some? ==> exists d, skip :: IsScanOf(f.index.value, d, skip)
  }

  ghost predicate IsScanOf(index: Index, d: ModuleScan.Dir, skip: Option<string>) {
    match ModuleScan.ResolveRoots(index.base, d, skip)
    case None => false
    case Some(entries) =>
      && |index.modules| == |entries|
      && forall i :: 0 <= i < |entries| ==> index.modules[i] == Found(entries[i].name, entries[i].root)
  }

  /** Whatever the layout, a module lies inside the tree in which it was found. */
  lemma DiscoveredInTree(f: Files, t: Tree, i: nat)
    requires IndexIsScanned(f) && Discover(f, t).Some? && i < |Discover(f, t).value|
    ensures t.root <= Discover(f, t).value[i].dir
  {
    if f.index.Some? && f.index.value.base == t.root {
      var d, skip :| IsScanOf(f.index.value, d, skip);
      ModuleScan.RootsAreBelow(f.index.value.base, d, skip);
    }
  }

  /** Modules of the first `n` trees, in order. */
  function Discovered(f: Files, trees: seq<Tree>, n: nat): Option<seq<Found>>
    requires n <= |trees|
  {
    if n == 0 then Some([])
    else match (Discovered(f, trees, n - 1), Discover(f, trees[n - 1]))
      case (Some(before), Some(found)) => Some(before + found)
      case _ => None
  }

  function NamesOf(ms: seq<Found>): set<string> {
    set i | 0 <= i < |ms| :: ms[i].name
  }

  predicate NamesDistinct(ms: seq<Found>) {
    forall i, j :: 0 <= i < j < |ms| ==> ms[i].name != ms[j].name
  }

  // ----- the assembly of one generation -----

  /** Module directories with their module names, and tables with their owners. */
  datatype Assembly = Assembly(modules: map<Path, string>, owners: map<string, string>)

  function Own(owners: map<string, string>, tables: seq<string>, name: string): Option<map<string, string>>
    decreases |tables|
  {
    if tables == [] then Some(owners)
    else if tables[0] in owners then None
    else Own(owners[tables[0] := name], tables[1..], name)
  }

  /** Adding one module: its schema must be fine and its tables nobody else's. */
  function AddModule(f: Files, a: Assembly, m: Found): Option<Assembly> {
    if !f.schemaOk(m.name, m.dir) then None
    else match Own(a.owners, f.tables(m.dir), m.name)
      case Some(owners) => Some(Assembly(a.modules[m.dir := m.name], owners))
      case None => None
  }

  /** The assembly of the first `n` modules of a list. */
  function AssembleList(f: Files, ms: seq<Found>, n: nat): Option<Assembly>
    requires n <= |ms|
  {
    if n == 0 then Some(Assembly(map[], map[]))
    else match AssembleList(f, ms, n - 1)
      case Some(a) => AddModule(f, a, ms[n - 1])
      case None => None
  }

  /** What a generation consists of, if the trees can be assembled at all. */
  function Assemble(f: Files, trees: seq<Tree>): Option<Assembly> {
    match Discovered(f, trees, |trees|)
    case None => None
    case Some(ms) => if NamesDistinct(ms) then AssembleList(f, ms, |ms|) else None
  }

  function Names(a: Assembly): set<string> {
    a.modules.Values
  }

  method AddTables(owners: map<string, string>, tables: seq<string>, name: string)
    returns (r: Result<map<string, string>, AssemblyError>)
    ensures r.Ok? <==> Own(owners, tables, name).Some?
    ensures r.Ok? ==> r.value == Own(owners, tables, name).value
  {
    var now := owners;
    for i := 0 to |tables|
      invariant Own(now, tables[i..], name) == Own(owners, tables, name)
    {
      assert tables[i..][1..] == tables[i + 1..];
      if tables[i] in now {
        return Err(DuplicateTable(tables[i]));
      }
      now := now[tables[i] := name];
    }
    return Ok(now);
  }

  lemma PrefixOfDistinct(ms: seq<Found>, n: nat)
    requires n <= |ms| && NamesDistinct(ms)
    ensures NamesDistinct(ms[..n])
  {
  }

  lemma {:induction false} DiscoveredGrows(f: Files, trees: seq<Tree>, n: nat, m: nat)
    requires n <= m <= |trees| && Discovered(f, trees, m).Some?
    ensures Discovered(f, trees, n).Some? && Discovered(f, trees, n).value <= Discovered(f, trees, m).value
  {
    if n < m {
      DiscoveredGrows(f, trees, n, m - 1);
    }
  }

  lemma {:induction false} AssembleFails(f: Files, ms: seq<Found>, n: nat, m: nat)
    requires n <= m <= |ms| && AssembleList(f, ms, n).None?
    ensures AssembleList(f, ms, m).None?
  {
    if n < m {
      AssembleFails(f, ms, n, m - 1);
    }
  }

  lemma {:induction false} AssembleLocal(f: Files, ms: seq<Found>, more: seq<Found>, n: nat)
    requires n <= |ms| && ms <= more
    ensures AssembleList(f, ms, n) == AssembleList(f, more, n)
  {
    if n > 0 {
      AssembleLocal(f, ms, more, n - 1);
    }
  }

  /** Once the list processed so far is bad, no further discovery can repair the assembly. */
  lemma BadPrefix(f: Files, trees: seq<Tree>, n: nat, ms: seq<Found>)
    requires n <= |trees| && Discovered(f, trees, n).Some? && ms <= Discovered(f, trees, n).value
    requires !NamesDistinct(ms) || AssembleList(f, ms, |ms|).None?
    ensures Assemble(f, trees).None?
  {
    if Discovered(f, trees, |trees|).Some? {
      DiscoveredGrows(f, trees, n, |trees|);
      var all := Discovered(f, trees, |trees|).value;
      assert ms == all[..|ms|];
      if NamesDistinct(all) {
        PrefixOfDistinct(all, |ms|);
        AssembleLocal(f, ms, all, |ms|);
        AssembleFails(f, all, |ms|, |all|);
      }
    }
  }

  /** The loop has processed the modules of `done` without finding fault. */
  ghost predicate Progress(f: Files, done: seq<Found>, a: Assembly, owner: map<string, Path>) {
    NamesDistinct(done) && AssembleList(f, done, |done|) == Some(a) && owner.Keys == NamesOf(done)
  }

  lemma ProgressAtStart(f: Files)
    ensures Progress(f, [], Assembly(map[], map[]), map[])
  {
  }

  lemma ProgressAtEnd(f: Files, trees: seq<Tree>, done: seq<Found>, a: Assembly, owner: map<string, Path>)
    requires Discovered(f, trees, |trees|) == Some(done) && Progress(f, done, a, owner)
    ensures Assemble(f, trees) == Some(a)
  {
    hide AssembleList, NamesDistinct, NamesOf;
  }

  lemma ProgressStep(f: Files, done: seq<Found>, a: Assembly, owner: map<string, Path>, m: Found)
    requires Progress(f, done, a, owner)
    ensures m.name in owner ==> !NamesDistinct(done + [m])
    ensures AddModule(f, a, m).None? ==> AssembleList(f, done + [m], |done| + 1).None?
    ensures m.name !in owner && AddModule(f, a, m).Some? ==>
              Progress(f, done + [m], AddModule(f, a, m).value, owner[m.name := m.dir])
  {
    hide AddModule;
    var next := done + [m];
    assert next[|done|] == m;
    assert forall i :: 0 <= i < |done| ==> next[i] == done[i];
    AssembleLocal(f, done, next, |done|);
    assert NamesOf(next) == NamesOf(done) + {m.name};
    if m.name in owner {
      var i :| 0 <= i < |done| && done[i].name == m.name;
      assert next[i].name == next[|done|].name;
    }
  }

  /** The loops of the source: trees, their modules, and the tables of each module. */
  method BuildSchemaAndModules(f: Files, trees: seq<Tree>) returns (r: Result<Assembly, AssemblyError>)
    ensures r.Ok? <==> Assemble(f, trees).Some?
    ensures r.Ok? ==> r.value == Assemble(f, trees).value
  {
    var a := Assembly(map[], map[]);
    var owner: map<string, Path> := map[];
    ghost var done: seq<Found> := [];
    hide AddModule, AssembleList, NamesDistinct, NamesOf, Progress, Assemble, Discover;
    ProgressAtStart(f);
    for t := 0 to |trees|
      invariant Discovered(f, trees, t) == Some(done)
      invariant Progress(f, done, a, owner)
    {
      var found := Discover(f, trees[t]);
      if found.None? {
        NoLaterDiscovery(f, trees, t + 1);
        return Err(DiscoveryFailed(trees[t].root));
      }
      var here := found.value;
      ghost var before := done;
      assert before + here[..0] == before;
      for i := 0 to |here|
        invariant done == before + here[..i]
        invariant Progress(f, done, a, owner)
      {
        var m := here[i];
        ghost var next := done + [m];
        assert next == before + here[..i + 1];
        assert next <= before + here;
        ProgressStep(f, done, a, owner, m);
        if m.name in owner {
          BadPrefix(f, trees, t + 1, next);
          return Err(DuplicateModule(m.name));
        }
        var added := ModuleAdded(f, a, m);
        if added.Err? {
          BadPrefix(f, trees, t + 1, next);
          return Err(added.error);
        }
        a := added.value;
        owner := owner[m.name := m.dir];
        done := next;
      }
      assert here[..|here|] == here;
    }
    ProgressAtEnd(f, trees, done, a, owner);
    return Ok(a);
  }

  lemma {:induction false} NoLaterDiscovery(f: Files, trees: seq<Tree>, n: nat)
    requires n <= |trees| && Discovered(f, trees, n).None?
    ensures Assemble(f, trees).None?
  {
    if Discovered(f, trees, |trees|).Some? {
      DiscoveredGrows(f, trees, n, |trees|);
    }
  }

  method ModuleAdded(f: Files, a: Assembly, m: Found) returns (r: Result<Assembly, AssemblyError>)
    ensures r.Ok? <==> AddModule(f, a, m).Some?
    ensures r.Ok? ==> r.value == AddModule(f, a, m).value
  {
    if !f.schemaOk(m.name, m.dir) {
      return Err(BadSchema(m.name));
    }
    var owners := AddTables(a.owners, f.tables(m.dir), m.name);
    if owners.Err? {
      return Err(owners.error);
    }
    return Ok(Assembly(a.modules[m.dir := m.name], owners.value));
  }

  // ----- which trees make a generation -----

  /** The tables of the first `n` modules, each with the module that declares it. */
  function Declared(f: Files, ms: seq<Found>, n: nat): seq<(string, string)>
    requires n <= |ms|
  {
    if n == 0 then [] else Declared(f, ms, n - 1) + Owned(f.tables(ms[n - 1].dir), ms[n - 1].name)
  }

  function Owned(tables: seq<string>, name: string): (r: seq<(string, string)>)
    ensures |r| == |tables| && forall i :: 0 <= i < |r| ==> r[i] == (tables[i], name)
  {
    seq(|tables|, i requires 0 <= i < |tables| => (tables[i], name))
  }

  predicate TablesDiffer(declared: seq<(string, string)>) {
    forall i, j :: 0 <= i < j < |declared| ==> declared[i].0 != declared[j].0
  }

  /** The owners are those declared, and every table declared has one. */
  ghost predicate OwnersAre(owners: map<string, string>, declared: seq<(string, string)>) {
    && (forall i :: 0 <= i < |declared| ==> declared[i].0 in owners && owners[declared[i].0] == declared[i].1)
    && forall t :: t in owners ==> exists i :: 0 <= i < |declared| && declared[i].0 == t
  }

  lemma OneMoreOwner(owners: map<string, string>, declared: seq<(string, string)>, t: string, name: string)
    requires TablesDiffer(declared) && OwnersAre(owners, declared)
    ensures TablesDiffer(declared + [(t, name)]) <==> t !in owners
    ensures t !in owners ==> OwnersAre(owners[t := name], declared + [(t, name)])
  {
    var more := declared + [(t, name)];
    assert forall i :: 0 <= i < |declared| ==> more[i] == declared[i];
    assert more[|declared|] == (t, name);
    if t in owners {
      var i :| 0 <= i < |declared| && declared[i].0 == t;
      assert more[i].0 == more[|declared|].0;
    }
  }

  lemma FewerTables(a: seq<(string, string)>, b: seq<(string, string)>)
    requires TablesDiffer(a + b)
    ensures TablesDiffer(a)
  {
    assert forall i :: 0 <= i < |a| ==> (a + b)[i] == a[i];
  }

  lemma {:induction false} OwnIff(
    owners: map<string, string>, declared: seq<(string, string)>, tables: seq<string>, name: string)
    requires TablesDiffer(declared) && OwnersAre(owners, declared)
    ensures var all := declared + Owned(tables, name);
            && (Own(owners, tables, name).Some? <==> TablesDiffer(all))
            && (Own(owners, tables, name).Some? ==> OwnersAre(Own(owners, tables, name).value, all))
    decreases |tables|
  {
    hide TablesDiffer, OwnersAre;
    if tables == [] {
      assert declared + Owned(tables, name) == declared;
    } else {
      var next := declared + [(tables[0], name)];
      OneMoreOwner(owners, declared, tables[0], name);
      assert declared + Owned(tables, name) == next + Owned(tables[1..], name);
      if tables[0] in owners {
        if TablesDiffer(next + Owned(tables[1..], name)) {
          FewerTables(next, Owned(tables[1..], name));
        }
      } else {
        OwnIff(owners[tables[0] := name], next, tables[1..], name);
      }
    }
  }

  /** The module directories are those found; of two modules in one directory the later stands. */
  ghost predicate ModulesAre(modules: map<Path, string>, ms: seq<Found>, n: nat)
    requires n <= |ms|
  {
    && (forall i :: 0 <= i < n ==> ms[i].dir in modules)
    && forall dir :: dir in modules ==>
         exists i :: 0 <= i < n && ms[i] == Found(modules[dir], dir) && forall j :: i < j < n ==> ms[j].dir != dir
  }

  lemma OneMoreModule(modules: map<Path, string>, ms: seq<Found>, n: nat)
    requires n < |ms| && ModulesAre(modules, ms, n)
    ensures ModulesAre(modules[ms[n].dir := ms[n].name], ms, n + 1)
  {
    var next := modules[ms[n].dir := ms[n].name];
    forall dir | dir in next
      ensures exists i ::
                0 <= i < n + 1 && ms[i] == Found(next[dir], dir) && forall j :: i < j < n + 1 ==> ms[j].dir != dir
    {
      if dir == ms[n].dir {
        assert ms[n] == Found(next[dir], dir);
      } else {
        var i :| 0 <= i < n && ms[i] == Found(modules[dir], dir) && forall j :: i < j < n ==> ms[j].dir != dir;
      }
    }
  }

  lemma {:induction false} AssembleListIff(f: Files, ms: seq<Found>, n: nat)
    requires n <= |ms|
    ensures AssembleList(f, ms, n).Some? <==>
            TablesDiffer(Declared(f, ms, n)) && forall i :: 0 <= i < n ==> f.schemaOk(ms[i].name, ms[i].dir)
    ensures AssembleList(f, ms, n).Some? ==>
              && OwnersAre(AssembleList(f, ms, n).value.owners, Declared(f, ms, n))
              && ModulesAre(AssembleList(f, ms, n).value.modules, ms, n)
  {
    hide TablesDiffer, OwnersAre, ModulesAre, Own, Owned;
    if n == 0 {
      NothingDeclared(ms);
    } else {
      AssembleListIff(f, ms, n - 1);
      var m, before := ms[n - 1], Declared(f, ms, n - 1);
      if TablesDiffer(before + Owned(f.tables(m.dir), m.name)) {
        FewerTables(before, Owned(f.tables(m.dir), m.name));
      }
      if AssembleList(f, ms, n - 1).Some? {
        var a := AssembleList(f, ms, n - 1).value;
        OwnIff(a.owners, before, f.tables(m.dir), m.name);
        OneMoreModule(a.modules, ms, n - 1);
      }
    }
  }

  lemma NothingDeclared(ms: seq<Found>)
    ensures TablesDiffer([]) && OwnersAre(map[], []) && ModulesAre(map[], ms, 0)
  {
  }

  /** Modules are found exactly where each tree finds them. */
  lemma {:induction false} DiscoveredIff(f: Files, trees: seq<Tree>, n: nat)
    requires n <= |trees|
    ensures Discovered(f, trees, n).Some? <==> forall k :: 0 <= k < n ==> Discover(f, trees[k]).Some?
    ensures Discovered(f, trees, n).Some? ==>
              forall m :: m in Discovered(f, trees, n).value <==>
                          exists k :: 0 <= k < n && m in Discover(f, trees[k]).value
  {
    hide Discover;
    if n > 0 {
      DiscoveredIff(f, trees, n - 1);
    }
  }

  ghost predicate MakeGeneration(f: Files, trees: seq<Tree>) {
    && Discovered(f, trees, |trees|).Some?
    && var ms := Discovered(f, trees, |trees|).value;
       && (forall i, j :: 0 <= i < j < |ms| ==> ms[i].name != ms[j].name)
       && (forall i :: 0 <= i < |ms| ==> f.schemaOk(ms[i].name, ms[i].dir))
       && TablesDiffer(Declared(f, ms, |ms|))
  }

  /**
    The trees make a generation exactly when modules can be found in every one of them, no two modules bear
    the same name, every schema is sound, and no table is declared twice; the generation then consists of
    the modules found, and each table belongs to the module that declares it.
   */
  lemma AssembledIff(f: Files, trees: seq<Tree>)
    ensures Assemble(f, trees).Some? <==> MakeGeneration(f, trees)
    ensures MakeGeneration(f, trees) ==>
              var ms, a := Discovered(f, trees, |trees|).value, Assemble(f, trees).value;
              OwnersAre(a.owners, Declared(f, ms, |ms|)) && ModulesAre(a.modules, ms, |ms|)
  {
    hide Discovered, AssembleList, TablesDiffer, OwnersAre, ModulesAre;
    if Discovered(f, trees, |trees|).Some? {
      var ms := Discovered(f, trees, |trees|).value;
      AssembleListIff(f, ms, |ms|);
    }
  }

  // ----- grants at cold start -----

  datatype PlatformConf = PlatformConf(root: Option<string>, modules: seq<string>)

  function TreeAt(trees: seq<Tree>, root: Path): (r: Option<nat>)
    ensures r.Some? ==> r.value < |trees| && trees[r.value].root == root
  {
    if trees == [] then None
    else if trees[0].root == root then Some(0)
    else match TreeAt(trees[1..], root) case Some(k) => Some(k + 1) case None => None
  }

  predicate Overlaps(a: Path, b: Path) {
    a != b && (a <= b || b <= a)
  }

  /** Names discovered under the controlled root. */
  function ControlledNames(f: Files, p: PlatformConf, trees: seq<Tree>): Result<set<string>, AssemblyError> {
    match p.root
    case None => Err(RootMissing)
    case Some(text) =>
      match f.canonical(text)
      case None => Err(RootNotFound)
      case Some(root) =>
        if exists i :: 0 <= i < |trees| && Overlaps(trees[i].root, root) then Err(RootOverlaps(root))
        else match TreeAt(trees, root)
          case None => Err(RootNotMounted)
          case Some(k) =>
            match Discover(f, trees[k])
            case Some(found) => Ok(NamesOf(found))
            case None => Err(DiscoveryFailed(root))
  }

  /** The first name of the list that is (or is not) installed and not under the controlled root. */
  function FirstOutside(names: seq<string>, candidates: set<string>, controlled: set<string>): (r: Option<string>)
    ensures r.None? ==> forall i :: 0 <= i < |names| && names[i] in candidates ==> names[i] in controlled
    ensures r.Some? ==> r.value in names && r.value in candidates && r.value !in controlled
  {
    if names == [] then None
    else if names[0] in candidates && names[0] !in controlled then Some(names[0])
    else FirstOutside(names[1..], candidates, controlled)
  }

  function AsSet(names: seq<string>): set<string> {
    set i | 0 <= i < |names| :: names[i]
  }

  /** The privileged names, when no privileged module squats in an install tree and none dangles. */
  function PlatformGrants(
    f: Files, conf: Option<PlatformConf>, trees: seq<Tree>, installed: set<string>): Result<set<string>, AssemblyError>
  {
    match conf
    case None => Ok({})
    case Some(p) =>
      if p.modules == [] then Ok({})
      else match ControlledNames(f, p, trees)
        case Err(e) => Err(e)
        case Ok(controlled) =>
          match FirstOutside(p.modules, installed, controlled)
          case Some(name) => Err(Squatting(name))
          case None =>
            match FirstOutside(p.modules, AsSet(p.modules), controlled)
            case Some(name) => Err(Dangling(name))
            case None => Ok(AsSet(p.modules))
  }

  /** The tree at `platform.root` can be searched and lies neither above nor below another mounted tree. */
  predicate RootIsUsable(f: Files, p: PlatformConf, trees: seq<Tree>) {
    && p.root.Some? && f.canonical(p.root.value).Some?
    && var root := f.canonical(p.root.value).value;
       && (forall i :: 0 <= i < |trees| && trees[i].root != root ==>
             !(trees[i].root <= root) && !(root <= trees[i].root))
       && TreeAt(trees, root).Some? && Discover(f, trees[TreeAt(trees, root).value]).Some?
  }

  lemma {:induction false} TreeAtIsFirst(trees: seq<Tree>, root: Path)
    ensures match TreeAt(trees, root)
            case Some(k) => trees[k].root == root && forall j :: 0 <= j < k ==> trees[j].root != root
            case None => forall j :: 0 <= j < |trees| ==> trees[j].root != root
  {
    if trees != [] && trees[0].root != root {
      TreeAtIsFirst(trees[1..], root);
    }
  }

  lemma ControlledIff(f: Files, p: PlatformConf, trees: seq<Tree>)
    ensures ControlledNames(f, p, trees).Ok? <==> RootIsUsable(f, p, trees)
    ensures RootIsUsable(f, p, trees) ==>
              var found := Discover(f, trees[TreeAt(trees, f.canonical(p.root.value).value).value]).value;
              forall name :: name in ControlledNames(f, p, trees).value <==>
                             exists i :: 0 <= i < |found| && found[i].name == name
  {
    hide TreeAt, Discover;
    if RootIsUsable(f, p, trees) {
      var found := Discover(f, trees[TreeAt(trees, f.canonical(p.root.value).value).value]).value;
      assert ControlledNames(f, p, trees) == Ok(NamesOf(found));
      forall name
        ensures name in NamesOf(found) <==> exists i :: 0 <= i < |found| && found[i].name == name
      {
      }
    }
  }

  /**
    The grants are given exactly when nothing is asked for, or the controlled root is usable and every
    privileged name is that of a module found in it; they are then the names asked for.
   */
  lemma GrantsIff(f: Files, conf: Option<PlatformConf>, trees: seq<Tree>, installed: set<string>)
    ensures PlatformGrants(f, conf, trees, installed).Ok? <==>
            conf.Some? && conf.value.modules != [] ==>
              && RootIsUsable(f, conf.value, trees)
              && var k := TreeAt(trees, f.canonical(conf.value.root.value).value).value;
                 forall m :: 0 <= m < |conf.value.modules| ==>
                   exists i :: 0 <= i < |Discover(f, trees[k]).value|
                               && Discover(f, trees[k]).value[i].name == conf.value.modules[m]
    ensures PlatformGrants(f, conf, trees, installed).Ok? ==>
              forall name :: name in PlatformGrants(f, conf, trees, installed).value <==>
                             conf.Some? && name in conf.value.modules
  {
    hide ControlledNames, RootIsUsable, TreeAt, Discover;
    if conf.Some? && conf.value.modules != [] {
      ControlledIff(f, conf.value, trees);
    }
  }

  // ----- where the modules of a generation lie -----

  /** Module `i` of the trees, and the tree it comes from. */
  lemma {:induction false} FoundInTree(f: Files, trees: seq<Tree>, n: nat, i: nat) returns (k: nat)
    requires n <= |trees| && Discovered(f, trees, n).Some? && i < |Discovered(f, trees, n).value|
    ensures k < n && Discover(f, trees[k]).Some? && Discovered(f, trees, n).value[i] in Discover(f, trees[k]).value
  {
    hide Discover;
    var before := Discovered(f, trees, n - 1).value;
    if i < |before| {
      k := FoundInTree(f, trees, n - 1, i);
    } else {
      k := n - 1;
    }
  }

  lemma {:induction false} TreeIsDiscovered(f: Files, trees: seq<Tree>, n: nat, k: nat, m: Found)
    requires k < n <= |trees| && Discovered(f, trees, n).Some?
    requires Discover(f, trees[k]).Some? && m in Discover(f, trees[k]).value
    ensures m in Discovered(f, trees, n).value
  {
    hide Discover;
    if k < n - 1 {
      TreeIsDiscovered(f, trees, n - 1, k, m);
    }
  }

  lemma OnlyOneOfAName(ms: seq<Found>, a: Found, b: Found)
    requires NamesDistinct(ms) && a in ms && b in ms && a.name == b.name
    ensures a == b
  {
    var i :| 0 <= i < |ms| && ms[i] == a;
    var j :| 0 <= j < |ms| && ms[j] == b;
  }

  /** Every directory of an assembly is that of a discovered module of that name. */
  lemma {:induction false} AssembledFrom(f: Files, ms: seq<Found>, n: nat, dir: Path)
    requires n <= |ms| && AssembleList(f, ms, n).Some? && dir in AssembleList(f, ms, n).value.modules
    ensures Found(AssembleList(f, ms, n).value.modules[dir], dir) in ms[..n]
  {
    hide Own;
    if n > 0 {
      var a := AssembleList(f, ms, n - 1).value;
      assert ms[..n] == ms[..n - 1] + [ms[n - 1]];
      if dir in a.modules {
        AssembledFrom(f, ms, n - 1, dir);
      }
    }
  }

  lemma LiveModule(f: Files, trees: seq<Tree>, a: Assembly, dir: Path)
    requires Assemble(f, trees) == Some(a) && dir in a.modules
    ensures Found(a.modules[dir], dir) in Discovered(f, trees, |trees|).value
  {
    hide AssembleList, NamesDistinct, Discovered;
    var all := Discovered(f, trees, |trees|).value;
    AssembledFrom(f, all, |all|, dir);
    assert all[..|all|] == all;
  }

  /** The tree yields a module of this name at or below `root`: it lies below `root` itself, or reaches into it. */
  ghost predicate YieldsUnder(f: Files, t: Tree, name: string, root: Path) {
    && Discover(f, t).Some?
    && exists m :: m in Discover(f, t).value && m.name == name && (root <= t.root || (t.root < root && root <= m.dir))
  }

  ghost predicate YieldsName(f: Files, t: Tree, name: string) {
    Discover(f, t).Some? && name in NamesOf(Discover(f, t).value)
  }

  /** No tree of the mounts has `root` strictly inside it. */
  predicate NoTreeAbove(trees: seq<Tree>, root: Path) {
    forall k :: 0 <= k < |trees| ==> !(trees[k].root < root)
  }

  /**
    For the modules of any generation: a module lies under a directory exactly when one of the mounted
    trees yields its name there.
   */
  lemma LiesUnderIff(f: Files, trees: seq<Tree>, a: Assembly, dir: Path, root: Path)
    requires IndexIsScanned(f) && Assemble(f, trees) == Some(a) && dir in a.modules
    ensures root <= dir <==> exists k :: 0 <= k < |trees| && YieldsUnder(f, trees[k], a.modules[dir], root)
  {
    hide Discover, AssembleList, NamesDistinct, Discovered, IndexIsScanned;
    var all := Discovered(f, trees, |trees|).value;
    var m := Found(a.modules[dir], dir);
    LiveModule(f, trees, a, dir);
    if root <= dir {
      var i :| 0 <= i < |all| && all[i] == m;
      var k := FoundInTree(f, trees, |trees|, i);
      var j :| 0 <= j < |Discover(f, trees[k]).value| && Discover(f, trees[k]).value[j] == m;
      DiscoveredInTree(f, trees[k], j);
      ModuleScan.PrefixesCompare(root, trees[k].root, dir);
      assert YieldsUnder(f, trees[k], m.name, root);
    }
    if k :| 0 <= k < |trees| && YieldsUnder(f, trees[k], m.name, root) {
      var o :| o in Discover(f, trees[k]).value && o.name == m.name
               && (root <= trees[k].root || (trees[k].root < root && root <= o.dir));
      TreeIsDiscovered(f, trees, |trees|, k, o);
      OnlyOneOfAName(all, o, m);
      var j :| 0 <= j < |Discover(f, trees[k]).value| && Discover(f, trees[k]).value[j] == o;
      DiscoveredInTree(f, trees[k], j);
    }
  }

  /**
    Where the mounts respect the rule that cold start enforces and reload does not -- no tree above the
    controlled root -- the condition is that a tree at or below the root yields the name.
   */
  lemma LiesUnderMountedIff(f: Files, trees: seq<Tree>, a: Assembly, dir: Path, root: Path)
    requires IndexIsScanned(f) && Assemble(f, trees) == Some(a) && dir in a.modules && NoTreeAbove(trees, root)
    ensures root <= dir <==>
            exists k :: 0 <= k < |trees| && root <= trees[k].root && YieldsName(f, trees[k], a.modules[dir])
  {
    hide Discover, IndexIsScanned, Assemble;
    LiesUnderIff(f, trees, a, dir, root);
    forall k | 0 <= k < |trees|
      ensures YieldsUnder(f, trees[k], a.modules[dir], root) <==>
              root <= trees[k].root && YieldsName(f, trees[k], a.modules[dir])
    {
      NameIsYielded(f, trees[k], a.modules[dir]);
    }
  }

  lemma NameIsYielded(f: Files, t: Tree, name: string)
    ensures YieldsName(f, t, name) <==> Discover(f, t).Some? && exists m :: m in Discover(f, t).value && m.name == name
  {
    if Discover(f, t).Some? {
      var ms := Discover(f, t).value;
      if name in NamesOf(ms) {
        var i :| 0 <= i < |ms| && ms[i].name == name;
        assert ms[i] in ms;
      }
      if m :| m in ms && m.name == name {
        var i :| 0 <= i < |ms| && ms[i] == m;
      }
    }
  }

  /**
    The grants of a cold start: each privileged name belongs to exactly one module of all mounted trees,
    and the directory of that module lies under `platform.root`.
   */
  lemma GrantsAreControlled(f: Files, p: PlatformConf, trees: seq<Tree>, a: Assembly, name: string)
    requires IndexIsScanned(f) && Assemble(f, trees) == Some(a)
    requires PlatformGrants(f, Some(p), trees, Names(a)).Ok?
    requires name in PlatformGrants(f, Some(p), trees, Names(a)).value
    ensures p.root.Some? && f.canonical(p.root.value).Some?
    ensures exists m ::
              && m in Discovered(f, trees, |trees|).value && m.name == name
              && f.canonical(p.root.value).value <= m.dir
              && forall o :: o in Discovered(f, trees, |trees|).value && o.name == name ==> o == m
  {
    hide AssembleList, Discover, Discovered, NamesDistinct, IndexIsScanned;
    var root := f.canonical(p.root.value).value;
    var k := TreeAt(trees, root).value;
    var found := Discover(f, trees[k]).value;
    assert name in NamesOf(found);
    var i :| 0 <= i < |found| && found[i].name == name;
    var m := found[i];
    DiscoveredInTree(f, trees[k], i);
    TreeIsDiscovered(f, trees, |trees|, k, m);
    forall o | o in Discovered(f, trees, |trees|).value && o.name == name
      ensures o == m
    {
      OnlyOneOfAName(Discovered(f, trees, |trees|).value, o, m);
    }
  }
}

/**
  Cold start and hot reload (oj/src/app.rs, oj/src/serve_cmd.rs). A reload assembles the next generation
  beside the live one: modules, routes with their declared schemas, the table of request contracts. The
  table is installed before the last steps that can still fail; modules and routes are swapped after
  them.
 */
module Reload {
  import opened Wrappers
  import opened Platform
  import Json
  import Schema
  import opened InputContracts
  import BuildLock
  import ImportGraph

  type Host = Schema.Host

  /** One row of a route table: the handler it leads to, and the schema declared for it. */
  datatype Row = Row(key: Key, schema: Option<Json.Json>)

  /**
    Where routes come from: introspection of a source tree; for a release tree, the contents of its
    version directories, the `routes.js` of each, and the rules a route table makes for all its rows.
   */
  datatype RouteFiles = RouteFiles(
    introspect: Path -> Option<seq<Row>>,
    content: Path -> map<string, BuildLock.Content>,
    routes: Path -> Option<seq<Row>>,
    legal: (Path, seq<Row>) -> bool)

  // ----- route tables -----

  /** The rows of the first `n` modules of a lock, each entry checked as it is met. */
  function ReleaseRows(r: RouteFiles, root: Path, lock: seq<(string, string)>, n: nat): Option<seq<Row>>
    requires n <= |lock|
  {
    if n == 0 then Some([])
    else
      var (m, v) := lock[n - 1];
      match (ReleaseRows(r, root, lock, n - 1), BuildLock.LoadEntry(r.content(root), m, v),
             r.routes(root + [ImportGraph.VersionDir(m, v)]))
      case (Some(before), Ok(_), Some(rows)) => Some(before + rows)
      case _ => None
  }

  /** The route table of one mount. An empty lock is an error at cold start only. */
  function MountRows(f: Files, r: RouteFiles, t: Tree, reused: bool): Option<seq<Row>> {
    if t.ts then r.introspect(t.root)
    else
      match f.lock(t.root)
      case None => None
      case Some(lock) =>
        if lock == [] && !reused then None
        else match ReleaseRows(r, t.root, lock, |lock|)
          case None => None
          case Some(rows) => if r.legal(t.root, rows) then Some(rows) else None
  }

  function AllRows(f: Files, r: RouteFiles, trees: seq<Tree>, n: nat, reused: bool): Option<seq<Row>>
    requires n <= |trees|
  {
    if n == 0 then Some([])
    else match (AllRows(f, r, trees, n - 1, reused), MountRows(f, r, trees[n - 1], reused))
      case (Some(before), Some(rows)) => Some(before + rows)
      case _ => None
  }

  predicate AllDeclarable(h: Host, rows: seq<Row>) {
    forall i :: 0 <= i < |rows| && rows[i].schema.Some? ==> Declarable(h, rows[i].schema.value)
  }

  function Insertions(rows: seq<Row>): seq<Insertion> {
    if rows == [] then []
    else match rows[0].schema
      case Some(schema) => [Insertion(rows[0].key, DeclaredContract(schema))] + Insertions(rows[1..])
      case None => Insertions(rows[1..])
  }

  /** The contract table of a route table. */
  function TableOf(h: Host, rows: seq<Row>): Registry {
    RunInserts(h, Registry(map[], map[]), Insertions(rows))
  }

  // ----- generations -----

  /** What requests meet: the modules, the routes, and the table of request contracts. */
  datatype Live = Live(assembly: Assembly, rows: seq<Row>, contracts: Registry)

  /**
    One attempt: the files, routes and mounts of its moment, and whether requests are to be validated.
    `gatesOk` stands for the configuration and migration gates before the routes are built, `laterOk`
    for all steps after the contracts are in place, the handover of the task pool included.
   */
  datatype Attempt = Attempt(
    files: Files, routes: RouteFiles, trees: seq<Tree>, validate: bool, gatesOk: bool, laterOk: bool)

  /** The routes of an attempt, if it gets past building and auditing them. */
  function Routes(h: Host, a: Attempt, reused: bool): Option<seq<Row>> {
    if !a.gatesOk then None
    else match AllRows(a.files, a.routes, a.trees, |a.trees|, reused)
      case None => None
      case Some(rows) => if AllDeclarable(h, rows) then Some(rows) else None
  }

  /** The first generation and the privileged names, if the server comes up. */
  function ColdStart(h: Host, conf: Option<PlatformConf>, a: Attempt): Option<(Live, set<string>)> {
    match Assemble(a.files, a.trees)
    case None => None
    case Some(assembly) =>
      match (PlatformGrants(a.files, conf, a.trees, Names(assembly)), Routes(h, a, false))
      case (Ok(privileged), Some(rows)) =>
        if a.laterOk then
          Some((Live(assembly, rows, if a.validate then TableOf(h, rows) else Registry(map[], map[])), privileged))
        else None
      case _ => None
  }

  /** A privileged name that the old generation did not have. */
  predicate Squats(privileged: set<string>, live: Assembly, next: Assembly) {
    exists name :: name in Names(next) && name in privileged && name !in Names(live)
  }

  function ReloadStep(h: Host, privileged: set<string>, s: Live, a: Attempt): (Live, bool) {
    match Assemble(a.files, a.trees)
    case None => (s, false)
    case Some(next) =>
      if Squats(privileged, s.assembly, next) then (s, false)
      else match Routes(h, a, true)
        case None => (s, false)
        case Some(rows) =>
          var t := if a.validate then s.(contracts := TableOf(h, rows)) else s;
          if a.laterOk then (Live(next, rows, t.contracts), true) else (t, false)
  }

  // ----- the loops of the source -----

  lemma {:induction false} NoLaterRows(f: Files, r: RouteFiles, trees: seq<Tree>, n: nat, m: nat, reused: bool)
    requires n <= m <= |trees| && AllRows(f, r, trees, n, reused).None?
    ensures AllRows(f, r, trees, m, reused).None?
  {
    if n < m {
      NoLaterRows(f, r, trees, n, m - 1, reused);
    }
  }

  lemma {:induction false} NoLaterRelease(r: RouteFiles, root: Path, lock: seq<(string, string)>, n: nat, m: nat)
    requires n <= m <= |lock| && ReleaseRows(r, root, lock, n).None?
    ensures ReleaseRows(r, root, lock, m).None?
  {
    if n < m {
      NoLaterRelease(r, root, lock, n, m - 1);
    }
  }

  method LoadRelease(r: RouteFiles, root: Path, lock: seq<(string, string)>) returns (rows: Option<seq<Row>>)
    ensures rows == ReleaseRows(r, root, lock, |lock|)
  {
    hide BuildLock.LoadEntry;
    var out: seq<Row> := [];
    for i := 0 to |lock|
      invariant ReleaseRows(r, root, lock, i) == Some(out)
    {
      var (m, v) := lock[i];
      var entry := BuildLock.LoadEntry(r.content(root), m, v);
      var more := r.routes(root + [ImportGraph.VersionDir(m, v)]);
      if entry.Err? || more.None? {
        NoLaterRelease(r, root, lock, i + 1, |lock|);
        return None;
      }
      out := out + more.value;
    }
    return Some(out);
  }

  method LoadRoutes(f: Files, r: RouteFiles, trees: seq<Tree>, reused: bool) returns (rows: Option<seq<Row>>)
    ensures rows == AllRows(f, r, trees, |trees|, reused)
  {
    var out: seq<Row> := [];
    for i := 0 to |trees|
      invariant AllRows(f, r, trees, i, reused) == Some(out)
    {
      var here := LoadMount(f, r, trees[i], reused);
      if here.None? {
        NoLaterRows(f, r, trees, i + 1, |trees|, reused);
        return None;
      }
      out := out + here.value;
    }
    return Some(out);
  }

  method LoadMount(f: Files, r: RouteFiles, t: Tree, reused: bool) returns (rows: Option<seq<Row>>)
    ensures rows == MountRows(f, r, t, reused)
  {
    if t.ts {
      return r.introspect(t.root);
    }
    var lock := f.lock(t.root);
    if lock.None? || (lock.value == [] && !reused) {
      return None;
    }
    rows := LoadRelease(r, t.root, lock.value);
    if rows.Some? && !r.legal(t.root, rows.value) {
      return None;
    }
  }

  method AuditRows(h: Host, rows: seq<Row>) returns (ok: bool)
    ensures ok <==> AllDeclarable(h, rows)
  {
    hide Declarable;
    for i := 0 to |rows|
      invariant forall j :: 0 <= j < i && rows[j].schema.Some? ==> Declarable(h, rows[j].schema.value)
    {
      if rows[i].schema.Some? {
        var r := AuditSchema(h, rows[i].schema.value);
        if r.Err? {
          return false;
        }
      }
    }
    return true;
  }

  /** A fresh registry, filled row by row; after the audit no registration can fail. */
  method RegisterRows(h: Host, rows: seq<Row>) returns (reg: InputContractRegistry)
    requires AllDeclarable(h, rows)
    ensures fresh(reg) && reg.Contents() == TableOf(h, rows)
  {
    hide Declarable, InsertStep;
    reg := new InputContractRegistry();
    assert rows[0..] == rows;
    for i := 0 to |rows|
      invariant RunInserts(h, reg.Contents(), Insertions(rows[i..])) == TableOf(h, rows)
    {
      assert rows[i..][1..] == rows[i + 1..];
      if rows[i].schema.Some? {
        InsertNext(h, reg.Contents(), rows, i);
        var r := reg.Insert(h, rows[i].key, DeclaredContract(rows[i].schema.value));
      }
    }
  }

  lemma InsertNext(h: Host, reg: Registry, rows: seq<Row>, i: nat)
    requires i < |rows| && rows[i].schema.Some?
    ensures var c := DeclaredContract(rows[i].schema.value);
            RunInserts(h, reg, Insertions(rows[i..])) ==
            RunInserts(h, InsertStep(h, reg, rows[i].key, c), Insertions(rows[i + 1..]))
  {
    hide InsertStep;
    assert rows[i..][1..] == rows[i + 1..];
    var op := Insertion(rows[i].key, DeclaredContract(rows[i].schema.value));
    assert ([op] + Insertions(rows[i + 1..]))[1..] == Insertions(rows[i + 1..]);
  }

  class Backend {
    const privileged: set<string>
    var assembly: Assembly
    var rows: seq<Row>
    var registry: InputContractRegistry

    ghost function State(): Live
      reads this, registry
    {
      Live(assembly, rows, registry.Contents())
    }

    constructor (a: Assembly, rows: seq<Row>, registry: InputContractRegistry, privileged: set<string>)
      ensures State() == Live(a, rows, registry.Contents()) && this.privileged == privileged
    {
      this.privileged := privileged;
      this.assembly, this.rows, this.registry := a, rows, registry;
    }

    /** The squatting check walks the modules of the next generation. */
    method Squatter(next: Assembly) returns (r: bool)
      ensures r <==> Squats(privileged, assembly, next)
    {
      var todo := next.modules.Keys;
      while todo != {}
        invariant todo <= next.modules.Keys
        invariant forall d :: d in next.modules.Keys - todo ==>
                    !(next.modules[d] in privileged && next.modules[d] !in Names(assembly))
        decreases |todo|
      {
        var d :| d in todo;
        if next.modules[d] in privileged && next.modules[d] !in Names(assembly) {
          assert next.modules[d] in Names(next);
          return true;
        }
        todo := todo - {d};
      }
      return false;
    }

    /** Shadow assembly, routes, audit, contracts, and only then the swap. */
    method Reload(h: Host, a: Attempt) returns (accepted: bool)
      modifies this
      ensures (State(), accepted) == ReloadStep(h, privileged, old(State()), a)
    {
      hide Assemble, Squats, AllRows, AllDeclarable, TableOf;
      var shadow := BuildSchemaAndModules(a.files, a.trees);
      if shadow.Err? {
        return false;
      }
      var squats := Squatter(shadow.value);
      if squats || !a.gatesOk {
        return false;
      }
      var loaded := LoadRoutes(a.files, a.routes, a.trees, true);
      if loaded.None? {
        return false;
      }
      var audited := AuditRows(h, loaded.value);
      if !audited {
        return false;
      }
      if a.validate {
        registry := RegisterRows(h, loaded.value);
      }
      if !a.laterOk {
        return false;
      }
      assembly, rows := shadow.value, loaded.value;
      return true;
    }
  }

  // ----- runs -----

  function Run(h: Host, privileged: set<string>, s: Live, attempts: seq<Attempt>): Live
    decreases |attempts|
  {
    if attempts == [] then s else Run(h, privileged, ReloadStep(h, privileged, s, attempts[0]).0, attempts[1..])
  }

  /** The privileged names that are live. */
  function LivePrivileged(privileged: set<string>, s: Live): set<string> {
    Names(s.assembly) * privileged
  }

  /** Over every run of reload attempts the live privileged names never grow. */
  lemma {:induction false} PrivilegesNeverGrow(h: Host, privileged: set<string>, s: Live, attempts: seq<Attempt>)
    ensures LivePrivileged(privileged, Run(h, privileged, s, attempts)) <= LivePrivileged(privileged, s)
    decreases |attempts|
  {
    hide Assemble, Routes, TableOf;
    if attempts != [] {
      PrivilegesNeverGrow(h, privileged, ReloadStep(h, privileged, s, attempts[0]).0, attempts[1..]);
    }
  }

  // ----- the contract table, attempt by attempt -----

  function ContractFor(reg: Registry, key: Key): Option<InputContract> {
    if key in reg.contracts then Some(reg.contracts[key]) else None
  }

  /** What a route table declares for a handler: the last schema given for it. */
  function Declares(rows: seq<Row>, key: Key): Option<InputContract> {
    if rows == [] then None
    else match Declares(rows[1..], key)
      case Some(c) => Some(c)
      case None =>
        match rows[0].schema
        case Some(schema) => if rows[0].key == key then Some(DeclaredContract(schema)) else None
        case None => None
  }

  lemma {:induction false} InsertsDeclare(h: Host, reg: Registry, rows: seq<Row>, key: Key)
    requires AllDeclarable(h, rows)
    ensures ContractFor(RunInserts(h, reg, Insertions(rows)), key) ==
            match Declares(rows, key) case Some(c) => Some(c) case None => ContractFor(reg, key)
    decreases |rows|
  {
    hide KnownChannels, Registrable, Compile, ContractPatterns;
    if rows != [] {
      assert rows[0..] == rows;
      assert AllDeclarable(h, rows[1..]);
      if rows[0].schema.Some? {
        var c := DeclaredContract(rows[0].schema.value);
        InsertNext(h, reg, rows, 0);
        InsertsDeclare(h, InsertStep(h, reg, rows[0].key, c), rows[1..], key);
      } else {
        InsertsDeclare(h, reg, rows[1..], key);
      }
    }
  }

  /** A contract table holds for each handler what the routes declare for it, and nothing else. */
  lemma TableHoldsDeclarations(h: Host, rows: seq<Row>, key: Key)
    requires AllDeclarable(h, rows)
    ensures ContractFor(TableOf(h, rows), key) == Declares(rows, key)
  {
    InsertsDeclare(h, Registry(map[], map[]), rows, key);
  }

  lemma {:induction false} DeclaresNothingIff(rows: seq<Row>, key: Key)
    ensures Declares(rows, key).None? <==> forall i :: 0 <= i < |rows| && rows[i].key == key ==> rows[i].schema.None?
    decreases |rows|
  {
    if rows != [] {
      DeclaresNothingIff(rows[1..], key);
      assert forall i :: 1 <= i < |rows| ==> rows[i] == rows[1..][i - 1];
    }
  }

  /** The attempt gets as far as replacing the contract table. */
  predicate Installs(h: Host, privileged: set<string>, live: Assembly, a: Attempt) {
    && Assemble(a.files, a.trees).Some?
    && !Squats(privileged, live, Assemble(a.files, a.trees).value)
    && Routes(h, a, true).Some?
    && a.validate
  }

  /** The contract of a handler after an attempt, accepted or not. */
  lemma ContractAfter(h: Host, privileged: set<string>, s: Live, a: Attempt, key: Key)
    ensures ContractFor(ReloadStep(h, privileged, s, a).0.contracts, key) ==
            if Installs(h, privileged, s.assembly, a) then Declares(Routes(h, a, true).value, key)
            else ContractFor(s.contracts, key)
  {
    hide Assemble, Squats, TableOf, AllRows, AllDeclarable;
    if Installs(h, privileged, s.assembly, a) {
      TableHoldsDeclarations(h, Routes(h, a, true).value, key);
    }
  }

  /**
    "A failed reload changes nothing": for modules and routes, always. For the contracts, exactly when
    the attempt does not get as far as installing its table, or its routes declare for every handler
    what was in force.
   */
  lemma RejectedReloadChangesNothingIff(h: Host, privileged: set<string>, s: Live, a: Attempt)
    requires !ReloadStep(h, privileged, s, a).1
    ensures var after := ReloadStep(h, privileged, s, a).0;
            && after.assembly == s.assembly && after.rows == s.rows
            && ((forall key :: ContractFor(after.contracts, key) == ContractFor(s.contracts, key)) <==>
                Installs(h, privileged, s.assembly, a) ==>
                  forall key :: Declares(Routes(h, a, true).value, key) == ContractFor(s.contracts, key))
  {
    hide Assemble, Squats, TableOf, Routes, Declares, ContractFor, Installs;
    var after := ReloadStep(h, privileged, s, a).0;
    RejectedKeepsGeneration(h, privileged, s, a);
    InstalledHasRoutes(h, privileged, s.assembly, a);
    forall key
      ensures ContractFor(after.contracts, key) ==
              if Installs(h, privileged, s.assembly, a) then Declares(Routes(h, a, true).value, key)
              else ContractFor(s.contracts, key)
    {
      ContractAfter(h, privileged, s, a, key);
    }
  }

  lemma RejectedKeepsGeneration(h: Host, privileged: set<string>, s: Live, a: Attempt)
    requires !ReloadStep(h, privileged, s, a).1
    ensures ReloadStep(h, privileged, s, a).0.assembly == s.assembly
    ensures ReloadStep(h, privileged, s, a).0.rows == s.rows
  {
    hide Assemble, Squats, TableOf, Routes;
  }

  /** Every request to the handler reaches JS unchecked. */
  ghost predicate Unchecked(h: Host, reg: Registry, key: Key) {
    forall req :: CheckRequest(h, reg, key, req) == Ok(())
  }

  /**
    What that means for a live route: a rejected attempt strips it of its contract, so that requests pass
    unchecked, exactly when the attempt installs a table whose routes give the handler no schema.
   */
  lemma RejectedReloadStripsRouteIff(h: Host, privileged: set<string>, s: Live, a: Attempt, key: Key)
    requires !ReloadStep(h, privileged, s, a).1 && ContractFor(s.contracts, key).Some?
    ensures var after := ReloadStep(h, privileged, s, a).0.contracts;
            && (ContractFor(after, key).None? <==>
                && Installs(h, privileged, s.assembly, a)
                && var rows := Routes(h, a, true).value;
                   forall i :: 0 <= i < |rows| && rows[i].key == key ==> rows[i].schema.None?)
            && (ContractFor(after, key).None? ==> Unchecked(h, after, key))
  {
    hide Assemble, Squats, TableOf, AllRows, AllDeclarable, Declares;
    ContractAfter(h, privileged, s, a, key);
    if Installs(h, privileged, s.assembly, a) {
      DeclaresNothingIff(Routes(h, a, true).value, key);
    }
  }

  // ----- the contract table over runs -----

  /** The routes of the last attempt that installed its table, whether it was accepted or not. */
  function LastInstalled(h: Host, privileged: set<string>, s: Live, attempts: seq<Attempt>): Option<seq<Row>>
    decreases |attempts|
  {
    if attempts == [] then None
    else match LastInstalled(h, privileged, ReloadStep(h, privileged, s, attempts[0]).0, attempts[1..])
      case Some(rows) => Some(rows)
      case None => if Installs(h, privileged, s.assembly, attempts[0]) then Routes(h, attempts[0], true) else None
  }

  function LastAccepted(h: Host, privileged: set<string>, s: Live, attempts: seq<Attempt>): Option<Attempt>
    decreases |attempts|
  {
    if attempts == [] then None
    else
      var (next, ok) := ReloadStep(h, privileged, s, attempts[0]);
      match LastAccepted(h, privileged, next, attempts[1..])
      case Some(a) => Some(a)
      case None => if ok then Some(attempts[0]) else None
  }

  lemma AcceptedStep(h: Host, privileged: set<string>, s: Live, a: Attempt)
    requires ReloadStep(h, privileged, s, a).1
    ensures Assemble(a.files, a.trees).Some? && Routes(h, a, true).Some?
    ensures ReloadStep(h, privileged, s, a).0.assembly == Assemble(a.files, a.trees).value
    ensures ReloadStep(h, privileged, s, a).0.rows == Routes(h, a, true).value
  {
    hide Assemble, Squats, TableOf, Routes;
  }

  /** After any run, modules and routes are those of the last accepted attempt. */
  lemma {:induction false} GenerationOfRun(h: Host, privileged: set<string>, s: Live, attempts: seq<Attempt>)
    ensures var t := Run(h, privileged, s, attempts);
            match LastAccepted(h, privileged, s, attempts)
            case None => t.assembly == s.assembly && t.rows == s.rows
            case Some(a) =>
              && Assemble(a.files, a.trees) == Some(t.assembly) && Routes(h, a, true) == Some(t.rows)
    decreases |attempts|
  {
    hide ReloadStep, Assemble, Routes;
    if attempts != [] {
      var (next, ok) := ReloadStep(h, privileged, s, attempts[0]);
      GenerationOfRun(h, privileged, next, attempts[1..]);
      if ok {
        AcceptedStep(h, privileged, s, attempts[0]);
      } else {
        RejectedKeepsGeneration(h, privileged, s, attempts[0]);
      }
    }
  }

  /** After any run, the contract of a handler is what the last installed routes declare for it. */
  lemma {:induction false} ContractsOfRun(h: Host, privileged: set<string>, s: Live, attempts: seq<Attempt>, key: Key)
    ensures ContractFor(Run(h, privileged, s, attempts).contracts, key) ==
            match LastInstalled(h, privileged, s, attempts)
            case Some(rows) => Declares(rows, key)
            case None => ContractFor(s.contracts, key)
    decreases |attempts|
  {
    hide ReloadStep, Routes, Installs, ContractFor, Declares;
    if attempts != [] {
      ContractsOfRun(h, privileged, ReloadStep(h, privileged, s, attempts[0]).0, attempts[1..], key);
      ContractAfter(h, privileged, s, attempts[0], key);
      InstalledHasRoutes(h, privileged, s.assembly, attempts[0]);
    }
  }

  lemma InstalledHasRoutes(h: Host, privileged: set<string>, live: Assembly, a: Attempt)
    ensures Installs(h, privileged, live, a) ==> Routes(h, a, true).Some?
  {
    hide Assemble, Squats, Routes;
  }

  /** Every live route is held to exactly the schema it declares. */
  ghost predicate InForce(s: Live) {
    forall key :: ContractFor(s.contracts, key) == Declares(s.rows, key)
  }

  /** What a server enforces when it comes up: the schemas of its routes, or nothing without validation. */
  lemma ColdStartEnforces(h: Host, conf: Option<PlatformConf>, start: Attempt, key: Key)
    requires ColdStart(h, conf, start).Some?
    ensures var s := ColdStart(h, conf, start).value.0;
            ContractFor(s.contracts, key) == Declares(if start.validate then s.rows else [], key)
  {
    hide Assemble, PlatformGrants, TableOf, AllRows, AllDeclarable;
    var s := ColdStart(h, conf, start).value.0;
    if start.validate {
      hide ContractFor, Declares;
      TableHoldsDeclarations(h, s.rows, key);
    }
  }

  /** The routes whose schemas are enforced after a run. */
  function Enforced(h: Host, conf: Option<PlatformConf>, start: Attempt, attempts: seq<Attempt>): seq<Row>
    requires ColdStart(h, conf, start).Some?
  {
    var (s, privileged) := ColdStart(h, conf, start).value;
    match LastInstalled(h, privileged, s, attempts)
    case Some(rows) => rows
    case None => if start.validate then s.rows else []
  }

  /** The contract of a handler is what the enforced routes declare for it. */
  lemma LiveContract(h: Host, conf: Option<PlatformConf>, start: Attempt, attempts: seq<Attempt>, key: Key)
    requires ColdStart(h, conf, start).Some?
    ensures var (s, privileged) := ColdStart(h, conf, start).value;
            ContractFor(Run(h, privileged, s, attempts).contracts, key) ==
            Declares(Enforced(h, conf, start, attempts), key)
  {
    hide ColdStart, Run, LastInstalled, ContractFor, Declares;
    var (s, privileged) := ColdStart(h, conf, start).value;
    ContractsOfRun(h, privileged, s, attempts, key);
    ColdStartEnforces(h, conf, start, key);
  }

  /**
    Are the live routes held to their own schemas, from when a server comes up and through any run?
    Exactly when the routes installed last and the routes accepted last declare the same -- rejected
    attempts that had installed theirs, and accepted ones that did not validate, are what drives the
    two apart.
   */
  lemma InForceAfterRunIff(h: Host, conf: Option<PlatformConf>, start: Attempt, attempts: seq<Attempt>)
    requires ColdStart(h, conf, start).Some?
    ensures var (s, privileged) := ColdStart(h, conf, start).value;
            var t := Run(h, privileged, s, attempts);
            InForce(t) <==> forall key :: Declares(Enforced(h, conf, start, attempts), key) == Declares(t.rows, key)
  {
    hide ColdStart, Run, LastInstalled, ContractFor, Declares;
    var (s, privileged) := ColdStart(h, conf, start).value;
    var t, enforced := Run(h, privileged, s, attempts), Enforced(h, conf, start, attempts);
    forall key
      ensures ContractFor(t.contracts, key) == Declares(enforced, key)
    {
      LiveContract(h, conf, start, attempts, key);
    }
    if InForce(t) {
      forall key
        ensures Declares(enforced, key) == Declares(t.rows, key)
      {
        assert ContractFor(t.contracts, key) == Declares(t.rows, key);
      }
    } else {
      var key :| ContractFor(t.contracts, key) != Declares(t.rows, key);
      assert Declares(enforced, key) != Declares(t.rows, key);
    }
  }

  /** An accepted attempt that validates puts things right, whatever came before. */
  lemma AcceptedReloadHeals(h: Host, privileged: set<string>, s: Live, a: Attempt)
    requires ReloadStep(h, privileged, s, a).1 && a.validate
    ensures InForce(ReloadStep(h, privileged, s, a).0)
  {
    hide Assemble, Squats, TableOf, Routes, ContractFor, Declares;
    var after := ReloadStep(h, privileged, s, a).0;
    assert Installs(h, privileged, s.assembly, a);
    AcceptedStep(h, privileged, s, a);
    forall key
      ensures ContractFor(after.contracts, key) == Declares(after.rows, key)
    {
      ContractAfter(h, privileged, s, a, key);
    }
  }

  lemma StepKeepsSound(h: Host, privileged: set<string>, s: Live, a: Attempt)
    requires Sound(h, s.contracts)
    ensures Sound(h, ReloadStep(h, privileged, s, a).0.contracts)
  {
    hide Assemble, Squats, Routes, Sound, RunInserts;
    TableIsSound(h);
  }

  lemma TableIsSound(h: Host)
    ensures forall rows :: Sound(h, TableOf(h, rows))
    ensures Sound(h, Registry(map[], map[]))
  {
    hide Sound, RunInserts;
    EmptyIsSound(h);
    forall rows
      ensures Sound(h, TableOf(h, rows))
    {
      RunKeepsSound(h, Registry(map[], map[]), Insertions(rows));
    }
  }

  lemma {:induction false} RunKeepsTableSound(h: Host, privileged: set<string>, s: Live, attempts: seq<Attempt>)
    requires Sound(h, s.contracts)
    ensures Sound(h, Run(h, privileged, s, attempts).contracts)
    decreases |attempts|
  {
    hide ReloadStep, Sound;
    if attempts != [] {
      StepKeepsSound(h, privileged, s, attempts[0]);
      RunKeepsTableSound(h, privileged, ReloadStep(h, privileged, s, attempts[0]).0, attempts[1..]);
    }
  }

  lemma LiveTableIsSound(h: Host, conf: Option<PlatformConf>, start: Attempt, attempts: seq<Attempt>)
    requires ColdStart(h, conf, start).Some?
    ensures var (s, privileged) := ColdStart(h, conf, start).value;
            Sound(h, Run(h, privileged, s, attempts).contracts)
  {
    hide Assemble, PlatformGrants, Routes, TableOf, Sound, Run;
    var (s, privileged) := ColdStart(h, conf, start).value;
    TableIsSound(h);
    RunKeepsTableSound(h, privileged, s, attempts);
  }

  /**
    From cold start through any run of accepted and rejected attempts the live table is sound: no request
    to any handler ever meets an internal error of the validator.
   */
  lemma LiveRequestsNeverFailInternally(
    h: Host, conf: Option<PlatformConf>, start: Attempt, attempts: seq<Attempt>, key: Key, req: Request)
    requires ColdStart(h, conf, start).Some?
    ensures var (s, privileged) := ColdStart(h, conf, start).value;
            match CheckRequest(h, Run(h, privileged, s, attempts).contracts, key, req)
            case Err(f) => !IsInternalFailure(f)
            case Ok(_) => true
  {
    hide ColdStart, Sound, Run, CheckRequest, IsInternalFailure;
    var (s, privileged) := ColdStart(h, conf, start).value;
    LiveTableIsSound(h, conf, start, attempts);
    SoundNeverFailsInternally(h, Run(h, privileged, s, attempts).contracts, key, req);
  }

  // ----- where privileged modules lie -----

  ghost predicate AllIndexesScanned(attempts: seq<Attempt>) {
    forall i :: 0 <= i < |attempts| ==> IndexIsScanned(attempts[i].files)
  }

  lemma {:induction false} LastAcceptedIsOne(h: Host, privileged: set<string>, s: Live, attempts: seq<Attempt>)
    ensures match LastAccepted(h, privileged, s, attempts) case None => true case Some(a) => a in attempts
    decreases |attempts|
  {
    hide ReloadStep;
    if attempts != [] {
      LastAcceptedIsOne(h, privileged, ReloadStep(h, privileged, s, attempts[0]).0, attempts[1..]);
    }
  }

  /**
    Privilege goes by name, and reload checks names only. So from cold start through any run, every live
    privileged name was controlled at cold start; but its module still lies under `platform.root` exactly
    when nothing was accepted since, or the attempt accepted last mounts a tree that yields the name
    there.
   */
  lemma PrivilegedDirAfterRunIff(
    h: Host, p: PlatformConf, start: Attempt, attempts: seq<Attempt>, dir: Path)
    requires ColdStart(h, Some(p), start).Some?
    requires IndexIsScanned(start.files) && AllIndexesScanned(attempts)
    requires var (s, privileged) := ColdStart(h, Some(p), start).value;
             var t := Run(h, privileged, s, attempts);
             dir in t.assembly.modules && t.assembly.modules[dir] in privileged
    ensures p.root.Some? && start.files.canonical(p.root.value).Some?
    ensures var (s, privileged) := ColdStart(h, Some(p), start).value;
            var name := Run(h, privileged, s, attempts).assembly.modules[dir];
            var root := start.files.canonical(p.root.value).value;
            && name in Names(s.assembly)
            && (root <= dir <==>
                match LastAccepted(h, privileged, s, attempts)
                case None => true
                case Some(a) => exists k :: 0 <= k < |a.trees| && YieldsUnder(a.files, a.trees[k], name, root))
  {
    hide Assemble, PlatformGrants, Routes, TableOf, Run, LastAccepted, YieldsUnder, IndexIsScanned, Discovered;
    var (s, privileged) := ColdStart(h, Some(p), start).value;
    var t := Run(h, privileged, s, attempts);
    var name := t.assembly.modules[dir];
    assert name in LivePrivileged(privileged, t);
    PrivilegesNeverGrow(h, privileged, s, attempts);
    assert name in LivePrivileged(privileged, s);
    GrantsAreControlled(start.files, p, start.trees, s.assembly, name);
    GenerationOfRun(h, privileged, s, attempts);
    LastAcceptedIsOne(h, privileged, s, attempts);
    match LastAccepted(h, privileged, s, attempts)
    case None =>
      ColdStartDirIsControlled(start.files, p, start.trees, s.assembly, dir);
    case Some(a) =>
      var root := start.files.canonical(p.root.value).value;
      LiesUnderIff(a.files, a.trees, t.assembly, dir, root);
  }

  lemma ColdStartDirIsControlled(f: Files, p: PlatformConf, trees: seq<Tree>, a: Assembly, dir: Path)
    requires IndexIsScanned(f) && Assemble(f, trees) == Some(a) && dir in a.modules
    requires PlatformGrants(f, Some(p), trees, Names(a)).Ok?
    requires a.modules[dir] in PlatformGrants(f, Some(p), trees, Names(a)).value
    ensures p.root.Some? && f.canonical(p.root.value).Some? && f.canonical(p.root.value).value <= dir
  {
    hide Assemble, PlatformGrants, IndexIsScanned, Discovered;
    GrantsAreControlled(f, p, trees, a, a.modules[dir]);
    LiveModule(f, trees, a, dir);
  }
}

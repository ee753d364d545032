/** Two runs of cold start and one reload, in which what one would expect of a reload fails. */
module ReloadInstances {
  import opened Wrappers
  import opened Platform
  import Json
  import Schema
  import Contract
  import opened InputContracts
  import opened Reload

  /** Every source tree holds one module of this name and no tables; there is no index. */
  function OneModuleFiles(name: string): Files {
    Files(None, root => Some([name]), root => None, d => true, (n, d) => true, d => [], text => Some([text]))
  }

  /** Every source tree declares these routes. */
  function SameRoutes(rows: seq<Row>): RouteFiles {
    RouteFiles(root => Some(rows), root => map[], d => None, (root, all) => true)
  }

  /** One source tree, and everything in order but perhaps the last steps. */
  function OneTree(name: string, root: Path, rows: seq<Row>, laterOk: bool): Attempt {
    Attempt(OneModuleFiles(name), SameRoutes(rows), [Tree(root, true)], true, true, laterOk)
  }

  lemma OneTreeAssembles(name: string, root: Path)
    ensures Discover(OneModuleFiles(name), Tree(root, true)) == Some([Found(name, root + [name])])
    ensures Assemble(OneModuleFiles(name), [Tree(root, true)]) == Some(Assembly(map[root + [name] := name], map[]))
  {
    var f, trees := OneModuleFiles(name), [Tree(root, true)];
    var ms := [Found(name, root + [name])];
    assert SourceModules(root, [name]) == ms;
    assert Discovered(f, trees, 0) == Some([]);
    assert [] + ms == ms;
    assert Discovered(f, trees, 1) == Some(ms);
    assert AssembleList(f, ms, 0) == Some(Assembly(map[], map[]));
    assert f.tables(root + [name]) == [];
  }

  lemma OneTreeRoutes(h: Host, name: string, root: Path, rows: seq<Row>, laterOk: bool, reused: bool)
    requires AllDeclarable(h, rows)
    ensures Routes(h, OneTree(name, root, rows, laterOk), reused) == Some(rows)
  {
    hide AllDeclarable;
    var a := OneTree(name, root, rows, laterOk);
    assert AllRows(a.files, a.routes, a.trees, 0, reused) == Some([]);
    assert [] + rows == rows;
  }

  lemma OneTreeIsGranted(name: string, text: string, trees: seq<Tree>)
    requires trees == [Tree([text], true)]
    ensures PlatformGrants(OneModuleFiles(name), Some(PlatformConf(Some(text), [name])), trees, {name}) == Ok({name})
  {
    var f := OneModuleFiles(name);
    var found := [Found(name, [text] + [name])];
    OneTreeAssembles(name, [text]);
    assert NamesOf(found) == {name};
    assert TreeAt(trees, [text]) == Some(0);
    assert ControlledNames(f, PlatformConf(Some(text), [name]), trees) == Ok({name});
    assert AsSet([name]) == {name};
  }

  /**
    A privileged module lies under the controlled root; an accepted attempt mounts another tree instead,
    which has a module of that name of its own. The name is still privileged, and its module is the other.
   */
  lemma PrivilegeCanMove(h: Host, name: string, text: string, elsewhere: string)
    returns (p: PlatformConf, start: Attempt, next: Attempt)
    requires text != elsewhere
    ensures IndexIsScanned(start.files) && IndexIsScanned(next.files) && start.files.canonical(text) == Some([text])
    ensures p == PlatformConf(Some(text), [name]) && ColdStart(h, Some(p), start).Some?
    ensures var (s, privileged) := ColdStart(h, Some(p), start).value;
            var (after, accepted) := ReloadStep(h, privileged, s, next);
            && accepted && privileged == {name}
            && s.assembly.modules == map[[text, name] := name]
            && after.assembly.modules == map[[elsewhere, name] := name]
  {
    p := PlatformConf(Some(text), [name]);
    start := OneTree(name, [text], [], true);
    next := OneTree(name, [elsewhere], [], true);
    OneTreeAssembles(name, [text]);
    OneTreeAssembles(name, [elsewhere]);
    OneTreeRoutes(h, name, [text], [], true, false);
    OneTreeRoutes(h, name, [elsewhere], [], true, true);
    OneTreeIsGranted(name, text, start.trees);
    assert [text] + [name] == [text, name] && [elsewhere] + [name] == [elsewhere, name];
    MoveInstance(h, p, start, next, [text, name], [elsewhere, name], name);
  }

  lemma NamesOfOne(dir: Path, name: string)
    ensures Names(Assembly(map[dir := name], map[])) == {name}
  {
    var modules: map<Path, string> := map[dir := name];
    assert modules[dir] in modules.Values;
  }

  lemma MoveInstance(h: Host, p: PlatformConf, start: Attempt, next: Attempt, here: Path, there: Path, name: string)
    requires Assemble(start.files, start.trees) == Some(Assembly(map[here := name], map[]))
    requires Assemble(next.files, next.trees) == Some(Assembly(map[there := name], map[]))
    requires Routes(h, start, false).Some? && Routes(h, next, true).Some? && start.laterOk && next.laterOk
    requires PlatformGrants(start.files, Some(p), start.trees, {name}) == Ok({name})
    ensures ColdStart(h, Some(p), start).Some?
    ensures var (s, privileged) := ColdStart(h, Some(p), start).value;
            var (after, accepted) := ReloadStep(h, privileged, s, next);
            && accepted && privileged == {name}
            && s.assembly.modules == map[here := name] && after.assembly.modules == map[there := name]
  {
    hide Assemble, Routes, TableOf, PlatformGrants, Names;
    NamesOfOne(here, name);
    NamesOfOne(there, name);
  }

  /** A schema that wants the body to be a text. */
  function TextBody(): Json.Json {
    Json.Obj([Json.Field("type", Json.Str("string"))])
  }

  lemma TextBodyIsDeclarable(h: Host)
    ensures var schema := Json.Obj([Json.Field("body", TextBody())]);
            Declarable(h, schema) && DeclaredContract(schema) == InputContract(None, None, Some(TextBody()))
  {
    var schema := Json.Obj([Json.Field("body", TextBody())]);
    assert SCHEMA_CHANNELS[2] == "body";
    assert Json.Get(schema, "body") == Some(TextBody());
    assert Json.Get(TextBody(), "type") == Some(Json.Str("string"));
    assert Schema.SUPPORTED_KEYWORDS[0] == "type" && Schema.ALL_TYPES[0] == "string";
    assert Schema.LocallyAudited(h, TextBody());
  }

  lemma TextBodyRefusesNull(h: Host, pats: Contract.Patterns)
    ensures Contract.CheckValue(h, TextBody(), Json.Null, [], pats).Err?
  {
    assert Json.Get(TextBody(), "type") == Some(Json.Str("string"));
    assert Json.Get(TextBody(), "nullable") == None;
    assert Schema.ALL_TYPES[0] == "string";
    assert Schema.DeclaredTypes(Json.Str("string")) == Ok(["string"]);
    assert Contract.TypeGate(TextBody(), Json.Null) == Some(Contract.WrongType);
  }

  /**
    A live route demands a body; an attempt comes without its schema, installs its table, and then fails.
    The route is the same as before, and requests without a body, refused until then, pass.
   */
  lemma RejectedReloadCanStripRoute(h: Host, key: Key, name: string, root: Path)
    returns (start: Attempt, next: Attempt, req: Request)
    ensures ColdStart(h, None, start).Some?
    ensures var (s, privileged) := ColdStart(h, None, start).value;
            var (after, accepted) := ReloadStep(h, privileged, s, next);
            && !accepted && after.rows == s.rows && after.assembly == s.assembly
            && CheckRequest(h, s.contracts, key, req).Err?
            && Unchecked(h, after.contracts, key)
  {
    var schema := Json.Obj([Json.Field("body", TextBody())]);
    var before, bare := [Row(key, Some(schema))], [Row(key, None)];
    start := OneTree(name, root, before, true);
    next := OneTree(name, root, bare, false);
    req := Request([], [], "");
    TextBodyIsDeclarable(h);
    OneTreeAssembles(name, root);
    OneTreeRoutes(h, name, root, before, true, false);
    OneTreeRoutes(h, name, root, bare, false, true);
    StripInstance(h, start, next, key, before, bare, req);
  }

  lemma StripInstance(h: Host, start: Attempt, next: Attempt, key: Key, before: seq<Row>, bare: seq<Row>, req: Request)
    requires before == [Row(key, Some(Json.Obj([Json.Field("body", TextBody())])))] && bare == [Row(key, None)]
    requires Assemble(start.files, start.trees).Some?
    requires Assemble(next.files, next.trees) == Assemble(start.files, start.trees)
    requires Routes(h, start, false) == Some(before) && Routes(h, next, true) == Some(bare)
    requires start.laterOk && !next.laterOk && start.validate && next.validate && req == Request([], [], "")
    ensures ColdStart(h, None, start).Some?
    ensures var (s, privileged) := ColdStart(h, None, start).value;
            var (after, accepted) := ReloadStep(h, privileged, s, next);
            && !accepted && after.rows == s.rows && after.assembly == s.assembly
            && CheckRequest(h, s.contracts, key, req).Err?
            && Unchecked(h, after.contracts, key)
  {
    hide Assemble, TableOf, Routes, Unchecked, TextBody, CheckRequest;
    var (s, privileged) := ColdStart(h, None, start).value;
    assert privileged == {};
    BodyIsDemanded(h, before, key, req);
    assert s.contracts == TableOf(h, before);
    RejectedReloadStripsRouteIff(h, privileged, s, next, key);
  }

  /**
    Validation is switched off along with the last schema: the attempt is accepted, and the old contract
    goes on refusing requests that no live route refuses any more.
   */
  lemma AcceptedReloadCanKeepContracts(h: Host, key: Key, name: string, root: Path)
    returns (start: Attempt, next: Attempt, req: Request)
    ensures start.validate && !next.validate && ColdStart(h, None, start).Some?
    ensures var (s, privileged) := ColdStart(h, None, start).value;
            var (after, accepted) := ReloadStep(h, privileged, s, next);
            && accepted && InForce(s) && !InForce(after)
            && Declares(after.rows, key) == None && CheckRequest(h, after.contracts, key, req).Err?
  {
    var schema := Json.Obj([Json.Field("body", TextBody())]);
    var before, bare := [Row(key, Some(schema))], [Row(key, None)];
    start := OneTree(name, root, before, true);
    next := OneTree(name, root, bare, true).(validate := false);
    req := Request([], [], "");
    TextBodyIsDeclarable(h);
    OneTreeAssembles(name, root);
    OneTreeRoutes(h, name, root, before, true, false);
    OneTreeRoutes(h, name, root, bare, true, true);
    assert Routes(h, next, true) == Routes(h, OneTree(name, root, bare, true), true);
    KeepInstance(h, start, next, key, before, bare, req);
  }

  lemma KeepInstance(h: Host, start: Attempt, next: Attempt, key: Key, before: seq<Row>, bare: seq<Row>, req: Request)
    requires before == [Row(key, Some(Json.Obj([Json.Field("body", TextBody())])))] && bare == [Row(key, None)]
    requires Assemble(start.files, start.trees).Some?
    requires Assemble(next.files, next.trees) == Assemble(start.files, start.trees)
    requires Routes(h, start, false) == Some(before) && Routes(h, next, true) == Some(bare)
    requires start.laterOk && next.laterOk && start.validate && !next.validate && req == Request([], [], "")
    ensures ColdStart(h, None, start).Some?
    ensures var (s, privileged) := ColdStart(h, None, start).value;
            var (after, accepted) := ReloadStep(h, privileged, s, next);
            && accepted && InForce(s) && !InForce(after)
            && Declares(after.rows, key) == None && CheckRequest(h, after.contracts, key, req).Err?
  {
    hide Assemble, TableOf, Routes, TextBody, CheckRequest, ContractFor, Declares;
    var (s, privileged) := ColdStart(h, None, start).value;
    assert privileged == {};
    BodyIsDemanded(h, before, key, req);
    forall k
      ensures ContractFor(s.contracts, k) == Declares(s.rows, k)
    {
      ColdStartEnforces(h, None, start, k);
    }
    NothingDeclared(key);
    var after := ReloadStep(h, privileged, s, next).0;
    assert after.rows == bare && after.contracts == TableOf(h, before);
    assert ContractFor(after.contracts, key) != Declares(after.rows, key);
  }

  lemma NothingDeclared(key: Key)
    ensures Declares([Row(key, None)], key) == None
  {
    assert [Row(key, None)][1..] == [];
  }

  lemma BodyIsDemanded(h: Host, rows: seq<Row>, key: Key, req: Request)
    requires rows == [Row(key, Some(Json.Obj([Json.Field("body", TextBody())])))] && req == Request([], [], "")
    ensures ContractFor(TableOf(h, rows), key).Some?
    ensures CheckRequest(h, TableOf(h, rows), key, req).Err?
  {
    hide TextBody, TableOf, Contract.CheckValue;
    TextBodyIsDeclarable(h);
    assert AllDeclarable(h, rows) by {
      hide Declarable;
    }
    TableHoldsDeclarations(h, rows, key);
    assert Declares(rows, key) == Some(InputContract(None, None, Some(TextBody()))) by {
      hide DeclaredContract;
      assert rows[1..] == [];
    }
    TextBodyRefusesNull(h, TableOf(h, rows).patterns);
  }
}

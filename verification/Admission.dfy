/**
  What a live server lets through (oj/src/app.rs), said without the functions that decide it: which attempts
  are accepted, which routes they bring, and which requests the routes accept after any run of reloads.
 */
module Admission {
  import opened Wrappers
  import opened Platform
  import Json
  import opened InputContracts
  import opened JsonSchema
  import Schema
  import ImportGraph
  import BuildLock
  import opened Reload

  // ----- which route tables can be built -----

  function Flatten(parts: seq<seq<Row>>): seq<Row> {
    if parts == [] then [] else parts[0] + Flatten(parts[1..])
  }

  lemma {:induction false} FlattenLast(parts: seq<seq<Row>>, last: seq<Row>)
    ensures Flatten(parts + [last]) == Flatten(parts) + last
  {
    if parts == [] {
      assert ([] + [last])[1..] == [];
    } else {
      assert (parts + [last])[1..] == parts[1..] + [last];
      FlattenLast(parts[1..], last);
    }
  }

  /** A lock entry that can be served: its directory is complete and its own, and its routes can be read. */
  predicate IsServable(r: RouteFiles, root: Path, m: string, v: string) {
    && ImportGraph.ValidModule(m) && ImportGraph.ValidVersion(v)
    && m + "-" + v in r.content(root) && r.content(root)[m + "-" + v] == BuildLock.Complete(BuildLock.Manifest(m, v))
    && r.routes(root + [m + "-" + v]).Some?
  }

  /** The route tables of the first `n` entries of a lock, in order. */
  function Parts(r: RouteFiles, root: Path, lock: seq<(string, string)>, n: nat): seq<seq<Row>>
    requires n <= |lock| && forall i :: 0 <= i < n ==> IsServable(r, root, lock[i].0, lock[i].1)
  {
    if n == 0 then []
    else
      var (m, v) := lock[n - 1];
      assert IsServable(r, root, lock[n - 1].0, lock[n - 1].1);
      Parts(r, root, lock, n - 1) + [r.routes(root + [m + "-" + v]).value]
  }

  lemma {:induction false} ReleaseRowsIff(r: RouteFiles, root: Path, lock: seq<(string, string)>, n: nat)
    requires n <= |lock|
    ensures ReleaseRows(r, root, lock, n).Some? <==>
            forall i :: 0 <= i < n ==> IsServable(r, root, lock[i].0, lock[i].1)
    ensures ReleaseRows(r, root, lock, n).Some? ==>
              ReleaseRows(r, root, lock, n).value == Flatten(Parts(r, root, lock, n))
  {
    hide IsServable, BuildLock.LoadEntry;
    if n > 0 {
      ReleaseRowsIff(r, root, lock, n - 1);
      EntryIff(r, root, lock[n - 1].0, lock[n - 1].1);
      if ReleaseRows(r, root, lock, n).Some? {
        FlattenLast(Parts(r, root, lock, n - 1), r.routes(root + [lock[n - 1].0 + "-" + lock[n - 1].1]).value);
      }
    }
  }

  lemma EntryIff(r: RouteFiles, root: Path, m: string, v: string)
    ensures BuildLock.LoadEntry(r.content(root), m, v).Ok? && r.routes(root + [m + "-" + v]).Some? <==>
            IsServable(r, root, m, v)
    ensures ImportGraph.VersionDir(m, v) == m + "-" + v
  {
    BuildLock.LoadsIff(r.content(root), m, v);
  }

  /** The routes of one mount can be had: from the sources, or from a lock all of whose entries can be served. */
  predicate CanRoute(f: Files, r: RouteFiles, t: Tree, reused: bool) {
    if t.ts then r.introspect(t.root).Some?
    else
      && f.lock(t.root).Some?
      && var lock := f.lock(t.root).value;
         && (lock == [] ==> reused)
         && (forall i :: 0 <= i < |lock| ==> IsServable(r, t.root, lock[i].0, lock[i].1))
         && r.legal(t.root, Flatten(Parts(r, t.root, lock, |lock|)))
  }

  function RoutesOf(f: Files, r: RouteFiles, t: Tree, reused: bool): seq<Row>
    requires CanRoute(f, r, t, reused)
  {
    if t.ts then r.introspect(t.root).value
    else var lock := f.lock(t.root).value; Flatten(Parts(r, t.root, lock, |lock|))
  }

  lemma MountRowsIff(f: Files, r: RouteFiles, t: Tree, reused: bool)
    ensures MountRows(f, r, t, reused).Some? <==> CanRoute(f, r, t, reused)
    ensures CanRoute(f, r, t, reused) ==> MountRows(f, r, t, reused) == Some(RoutesOf(f, r, t, reused))
  {
    hide IsServable, Flatten, Parts, ReleaseRows;
    if !t.ts && f.lock(t.root).Some? {
      ReleaseRowsIff(r, t.root, f.lock(t.root).value, |f.lock(t.root).value|);
    }
  }

  /** The route tables of the first `n` mounts, in order. */
  function MountParts(f: Files, r: RouteFiles, trees: seq<Tree>, n: nat, reused: bool): seq<seq<Row>>
    requires n <= |trees| && forall i :: 0 <= i < n ==> CanRoute(f, r, trees[i], reused)
  {
    if n == 0 then [] else MountParts(f, r, trees, n - 1, reused) + [RoutesOf(f, r, trees[n - 1], reused)]
  }

  lemma {:induction false} AllRowsIff(f: Files, r: RouteFiles, trees: seq<Tree>, n: nat, reused: bool)
    requires n <= |trees|
    ensures AllRows(f, r, trees, n, reused).Some? <==> forall i :: 0 <= i < n ==> CanRoute(f, r, trees[i], reused)
    ensures AllRows(f, r, trees, n, reused).Some? ==>
              AllRows(f, r, trees, n, reused).value == Flatten(MountParts(f, r, trees, n, reused))
  {
    hide CanRoute, RoutesOf, MountRows;
    if n > 0 {
      AllRowsIff(f, r, trees, n - 1, reused);
      MountRowsIff(f, r, trees[n - 1], reused);
      if AllRows(f, r, trees, n, reused).Some? {
        FlattenLast(MountParts(f, r, trees, n - 1, reused), RoutesOf(f, r, trees[n - 1], reused));
      }
    }
  }

  // ----- which attempts are accepted -----

  /** The routes of an attempt can be built, and every schema they declare can be enforced. */
  predicate HasRoutes(h: Host, a: Attempt, reused: bool) {
    && a.gatesOk && (forall i :: 0 <= i < |a.trees| ==> CanRoute(a.files, a.routes, a.trees[i], reused))
    && var rows := Flatten(MountParts(a.files, a.routes, a.trees, |a.trees|, reused));
       forall i :: 0 <= i < |rows| && rows[i].schema.Some? ==> IsDeclaration(h, rows[i].schema.value)
  }

  /** A `.schema` declaration: known channels, strings where strings arrive, and schemas that can be enforced. */
  predicate IsDeclaration(h: Host, s: Json.Json) {
    && s.Obj?
    && (forall i :: 0 <= i < |s.fields| ==>
          var key := s.fields[i].key; key == "params" || key == "query" || key == "body" || key == "response")
    && (match Json.Get(s, "params") case Some(p) => IsStringSchema(h, p) case None => true)
    && (match Json.Get(s, "query") case Some(q) => IsStringSchema(h, q) case None => true)
    && (match Json.Get(s, "body") case Some(b) => IsSchema(h, b) case None => true)
    && (match Json.Get(s, "response") case Some(r) => IsSchema(h, r) case None => true)
  }

  lemma ChannelsAre(key: string)
    ensures key in SCHEMA_CHANNELS <==> key == "params" || key == "query" || key == "body" || key == "response"
  {
  }

  lemma KnownChannelsIff(s: Json.Json)
    ensures KnownChannels(s) <==>
            s.Obj? && forall i :: 0 <= i < |s.fields| ==>
              var key := s.fields[i].key; key == "params" || key == "query" || key == "body" || key == "response"
  {
    hide SCHEMA_CHANNELS;
    if s.Obj? {
      forall i | 0 <= i < |s.fields|
        ensures s.fields[i].key in SCHEMA_CHANNELS <==>
                var key := s.fields[i].key; key == "params" || key == "query" || key == "body" || key == "response"
      {
        ChannelsAre(s.fields[i].key);
      }
    }
  }

  lemma DeclarationIff(h: Host, s: Json.Json)
    ensures Declarable(h, s) <==> IsDeclaration(h, s)
  {
    hide KnownChannels, IsStringSchema, IsSchema, Json.Get;
    KnownChannelsIff(s);
    forall v
      ensures Schema.ScalarChannel(h, v) <==> IsStringSchema(h, v)
      ensures Schema.Audited(h, v) <==> IsSchema(h, v)
    {
      StringChannelIff(h, v);
      AuditedIff(h, v);
    }
  }

  lemma RoutesIff(h: Host, a: Attempt, reused: bool)
    ensures Routes(h, a, reused).Some? <==> HasRoutes(h, a, reused)
    ensures HasRoutes(h, a, reused) ==>
              Routes(h, a, reused).value == Flatten(MountParts(a.files, a.routes, a.trees, |a.trees|, reused))
  {
    hide CanRoute, MountParts, Flatten, AllRows, Declarable, IsDeclaration;
    AllRowsIff(a.files, a.routes, a.trees, |a.trees|, reused);
    if AllRows(a.files, a.routes, a.trees, |a.trees|, reused).Some? {
      var rows := AllRows(a.files, a.routes, a.trees, |a.trees|, reused).value;
      forall i | 0 <= i < |rows| && rows[i].schema.Some?
        ensures Declarable(h, rows[i].schema.value) <==> IsDeclaration(h, rows[i].schema.value)
      {
        DeclarationIff(h, rows[i].schema.value);
      }
    }
  }

  /**
    A reload is accepted exactly when its trees make a generation, that brings no privileged name the live
    one lacks, the gates are passed, every mount has its routes, every schema can be enforced, and the
    last steps succeed; the live routes are then those of its mounts, in order.
   */
  lemma AcceptedIff(h: Host, privileged: set<string>, s: Live, a: Attempt)
    ensures ReloadStep(h, privileged, s, a).1 <==>
            && Assemble(a.files, a.trees).Some?
            && (forall name :: name in Names(Assemble(a.files, a.trees).value) && name in privileged ==>
                  name in Names(s.assembly))
            && HasRoutes(h, a, true) && a.laterOk
    ensures ReloadStep(h, privileged, s, a).1 ==>
              var after := ReloadStep(h, privileged, s, a).0;
              && after.assembly == Assemble(a.files, a.trees).value
              && after.rows == Flatten(MountParts(a.files, a.routes, a.trees, |a.trees|, true))
  {
    hide Assemble, Names, Routes, HasRoutes, MountParts, TableOf;
    RoutesIff(h, a, true);
  }

  /** The same for a server that comes up; here the grants are checked, and no lock may be empty. */
  lemma ComesUpIff(h: Host, conf: Option<PlatformConf>, a: Attempt)
    ensures ColdStart(h, conf, a).Some? <==>
            && Assemble(a.files, a.trees).Some?
            && PlatformGrants(a.files, conf, a.trees, Names(Assemble(a.files, a.trees).value)).Ok?
            && HasRoutes(h, a, false) && a.laterOk
    ensures ColdStart(h, conf, a).Some? ==>
              ColdStart(h, conf, a).value.0.rows == Flatten(MountParts(a.files, a.routes, a.trees, |a.trees|, false))
  {
    hide Assemble, Names, PlatformGrants, Routes, HasRoutes, MountParts, TableOf;
    RoutesIff(h, a, false);
  }

  // ----- which requests are let through -----

  /** The schema given last for a handler. */
  function LastSchema(rows: seq<Row>, key: Key): Option<Json.Json> {
    if rows == [] then None
    else
      var last := rows[|rows| - 1];
      if last.key == key && last.schema.Some? then last.schema else LastSchema(rows[..|rows| - 1], key)
  }

  lemma {:induction false} DeclaresSplits(rows: seq<Row>, last: Row, key: Key)
    ensures Declares(rows + [last], key) ==
            if last.key == key && last.schema.Some?
            then Some(DeclaredContract(last.schema.value))
            else Declares(rows, key)
    decreases |rows|
  {
    if rows == [] {
      assert ([] + [last])[1..] == [];
    } else {
      assert (rows + [last])[1..] == rows[1..] + [last];
      DeclaresSplits(rows[1..], last, key);
    }
  }

  lemma {:induction false} DeclaresLast(rows: seq<Row>, key: Key)
    ensures Declares(rows, key) ==
            match LastSchema(rows, key) case Some(schema) => Some(DeclaredContract(schema)) case None => None
    decreases |rows|
  {
    hide DeclaredContract;
    if rows != [] {
      var init, last := rows[..|rows| - 1], rows[|rows| - 1];
      assert rows == init + [last];
      DeclaresLast(init, key);
      DeclaresSplits(init, last, key);
    }
  }

  /** A request meets a declared schema: params, query and body each meet their part, where there is one. */
  ghost predicate MeetsDeclaration(h: Host, schema: Json.Json, req: Request) {
    && StringsMeet(h, Json.Get(schema, "params"), req.params)
    && StringsMeet(h, Json.Get(schema, "query"), req.query)
    && BodyMeets(h, Json.Get(schema, "body"), req.body)
  }

  /**
    From cold start through any run of accepted and rejected attempts, for every handler and every request:
    it is let through exactly when the schema enforced for the handler, if there is one, is met.
   */
  lemma LiveGateIff(
    h: Host, conf: Option<PlatformConf>, start: Attempt, attempts: seq<Attempt>, key: Key, req: Request)
    requires ColdStart(h, conf, start).Some?
    ensures var (s, privileged) := ColdStart(h, conf, start).value;
            CheckRequest(h, Run(h, privileged, s, attempts).contracts, key, req).Ok? <==>
            match LastSchema(Enforced(h, conf, start, attempts), key)
            case None => true
            case Some(schema) => MeetsDeclaration(h, schema, req)
  {
    hide ColdStart, Run, Sound, CheckRequest, StringsMeet, BodyMeets, Declares, LastSchema, Enforced;
    var (s, privileged) := ColdStart(h, conf, start).value;
    var t := Run(h, privileged, s, attempts);
    LiveTableIsSound(h, conf, start, attempts);
    LiveContract(h, conf, start, attempts, key);
    DeclaresLast(Enforced(h, conf, start, attempts), key);
    LetsInIff(h, t.contracts, key, req);
  }
}

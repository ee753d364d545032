/**
  The output tree of `oj build` and its version lock (oj/src/build_cmd.rs, oj/src/manifest.rs), against
  what a release server demands of every lock entry (oj/src/app.rs). Directory names `module-version`
  are not injective, and building a module first clears its version directory.
 */
module BuildLock {
  import opened Wrappers
  import opened ImportGraph

  datatype Manifest = Manifest(name: string, version: string)

  /** A version directory is complete once the manifest has been copied into it. */
  datatype Content = Partial | Complete(manifest: Manifest)

  type Lock = map<string, string>

  datatype Dist = Dist(dirs: map<string, Content>, lock: Lock)

  // ----- the consumer -----

  datatype LoadError =
    | IllegalModule
    | IllegalVersion
    | ManifestMissing
    | NameMismatch(found: string)
    | VersionMismatch(found: string)

  /** The checks a release server makes on one lock entry before it reads the routes. */
  function LoadEntry(dirs: map<string, Content>, m: string, v: string): Result<Manifest, LoadError> {
    if !ValidModule(m) then Err(IllegalModule)
    else if !ValidVersion(v) then Err(IllegalVersion)
    else if VersionDir(m, v) !in dirs then Err(ManifestMissing)
    else match dirs[VersionDir(m, v)]
      case Partial => Err(ManifestMissing)
      case Complete(found) =>
        if found.name != m then Err(NameMismatch(found.name))
        else if found.version != v then Err(VersionMismatch(found.version))
        else Ok(found)
  }

  predicate Loadable(d: Dist, m: string)
    requires m in d.lock
  {
    LoadEntry(d.dirs, m, d.lock[m]).Ok?
  }

  predicate AllLoadable(d: Dist) {
    forall m :: m in d.lock ==> Loadable(d, m)
  }

  // ----- one module -----

  /** Where a build of one module stops, if anything goes wrong outside the checks modelled here. */
  datatype Fault = NoFault | BeforeClean | BeforeManifest | BeforeLock | AfterLock

  type Sources = map<string, Manifest>

  /** Clear and refill the version directory, then enter the module into the lock, then pack. */
  function BuildStep(d: Dist, src: Sources, name: string, fault: Fault): (Dist, bool) {
    if !ValidModule(name) || name !in src then (d, false)
    else
      var m := src[name];
      if m.name != name || !ValidVersion(m.version) || fault == BeforeClean then (d, false)
      else
        var vdir := VersionDir(name, m.version);
        if fault == BeforeManifest then (d.(dirs := d.dirs[vdir := Partial]), false)
        else
          var filled := d.(dirs := d.dirs[vdir := Complete(m)]);
          if fault == BeforeLock then (filled, false)
          else (filled.(lock := d.lock[name := m.version]), fault == NoFault)
  }

  /** The modules of a plan from the i-th on, up to the first failure. */
  function BuildFrom(d: Dist, src: Sources, names: seq<string>, faults: string -> Fault, i: nat): (Dist, bool)
    requires i <= |names|
    decreases |names| - i
  {
    if i == |names| then (d, true)
    else
      var (next, ok) := BuildStep(d, src, names[i], faults(names[i]));
      if ok then BuildFrom(next, src, names, faults, i + 1) else (next, false)
  }

  // ----- the whole command -----

  /** The lock overridden by the versions of the plan. */
  function View(lock: Lock, src: Sources, names: seq<string>): Lock
    requires forall i :: 0 <= i < |names| ==> names[i] in src
  {
    lock + (map n | n in names :: src[n].version)
  }

  lemma ViewExtends(lock: Lock, src: Sources, names: seq<string>, i: nat)
    requires i < |names| && forall k :: 0 <= k < |names| ==> names[k] in src
    ensures View(lock, src, names[..i + 1]) == View(lock, src, names[..i])[names[i] := src[names[i]].version]
  {
    assert names[..i + 1] == names[..i] + [names[i]];
  }

  /** Each planned name once. */
  predicate IsPlan(src: Sources, names: seq<string>) {
    && (forall i :: 0 <= i < |names| ==> names[i] in src)
    && forall i, j :: 0 <= i < j < |names| ==> names[i] != names[j]
  }

  datatype Outcome = Built | Checked | Collision | CheckFailed | BuildFailed

  function RunStep(
    d: Dist, src: Sources, names: seq<string>, checksPass: bool, checkOnly: bool, faults: string -> Fault)
    : (Dist, Outcome)
    requires IsPlan(src, names)
  {
    if !NoCollision(View(d.lock, src, names)) then (d, Collision)
    else if !checksPass then (d, CheckFailed)
    else if checkOnly then (d, Checked)
    else
      var (after, ok) := BuildFrom(d, src, names, faults, 0);
      (after, if ok then Built else BuildFailed)
  }

  predicate SameDir(view: Lock, m: string, n: string)
    requires m in view && n in view
  {
    VersionDir(m, view[m]) == VersionDir(n, view[n])
  }

  /** The collision check collects directory names in a set. */
  method CheckCollisions(view: Lock) returns (ok: bool)
    ensures ok <==> NoCollision(view)
  {
    var vdirs: set<string> := {};
    var todo := view.Keys;
    while todo != {}
      invariant todo <= view.Keys
      invariant forall d :: d in vdirs <==> exists m :: m in view.Keys - todo && VersionDir(m, view[m]) == d
      invariant forall m, n :: m in view.Keys - todo && n in view.Keys - todo && SameDir(view, m, n) ==> m == n
      decreases |todo|
    {
      var m :| m in todo;
      var vd := VersionDir(m, view[m]);
      if vd in vdirs {
        return false;
      }
      vdirs := vdirs + {vd};
      todo := todo - {m};
    }
    assert forall m, n :: m in view && n in view && SameDir(view, m, n) ==> m == n;
    return true;
  }

  class OutputTree {
    var dirs: map<string, Content>
    var lock: Lock

    ghost function Contents(): Dist
      reads this
    {
      Dist(dirs, lock)
    }

    method BuildOne(src: Sources, name: string, fault: Fault) returns (ok: bool)
      modifies this
      ensures (Contents(), ok) == BuildStep(old(Contents()), src, name, fault)
    {
      if !ValidModule(name) || name !in src {
        return false;
      }
      var m := src[name];
      if m.name != name || !ValidVersion(m.version) || fault == BeforeClean {
        return false;
      }
      var vdir := VersionDir(name, m.version);
      if vdir in dirs {
        dirs := dirs - {vdir};
      }
      dirs := dirs[vdir := Partial];
      if fault == BeforeManifest {
        assert dirs == old(dirs)[vdir := Partial];
        return false;
      }
      dirs := dirs[vdir := Complete(m)];
      assert dirs == old(dirs)[vdir := Complete(m)];
      if fault == BeforeLock {
        return false;
      }
      lock := lock[name := m.version];
      return fault == NoFault;
    }

    method Run(src: Sources, names: seq<string>, checksPass: bool, checkOnly: bool, faults: string -> Fault)
      returns (r: Outcome)
      requires IsPlan(src, names)
      modifies this
      ensures (Contents(), r) == RunStep(old(Contents()), src, names, checksPass, checkOnly, faults)
    {
      var view := lock;
      assert View(lock, src, names[..0]) == lock;
      hide BuildStep, NoCollision, View;
      for i := 0 to |names|
        invariant view == View(lock, src, names[..i])
        invariant Contents() == old(Contents())
      {
        ViewExtends(lock, src, names, i);
        view := view[names[i] := src[names[i]].version];
      }
      assert names[..|names|] == names;
      var distinct := CheckCollisions(view);
      if !distinct {
        return Collision;
      }
      if !checksPass {
        return CheckFailed;
      }
      if checkOnly {
        return Checked;
      }
      for i := 0 to |names|
        invariant BuildFrom(Contents(), src, names, faults, i) == BuildFrom(old(Contents()), src, names, faults, 0)
      {
        var ok := BuildOne(src, names[i], faults(names[i]));
        if !ok {
          return BuildFailed;
        }
      }
      return Built;
    }
  }

  // ----- what a run keeps -----

  /** Lock entries that are not waiting to be rebuilt: they agree with the view and load. */
  ghost predicate Settled(d: Dist, view: Lock, pending: set<string>) {
    forall m :: m in d.lock && m !in pending ==> m in view && view[m] == d.lock[m] && Loadable(d, m)
  }

  /** Writing one version directory cannot disturb an entry of the view with another name. */
  lemma OtherEntriesStay(d: Dist, view: Lock, m: string, name: string, c: Content)
    requires NoCollision(view) && m in view && name in view && m != name
    requires m in d.lock && d.lock[m] == view[m]
    ensures LoadEntry(d.dirs[VersionDir(name, view[name]) := c], m, view[m]) == LoadEntry(d.dirs, m, view[m])
  {
  }

  /** One build step settles its module, or leaves at most that module unsettled. */
  lemma StepSettles(d: Dist, src: Sources, view: Lock, pending: set<string>, name: string, fault: Fault)
    requires NoCollision(view) && Settled(d, view, pending)
    requires name in pending && name in src && name in view && view[name] == src[name].version
    ensures var (after, ok) := BuildStep(d, src, name, fault);
            && Settled(after, view, if ok then pending - {name} else pending)
            && (ok ==> after.lock == d.lock[name := view[name]])
            && (after.lock == d.lock || after.lock == d.lock[name := view[name]])
  {
    hide ValidModule, ValidVersion, VersionDir, NoCollision;
    var (after, ok) := BuildStep(d, src, name, fault);
    forall m | m in after.lock && m !in pending
      ensures m in view && view[m] == after.lock[m] && Loadable(after, m)
    {
      OtherEntriesStay(d, view, m, name, Partial);
      OtherEntriesStay(d, view, m, name, Complete(src[name]));
    }
  }

  lemma MorePending(d: Dist, view: Lock, fewer: set<string>, more: set<string>)
    requires fewer <= more && Settled(d, view, fewer)
    ensures Settled(d, view, more)
  {
  }

  lemma {:induction false} RunSettles(
    d: Dist, src: Sources, view: Lock, names: seq<string>, faults: string -> Fault, i: nat)
    requires i <= |names| && IsPlan(src, names) && NoCollision(view)
    requires forall k :: 0 <= k < |names| ==> names[k] in view && view[names[k]] == src[names[k]].version
    requires Settled(d, view, Pending(names, i))
    ensures var (after, ok) := BuildFrom(d, src, names, faults, i);
            && Settled(after, view, if ok then {} else Pending(names, i))
            && (ok ==> after.lock == d.lock + (map n | n in names[i..] :: view[n]))
            && (forall m :: m !in Pending(names, i) ==>
                  (m in after.lock <==> m in d.lock) && (m in d.lock ==> after.lock[m] == d.lock[m]))
    decreases |names| - i
  {
    hide BuildStep, NoCollision, Loadable, Settled, Pending, VersionDir;
    NothingPending(names);
    if i < |names| {
      var name := names[i];
      PendingStep(names, i);
      StepSettles(d, src, view, Pending(names, i), name, faults(name));
      var (next, ok) := BuildStep(d, src, name, faults(name));
      if ok {
        RunSettles(next, src, view, names, faults, i + 1);
        var (after, all) := BuildFrom(next, src, names, faults, i + 1);
        if !all {
          MorePending(after, view, Pending(names, i + 1), Pending(names, i));
        }
        LockStep(d.lock, view, names, i);
      }
    }
  }

  function Pending(names: seq<string>, i: nat): set<string>
    requires i <= |names|
  {
    set k | i <= k < |names| :: names[k]
  }

  lemma NothingPending(names: seq<string>)
    ensures Pending(names, |names|) == {}
  {
  }

  lemma PendingStep(names: seq<string>, i: nat)
    requires i < |names| && forall a, b :: 0 <= a < b < |names| ==> names[a] != names[b]
    ensures names[i] in Pending(names, i) && Pending(names, i + 1) == Pending(names, i) - {names[i]}
  {
  }

  lemma LockStep(lock: Lock, view: Lock, names: seq<string>, i: nat)
    requires i < |names|
    requires forall k :: 0 <= k < |names| ==> names[k] in view
    ensures lock[names[i] := view[names[i]]] + (map n | n in names[i + 1..] :: view[n]) ==
            lock + (map n | n in names[i..] :: view[n])
  {
    assert names[i..] == [names[i]] + names[i + 1..];
  }

  lemma ViewOfPlan(d: Dist, src: Sources, names: seq<string>)
    requires IsPlan(src, names)
    ensures var view := View(d.lock, src, names);
            && (forall k :: 0 <= k < |names| ==> names[k] in view && view[names[k]] == src[names[k]].version)
            && view == d.lock + (map n | n in names :: view[n])
            && (AllLoadable(d) ==> Settled(d, view, Pending(names, 0)))
  {
    var view := View(d.lock, src, names);
    assert Pending(names, 0) == set n | n in names;
  }

  /**
    A successful build preserves loadability. If every lock entry could be loaded, then after building
    any plan every entry of the final lock can, and the final lock is the initial one overridden by the
    versions of the plan.
   */
  lemma BuiltMeansLoadable(
    d: Dist, src: Sources, names: seq<string>, checksPass: bool, checkOnly: bool, faults: string -> Fault)
    requires IsPlan(src, names) && AllLoadable(d)
    ensures var (after, r) := RunStep(d, src, names, checksPass, checkOnly, faults);
            r == Built ==> AllLoadable(after) && after.lock == View(d.lock, src, names)
  {
    hide BuildStep, NoCollision, Loadable;
    var view := View(d.lock, src, names);
    ViewOfPlan(d, src, names);
    if NoCollision(view) {
      RunSettles(d, src, view, names, faults, 0);
      assert names[0..] == names;
    }
  }

  /**
    However a run ends, every entry outside its plan keeps its version and stays loadable; and a run
    that ends before building changes nothing.
   */
  lemma UnplannedEntriesSurvive(
    d: Dist, src: Sources, names: seq<string>, checksPass: bool, checkOnly: bool, faults: string -> Fault, m: string)
    requires IsPlan(src, names) && AllLoadable(d) && m in d.lock && m !in names
    ensures var (after, r) := RunStep(d, src, names, checksPass, checkOnly, faults);
            && m in after.lock && after.lock[m] == d.lock[m] && Loadable(after, m)
            && (r != Built && r != BuildFailed ==> after == d)
  {
    hide BuildStep, NoCollision, Loadable;
    var view := View(d.lock, src, names);
    ViewOfPlan(d, src, names);
    assert m !in Pending(names, 0);
    if NoCollision(view) {
      RunSettles(d, src, view, names, faults, 0);
    }
  }

  /**
    How a run ends and what it then has touched: it builds only when no two entries of the view share a
    directory, all checks passed and a build was asked for; in every other case tree and lock are as before.
   */
  lemma RunBuildsIff(
    d: Dist, src: Sources, names: seq<string>, checksPass: bool, checkOnly: bool, faults: string -> Fault)
    requires IsPlan(src, names)
    ensures var (after, r) := RunStep(d, src, names, checksPass, checkOnly, faults);
            var view := View(d.lock, src, names);
            var shared := exists m, n :: m in view && n in view && m != n && m + "-" + view[m] == n + "-" + view[n];
            && (r == Collision <==> shared)
            && (r == CheckFailed <==> !shared && !checksPass)
            && (r == Checked <==> !shared && checksPass && checkOnly)
            && (r == Built || r == BuildFailed <==> !shared && checksPass && !checkOnly)
            && (r != Built && r != BuildFailed ==> after == d)
  {
    hide BuildFrom;
    var view := View(d.lock, src, names);
    forall m, n | m in view && n in view
      ensures VersionDir(m, view[m]) == m + "-" + view[m] && VersionDir(n, view[n]) == n + "-" + view[n]
    {
    }
    assert NoCollision(view) <==>
           forall m, n :: m in view && n in view && SameDir(view, m, n) ==> m == n;
    assert forall m, n :: m in view && n in view ==> (SameDir(view, m, n) <==> m + "-" + view[m] == n + "-" + view[n]);
  }

  /** Where the k-th module of a plan is built. */
  function Place(src: Sources, names: seq<string>, k: nat): string
    requires k < |names| && names[k] in src
  {
    names[k] + "-" + src[names[k]].version
  }

  predicate PlacesDiffer(src: Sources, names: seq<string>)
    requires IsPlan(src, names)
  {
    forall j, k :: 0 <= j < k < |names| ==> Place(src, names, j) != Place(src, names, k)
  }

  /** No module of a plan, from the i-th on, is built in this directory. */
  predicate Elsewhere(src: Sources, names: seq<string>, i: nat, dir: string)
    requires IsPlan(src, names)
  {
    forall k :: i <= k < |names| ==> Place(src, names, k) != dir
  }

  lemma StepFills(d: Dist, src: Sources, names: seq<string>, k: nat, fault: Fault)
    requires k < |names| && names[k] in src && BuildStep(d, src, names[k], fault).1
    ensures BuildStep(d, src, names[k], fault).0 ==
            Dist(d.dirs[Place(src, names, k) := Complete(src[names[k]])], d.lock[names[k] := src[names[k]].version])
  {
  }

  lemma {:induction false} RunFills(d: Dist, src: Sources, names: seq<string>, faults: string -> Fault, i: nat)
    requires i <= |names| && IsPlan(src, names) && PlacesDiffer(src, names) && BuildFrom(d, src, names, faults, i).1
    ensures var dirs := BuildFrom(d, src, names, faults, i).0.dirs;
            && (forall k :: i <= k < |names| ==>
                  Place(src, names, k) in dirs && dirs[Place(src, names, k)] == Complete(src[names[k]]))
            && (forall dir :: Elsewhere(src, names, i, dir) ==>
                  (dir in dirs <==> dir in d.dirs) && (dir in dirs ==> dirs[dir] == d.dirs[dir]))
    ensures var lock := BuildFrom(d, src, names, faults, i).0.lock;
            && (forall k :: i <= k < |names| ==> names[k] in lock && lock[names[k]] == src[names[k]].version)
            && (forall m :: m !in names[i..] ==> (m in lock <==> m in d.lock) && (m in lock ==> lock[m] == d.lock[m]))
    decreases |names| - i
  {
    hide BuildStep, Place;
    if i < |names| {
      var next := BuildStep(d, src, names[i], faults(names[i])).0;
      StepFills(d, src, names, i, faults(names[i]));
      RunFills(next, src, names, faults, i + 1);
      assert Elsewhere(src, names, i + 1, Place(src, names, i));
      assert names[i..] == [names[i]] + names[i + 1..];
    }
  }

  lemma PlannedPlacesDiffer(lock: Lock, src: Sources, names: seq<string>)
    requires IsPlan(src, names) && NoCollision(View(lock, src, names))
    ensures PlacesDiffer(src, names)
  {
    var view := View(lock, src, names);
    forall j, k | 0 <= j < k < |names|
      ensures Place(src, names, j) != Place(src, names, k)
    {
      assert view[names[j]] == src[names[j]].version && view[names[k]] == src[names[k]].version;
      assert VersionDir(names[j], view[names[j]]) == Place(src, names, j);
      assert VersionDir(names[k], view[names[k]]) == Place(src, names, k);
    }
  }

  /**
    What a successful run leaves: under `<module>-<version>` the whole product of every module of the plan,
    each module entered in the lock at its version, and every other directory and entry as it was.
   */
  lemma BuiltHoldsThePlan(
    d: Dist, src: Sources, names: seq<string>, checksPass: bool, checkOnly: bool, faults: string -> Fault)
    requires IsPlan(src, names) && RunStep(d, src, names, checksPass, checkOnly, faults).1 == Built
    ensures var lock := RunStep(d, src, names, checksPass, checkOnly, faults).0.lock;
            && (forall k :: 0 <= k < |names| ==> names[k] in lock && lock[names[k]] == src[names[k]].version)
            && (forall m :: m !in names ==> (m in lock <==> m in d.lock) && (m in lock ==> lock[m] == d.lock[m]))
    ensures var dirs := RunStep(d, src, names, checksPass, checkOnly, faults).0.dirs;
            && (forall k :: 0 <= k < |names| ==>
                  Place(src, names, k) in dirs && dirs[Place(src, names, k)] == Complete(src[names[k]]))
            && (forall dir :: Elsewhere(src, names, 0, dir) ==>
                  (dir in dirs <==> dir in d.dirs) && (dir in dirs ==> dirs[dir] == d.dirs[dir]))
  {
    hide BuildFrom, NoCollision, Place, View;
    PlannedPlacesDiffer(d.lock, src, names);
    RunFills(d, src, names, faults, 0);
    assert names[0..] == names;
  }

  /** What a release server demands of a lock entry: a complete directory of that name that says so itself. */
  lemma LoadsIff(dirs: map<string, Content>, m: string, v: string)
    ensures LoadEntry(dirs, m, v).Ok? <==>
            && ValidModule(m) && ValidVersion(v)
            && m + "-" + v in dirs && dirs[m + "-" + v] == Complete(Manifest(m, v))
  {
  }

  /** Letters, digits, `-` and `_`, in versions also single dots: names that stay inside one directory. */
  lemma SafeNames(s: string)
    ensures ValidModule(s) <==>
            s != "" && forall i :: 0 <= i < |s| ==>
              'a' <= s[i] <= 'z' || 'A' <= s[i] <= 'Z' || '0' <= s[i] <= '9' || s[i] == '_' || s[i] == '-'
    ensures ValidVersion(s) <==>
            && s != ""
            && (forall i :: 0 <= i < |s| ==>
                  || 'a' <= s[i] <= 'z' || 'A' <= s[i] <= 'Z' || '0' <= s[i] <= '9'
                  || s[i] == '_' || s[i] == '-' || s[i] == '.')
            && !exists i :: 0 <= i < |s| - 1 && s[i] == '.' && s[i + 1] == '.'
  {
  }

  lemma {:induction false} BuildsThroughIff(d: Dist, src: Sources, names: seq<string>, faults: string -> Fault, i: nat)
    requires i <= |names|
    ensures BuildFrom(d, src, names, faults, i).1 <==>
            forall k :: i <= k < |names| ==> Buildable(src, names[k]) && faults(names[k]) == NoFault
    decreases |names| - i
  {
    hide ValidModule, ValidVersion;
    if i < |names| {
      BuildsThroughIff(BuildStep(d, src, names[i], faults(names[i])).0, src, names, faults, i + 1);
    }
  }

  /** A run that gets to building succeeds exactly when every module can be built and nothing goes wrong on the way. */
  lemma BuiltIff(d: Dist, src: Sources, names: seq<string>, checksPass: bool, checkOnly: bool, faults: string -> Fault)
    requires IsPlan(src, names)
    ensures RunStep(d, src, names, checksPass, checkOnly, faults).1 == Built <==>
            && NoCollision(View(d.lock, src, names)) && checksPass && !checkOnly
            && forall k :: 0 <= k < |names| ==> Buildable(src, names[k]) && faults(names[k]) == NoFault
  {
    hide BuildFrom, NoCollision, View;
    BuildsThroughIff(d, src, names, faults, 0);
  }

  /** The directory name does not determine module and version. */
  lemma VersionDirIsNotInjective()
    ensures VersionDir("a", "1-2") == VersionDir("a-1", "2")
  {
    assert "a" + "-" + "1-2" == "a-1" + "-" + "2";
  }

  // ----- which plans are safe to interrupt -----

  /** The build of this module gets as far as clearing its directory. */
  predicate Buildable(src: Sources, name: string) {
    ValidModule(name) && name in src && src[name].name == name && ValidVersion(src[name].version)
  }

  predicate AllBuildable(src: Sources, names: seq<string>) {
    forall i :: 0 <= i < |names| ==> Buildable(src, names[i])
  }

  /** The k-th directory to be cleared is not the one a lock entry still waits in. */
  predicate ClearsNoLive(d: Dist, src: Sources, names: seq<string>, k: nat)
    requires k < |names| && names[k] in src
  {
    forall m :: m in d.lock && m !in names[..k] ==>
      VersionDir(names[k], src[names[k]].version) != VersionDir(m, d.lock[m])
  }

  /**
    Can be read off lock, plan and manifests before the run: up to the first module that cannot be built,
    no module's new directory is one that the lock, as it will then be, still points at. In particular
    no module is rebuilt at the version it is locked at.
   */
  predicate SafeToInterrupt(d: Dist, src: Sources, names: seq<string>)
    requires IsPlan(src, names)
  {
    forall k :: 0 <= k < |names| && AllBuildable(src, names[..k + 1]) ==> ClearsNoLive(d, src, names, k)
  }

  /** The state after the first `i` modules of the plan, seen from the initial state. */
  ghost predicate Underway(start: Dist, d: Dist, src: Sources, names: seq<string>, i: nat)
    requires i <= |names| && IsPlan(src, names)
  {
    && AllBuildable(src, names[..i])
    && (forall m :: m in names[..i] ==> m in d.lock && d.lock[m] == src[m].version)
    && (forall m :: m !in names[..i] ==>
          (m in d.lock <==> m in start.lock) && (m in d.lock ==> d.lock[m] == start.lock[m]))
  }

  lemma SoFarOneMore(names: seq<string>, i: nat)
    requires i < |names|
    ensures names[..i + 1] == names[..i] + [names[i]]
    ensures forall m :: m in names[..i + 1] <==> m in names[..i] || m == names[i]
  {
    assert names[..i + 1] == names[..i] + [names[i]];
  }

  /** A success carries the run one module further. */
  lemma StepAdvances(start: Dist, d: Dist, src: Sources, names: seq<string>, i: nat, fault: Fault)
    requires i < |names| && IsPlan(src, names) && Underway(start, d, src, names, i)
    requires BuildStep(d, src, names[i], fault).1
    ensures Underway(start, BuildStep(d, src, names[i], fault).0, src, names, i + 1)
  {
    hide VersionDir, ValidModule, ValidVersion;
    SoFarOneMore(names, i);
    assert names[i] !in names[..i];
  }

  lemma OtherDirsLoad(dirs: map<string, Content>, vdir: string, c: Content, m: string, v: string)
    requires LoadEntry(dirs, m, v).Ok? && VersionDir(m, v) != vdir
    ensures LoadEntry(dirs[vdir := c], m, v).Ok?
  {
  }

  /** The directory being cleared is no other entry's. */
  lemma OthersApart(start: Dist, d: Dist, src: Sources, names: seq<string>, i: nat, m: string)
    requires i < |names| && IsPlan(src, names) && Underway(start, d, src, names, i)
    requires NoCollision(View(start.lock, src, names)) && ClearsNoLive(start, src, names, i)
    requires m in d.lock && m != names[i]
    ensures VersionDir(m, d.lock[m]) != VersionDir(names[i], src[names[i]].version)
  {
    hide VersionDir, Buildable, AllBuildable;
    var view := View(start.lock, src, names);
    if m in names[..i] {
      assert m in view && view[m] == d.lock[m];
      assert names[i] in view && view[names[i]] == src[names[i]].version;
    }
  }

  lemma OtherEntryLoads(d: Dist, src: Sources, name: string, fault: Fault, m: string)
    requires Buildable(src, name) && m in d.lock && m != name && Loadable(d, m)
    requires VersionDir(m, d.lock[m]) != VersionDir(name, src[name].version)
    ensures var after := BuildStep(d, src, name, fault).0;
            m in after.lock && after.lock[m] == d.lock[m] && Loadable(after, m)
  {
    hide VersionDir, ValidModule, ValidVersion, LoadEntry;
    var vdir := VersionDir(name, src[name].version);
    OtherDirsLoad(d.dirs, vdir, Partial, m, d.lock[m]);
    OtherDirsLoad(d.dirs, vdir, Complete(src[name]), m, d.lock[m]);
  }

  lemma LockedByStep(d: Dist, src: Sources, name: string, fault: Fault, m: string)
    requires m in BuildStep(d, src, name, fault).0.lock && m != name
    ensures m in d.lock
  {
  }

  /** Where no live directory is cleared, a step may stop anywhere. */
  lemma SafeStep(start: Dist, d: Dist, src: Sources, names: seq<string>, i: nat, fault: Fault)
    requires i < |names| && IsPlan(src, names) && Underway(start, d, src, names, i) && AllLoadable(d)
    requires NoCollision(View(start.lock, src, names))
    requires Buildable(src, names[i]) ==> ClearsNoLive(start, src, names, i)
    ensures AllLoadable(BuildStep(d, src, names[i], fault).0)
  {
    hide Loadable, VersionDir, View, NoCollision, ClearsNoLive, Underway, BuildStep, Buildable;
    var name := names[i];
    var after := BuildStep(d, src, name, fault).0;
    if Buildable(src, name) {
      OwnEntry(start, d, src, names, i, fault);
      forall m | m in after.lock
        ensures Loadable(after, m)
      {
        if m != name {
          LockedByStep(d, src, name, fault, m);
          OthersApart(start, d, src, names, i, m);
          OtherEntryLoads(d, src, name, fault, m);
        }
      }
    } else {
      UnbuildableStep(d, src, name, fault);
    }
  }

  lemma UnbuildableStep(d: Dist, src: Sources, name: string, fault: Fault)
    requires !Buildable(src, name)
    ensures BuildStep(d, src, name, fault) == (d, false)
  {
  }

  lemma OwnEntry(start: Dist, d: Dist, src: Sources, names: seq<string>, i: nat, fault: Fault)
    requires i < |names| && IsPlan(src, names) && Underway(start, d, src, names, i) && AllLoadable(d)
    requires Buildable(src, names[i]) && ClearsNoLive(start, src, names, i)
    ensures var after := BuildStep(d, src, names[i], fault).0;
            names[i] in after.lock ==> Loadable(after, names[i])
  {
    hide VersionDir, ValidModule, ValidVersion;
    var name := names[i];
    assert name !in names[..i];
    if name in d.lock {
      assert Loadable(d, name);
      assert VersionDir(name, src[name].version) != VersionDir(name, d.lock[name]);
    }
  }

  lemma {:induction false} SafeFrom(
    start: Dist, d: Dist, src: Sources, names: seq<string>, faults: string -> Fault, i: nat)
    requires i <= |names| && IsPlan(src, names) && Underway(start, d, src, names, i) && AllLoadable(d)
    requires NoCollision(View(start.lock, src, names)) && SafeToInterrupt(start, src, names)
    ensures AllLoadable(BuildFrom(d, src, names, faults, i).0)
    decreases |names| - i
  {
    hide BuildStep, AllLoadable, NoCollision, View, ClearsNoLive, Underway;
    if i < |names| {
      BuildableSoFar(start, d, src, names, i);
      SafeStep(start, d, src, names, i, faults(names[i]));
      var (next, ok) := BuildStep(d, src, names[i], faults(names[i]));
      if ok {
        StepAdvances(start, d, src, names, i, faults(names[i]));
        SafeFrom(start, next, src, names, faults, i + 1);
      }
    }
  }

  lemma BuildableSoFar(start: Dist, d: Dist, src: Sources, names: seq<string>, i: nat)
    requires i < |names| && IsPlan(src, names) && Underway(start, d, src, names, i)
    ensures Buildable(src, names[i]) ==> AllBuildable(src, names[..i + 1])
  {
    hide Buildable;
    SoFarOneMore(names, i);
    assert AllBuildable(src, names[..i]);
  }

  /** Without faults a run gets to its k-th module, if all before it can be built. */
  lemma {:induction false} RunReaches(
    start: Dist, d: Dist, src: Sources, names: seq<string>, faults: string -> Fault, i: nat, k: nat)
    returns (there: Dist)
    requires i <= k <= |names| && IsPlan(src, names) && Underway(start, d, src, names, i)
    requires AllBuildable(src, names[..k])
    requires forall j :: i <= j < k ==> faults(names[j]) == NoFault
    ensures Underway(start, there, src, names, k)
    ensures BuildFrom(d, src, names, faults, i) == BuildFrom(there, src, names, faults, k)
    decreases k - i
  {
    there := d;
    if i < k {
      assert names[..k][i] == names[i];
      assert Buildable(src, names[i]);
      var (next, ok) := BuildStep(d, src, names[i], NoFault);
      StepAdvances(start, d, src, names, i, NoFault);
      there := RunReaches(start, next, src, names, faults, i + 1, k);
    }
  }

  /** A module whose directory is cleared under it does not load. */
  lemma InterruptedAt(d: Dist, src: Sources, names: seq<string>, k: nat, m: string) returns (faults: string -> Fault)
    requires IsPlan(src, names) && k < |names| && AllBuildable(src, names[..k + 1])
    requires m in d.lock && m !in names[..k]
    requires VersionDir(names[k], src[names[k]].version) == VersionDir(m, d.lock[m])
    ensures var (after, ok) := BuildFrom(d, src, names, faults, 0);
            !ok && m in after.lock && !Loadable(after, m)
  {
    hide VersionDir;
    var bad := names[k];
    faults := n => if n == bad then BeforeManifest else NoFault;
    SoFarOneMore(names, k);
    assert AllBuildable(src, names[..k]) by {
      assert forall j :: 0 <= j < k ==> names[..k][j] == names[..k + 1][j];
    }
    assert names[..k + 1][k] == bad;
    var there := RunReaches(d, d, src, names, faults, 0, k);
    var (after, ok) := BuildStep(there, src, bad, BeforeManifest);
    assert after.dirs[VersionDir(m, d.lock[m])] == Partial;
    assert BuildFrom(there, src, names, faults, k) == (after, false);
  }

  /**
    Exactly when "a failed build leaves every lock entry loadable" holds, wherever the failure strikes:
    when the plan is refused outright, or is safe to interrupt.
   */
  lemma LoadableWhateverFailsIff(d: Dist, src: Sources, names: seq<string>)
    requires IsPlan(src, names) && AllLoadable(d)
    ensures (forall checksPass, checkOnly, faults ::
               AllLoadable(RunStep(d, src, names, checksPass, checkOnly, faults).0)) <==>
            (NoCollision(View(d.lock, src, names)) ==> SafeToInterrupt(d, src, names))
  {
    hide AllLoadable, BuildFrom, NoCollision, ClearsNoLive, AllBuildable;
    var view := View(d.lock, src, names);
    UnderwayAtStart(d, src, names);
    if NoCollision(view) {
      if SafeToInterrupt(d, src, names) {
        forall checksPass, checkOnly, faults
          ensures AllLoadable(RunStep(d, src, names, checksPass, checkOnly, faults).0)
        {
          SafeFrom(d, d, src, names, faults, 0);
        }
      } else {
        var k :| 0 <= k < |names| && AllBuildable(src, names[..k + 1]) && !ClearsNoLive(d, src, names, k);
        var m := LiveDirCleared(d, src, names, k);
        var faults := InterruptedAt(d, src, names, k, m);
        BrokenEntry(BuildFrom(d, src, names, faults, 0).0, m);
        assert !AllLoadable(RunStep(d, src, names, true, false, faults).0);
      }
    }
  }

  lemma UnderwayAtStart(d: Dist, src: Sources, names: seq<string>)
    requires IsPlan(src, names)
    ensures Underway(d, d, src, names, 0)
  {
  }

  lemma LiveDirCleared(d: Dist, src: Sources, names: seq<string>, k: nat) returns (m: string)
    requires k < |names| && names[k] in src && !ClearsNoLive(d, src, names, k)
    ensures m in d.lock && m !in names[..k]
    ensures VersionDir(names[k], src[names[k]].version) == VersionDir(m, d.lock[m])
  {
    m :| m in d.lock && m !in names[..k] && VersionDir(names[k], src[names[k]].version) == VersionDir(m, d.lock[m]);
  }

  lemma BrokenEntry(d: Dist, m: string)
    requires m in d.lock && !Loadable(d, m)
    ensures !AllLoadable(d)
  {
  }

  /** The simplest plan that is not: a module built again at the version it is locked at. */
  lemma RebuildCanBreakItsOwnEntry(a: string, v: string)
    returns (d: Dist, src: Sources, names: seq<string>, faults: string -> Fault)
    requires ValidModule(a) && ValidVersion(v)
    ensures IsPlan(src, names) && AllLoadable(d) && d.lock == map[a := v] && names == [a]
    ensures var (after, r) := RunStep(d, src, names, true, false, faults);
            r == BuildFailed && a in after.lock && !Loadable(after, a)
  {
    hide VersionDir, ValidModule, ValidVersion;
    var dir := VersionDir(a, v);
    d := Dist(map[dir := Complete(Manifest(a, v))], map[a := v]);
    src := map[a := Manifest(a, v)];
    names := [a];
    assert View(d.lock, src, names) == map[a := v];
    assert names[..1] == [a] && Buildable(src, a);
    faults := InterruptedAt(d, src, names, 0, a);
  }

  lemma TwoDirsDoNotCollide(a: string, v: string, b: string, w: string)
    requires a != b && VersionDir(a, v) != VersionDir(b, w)
    ensures NoCollision(map[a := v, b := w])
  {
    hide VersionDir;
  }

  /**
    The other way to be unsafe: the new directory of one planned module is the old directory of another.
    A run that fails between the two leaves the lock pointing, for the second, at a directory that now
    belongs to the first.
   */
  lemma FailedRunCanBreakPlannedEntry(a: string, v: string, b: string, before: string, next': string)
    returns (d: Dist, src: Sources, names: seq<string>, faults: string -> Fault)
    requires ValidModule(a) && ValidModule(b) && a != b
    requires ValidVersion(v) && ValidVersion(before) && ValidVersion(next')
    requires VersionDir(a, v) == VersionDir(b, before) && VersionDir(b, next') != VersionDir(a, v)
    ensures IsPlan(src, names) && AllLoadable(d)
    ensures var (after, r) := RunStep(d, src, names, true, false, faults);
            r == BuildFailed && b in after.lock && !Loadable(after, b)
  {
    hide VersionDir, ValidModule, ValidVersion, NoCollision;
    var dir := VersionDir(a, v);
    d := Dist(map[dir := Complete(Manifest(b, before))], map[b := before]);
    src := map[a := Manifest(a, v), b := Manifest(b, next')];
    names := [a, b];
    faults := n => if n == a then NoFault else BeforeClean;
    assert View(d.lock, src, names) == map[a := v, b := next'];
    TwoDirsDoNotCollide(a, v, b, next');
    var (next, ok) := BuildStep(d, src, a, NoFault);
    assert ok && next.dirs[dir] == Complete(Manifest(a, v)) && next.lock[b] == before;
    assert BuildStep(next, src, b, BeforeClean) == (next, false);
    assert BuildFrom(next, src, names, faults, 1) == (next, false);
    assert names[0] == a && faults(a) == NoFault;
  }
}

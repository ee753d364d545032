/**
  `oj build` moves `src/<module>/<rel>.ts` to `dist/<module>-<version>/<rel>.js` and rewrites every local
  import specifier accordingly (oj/src/build_cmd.rs). The import graph of the products must be the import
  graph of the sources under that renaming.
 */
module ImportGraph {
  import opened Wrappers
  import opened Text

  type Segs = seq<string>

  function VersionDir(m: string, v: string): string {
    m + "-" + v
  }

  // ----- names that are safe in paths (src/bridge/module_scan.rs) -----

  predicate ValidModule(m: string) {
    m != "" && forall i :: 0 <= i < |m| ==> IsAsciiAlphanumeric(m[i]) || m[i] == '_' || m[i] == '-'
  }

  predicate ValidVersion(v: string) {
    && v != ""
    && (forall i :: 0 <= i < |v| - 1 ==> !(v[i] == '.' && v[i + 1] == '.'))
    && forall i :: 0 <= i < |v| ==> IsAsciiAlphanumeric(v[i]) || v[i] == '.' || v[i] == '-' || v[i] == '_'
  }

  /** A directory or file name proper: no separator, and not one of the two dot names. */
  predicate Plain(s: string) {
    ProperSegment(s) && s != "." && s != ".."
  }

  predicate AllPlain(segs: Segs) {
    forall i :: 0 <= i < |segs| ==> Plain(segs[i])
  }

  lemma VersionDirIsPlain(m: string, v: string)
    requires ValidModule(m) && ValidVersion(v)
    ensures Plain(VersionDir(m, v))
  {
    var d := VersionDir(m, v);
    assert |d| >= 3;
    forall i | 0 <= i < |d|
      ensures d[i] != '/'
    {
      if i > |m| {
        assert d[i] == v[i - |m| - 1];
      }
    }
  }

  // ----- the renaming -----

  /** `Path::extension() == "ts"`: the dot must not be the first character. */
  predicate HasTsExtension(name: string) {
    |name| > 3 && name[|name| - 3..] == ".ts"
  }

  function JsName(name: string): string {
    match StripSuffix(name, ".ts") case Some(stem) => stem + ".js" case None => name
  }

  function LastToJs(segs: Segs): (r: Segs)
    requires segs != []
    ensures |r| == |segs|
  {
    segs[..|segs| - 1] + [JsName(segs[|segs| - 1])]
  }

  /** Where a source file, as `[module, ...path]`, ends up below the output directory. */
  function Image(view: map<string, string>, file: Segs): Segs
    requires |file| >= 2 && file[0] in view
  {
    LastToJs(ProductTarget(view, file))
  }

  function ProductTarget(view: map<string, string>, file: Segs): (r: Segs)
    requires |file| >= 2 && file[0] in view
    ensures |r| == |file|
  {
    [VersionDir(file[0], view[file[0]])] + file[1..]
  }

  predicate NoCollision(view: map<string, string>) {
    forall m, n :: m in view && n in view && VersionDir(m, view[m]) == VersionDir(n, view[n]) ==> m == n
  }

  // ----- rewriting one specifier -----

  predicate IsAlias(spec: string) {
    spec != "" && spec[0] == '#'
  }

  predicate IsRelative(spec: string) {
    "./" <= spec || "../" <= spec
  }

  predicate IsLocal(spec: string) {
    IsAlias(spec) || IsRelative(spec)
  }

  /** The probe shared with the run time: module, directory inside it and specifier to a file below `src`. */
  type Resolver = (string, string, string) -> Option<Segs>

  datatype SpecError =
    | Unresolved(spec: string)
    | IsSourceRoot(spec: string)
    | NotTranspiled(spec: string)
    | VersionUnknown(spec: string, target: string)

  function ResolveToSegs(resolve: Resolver, m: string, relDir: string, spec: string): (r: Result<Segs, SpecError>)
    ensures r.Ok? ==> r.value != [] && HasTsExtension(r.value[|r.value| - 1])
  {
    match resolve(m, relDir, spec)
    case None => Err(Unresolved(spec))
    case Some(segs) =>
      if segs == [] then Err(IsSourceRoot(spec))
      else if !HasTsExtension(segs[|segs| - 1]) then Err(NotTranspiled(spec))
      else Ok(segs)
  }

  function CommonPrefix(a: Segs, b: Segs): (n: nat)
    ensures n <= |a| && n <= |b| && a[..n] == b[..n]
    ensures n < |a| && n < |b| ==> a[n] != b[n]
  {
    if a == [] || b == [] || a[0] != b[0] then 0
    else
      assert a[1..][..CommonPrefix(a[1..], b[1..])] == b[1..][..CommonPrefix(a[1..], b[1..])];
      1 + CommonPrefix(a[1..], b[1..])
  }

  function Ups(n: nat): (r: Segs)
    ensures |r| == n && forall i :: 0 <= i < n ==> r[i] == ".."
  {
    seq(n, i => "..")
  }

  function FromDir(m: string, version: string, relDir: string): Segs {
    [VersionDir(m, version)] + Segments(relDir)
  }

  /** The way up from a directory to where the paths part, and down to the product. */
  function SpecParts(from: Segs, to: Segs): Segs
    requires to != []
  {
    var i := CommonPrefix(from, to);
    Ups(|from| - i) + LastToJs(to)[i..]
  }

  function ProductSpec(from: Segs, to: Segs): string
    requires to != []
  {
    var joined := Join(SpecParts(from, to), '/');
    if CommonPrefix(from, to) == |from| then "./" + joined else joined
  }

  /** The loop and the update in place of the source. */
  method ProductSpecFor(m: string, version: string, relDir: string, target: Segs) returns (r: string)
    requires target != []
    ensures r == ProductSpec(FromDir(m, version, relDir), target)
  {
    var to := target;
    var from := FromDir(m, version, relDir);
    var i := 0;
    while i < |from| && i < |to| && from[i] == to[i]
      invariant i <= |from| && i <= |to|
      invariant i + CommonPrefix(from[i..], to[i..]) == CommonPrefix(from, to)
    {
      assert from[i..][1..] == from[i + 1..] && to[i..][1..] == to[i + 1..];
      i := i + 1;
    }
    assert CommonPrefix(from[i..], to[i..]) == 0;
    var last := |to| - 1;
    var stem := StripSuffix(to[last], ".ts");
    to := to[last := if stem.Some? then stem.value + ".js" else to[last]];
    assert to == LastToJs(target);
    var joined := Join(Ups(|from| - i) + to[i..], '/');
    r := if i == |from| then "./" + joined else joined;
  }

  /** What one specifier is rewritten to; None leaves it alone. */
  function FixSpecifier(
    resolve: Resolver, view: map<string, string>, m: string, version: string, relDir: string, spec: string)
    : Result<Option<string>, SpecError>
  {
    if !IsLocal(spec) then Ok(None)
    else match ResolveToSegs(resolve, m, relDir, spec)
      case Err(e) => Err(e)
      case Ok(segs) =>
        if segs[0] == m then Ok(Some(ProductSpec(FromDir(m, version, relDir), [VersionDir(m, version)] + segs[1..])))
        else if segs[0] !in view then Err(VersionUnknown(spec, segs[0]))
        else Ok(Some(ProductSpec(FromDir(m, version, relDir), [VersionDir(segs[0], view[segs[0]])] + segs[1..])))
  }

  // ----- resolving a product specifier at run time (src/bridge/module_loader.rs) -----

  /** Lexical normalisation of a path: dots vanish, `..` pops, and stays when there is nothing to pop. */
  function Normalize(stack: Segs, parts: Segs): Segs
    decreases |parts|
  {
    if parts == [] then stack
    else if parts[0] == "" || parts[0] == "." then Normalize(stack, parts[1..])
    else if parts[0] == ".." then Normalize(if stack == [] then [".."] else stack[..|stack| - 1], parts[1..])
    else Normalize(stack + [parts[0]], parts[1..])
  }

  /** The first candidate of the run-time probe: the specifier taken literally from the importing directory. */
  function Target(root: Segs, dir: Segs, spec: string): Segs {
    Normalize(root + dir, Split(spec, '/'))
  }

  lemma {:induction false} NormalizeConcat(stack: Segs, a: Segs, b: Segs)
    ensures Normalize(stack, a + b) == Normalize(Normalize(stack, a), b)
    decreases |a|
  {
    if a == [] {
      assert a + b == b;
    } else {
      assert (a + b)[1..] == a[1..] + b;
      var next :=
        if a[0] == "" || a[0] == "." then stack
        else if a[0] == ".." then (if stack == [] then [".."] else stack[..|stack| - 1])
        else stack + [a[0]];
      NormalizeConcat(next, a[1..], b);
    }
  }

  lemma {:induction false} NormalizeUps(stack: Segs, n: nat)
    requires n <= |stack|
    ensures Normalize(stack, Ups(n)) == stack[..|stack| - n]
    decreases n
  {
    if n > 0 {
      assert Ups(n)[1..] == Ups(n - 1);
      NormalizeUps(stack[..|stack| - 1], n - 1);
      assert stack[..|stack| - 1][..|stack| - 1 - (n - 1)] == stack[..|stack| - n];
    } else {
      assert stack[..|stack|] == stack;
    }
  }

  lemma {:induction false} NormalizePlain(stack: Segs, parts: Segs)
    requires AllPlain(parts)
    ensures Normalize(stack, parts) == stack + parts
    decreases |parts|
  {
    if parts != [] {
      NormalizePlain(stack + [parts[0]], parts[1..]);
      assert stack + [parts[0]] + parts[1..] == stack + parts;
    }
  }

  /** Splitting undoes joining, but nothing at all is split into one empty part. */
  lemma SplitJoined(parts: Segs)
    requires forall k :: 0 <= k < |parts| ==> '/' !in parts[k]
    ensures Split(Join(parts, '/'), '/') == if parts == [] then [""] else parts
  {
    if parts != [] {
      SplitOfJoin(parts, '/');
    }
  }

  lemma SplitDotted(s: string)
    ensures Split("./" + s, '/') == ["."] + Split(s, '/')
  {
    assert "./" + s == "." + "/" + s;
    SplitAtSeparator(".", s, '/');
    SplitWithoutSeparator(".", '/');
  }

  lemma SpecPartsHaveNoSlash(from: Segs, to: Segs)
    requires to != [] && AllPlain(LastToJs(to))
    ensures forall k :: 0 <= k < |SpecParts(from, to)| ==> '/' !in SpecParts(from, to)[k]
  {
    hide LastToJs, CommonPrefix;
  }

  lemma NormalizeUpDown(stack: Segs, n: nat, down: Segs)
    requires n <= |stack| && AllPlain(down)
    ensures Normalize(stack, Ups(n) + down) == stack[..|stack| - n] + down
  {
    NormalizeConcat(stack, Ups(n), down);
    NormalizeUps(stack, n);
    NormalizePlain(stack[..|stack| - n], down);
  }

  lemma NormalizeProductSpec(stack: Segs, from: Segs, to: Segs)
    requires to != [] && AllPlain(LastToJs(to))
    ensures Normalize(stack, Split(ProductSpec(from, to), '/')) == Normalize(stack, SpecParts(from, to))
  {
    SpecPartsHaveNoSlash(from, to);
    var parts := SpecParts(from, to);
    hide SpecParts, LastToJs, CommonPrefix, Split, Normalize, Join;
    SplitJoined(parts);
    SplitDotted(Join(parts, '/'));
    DotsVanish(stack, Split(Join(parts, '/'), '/'));
  }

  lemma NormalizeSpecParts(root: Segs, from: Segs, to: Segs)
    requires to != [] && AllPlain(LastToJs(to))
    ensures var i := CommonPrefix(from, to);
            Target(root, from, ProductSpec(from, to)) == root + from[..i] + LastToJs(to)[i..]
  {
    hide ProductSpec, LastToJs, AllPlain, Split, Normalize;
    var i, js, base := CommonPrefix(from, to), LastToJs(to), root + from;
    NormalizeProductSpec(base, from, to);
    PartsArePlain(to, i);
    NormalizeUpDown(base, |from| - i, js[i..]);
    assert base[..|base| - (|from| - i)] == root + from[..i];
  }

  lemma PartsArePlain(to: Segs, i: nat)
    requires to != [] && i <= |to| && AllPlain(LastToJs(to))
    ensures AllPlain(LastToJs(to)[i..])
  {
  }

  lemma DotsVanish(stack: Segs, rest: Segs)
    ensures Normalize(stack, ["."] + rest) == Normalize(stack, rest)
    ensures Normalize(stack, [""]) == Normalize(stack, []) == stack
  {
    assert (["."] + rest)[1..] == rest;
    assert [""][1..] == [];
  }

  lemma JsNameChanges(name: string)
    requires HasTsExtension(name)
    ensures JsName(name) != name
  {
    var n := JsName(name);
    assert n[|n| - 2] == 'j' && name[|name| - 2] == name[|name| - 3..][1];
  }

  /**
    A product specifier, resolved from the importing directory, lands on its target exactly when the
    target is not a prefix of that directory -- which a file never is, for a path to a source file
    cannot also be a directory on the way to another.
   */
  lemma ProductSpecLandsIff(root: Segs, from: Segs, to: Segs)
    requires to != [] && AllPlain(LastToJs(to)) && HasTsExtension(to[|to| - 1])
    ensures Target(root, from, ProductSpec(from, to)) == root + LastToJs(to) <==> !(to <= from)
  {
    NormalizeSpecParts(root, from, to);
    if to <= from {
      PrefixMisses(root, from, to);
    } else {
      NonPrefixLands(root, from, to);
    }
  }

  lemma NonPrefixLands(root: Segs, from: Segs, to: Segs)
    requires to != [] && !(to <= from)
    ensures var i := CommonPrefix(from, to);
            root + from[..i] + LastToJs(to)[i..] == root + LastToJs(to)
  {
    var i, js := CommonPrefix(from, to), LastToJs(to);
    assert i < |to|;
    assert from[..i] == to[..i] == js[..i];
  }

  lemma PrefixMisses(root: Segs, from: Segs, to: Segs)
    requires to != [] && to <= from && HasTsExtension(to[|to| - 1])
    ensures var i := CommonPrefix(from, to);
            root + from[..i] + LastToJs(to)[i..] != root + LastToJs(to)
  {
    hide HasTsExtension, JsName;
    var i, js, last := CommonPrefix(from, to), LastToJs(to), |to| - 1;
    assert forall k :: 0 <= k < |to| ==> from[k] == to[k];
    JsNameChanges(to[last]);
    assert (root + from[..i] + js[i..])[|root| + last] == to[last];
    assert (root + js)[|root| + last] == JsName(to[last]);
  }

  /** A rewritten specifier can never be mistaken for a package name. */
  lemma ProductSpecIsRelative(from: Segs, to: Segs)
    requires to != [] && !(to <= from)
    ensures IsRelative(ProductSpec(from, to))
  {
    var i := CommonPrefix(from, to);
    if i < |from| {
      assert i < |to|;
      var parts := SpecParts(from, to);
      assert parts[0] == ".." && |parts| >= 2;
      assert Join(parts, '/') == ".." + ['/'] + Join(parts[1..], '/');
    }
  }

  // ----- the graph -----

  /** A source file the build transpiles: module, directories, and a name ending in `.ts`. */
  predicate IsTsFile(view: map<string, string>, file: Segs) {
    && |file| >= 2 && file[0] in view && AllPlain(file)
    && HasTsExtension(file[|file| - 1])
  }

  predicate ValidView(view: map<string, string>) {
    forall m :: m in view ==> ValidModule(m) && ValidVersion(view[m])
  }

  function RelDir(file: Segs): string
    requires |file| >= 2
  {
    Join(file[1..|file| - 1], '/')
  }

  function ImageDirectory(view: map<string, string>, file: Segs): Segs
    requires |file| >= 2 && file[0] in view
  {
    var image := Image(view, file);
    image[..|image| - 1]
  }

  lemma JsNameIsPlain(name: string)
    requires Plain(name) && HasTsExtension(name)
    ensures Plain(JsName(name))
  {
    var stem := StripSuffix(name, ".ts").value;
    assert name == stem + ".ts" && |stem| > 0;
    assert JsName(name) == stem + ".js";
    assert forall i :: 0 <= i < |stem| ==> name[i] == stem[i];
    assert |JsName(name)| > 3;
  }

  lemma ImageIsPlain(view: map<string, string>, file: Segs)
    requires ValidView(view) && IsTsFile(view, file)
    ensures AllPlain(Image(view, file))
    ensures ImageDirectory(view, file) == FromDir(file[0], view[file[0]], RelDir(file))
  {
    VersionDirIsPlain(file[0], view[file[0]]);
    JsNameIsPlain(file[|file| - 1]);
    var dirs := file[1..|file| - 1];
    assert ProperSegments(dirs);
    SegmentsOfJoin(dirs);
    var raw := ProductTarget(view, file);
    assert raw[..|raw| - 1] == [VersionDir(file[0], view[file[0]])] + dirs;
  }

  /** A file is no directory on the way to another file. */
  predicate NotInside(file: Segs, other: Segs) {
    other != [] && !(file <= other[..|other| - 1])
  }

  /** With distinct version directories, a target is a prefix of the importing directory only if its source is. */
  lemma PrefixComesFromSource(view: map<string, string>, file: Segs, target: Segs)
    requires NoCollision(view) && IsTsFile(view, file) && IsTsFile(view, target)
    requires ProductTarget(view, target) <= ImageDirectory(view, file)
    ensures target <= file[..|file| - 1]
  {
    hide VersionDir, HasTsExtension, AllPlain;
    var to, dir := ProductTarget(view, target), ImageDirectory(view, file);
    assert dir == ProductTarget(view, file)[..|file| - 1];
    assert dir[0] == to[0];
    assert target[0] == file[0];
    assert forall k :: 1 <= k < |target| ==> target[k] == to[k] == dir[k] == file[k];
  }

  lemma NotInsideImage(view: map<string, string>, file: Segs, target: Segs)
    requires NoCollision(view) && IsTsFile(view, file) && IsTsFile(view, target) && NotInside(target, file)
    ensures !(ProductTarget(view, target) <= ImageDirectory(view, file))
  {
    if ProductTarget(view, target) <= ImageDirectory(view, file) {
      PrefixComesFromSource(view, file, target);
    }
  }

  /**
    Every edge of the source graph becomes the corresponding edge of the product graph: the rewritten
    specifier is relative, and from the directory of the product it leads to the product of the file
    the original specifier meant.
   */
  lemma EdgeIsPreserved(
    resolve: Resolver, view: map<string, string>, root: Segs, file: Segs, spec: string, target: Segs)
    requires ValidView(view) && NoCollision(view) && IsTsFile(view, file)
    requires IsLocal(spec) && ResolveToSegs(resolve, file[0], RelDir(file), spec) == Ok(target)
    requires IsTsFile(view, target) && NotInside(target, file)
    ensures var fixed := FixSpecifier(resolve, view, file[0], view[file[0]], RelDir(file), spec);
            && fixed.Ok? && fixed.value.Some?
            && IsRelative(fixed.value.value)
            && Target(root, ImageDirectory(view, file), fixed.value.value) == root + Image(view, target)
  {
    hide Segments, VersionDir, HasTsExtension;
    ImageIsPlain(view, file);
    ImageIsPlain(view, target);
    NotInsideImage(view, file, target);
    var from := ImageDirectory(view, file);
    var to := ProductTarget(view, target);
    assert to[|to| - 1] == target[|target| - 1];
    ProductSpecLandsIff(root, from, to);
    ProductSpecIsRelative(from, to);
  }

  lemma JsNameInjective(a: string, b: string)
    requires HasTsExtension(a) && HasTsExtension(b) && JsName(a) == JsName(b)
    ensures a == b
  {
    var s, t := StripSuffix(a, ".ts").value, StripSuffix(b, ".ts").value;
    assert s == (s + ".js")[..|s|] && t == (t + ".js")[..|t|];
    assert |s + ".js"| == |t + ".js"|;
  }

  /** Two source files never share a product, once the collision check has passed. */
  lemma ImageIsInjective(view: map<string, string>, a: Segs, b: Segs)
    requires NoCollision(view) && IsTsFile(view, a) && IsTsFile(view, b)
    requires Image(view, a) == Image(view, b)
    ensures a == b
  {
    hide JsName, HasTsExtension, AllPlain;
    var x := ProductTarget(view, a);
    var y := ProductTarget(view, b);
    var n := |a|;
    assert |Image(view, a)| == n && |Image(view, b)| == |b|;
    assert Image(view, a)[n - 1] == JsName(a[n - 1]) && Image(view, b)[n - 1] == JsName(b[n - 1]);
    JsNameInjective(a[n - 1], b[n - 1]);
    assert forall k :: 0 <= k < n - 1 ==> Image(view, a)[k] == x[k] && Image(view, b)[k] == y[k];
    assert x[0] == y[0];
    assert a[0] == b[0];
    assert forall k :: 1 <= k < n - 1 ==> x[k] == a[k] && y[k] == b[k];
  }

  /**
    The product graph is the source graph, renamed: from a given file, a specifier means `other` in the
    source exactly when its rewriting means the product of `other` in the output tree.
   */
  lemma GraphIsIsomorphic(
    resolve: Resolver, view: map<string, string>, root: Segs, file: Segs, spec: string, target: Segs, other: Segs)
    requires ValidView(view) && NoCollision(view) && IsTsFile(view, file)
    requires IsLocal(spec) && ResolveToSegs(resolve, file[0], RelDir(file), spec) == Ok(target)
    requires IsTsFile(view, target) && NotInside(target, file) && IsTsFile(view, other)
    ensures var fixed := FixSpecifier(resolve, view, file[0], view[file[0]], RelDir(file), spec);
            && fixed.Ok? && fixed.value.Some?
            && (Target(root, ImageDirectory(view, file), fixed.value.value) == root + Image(view, other) <==>
                target == other)
  {
    hide Image, ImageDirectory, FixSpecifier, NoCollision, ValidView, HasTsExtension, AllPlain;
    EdgeIsPreserved(resolve, view, root, file, spec, target);
    var x, y := Image(view, target), Image(view, other);
    assert (root + x)[|root|..] == x && (root + y)[|root|..] == y;
    if x == y {
      ImageIsInjective(view, target, other);
    }
  }

  // ----- the renaming, told on names -----

  /** `<module>/<directories>/<stem>.ts` becomes `<module>-<version>/<directories>/<stem>.js`. */
  lemma ImageIs(view: map<string, string>, m: string, dirs: Segs, stem: string)
    requires m in view
    ensures Image(view, [m] + dirs + [stem + ".ts"]) == [m + "-" + view[m]] + dirs + [stem + ".js"]
  {
    var file := [m] + dirs + [stem + ".ts"];
    assert file[1..] == dirs + [stem + ".ts"];
    assert (stem + ".ts")[|stem|..] == ".ts" && (stem + ".ts")[..|stem|] == stem;
  }

  /**
    Which specifiers are rewritten, refused or left alone: a package name stays; an alias or a relative path
    must lead to a `.ts` file below the source root, in the same module or in one of a known version.
   */
  lemma FixedIff(resolve: Resolver, view: map<string, string>, m: string, version: string, relDir: string, spec: string)
    ensures var fixed := FixSpecifier(resolve, view, m, version, relDir, spec);
            var isLocal := "#" <= spec || "./" <= spec || "../" <= spec;
            var target := resolve(m, relDir, spec);
            && (!isLocal ==> fixed == Ok(None))
            && (isLocal ==> (fixed.Ok? <==>
                  && target.Some? && target.value != []
                  && (exists stem :: stem != "" && target.value[|target.value| - 1] == stem + ".ts")
                  && (target.value[0] == m || target.value[0] in view)))
            && (isLocal && fixed.Ok? ==> fixed.value.Some?)
  {
    if resolve(m, relDir, spec).Some? && resolve(m, relDir, spec).value != [] {
      var target := resolve(m, relDir, spec).value;
      TsExtensionIs(target[|target| - 1]);
    }
    assert "#" <= spec <==> IsAlias(spec);
  }

  lemma TsExtensionIs(name: string)
    ensures HasTsExtension(name) <==> exists stem :: stem != "" && name == stem + ".ts"
  {
    if HasTsExtension(name) {
      assert name == name[..|name| - 3] + ".ts";
    }
    if stem :| stem != "" && name == stem + ".ts" {
      assert name[|name| - 3..] == ".ts";
    }
  }
}

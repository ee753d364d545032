/**
  The text of a product (oj/src/build_cmd.rs, `fix_import_specifiers`): the import scanner and the
  specifier arithmetic put together. Loading the product finds the products of the files that the
  source text imports, one for one and in the same order.
 */
module ProductText {
  import opened Wrappers
  import opened Text
  import opened ImportScan
  import opened ImportGraph

  function FixOf(resolve: Resolver, view: map<string, string>, m: string, version: string, relDir: string)
    : Fix<SpecError>
  {
    spec => FixSpecifier(resolve, view, m, version, relDir, spec)
  }

  /** The probe gives the path of a file: proper names, and no directory on the way to the importing file. */
  ghost predicate FindsFiles(resolve: Resolver, file: Segs)
    requires |file| >= 2
  {
    forall spec :: match resolve(file[0], RelDir(file), spec)
      case None => true
      case Some(target) => AllPlain(target) && NotInside(target, file)
  }

  /** What an import of the source file must be in its product. */
  ghost predicate SameEdge(
    resolve: Resolver, view: map<string, string>, root: Segs, file: Segs, spec: string, product: string)
    requires IsTsFile(view, file)
  {
    if !IsLocal(spec) then product == spec
    else match ResolveToSegs(resolve, file[0], RelDir(file), spec)
      case Err(_) => false
      case Ok(target) =>
        && IsTsFile(view, target) && IsRelative(product)
        && Target(root, ImageDirectory(view, file), product) == root + Image(view, target)
  }

  /** A lone file name is no module, so an accepted target has a path inside its module. */
  lemma TargetHasPath(view: map<string, string>, target: Segs)
    requires ValidView(view) && target != [] && target[0] in view && HasTsExtension(target[|target| - 1])
    ensures |target| >= 2
  {
    var name := target[|target| - 1];
    assert name[|name| - 3] == name[|name| - 3..][0] == '.';
  }

  /** The edge of an accepted specifier is kept. */
  lemma FixedEdge(resolve: Resolver, view: map<string, string>, root: Segs, file: Segs, spec: string)
    requires ValidView(view) && NoCollision(view) && IsTsFile(view, file) && FindsFiles(resolve, file)
    requires FixSpecifier(resolve, view, file[0], view[file[0]], RelDir(file), spec).Ok?
    ensures var f := Total(FixOf(resolve, view, file[0], view[file[0]], RelDir(file)));
            SameEdge(resolve, view, root, file, spec, f(spec))
  {
    hide ProductSpec, Target, Image, ImageDirectory;
    if IsLocal(spec) {
      var target := ResolveToSegs(resolve, file[0], RelDir(file), spec).value;
      assert target[0] in view;
      TargetHasPath(view, target);
      assert IsTsFile(view, target);
      EdgeIsPreserved(resolve, view, root, file, spec, target);
    }
  }

  lemma {:induction false} MapSpecsAt(specs: seq<string>, f: string -> string, k: nat)
    requires k < |specs|
    ensures MapSpecs(specs, f)[k] == f(specs[k])
  {
    if k > 0 {
      MapSpecsAt(specs[1..], f, k - 1);
    }
  }

  /**
    Scanned again, a product imports exactly the products of what its source imports -- provided that
    each new specifier can stand between the quotes of its import, which nothing in the rewriting checks.
   */
  lemma ProductImports(resolve: Resolver, view: map<string, string>, root: Segs, file: Segs, text: string)
    requires ValidView(view) && NoCollision(view) && IsTsFile(view, file) && FindsFiles(resolve, file)
    requires var fix := FixOf(resolve, view, file[0], view[file[0]], RelDir(file));
             AllReplace(Total(fix), text) && forall k :: 0 <= k < |Specs(text)| ==> fix(Specs(text)[k]).Ok?
    ensures var fix := FixOf(resolve, view, file[0], view[file[0]], RelDir(file));
            var product := Specs(Rewrite(text, Total(fix)));
            && |product| == |Specs(text)|
            && forall k :: 0 <= k < |product| ==> SameEdge(resolve, view, root, file, Specs(text)[k], product[k])
  {
    hide Specs, Rewrite, FindsFiles, ValidView, NoCollision, FixSpecifier, SameEdge, AllReplace, MapSpecs;
    var fix := FixOf(resolve, view, file[0], view[file[0]], RelDir(file));
    var specs := Specs(text);
    forall k | 0 <= k < |specs|
      ensures SameEdge(resolve, view, root, file, specs[k], MapSpecs(specs, Total(fix))[k])
    {
      FixedEdge(resolve, view, root, file, specs[k]);
      MapSpecsAt(specs, Total(fix), k);
    }
    SpecsOfRewrite(text, Total(fix));
  }

  /**
    `fix_import_specifiers`: either the product text, whose import graph is that of the source, or the
    error of the first specifier that cannot be built.
   */
  method FixImportSpecifiers(resolve: Resolver, view: map<string, string>, ghost root: Segs, file: Segs, text: string)
    returns (r: Result<string, SpecError>)
    requires IsTsFile(view, file)
    ensures var fix := FixOf(resolve, view, file[0], view[file[0]], RelDir(file));
            match r
            case Err(e) =>
              exists k :: 0 <= k < |Specs(text)| && fix(Specs(text)[k]) == Err(e)
                          && forall j :: 0 <= j < k ==> fix(Specs(text)[j]).Ok?
            case Ok(product) =>
              ValidView(view) && NoCollision(view) && FindsFiles(resolve, file) && AllReplace(Total(fix), text) ==>
                && |Specs(product)| == |Specs(text)|
                && forall k :: 0 <= k < |Specs(text)| ==>
                     SameEdge(resolve, view, root, file, Specs(text)[k], Specs(product)[k])
  {
    hide Specs, Rewrite, FindsFiles, ValidView, NoCollision, FixSpecifier, SameEdge, AllReplace;
    var fix := FixOf(resolve, view, file[0], view[file[0]], RelDir(file));
    r := RewriteSpecifiers(text, fix);
    if r.Ok? && ValidView(view) && NoCollision(view) && FindsFiles(resolve, file) && AllReplace(Total(fix), text) {
      ProductImports(resolve, view, root, file, text);
    }
  }

  // ----- which new specifiers stand between their quotes -----

  predicate Avoids(s: string, q: char) {
    forall i :: 0 <= i < |s| ==> s[i] != '\\' && s[i] != q
  }

  predicate AllAvoid(segs: Segs, q: char) {
    forall i :: 0 <= i < |segs| ==> Avoids(segs[i], q)
  }

  lemma {:induction false} AvoidingTextCloses(s: string, q: char)
    requires Avoids(s, q) && q != '\\'
    ensures CloseAt(s + [q], q) == Some(|s|)
  {
    if s != "" {
      assert (s + [q])[1..] == s[1..] + [q];
      AvoidingTextCloses(s[1..], q);
    }
  }

  lemma {:induction false} JoinAvoids(parts: seq<string>, q: char)
    requires AllAvoid(parts, q) && q != '/'
    ensures Avoids(Join(parts, '/'), q)
  {
    if |parts| > 1 {
      JoinAvoids(parts[1..], q);
    }
  }

  lemma ProductSpecAvoids(from: Segs, to: Segs, q: char)
    requires to != [] && AllAvoid(to, q) && (q == '\'' || q == '"')
    ensures Avoids(ProductSpec(from, to), q)
  {
    hide Join, CommonPrefix;
    var i, last := CommonPrefix(from, to), |to| - 1;
    assert forall k :: 0 <= k < |JsName(to[last])| - 3 ==> Avoids(to[last], q) && JsName(to[last])[k] == to[last][k];
    assert AllAvoid(LastToJs(to), q);
    JoinAvoids(SpecParts(from, to), q);
  }

  lemma VersionDirAvoids(m: string, v: string, q: char)
    requires ValidModule(m) && ValidVersion(v) && (q == '\'' || q == '"')
    ensures Avoids(VersionDir(m, v), q)
  {
  }

  /**
    A new specifier can stand between the quotes of its import whenever the names on the path of its
    target hold neither a backslash nor that quote; the other quote they may hold.
   */
  lemma NamesWithoutTheQuoteReplace(resolve: Resolver, view: map<string, string>, file: Segs, spec: string, q: char)
    requires ValidView(view) && IsTsFile(view, file) && (q == '\'' || q == '"')
    requires var target := ResolveToSegs(resolve, file[0], RelDir(file), spec);
             target.Ok? ==> AllAvoid(target.value, q)
    ensures Replaces(Total(FixOf(resolve, view, file[0], view[file[0]], RelDir(file))), spec, q)
  {
    hide ProductSpec, VersionDir, Avoids;
    var fixed := FixSpecifier(resolve, view, file[0], view[file[0]], RelDir(file), spec);
    if fixed.Ok? && fixed.value.Some? {
      var target := ResolveToSegs(resolve, file[0], RelDir(file), spec).value;
      var to := [VersionDir(target[0], view[target[0]])] + target[1..];
      VersionDirAvoids(target[0], view[target[0]], q);
      assert AllAvoid(to, q);
      ProductSpecAvoids(FromDir(file[0], view[file[0]], RelDir(file)), to, q);
      AvoidingTextCloses(fixed.value.value, q);
    }
  }

  // ----- which products exist -----

  /** Directories of a module that the build does not enter. */
  const SKIPPED_DIRS := ["fixtures", "node_modules"]

  /** The build transpiles this file: no directory on the way to it is skipped. */
  predicate Collected(file: Segs) {
    forall i :: 1 <= i < |file| - 1 ==> file[i] !in SKIPPED_DIRS
  }

  /** The products of a source tree, below the output directory. */
  ghost predicate IsProduct(view: map<string, string>, files: set<Segs>, path: Segs) {
    exists file :: file in files && IsTsFile(view, file) && Collected(file) && Image(view, file) == path
  }

  /**
    A rewritten local specifier leads to a product that exists exactly when its target is not in a
    skipped directory. Rewriting does not look at that: it accepts both.
   */
  lemma EdgeLeadsToProductIff(
    resolve: Resolver, view: map<string, string>, root: Segs, file: Segs, files: set<Segs>, spec: string,
    product: string)
    requires ValidView(view) && NoCollision(view) && IsTsFile(view, file)
    requires IsLocal(spec) && SameEdge(resolve, view, root, file, spec, product)
    requires ResolveToSegs(resolve, file[0], RelDir(file), spec).value in files
    ensures var target := ResolveToSegs(resolve, file[0], RelDir(file), spec).value;
            (exists path :: Target(root, ImageDirectory(view, file), product) == root + path
                            && IsProduct(view, files, path)) <==>
            Collected(target)
  {
    hide Target, Image, ImageDirectory, ResolveToSegs, RelDir, AllPlain, HasTsExtension, Collected, NoCollision,
         ValidView;
    var target := ResolveToSegs(resolve, file[0], RelDir(file), spec).value;
    var image := Image(view, target);
    if Collected(target) {
      assert IsProduct(view, files, image);
    }
    if path :| Target(root, ImageDirectory(view, file), product) == root + path && IsProduct(view, files, path) {
      assert (root + path)[|root|..] == path && (root + image)[|root|..] == image;
      var other :| other in files && IsTsFile(view, other) && Collected(other) && Image(view, other) == path;
      ImageIsInjective(view, other, target);
    }
  }

  lemma ModuleNameIsPlain(m: string)
    requires ValidModule(m)
    ensures Plain(m)
  {
    assert m[0] != '.' && "."[0] == '.' && ".."[0] == '.';
  }

  /**
    An instance: a module imports a file of its own `fixtures` directory. The import is rewritten without
    complaint, and there is no product where the new specifier leads.
   */
  lemma FixtureImportDangles(m: string, v: string, root: Segs)
    requires ValidModule(m) && ValidVersion(v)
    ensures var file, fixture := [m, "api.ts"], [m, "fixtures", "a.ts"];
            var resolve: Resolver := (_, _, _) => Some(fixture);
            var view := map[m := v];
            var fixed := FixSpecifier(resolve, view, m, v, RelDir(file), "./fixtures/a");
            && IsTsFile(view, file) && IsTsFile(view, fixture)
            && fixed.Ok? && fixed.value.Some?
            && !exists path :: Target(root, ImageDirectory(view, file), fixed.value.value) == root + path
                               && IsProduct(view, {file, fixture}, path)
  {
    hide ProductSpec, Target, Image, ImageDirectory;
    var file, fixture := [m, "api.ts"], [m, "fixtures", "a.ts"];
    var resolve: Resolver := (_, _, _) => Some(fixture);
    var view := map[m := v];
    var spec := "./fixtures/a";
    assert "api.ts"[3..] == ".ts" && "a.ts"[1..] == ".ts";
    assert Plain("api.ts") && Plain("fixtures") && Plain("a.ts");
    ModuleNameIsPlain(m);
    assert fixture[1] == "fixtures" && SKIPPED_DIRS[0] == "fixtures" && !Collected(fixture);
    assert spec[..2] == "./" && IsLocal(spec);
    assert ResolveToSegs(resolve, m, RelDir(file), spec) == Ok(fixture);
    FixedEdge(resolve, view, root, file, spec);
    var product := FixSpecifier(resolve, view, m, v, RelDir(file), spec).value.value;
    EdgeLeadsToProductIff(resolve, view, root, file, {file, fixture}, spec, product);
  }
}

/**
  Finding module roots below a source tree (src/bridge/module_scan.rs). A directory with a manifest is
  a module root, and the search does not go below it; so roots never nest, and a file belongs to one
  module at most.
 */
module ModuleScan {
  import opened Wrappers
  import opened Text
  import ImportGraph

  type Path = seq<string>

  const MAX_DEPTH: nat := 8
  const MAX_ROOTS: nat := 1024

  /** What discovery reads of a manifest; a missing prefix is the empty one. */
  datatype Head = Head(name: string, version: string, prefix: string)

  datatype ManifestFile = Absent | Unreadable | Present(head: Head)

  /** A directory: is it a link, what manifest does it hold, is it the output of a build? */
  datatype Dir = Dir(name: string, link: bool, manifest: ManifestFile, release: bool, subs: seq<Dir>)

  datatype Hit = Hit(root: Path, manifest: ManifestFile)

  /** Directories the search does not enter. */
  predicate Enters(d: Dir, skip: Option<string>) {
    !(d.name != "" && d.name[0] == '.') && d.name != "node_modules" && Some(d.name) != skip && !d.link
  }

  function Hits(path: Path, d: Dir, depth: nat, skip: Option<string>): seq<Hit>
    decreases d, 1, 0
  {
    if !d.manifest.Absent? then [Hit(path, d.manifest)]
    else if depth >= MAX_DEPTH || d.release then []
    else HitsBelow(path, d, |d.subs|, depth, skip)
  }

  /** The hits in the first `n` sub-directories. */
  function HitsBelow(path: Path, d: Dir, n: nat, depth: nat, skip: Option<string>): seq<Hit>
    requires n <= |d.subs|
    decreases d, 0, n
  {
    if n == 0 then []
    else
      var sub := d.subs[n - 1];
      HitsBelow(path, d, n - 1, depth, skip) +
      (if Enters(sub, skip) then Hits(path + [sub.name], sub, depth + 1, skip) else [])
  }

  // ----- the index -----

  datatype Entry = Entry(name: string, version: string, prefix: string, root: Path)

  predicate IsPrefixSegment(seg: string) {
    seg != "" && forall i :: 0 <= i < |seg| ==> IsAsciiAlphanumeric(seg[i]) || seg[i] == '_' || seg[i] == '-'
  }

  predicate ValidPrefix(p: string) {
    p != "" ==> forall i :: 0 <= i < |Split(p, '/')| ==> IsPrefixSegment(Split(p, '/')[i])
  }

  function EntryOf(hit: Hit): Option<Entry> {
    match hit.manifest
    case Present(h) =>
      var prefix := if h.prefix == "" then h.name else h.prefix;
      if ImportGraph.ValidModule(h.name) && ImportGraph.ValidVersion(h.version) && ValidPrefix(prefix)
      then Some(Entry(h.name, h.version, prefix, hit.root)) else None
    case _ => None
  }

  predicate Clashes(entries: seq<Entry>, e: Entry) {
    exists i :: 0 <= i < |entries| && (entries[i].name == e.name || entries[i].prefix == e.prefix)
  }

  /** The index of the first `n` hits; names and prefixes must be unique. */
  function Register(hits: seq<Hit>, n: nat): Option<seq<Entry>>
    requires n <= |hits|
  {
    if n == 0 then Some([])
    else match (Register(hits, n - 1), EntryOf(hits[n - 1]))
      case (Some(entries), Some(e)) => if Clashes(entries, e) then None else Some(entries + [e])
      case _ => None
  }

  /** `resolve_roots` for `--module-root`: finding nothing is an error. */
  function ResolveRoots(base: Path, d: Dir, skip: Option<string>): Option<seq<Entry>> {
    var hits := Hits(base, d, 0, skip);
    if hits == [] || |hits| > MAX_ROOTS then None else Register(hits, |hits|)
  }

  // ----- where the roots are -----

  ghost predicate AllBelow(hits: seq<Hit>, path: Path) {
    forall i :: 0 <= i < |hits| ==> path <= hits[i].root
  }

  lemma BelowConcat(a: seq<Hit>, b: seq<Hit>, path: Path, sub: string)
    requires AllBelow(a, path) && AllBelow(b, path + [sub])
    ensures AllBelow(a + b, path)
  {
  }

  lemma {:induction false} HitsAreBelow(path: Path, d: Dir, depth: nat, skip: Option<string>)
    ensures AllBelow(Hits(path, d, depth, skip), path)
    decreases d, 1, 0
  {
    if d.manifest.Absent? && depth < MAX_DEPTH && !d.release {
      SubHitsAreBelow(path, d, |d.subs|, depth, skip);
    }
  }

  lemma {:induction false} SubHitsAreBelow(path: Path, d: Dir, n: nat, depth: nat, skip: Option<string>)
    requires n <= |d.subs|
    ensures AllBelow(HitsBelow(path, d, n, depth, skip), path)
    decreases d, 0, n
  {
    hide Hits, Enters;
    if n > 0 {
      var sub := d.subs[n - 1];
      SubHitsAreBelow(path, d, n - 1, depth, skip);
      HitsAreBelow(path + [sub.name], sub, depth + 1, skip);
      BelowConcat(
        HitsBelow(path, d, n - 1, depth, skip), Hits(path + [sub.name], sub, depth + 1, skip), path, sub.name);
    }
  }

  /** Directories next to each other have different names. */
  ghost predicate WellNamed(d: Dir) {
    && (forall i, j :: 0 <= i < j < |d.subs| ==> d.subs[i].name != d.subs[j].name)
    && forall i :: 0 <= i < |d.subs| ==> WellNamed(d.subs[i])
  }

  ghost predicate Apart(a: Path, b: Path) {
    !(a <= b) && !(b <= a)
  }

  ghost predicate NoneNested(hits: seq<Hit>) {
    forall i, j :: 0 <= i < j < |hits| ==> Apart(hits[i].root, hits[j].root)
  }

  /** Every hit lies below one of the first `n` sub-directories. */
  ghost predicate Under(hits: seq<Hit>, path: Path, d: Dir, n: nat)
    requires n <= |d.subs|
  {
    forall i :: 0 <= i < |hits| ==> exists k :: 0 <= k < n && path + [d.subs[k].name] <= hits[i].root
  }

  lemma BranchesPart(path: Path, a: string, b: string, x: Path, y: Path)
    requires a != b && path + [a] <= x && path + [b] <= y
    ensures Apart(x, y)
  {
    assert x[|path|] == a && y[|path|] == b;
  }

  lemma JoinApart(path: Path, d: Dir, n: nat, before: seq<Hit>, here: seq<Hit>)
    requires n < |d.subs| && WellNamed(d)
    requires Under(before, path, d, n) && NoneNested(before)
    requires AllBelow(here, path + [d.subs[n].name]) && NoneNested(here)
    ensures NoneNested(before + here) && Under(before + here, path, d, n + 1)
  {
    forall i, j | 0 <= i < |before| && 0 <= j < |here|
      ensures Apart(before[i].root, here[j].root)
    {
      var k :| 0 <= k < n && path + [d.subs[k].name] <= before[i].root;
      BranchesPart(path, d.subs[k].name, d.subs[n].name, before[i].root, here[j].root);
    }
    assert forall i :: 0 <= i < |before| ==> (before + here)[i] == before[i];
    assert forall j :: 0 <= j < |here| ==> (before + here)[|before| + j] == here[j];
  }

  lemma {:induction false} HitsDoNotNest(path: Path, d: Dir, depth: nat, skip: Option<string>)
    requires WellNamed(d)
    ensures NoneNested(Hits(path, d, depth, skip))
    decreases d, 1, 0
  {
    if d.manifest.Absent? && depth < MAX_DEPTH && !d.release {
      SubHitsDoNotNest(path, d, |d.subs|, depth, skip);
    }
  }

  lemma NothingHit(path: Path, d: Dir)
    ensures NoneNested([]) && Under([], path, d, 0)
    ensures forall p :: AllBelow([], p)
  {
  }

  lemma {:induction false} SubHitsDoNotNest(path: Path, d: Dir, n: nat, depth: nat, skip: Option<string>)
    requires n <= |d.subs| && WellNamed(d)
    ensures NoneNested(HitsBelow(path, d, n, depth, skip)) && Under(HitsBelow(path, d, n, depth, skip), path, d, n)
    decreases d, 0, n
  {
    hide Hits, Enters, NoneNested, AllBelow, Under;
    NothingHit(path, d);
    if n > 0 {
      var sub := d.subs[n - 1];
      var before := HitsBelow(path, d, n - 1, depth, skip);
      SubHitsDoNotNest(path, d, n - 1, depth, skip);
      HitsDoNotNest(path + [sub.name], sub, depth + 1, skip);
      HitsAreBelow(path + [sub.name], sub, depth + 1, skip);
      JoinApart(
        path, d, n - 1, before, if Enters(sub, skip) then Hits(path + [sub.name], sub, depth + 1, skip) else []);
    }
  }

  lemma {:induction false} EntriesAreHits(hits: seq<Hit>, n: nat)
    requires n <= |hits| && Register(hits, n).Some?
    ensures var entries := Register(hits, n).value;
            |entries| == n && forall i :: 0 <= i < n ==> EntryOf(hits[i]) == Some(entries[i])
  {
    hide EntryOf, Clashes;
    if n > 0 {
      EntriesAreHits(hits, n - 1);
    }
  }

  /** Every module root lies below the directory that was searched. */
  lemma RootsAreBelow(base: Path, d: Dir, skip: Option<string>)
    requires ResolveRoots(base, d, skip).Some?
    ensures forall i :: 0 <= i < |ResolveRoots(base, d, skip).value| ==>
              base <= ResolveRoots(base, d, skip).value[i].root
  {
    hide Hits;
    var hits := Hits(base, d, 0, skip);
    HitsAreBelow(base, d, 0, skip);
    EntriesAreHits(hits, |hits|);
  }

  /** No file lies in two modules: the longest-prefix search of `locate` never has a choice. */
  lemma OwnerIsUnique(base: Path, d: Dir, skip: Option<string>, file: Path, i: nat, j: nat)
    requires WellNamed(d) && ResolveRoots(base, d, skip).Some?
    requires i < |ResolveRoots(base, d, skip).value| && j < |ResolveRoots(base, d, skip).value|
    requires ResolveRoots(base, d, skip).value[i].root <= file && ResolveRoots(base, d, skip).value[j].root <= file
    ensures i == j
  {
    hide Hits;
    var hits := Hits(base, d, 0, skip);
    HitsDoNotNest(base, d, 0, skip);
    EntriesAreHits(hits, |hits|);
    assert EntryOf(hits[i]).Some? && EntryOf(hits[j]).Some?;
    PrefixesCompare(hits[i].root, hits[j].root, file);
  }

  lemma PrefixesCompare(a: Path, b: Path, file: Path)
    requires a <= file && b <= file
    ensures a <= b || b <= a
  {
  }

  // ----- which directories are module roots -----

  /** A way down through sub-directories, by position. */
  type Walk = seq<nat>

  /**
    The search goes down this way: through directories that hold no manifest and no build output, never
    into a link, a hidden directory, `node_modules` or the one it was told to leave out.
   */
  predicate GoesDown(d: Dir, walk: Walk, skip: Option<string>)
    decreases |walk|
  {
    walk == [] ||
    (&& d.manifest == Absent && !d.release && walk[0] < |d.subs|
     && var sub := d.subs[walk[0]];
        && !sub.link && !("." <= sub.name) && sub.name != "node_modules" && skip != Some(sub.name)
        && GoesDown(sub, walk[1..], skip))
  }

  function DirAt(d: Dir, walk: Walk, skip: Option<string>): Dir
    requires GoesDown(d, walk, skip)
    decreases |walk|
  {
    if walk == [] then d else DirAt(d.subs[walk[0]], walk[1..], skip)
  }

  function PathAt(path: Path, d: Dir, walk: Walk, skip: Option<string>): Path
    requires GoesDown(d, walk, skip)
    decreases |walk|
  {
    if walk == [] then path else PathAt(path + [d.subs[walk[0]].name], d.subs[walk[0]], walk[1..], skip)
  }

  /** At the end of the way stands a manifest, no deeper than eight levels below the start. */
  ghost predicate LeadsToRoot(path: Path, d: Dir, depth: nat, skip: Option<string>, walk: Walk, hit: Hit) {
    && GoesDown(d, walk, skip) && depth + |walk| <= 8
    && hit.manifest != Absent && hit == Hit(PathAt(path, d, walk, skip), DirAt(d, walk, skip).manifest)
  }

  ghost predicate IsRoot(path: Path, d: Dir, depth: nat, skip: Option<string>, hit: Hit) {
    exists walk :: LeadsToRoot(path, d, depth, skip, walk, hit)
  }

  lemma EntersIff(d: Dir, skip: Option<string>)
    ensures Enters(d, skip) <==>
            !d.link && !("." <= d.name) && d.name != "node_modules" && skip != Some(d.name)
  {
  }

  /** Below one sub-directory. */
  ghost predicate IsRootIn(path: Path, d: Dir, k: nat, depth: nat, skip: Option<string>, hit: Hit)
    requires k < |d.subs|
  {
    Enters(d.subs[k], skip) && IsRoot(path + [d.subs[k].name], d.subs[k], depth + 1, skip, hit)
  }

  lemma RootIsHereOrBelow(path: Path, d: Dir, depth: nat, skip: Option<string>, hit: Hit)
    requires depth <= 8
    ensures IsRoot(path, d, depth, skip, hit) <==>
            if d.manifest != Absent then hit == Hit(path, d.manifest)
            else depth < 8 && !d.release && exists k :: 0 <= k < |d.subs| && IsRootIn(path, d, k, depth, skip, hit)
  {
    if walk :| LeadsToRoot(path, d, depth, skip, walk, hit) {
      if walk != [] {
        var k := walk[0];
        EntersIff(d.subs[k], skip);
        assert LeadsToRoot(path + [d.subs[k].name], d.subs[k], depth + 1, skip, walk[1..], hit);
        assert IsRootIn(path, d, k, depth, skip, hit);
      }
    }
    if d.manifest != Absent && hit == Hit(path, d.manifest) {
      assert LeadsToRoot(path, d, depth, skip, [], hit);
    }
    if k :| d.manifest == Absent && depth < 8 && !d.release
            && 0 <= k < |d.subs| && IsRootIn(path, d, k, depth, skip, hit)
    {
      EntersIff(d.subs[k], skip);
      var rest :| LeadsToRoot(path + [d.subs[k].name], d.subs[k], depth + 1, skip, rest, hit);
      assert ([k] + rest)[1..] == rest;
      assert LeadsToRoot(path, d, depth, skip, [k] + rest, hit);
    }
  }

  /** The recursive search finds exactly these: a directory is a root iff such a way leads to it. */
  lemma {:induction false} HitsAreTheRoots(path: Path, d: Dir, depth: nat, skip: Option<string>, hit: Hit)
    requires depth <= 8
    ensures hit in Hits(path, d, depth, skip) <==> IsRoot(path, d, depth, skip, hit)
    decreases d, 1, 0
  {
    hide IsRoot, IsRootIn;
    RootIsHereOrBelow(path, d, depth, skip, hit);
    if d.manifest.Absent? && depth < 8 && !d.release {
      SubHitsAreTheRoots(path, d, |d.subs|, depth, skip, hit);
    }
  }

  lemma {:induction false} SubHitsAreTheRoots(path: Path, d: Dir, n: nat, depth: nat, skip: Option<string>, hit: Hit)
    requires n <= |d.subs| && depth < 8
    ensures hit in HitsBelow(path, d, n, depth, skip) <==>
            exists k :: 0 <= k < n && IsRootIn(path, d, k, depth, skip, hit)
    decreases d, 0, n
  {
    hide Hits, Enters, IsRoot;
    if n > 0 {
      var sub := d.subs[n - 1];
      SubHitsAreTheRoots(path, d, n - 1, depth, skip, hit);
      HitsAreTheRoots(path + [sub.name], sub, depth + 1, skip, hit);
      assert hit in HitsBelow(path, d, n, depth, skip) <==>
             hit in HitsBelow(path, d, n - 1, depth, skip) || IsRootIn(path, d, n - 1, depth, skip, hit);
    }
  }

  /** A name, a version and a prefix that can be registered. */
  predicate IsRegistrable(hit: Hit) {
    && hit.manifest.Present?
    && ImportGraph.ValidModule(hit.manifest.head.name) && ImportGraph.ValidVersion(hit.manifest.head.version)
    && ValidPrefix(PrefixOf(hit))
  }

  function PrefixOf(hit: Hit): string
    requires hit.manifest.Present?
  {
    if hit.manifest.head.prefix == "" then hit.manifest.head.name else hit.manifest.head.prefix
  }

  /** The first `n` roots can be told apart by name and by prefix. */
  predicate CanBeIndexed(hits: seq<Hit>, n: nat)
    requires n <= |hits|
  {
    && (forall i :: 0 <= i < n ==> IsRegistrable(hits[i]))
    && forall i, j :: 0 <= i < j < n ==>
         hits[i].manifest.head.name != hits[j].manifest.head.name && PrefixOf(hits[i]) != PrefixOf(hits[j])
  }

  lemma EntryOfRegistrable(hit: Hit)
    ensures EntryOf(hit).Some? <==> IsRegistrable(hit)
    ensures IsRegistrable(hit) ==>
              && hit.manifest.Present?
              && var head := hit.manifest.head;
                 EntryOf(hit) == Some(Entry(head.name, head.version, PrefixOf(hit), hit.root))
  {
    hide ValidPrefix;
  }

  lemma {:induction false} RegisterIff(hits: seq<Hit>, n: nat)
    requires n <= |hits|
    ensures Register(hits, n).Some? <==> CanBeIndexed(hits, n)
    ensures Register(hits, n).Some? ==>
              && |Register(hits, n).value| == n
              && forall i :: 0 <= i < n ==> EntryOf(hits[i]) == Some(Register(hits, n).value[i])
  {
    hide EntryOf, IsRegistrable, PrefixOf;
    if n > 0 {
      RegisterIff(hits, n - 1);
      forall i | 0 <= i < n
        ensures EntryOf(hits[i]).Some? <==> IsRegistrable(hits[i])
        ensures IsRegistrable(hits[i]) ==>
                  && hits[i].manifest.Present?
                  && var head := hits[i].manifest.head;
                     EntryOf(hits[i]) == Some(Entry(head.name, head.version, PrefixOf(hits[i]), hits[i].root))
      {
        EntryOfRegistrable(hits[i]);
      }
    }
  }

  /**
    The index of a tree is made exactly when it has a root, at most 1024 of them, every manifest found is
    sound, and no two modules share a name or a prefix; it then lists every root once.
   */
  lemma IndexIsMadeIff(base: Path, d: Dir, skip: Option<string>)
    ensures var hits := Hits(base, d, 0, skip);
            && (ResolveRoots(base, d, skip).Some? <==> 1 <= |hits| <= 1024 && CanBeIndexed(hits, |hits|))
            && (ResolveRoots(base, d, skip).Some? ==>
                  && |ResolveRoots(base, d, skip).value| == |hits|
                  && forall i :: 0 <= i < |hits| ==> EntryOf(hits[i]) == Some(ResolveRoots(base, d, skip).value[i]))
  {
    hide Hits, EntryOf, IsRegistrable;
    RegisterIff(Hits(base, d, 0, skip), |Hits(base, d, 0, skip)|);
  }
}

/** Decryption of every sealed value in a configuration tree (src/secret.rs, `has_sealed` and `decrypt_tree`). */
module SecretTree {
  import opened Wrappers
  import opened Bytes
  import opened Secret
  import Base64

  datatype Yaml =
    | Null
    | Bool(b: bool)
    | Number(text: string)
    | Str(s: string)
    | Sequence(items: seq<Yaml>)
    | Mapping(entries: seq<Entry>)
    | Tagged(tag: string, inner: Yaml)

  datatype Entry = Entry(key: Yaml, val: Yaml)

  /** Scans key positions too. */
  predicate HasSealed(v: Yaml) {
    match v
    case Str(s) => IsSealed(s)
    case Mapping(es) => exists i :: 0 <= i < |es| && (HasSealed(es[i].key) || HasSealed(es[i].val))
    case Sequence(xs) => exists i :: 0 <= i < |xs| && HasSealed(xs[i])
    case Tagged(_, inner) => HasSealed(inner)
    case _ => false
  }

  datatype TreeError = OpenFailed(error: OpenError) | SealedKey(key: string)

  predicate IsSealedKey(k: Yaml) {
    k.Str? && IsSealed(k.s)
  }

  // ----- what a successful run does -----

  /** No sealed key where the walk passes, and every sealed value opens. */
  predicate Decryptable(c: Crypto, key: Bytes, v: Yaml) {
    match v
    case Str(s) => IsSealed(s) ==> Open(c, key, s).Ok?
    case Mapping(es) => forall i :: 0 <= i < |es| ==> !IsSealedKey(es[i].key) && Decryptable(c, key, es[i].val)
    case Sequence(xs) => forall i :: 0 <= i < |xs| ==> Decryptable(c, key, xs[i])
    case Tagged(_, inner) => Decryptable(c, key, inner)
    case _ => true
  }

  function Opened(c: Crypto, key: Bytes, v: Yaml): Yaml
    requires Decryptable(c, key, v)
  {
    match v
    case Str(s) => if IsSealed(s) then Str(Open(c, key, s).value) else v
    case Mapping(es) =>
      Mapping(seq(|es|, i requires 0 <= i < |es| => Entry(es[i].key, Opened(c, key, es[i].val))))
    case Sequence(xs) => Sequence(seq(|xs|, i requires 0 <= i < |xs| => Opened(c, key, xs[i])))
    case Tagged(tag, inner) => Tagged(tag, Opened(c, key, inner))
    case _ => v
  }

  datatype Step = Item(i: nat) | ValueOf(i: nat) | Inner

  type Path = seq<Step>

  /** The part of a node that a step leads to. */
  function PartOf(v: Yaml, step: Step): Option<Yaml> {
    match v
    case Sequence(xs) => if step.Item? && step.i < |xs| then Some(xs[step.i]) else None
    case Mapping(es) => if step.ValueOf? && step.i < |es| then Some(es[step.i].val) else None
    case Tagged(_, inner) => if step.Inner? then Some(inner) else None
    case _ => None
  }

  /** The node at a path of value positions; keys are not on any path. */
  function NodeAt(v: Yaml, path: Path): Option<Yaml>
    decreases |path|
  {
    if path == [] then Some(v)
    else match PartOf(v, path[0])
      case Some(part) => NodeAt(part, path[1..])
      case None => None
  }

  predicate IsSealedNode(n: Option<Yaml>) {
    n.Some? && n.value.Str? && IsSealed(n.value.s)
  }

  // ----- the walk -----

  /** The sealed value positions, in walk order. */
  function SealedPaths(v: Yaml): seq<Path> {
    match v
    case Str(s) => if IsSealed(s) then [[]] else []
    case Mapping(es) => EntryPaths(es)
    case Sequence(xs) => ItemPaths(xs)
    case Tagged(_, inner) => Under(Inner, SealedPaths(inner))
    case _ => []
  }

  function EntryPaths(es: seq<Entry>): seq<Path> {
    if es == [] then []
    else EntryPaths(es[..|es| - 1]) + Under(ValueOf(|es| - 1), PathsOfEntry(es[|es| - 1]))
  }

  function PathsOfEntry(e: Entry): seq<Path> {
    SealedPaths(e.val)
  }

  function ItemPaths(xs: seq<Yaml>): seq<Path> {
    if xs == [] then [] else ItemPaths(xs[..|xs| - 1]) + Under(Item(|xs| - 1), SealedPaths(xs[|xs| - 1]))
  }

  function Under(s: Step, paths: seq<Path>): (r: seq<Path>)
    ensures |r| == |paths|
    ensures forall k :: 0 <= k < |paths| ==> r[k] == [s] + paths[k]
  {
    seq(|paths|, k requires 0 <= k < |paths| => [s] + paths[k])
  }

  // ----- what a failed run leaves behind -----

  predicate EntryOk(c: Crypto, key: Bytes, e: Entry) {
    !IsSealedKey(e.key) && Decryptable(c, key, e.val)
  }

  function FirstFalse(oks: seq<bool>): (k: nat)
    requires false in oks
    ensures k < |oks| && !oks[k] && forall j :: 0 <= j < k ==> oks[j]
  {
    if !oks[0] then 0 else FirstFalse(oks[1..]) + 1
  }

  function EntriesOk(c: Crypto, key: Bytes, es: seq<Entry>): (oks: seq<bool>)
    ensures |oks| == |es| && forall i :: 0 <= i < |es| ==> oks[i] == EntryOk(c, key, es[i])
  {
    seq(|es|, i requires 0 <= i < |es| => EntryOk(c, key, es[i]))
  }

  function ItemsOk(c: Crypto, key: Bytes, xs: seq<Yaml>): (oks: seq<bool>)
    ensures |oks| == |xs| && forall i :: 0 <= i < |xs| ==> oks[i] == Decryptable(c, key, xs[i])
  {
    seq(|xs|, i requires 0 <= i < |xs| => Decryptable(c, key, xs[i]))
  }

  function FirstBadEntry(c: Crypto, key: Bytes, es: seq<Entry>): (k: nat)
    requires !Decryptable(c, key, Mapping(es))
    ensures k < |es| && !EntryOk(c, key, es[k]) && forall j :: 0 <= j < k ==> EntryOk(c, key, es[j])
  {
    var i :| 0 <= i < |es| && !EntryOk(c, key, es[i]);
    assert !EntriesOk(c, key, es)[i];
    FirstFalse(EntriesOk(c, key, es))
  }

  function FirstBadItem(c: Crypto, key: Bytes, xs: seq<Yaml>): (k: nat)
    requires !Decryptable(c, key, Sequence(xs))
    ensures k < |xs| && !Decryptable(c, key, xs[k]) && forall j :: 0 <= j < k ==> Decryptable(c, key, xs[j])
  {
    var i :| 0 <= i < |xs| && !Decryptable(c, key, xs[i]);
    assert !ItemsOk(c, key, xs)[i];
    FirstFalse(ItemsOk(c, key, xs))
  }

  /**
    The tree as a failed run leaves it, and the error. A sequence keeps what was decrypted before the
    failure; a mapping is taken apart first and put together last, so a failure inside leaves it empty.
   */
  function Stopped(c: Crypto, key: Bytes, v: Yaml): (Yaml, TreeError)
    requires !Decryptable(c, key, v)
  {
    match v
    case Str(s) => (v, OpenFailed(Open(c, key, s).error))
    case Mapping(es) =>
      var k := FirstBadEntry(c, key, es);
      (Mapping([]), if IsSealedKey(es[k].key) then SealedKey(es[k].key.s) else Stopped(c, key, es[k].val).1)
    case Sequence(xs) =>
      var k := FirstBadItem(c, key, xs);
      var (x, e) := Stopped(c, key, xs[k]);
      (Sequence(seq(k, i requires 0 <= i < k => Opened(c, key, xs[i])) + [x] + xs[k + 1..]), e)
    case Tagged(tag, inner) =>
      var (x, e) := Stopped(c, key, inner);
      (Tagged(tag, x), e)
  }

  /**
    `decrypt_tree`: the recursive walk, with the tree it leaves in place. Every sealed value is replaced
    and counted, or the walk stops at the first failure.
   */
  method DecryptTree(c: Crypto, key: Bytes, v: Yaml) returns (after: Yaml, r: Result<nat, TreeError>)
    ensures r.Ok? <==> Decryptable(c, key, v)
    ensures r.Ok? ==> after == Opened(c, key, v) && r.value == |SealedPaths(v)|
    ensures r.Err? ==> (after, r.error) == Stopped(c, key, v)
    decreases v, 1
  {
    match v {
      case Str(s) =>
        if IsSealed(s) {
          match Open(c, key, s) {
            case Ok(plain) => return Str(plain), Ok(1);
            case Err(e) => return v, Err(OpenFailed(e));
          }
        }
        return v, Ok(0);
      case Mapping(es) =>
        after, r := DecryptMapping(c, key, es);
      case Sequence(xs) =>
        after, r := DecryptSequence(c, key, xs);
      case Tagged(tag, inner) =>
        after, r := DecryptTree(c, key, inner);
        after := Tagged(tag, after);
      case _ =>
        return v, Ok(0);
    }
  }

  lemma EntryStops(c: Crypto, key: Bytes, es: seq<Entry>, i: nat)
    requires i < |es| && !EntryOk(c, key, es[i]) && forall j :: 0 <= j < i ==> EntryOk(c, key, es[j])
    ensures !Decryptable(c, key, Mapping(es))
    ensures Stopped(c, key, Mapping(es)) ==
            (Mapping([]), if IsSealedKey(es[i].key) then SealedKey(es[i].key.s) else Stopped(c, key, es[i].val).1)
  {
    assert FirstBadEntry(c, key, es) == i;
  }

  lemma EntryPathsStep(es: seq<Entry>, i: nat)
    requires i < |es|
    ensures |EntryPaths(es[..i + 1])| == |EntryPaths(es[..i])| + |SealedPaths(es[i].val)|
    ensures EntryPaths(es[..0]) == []
  {
    assert es[..i + 1][..i] == es[..i];
  }

  lemma EntriesOpened(c: Crypto, key: Bytes, es: seq<Entry>, out: seq<Entry>)
    requires |out| == |es|
    requires forall j :: 0 <= j < |es| ==>
               EntryOk(c, key, es[j]) && out[j] == Entry(es[j].key, Opened(c, key, es[j].val))
    ensures Decryptable(c, key, Mapping(es)) && Mapping(out) == Opened(c, key, Mapping(es))
    ensures es == [] ==> EntryPaths(es) == []
  {
    assert out == Opened(c, key, Mapping(es)).entries;
  }

  /** The mapping is emptied, and filled again when all its entries are done. */
  method DecryptMapping(c: Crypto, key: Bytes, es: seq<Entry>) returns (after: Yaml, r: Result<nat, TreeError>)
    ensures r.Ok? <==> Decryptable(c, key, Mapping(es))
    ensures r.Ok? ==> after == Opened(c, key, Mapping(es)) && r.value == |EntryPaths(es)|
    ensures r.Err? ==> (after, r.error) == Stopped(c, key, Mapping(es))
    decreases Mapping(es), 0
  {
    hide Decryptable, Opened, EntryPaths, SealedPaths, Stopped, IsSealed;
    after := Mapping([]);
    var n, out := 0, [];
    for i := 0 to |es|
      invariant |out| == i && after == Mapping([])
      invariant forall j :: 0 <= j < i ==> EntryOk(c, key, es[j])
      invariant forall j :: 0 <= j < i ==> out[j] == Entry(es[j].key, Opened(c, key, es[j].val))
      invariant i > 0 ==> n == |EntryPaths(es[..i])|
      invariant i == 0 ==> n == 0
    {
      EntryPathsStep(es, i);
      var e := es[i];
      if IsSealedKey(e.key) {
        EntryStops(c, key, es, i);
        return after, Err(SealedKey(e.key.s));
      }
      var val, sub := DecryptTree(c, key, e.val);
      if sub.Err? {
        EntryStops(c, key, es, i);
        return after, Err(sub.error);
      }
      n := n + sub.value;
      out := out + [Entry(e.key, val)];
    }
    assert es[..|es|] == es;
    EntriesOpened(c, key, es, out);
    return Mapping(out), Ok(n);
  }

  lemma ItemPathsAtStart(xs: seq<Yaml>)
    ensures ItemPaths(xs[..0]) == []
  {
  }

  lemma ItemPathsStep(xs: seq<Yaml>, i: nat)
    requires i < |xs|
    ensures |ItemPaths(xs[..i + 1])| == |ItemPaths(xs[..i])| + |SealedPaths(xs[i])|
  {
    assert xs[..i + 1][..i] == xs[..i];
  }

  lemma ItemsOpened(c: Crypto, key: Bytes, xs: seq<Yaml>, out: seq<Yaml>)
    requires |out| == |xs|
    requires forall j :: 0 <= j < |xs| ==> Decryptable(c, key, xs[j]) && out[j] == Opened(c, key, xs[j])
    ensures Decryptable(c, key, Sequence(xs)) && Sequence(out) == Opened(c, key, Sequence(xs))
  {
    assert out == Opened(c, key, Sequence(xs)).items;
  }

  lemma OneBadItem(c: Crypto, key: Bytes, xs: seq<Yaml>, i: nat)
    requires i < |xs| && !Decryptable(c, key, xs[i]) && forall j :: 0 <= j < i ==> Decryptable(c, key, xs[j])
    ensures !Decryptable(c, key, Sequence(xs)) && FirstBadItem(c, key, xs) == i
  {
  }

  lemma ItemStops(c: Crypto, key: Bytes, xs: seq<Yaml>, now: seq<Yaml>, i: nat, x: Yaml)
    requires i < |xs| && !Decryptable(c, key, xs[i]) && |now| == |xs|
    requires forall j :: 0 <= j < i ==> Decryptable(c, key, xs[j]) && now[j] == Opened(c, key, xs[j])
    requires forall j :: i <= j < |xs| ==> now[j] == xs[j]
    requires x == Stopped(c, key, xs[i]).0
    ensures !Decryptable(c, key, Sequence(xs))
    ensures Stopped(c, key, Sequence(xs)) == (Sequence(now[i := x]), Stopped(c, key, xs[i]).1)
  {
    hide Opened, Stopped, Decryptable, FirstBadItem;
    OneBadItem(c, key, xs, i);
    SequenceStops(c, key, xs);
    var items := Stopped(c, key, Sequence(xs)).0.items;
    assert items == now[i := x];
  }

  /** The items a failed sequence is left with, one by one. */
  lemma SequenceStops(c: Crypto, key: Bytes, xs: seq<Yaml>)
    requires !Decryptable(c, key, Sequence(xs))
    ensures var k, (now, e) := FirstBadItem(c, key, xs), Stopped(c, key, Sequence(xs));
            && now.Sequence? && |now.items| == |xs| && e == Stopped(c, key, xs[k]).1
            && (forall j :: 0 <= j < k ==> now.items[j] == Opened(c, key, xs[j]))
            && now.items[k] == Stopped(c, key, xs[k]).0
            && (forall j :: k < j < |xs| ==> now.items[j] == xs[j])
  {
    hide Opened, Decryptable, FirstBadItem;
  }

  /** The items are replaced one by one, where they are. */
  method DecryptSequence(c: Crypto, key: Bytes, xs: seq<Yaml>) returns (after: Yaml, r: Result<nat, TreeError>)
    ensures r.Ok? <==> Decryptable(c, key, Sequence(xs))
    ensures r.Ok? ==> after == Opened(c, key, Sequence(xs)) && r.value == |ItemPaths(xs)|
    ensures r.Err? ==> (after, r.error) == Stopped(c, key, Sequence(xs))
    decreases Sequence(xs), 0
  {
    hide *;
    var n, now := 0, xs;
    ItemPathsAtStart(xs);
    for i := 0 to |xs|
      invariant |now| == |xs|
      invariant forall j :: 0 <= j < i ==> Decryptable(c, key, xs[j]) && now[j] == Opened(c, key, xs[j])
      invariant forall j :: i <= j < |xs| ==> now[j] == xs[j]
      invariant n == |ItemPaths(xs[..i])|
    {
      ItemPathsStep(xs, i);
      var x, sub := DecryptTree(c, key, now[i]);
      if sub.Err? {
        ItemStops(c, key, xs, now, i, x);
        return Sequence(now[i := x]), Err(sub.error);
      }
      now := now[i := x];
      n := n + sub.value;
    }
    assert xs[..|xs|] == xs;
    ItemsOpened(c, key, xs, now);
    return Sequence(now), Ok(n);
  }

  /** One node of the tree a failed run leaves, against the node that was there. */
  ghost predicate LeftBehind(c: Crypto, key: Bytes, before: Option<Yaml>, now: Option<Yaml>) {
    now.Some? ==>
      && before.Some?
      && (|| SameNode(before.value, now.value)
          || (IsSealedNode(before) && Open(c, key, before.value.s).Ok?
              && now == Some(Str(Open(c, key, before.value.s).value)))
          || (before.value.Mapping? && !Decryptable(c, key, before.value) && now == Some(Mapping([]))))
  }

  lemma OpenedIsLeftBehind(c: Crypto, key: Bytes, v: Yaml, path: Path)
    requires Decryptable(c, key, v)
    ensures LeftBehind(c, key, NodeAt(v, path), NodeAt(Opened(c, key, v), path))
  {
    hide NodeAt, Opened, Open, SameNode;
    OpenedAt(c, key, v, path);
  }

  lemma Untouched(c: Crypto, key: Bytes, v: Option<Yaml>)
    ensures LeftBehind(c, key, v, v)
  {
  }

  lemma RootLeftBehind(c: Crypto, key: Bytes, v: Yaml)
    requires !Decryptable(c, key, v)
    ensures LeftBehind(c, key, Some(v), Some(Stopped(c, key, v).0))
  {
    hide Open;
    if v.Sequence? {
      SequenceStops(c, key, v.items);
    }
  }

  /**
    What a failed run leaves, path by path: nodes as they were, plaintexts of sealed strings, and empty
    mappings where a mapping could not be decrypted. Nothing else, and no new position.
   */
  lemma {:induction false} LeftBehindAt(c: Crypto, key: Bytes, v: Yaml, path: Path)
    requires !Decryptable(c, key, v)
    ensures LeftBehind(c, key, NodeAt(v, path), NodeAt(Stopped(c, key, v).0, path))
    decreases |path|
  {
    hide LeftBehind, Opened, Decryptable;
    if path == [] {
      RootLeftBehind(c, key, v);
    } else {
      match (v, path[0])
      case (Sequence(xs), Item(i)) =>
        SequenceStops(c, key, xs);
        if i == FirstBadItem(c, key, xs) {
          LeftBehindAt(c, key, xs[i], path[1..]);
        } else {
          ItemLeftBehind(c, key, v, path);
        }
      case (Tagged(_, inner), Inner) =>
        InnerStops(c, key, v);
        LeftBehindAt(c, key, inner, path[1..]);
      case _ =>
        NothingBelow(c, key, v, path);
    }
  }

  lemma InnerStops(c: Crypto, key: Bytes, v: Yaml)
    requires v.Tagged? && !Decryptable(c, key, v)
    ensures !Decryptable(c, key, v.inner) && Stopped(c, key, v).0 == Tagged(v.tag, Stopped(c, key, v.inner).0)
  {
  }

  lemma ItemLeftBehind(c: Crypto, key: Bytes, v: Yaml, path: Path)
    requires v.Sequence? && !Decryptable(c, key, v) && path != [] && path[0].Item?
    requires path[0].i != FirstBadItem(c, key, v.items)
    ensures LeftBehind(c, key, NodeAt(v, path), NodeAt(Stopped(c, key, v).0, path))
  {
    hide LeftBehind, Opened, Decryptable, Stopped;
    SequenceStops(c, key, v.items);
    var i := path[0].i;
    if i < FirstBadItem(c, key, v.items) {
      OpenedIsLeftBehind(c, key, v.items[i], path[1..]);
    } else {
      Untouched(c, key, NodeAt(v, path));
    }
  }

  lemma NothingBelow(c: Crypto, key: Bytes, v: Yaml, path: Path)
    requires !Decryptable(c, key, v) && path != []
    requires !(v.Sequence? && path[0].Item?) && !(v.Tagged? && path[0].Inner?)
    ensures LeftBehind(c, key, NodeAt(v, path), NodeAt(Stopped(c, key, v).0, path))
  {
    hide Opened, Open, SameNode;
  }

  /**
    A failure that leaves no trace: it struck in no mapping, and before it only such sealed texts were
    met as stand for themselves.
   */
  predicate KeepsTree(c: Crypto, key: Bytes, v: Yaml)
    requires !Decryptable(c, key, v)
  {
    match v
    case Str(_) => true
    case Mapping(_) => false
    case Sequence(xs) =>
      var k := FirstBadItem(c, key, xs);
      (forall j :: 0 <= j < k ==> Opened(c, key, xs[j]) == xs[j]) && KeepsTree(c, key, xs[k])
    case Tagged(_, inner) => KeepsTree(c, key, inner)
  }

  /** Exactly when a failed run leaves the tree as it was. */
  lemma {:induction false} FailureKeepsTreeIff(c: Crypto, key: Bytes, v: Yaml)
    requires !Decryptable(c, key, v)
    ensures Stopped(c, key, v).0 == v <==> KeepsTree(c, key, v)
  {
    hide Opened, Open;
    match v
    case Sequence(xs) =>
      var k := FirstBadItem(c, key, xs);
      SequenceStops(c, key, xs);
      FailureKeepsTreeIff(c, key, xs[k]);
      var items := Stopped(c, key, v).0.items;
      assert items == xs <==> forall j :: 0 <= j < |xs| ==> items[j] == xs[j];
    case Tagged(_, inner) => FailureKeepsTreeIff(c, key, inner);
    case Mapping(es) => assert |es| > 0;
    case _ =>
  }

  /** An instance that loses an entry: the only value of a mapping is an empty envelope. */
  lemma FailureCanEmptyMapping(c: Crypto, key: Bytes, name: Yaml) returns (v: Yaml)
    requires !IsSealedKey(name)
    ensures v == Mapping([Entry(name, Str(Token([])))]) && !Decryptable(c, key, v)
    ensures Stopped(c, key, v) == (Mapping([]), OpenFailed(EmptyEnvelope))
  {
    var text := Str(Token([]));
    v := Mapping([Entry(name, text)]);
    BodyOfToken([]);
    Base64.DecodeEncode(Base64.UrlSafe, []);
    assert Open(c, key, Token([])) == Err(EmptyEnvelope);
    assert !EntryOk(c, key, v.entries[0]);
    EntryStops(c, key, v.entries, 0);
  }

  // ----- what it keeps and what it counts -----

  /** Same kind of node, same number of children, same keys in the same order, same tag, same leaf. */
  predicate SameNode(a: Yaml, b: Yaml) {
    match (a, b)
    case (Sequence(xs), Sequence(ys)) => |xs| == |ys|
    case (Mapping(es), Mapping(fs)) => |es| == |fs| && forall i :: 0 <= i < |es| ==> es[i].key == fs[i].key
    case (Tagged(t, _), Tagged(u, _)) => t == u
    case _ => a == b
  }

  /**
    Path by path: the result has exactly the positions of the source, holds the plaintext where the
    source held a sealed string, and is unchanged -- shape, keys, key order, tags, other leaves --
    everywhere else.
   */
  lemma {:induction false} OpenedAt(c: Crypto, key: Bytes, v: Yaml, path: Path)
    requires Decryptable(c, key, v)
    ensures var before, after := NodeAt(v, path), NodeAt(Opened(c, key, v), path);
            && (before.Some? <==> after.Some?)
            && (IsSealedNode(before) ==>
                 Open(c, key, before.value.s).Ok? && after == Some(Str(Open(c, key, before.value.s).value)))
            && (before.Some? && !IsSealedNode(before) ==> SameNode(before.value, after.value))
    decreases |path|
  {
    if path != [] {
      match (v, path[0])
      case (Sequence(xs), Item(i)) => if i < |xs| { OpenedAt(c, key, xs[i], path[1..]); }
      case (Mapping(es), ValueOf(i)) => if i < |es| { OpenedAt(c, key, es[i].val, path[1..]); }
      case (Tagged(_, inner), Inner) => OpenedAt(c, key, inner, path[1..]);
      case _ =>
    }
  }

  ghost predicate ListsSealed(paths: seq<Path>, v: Yaml) {
    && (forall p :: p in paths <==> IsSealedNode(NodeAt(v, p)))
    && Distinct(paths)
  }

  predicate Distinct(paths: seq<Path>) {
    forall i, j :: 0 <= i < j < |paths| ==> paths[i] != paths[j]
  }

  lemma UnderKeepsDistinct(s: Step, paths: seq<Path>)
    requires Distinct(paths)
    ensures Distinct(Under(s, paths))
  {
    forall k | 0 <= k < |paths|
      ensures Under(s, paths)[k][1..] == paths[k]
    {
    }
  }

  lemma UnderStep(s: Step, paths: seq<Path>, p: Path)
    ensures p in Under(s, paths) <==> p != [] && p[0] == s && p[1..] in paths
  {
    if p in Under(s, paths) {
      var k :| 0 <= k < |paths| && Under(s, paths)[k] == p;
      assert p[1..] == paths[k];
    }
    if p != [] && p[0] == s && p[1..] in paths {
      var k :| 0 <= k < |paths| && paths[k] == p[1..];
      assert p == [s] + p[1..] == Under(s, paths)[k];
    }
  }

  /**
    The count is the number of sealed strings at value positions: the walk order lists each such
    position once and nothing else.
   */
  lemma {:induction false} SealedPathsAreExact(v: Yaml)
    ensures ListsSealed(SealedPaths(v), v)
  {
    match v
    case Mapping(es) => EntryPathsAreExact(es);
    case Sequence(xs) => ItemPathsAreExact(xs);
    case Tagged(_, inner) =>
      SealedPathsAreExact(inner);
      UnderKeepsDistinct(Inner, SealedPaths(inner));
      forall p {
        UnderStep(Inner, SealedPaths(inner), p);
      }
    case _ =>
  }

  lemma {:induction false} EntryPathsAreExact(es: seq<Entry>)
    ensures ListsSealed(EntryPaths(es), Mapping(es))
  {
    if es != [] {
      var init, last := es[..|es| - 1], es[|es| - 1];
      EntryPathsAreExact(init);
      SealedPathsAreExact(last.val);
      var a, b := EntryPaths(init), Under(ValueOf(|init|), SealedPaths(last.val));
      forall p: Path
        ensures p in a + b <==> IsSealedNode(NodeAt(Mapping(es), p))
        ensures p in b <==> p != [] && p[0] == ValueOf(|init|) && IsSealedNode(NodeAt(last.val, p[1..]))
        ensures p in a ==> p != [] && p[0].ValueOf? && p[0].i < |init|
      {
        UnderStep(ValueOf(|init|), SealedPaths(last.val), p);
        assert p in a <==> IsSealedNode(NodeAt(Mapping(init), p));
      }
      UnderKeepsDistinct(ValueOf(|init|), SealedPaths(last.val));
      DistinctConcat(a, b);
    }
  }

  lemma {:induction false} ItemPathsAreExact(xs: seq<Yaml>)
    ensures ListsSealed(ItemPaths(xs), Sequence(xs))
  {
    if xs != [] {
      var init, last := xs[..|xs| - 1], xs[|xs| - 1];
      ItemPathsAreExact(init);
      SealedPathsAreExact(last);
      var a, b := ItemPaths(init), Under(Item(|init|), SealedPaths(last));
      forall p: Path
        ensures p in a + b <==> IsSealedNode(NodeAt(Sequence(xs), p))
        ensures p in b <==> p != [] && p[0] == Item(|init|) && IsSealedNode(NodeAt(last, p[1..]))
        ensures p in a ==> p != [] && p[0].Item? && p[0].i < |init|
      {
        UnderStep(Item(|init|), SealedPaths(last), p);
        assert p in a <==> IsSealedNode(NodeAt(Sequence(init), p));
      }
      UnderKeepsDistinct(Item(|init|), SealedPaths(last));
      DistinctConcat(a, b);
    }
  }

  lemma DistinctConcat(a: seq<Path>, b: seq<Path>)
    requires Distinct(a) && Distinct(b)
    requires forall p :: p in a ==> p !in b
    ensures Distinct(a + b)
  {
    forall i, j | 0 <= i < j < |a + b|
      ensures (a + b)[i] != (a + b)[j]
    {
      if i < |a| {
        assert (a + b)[i] in a;
        assert j >= |a| ==> (a + b)[j] in b;
      }
    }
  }

  // ----- agreement with the scan that decides whether a key is loaded -----

  /** A key that is not a string and has a sealed text somewhere inside, where the walk never looks. */
  predicate HidesSealedInKey(v: Yaml) {
    match v
    case Mapping(es) =>
      exists i :: 0 <= i < |es| && ((!es[i].key.Str? && HasSealed(es[i].key)) || HidesSealedInKey(es[i].val))
    case Sequence(xs) => exists i :: 0 <= i < |xs| && HidesSealedInKey(xs[i])
    case Tagged(_, inner) => HidesSealedInKey(inner)
    case _ => false
  }

  /** Where the scan finds nothing, the walk succeeds, replaces nothing and gives the tree back. */
  lemma {:induction false} NothingSealedNothingDone(c: Crypto, key: Bytes, v: Yaml)
    requires !HasSealed(v)
    ensures Decryptable(c, key, v) && Opened(c, key, v) == v && SealedPaths(v) == []
  {
    match v
    case Mapping(es) =>
      forall i | 0 <= i < |es|
        ensures Decryptable(c, key, es[i].val) && Opened(c, key, es[i].val) == es[i].val && SealedPaths(es[i].val) == []
        ensures !IsSealedKey(es[i].key)
      {
        NothingSealedNothingDone(c, key, es[i].val);
      }
      NoEntryPaths(es);
    case Sequence(xs) =>
      forall i | 0 <= i < |xs|
        ensures Decryptable(c, key, xs[i]) && Opened(c, key, xs[i]) == xs[i] && SealedPaths(xs[i]) == []
      {
        NothingSealedNothingDone(c, key, xs[i]);
      }
      NoItemPaths(xs);
    case Tagged(_, inner) => NothingSealedNothingDone(c, key, inner);
    case _ =>
  }

  lemma {:induction false} NoEntryPaths(es: seq<Entry>)
    ensures EntryPaths(es) == [] <==> forall i :: 0 <= i < |es| ==> SealedPaths(es[i].val) == []
  {
    if es != [] {
      NoEntryPaths(es[..|es| - 1]);
    }
  }

  lemma {:induction false} NoItemPaths(xs: seq<Yaml>)
    ensures ItemPaths(xs) == [] <==> forall i :: 0 <= i < |xs| ==> SealedPaths(xs[i]) == []
  {
    if xs != [] {
      var init, last := xs[..|xs| - 1], xs[|xs| - 1];
      NoItemPaths(init);
      assert |ItemPaths(xs)| == |ItemPaths(init)| + |SealedPaths(last)|;
      assert forall i :: 0 <= i < |init| ==> init[i] == xs[i];
    }
  }

  /**
    On every tree the walk accepts, the scan fires exactly when something was replaced or a compound
    key hides a sealed text. With string keys only, a scan that fires means an error or a positive count.
   */
  lemma {:induction false} ScanAgreesWithWalk(c: Crypto, key: Bytes, v: Yaml)
    requires Decryptable(c, key, v)
    ensures HasSealed(v) <==> SealedPaths(v) != [] || HidesSealedInKey(v)
  {
    match v
    case Mapping(es) =>
      forall i | 0 <= i < |es|
        ensures HasSealed(es[i].val) <==> SealedPaths(es[i].val) != [] || HidesSealedInKey(es[i].val)
        ensures HasSealed(es[i].key) ==> !es[i].key.Str?
      {
        ScanAgreesWithWalk(c, key, es[i].val);
      }
      NoEntryPaths(es);
    case Sequence(xs) =>
      forall i | 0 <= i < |xs|
        ensures HasSealed(xs[i]) <==> SealedPaths(xs[i]) != [] || HidesSealedInKey(xs[i])
      {
        ScanAgreesWithWalk(c, key, xs[i]);
      }
      NoItemPaths(xs);
    case Tagged(_, inner) => ScanAgreesWithWalk(c, key, inner);
    case _ =>
  }

  /** A tree on which the scan fires and yet the walk succeeds without replacing anything. */
  lemma HiddenKeyExample(c: Crypto, key: Bytes) returns (v: Yaml)
    ensures HasSealed(v) && Decryptable(c, key, v) && SealedPaths(v) == []
  {
    var k := Sequence([Str("ENC[x]")]);
    v := Mapping([Entry(k, Null)]);
    var s := "ENC[x]";
    assert s[|s| - 1..] == SUFFIX;
    assert IsSealed(s);
    assert HasSealed(k.items[0]) && HasSealed(k);
    assert HasSealed(v.entries[0].key);
    NoEntryPaths(v.entries);
  }

  // ----- success and failure, told by positions -----

  /** Nothing at this node stops the walk: a sealed text opens, and a mapping has no sealed key. */
  predicate IsGood(c: Crypto, key: Bytes, n: Yaml) {
    && (n.Str? && IsSealed(n.s) ==> Open(c, key, n.s).Ok?)
    && (n.Mapping? ==> forall i :: 0 <= i < |n.entries| ==> !IsSealedKey(n.entries[i].key))
  }

  ghost predicate AllGood(c: Crypto, key: Bytes, v: Yaml) {
    forall path :: NodeAt(v, path).Some? ==> IsGood(c, key, NodeAt(v, path).value)
  }

  lemma NodeBelow(v: Yaml, step: Step, rest: Path)
    ensures NodeAt(v, [step] + rest) == if PartOf(v, step).Some? then NodeAt(PartOf(v, step).value, rest) else None
  {
    assert ([step] + rest)[1..] == rest;
  }

  lemma GoodBelow(c: Crypto, key: Bytes, v: Yaml, step: Step, part: Yaml)
    requires AllGood(c, key, v) && PartOf(v, step) == Some(part)
    ensures AllGood(c, key, part)
  {
    forall path | NodeAt(part, path).Some?
      ensures IsGood(c, key, NodeAt(part, path).value)
    {
      NodeBelow(v, step, path);
    }
  }

  lemma {:induction false} GoodIsDecryptable(c: Crypto, key: Bytes, v: Yaml)
    requires AllGood(c, key, v)
    ensures Decryptable(c, key, v)
  {
    hide AllGood, NodeAt, IsSealed, Open;
    assert IsGood(c, key, v) by {
      RootIsGood(c, key, v);
    }
    match v
    case Sequence(xs) =>
      forall i | 0 <= i < |xs|
        ensures Decryptable(c, key, xs[i])
      {
        GoodBelow(c, key, v, Item(i), xs[i]);
        GoodIsDecryptable(c, key, xs[i]);
      }
    case Mapping(es) =>
      forall i | 0 <= i < |es|
        ensures Decryptable(c, key, es[i].val)
      {
        GoodBelow(c, key, v, ValueOf(i), es[i].val);
        GoodIsDecryptable(c, key, es[i].val);
      }
    case Tagged(_, inner) =>
      GoodBelow(c, key, v, Inner, inner);
      GoodIsDecryptable(c, key, inner);
    case _ =>
  }

  lemma RootIsGood(c: Crypto, key: Bytes, v: Yaml)
    requires AllGood(c, key, v)
    ensures IsGood(c, key, v)
  {
    assert NodeAt(v, []) == Some(v);
  }

  lemma {:induction false} DecryptableNodesAreGood(c: Crypto, key: Bytes, v: Yaml, path: Path)
    requires Decryptable(c, key, v) && NodeAt(v, path).Some?
    ensures IsGood(c, key, NodeAt(v, path).value)
    decreases |path|
  {
    hide IsSealed, Open;
    if path != [] {
      match (v, path[0])
      case (Sequence(xs), Item(i)) => DecryptableNodesAreGood(c, key, xs[i], path[1..]);
      case (Mapping(es), ValueOf(i)) => DecryptableNodesAreGood(c, key, es[i].val, path[1..]);
      case (Tagged(_, inner), Inner) => DecryptableNodesAreGood(c, key, inner, path[1..]);
    }
  }

  /** Decryption succeeds exactly when, at every value position, a sealed text opens and no key is sealed. */
  lemma DecryptableIff(c: Crypto, key: Bytes, v: Yaml)
    ensures Decryptable(c, key, v) <==> AllGood(c, key, v)
  {
    hide Decryptable, IsGood, NodeAt;
    if AllGood(c, key, v) {
      GoodIsDecryptable(c, key, v);
    }
    if Decryptable(c, key, v) {
      forall path | NodeAt(v, path).Some?
        ensures IsGood(c, key, NodeAt(v, path).value)
      {
        DecryptableNodesAreGood(c, key, v, path);
      }
    }
  }

  function Position(s: Step): nat {
    match s case Item(i) => i case ValueOf(i) => i case Inner => 0
  }

  /** The walk is through with everything at the first path before it comes to the second. */
  predicate Earlier(p: Path, q: Path)
    decreases |p|
  {
    && p != [] && q != []
    && (Position(p[0]) < Position(q[0]) || (p[0] == q[0] && Earlier(p[1..], q[1..])))
  }

  /** The node at which the walk stops, and why. */
  ghost predicate StopsAt(c: Crypto, key: Bytes, n: Yaml, e: TreeError) {
    match e
    case OpenFailed(why) => n.Str? && IsSealed(n.s) && Open(c, key, n.s) == Err(why)
    case SealedKey(name) =>
      n.Mapping? && IsSealed(name) && exists i :: 0 <= i < |n.entries| && n.entries[i].key == Str(name)
  }

  ghost predicate GoodBefore(c: Crypto, key: Bytes, v: Yaml, p: Path) {
    forall q :: Earlier(q, p) && NodeAt(v, q).Some? ==> IsGood(c, key, NodeAt(v, q).value)
  }

  lemma GoodBeforePart(c: Crypto, key: Bytes, v: Yaml, step: Step, part: Yaml, p: Path)
    requires PartOf(v, step) == Some(part) && GoodBefore(c, key, part, p)
    requires forall s, x :: Position(s) < Position(step) && PartOf(v, s) == Some(x) ==> AllGood(c, key, x)
    ensures GoodBefore(c, key, v, [step] + p) && NodeAt(v, [step] + p) == NodeAt(part, p)
  {
    hide IsGood;
    NodeBelow(v, step, p);
    assert ([step] + p)[1..] == p;
    forall q | Earlier(q, [step] + p) && NodeAt(v, q).Some?
      ensures IsGood(c, key, NodeAt(v, q).value)
    {
      assert q == [q[0]] + q[1..];
      NodeBelow(v, q[0], q[1..]);
      if q[0] != step {
        assert AllGood(c, key, PartOf(v, q[0]).value);
      }
    }
  }

  /** The error of a failed run is that of the first failing node in walk order. */
  lemma {:induction false} FirstFailureIsReported(c: Crypto, key: Bytes, v: Yaml) returns (p: Path)
    requires !Decryptable(c, key, v)
    ensures NodeAt(v, p).Some? && StopsAt(c, key, NodeAt(v, p).value, Stopped(c, key, v).1)
    ensures GoodBefore(c, key, v, p)
  {
    hide Open, IsSealed, AllGood, GoodBefore, Decryptable;
    match v
    case Str(s) =>
      p := [];
      TextStops(c, key, s);
    case Sequence(xs) =>
      var k := FirstBadItem(c, key, xs);
      SequenceStops(c, key, xs);
      var rest := FirstFailureIsReported(c, key, xs[k]);
      p := [Item(k)] + rest;
      forall s, x | Position(s) < k && PartOf(v, s) == Some(x)
        ensures AllGood(c, key, x)
      {
        DecryptableIff(c, key, x);
      }
      GoodBeforePart(c, key, v, Item(k), xs[k], rest);
    case Mapping(es) =>
      var k := FirstBadEntry(c, key, es);
      MappingStops(c, key, es);
      if IsSealedKey(es[k].key) {
        p := [];
        NothingIsEarlier(c, key, v);
        assert es[k].key == Str(es[k].key.s);
      } else {
        BadValue(c, key, es[k]);
        var rest := FirstFailureIsReported(c, key, es[k].val);
        p := [ValueOf(k)] + rest;
        forall s, x | Position(s) < k && PartOf(v, s) == Some(x)
          ensures AllGood(c, key, x)
        {
          DecryptableIff(c, key, x);
        }
        GoodBeforePart(c, key, v, ValueOf(k), es[k].val, rest);
      }
    case Tagged(tag, inner) =>
      TaggedStops(c, key, tag, inner);
      var rest := FirstFailureIsReported(c, key, inner);
      p := [Inner] + rest;
      GoodBeforePart(c, key, v, Inner, inner, rest);
    case _ =>
      LeafIsDecryptable(c, key, v);
  }

  lemma LeafIsDecryptable(c: Crypto, key: Bytes, v: Yaml)
    requires v.Null? || v.Bool? || v.Number?
    ensures Decryptable(c, key, v)
  {
  }

  lemma BadValue(c: Crypto, key: Bytes, e: Entry)
    requires !EntryOk(c, key, e) && !IsSealedKey(e.key)
    ensures !Decryptable(c, key, e.val)
  {
  }

  lemma TextStops(c: Crypto, key: Bytes, s: string)
    requires !Decryptable(c, key, Str(s))
    ensures StopsAt(c, key, Str(s), Stopped(c, key, Str(s)).1) && GoodBefore(c, key, Str(s), [])
    ensures NodeAt(Str(s), []) == Some(Str(s))
  {
  }

  lemma NothingIsEarlier(c: Crypto, key: Bytes, v: Yaml)
    ensures GoodBefore(c, key, v, []) && NodeAt(v, []) == Some(v)
  {
  }

  lemma MappingStops(c: Crypto, key: Bytes, es: seq<Entry>)
    requires !Decryptable(c, key, Mapping(es))
    ensures var k := FirstBadEntry(c, key, es);
            if IsSealedKey(es[k].key) then Stopped(c, key, Mapping(es)).1 == SealedKey(es[k].key.s)
            else !Decryptable(c, key, es[k].val) && Stopped(c, key, Mapping(es)).1 == Stopped(c, key, es[k].val).1
  {
  }

  lemma TaggedStops(c: Crypto, key: Bytes, tag: string, inner: Yaml)
    requires !Decryptable(c, key, Tagged(tag, inner))
    ensures !Decryptable(c, key, inner) && Stopped(c, key, Tagged(tag, inner)).1 == Stopped(c, key, inner).1
  {
  }
}

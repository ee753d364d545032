/**
  The mount table on its way from configuration to serving: structural validation (src/config.rs),
  resolution of prefixes and directories, and pairing of API and web mounts (oj/src/app.rs).
 */
module Mounts {
  import opened Wrappers
  import opened Text

  type Headers = seq<(string, string)>

  datatype MountConf = MountConf(
    prefix: string,
    api: Option<string>,
    web: Option<string>,
    spa: Option<bool>,
    headers: Headers,
    sha256: Option<string>,
    cache: Option<string>)

  /** Prefix without trailing slashes, `/` for the root. */
  function Norm(p: string): string {
    var t := TrimEnd(p, '/');
    if t == "" then "/" else t
  }

  // ----- structural validation (src/config.rs) -----

  function FindScheme(s: string): (r: Option<nat>)
    ensures r.Some? ==> r.value + 3 <= |s|
  {
    if |s| < 3 then None
    else if s[..3] == "://" then Some(0)
    else match FindScheme(s[1..]) case Some(k) => Some(k + 1) case None => None
  }

  function Lower(s: string): string {
    seq(|s|, i requires 0 <= i < |s| => if 'A' <= s[i] <= 'Z' then s[i] - 'A' + 'a' else s[i])
  }

  predicate IsHttpUrl(s: string) {
    match FindScheme(s)
    case Some(k) => Lower(s[..k]) == "http" || Lower(s[..k]) == "https"
    case None => false
  }

  predicate IsLetterOf(c: char, lower: char, upper: char) {
    c == lower || c == upper
  }

  predicate SeparatorAt(s: string, j: nat) {
    j + 3 <= |s| && s[j] == ':' && s[j + 1] == '/' && s[j + 2] == '/'
  }

  lemma SeparatorInFront(s: string)
    ensures SeparatorAt(s, 0) <==> |s| >= 3 && s[..3] == "://"
  {
    if |s| >= 3 {
      assert s[..3][0] == s[0] && s[..3][1] == s[1] && s[..3][2] == s[2];
    }
  }

  lemma {:induction false} SchemeAt(s: string)
    ensures match FindScheme(s)
            case Some(k) => SeparatorAt(s, k) && forall j :: 0 <= j < k ==> !SeparatorAt(s, j)
            case None => forall j :: 0 <= j ==> !SeparatorAt(s, j)
  {
    SeparatorInFront(s);
    if |s| >= 3 && !SeparatorAt(s, 0) {
      SchemeAt(s[1..]);
      forall j | 0 < j
        ensures SeparatorAt(s, j) <==> SeparatorAt(s[1..], j - 1)
      {
      }
    }
  }

  lemma IsWord4(w: string)
    ensures Lower(w) == "http" <==>
            |w| == 4 && IsLetterOf(w[0], 'h', 'H') && IsLetterOf(w[1], 't', 'T') && IsLetterOf(w[2], 't', 'T')
            && IsLetterOf(w[3], 'p', 'P')
  {
    var low := Lower(w);
    assert low == "http" <==> |low| == 4 && low[0] == 'h' && low[1] == 't' && low[2] == 't' && low[3] == 'p';
  }

  lemma IsWord5(w: string)
    ensures Lower(w) == "https" <==>
            |w| == 5 && IsLetterOf(w[0], 'h', 'H') && IsLetterOf(w[1], 't', 'T') && IsLetterOf(w[2], 't', 'T')
            && IsLetterOf(w[3], 'p', 'P') && IsLetterOf(w[4], 's', 'S')
  {
    var low := Lower(w);
    assert low == "https" <==>
           |low| == 5 && low[0] == 'h' && low[1] == 't' && low[2] == 't' && low[3] == 'p' && low[4] == 's';
  }

  predicate BeginsWithHttp(s: string) {
    && |s| >= 7
    && IsLetterOf(s[0], 'h', 'H') && IsLetterOf(s[1], 't', 'T')
    && IsLetterOf(s[2], 't', 'T') && IsLetterOf(s[3], 'p', 'P')
    && (SeparatorAt(s, 4) || (IsLetterOf(s[4], 's', 'S') && SeparatorAt(s, 5)))
  }

  /** An archive is fetched exactly for texts that begin with `http://` or `https://`, in letters of either case. */
  lemma HttpUrlsBeginWithHttp(s: string)
    ensures IsHttpUrl(s) <==> BeginsWithHttp(s)
  {
    hide FindScheme, Lower;
    SchemeAt(s);
    var found := FindScheme(s);
    if found.Some? {
      IsWord4(s[..found.value]);
      IsWord5(s[..found.value]);
    }
    if BeginsWithHttp(s) {
      assert found.Some? && (SeparatorAt(s, 4) || SeparatorAt(s, 5));
      assert found.value <= 5;
      assert s[found.value] == ':';
    }
  }

  predicate IsSha256Hex(s: string) {
    |s| == 64 && forall i :: 0 <= i < |s| ==> IsAsciiDigit(s[i]) || 'a' <= s[i] <= 'f' || 'A' <= s[i] <= 'F'
  }

  datatype MountError =
    | EmptyPrefix
    | ApiAndWeb
    | NeitherApiNorWeb
    | EmptyApi
    | UnsupportedScheme
    | MissingSha256
    | BadSha256
    | Sha256OnLocal
    | CacheOnLocal
    | EmptyWeb
    | WebUrl
    | SpaOnApi
    | Duplicate(prefix: string, isApi: bool)
    | SpaBesideApi(prefix: string)
    | PrefixWithoutSlash
    | MissingDirectory(dir: string)

  function CheckApi(m: MountConf, a: string): Result<(), MountError> {
    if IsBlank(a) then Err(EmptyApi)
    else if FindScheme(a).Some? then
      if !IsHttpUrl(a) then Err(UnsupportedScheme)
      else if m.sha256.None? then Err(MissingSha256)
      else if !IsSha256Hex(m.sha256.value) then Err(BadSha256)
      else Ok(())
    else if m.sha256.Some? then Err(Sha256OnLocal)
    else if m.cache.Some? then Err(CacheOnLocal)
    else Ok(())
  }

  function CheckWeb(w: string): Result<(), MountError> {
    if IsBlank(w) then Err(EmptyWeb)
    else if FindScheme(w).Some? then Err(WebUrl)
    else Ok(())
  }

  function CheckMount(m: MountConf): (r: Result<(), MountError>)
    ensures r.Ok? ==> (m.api.Some? <==> m.web.None?)
    ensures r.Ok? && m.spa == Some(true) ==> m.web.Some?
  {
    if IsBlank(m.prefix) then Err(EmptyPrefix)
    else
      var kind :=
        match (m.api, m.web)
        case (Some(_), Some(_)) => Err(ApiAndWeb)
        case (None, None) => Err(NeitherApiNorWeb)
        case (Some(a), None) => CheckApi(m, a)
        case (None, Some(w)) => CheckWeb(w);
      if kind.Err? then kind
      else if m.spa == Some(true) && m.web.None? then Err(SpaOnApi)
      else Ok(())
  }

  predicate HasSeparator(s: string) {
    exists j :: 0 <= j < |s| && SeparatorAt(s, j)
  }

  /** A mount that validation accepts on its own, condition by condition. */
  predicate IsSoundMount(m: MountConf) {
    && !IsBlank(m.prefix)
    && (m.api.Some? <==> m.web.None?)
    && (m.api.Some? ==>
          && !IsBlank(m.api.value)
          && (if HasSeparator(m.api.value)
              then BeginsWithHttp(m.api.value) && m.sha256.Some? && IsSha256Hex(m.sha256.value)
              else m.sha256.None? && m.cache.None?))
    && (m.web.Some? ==> !IsBlank(m.web.value) && !HasSeparator(m.web.value))
    && (m.spa == Some(true) ==> m.web.Some?)
  }

  lemma AcceptedMountIsSound(m: MountConf)
    ensures CheckMount(m).Ok? <==> IsSoundMount(m)
  {
    hide FindScheme, IsHttpUrl, BeginsWithHttp;
    if m.api.Some? {
      SchemeAt(m.api.value);
      HttpUrlsBeginWithHttp(m.api.value);
    }
    if m.web.Some? {
      SchemeAt(m.web.value);
    }
  }

  /** Normalised prefix and kind. */
  function Tag(m: MountConf): (string, bool) {
    (Norm(m.prefix), m.api.Some?)
  }

  /** No two mounts of the same kind under the same prefix. */
  predicate NoDuplicates(ms: seq<MountConf>) {
    forall i, j :: 0 <= i < j < |ms| ==> Tag(ms[i]) != Tag(ms[j])
  }

  lemma NoTags(ms: seq<MountConf>)
    ensures NoDuplicates(ms[..0])
  {
  }

  lemma OneMoreTag(ms: seq<MountConf>, i: nat)
    requires i < |ms| && NoDuplicates(ms[..i])
    ensures NoDuplicates(ms[..i + 1]) <==> forall k :: 0 <= k < i ==> Tag(ms[k]) != Tag(ms[i])
    ensures !NoDuplicates(ms[..i + 1]) ==> !NoDuplicates(ms)
  {
    hide Tag;
    var a, b := ms[..i], ms[..i + 1];
    assert forall k :: 0 <= k < i ==> b[k] == a[k] == ms[k];
    assert b[i] == ms[i];
  }

  /** A web mount that falls back to its start page has its prefix to itself. */
  predicate SpaIsAlone(ms: seq<MountConf>) {
    forall i, j :: 0 <= i < |ms| && 0 <= j < |ms| && ms[i].spa == Some(true) && ms[j].api.Some? ==>
      Norm(ms[i].prefix) != Norm(ms[j].prefix)
  }

  predicate WellFormed(ms: seq<MountConf>) {
    && (forall i :: 0 <= i < |ms| ==> CheckMount(ms[i]).Ok?)
    && NoDuplicates(ms)
    && SpaIsAlone(ms)
  }

  method ValidateMounts(ms: seq<MountConf>) returns (r: Result<(), MountError>)
    ensures r.Ok? <==> WellFormed(ms)
  {
    hide Norm, CheckMount, NoDuplicates;
    NoTags(ms);
    for i := 0 to |ms|
      invariant forall k :: 0 <= k < i ==> CheckMount(ms[k]).Ok?
    {
      var one := CheckMount(ms[i]);
      if one.Err? {
        return Err(one.error);
      }
    }
    var seen: seq<(string, bool)> := [];
    for i := 0 to |ms|
      invariant |seen| == i
      invariant forall k :: 0 <= k < i ==> seen[k] == Tag(ms[k])
      invariant NoDuplicates(ms[..i])
    {
      var p, isApi := Norm(ms[i].prefix), ms[i].api.Some?;
      assert (p, isApi) == Tag(ms[i]);
      OneMoreTag(ms, i);
      if (p, isApi) in seen {
        return Err(Duplicate(p, isApi));
      }
      seen := seen + [(p, isApi)];
    }
    assert ms[..|ms|] == ms;
    for i := 0 to |ms|
      invariant forall k, j :: 0 <= k < i && 0 <= j < |ms| && ms[k].spa == Some(true) && ms[j].api.Some? ==>
                  Norm(ms[k].prefix) != Norm(ms[j].prefix)
    {
      if ms[i].spa == Some(true) {
        var p := Norm(ms[i].prefix);
        for j := 0 to |ms|
          invariant forall k :: 0 <= k < j && ms[k].api.Some? ==> Norm(ms[k].prefix) != p
        {
          if ms[j].api.Some? && Norm(ms[j].prefix) == p {
            return Err(SpaBesideApi(p));
          }
        }
      }
    }
    return Ok(());
  }

  // ----- resolution (oj/src/app.rs) -----

  datatype Kind = Api(dir: string, ts: bool) | Web(root: string, headers: Headers, spa: bool)

  datatype Resolved = Resolved(prefix: string, kind: Kind)

  /** Directories as the file system and the fetch cache give them, and which of them are source trees. */
  datatype Files = Files(
    locate: string -> Option<string>,
    fetch: (string, string, Option<string>) -> Option<string>,
    isSource: string -> bool)

  /** `resolve_app_prefix`: must start with a slash, loses its trailing slashes. */
  function ResolvePrefix(p: string): Option<string> {
    if p == "" || p[0] != '/' then None else Some(Norm(p))
  }

  function ApiDirectory(f: Files, m: MountConf, a: string): Option<string> {
    if IsHttpUrl(a) then
      match m.sha256 case Some(sha) => f.fetch(a, sha, m.cache) case None => None
    else f.locate(a)
  }

  /** One mount on its own; duplicates are the caller's business. */
  function ResolveOne(f: Files, m: MountConf): (r: Result<Resolved, MountError>)
    ensures r.Ok? ==> r.value.prefix == Norm(m.prefix) && (r.value.kind.Api? <==> m.api.Some?)
  {
    match ResolvePrefix(m.prefix)
    case None => Err(PrefixWithoutSlash)
    case Some(p) =>
      match (m.api, m.web)
      case (Some(a), None) =>
        (match ApiDirectory(f, m, a)
         case Some(dir) => Ok(Resolved(p, Api(dir, f.isSource(dir))))
         case None => Err(MissingDirectory(a)))
      case (None, Some(w)) =>
        (match f.locate(w)
         case Some(root) => Ok(Resolved(p, Web(root, m.headers, m.spa == Some(true))))
         case None => Err(MissingDirectory(w)))
      case _ => Err(NeitherApiNorWeb)
  }

  method ResolveMounts(f: Files, ms: seq<MountConf>) returns (r: Result<seq<Resolved>, MountError>)
    ensures r.Ok? ==> |r.value| == |ms| && forall i :: 0 <= i < |ms| ==> ResolveOne(f, ms[i]) == Ok(r.value[i])
    ensures r.Ok? <==> NoDuplicates(ms) && forall i :: 0 <= i < |ms| ==> ResolveOne(f, ms[i]).Ok?
  {
    hide Norm, NoDuplicates, ApiDirectory;
    NoTags(ms);
    var out: seq<Resolved> := [];
    var seen: seq<(string, bool)> := [];
    for i := 0 to |ms|
      invariant |out| == |seen| == i
      invariant forall k :: 0 <= k < i ==> ResolveOne(f, ms[k]) == Ok(out[k])
      invariant forall k :: 0 <= k < i ==> seen[k] == Tag(ms[k])
      invariant NoDuplicates(ms[..i])
    {
      var p := ResolvePrefix(ms[i].prefix);
      if p.None? {
        return Err(PrefixWithoutSlash);
      }
      var isApi := ms[i].api.Some?;
      assert (p.value, isApi) == Tag(ms[i]);
      OneMoreTag(ms, i);
      if (p.value, isApi) in seen {
        return Err(Duplicate(p.value, isApi));
      }
      seen := seen + [(p.value, isApi)];
      var one := ResolveOne(f, ms[i]);
      if one.Err? {
        return Err(one.error);
      }
      out := out + [one.value];
    }
    assert ms[..|ms|] == ms;
    return Ok(out);
  }

  // ----- pairing (oj/src/app.rs) -----

  datatype WebMount = WebMount(prefix: string, root: string, headers: Headers, spa: bool)

  /** An API entry with its route table, an on-demand fallback for source trees, and an absorbed web mount. */
  datatype RuntimeMount<Table> =
    | ApiEntry(prefix: string, table: Table, fallback: Option<string>, web: Option<WebMount>)
    | WebEntry(site: WebMount)

  function TableFor<Table>(tables: seq<(string, Table)>, prefix: string, empty: Table): Table {
    if tables == [] then empty
    else if tables[0].0 == prefix then tables[0].1
    else TableFor(tables[1..], prefix, empty)
  }

  /** The first web mount under a prefix. */
  function FirstWeb(rs: seq<Resolved>, prefix: string): (r: Option<nat>)
    ensures r.Some? ==> r.value < |rs| && rs[r.value].prefix == prefix && rs[r.value].kind.Web?
    ensures r.Some? ==> forall j :: 0 <= j < r.value ==> !(rs[j].prefix == prefix && rs[j].kind.Web?)
    ensures r.None? ==> forall j :: 0 <= j < |rs| ==> !(rs[j].prefix == prefix && rs[j].kind.Web?)
  {
    if rs == [] then None
    else if rs[0].prefix == prefix && rs[0].kind.Web? then Some(0)
    else match FirstWeb(rs[1..], prefix)
      case Some(k) => Some(k + 1)
      case None =>
        assert forall j :: 1 <= j < |rs| ==> rs[j] == rs[1..][j - 1];
        None
  }

  function AsWeb(r: Resolved, spa: bool): WebMount
    requires r.kind.Web?
  {
    WebMount(r.prefix, r.kind.root, r.kind.headers, spa)
  }

  /** A web mount as declared. */
  function Declared(rs: seq<Resolved>, k: nat): WebMount
    requires k < |rs| && rs[k].kind.Web?
  {
    AsWeb(rs[k], rs[k].kind.spa)
  }

  /** What an API mount absorbs, given the prefixes already paired. */
  function Absorbs(rs: seq<Resolved>, prefix: string, paired: set<string>): Option<WebMount> {
    if prefix in paired then None
    else match FirstWeb(rs, prefix) case Some(k) => Some(AsWeb(rs[k], false)) case None => None
  }

  function PairedBy(rs: seq<Resolved>, prefix: string): set<string> {
    if FirstWeb(rs, prefix).Some? then {prefix} else {}
  }

  /** Prefixes paired after the first `n` resolved mounts. */
  function Paired(rs: seq<Resolved>, n: nat): set<string>
    requires n <= |rs|
  {
    if n == 0 then {}
    else Paired(rs, n - 1) + (if rs[n - 1].kind.Api? then PairedBy(rs, rs[n - 1].prefix) else {})
  }

  /** The API entries of the first `n` resolved mounts. */
  function ApiPart<Table>(
    rs: seq<Resolved>, tables: seq<(string, Table)>, empty: Table, n: nat): seq<RuntimeMount<Table>>
    requires n <= |rs|
  {
    if n == 0 then []
    else
      var before, m := ApiPart(rs, tables, empty, n - 1), rs[n - 1];
      if m.kind.Web? then before
      else before + [ApiEntry(m.prefix, TableFor(tables, m.prefix, empty),
                              if m.kind.ts then Some(m.kind.dir) else None,
                              Absorbs(rs, m.prefix, Paired(rs, n - 1)))]
  }

  /** The stand-alone web entries of the first `n`: the first one under each prefix that was not paired. */
  function WebPart<Table>(rs: seq<Resolved>, n: nat): seq<RuntimeMount<Table>>
    requires n <= |rs|
  {
    if n == 0 then []
    else
      var before, m := WebPart(rs, n - 1), rs[n - 1];
      if m.kind.Web? && m.prefix !in Paired(rs, |rs|) && FirstWeb(rs, m.prefix) == Some(n - 1) then
        before + [WebEntry(AsWeb(m, m.kind.spa))]
      else before
  }

  /** The prefixes served by the stand-alone entries of the first `n`. */
  ghost function AlonePrefixes(rs: seq<Resolved>, n: nat): set<string>
    requires n <= |rs|
  {
    if n == 0 then {}
    else
      var before, m := AlonePrefixes(rs, n - 1), rs[n - 1];
      if m.kind.Web? && m.prefix !in Paired(rs, |rs|) && FirstWeb(rs, m.prefix) == Some(n - 1)
      then before + {m.prefix}
      else before
  }

  lemma {:induction false} AlonePrefixesIff(rs: seq<Resolved>, n: nat, prefix: string)
    requires n <= |rs|
    ensures prefix in AlonePrefixes(rs, n) <==>
            prefix !in Paired(rs, |rs|) && FirstWeb(rs, prefix).Some? && FirstWeb(rs, prefix).value < n
  {
    hide FirstWeb, Paired;
    if n > 0 {
      AlonePrefixesIff(rs, n - 1, prefix);
    }
  }

  /** First pass: every API mount takes the web mount of its prefix along. */
  method PairApis<Table>(rs: seq<Resolved>, tables: seq<(string, Table)>, empty: Table)
    returns (out: seq<RuntimeMount<Table>>, paired: set<string>)
    ensures out == ApiPart(rs, tables, empty, |rs|) && paired == Paired(rs, |rs|)
  {
    hide FirstWeb, TableFor, AsWeb;
    out, paired := [], {};
    for i := 0 to |rs|
      invariant out == ApiPart(rs, tables, empty, i)
      invariant paired == Paired(rs, i)
    {
      var m := rs[i];
      if m.kind.Api? {
        var web: Option<WebMount> := None;
        if m.prefix !in paired {
          var k := FirstWeb(rs, m.prefix);
          if k.Some? {
            web := Some(AsWeb(rs[k.value], false));
            paired := paired + {m.prefix};
          }
        }
        var table := TableFor(tables, m.prefix, empty);
        out := out + [ApiEntry(m.prefix, table, if m.kind.ts then Some(m.kind.dir) else None, web)];
      }
    }
  }

  /** The pairing, then the web mounts that are left, each prefix once. */
  method BuildRuntimeMounts<Table>(rs: seq<Resolved>, tables: seq<(string, Table)>, empty: Table)
    returns (out: seq<RuntimeMount<Table>>)
    ensures out == ApiPart(rs, tables, empty, |rs|) + WebPart(rs, |rs|)
  {
    hide FirstWeb, ApiPart, Paired;
    var paired;
    out, paired := PairApis(rs, tables, empty);
    assert ApiPart(rs, tables, empty, |rs|) + WebPart(rs, 0) == out;
    for i := 0 to |rs|
      invariant out == ApiPart(rs, tables, empty, |rs|) + WebPart(rs, i)
      invariant paired == Paired(rs, |rs|) + AlonePrefixes(rs, i)
    {
      var m := rs[i];
      AlonePrefixesIff(rs, i, m.prefix);
      if m.kind.Web? && m.prefix !in paired {
        paired := paired + {m.prefix};
        out := out + [WebEntry(AsWeb(m, m.kind.spa))];
      }
    }
  }

  // ----- conservation -----

  /** What requests see of an API mount. */
  datatype ApiMount<Table> = ApiMount(prefix: string, table: Table, fallback: Option<string>)

  /** The API mounts of the first `n`, in order, each with its own table and source directory. */
  function ApisOf<Table>(rs: seq<Resolved>, tables: seq<(string, Table)>, empty: Table, n: nat): seq<ApiMount<Table>>
    requires n <= |rs|
  {
    if n == 0 then []
    else
      ApisOf(rs, tables, empty, n - 1)
      + (if rs[n - 1].kind.Api? then [DeclaredApi(rs[n - 1], tables, empty)] else [])
  }

  function DeclaredApi<Table>(m: Resolved, tables: seq<(string, Table)>, empty: Table): ApiMount<Table>
    requires m.kind.Api?
  {
    ApiMount(m.prefix, TableFor(tables, m.prefix, empty), if m.kind.ts then Some(m.kind.dir) else None)
  }

  function WebsOf(rs: seq<Resolved>, n: nat): seq<WebMount>
    requires n <= |rs|
  {
    if n == 0 then []
    else WebsOf(rs, n - 1) + WebHere(rs, n - 1)
  }

  /** The API mounts served, in order. */
  function ServedApis<Table>(out: seq<RuntimeMount<Table>>): seq<ApiMount<Table>> {
    if out == [] then [] else ServedApis(out[..|out| - 1]) + CarriedApi(out[|out| - 1])
  }

  function CarriedApi<Table>(m: RuntimeMount<Table>): seq<ApiMount<Table>> {
    match m
    case ApiEntry(prefix, table, fallback, _) => [ApiMount(prefix, table, fallback)]
    case WebEntry(_) => []
  }

  /** All web mounts served, absorbed ones included. */
  function ServedWebs<Table>(out: seq<RuntimeMount<Table>>): seq<WebMount> {
    if out == [] then [] else ServedWebs(out[..|out| - 1]) + CarriedWeb(out[|out| - 1])
  }

  function CarriedWeb<Table>(m: RuntimeMount<Table>): seq<WebMount> {
    match m
    case ApiEntry(_, _, _, Some(w)) => [w]
    case ApiEntry(_, _, _, None) => []
    case WebEntry(w) => [w]
  }

  /** What validation leaves behind after resolution: unique prefixes per kind, and no SPA beside an API. */
  predicate Unique(rs: seq<Resolved>) {
    && (forall i, j :: 0 <= i < j < |rs| && rs[i].prefix == rs[j].prefix ==> rs[i].kind.Api? != rs[j].kind.Api?)
    && (forall i, j :: 0 <= i < |rs| && 0 <= j < |rs| && rs[i].kind.Web? && rs[j].kind.Api?
                       && rs[i].prefix == rs[j].prefix ==>
          !rs[i].kind.spa)
  }

  lemma ResolvedIsUnique(f: Files, ms: seq<MountConf>, rs: seq<Resolved>)
    requires WellFormed(ms) && |rs| == |ms|
    requires forall i :: 0 <= i < |ms| ==> ResolveOne(f, ms[i]) == Ok(rs[i])
    ensures Unique(rs)
  {
    hide CheckMount, Norm;
    forall i | 0 <= i < |rs|
      ensures (rs[i].prefix, rs[i].kind.Api?) == Tag(ms[i])
      ensures rs[i].prefix == Norm(ms[i].prefix) && (rs[i].kind.Api? <==> ms[i].api.Some?)
      ensures rs[i].kind.Web? ==> rs[i].kind.spa == (ms[i].spa == Some(true))
    {
      assert ResolveOne(f, ms[i]) == Ok(rs[i]);
    }
  }

  lemma ServedOne<Table>(a: seq<RuntimeMount<Table>>, m: RuntimeMount<Table>)
    ensures ServedApis(a + [m]) == ServedApis(a) + CarriedApi(m)
    ensures ServedWebs(a + [m]) == ServedWebs(a) + CarriedWeb(m)
  {
    hide CarriedApi, CarriedWeb;
    assert (a + [m])[..|a|] == a;
  }

  lemma NothingServed<Table>()
    ensures ServedApis<Table>([]) == [] && ServedWebs<Table>([]) == []
  {
  }

  lemma {:induction false} ServedConcat<Table>(a: seq<RuntimeMount<Table>>, b: seq<RuntimeMount<Table>>)
    ensures ServedApis(a + b) == ServedApis(a) + ServedApis(b)
    ensures ServedWebs(a + b) == ServedWebs(a) + ServedWebs(b)
  {
    hide *;
    NothingServed<Table>();
    if b == [] {
      assert a + b == a;
    } else {
      var init, last := b[..|b| - 1], b[|b| - 1];
      assert b == init + [last];
      Regroup(a, init, [last]);
      ServedConcat(a, init);
      ServedOne(a + init, last);
      ServedOne(init, last);
      Regroup(ServedApis(a), ServedApis(init), CarriedApi(last));
      Regroup(ServedWebs(a), ServedWebs(init), CarriedWeb(last));
    }
  }

  lemma ApiPartOneMore<Table>(rs: seq<Resolved>, tables: seq<(string, Table)>, empty: Table, n: nat)
    requires 0 < n <= |rs|
    ensures ServedApis(ApiPart(rs, tables, empty, n)) ==
            ServedApis(ApiPart(rs, tables, empty, n - 1)) +
            (if rs[n - 1].kind.Api? then [DeclaredApi(rs[n - 1], tables, empty)] else [])
  {
    hide ServedApis, ServedWebs, Absorbs, Paired, TableFor;
    if rs[n - 1].kind.Api? {
      ServedOne(ApiPart(rs, tables, empty, n - 1), ApiPart(rs, tables, empty, n)[|ApiPart(rs, tables, empty, n - 1)|]);
    }
  }

  /** Every API mount gives exactly one API entry, in declaration order. */
  lemma {:induction false} ApiPartServes<Table>(rs: seq<Resolved>, tables: seq<(string, Table)>, empty: Table, n: nat)
    requires n <= |rs|
    ensures ServedApis(ApiPart(rs, tables, empty, n)) == ApisOf(rs, tables, empty, n)
  {
    if n > 0 {
      ApiPartServes(rs, tables, empty, n - 1);
      ApiPartOneMore(rs, tables, empty, n);
    }
  }

  lemma WebPartOneMore<Table>(rs: seq<Resolved>, n: nat)
    requires 0 < n <= |rs|
    ensures ServedApis(WebPart<Table>(rs, n)) == ServedApis(WebPart<Table>(rs, n - 1))
  {
    hide ServedApis, ServedWebs, FirstWeb, Paired;
    if |WebPart<Table>(rs, n)| > |WebPart<Table>(rs, n - 1)| {
      ServedOne(WebPart<Table>(rs, n - 1), WebEntry(Declared(rs, n - 1)));
    }
  }

  lemma {:induction false} WebPartServesNoApi<Table>(rs: seq<Resolved>, n: nat)
    requires n <= |rs|
    ensures ServedApis(WebPart<Table>(rs, n)) == []
  {
    if n > 0 {
      WebPartServesNoApi<Table>(rs, n - 1);
      WebPartOneMore<Table>(rs, n);
    }
  }

  function Here(rs: seq<Resolved>, k: nat, ps: set<string>): multiset<WebMount>
    requires k < |rs|
  {
    if rs[k].kind.Web? && rs[k].prefix in ps then multiset{Declared(rs, k)} else multiset{}
  }

  /** The web mounts whose prefix is in a set. */
  function WebsUnder(rs: seq<Resolved>, n: nat, ps: set<string>): multiset<WebMount>
    requires n <= |rs|
  {
    if n == 0 then multiset{} else WebsUnder(rs, n - 1, ps) + Here(rs, n - 1, ps)
  }

  /** The first web mount under a prefix, if it is among the first `n` mounts. */
  function Only(rs: seq<Resolved>, n: nat, p: string): multiset<WebMount> {
    match FirstWeb(rs, p)
    case Some(k) => if k < n then multiset{Declared(rs, k)} else multiset{}
    case None => multiset{}
  }

  function Delta(rs: seq<Resolved>, k: nat, p: string): multiset<WebMount>
    requires k < |rs|
  {
    if FirstWeb(rs, p) == Some(k) then multiset{Declared(rs, k)} else multiset{}
  }

  lemma OneMoreHere(rs: seq<Resolved>, k: nat, ps: set<string>, p: string)
    requires k < |rs| && Unique(rs) && p !in ps
    ensures Here(rs, k, ps + {p}) == Here(rs, k, ps) + Delta(rs, k, p)
    ensures Only(rs, k + 1, p) == Only(rs, k, p) + Delta(rs, k, p)
  {
    hide Declared;
    if rs[k].kind.Web? && rs[k].prefix == p {
      assert FirstWeb(rs, p) == Some(k);
    }
  }

  /** Adding a new prefix to the set adds the one web mount under it. */
  lemma {:induction false} WebsUnderOneMore(rs: seq<Resolved>, n: nat, ps: set<string>, p: string)
    requires n <= |rs| && Unique(rs) && p !in ps
    ensures WebsUnder(rs, n, ps + {p}) == WebsUnder(rs, n, ps) + Only(rs, n, p)
  {
    hide Here, Delta, Unique;
    if n > 0 {
      WebsUnderOneMore(rs, n - 1, ps, p);
      OneMoreHere(rs, n - 1, ps, p);
      hide Only;
    }
  }

  lemma {:induction false} WebsUnderNothing(rs: seq<Resolved>, n: nat)
    requires n <= |rs|
    ensures WebsUnder(rs, n, {}) == multiset{}
  {
    if n > 0 {
      WebsUnderNothing(rs, n - 1);
    }
  }

  lemma {:induction false} PairedArePrecedingApis(rs: seq<Resolved>, n: nat, p: string)
    requires n <= |rs| && p in Paired(rs, n)
    ensures exists j :: 0 <= j < n && rs[j].kind.Api? && rs[j].prefix == p
    ensures FirstWeb(rs, p).Some?
  {
    if p in Paired(rs, n - 1) {
      PairedArePrecedingApis(rs, n - 1, p);
    }
  }

  /** An API mount absorbs the first web mount under its prefix: no earlier API has that prefix. */
  lemma AbsorbsFirst(rs: seq<Resolved>, i: nat)
    requires i < |rs| && Unique(rs) && rs[i].kind.Api?
    ensures rs[i].prefix !in Paired(rs, i)
    ensures multiset(Contents(Absorbs(rs, rs[i].prefix, Paired(rs, i)))) == Only(rs, |rs|, rs[i].prefix)
    ensures Paired(rs, i + 1) ==
            if FirstWeb(rs, rs[i].prefix).Some? then Paired(rs, i) + {rs[i].prefix} else Paired(rs, i)
  {
    if rs[i].prefix in Paired(rs, i) {
      PairedArePrecedingApis(rs, i, rs[i].prefix);
      assert false;
    }
    assert Paired(rs, i) + {} == Paired(rs, i);
    var first := FirstWeb(rs, rs[i].prefix);
    if first.Some? {
      assert Declared(rs, first.value) == AsWeb(rs[first.value], false);
    }
  }

  function Contents(w: Option<WebMount>): seq<WebMount> {
    match w case Some(x) => [x] case None => []
  }

  /** What the i-th mount adds to the absorbed ones. */
  function Added(rs: seq<Resolved>, i: nat): seq<WebMount>
    requires i < |rs|
  {
    if rs[i].kind.Api? then Contents(Absorbs(rs, rs[i].prefix, Paired(rs, i))) else []
  }

  lemma ApiPartStep<Table>(rs: seq<Resolved>, tables: seq<(string, Table)>, empty: Table, i: nat)
    requires i < |rs|
    ensures ServedWebs(ApiPart(rs, tables, empty, i + 1)) == ServedWebs(ApiPart(rs, tables, empty, i)) + Added(rs, i)
  {
    hide Absorbs, Paired, TableFor;
    var before := ApiPart(rs, tables, empty, i);
    if rs[i].kind.Api? {
      ServedOne(before, ApiPart(rs, tables, empty, i + 1)[|before|]);
    } else {
      assert ServedWebs(before) + [] == ServedWebs(before);
    }
  }

  lemma PairedStep(rs: seq<Resolved>, i: nat)
    requires i < |rs| && Unique(rs)
    ensures WebsUnder(rs, |rs|, Paired(rs, i + 1)) == WebsUnder(rs, |rs|, Paired(rs, i)) + multiset(Added(rs, i))
  {
    var m, ps := rs[i], Paired(rs, i);
    if m.kind.Api? {
      AbsorbsFirst(rs, i);
      if FirstWeb(rs, m.prefix).Some? {
        WebsUnderOneMore(rs, |rs|, ps, m.prefix);
      } else {
        NothingUnder(rs, m.prefix);
      }
    } else {
      assert ps + {} == ps;
    }
  }

  lemma MultisetOfConcat(a: seq<WebMount>, b: seq<WebMount>)
    ensures multiset(a + b) == multiset(a) + multiset(b)
  {
  }

  lemma NoApiPartAbsorbs<Table>(rs: seq<Resolved>, tables: seq<(string, Table)>, empty: Table)
    ensures multiset(ServedWebs(ApiPart(rs, tables, empty, 0))) == WebsUnder(rs, |rs|, Paired(rs, 0))
  {
    WebsUnderNothing(rs, |rs|);
  }

  /** The API entries carry exactly the web mounts under the paired prefixes, none of them an SPA. */
  lemma {:induction false} ApiPartAbsorbs<Table>(rs: seq<Resolved>, tables: seq<(string, Table)>, empty: Table, n: nat)
    requires n <= |rs| && Unique(rs)
    ensures multiset(ServedWebs(ApiPart(rs, tables, empty, n))) == WebsUnder(rs, |rs|, Paired(rs, n))
  {
    hide *;
    if n == 0 {
      NoApiPartAbsorbs(rs, tables, empty);
    } else {
      ApiPartAbsorbs(rs, tables, empty, n - 1);
      ApiPartStep(rs, tables, empty, n - 1);
      PairedStep(rs, n - 1);
      MultisetOfConcat(ServedWebs(ApiPart(rs, tables, empty, n - 1)), Added(rs, n - 1));
    }
  }

  lemma NothingUnder(rs: seq<Resolved>, p: string)
    requires FirstWeb(rs, p).None?
    ensures Only(rs, |rs|, p) == multiset{}
  {
  }

  predicate HasApi(rs: seq<Resolved>, n: nat, prefix: string)
    requires n <= |rs|
  {
    exists j :: 0 <= j < n && rs[j].kind.Api? && rs[j].prefix == prefix
  }

  /** The web mounts that share their prefix with no API, in declaration order. */
  function Standalone(rs: seq<Resolved>, n: nat): seq<WebMount>
    requires n <= |rs|
  {
    if n == 0 then []
    else Standalone(rs, n - 1) + Alone(rs, n - 1)
  }

  lemma {:induction false} PairedIffApi(rs: seq<Resolved>, n: nat, p: string)
    requires n <= |rs| && FirstWeb(rs, p).Some?
    ensures p in Paired(rs, n) <==> HasApi(rs, n, p)
  {
    if n > 0 {
      PairedIffApi(rs, n - 1, p);
    }
  }

  /** With unique prefixes a web mount is the first one under its prefix. */
  lemma FirstWebIsUnique(rs: seq<Resolved>, k: nat)
    requires k < |rs| && Unique(rs) && rs[k].kind.Web?
    ensures FirstWeb(rs, rs[k].prefix) == Some(k)
  {
  }

  lemma WebPartStep<Table>(rs: seq<Resolved>, n: nat)
    requires 0 < n <= |rs| && Unique(rs)
    ensures ServedWebs(WebPart<Table>(rs, n)) == ServedWebs(WebPart<Table>(rs, n - 1)) + Alone(rs, n - 1)
  {
    hide ServedWebs, ServedApis, FirstWeb, Unique, Paired, HasApi;
    var m := rs[n - 1];
    if m.kind.Web? {
      FirstWebIsUnique(rs, n - 1);
      PairedIffApi(rs, |rs|, m.prefix);
      ServedOne(WebPart<Table>(rs, n - 1), WebEntry(Declared(rs, n - 1)));
    }
  }

  /** The stand-alone entries are exactly these, flags included. */
  lemma {:induction false} WebPartServes<Table>(rs: seq<Resolved>, n: nat)
    requires n <= |rs| && Unique(rs)
    ensures ServedWebs(WebPart<Table>(rs, n)) == Standalone(rs, n)
  {
    if n > 0 {
      WebPartServes<Table>(rs, n - 1);
      WebPartStep<Table>(rs, n);
    }
  }

  function Alone(rs: seq<Resolved>, k: nat): seq<WebMount>
    requires k < |rs|
  {
    if rs[k].kind.Web? && !HasApi(rs, |rs|, rs[k].prefix) then [Declared(rs, k)] else []
  }

  function WebHere(rs: seq<Resolved>, k: nat): seq<WebMount>
    requires k < |rs|
  {
    if rs[k].kind.Web? then [Declared(rs, k)] else []
  }

  lemma AloneOrPaired(rs: seq<Resolved>, k: nat)
    requires k < |rs|
    ensures multiset(Alone(rs, k)) + Here(rs, k, Paired(rs, |rs|)) == multiset(WebHere(rs, k))
  {
    hide Declared;
    if rs[k].kind.Web? {
      assert FirstWeb(rs, rs[k].prefix).Some?;
      PairedIffApi(rs, |rs|, rs[k].prefix);
    }
  }

  lemma {:induction false} StandaloneAndPaired(rs: seq<Resolved>, n: nat)
    requires n <= |rs|
    ensures multiset(Standalone(rs, n)) + WebsUnder(rs, n, Paired(rs, |rs|)) == multiset(WebsOf(rs, n))
  {
    hide Alone, Here, WebHere, Paired;
    if n > 0 {
      StandaloneAndPaired(rs, n - 1);
      AloneOrPaired(rs, n - 1);
    }
  }

  /** An absorbed web mount is served under the prefix it was declared for. */
  predicate WebUnderOwnPrefix<Table>(m: RuntimeMount<Table>) {
    m.ApiEntry? && m.web.Some? ==> m.web.value.prefix == m.prefix
  }

  predicate AllUnderOwnPrefix<Table>(out: seq<RuntimeMount<Table>>) {
    forall i :: 0 <= i < |out| ==> WebUnderOwnPrefix(out[i])
  }

  lemma OwnPrefixConcat<Table>(a: seq<RuntimeMount<Table>>, b: seq<RuntimeMount<Table>>)
    requires AllUnderOwnPrefix(a) && AllUnderOwnPrefix(b)
    ensures AllUnderOwnPrefix(a + b)
  {
  }

  lemma {:induction false} AbsorbedUnderOwnPrefix<Table>(
    rs: seq<Resolved>, tables: seq<(string, Table)>, empty: Table, n: nat)
    requires n <= |rs|
    ensures AllUnderOwnPrefix(ApiPart(rs, tables, empty, n))
  {
    if n > 0 {
      var before, now := ApiPart(rs, tables, empty, n - 1), ApiPart(rs, tables, empty, n);
      AbsorbedUnderOwnPrefix(rs, tables, empty, n - 1);
      if rs[n - 1].kind.Api? {
        OwnPrefixConcat(before, [now[|before|]]);
      }
    }
  }

  lemma {:induction false} StandAloneEntries<Table>(rs: seq<Resolved>, n: nat)
    requires n <= |rs|
    ensures AllUnderOwnPrefix(WebPart<Table>(rs, n))
  {
    if n > 0 {
      StandAloneEntries<Table>(rs, n - 1);
      if rs[n - 1].kind.Web? {
        OwnPrefixConcat<Table>(WebPart<Table>(rs, n - 1), [WebEntry(Declared(rs, n - 1))]);
      }
    }
  }

  /**
    Conservation across all three phases. When validation accepts, the run-time table serves every API
    mount exactly once and in declaration order, with its own routes, and every web mount exactly once with the root,
    headers and SPA flag it was declared with, whether it stands alone or was absorbed -- by the API
    mount of the same prefix.
   */
  lemma MountsAreConserved<Table>(
    f: Files, ms: seq<MountConf>, rs: seq<Resolved>, tables: seq<(string, Table)>, empty: Table)
    requires WellFormed(ms) && |rs| == |ms|
    requires forall i :: 0 <= i < |ms| ==> ResolveOne(f, ms[i]) == Ok(rs[i])
    ensures var out := ApiPart(rs, tables, empty, |rs|) + WebPart(rs, |rs|);
            && ServedApis(out) == ApisOf(rs, tables, empty, |rs|)
            && AllUnderOwnPrefix(out)
            && multiset(ServedWebs(out)) == multiset(WebsOf(rs, |rs|))
            && ServedWebs(WebPart<Table>(rs, |rs|)) == Standalone(rs, |rs|)
  {
    hide WellFormed, CheckMount, AllUnderOwnPrefix, ApiPart, WebPart;
    ResolvedIsUnique(f, ms, rs);
    var a, b := ApiPart(rs, tables, empty, |rs|), WebPart<Table>(rs, |rs|);
    ServedConcat(a, b);
    AbsorbedUnderOwnPrefix(rs, tables, empty, |rs|);
    StandAloneEntries<Table>(rs, |rs|);
    OwnPrefixConcat(a, b);
    ApiPartServes(rs, tables, empty, |rs|);
    WebPartServesNoApi<Table>(rs, |rs|);
    ApiPartAbsorbs(rs, tables, empty, |rs|);
    WebPartServes<Table>(rs, |rs|);
    StandaloneAndPaired(rs, |rs|);
  }

  // ----- conservation, told from the configuration -----

  /** The web mounts that the first `n` entries of a configuration ask for. */
  function ConfiguredWebs(f: Files, ms: seq<MountConf>, n: nat): seq<WebMount>
    requires n <= |ms|
    requires forall i :: 0 <= i < |ms| && ms[i].web.Some? ==> f.locate(ms[i].web.value).Some?
  {
    if n == 0 then []
    else
      ConfiguredWebs(f, ms, n - 1)
      + match ms[n - 1].web
        case None => []
        case Some(w) =>
          [WebMount(Norm(ms[n - 1].prefix), f.locate(w).value, ms[n - 1].headers, ms[n - 1].spa == Some(true))]
  }

  /** The directory of an API: fetched by its hash, or found on the disk. */
  function ConfiguredDirectory(f: Files, m: MountConf): Option<string> {
    match (m.api, m.sha256)
    case (None, _) => None
    case (Some(a), Some(sha)) => if IsHttpUrl(a) then f.fetch(a, sha, m.cache) else f.locate(a)
    case (Some(a), None) => if IsHttpUrl(a) then None else f.locate(a)
  }

  /** The API mounts that the first `n` entries of a configuration ask for; only a source tree has a fallback. */
  function ConfiguredApis<Table>(
    f: Files, ms: seq<MountConf>, tables: seq<(string, Table)>, empty: Table, n: nat): seq<ApiMount<Table>>
    requires n <= |ms|
    requires forall i :: 0 <= i < |ms| && ms[i].api.Some? ==> ConfiguredDirectory(f, ms[i]).Some?
  {
    if n == 0 then []
    else
      ConfiguredApis(f, ms, tables, empty, n - 1)
      + if ms[n - 1].api.None? then []
        else
          var p, dir := Norm(ms[n - 1].prefix), ConfiguredDirectory(f, ms[n - 1]).value;
          [ApiMount(p, TableFor(tables, p, empty), if f.isSource(dir) then Some(dir) else None)]
  }

  /** A prefix without its trailing slashes; nothing but slashes is the root. */
  predicate IsServedPrefix(declared: string, served: string) {
    if forall i :: 0 <= i < |declared| ==> declared[i] == '/' then served == "/"
    else
      && served <= declared && served != "" && served[|served| - 1] != '/'
      && forall i :: |served| <= i < |declared| ==> declared[i] == '/'
  }

  lemma NormIsServed(declared: string, served: string)
    ensures Norm(declared) == served <==> IsServedPrefix(declared, served)
  {
    var t := TrimEnd(declared, '/');
    if IsServedPrefix(declared, served) && t != "" {
      assert declared[|t| - 1] == t[|t| - 1];
      assert declared[|served| - 1] == served[|served| - 1];
      assert |t| == |served|;
    }
  }

  lemma ResolvedAsConfigured(f: Files, m: MountConf, r: Resolved)
    requires ResolveOne(f, m) == Ok(r)
    ensures m.api.Some? <==> m.web.None?
    ensures m.web.Some? ==>
              && f.locate(m.web.value).Some?
              && r == Resolved(Norm(m.prefix), Web(f.locate(m.web.value).value, m.headers, m.spa == Some(true)))
    ensures m.api.Some? ==>
              && ConfiguredDirectory(f, m).Some?
              && var dir := ConfiguredDirectory(f, m).value; r == Resolved(Norm(m.prefix), Api(dir, f.isSource(dir)))
  {
    hide Norm, IsHttpUrl;
  }

  /** A mount resolves exactly when its prefix begins with a slash and the one directory it names is there. */
  lemma ResolvesIff(f: Files, m: MountConf)
    ensures ResolveOne(f, m).Ok? <==>
            && m.prefix != "" && m.prefix[0] == '/'
            && (m.api.Some? <==> m.web.None?)
            && (m.web.Some? ==> f.locate(m.web.value).Some?)
            && (m.api.Some? ==> ConfiguredDirectory(f, m).Some?)
  {
    hide Norm, IsHttpUrl;
  }

  lemma {:induction false} ResolvedMatchesConfigured<Table>(
    f: Files, ms: seq<MountConf>, rs: seq<Resolved>, tables: seq<(string, Table)>, empty: Table, n: nat)
    requires n <= |ms| == |rs|
    requires forall i :: 0 <= i < |ms| ==> ResolveOne(f, ms[i]) == Ok(rs[i])
    ensures forall i :: 0 <= i < |ms| && ms[i].web.Some? ==> f.locate(ms[i].web.value).Some?
    ensures forall i :: 0 <= i < |ms| && ms[i].api.Some? ==> ConfiguredDirectory(f, ms[i]).Some?
    ensures WebsOf(rs, n) == ConfiguredWebs(f, ms, n)
    ensures ApisOf(rs, tables, empty, n) == ConfiguredApis(f, ms, tables, empty, n)
  {
    hide ResolveOne, ConfiguredDirectory, TableFor, Norm;
    forall i | 0 <= i < |ms|
      ensures ms[i].web.Some? ==> f.locate(ms[i].web.value).Some?
      ensures ms[i].api.Some? ==> ConfiguredDirectory(f, ms[i]).Some?
    {
      ResolvedAsConfigured(f, ms[i], rs[i]);
    }
    if n > 0 {
      ResolvedMatchesConfigured(f, ms, rs, tables, empty, n - 1);
      ResolvedAsConfigured(f, ms[n - 1], rs[n - 1]);
    }
  }

  /**
    From configuration to serving: what is served are the API mounts that the configuration asks for, in
    order, and the web mounts it asks for, each once -- directory, headers, flag and fallback included.
   */
  lemma ConfigurationIsServed<Table>(
    f: Files, ms: seq<MountConf>, rs: seq<Resolved>, tables: seq<(string, Table)>, empty: Table)
    requires WellFormed(ms) && |rs| == |ms|
    requires forall i :: 0 <= i < |ms| ==> ResolveOne(f, ms[i]) == Ok(rs[i])
    ensures forall i :: 0 <= i < |ms| && ms[i].web.Some? ==> f.locate(ms[i].web.value).Some?
    ensures forall i :: 0 <= i < |ms| && ms[i].api.Some? ==> ConfiguredDirectory(f, ms[i]).Some?
    ensures var out := ApiPart(rs, tables, empty, |rs|) + WebPart(rs, |rs|);
            && multiset(ServedWebs(out)) == multiset(ConfiguredWebs(f, ms, |ms|))
            && ServedApis(out) == ConfiguredApis(f, ms, tables, empty, |ms|)
            && AllUnderOwnPrefix(out)
  {
    hide WellFormed, ResolveOne, ApiPart, WebPart, ServedWebs, ServedApis, WebsOf, ApisOf;
    hide ConfiguredWebs, ConfiguredApis, ConfiguredDirectory;
    ResolvedMatchesConfigured(f, ms, rs, tables, empty, |ms|);
    MountsAreConserved(f, ms, rs, tables, empty);
  }

  // ----- every API keeps its own routes -----

  /** The prefixes of the API mounts of the first `n`, in the order in which their route tables are built. */
  function ApiPrefixes(rs: seq<Resolved>, n: nat): seq<string>
    requires n <= |rs|
  {
    if n == 0 then [] else ApiPrefixes(rs, n - 1) + (if rs[n - 1].kind.Api? then [rs[n - 1].prefix] else [])
  }

  predicate AllDifferent(names: seq<string>) {
    forall j, k :: 0 <= j < k < |names| ==> names[j] != names[k]
  }

  lemma {:induction false} ApiPrefixesDiffer(rs: seq<Resolved>, n: nat)
    requires n <= |rs| && Unique(rs)
    ensures AllDifferent(ApiPrefixes(rs, n))
    ensures forall p :: p in ApiPrefixes(rs, n) ==> HasApi(rs, n, p)
  {
    if n > 0 {
      ApiPrefixesDiffer(rs, n - 1);
      var before := ApiPrefixes(rs, n - 1);
      forall p | p in ApiPrefixes(rs, n)
        ensures HasApi(rs, n, p)
      {
        if p in before {
          var j :| 0 <= j < n - 1 && rs[j].kind.Api? && rs[j].prefix == p;
        } else {
          assert rs[n - 1].kind.Api? && rs[n - 1].prefix == p;
        }
      }
      if rs[n - 1].kind.Api? {
        assert rs[n - 1].prefix !in before;
      }
    }
  }

  lemma {:induction false} TableIsFound<Table>(tables: seq<(string, Table)>, k: nat, empty: Table)
    requires k < |tables|
    requires forall i, j :: 0 <= i < j < |tables| ==> tables[i].0 != tables[j].0
    ensures TableFor(tables, tables[k].0, empty) == tables[k].1
  {
    if k > 0 {
      TableIsFound(tables[1..], k - 1, empty);
    }
  }

  lemma {:induction false} ApisInOrder<Table>(rs: seq<Resolved>, tables: seq<(string, Table)>, empty: Table, n: nat)
    requires n <= |rs|
    ensures |ApisOf(rs, tables, empty, n)| == |ApiPrefixes(rs, n)|
    ensures forall k :: 0 <= k < |ApiPrefixes(rs, n)| ==>
              && ApisOf(rs, tables, empty, n)[k].prefix == ApiPrefixes(rs, n)[k]
              && ApisOf(rs, tables, empty, n)[k].table == TableFor(tables, ApiPrefixes(rs, n)[k], empty)
  {
    hide TableFor;
    if n > 0 {
      ApisInOrder(rs, tables, empty, n - 1);
    }
  }

  /** Route tables are built one per API mount, in order; the k-th API is served with the k-th table. */
  lemma EachApiServesItsTable<Table>(
    f: Files, ms: seq<MountConf>, rs: seq<Resolved>, tables: seq<(string, Table)>, empty: Table)
    requires WellFormed(ms) && |rs| == |ms|
    requires forall i :: 0 <= i < |ms| ==> ResolveOne(f, ms[i]) == Ok(rs[i])
    requires |tables| == |ApiPrefixes(rs, |rs|)|
    requires forall k :: 0 <= k < |tables| ==> tables[k].0 == ApiPrefixes(rs, |rs|)[k]
    ensures var served := ServedApis(ApiPart(rs, tables, empty, |rs|) + WebPart(rs, |rs|));
            && |served| == |tables|
            && forall k :: 0 <= k < |tables| ==> served[k].prefix == tables[k].0 && served[k].table == tables[k].1
  {
    hide WellFormed, CheckMount, ApiPart, WebPart, ServedApis, ServedWebs, Unique, TableFor, ApisOf, ApiPrefixes;
    ResolvedIsUnique(f, ms, rs);
    MountsAreConserved(f, ms, rs, tables, empty);
    ApiPrefixesDiffer(rs, |rs|);
    ApisInOrder(rs, tables, empty, |rs|);
    forall k | 0 <= k < |tables|
      ensures TableFor(tables, tables[k].0, empty) == tables[k].1
    {
      TableIsFound(tables, k, empty);
    }
  }
}

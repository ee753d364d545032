/**
  Credential masking in error texts (oj/src/migrate_cmd.rs, `sanitize_dsn`) and in single connection
  strings (src/secret.rs, `redact`). Scheme and authority are those of sections 3.1 and 3.2 of RFC 3986.
 */
module Dsn {
  import opened Wrappers
  import opened Text

  predicate IsSchemeChar(c: char) {
    IsAsciiAlphanumeric(c) || c == '+' || c == '-' || c == '.'
  }

  /** What ends an authority inside free text. */
  predicate IsDelimiter(c: char) {
    IsWhitespace(c) || c == '/' || c == '?' || c == '#' || c == '\'' || c == '"'
  }

  predicate StartsWithSeparator(s: string) {
    |s| >= 3 && s[0] == ':' && s[1] == '/' && s[2] == '/'
  }

  /** Position of the first `://`. */
  function FindSeparator(s: string): (r: Option<nat>)
    ensures r.Some? ==> r.value + 3 <= |s| && StartsWithSeparator(s[r.value..])
  {
    if s == "" then None
    else if StartsWithSeparator(s) then Some(0)
    else match FindSeparator(s[1..])
      case Some(k) => assert s[1..][k..] == s[k + 1..]; Some(k + 1)
      case None => None
  }

  /** Where the scheme word that ends the text begins; the end of the text if there is none. */
  function SchemeStart(before: string): (r: nat)
    ensures r <= |before|
  {
    if before == "" || !IsSchemeChar(before[|before| - 1]) then |before|
    else SchemeStart(before[..|before| - 1])
  }

  function AuthorityLength(tail: string): (n: nat)
    ensures n <= |tail|
    ensures forall i :: 0 <= i < n ==> !IsDelimiter(tail[i])
    ensures n < |tail| ==> IsDelimiter(tail[n])
  {
    if tail == "" || IsDelimiter(tail[0]) then 0 else 1 + AuthorityLength(tail[1..])
  }

  function FirstAt(s: string): (r: Option<nat>)
    ensures r.None? ==> forall i :: 0 <= i < |s| ==> s[i] != '@'
    ensures r.Some? ==> r.value < |s| && s[r.value] == '@'
    ensures r.Some? ==> forall i :: 0 <= i < r.value ==> s[i] != '@'
  {
    if s == "" then None
    else if s[0] == '@' then Some(0)
    else match FirstAt(s[1..])
      case Some(k) => Some(k + 1)
      case None => None
  }

  function LastAt(s: string): (r: Option<nat>)
    ensures r.None? ==> forall i :: 0 <= i < |s| ==> s[i] != '@'
    ensures r.Some? ==> r.value < |s| && s[r.value] == '@'
    ensures r.Some? ==> forall i :: r.value < i < |s| ==> s[i] != '@'
  {
    if s == "" then None
    else if s[|s| - 1] == '@' then Some(|s| - 1)
    else LastAt(s[..|s| - 1])
  }

  /** An authority with everything before its last `@` replaced. */
  function Mask(authority: string): string {
    match LastAt(authority)
    case Some(at) => "***" + authority[at..]
    case None => authority
  }

  /** The treated text up to the end of the first authority, and the text after it. */
  function Piece(s: string, pos: nat): string
    requires pos + 3 <= |s|
  {
    var tail := s[pos + 3..];
    if SchemeStart(s[..pos]) == pos then s[..pos + 3]
    else s[..pos + 3] + Mask(tail[..AuthorityLength(tail)])
  }

  function After(s: string, pos: nat): (r: string)
    requires pos + 3 <= |s|
    ensures |r| < |s|
  {
    var tail := s[pos + 3..];
    if SchemeStart(s[..pos]) == pos then tail else tail[AuthorityLength(tail)..]
  }

  function Sanitize(s: string): string
    decreases |s|
  {
    match FindSeparator(s)
    case None => s
    case Some(pos) => Piece(s, pos) + Sanitize(After(s, pos))
  }

  /** The loop of the source: `rest` advances, `result` grows. */
  method SanitizeDsn(msg: string) returns (result: string)
    ensures result == Sanitize(msg)
  {
    result := "";
    var rest := msg;
    var found := FindSeparator(rest);
    while found.Some?
      invariant found == FindSeparator(rest)
      invariant result + Sanitize(rest) == Sanitize(msg)
      decreases |rest|
    {
      var pos := found.value;
      var tail := rest[pos + 3..];
      Regroup(result, Piece(rest, pos), Sanitize(After(rest, pos)));
      if SchemeStart(rest[..pos]) == pos {
        result := result + rest[..pos + 3];
        rest := tail;
      } else {
        var n := AuthorityLength(tail);
        var authority := tail[..n];
        var at := LastAt(authority);
        var masked := if at.Some? then "***" + authority[at.value..] else authority;
        result := result + (rest[..pos + 3] + masked);
        rest := tail[n..];
      }
      found := FindSeparator(rest);
    }
    result := result + rest;
  }

  // ----- what masking means -----

  predicate NoDelimiter(a: string) {
    forall i :: 0 <= i < |a| ==> !IsDelimiter(a[i])
  }

  predicate EmptyOrDelimited(t: string) {
    t == "" || IsDelimiter(t[0])
  }

  /** No credentials in front of the host: no `@` at all, or only `***@`. */
  predicate IsMasked(authority: string) {
    || '@' !in authority
    || ("***@" <= authority && forall i :: 4 <= i < |authority| ==> authority[i] != '@')
  }

  lemma MaskIsMasked(a: string)
    ensures IsMasked(Mask(a))
    ensures Mask(a) == a <==> IsMasked(a)
    ensures Mask(Mask(a)) == Mask(a)
    ensures NoDelimiter(a) ==> NoDelimiter(Mask(a))
  {
    var at := LastAt(a);
    if at.Some? {
      var m := Mask(a);
      assert m[3] == '@';
      assert LastAt(m).value == 3;
      assert m[3..] == a[at.value..];
      if IsMasked(a) {
        assert a[3] == '@' && at.value == 3;
        assert a == a[..3] + a[3..];
      }
    }
  }

  /** The authorities the scan visits, left to right. */
  function Authorities(s: string): seq<string>
    decreases |s|
  {
    match FindSeparator(s)
    case None => []
    case Some(pos) =>
      var tail := s[pos + 3..];
      if SchemeStart(s[..pos]) == pos then Authorities(tail)
      else
        var n := AuthorityLength(tail);
        [tail[..n]] + Authorities(tail[n..])
  }

  predicate AllMasked(authorities: seq<string>) {
    forall i :: 0 <= i < |authorities| ==> IsMasked(authorities[i])
  }

  function MaskAll(authorities: seq<string>): (r: seq<string>)
    ensures |r| == |authorities|
    ensures forall i :: 0 <= i < |r| ==> r[i] == Mask(authorities[i])
  {
    if authorities == [] then [] else [Mask(authorities[0])] + MaskAll(authorities[1..])
  }

  /** The first separator is found by looking at the text up to its end only. */
  lemma {:induction false} SeparatorIsLocal(s: string, t: string)
    requires FindSeparator(s).Some?
    requires s[..FindSeparator(s).value + 3] <= t
    ensures FindSeparator(t) == FindSeparator(s)
  {
    var pos := FindSeparator(s).value;
    if StartsWithSeparator(s) {
      assert s[0] == t[0] && s[1] == t[1] && s[2] == t[2];
    } else {
      var before := s[..pos + 3];
      assert FindSeparator(s[1..]).value == pos - 1;
      assert before[0] == s[0] && before[1] == s[1] && before[2] == s[2];
      assert !StartsWithSeparator(t);
      assert s[1..][..pos - 1 + 3] == before[1..];
      assert before[1..] <= t[1..];
      SeparatorIsLocal(s[1..], t[1..]);
    }
  }

  lemma SanitizeKeepsHead(s: string)
    ensures Sanitize(s) == "" <==> s == ""
    ensures s != "" ==> Sanitize(s)[0] == s[0]
  {
  }

  lemma {:induction false} AuthorityLengthOfConcat(a: string, t: string)
    requires NoDelimiter(a) && EmptyOrDelimited(t)
    ensures AuthorityLength(a + t) == |a|
  {
    if a == "" {
      assert a + t == t;
    } else {
      assert (a + t)[1..] == a[1..] + t;
      AuthorityLengthOfConcat(a[1..], t);
    }
  }

  /** A text up to and including its first separator. */
  predicate IsHead(h: string) {
    |h| >= 3 && FindSeparator(h) == Some(|h| - 3)
  }

  predicate HasScheme(h: string)
    requires IsHead(h)
  {
    SchemeStart(h[..|h| - 3]) != |h| - 3
  }

  lemma HeadOf(s: string)
    requires FindSeparator(s).Some?
    ensures var h := s[..FindSeparator(s).value + 3];
            IsHead(h) && h[..|h| - 3] == s[..FindSeparator(s).value]
  {
    SeparatorIsLocal(s, s[..FindSeparator(s).value + 3]);
  }

  lemma HeadPlus(h: string, t: string)
    requires IsHead(h)
    ensures var u := h + t;
            && FindSeparator(u) == Some(|h| - 3)
            && u[..|h| - 3] == h[..|h| - 3] && u[..|h|] == h && u[|h|..] == t
  {
    assert h[..|h| - 3 + 3] == h;
    SeparatorIsLocal(h, h + t);
  }

  /** One stretch of text: head, authority, and what follows. */
  lemma Stretch(h: string, a: string, t: string)
    requires IsHead(h) && HasScheme(h) && NoDelimiter(a) && EmptyOrDelimited(t)
    ensures Sanitize(h + (a + t)) == h + Mask(a) + Sanitize(t)
    ensures Authorities(h + (a + t)) == [a] + Authorities(t)
  {
    HeadPlus(h, a + t);
    AuthorityLengthOfConcat(a, t);
    assert (a + t)[..|a|] == a && (a + t)[|a|..] == t;
  }

  lemma SchemelessStretch(h: string, t: string)
    requires IsHead(h) && !HasScheme(h)
    ensures Sanitize(h + t) == h + Sanitize(t)
    ensures Authorities(h + t) == Authorities(t)
  {
    HeadPlus(h, t);
  }

  /** Every text with a separator is one stretch of either kind. */
  lemma Decompose(s: string) returns (h: string, a: string, t: string)
    requires FindSeparator(s).Some?
    ensures IsHead(h) && |t| < |s| && s == h + (a + t)
    ensures if HasScheme(h) then NoDelimiter(a) && EmptyOrDelimited(t) else a == ""
  {
    HeadOf(s);
    hide FindSeparator, IsHead, HasScheme;
    var pos := FindSeparator(s).value;
    h := s[..pos + 3];
    var tail := s[pos + 3..];
    CutText(s, pos + 3);
    var n := if HasScheme(h) then AuthorityLength(tail) else 0;
    a, t := tail[..n], tail[n..];
    CutText(tail, n);
  }

  lemma CutText(s: string, n: nat)
    requires n <= |s|
    ensures s == s[..n] + s[n..]
  {
  }

  /**
    For every text: masking is idempotent, and a second scan of the result visits exactly the
    authorities of the first, masked. So no authority the scan can see keeps its credentials.
   */
  lemma {:induction false} SanitizeIsIdempotent(s: string)
    ensures Sanitize(Sanitize(s)) == Sanitize(s)
    ensures Authorities(Sanitize(s)) == MaskAll(Authorities(s))
    ensures AllMasked(Authorities(Sanitize(s)))
    decreases |s|
  {
    if FindSeparator(s).Some? {
      var h, a, t := Decompose(s);
      SanitizeIsIdempotent(t);
      if HasScheme(h) {
        Stretch(h, a, t);
        MaskIsMasked(a);
        SanitizeKeepsHead(t);
        Stretch(h, Mask(a), Sanitize(t));
        Regroup(h, Mask(a), Sanitize(t));
        assert ([a] + Authorities(t))[1..] == Authorities(t);
      } else {
        assert a + t == t;
        SchemelessStretch(h, t);
        SchemelessStretch(h, Sanitize(t));
      }
    }
  }

  /** A text is left alone exactly when every authority in it is already masked. */
  lemma {:induction false} FixedPointsAreMasked(s: string)
    ensures Sanitize(s) == s <==> AllMasked(Authorities(s))
    decreases |s|
  {
    if FindSeparator(s).Some? {
      var h, a, t := Decompose(s);
      FixedPointsAreMasked(t);
      if HasScheme(h) {
        Stretch(h, a, t);
        Regroup(h, Mask(a), Sanitize(t));
        UnchangedByParts(h, a, t);
        MaskIsMasked(a);
        AllMaskedCons(a, Authorities(t));
      } else {
        assert a + t == t;
        SchemelessStretch(h, t);
        SamePrefix(h, Sanitize(t), t);
      }
    }
  }

  lemma AllMaskedCons(a: string, rest: seq<string>)
    ensures AllMasked([a] + rest) <==> IsMasked(a) && AllMasked(rest)
  {
    assert ([a] + rest)[0] == a && ([a] + rest)[1..] == rest;
    forall i | 0 <= i < |rest|
      ensures rest[i] == ([a] + rest)[i + 1]
    {
    }
  }

  lemma SamePrefix(h: string, x: string, y: string)
    ensures h + x == h + y <==> x == y
  {
    assert (h + x)[|h|..] == x && (h + y)[|h|..] == y;
  }

  /** A stretch comes out unchanged only if each of its parts does. */
  lemma UnchangedByParts(h: string, a: string, t: string)
    requires NoDelimiter(a) && EmptyOrDelimited(t)
    ensures h + (Mask(a) + Sanitize(t)) == h + (a + t) <==> Mask(a) == a && Sanitize(t) == t
  {
    SamePrefix(h, Mask(a) + Sanitize(t), a + t);
    SanitizeKeepsHead(t);
    MaskIsMasked(a);
    AuthorityLengthOfConcat(a, t);
    AuthorityLengthOfConcat(Mask(a), Sanitize(t));
    assert (a + t)[..|a|] == a && (a + t)[|a|..] == t;
    assert (Mask(a) + Sanitize(t))[..|Mask(a)|] == Mask(a) && (Mask(a) + Sanitize(t))[|Mask(a)|..] == Sanitize(t);
  }

  predicate Lacks(parts: seq<string>, c: char) {
    forall i :: 0 <= i < |parts| ==> c !in parts[i]
  }

  lemma LacksCons(part: string, parts: seq<string>, c: char)
    requires c !in part && Lacks(parts, c)
    ensures Lacks([part] + parts, c)
  {
  }

  lemma {:induction false} AuthoritiesHoldNoNewCharacters(s: string, c: char)
    requires c !in s
    ensures Lacks(Authorities(s), c)
    decreases |s|
  {
    hide FindSeparator, SchemeStart, AuthorityLength, Lacks;
    match FindSeparator(s)
    case None =>
      NothingLacks(c);
    case Some(pos) =>
      var tail := s[pos + 3..];
      if SchemeStart(s[..pos]) == pos {
        AuthoritiesHoldNoNewCharacters(tail, c);
      } else {
        var n := AuthorityLength(tail);
        AuthoritiesHoldNoNewCharacters(tail[n..], c);
        LacksCons(tail[..n], Authorities(tail[n..]), c);
      }
  }

  lemma NothingLacks(c: char)
    ensures Lacks([], c)
  {
  }

  /** Texts without `@` and texts without `://` pass unchanged. */
  lemma HarmlessTextsAreUnchanged(s: string)
    requires '@' !in s || FindSeparator(s).None?
    ensures Sanitize(s) == s
  {
    if '@' !in s {
      AuthoritiesHoldNoNewCharacters(s, '@');
      FixedPointsAreMasked(s);
    }
  }

  // ----- masking, told in characters -----

  /** The characters with the Unicode property White_Space. */
  const WHITE_SPACE: set<char> := {
    '\t', '\n', '\U{B}', '\U{C}', '\r', ' ', '\U{85}', '\U{A0}', '\U{1680}', '\U{2000}', '\U{2001}', '\U{2002}',
    '\U{2003}', '\U{2004}', '\U{2005}', '\U{2006}', '\U{2007}', '\U{2008}', '\U{2009}', '\U{200A}', '\U{2028}',
    '\U{2029}', '\U{202F}', '\U{205F}', '\U{3000}'
  }

  /** A letter, a digit, `+`, `-` or `.`: section 3.1 of RFC 3986. */
  predicate IsOfScheme(c: char) {
    'a' <= c <= 'z' || 'A' <= c <= 'Z' || '0' <= c <= '9' || c == '+' || c == '-' || c == '.'
  }

  predicate EndsDsn(c: char) {
    c in WHITE_SPACE || c == '/' || c == '?' || c == '#' || c == '\'' || c == '"'
  }

  lemma CharactersAgree(c: char)
    ensures IsSchemeChar(c) <==> IsOfScheme(c)
    ensures IsDelimiter(c) <==> EndsDsn(c)
  {
    if 0x2000 <= c as int <= 0x200A {
      assert c in WHITE_SPACE;
    }
  }

  predicate SeparatorAt(s: string, j: nat) {
    j + 3 <= |s| && s[j] == ':' && s[j + 1] == '/' && s[j + 2] == '/'
  }

  lemma {:induction false} SeparatorIsFirst(s: string)
    ensures match FindSeparator(s)
            case Some(k) => SeparatorAt(s, k) && forall j: nat :: j < k ==> !SeparatorAt(s, j)
            case None => forall j: nat :: !SeparatorAt(s, j)
  {
    if s != "" && !StartsWithSeparator(s) {
      SeparatorIsFirst(s[1..]);
      forall j: nat | j > 0
        ensures SeparatorAt(s, j) <==> SeparatorAt(s[1..], j - 1)
      {
      }
    }
  }

  /** Text, perhaps none, without `://`, and a scheme: together they end where the separator begins. */
  lemma SchemeIsFound(before: string, scheme: string)
    requires forall j: nat :: !SeparatorAt(before, j)
    requires scheme != "" && forall i :: 0 <= i < |scheme| ==> IsOfScheme(scheme[i])
    ensures IsHead(before + scheme + "://") && HasScheme(before + scheme + "://")
  {
    hide FindSeparator;
    var word := before + scheme;
    var h := word + "://";
    SeparatorIsFirst(h);
    assert SeparatorAt(h, |word|);
    forall j: nat | j < |word|
      ensures !SeparatorAt(h, j)
    {
      assert j + 3 <= |before| ==> !SeparatorAt(before, j);
      assert |before| <= j + 2 < |word| ==> h[j + 2] == scheme[j + 2 - |before|];
      assert h[|word| - 1] == scheme[|scheme| - 1];
    }
    assert h[..|h| - 3] == word;
    CharactersAgree(scheme[|scheme| - 1]);
    assert word[|word| - 1] == scheme[|scheme| - 1];
  }

  lemma MaskUpToHost(user: string, host: string)
    requires '@' !in host
    ensures Mask(user + "@" + host) == "***@" + host
  {
    var a := user + "@" + host;
    assert a[|user|] == '@' && a[|user|..] == "@" + host;
    assert LastAt(a) == Some(|user|) by {
      assert forall i :: |user| < i < |a| ==> a[i] == host[i - |user| - 1];
    }
  }

  /**
    Whatever stands between scheme and host is masked: in any text, behind anything that holds no `://`,
    and whatever the credentials are -- colons, `@` and percent signs included.
   */
  lemma CredentialsAreMasked(before: string, scheme: string, user: string, host: string, t: string)
    requires forall j: nat :: !SeparatorAt(before, j)
    requires scheme != "" && forall i :: 0 <= i < |scheme| ==> IsOfScheme(scheme[i])
    requires forall i :: 0 <= i < |user| ==> !EndsDsn(user[i])
    requires forall i :: 0 <= i < |host| ==> !EndsDsn(host[i]) && host[i] != '@'
    requires t == "" || EndsDsn(t[0])
    ensures Sanitize(before + scheme + "://" + (user + "@" + host + t)) ==
            before + scheme + "://" + ("***@" + host) + Sanitize(t)
  {
    hide IsHead, HasScheme, EndsDsn, IsDelimiter, Mask;
    var h, a := before + scheme + "://", user + "@" + host;
    SchemeIsFound(before, scheme);
    forall i | 0 <= i < |a|
      ensures !IsDelimiter(a[i])
    {
      CharactersAgree(a[i]);
      AtIsNoDelimiter();
      assert a[i] == if i < |user| then user[i] else if i == |user| then '@' else host[i - |user| - 1];
    }
    if t != "" {
      CharactersAgree(t[0]);
    }
    Stretch(h, a, t);
    MaskUpToHost(user, host);
  }

  lemma AtIsNoDelimiter()
    ensures !IsDelimiter('@')
  {
  }

  /** An instance: user, password, host and database. */
  lemma PasswordIsMasked()
    ensures Sanitize("pg://u:p@h/d") == "pg://***@h/d"
  {
    hide Sanitize;
    assert !EndsDsn('u') && !EndsDsn(':') && !EndsDsn('p') && !EndsDsn('h') && EndsDsn('/');
    CredentialsAreMasked("", "pg", "u:p", "h", "/d");
    HarmlessTextsAreUnchanged("/d");
    assert "" + "pg" + "://" + ("u:p" + "@" + "h" + "/d") == "pg://u:p@h/d";
    assert "" + "pg" + "://" + ("***@" + "h") + "/d" == "pg://***@h/d";
  }

  // ----- agreement with the single-value form -----

  function Redact(s: string): string {
    match FindSeparator(s)
    case None => "***"
    case Some(pos) =>
      var after := s[pos + 3..];
      match FirstAt(after)
      case Some(at) => s[..pos] + "://" + "***@" + after[at + 1..]
      case None => s
  }

  lemma {:induction false} SchemeHasNoSeparator(scheme: string, t: string)
    requires forall i :: 0 <= i < |scheme| ==> IsSchemeChar(scheme[i])
    requires StartsWithSeparator(t)
    ensures FindSeparator(scheme + t) == Some(|scheme|)
  {
    var s := scheme + t;
    if scheme == "" {
      assert s == t;
    } else {
      assert s[1..] == scheme[1..] + t;
      assert s[0] != ':';
      SchemeHasNoSeparator(scheme[1..], t);
    }
  }

  /** A connection string: scheme, authority, and a tail (path, query, or following text). */
  predicate IsDsn(scheme: string, authority: string, tail: string) {
    && scheme != ""
    && (forall i :: 0 <= i < |scheme| ==> IsSchemeChar(scheme[i]))
    && NoDelimiter(authority) && EmptyOrDelimited(tail)
  }

  lemma SchemeIsHead(scheme: string)
    requires scheme != ""
    requires forall i :: 0 <= i < |scheme| ==> IsSchemeChar(scheme[i])
    ensures IsHead(scheme + "://") && HasScheme(scheme + "://")
  {
    SchemeHasNoSeparator(scheme, "://");
    assert (scheme + "://")[..|scheme|] == scheme;
  }

  lemma RedactForm(h: string, t: string)
    requires IsHead(h)
    ensures Redact(h + t) == h + CutAtFirst(t)
  {
    HeadPlus(h, t);
    HeadEnds(h);
    if FirstAt(t).Some? {
      Regroup(h, "***@", t[FirstAt(t).value + 1..]);
    }
  }

  lemma HeadEnds(h: string)
    requires IsHead(h)
    ensures h == h[..|h| - 3] + "://"
  {
    var tail := h[|h| - 3..];
    assert StartsWithSeparator(tail);
    assert tail == "://";
  }

  /**
    On a connection string whose tail holds no further credentials, the free-text form and the
    single-value form agree exactly when the authority has one `@`, or there is no `@` at all. With
    two they differ: `redact` cuts at the first, `sanitize_dsn` at the last of the authority.
   */
  lemma SanitizeAgreesWithRedact(scheme: string, authority: string, tail: string)
    requires IsDsn(scheme, authority, tail)
    requires Sanitize(tail) == tail
    ensures var s := scheme + "://" + (authority + tail);
            Sanitize(s) == Redact(s) <==>
            (FirstAt(authority).Some? && FirstAt(authority) == LastAt(authority)) || '@' !in authority + tail
  {
    var h, whole := scheme + "://", authority + tail;
    SchemeIsHead(scheme);
    Stretch(h, authority, tail);
    Regroup(h, Mask(authority), tail);
    RedactForm(h, whole);
    SamePrefix(h, Mask(authority) + tail, CutAtFirst(whole));
    CutsAgree(authority, tail);
  }

  function CutAtFirst(whole: string): string {
    match FirstAt(whole)
    case Some(at) => "***@" + whole[at + 1..]
    case None => whole
  }

  /** An instance of the disagreement: a password with an `@` in it. */
  lemma TwoAtsDiffer()
    ensures var s := "pg://" + ("u@p@db" + "");
            Sanitize(s) != Redact(s)
  {
    var authority := "u@p@db";
    assert FirstAt(authority) == Some(1) && LastAt(authority) == Some(3);
    assert "pg" + "://" == "pg://";
    SanitizeAgreesWithRedact("pg", authority, "");
  }

  /** The two cuts compared behind the common head. */
  lemma CutsAgree(a: string, t: string)
    requires NoDelimiter(a) && EmptyOrDelimited(t)
    ensures Mask(a) + t == CutAtFirst(a + t) <==>
            (FirstAt(a).Some? && FirstAt(a) == LastAt(a)) || '@' !in a + t
  {
    if '@' in a {
      CutsInAuthority(a, t);
    } else if '@' in a + t {
      CutInTail(a, t);
    }
  }

  lemma CutsInAuthority(a: string, t: string)
    requires '@' in a
    ensures Mask(a) + t == CutAtFirst(a + t) <==> FirstAt(a) == LastAt(a)
  {
    FirstAtOfConcat(a, t);
    var f, l := FirstAt(a).value, LastAt(a).value;
    assert |Mask(a)| == 3 + |a| - l;
    assert |CutAtFirst(a + t)| == 4 + |a + t| - (f + 1);
    if f == l {
      SameCut("***", "***@", a, t, f);
    }
  }

  lemma SameCut(stars: string, starsAt: string, a: string, t: string, f: nat)
    requires f < |a| && starsAt == stars + [a[f]]
    ensures stars + a[f..] + t == starsAt + (a + t)[f + 1..]
  {
    assert a[f..] == [a[f]] + a[f + 1..];
    assert (a + t)[f + 1..] == a[f + 1..] + t;
  }

  lemma CutInTail(a: string, t: string)
    requires NoDelimiter(a) && EmptyOrDelimited(t) && '@' !in a && '@' in a + t
    ensures Mask(a) + t != CutAtFirst(a + t)
  {
    var whole, y := a + t, CutAtFirst(a + t);
    var at := FirstAt(whole).value;
    assert at >= |a| && t != "" && whole[|a|] == t[0] && t[0] != '@';
    assert at > |a| && |y| == |whole| + 3 - at;
    assert |a| < 3 ==> y[|a|] == '*';
  }

  lemma FirstAtOfConcat(a: string, t: string)
    requires '@' in a
    ensures FirstAt(a + t) == FirstAt(a)
  {
    assert (a + t)[FirstAt(a).value] == '@';
    assert forall i :: 0 <= i < |a| ==> (a + t)[i] == a[i];
  }

  /**
    The single-value form: everything up to the first `@` behind the separator is masked, and a text that is no
    connection string at all is hidden.
   */
  lemma RedactHides(before: string, user: string, rest: string)
    requires forall j: nat :: !SeparatorAt(before + "://", j) || j == |before|
    ensures '@' !in user ==> Redact(before + "://" + (user + "@" + rest)) == before + "://" + ("***@" + rest)
    ensures '@' !in rest ==> Redact(before + "://" + rest) == before + "://" + rest
    ensures Redact(before) == "***"
  {
    var h := before + "://";
    SeparatorIsFirst(h);
    SeparatorIsFirst(before);
    forall j: nat
      ensures SeparatorAt(before, j) ==> SeparatorAt(h, j) && j != |before|
    {
    }
    assert SeparatorAt(h, |before|);
    assert IsHead(h);
    hide FindSeparator;
    RedactForm(h, user + "@" + rest);
    RedactForm(h, rest);
    if '@' !in user {
      CutBehind(user, rest);
    }
  }

  lemma CutBehind(user: string, rest: string)
    requires '@' !in user
    ensures CutAtFirst(user + "@" + rest) == "***@" + rest
  {
    var whole := user + "@" + rest;
    assert whole[|user|] == '@' && forall i :: 0 <= i < |user| ==> whole[i] == user[i];
    assert FirstAt(whole) == Some(|user|);
    assert whole[|user| + 1..] == rest;
  }
}

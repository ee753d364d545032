/**
  Finding and rewriting import specifiers in JS text (src/bridge/import_scan.rs). The scanner knows
  comments, string literals and three keywords; rewriting replaces the literal behind a keyword.
 */
module ImportScan {
  import opened Wrappers
  import opened Text
  import opened Comments

  const KEYWORDS := ["from", "import", "require"]

  predicate IsWordStart(c: char) {
    'a' <= c <= 'z' || 'A' <= c <= 'Z' || c == '_' || c == '$'
  }

  predicate IsWordChar(c: char) {
    IsWordStart(c) || IsAsciiDigit(c)
  }

  /** `is_ascii_whitespace`. */
  predicate IsSpace(c: char) {
    c == ' ' || c == '\t' || c == '\n' || c == '\r' || c as int == 0x0C
  }

  predicate IsStringQuote(c: char) {
    c == '\'' || c == '"' || c == '`'
  }

  predicate StartsComment(s: string) {
    |s| >= 2 && s[0] == '/' && (s[1] == '/' || s[1] == '*')
  }

  // ----- what one construct consumes -----

  /** Position of the quote that closes a literal; a backslash hides the next character. */
  function CloseAt(s: string, q: char): (r: Option<nat>)
    ensures r.Some? ==> r.value < |s| && s[r.value] == q
    decreases |s|
  {
    if s == "" then None
    else if s[0] == '\\' then
      if |s| < 2 then None
      else match CloseAt(s[2..], q) case Some(k) => Some(k + 2) case None => None
    else if s[0] == q then Some(0)
    else match CloseAt(s[1..], q) case Some(k) => Some(k + 1) case None => None
  }

  function SkipString(s: string, q: char): (r: string)
    ensures |r| <= |s|
  {
    match CloseAt(s, q) case Some(k) => s[k + 1..] case None => ""
  }

  function SkipWord(s: string): (r: string)
    ensures |r| <= |s|
    ensures s != "" && IsWordChar(s[0]) ==> |r| < |s|
    ensures r != "" ==> !IsWordChar(r[0])
  {
    if s == "" || !IsWordChar(s[0]) then s else SkipWord(s[1..])
  }

  /** What is left after the comment, literal, word or single character at the front. */
  function Rest(s: string): (r: string)
    requires s != ""
    ensures |r| < |s|
  {
    if StartsComment(s) then (if s[1] == '/' then SkipLine(s[2..]) else SkipBlock(s[2..]))
    else if IsStringQuote(s[0]) then SkipString(s[1..], s[0])
    else if IsWordStart(s[0]) then SkipWord(s)
    else s[1..]
  }

  /** The construct itself. */
  function Eaten(s: string): string
    requires s != ""
  {
    s[..|s| - |Rest(s)|]
  }

  predicate StartsTrivia(s: string) {
    s != "" && (IsSpace(s[0]) || StartsComment(s))
  }

  /** Past white space and comments. */
  function SkipTrivia(s: string): (r: string)
    ensures |r| <= |s|
    ensures !StartsTrivia(r)
    decreases |s|
  {
    if StartsTrivia(s) then SkipTrivia(Rest(s)) else s
  }

  // ----- imports -----

  /** A specifier, and the text after its closing quote. */
  datatype Import = Import(spec: string, rest: string)

  predicate EndsArgument(s: string) {
    s != "" && (s[0] == ')' || s[0] == ',')
  }

  /** The literal at the front of a text; as an argument it must be alone. */
  function LiteralAt(v: string, call: bool): (r: Option<Import>)
    ensures r.Some? ==> |r.value.rest| + |r.value.spec| + 2 <= |v|
  {
    if v == "" || !(v[0] == '\'' || v[0] == '"') then None
    else match CloseAt(v[1..], v[0])
      case None => None
      case Some(k) =>
        var rest := v[1..][k + 1..];
        if call && !EndsArgument(SkipTrivia(rest)) then None else Some(Import(v[1..][..k], rest))
  }

  /** The literal behind a keyword: `from "..."`, `import "..."`, or a call with a lone literal argument. */
  function SpecAfter(word: string, t: string): (r: Option<Import>)
    ensures r.Some? ==> |r.value.rest| + |r.value.spec| + 2 <= |t|
  {
    var u := SkipTrivia(t);
    if u != "" && u[0] == '(' then
      if word == "from" then None else LiteralAt(SkipTrivia(u[1..]), true)
    else LiteralAt(u, false)
  }

  function ImportAt(s: string): (r: Option<Import>)
    requires s != ""
    ensures r.Some? ==> |r.value.rest| + |r.value.spec| + 2 < |s|
  {
    if !IsWordStart(s[0]) then None
    else
      var t := SkipWord(s);
      var word := s[..|s| - |t|];
      if word in KEYWORDS then SpecAfter(word, t) else None
  }

  /** The specifiers of a text, in order. */
  function Specs(s: string): seq<string>
    decreases |s|
  {
    if s == "" then []
    else match ImportAt(s)
      case Some(imp) => [imp.spec] + Specs(imp.rest)
      case None => Specs(Rest(s))
  }

  /** Where the specifier of an import begins. */
  function SpecStart(s: string, imp: Import): nat
    requires |imp.rest| + |imp.spec| + 1 <= |s|
  {
    |s| - |imp.rest| - 1 - |imp.spec|
  }

  /** The quote that closes the specifier of an import, which is also the one that opens it. */
  function QuoteOf(s: string, imp: Import): char
    requires |imp.rest| < |s|
  {
    s[|s| - |imp.rest| - 1]
  }

  /** The quotes of the specifiers of a text, in order. */
  function Quotes(s: string): (r: seq<char>)
    ensures |r| == |Specs(s)|
    decreases |s|
  {
    if s == "" then []
    else match ImportAt(s)
      case Some(imp) => [QuoteOf(s, imp)] + Quotes(imp.rest)
      case None => Quotes(Rest(s))
  }

  /** The text with every specifier mapped. */
  function Rewrite(s: string, f: string -> string): string
    decreases |s|
  {
    if s == "" then ""
    else match ImportAt(s)
      case Some(imp) =>
        s[..SpecStart(s, imp)] + f(imp.spec) + [QuoteOf(s, imp)] + Rewrite(imp.rest, f)
      case None => Eaten(s) + Rewrite(Rest(s), f)
  }

  function MapSpecs(specs: seq<string>, f: string -> string): (r: seq<string>)
    ensures |r| == |specs|
  {
    if specs == [] then [] else [f(specs[0])] + MapSpecs(specs[1..], f)
  }

  // ----- locality: what a construct consumes does not depend on what follows -----

  /** Both empty, or with the same first character. */
  predicate SameHead(t: string, r: string) {
    if t == "" then r == "" else r != "" && r[0] == t[0]
  }

  lemma {:induction false} CloseAtLocal(p: string, y: string, q: char, r: string)
    requires p != "" && CloseAt(p + y, q) == Some(|p| - 1)
    ensures CloseAt(p + r, q) == Some(|p| - 1)
    decreases |p|
  {
    if p[0] == '\\' {
      assert (p + y)[2..] == p[2..] + y && (p + r)[2..] == p[2..] + r;
      CloseAtLocal(p[2..], y, q, r);
    } else if p[0] != q {
      assert (p + y)[1..] == p[1..] + y && (p + r)[1..] == p[1..] + r;
      CloseAtLocal(p[1..], y, q, r);
    }
  }

  lemma {:induction false} SkipLineLocal(p: string, y: string, r: string)
    requires SkipLine(p + y) == y && SameHead(y, r)
    ensures SkipLine(p + r) == r
  {
    if p == "" {
      assert p + y == y && p + r == r;
    } else {
      assert (p + y)[1..] == p[1..] + y && (p + r)[1..] == p[1..] + r;
      SkipLineLocal(p[1..], y, r);
    }
  }

  lemma {:induction false} SkipBlockLocal(p: string, y: string, r: string)
    requires y != "" && SkipBlock(p + y) == y && SameHead(y, r)
    ensures SkipBlock(p + r) == r
  {
    SkipBlockConsumes(p + y);
    if p[0] == '*' && p[1] == '/' {
      assert (p + y)[2..] == p[2..] + y && (p + r)[2..] == p[2..] + r;
    } else {
      assert (p + y)[1..] == p[1..] + y && (p + r)[1..] == p[1..] + r;
      SkipBlockLocal(p[1..], y, r);
    }
  }

  lemma {:induction false} SkipBlockConsumes(s: string)
    requires SkipBlock(s) != ""
    ensures |s| - |SkipBlock(s)| >= 2
  {
    if !(s[0] == '*' && s[1] == '/') {
      SkipBlockConsumes(s[1..]);
    }
  }

  lemma {:induction false} SkipWordLocal(p: string, y: string, r: string)
    requires SkipWord(p + y) == y && SameHead(y, r)
    ensures SkipWord(p + r) == r
  {
    if p == "" {
      assert p + y == y && p + r == r;
    } else {
      assert (p + y)[1..] == p[1..] + y && (p + r)[1..] == p[1..] + r;
      SkipWordLocal(p[1..], y, r);
    }
  }

  lemma RestLocalComment(p: string, y: string, r: string)
    requires p != "" && StartsComment(p + y) && Rest(p + y) == y && SameHead(y, r) && y != ""
    ensures StartsComment(p + r) && Rest(p + r) == r
  {
    assert |p| >= 2;
    assert (p + y)[2..] == p[2..] + y && (p + r)[2..] == p[2..] + r;
    if p[1] == '/' {
      SkipLineLocal(p[2..], y, r);
    } else {
      SkipBlockLocal(p[2..], y, r);
    }
  }

  lemma SkipStringLocal(p: string, y: string, q: char, r: string)
    requires y != "" && SkipString(p + y, q) == y
    ensures SkipString(p + r, q) == r
  {
    hide CloseAt;
    var k := CloseAt(p + y, q).value;
    assert k + 1 == |p|;
    CloseAtLocal(p, y, q, r);
    assert (p + r)[k + 1..] == r;
  }

  lemma RestLocalString(p: string, y: string, r: string)
    requires p != "" && IsStringQuote(p[0]) && Rest(p + y) == y && y != ""
    ensures Rest(p + r) == r
  {
    assert (p + y)[1..] == p[1..] + y && (p + r)[1..] == p[1..] + r;
    assert (p + y)[0] == p[0] == (p + r)[0];
    hide SkipString;
    SkipStringLocal(p[1..], y, p[0], r);
  }

  /** Replacing what follows a construct by something with the same first character keeps the construct. */
  lemma RestLocal(p: string, y: string, r: string)
    requires p != "" && Rest(p + y) == y && SameHead(y, r)
    ensures Rest(p + r) == r && (StartsComment(p + r) <==> StartsComment(p + y))
  {
    if y == "" {
      assert r == y;
    } else if StartsComment(p + y) {
      RestLocalComment(p, y, r);
    } else {
      assert !StartsComment(p + r);
      if IsStringQuote(p[0]) {
        RestLocalString(p, y, r);
      } else if IsWordStart(p[0]) {
        SkipWordLocal(p, y, r);
      } else {
        assert (p + y)[1..] == p[1..] + y && (p + r)[1..] == p[1..] + r;
      }
    }
  }

  lemma {:induction false} SkipLineIsSuffix(s: string)
    ensures s[|s| - |SkipLine(s)|..] == SkipLine(s)
  {
    if s != "" && s[0] != '\n' {
      SkipLineIsSuffix(s[1..]);
    }
  }

  lemma {:induction false} SkipBlockIsSuffix(s: string)
    ensures s[|s| - |SkipBlock(s)|..] == SkipBlock(s)
  {
    if |s| >= 2 && !(s[0] == '*' && s[1] == '/') {
      SkipBlockIsSuffix(s[1..]);
    }
  }

  lemma {:induction false} SkipWordIsSuffix(s: string)
    ensures s == s[..|s| - |SkipWord(s)|] + SkipWord(s)
  {
    if s != "" && IsWordChar(s[0]) {
      SkipWordIsSuffix(s[1..]);
    }
  }

  lemma SuffixTail(s: string, k: nat, r: string)
    requires k + |r| <= |s| && s[k..][|s| - k - |r|..] == r
    ensures s[|s| - |r|..] == r
  {
  }

  lemma StringIsSuffix(s: string)
    requires s != "" && Rest(s) == SkipString(s[1..], s[0])
    ensures s[|s| - |Rest(s)|..] == Rest(s)
  {
    SuffixTail(s, 1, SkipString(s[1..], s[0]));
  }

  lemma CommentIsSuffix(s: string)
    requires StartsComment(s)
    ensures s[|s| - |Rest(s)|..] == Rest(s)
  {
    hide SkipLine, SkipBlock;
    if s[1] == '/' {
      SkipLineIsSuffix(s[2..]);
      SuffixTail(s, 2, SkipLine(s[2..]));
    } else {
      SkipBlockIsSuffix(s[2..]);
      SuffixTail(s, 2, SkipBlock(s[2..]));
    }
  }

  lemma RestIsSuffix(s: string)
    requires s != ""
    ensures s == Eaten(s) + Rest(s) && Eaten(s) != ""
  {
    assert s[|s| - |Rest(s)|..] == Rest(s) by {
      if StartsComment(s) {
        CommentIsSuffix(s);
      } else if IsStringQuote(s[0]) {
        StringIsSuffix(s);
      } else if IsWordStart(s[0]) {
        SkipWordIsSuffix(s);
      }
    }
    hide Rest;
  }

  lemma {:induction false} TriviaIsSuffix(s: string)
    ensures s[|s| - |SkipTrivia(s)|..] == SkipTrivia(s)
    decreases |s|
  {
    if StartsTrivia(s) {
      RestIsSuffix(s);
      TriviaIsSuffix(Rest(s));
    }
  }

  // ----- rewriting and the scanner -----

  lemma RewriteKeepsHead(s: string, f: string -> string)
    ensures SameHead(s, Rewrite(s, f))
  {
  }

  /** Where no import stands, rewriting starts behind the construct. */
  lemma RewriteBehind(s: string, f: string -> string)
    requires s != "" && ImportAt(s).None?
    ensures var s' := Rewrite(s, f);
            && s' != "" && s'[0] == s[0] && s' == Eaten(s) + Rewrite(Rest(s), f)
            && Rest(s') == Rewrite(Rest(s), f) && (StartsComment(s') <==> StartsComment(s))
  {
    RewriteKeepsHead(Rest(s), f);
    RestIsSuffix(s);
    RestLocal(Eaten(s), Rest(s), Rewrite(Rest(s), f));
  }

  /** Rewriting commutes with skipping white space and comments. */
  lemma {:induction false} RewriteSkipsTrivia(s: string, f: string -> string)
    ensures SkipTrivia(Rewrite(s, f)) == Rewrite(SkipTrivia(s), f)
    decreases |s|
  {
    if s != "" {
      if StartsTrivia(s) {
        assert ImportAt(s).None?;
        hide ImportAt, Rest, Rewrite;
        RewriteBehind(s, f);
        RewriteSkipsTrivia(Rest(s), f);
      } else {
        RewriteStartsNoTrivia(s, f);
      }
    }
  }

  lemma RewriteStartsNoTrivia(s: string, f: string -> string)
    requires s != "" && !StartsTrivia(s)
    ensures !StartsTrivia(Rewrite(s, f))
  {
    RewriteKeepsHead(s, f);
    if s[0] == '/' {
      assert ImportAt(s).None?;
      RewriteBehind(s, f);
    }
  }

  /** Text that can stand between these quotes: it does not end the literal early, nor hide its end. */
  predicate ClosesIn(g: string, q: char) {
    CloseAt(g + [q], q) == Some(|g|)
  }

  /** Text that can stand between single and between double quotes. */
  predicate Fits(g: string) {
    ClosesIn(g, '\'') && ClosesIn(g, '"')
  }

  lemma ClosesAnywhere(g: string, q: char, r: string)
    ensures CloseAt(g + [q] + r, q) == Some(|g|) <==> ClosesIn(g, q)
  {
    var p := g + [q];
    assert p + "" == p;
    if CloseAt(p, q) == Some(|g|) {
      CloseAtLocal(p, "", q, r);
    }
    if CloseAt(p + r, q) == Some(|g|) {
      CloseAtLocal(p, r, q, "");
    }
  }

  /** A literal at the front: quote, contents, quote, rest. */
  lemma LiteralParts(v: string, k: nat)
    requires v != "" && CloseAt(v[1..], v[0]) == Some(k)
    ensures v == [v[0]] + v[1..][..k] + [v[0]] + v[1..][k + 1..]
  {
    hide CloseAt;
    SplitAround(v[1..], k);
    FrontAgain(v, v[1..][..k], v[1..][k], v[1..][k + 1..]);
  }

  lemma SplitAround(w: string, k: nat)
    requires k < |w|
    ensures w == w[..k] + [w[k]] + w[k + 1..]
  {
  }

  lemma FrontAgain(v: string, a: string, c: char, b: string)
    requires v != "" && v[1..] == a + [c] + b
    ensures v == [v[0]] + a + [c] + b
  {
    assert v == [v[0]] + v[1..];
  }

  function Literal(q: char, spec: string, rest: string): string {
    [q] + spec + [q] + rest
  }

  lemma LiteralCloses(v: string, k: nat, g: string, r: string)
    requires v != "" && (v[0] == '\'' || v[0] == '"') && CloseAt(v[1..], v[0]) == Some(k)
    requires g == v[1..][..k] || ClosesIn(g, v[0])
    ensures var w := Literal(v[0], g, r)[1..];
            CloseAt(w, v[0]) == Some(|g|) && w[..|g|] == g && w[|g| + 1..] == r
  {
    var w := Literal(v[0], g, r)[1..];
    assert w == g + [v[0]] + r;
    if ClosesIn(g, v[0]) {
      ClosesAnywhere(g, v[0], r);
    } else {
      assert v[1..] == (g + [v[0]]) + v[1..][k + 1..];
      CloseAtLocal(g + [v[0]], v[1..][k + 1..], v[0], r);
    }
  }

  /** A literal that no keyword introduces is left alone. */
  lemma RewriteKeepsLiteral(v: string, f: string -> string)
    requires v != "" && IsStringQuote(v[0])
    ensures match CloseAt(v[1..], v[0])
            case None => Rewrite(v, f) == v
            case Some(k) => Rewrite(v, f) == Literal(v[0], v[1..][..k], Rewrite(v[1..][k + 1..], f))
  {
    assert ImportAt(v).None?;
    LiteralRest(v);
    RestIsSuffix(v);
    hide ImportAt, CloseAt, Rest;
    if CloseAt(v[1..], v[0]).None? {
      assert v == Eaten(v) + "" == Eaten(v);
    } else {
      hide Eaten;
      assert Rewrite(v, f) == Eaten(v) + Rewrite(Rest(v), f);
    }
  }

  lemma LiteralRest(v: string)
    requires v != "" && IsStringQuote(v[0])
    ensures match CloseAt(v[1..], v[0])
            case None => Rest(v) == ""
            case Some(k) => k + 2 <= |v| && Rest(v) == v[1..][k + 1..] && Eaten(v) == [v[0]] + v[1..][..k] + [v[0]]
  {
    if CloseAt(v[1..], v[0]).Some? {
      LiteralParts(v, CloseAt(v[1..], v[0]).value);
    }
  }

  lemma RewriteKeepsCharacter(u: string, f: string -> string)
    requires u != "" && u[0] == '('
    ensures Rewrite(u, f) == "(" + Rewrite(u[1..], f)
  {
    assert ImportAt(u).None? && Rest(u) == u[1..];
    assert u[..1] == "(";
  }

  lemma LiteralRefused(w: string, k: nat, r: string)
    requires w != "" && CloseAt(w[1..], w[0]) == Some(k) && w[1..][k + 1..] == r
    ensures !EndsArgument(SkipTrivia(r)) ==> LiteralAt(w, true).None?
    ensures LiteralAt(w, true).None? && (w[0] == '\'' || w[0] == '"') ==> !EndsArgument(SkipTrivia(r))
  {
    hide SkipTrivia, EndsArgument, CloseAt;
  }

  lemma NoLiteralAfterRewrite(v: string, call: bool, f: string -> string)
    requires LiteralAt(v, call).None?
    ensures LiteralAt(Rewrite(v, f), call).None?
  {
    RewriteKeepsHead(v, f);
    if v != "" && (v[0] == '\'' || v[0] == '"') {
      RewriteKeepsLiteral(v, f);
      if CloseAt(v[1..], v[0]).Some? {
        assert call;
        var k := CloseAt(v[1..], v[0]).value;
        var rest := v[1..][k + 1..];
        hide LiteralAt, Rewrite, CloseAt, SkipTrivia;
        LiteralRefused(v, k, rest);
        RewriteSkipsTrivia(rest, f);
        RewriteKeepsHead(SkipTrivia(rest), f);
        LiteralCloses(v, k, v[1..][..k], Rewrite(rest, f));
        LiteralRefused(Literal(v[0], v[1..][..k], Rewrite(rest, f)), k, Rewrite(rest, f));
      }
    }
  }

  /** Where no specifier follows a keyword, none follows after rewriting the rest of the text. */
  lemma NoSpecAfterRewrite(word: string, t: string, f: string -> string)
    requires SpecAfter(word, t).None?
    ensures SpecAfter(word, Rewrite(t, f)).None?
  {
    hide LiteralAt, SkipTrivia;
    var u := SkipTrivia(t);
    RewriteSkipsTrivia(t, f);
    RewriteKeepsHead(u, f);
    if u != "" && u[0] == '(' {
      RewriteKeepsCharacter(u, f);
      RewriteSkipsTrivia(u[1..], f);
      hide Rewrite;
      assert Rewrite(u, f)[1..] == Rewrite(u[1..], f);
      if word != "from" {
        NoLiteralAfterRewrite(SkipTrivia(u[1..]), true, f);
      }
    } else {
      hide Rewrite;
      NoLiteralAfterRewrite(u, false, f);
    }
  }

  /** A replacement either keeps the specifier as it is or can stand between its quotes. */
  ghost predicate Replaces(f: string -> string, spec: string, q: char) {
    f(spec) == spec || ClosesIn(f(spec), q)
  }

  /** Every replacement in the text can stand between the quotes of its own import. */
  ghost predicate AllReplace(f: string -> string, s: string) {
    forall i :: 0 <= i < |Specs(s)| ==> Replaces(f, Specs(s)[i], Quotes(s)[i])
  }

  lemma TriviaAgain(a: string, t: string, x: string)
    requires a != "" && StartsTrivia(a + t) && Rest(a + t) == t && SameHead(t, x)
    ensures SkipTrivia(a + x) == SkipTrivia(x)
  {
    RestLocal(a, t, x);
    hide Rest;
    assert (a + x)[0] == (a + t)[0];
  }

  lemma SameHeadBehind(p: string, u: string, x: string)
    requires u != "" && x != "" && x[0] == u[0]
    ensures SameHead(p + u, p + x)
  {
  }

  /** White space and comments end where they ended, in front of the same non-trivial character. */
  lemma {:induction false} TriviaLocal(pre: string, u: string, x: string)
    requires u != "" && u[0] != '/' && x != "" && x[0] == u[0]
    requires SkipTrivia(pre + u) == u
    ensures SkipTrivia(pre + x) == x
    decreases |pre|
  {
    if pre == "" {
      assert pre + u == u && pre + x == x;
      NoTriviaByHead(u, x);
    } else {
      assert StartsTrivia(pre + u);
      var a, pre' := TriviaParts(pre, u);
      hide Rest, StartsTrivia, SkipTrivia;
      Regroup(a, pre', u);
      Regroup(a, pre', x);
      SameHeadBehind(pre', u, x);
      TriviaAgain(a, pre' + u, pre' + x);
      TriviaLocal(pre', u, x);
    }
  }

  lemma TriviaParts(pre: string, u: string) returns (a: string, pre': string)
    requires pre != "" && SkipTrivia(pre + u) == u
    ensures pre == a + pre' && a != "" && Rest(a + (pre' + u)) == pre' + u
    ensures SkipTrivia(pre' + u) == u
  {
    hide Rest, StartsTrivia;
    var t := pre + u;
    RestIsSuffix(t);
    TriviaIsSuffix(Rest(t));
    a := Eaten(t);
    pre' := pre[|a|..];
    assert Rest(t) == pre' + u;
    assert a == pre[..|a|];
    assert a + (pre' + u) == t;
  }

  lemma NoTriviaByHead(u: string, x: string)
    requires u != "" && u[0] != '/' && x != "" && x[0] == u[0] && !StartsTrivia(u)
    ensures !StartsTrivia(x)
  {
  }

  /** Can the text after a literal end the argument list? */
  predicate EndsAlike(a: string, b: string) {
    EndsArgument(SkipTrivia(a)) <==> EndsArgument(SkipTrivia(b))
  }

  /** `from "..."` and `import "..."`: the literal behind white space and comments. */
  lemma PlainImportFrame(word: string, t: string, g: string, r: string) returns (pre: string, q: char)
    requires SpecAfter(word, t).Some? && SkipTrivia(t) != "" && SkipTrivia(t)[0] != '('
    requires g == SpecAfter(word, t).value.spec || ClosesIn(g, QuoteOf(t, SpecAfter(word, t).value))
    ensures t == pre + Literal(q, SpecAfter(word, t).value.spec, SpecAfter(word, t).value.rest)
    ensures SpecAfter(word, pre + Literal(q, g, r)) == Some(Import(g, r))
  {
    hide CloseAt, SkipTrivia, Rest;
    var v := SkipTrivia(t);
    q, pre := v[0], t[..|t| - |v|];
    TriviaIsSuffix(t);
    assert t == pre + v;
    var k := CloseAt(v[1..], q).value;
    LiteralParts(v, k);
    LiteralCloses(v, k, g, r);
    TriviaLocal(pre, v, Literal(q, g, r));
  }

  /** The text begins with a literal that holds the specifier of an import and is followed by its rest. */
  predicate SpecAt(v: string, imp: Import) {
    && v != "" && (v[0] == '\'' || v[0] == '"')
    && CloseAt(v[1..], v[0]) == Some(|imp.spec|)
    && v[1..][..|imp.spec|] == imp.spec && v[1..][|imp.spec| + 1..] == imp.rest
  }

  lemma CallParts(a: string, b: string, u: string, v: string)
    requires u != "" && u[0] == '(' && u[1..] == b + v
    ensures a + u == (a + "(" + b) + v
  {
    assert u == "(" + (b + v);
  }

  lemma CallAgain(word: string, t: string, g: string, r: string)
    requires word != "from" && SkipTrivia(t) != "" && SkipTrivia(t)[0] == '('
    requires SpecAt(SkipTrivia(SkipTrivia(t)[1..]), Import(g, r)) && EndsArgument(SkipTrivia(r))
    ensures SpecAfter(word, t) == Some(Import(g, r))
  {
    hide CloseAt, SkipTrivia, EndsArgument;
  }

  lemma CallLiteral(word: string, t: string)
    requires SpecAfter(word, t).Some? && SkipTrivia(t) != "" && SkipTrivia(t)[0] == '('
    ensures SpecAt(SkipTrivia(SkipTrivia(t)[1..]), SpecAfter(word, t).value)
    ensures word != "from" && EndsArgument(SkipTrivia(SpecAfter(word, t).value.rest))
  {
    hide CloseAt, SkipTrivia, EndsArgument;
  }

  lemma CallSplit(t: string) returns (a: string, b: string)
    requires SkipTrivia(t) != "" && SkipTrivia(t)[0] == '('
    ensures var v := SkipTrivia(SkipTrivia(t)[1..]);
            && t == a + "(" + b + v && SkipTrivia(b + v) == v
            && SkipTrivia(a + ("(" + (b + v))) == "(" + (b + v)
  {
    hide SkipTrivia;
    var u := SkipTrivia(t);
    var v := SkipTrivia(u[1..]);
    a, b := t[..|t| - |u|], u[1..][..|u| - 1 - |v|];
    TriviaIsSuffix(t);
    TriviaIsSuffix(u[1..]);
    assert t == a + u && u[1..] == b + v;
    assert u == "(" + (b + v);
    CallParts(a, b, u, v);
  }

  /** `import("...")` and `require("...")`: the lone literal of an argument list. */
  lemma CallFrame(word: string, t: string, g: string, r: string) returns (pre: string, q: char)
    requires SpecAfter(word, t).Some? && SkipTrivia(t) != "" && SkipTrivia(t)[0] == '('
    requires g == SpecAfter(word, t).value.spec || ClosesIn(g, QuoteOf(t, SpecAfter(word, t).value))
    requires EndsAlike(SpecAfter(word, t).value.rest, r)
    ensures t == pre + Literal(q, SpecAfter(word, t).value.spec, SpecAfter(word, t).value.rest)
    ensures SpecAfter(word, pre + Literal(q, g, r)) == Some(Import(g, r))
  {
    var v := SkipTrivia(SkipTrivia(t)[1..]);
    var a, b := CallSplit(t);
    CallLiteral(word, t);
    q := v[0];
    pre := a + "(" + b;
    var imp := SpecAfter(word, t).value;
    hide CloseAt, SkipTrivia, EndsArgument, StartsTrivia, SpecAfter, ClosesIn, QuoteOf;
    LiteralParts(v, |imp.spec|);
    QuoteOfLiteral(pre, q, imp);
    LiteralCloses(v, |imp.spec|, g, r);
    var lit := Literal(q, g, r);
    assert v == Literal(q, imp.spec, imp.rest);
    hide Literal;
    TriviaLocal(b, v, lit);
    var u := "(" + (b + lit);
    TriviaLocal(a, "(" + (b + v), u);
    CallParts(a, b, u, lit);
    assert u[1..] == b + lit;
    CallAgain(word, a + u, g, r);
  }

  lemma RewriteEndsAlike(rest: string, f: string -> string)
    ensures EndsAlike(rest, Rewrite(rest, f))
  {
    RewriteSkipsTrivia(rest, f);
    hide SkipTrivia;
    RewriteKeepsHead(SkipTrivia(rest), f);
  }

  /** An import at the front of a text, taken apart, and put together again around a new specifier. */
  lemma ImportFrame(s: string, f: string -> string) returns (pre: string, q: char)
    requires s != "" && ImportAt(s).Some?
    requires Replaces(f, ImportAt(s).value.spec, QuoteOf(s, ImportAt(s).value))
    ensures var imp := ImportAt(s).value;
            var s' := pre + Literal(q, f(imp.spec), Rewrite(imp.rest, f));
            && s == pre + Literal(q, imp.spec, imp.rest) && s' != ""
            && ImportAt(s') == Some(Import(f(imp.spec), Rewrite(imp.rest, f)))
            && Rewrite(s, f) == s'
  {
    hide ImportAt, Rewrite, EndsAlike, Literal;
    var imp := ImportAt(s).value;
    RewriteEndsAlike(imp.rest, f);
    pre, q := ImportParts(s, f(imp.spec), Rewrite(imp.rest, f));
    RewriteOfFrame(s, pre, q, f);
  }

  lemma WordAndSpec(s: string) returns (word: string, t: string)
    requires s != "" && ImportAt(s).Some?
    ensures s == word + t && t == SkipWord(s) && SpecAfter(word, t) == ImportAt(s)
    ensures QuoteOf(s, ImportAt(s).value) == QuoteOf(t, ImportAt(s).value)
  {
    hide SpecAfter, SkipWord, QuoteOf;
    t := SkipWord(s);
    word := s[..|s| - |t|];
    SkipWordIsSuffix(s);
    QuoteOfSuffix(word, t, ImportAt(s).value);
  }

  lemma QuoteOfSuffix(pre: string, t: string, imp: Import)
    requires |imp.rest| < |t|
    ensures QuoteOf(pre + t, imp) == QuoteOf(t, imp)
  {
  }

  lemma QuoteOfLiteral(pre: string, q: char, imp: Import)
    ensures QuoteOf(pre + Literal(q, imp.spec, imp.rest), imp) == q
  {
  }

  lemma ImportParts(s: string, g: string, r: string) returns (pre: string, q: char)
    requires s != "" && ImportAt(s).Some? && EndsAlike(ImportAt(s).value.rest, r)
    requires g == ImportAt(s).value.spec || ClosesIn(g, QuoteOf(s, ImportAt(s).value))
    ensures s == pre + Literal(q, ImportAt(s).value.spec, ImportAt(s).value.rest)
    ensures var s' := pre + Literal(q, g, r); s' != "" && ImportAt(s') == Some(Import(g, r))
  {
    hide SpecAfter, Literal, ImportAt, ClosesIn, EndsAlike, SkipWord;
    var word, t := WordAndSpec(s);
    var tail: string;
    tail, q := Frame(word, t, g, r);
    pre := word + tail;
    FrameOfKeyword(s, word, tail, q, g, r);
  }

  lemma FrameOfKeyword(s: string, word: string, tail: string, q: char, g: string, r: string)
    requires s != "" && ImportAt(s).Some? && s == word + SkipWord(s)
    requires SkipWord(s) == tail + Literal(q, ImportAt(s).value.spec, ImportAt(s).value.rest)
    requires SpecAfter(word, tail + Literal(q, g, r)) == Some(Import(g, r))
    ensures s == (word + tail) + Literal(q, ImportAt(s).value.spec, ImportAt(s).value.rest)
    ensures var s' := (word + tail) + Literal(q, g, r);
            s' != "" && ImportAt(s') == Some(Import(g, r))
  {
    hide SpecAfter, SkipWord;
    var imp, t, t' := ImportAt(s).value, SkipWord(s), tail + Literal(q, g, r);
    FrameHead(tail, q, imp.spec, imp.rest, g, r);
    SkipWordLocal(word, t, t');
    hide Literal;
    assert (word + t')[..|word|] == word == s[..|s| - |t|];
    assert (word + tail) + Literal(q, g, r) == word + t';
    assert (word + t')[0] == s[0];
  }

  lemma FrameHead(tail: string, q: char, spec: string, rest: string, g: string, r: string)
    ensures SameHead(tail + Literal(q, spec, rest), tail + Literal(q, g, r))
  {
  }

  lemma FrameSlices(pre: string, q: char, spec: string, rest: string)
    ensures var s := pre + Literal(q, spec, rest);
            && |s| == |pre| + |spec| + |rest| + 2
            && s[..|pre| + 1] == pre + [q] && s[|pre| + 1 + |spec|] == q
  {
  }

  lemma FrameAround(pre: string, q: char, g: string, r: string)
    ensures pre + [q] + g + [q] + r == pre + Literal(q, g, r)
  {
  }

  lemma RewriteOfFrame(s: string, pre: string, q: char, f: string -> string)
    requires s != "" && ImportAt(s).Some?
    requires s == pre + Literal(q, ImportAt(s).value.spec, ImportAt(s).value.rest)
    ensures Rewrite(s, f) == pre + Literal(q, f(ImportAt(s).value.spec), Rewrite(ImportAt(s).value.rest, f))
  {
    var imp := ImportAt(s).value;
    FrameSlices(pre, q, imp.spec, imp.rest);
    FrameAround(pre, q, f(imp.spec), Rewrite(imp.rest, f));
    hide ImportAt, Rest, Literal;
    assert SpecStart(s, imp) == |pre| + 1;
  }

  lemma Frame(word: string, t: string, g: string, r: string) returns (pre: string, q: char)
    requires SpecAfter(word, t).Some?
    requires g == SpecAfter(word, t).value.spec || ClosesIn(g, QuoteOf(t, SpecAfter(word, t).value))
    requires EndsAlike(SpecAfter(word, t).value.rest, r)
    ensures t == pre + Literal(q, SpecAfter(word, t).value.spec, SpecAfter(word, t).value.rest)
    ensures SpecAfter(word, pre + Literal(q, g, r)) == Some(Import(g, r))
  {
    if SkipTrivia(t)[0] == '(' {
      pre, q := CallFrame(word, t, g, r);
    } else {
      pre, q := PlainImportFrame(word, t, g, r);
    }
  }

  /** A construct that is no import is none after rewriting what follows it. */
  lemma NoImportAfterRewrite(s: string, f: string -> string)
    requires s != "" && ImportAt(s).None?
    ensures var s' := Rewrite(s, f);
            s' != "" && ImportAt(s').None? && Rest(s') == Rewrite(Rest(s), f)
  {
    hide SpecAfter, SkipTrivia;
    RewriteBehind(s, f);
    if IsWordStart(s[0]) {
      assert !StartsComment(s) && Rest(s) == SkipWord(s);
      hide Rewrite;
      var t := SkipWord(s);
      var word, t' := s[..|s| - |t|], Rewrite(t, f);
      assert Rewrite(s, f) == word + t' && SkipWord(word + t') == t';
      assert (word + t')[..|word|] == word;
      if word in KEYWORDS {
        NoSpecAfterRewrite(word, t, f);
      }
    }
  }

  lemma AllReplaceParts(s: string, f: string -> string)
    requires s != "" && AllReplace(f, s)
    ensures match ImportAt(s)
            case Some(imp) => Replaces(f, imp.spec, QuoteOf(s, imp)) && AllReplace(f, imp.rest)
            case None => AllReplace(f, Rest(s))
  {
    hide ImportAt, Rest, Replaces;
    if ImportAt(s).Some? {
      var imp := ImportAt(s).value;
      assert Specs(s)[0] == imp.spec && Quotes(s)[0] == QuoteOf(s, imp);
      forall i | 0 <= i < |Specs(imp.rest)|
        ensures Replaces(f, Specs(imp.rest)[i], Quotes(imp.rest)[i])
      {
        assert Specs(s)[i + 1] == Specs(imp.rest)[i] && Quotes(s)[i + 1] == Quotes(imp.rest)[i];
      }
    } else {
      assert Specs(s) == Specs(Rest(s)) && Quotes(s) == Quotes(Rest(s));
    }
  }

  /**
    Scanning the rewritten text finds exactly the rewritten specifiers, in order: no specifier is lost,
    none appears, and nothing else in the text -- comments, strings, calls with computed arguments --
    begins or ceases to look like an import. Each replacement must fit the quotes it is put between.
   */
  lemma {:induction false} SpecsOfRewrite(s: string, f: string -> string)
    requires AllReplace(f, s)
    ensures Specs(Rewrite(s, f)) == MapSpecs(Specs(s), f)
    decreases |s|
  {
    hide ImportAt, Rest, AllReplace, Replaces;
    if s == "" {
    } else if ImportAt(s).Some? {
      var imp := ImportAt(s).value;
      assert Specs(s)[0] == imp.spec && Specs(s)[1..] == Specs(imp.rest);
      AllReplaceParts(s, f);
      var pre, q := ImportFrame(s, f);
      SpecsOfRewrite(imp.rest, f);
    } else {
      NoImportAfterRewrite(s, f);
      AllReplaceParts(s, f);
      SpecsOfRewrite(Rest(s), f);
    }
  }

  /** Where every specifier is kept, the whole text is. */
  lemma {:induction false} KeptSpecifiersKeepTheText(s: string, f: string -> string)
    requires forall i :: 0 <= i < |Specs(s)| ==> f(Specs(s)[i]) == Specs(s)[i]
    ensures Rewrite(s, f) == s
    decreases |s|
  {
    hide ImportAt, Rest, Literal;
    if s == "" {
    } else if ImportAt(s).Some? {
      var imp := ImportAt(s).value;
      assert Specs(s)[0] == imp.spec && Specs(s)[1..] == Specs(imp.rest);
      KeptSpecifiersKeepTheText(imp.rest, f);
      var pre, q := ImportParts(s, imp.spec, imp.rest);
      RewriteOfFrame(s, pre, q, f);
    } else {
      assert Specs(s) == Specs(Rest(s));
      KeptSpecifiersKeepTheText(Rest(s), f);
      RestIsSuffix(s);
    }
  }

  // ----- which replacements are safe -----

  lemma {:induction false} WordIsSkipped(w: string, t: string)
    requires forall i :: 0 <= i < |w| ==> IsWordChar(w[i])
    requires t == "" || !IsWordChar(t[0])
    ensures SkipWord(w + t) == t
  {
    if w == "" {
      assert w + t == t;
    } else {
      assert (w + t)[1..] == w[1..] + t;
      WordIsSkipped(w[1..], t);
    }
  }

  /** `import"..."` with these contents, and nothing else. */
  function LoneImport(q: char, spec: string): string {
    "import" + Literal(q, spec, "")
  }

  lemma LoneImportIsFound(q: char, spec: string)
    requires q == '\'' || q == '"'
    ensures var s, t := LoneImport(q, spec), Literal(q, spec, "");
            s != "" && ImportAt(s) == LiteralAt(t, false) && Rest(s) == t
  {
    hide CloseAt, LiteralAt, SkipWord;
    var t := Literal(q, spec, "");
    WordIsSkipped("import", t);
    assert ("import" + t)[..6] == "import" && KEYWORDS[1] == "import";
    assert SkipTrivia(t) == t;
  }

  /** The lone import is read back exactly when its quote closes where it was meant to. */
  lemma LoneSpecIff(q: char, spec: string)
    requires q == '\'' || q == '"'
    ensures Specs(LoneImport(q, spec)) == [spec] <==> ClosesIn(spec, q)
    ensures ClosesIn(spec, q) ==> ImportAt(LoneImport(q, spec)) == Some(Import(spec, ""))
  {
    hide SkipWord, SkipTrivia, CloseAt;
    var s, t := LoneImport(q, spec), Literal(q, spec, "");
    LoneImportIsFound(q, spec);
    assert t[0] == q && t[1..] == spec + [q];
    match CloseAt(t[1..], q)
    case None =>
      assert Rest(t) == "";
      assert Specs(t) == [];
    case Some(k) =>
      assert Specs(s)[0] == t[1..][..k];
      if k == |spec| {
        assert t[1..][k + 1..] == "";
      }
  }

  /** Replaces every specifier by the same text. */
  function Always(g: string): string -> string {
    spec => g
  }

  lemma RewriteOfLoneImport(q: char, g: string)
    requires q == '\'' || q == '"'
    ensures Rewrite(LoneImport(q, "a"), Always(g)) == LoneImport(q, g)
    ensures Specs(LoneImport(q, "a")) == ["a"]
  {
    var s := LoneImport(q, "a");
    assert ("a" + [q])[1..] == [q];
    assert CloseAt([q], q) == Some(0);
    assert ClosesIn("a", q);
    LoneSpecIff(q, "a");
    hide CloseAt, ImportAt, Specs;
    RewriteOfFrame(s, "import", q, Always(g));
  }

  lemma {:induction false} FittingTextReplaces(s: string, g: string)
    requires Fits(g)
    ensures AllReplace(Always(g), s)
  {
    QuotesAreQuotes(s);
  }

  lemma {:induction false} QuotesAreQuotes(s: string)
    ensures forall i :: 0 <= i < |Quotes(s)| ==> Quotes(s)[i] == '\'' || Quotes(s)[i] == '"'
    decreases |s|
  {
    hide ImportAt, Rest;
    if s == "" {
    } else if ImportAt(s).Some? {
      QuoteOfImport(s);
      QuotesAreQuotes(ImportAt(s).value.rest);
    } else {
      QuotesAreQuotes(Rest(s));
    }
  }

  lemma QuoteOfImport(s: string)
    requires s != "" && ImportAt(s).Some?
    ensures QuoteOf(s, ImportAt(s).value) == '\'' || QuoteOf(s, ImportAt(s).value) == '"'
  {
    hide SpecAfter, ImportAt;
    var word, t := WordAndSpec(s);
    QuoteOfSpec(word, t);
  }

  lemma QuoteOfSpec(word: string, t: string)
    requires SpecAfter(word, t).Some?
    ensures QuoteOf(t, SpecAfter(word, t).value) == '\'' || QuoteOf(t, SpecAfter(word, t).value) == '"'
  {
    hide CloseAt, SkipTrivia;
    var u := SkipTrivia(t);
    TriviaIsSuffix(t);
    if u[0] == '(' {
      TriviaIsSuffix(u[1..]);
    }
  }

  /** A replacement text is safe in every program exactly when it fits between quotes of either kind. */
  lemma SafeExactlyWhenItFits(g: string)
    ensures (forall s :: Specs(Rewrite(s, Always(g))) == MapSpecs(Specs(s), Always(g))) <==> Fits(g)
  {
    hide CloseAt, Rewrite, Specs, LoneImport;
    if Fits(g) {
      hide Fits;
      forall s
        ensures Specs(Rewrite(s, Always(g))) == MapSpecs(Specs(s), Always(g))
      {
        FittingTextReplaces(s, g);
        SpecsOfRewrite(s, Always(g));
      }
    } else {
      var q := if ClosesIn(g, '\'') then '"' else '\'';
      RewriteOfLoneImport(q, g);
      LoneSpecIff(q, g);
      assert MapSpecs(["a"], Always(g)) == [g];
      assert Specs(Rewrite(LoneImport(q, "a"), Always(g))) != MapSpecs(Specs(LoneImport(q, "a")), Always(g));
    }
  }

  // ----- spans and edits: how the host carries the rewriting out -----

  /** A stretch of a text and the text that stands, or shall stand, there. */
  datatype Span = Span(start: nat, end: nat, text: string)

  /** The spans of the specifiers of `s`, a text that begins at position `base`. */
  function Spans(s: string, base: nat): seq<Span>
    decreases |s|
  {
    if s == "" then []
    else match ImportAt(s)
      case Some(imp) =>
        var start := base + SpecStart(s, imp);
        [Span(start, start + |imp.spec|, imp.spec)] + Spans(imp.rest, base + |s| - |imp.rest|)
      case None => Spans(Rest(s), base + |Eaten(s)|)
  }

  /** Spans in order, between `lo` and `hi`, none overlapping the next. */
  ghost predicate Ordered(spans: seq<Span>, lo: nat, hi: nat)
    decreases |spans|
  {
    if spans == [] then lo <= hi
    else lo <= spans[0].start <= spans[0].end && Ordered(spans[1..], spans[0].end, hi)
  }

  lemma ImportIsSuffix(s: string) returns (pre: string, q: char)
    requires s != "" && ImportAt(s).Some?
    ensures s == pre + Literal(q, ImportAt(s).value.spec, ImportAt(s).value.rest)
  {
    hide ImportAt, Literal;
    var imp := ImportAt(s).value;
    pre, q := ImportParts(s, imp.spec, imp.rest);
  }

  ghost predicate Holds(text: string, span: Span, spec: string) {
    span.text == spec && span.start <= span.end <= |text| && text[span.start..span.end] == spec
  }

  lemma SpanOfFrame(p: string, pre: string, q: char, spec: string, rest: string)
    ensures var n := |p| + |pre| + 1;
            Holds(p + (pre + Literal(q, spec, rest)), Span(n, n + |spec|, spec), spec)
    ensures p + (pre + Literal(q, spec, rest)) == (p + pre + [q] + spec + [q]) + rest
  {
    var text := (p + pre + [q]) + spec + ([q] + rest);
    assert p + (pre + Literal(q, spec, rest)) == text;
  }

  /** The spans are ordered, lie inside the text and hold exactly the specifiers. */
  lemma {:induction false} SpansHoldSpecs(p: string, s: string, lo: nat)
    requires lo <= |p|
    ensures Ordered(Spans(s, |p|), lo, |p + s|) && |Spans(s, |p|)| == |Specs(s)|
    ensures forall k :: 0 <= k < |Specs(s)| ==> Holds(p + s, Spans(s, |p|)[k], Specs(s)[k])
    decreases |s|
  {
    hide ImportAt, Rest, Holds;
    if s == "" {
    } else if ImportAt(s).Some? {
      var imp := ImportAt(s).value;
      var pre, q := ImportIsSuffix(s);
      SpanOfFrame(p, pre, q, imp.spec, imp.rest);
      var head := p + pre + [q] + imp.spec + [q];
      SpansHoldSpecs(head, imp.rest, |head| - 1);
      SpansUnfold(s, |p|);
      hide Spans, Specs;
    } else {
      RestIsSuffix(s);
      SpansHoldSpecs(p + Eaten(s), Rest(s), lo);
      assert p + Eaten(s) + Rest(s) == p + s;
    }
  }

  lemma SpansUnfold(s: string, base: nat)
    requires s != "" && ImportAt(s).Some?
    ensures var imp := ImportAt(s).value;
            var start := base + SpecStart(s, imp);
            && Specs(s) == [imp.spec] + Specs(imp.rest)
            && Spans(s, base) == [Span(start, start + |imp.spec|, imp.spec)] + Spans(imp.rest, base + |s| - |imp.rest|)
  {
  }

  lemma SpansStep(src: string, i: nat)
    requires i < |src|
    ensures match ImportAt(src[i..])
            case Some(imp) =>
              var end := |src| - |imp.rest| - 1;
              && i <= end - |imp.spec| && end < |src|
              && Spans(src[i..], i) == [Span(end - |imp.spec|, end, imp.spec)] + Spans(src[end + 1..], end + 1)
            case None =>
              var next := i + |Eaten(src[i..])|;
              i < next <= |src| && Spans(src[i..], i) == Spans(src[next..], next)
  {
    hide ImportAt, Rest;
    var s := src[i..];
    if ImportAt(s).Some? {
      var pre, q := ImportIsSuffix(s);
      assert src[|src| - |ImportAt(s).value.rest|..] == ImportAt(s).value.rest;
    } else {
      RestIsSuffix(s);
      assert src[i + |Eaten(s)|..] == Rest(s);
    }
  }

  /** `specifier_spans`: one pass over the text. */
  method SpecifierSpans(src: string) returns (out: seq<Span>)
    ensures out == Spans(src, 0)
  {
    hide Spans, ImportAt, Rest;
    out := [];
    var i := 0;
    assert src[0..] == src;
    while i < |src|
      invariant i <= |src|
      invariant Spans(src, 0) == out + Spans(src[i..], i)
    {
      SpansStep(src, i);
      var imp := ImportAt(src[i..]);
      if imp.Some? {
        var end := |src| - |imp.value.rest| - 1;
        out := out + [Span(end - |imp.value.spec|, end, imp.value.spec)];
        i := end + 1;
      } else {
        i := i + |Eaten(src[i..])|;
      }
    }
    NoSpansAtEnd(src);
  }

  lemma NoSpansAtEnd(src: string)
    ensures Spans(src[|src|..], |src|) == []
  {
  }

  /** What a specifier becomes: an error, a new specifier, or None to leave it alone. */
  type Fix<!E> = string -> Result<Option<string>, E>

  function Total<E>(fix: Fix<E>): string -> string {
    spec => var r := fix(spec); if r.Ok? && r.value.Some? then r.value.value else spec
  }

  function Edits<E>(spans: seq<Span>, fix: Fix<E>): seq<Span>
    decreases |spans|
  {
    if spans == [] then []
    else
      var r := fix(spans[0].text);
      var rest := Edits(spans[1..], fix);
      if r.Ok? && r.value.Some? then [spans[0].(text := r.value.value)] + rest else rest
  }

  lemma {:induction false} OrderedWidens(spans: seq<Span>, lo: nat, lo': nat, hi: nat)
    requires lo' <= lo && Ordered(spans, lo, hi)
    ensures Ordered(spans, lo', hi)
  {
  }

  lemma {:induction false} EditsOrdered<E>(spans: seq<Span>, fix: Fix<E>, lo: nat, hi: nat)
    requires Ordered(spans, lo, hi)
    ensures Ordered(Edits(spans, fix), lo, hi)
    decreases |spans|
  {
    if spans != [] {
      EditsOrdered(spans[1..], fix, spans[0].end, hi);
      OrderedWidens(Edits(spans[1..], fix), spans[0].end, lo, hi);
    }
  }

  function Splice(s: string, edit: Span): string
    requires edit.start <= edit.end <= |s|
  {
    s[..edit.start] + edit.text + s[edit.end..]
  }

  /** All edits, the last one first, so that the spans of the others stay where they are. */
  ghost function Apply(src: string, edits: seq<Span>, lo: nat): (r: string)
    requires Ordered(edits, lo, |src|)
    ensures lo <= |src| && src[..lo] <= r
    decreases |edits|
  {
    if edits == [] then src
    else
      var after := Apply(src, edits[1..], edits[0].end);
      assert after[..edits[0].start] == src[..edits[0].end][..edits[0].start] == src[..edits[0].start];
      Splice(after, edits[0])
  }

  lemma {:induction false} ApplyIgnoresBound(src: string, edits: seq<Span>, lo: nat, lo': nat)
    requires Ordered(edits, lo, |src|) && Ordered(edits, lo', |src|)
    ensures Apply(src, edits, lo) == Apply(src, edits, lo')
  {
  }

  lemma SpliceOfFrame(p: string, pre: string, q: char, spec: string, g: string, r: string)
    ensures var n := |p| + |pre| + 1;
            Splice((p + pre + [q] + spec + [q]) + r, Span(n, n + |spec|, g)) == p + (pre + Literal(q, g, r))
    ensures (p + pre + [q] + spec + [q]) + r == p + (pre + Literal(q, spec, r))
  {
    var head, after := p + pre + [q], [q] + r;
    assert (p + pre + [q] + spec + [q]) + r == head + spec + after;
    assert (head + spec + after)[..|head|] == head;
    assert (head + spec + after)[|head| + |spec|..] == after;
    assert p + (pre + Literal(q, g, r)) == head + g + after;
    assert p + (pre + Literal(q, spec, r)) == head + spec + after;
  }

  /** Applying the edits from the last to the first gives the rewritten text. */
  lemma {:induction false} ApplyIsRewrite<E>(p: string, s: string, fix: Fix<E>, lo: nat)
    requires lo <= |p|
    ensures Ordered(Edits(Spans(s, |p|), fix), lo, |p + s|)
    ensures Apply(p + s, Edits(Spans(s, |p|), fix), lo) == p + Rewrite(s, Total(fix))
    decreases |s|
  {
    hide ImportAt, Rest, Splice, Literal, Holds, Ordered;
    SpansHoldSpecs(p, s, lo);
    EditsOrdered(Spans(s, |p|), fix, lo, |p + s|);
    if s == "" {
      assert p + s == p == p + "";
    } else if ImportAt(s).Some? {
      ApplyAtImport(p, s, fix, lo);
    } else {
      RestIsSuffix(s);
      ApplyIsRewrite(p + Eaten(s), Rest(s), fix, lo);
      Regroup(p, Eaten(s), Rest(s));
      Regroup(p, Eaten(s), Rewrite(Rest(s), Total(fix)));
    }
  }

  lemma ApplyAtImport<E>(p: string, s: string, fix: Fix<E>, lo: nat)
    requires lo <= |p| && s != "" && ImportAt(s).Some?
    requires Ordered(Edits(Spans(s, |p|), fix), lo, |p + s|)
    ensures Apply(p + s, Edits(Spans(s, |p|), fix), lo) == p + Rewrite(s, Total(fix))
    decreases |s|, 0
  {
    hide ImportAt, Rest, Splice, Literal, Holds, Rewrite;
    var imp := ImportAt(s).value;
    var pre, q := ImportIsSuffix(s);
    var g, r := Total(fix)(imp.spec), Rewrite(imp.rest, Total(fix));
    var head := p + pre + [q] + imp.spec + [q];
    SpliceOfFrame(p, pre, q, imp.spec, imp.spec, imp.rest);
    SpliceOfFrame(p, pre, q, imp.spec, g, r);
    RewriteOfFrame(s, pre, q, Total(fix));
    SpansUnfold(s, |p|);
    hide Spans;
    ApplyIsRewrite(head, imp.rest, fix, |head| - 1);
    var later := Edits(Spans(imp.rest, |head|), fix);
    if Edits(Spans(s, |p|), fix) == later {
      ApplyIgnoresBound(p + s, later, lo, |head| - 1);
    }
  }

  lemma EditsStep<E>(spans: seq<Span>, fix: Fix<E>, edits: seq<Span>, i: nat)
    requires i < |spans| && Edits(spans, fix) == edits + Edits(spans[i..], fix)
    ensures var fixed := fix(spans[i].text);
            var now := if fixed.Ok? && fixed.value.Some? then edits + [spans[i].(text := fixed.value.value)] else edits;
            Edits(spans, fix) == now + Edits(spans[i + 1..], fix)
  {
    assert spans[i..][1..] == spans[i + 1..];
  }

  lemma EditsAtEnd<E>(spans: seq<Span>, fix: Fix<E>)
    ensures Edits(spans[|spans|..], fix) == []
  {
  }

  /** The spans of a whole text hold its specifiers, and applying all edits rewrites it. */
  lemma WholeText<E>(src: string, fix: Fix<E>)
    ensures |Spans(src, 0)| == |Specs(src)|
    ensures forall k :: 0 <= k < |Specs(src)| ==> Spans(src, 0)[k].text == Specs(src)[k]
    ensures Ordered(Edits(Spans(src, 0), fix), 0, |src|)
    ensures Apply(src, Edits(Spans(src, 0), fix), 0) == Rewrite(src, Total(fix))
  {
    hide Spans, Specs, Rewrite, Ordered, Apply, Edits;
    assert "" + src == src;
    SpansHoldSpecs("", src, 0);
    assert forall k :: 0 <= k < |Specs(src)| ==> Holds(src, Spans(src, 0)[k], Specs(src)[k]);
    ApplyIsRewrite("", src, fix, 0);
    assert "" + Rewrite(src, Total(fix)) == Rewrite(src, Total(fix));
  }

  /**
    `rewrite_specifiers`: the specifiers are mapped in source order, so the first failing one is
    reported; the edits are then spliced in from the last to the first.
   */
  method RewriteSpecifiers<E>(src: string, fix: Fix<E>) returns (r: Result<string, E>)
    ensures match r
            case Ok(out) =>
              && out == Rewrite(src, Total(fix))
              && forall k :: 0 <= k < |Specs(src)| ==> fix(Specs(src)[k]).Ok?
            case Err(e) =>
              exists k :: 0 <= k < |Specs(src)| && fix(Specs(src)[k]) == Err(e)
                          && forall j :: 0 <= j < k ==> fix(Specs(src)[j]).Ok?
  {
    hide Spans, Specs, Rewrite, Edits, Ordered, Apply;
    WholeText(src, fix);
    var spans := SpecifierSpans(src);
    var edits: seq<Span> := [];
    assert spans[0..] == spans;
    for i := 0 to |spans|
      invariant Edits(spans, fix) == edits + Edits(spans[i..], fix)
      invariant forall j :: 0 <= j < i ==> fix(Specs(src)[j]).Ok?
    {
      EditsStep(spans, fix, edits, i);
      var fixed := fix(spans[i].text);
      if fixed.Err? {
        return Err(fixed.error);
      }
      if fixed.value.Some? {
        edits := edits + [spans[i].(text := fixed.value.value)];
      }
    }
    EditsAtEnd(spans, fix);
    assert edits + [] == edits;
    var out := SpliceAll(src, edits);
    r := Ok(out);
  }

  method SpliceAll(src: string, edits: seq<Span>) returns (out: string)
    requires Ordered(edits, 0, |src|)
    ensures out == Apply(src, edits, 0)
  {
    out := src;
    OrderedFrom(edits, |edits|, 0, |src|);
    for k := |edits| downto 0
      invariant Ordered(edits[k..], Bound(edits, k), |src|) && out == Apply(src, edits[k..], Bound(edits, k))
    {
      OrderedFrom(edits, k, 0, |src|);
      assert edits[k..][1..] == edits[k + 1..];
      out := Splice(out, edits[k]);
    }
    assert edits[0..] == edits;
  }

  /** Where the edits before the given one end. */
  ghost function Bound(edits: seq<Span>, k: nat): nat
    requires k <= |edits|
  {
    if k == 0 then 0 else edits[k - 1].end
  }

  lemma {:induction false} OrderedFrom(edits: seq<Span>, k: nat, lo: nat, hi: nat)
    requires k <= |edits| && Ordered(edits, lo, hi)
    ensures Ordered(edits[k..], if k == 0 then lo else edits[k - 1].end, hi)
    decreases k
  {
    if k > 0 {
      OrderedFrom(edits[1..], k - 1, edits[0].end, hi);
      assert edits[1..][k - 1..] == edits[k..];
    } else {
      assert edits[0..] == edits;
    }
  }
}

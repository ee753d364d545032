/**
  The SQL keyword scanner and the seed gate (oj/src/checks.rs). Comments and quoted literals are
  skipped, words are upper-cased, and every verdict is taken on the resulting token list.
  A text is a sequence of characters; for the byte string of the source, read one byte as one
  character: all characters beyond ASCII are separators, exactly as the bytes of their encoding are.
 */
module SqlLexer {
  import opened Wrappers
  import opened Text
  import opened Comments

  predicate IsWordChar(c: char) {
    IsAsciiAlphanumeric(c) || c == '_' || c == '$'
  }

  predicate IsQuote(c: char) {
    c == '\'' || c == '"'
  }

  function Upper(c: char): char {
    if 'a' <= c <= 'z' then c - 'a' + 'A' else c
  }

  predicate StartsLineComment(s: string) {
    |s| >= 2 && s[0] == '-' && s[1] == '-'
  }

  predicate StartsBlockComment(s: string) {
    |s| >= 2 && s[0] == '/' && s[1] == '*'
  }

  // ----- what one construct consumes -----

  /** From inside a quoted literal to just after its end; a doubled quote stays inside. */
  function SkipQuoted(s: string, q: char): (r: string)
    ensures |r| <= |s|
  {
    if s == "" then ""
    else if s[0] != q then SkipQuoted(s[1..], q)
    else if |s| >= 2 && s[1] == q then SkipQuoted(s[2..], q)
    else s[1..]
  }

  /** What is left after the comment, literal or single character at the front. */
  function Rest(s: string): (r: string)
    requires s != ""
    ensures |r| < |s|
  {
    if StartsLineComment(s) then SkipLine(s[1..])
    else if StartsBlockComment(s) then SkipBlock(s[2..])
    else if IsQuote(s[0]) then SkipQuoted(s[1..], s[0])
    else s[1..]
  }

  // ----- the token list -----

  function Flush(cur: string): seq<string> {
    if cur == "" then [] else [cur]
  }

  /** Tokens of the text, given the word being built. */
  function Lex(s: string, cur: string): seq<string>
    decreases |s|
  {
    if s == "" then Flush(cur)
    else if IsWordChar(s[0]) then Lex(s[1..], cur + [Upper(s[0])])
    else Flush(cur) + Lex(Rest(s), "")
  }

  function Tokens(sql: string): seq<string> {
    Lex(sql, "")
  }

  method SkipQuotedFrom(b: string, start: nat, q: char) returns (i: nat)
    requires start < |b|
    ensures i <= |b| && b[i..] == SkipQuoted(b[start + 1..], q)
  {
    i := start + 1;
    while i < |b|
      invariant start < i <= |b|
      invariant SkipQuoted(b[i..], q) == SkipQuoted(b[start + 1..], q)
    {
      assert b[i..][1..] == b[i + 1..];
      if b[i] == q {
        if i + 1 < |b| && b[i + 1] == q {
          assert b[i..][2..] == b[i + 2..];
          i := i + 2;
          continue;
        }
        return i + 1;
      }
      i := i + 1;
    }
  }

  method SkipBlockFrom(b: string, start: nat) returns (i: nat)
    requires start + 2 <= |b|
    ensures i <= |b| && b[i..] == SkipBlock(b[start + 2..])
  {
    i := start + 2;
    while i + 1 < |b| && !(b[i] == '*' && b[i + 1] == '/')
      invariant start + 2 <= i <= |b|
      invariant SkipBlock(b[i..]) == SkipBlock(b[start + 2..])
    {
      assert b[i..][1..] == b[i + 1..];
      i := i + 1;
    }
    if i + 1 < |b| {
      assert b[i..][2..] == b[i + 2..];
    }
    i := if i + 2 <= |b| then i + 2 else |b|;
  }

  method SkipLineFrom(b: string, start: nat) returns (i: nat)
    requires start < |b| && b[start] != '\n'
    ensures i <= |b| && b[i..] == SkipLine(b[start + 1..])
  {
    i := start;
    while i < |b| && b[i] != '\n'
      invariant start <= i <= |b|
      invariant SkipLine(b[i..]) == SkipLine(b[start..])
    {
      assert b[i..][1..] == b[i + 1..];
      i := i + 1;
    }
    assert b[start..][1..] == b[start + 1..];
  }

  lemma LexOneStep(out: seq<string>, s: string, cur: string)
    requires s != ""
    ensures IsWordChar(s[0]) ==> out + Lex(s, cur) == out + Lex(Rest(s), cur + [Upper(s[0])])
    ensures !IsWordChar(s[0]) ==> out + Lex(s, cur) == (out + Flush(cur)) + Lex(Rest(s), "")
  {
    RestOfWord(s);
    hide Rest, IsWordChar, Flush;
    Regroup(out, Flush(cur), Lex(Rest(s), ""));
  }

  lemma RestOfWord(s: string)
    requires s != ""
    ensures IsWordChar(s[0]) ==> Rest(s) == s[1..]
  {
  }

  /** The index scanner of the source. */
  method CodeTokens(b: string) returns (out: seq<string>)
    ensures out == Tokens(b)
  {
    out := [];
    var cur := "";
    var i := 0;
    while i < |b|
      invariant i <= |b|
      invariant out + Lex(b[i..], cur) == Tokens(b)
      decreases |b| - i
    {
      ghost var s := b[i..];
      LexOneStep(out, s, cur);
      if b[i] == '-' && i + 1 < |b| && b[i + 1] == '-' {
        out, cur := out + Flush(cur), "";
        i := SkipLineFrom(b, i);
      } else if b[i] == '/' && i + 1 < |b| && b[i + 1] == '*' {
        out, cur := out + Flush(cur), "";
        i := SkipBlockFrom(b, i);
      } else if IsQuote(b[i]) {
        out, cur := out + Flush(cur), "";
        i := SkipQuotedFrom(b, i, b[i]);
      } else if IsWordChar(b[i]) {
        cur := cur + [Upper(b[i])];
        i := i + 1;
      } else {
        out, cur := out + Flush(cur), "";
        i := i + 1;
      }
      assert b[i..] == Rest(s);
    }
    out := out + Flush(cur);
  }

  // ----- comments and literals are transparent -----

  /** Does the construct at the front end inside the text? */
  predicate FirstIsClosed(s: string)
    requires s != ""
  {
    if StartsLineComment(s) then '\n' in s
    else if StartsBlockComment(s) then HasBlockEnd(s[2..])
    else if IsQuote(s[0]) then HasQuoteEnd(s[1..], s[0])
    else true
  }

  predicate HasQuoteEnd(s: string, q: char) {
    s != "" &&
    if s[0] != q then HasQuoteEnd(s[1..], q)
    else if |s| >= 2 && s[1] == q then HasQuoteEnd(s[2..], q)
    else true
  }

  /** The scanner reaches the end of the text outside any comment or literal. */
  predicate EndsInCode(s: string)
    decreases |s|
  {
    s == "" || (FirstIsClosed(s) && EndsInCode(Rest(s)))
  }

  /** A character that ends a word and cannot begin or end a comment or literal. */
  predicate IsSeparator(c: char) {
    !IsWordChar(c) && !IsQuote(c) && c != '-' && c != '/'
  }

  /** A position in code, at the start of the text or just after a separator such as white space. */
  predicate AtCodeBoundary(s: string) {
    EndsInCode(s) && (s == "" || IsSeparator(s[|s| - 1]))
  }

  lemma {:induction false} SkipLineExtends(s: string, t: string)
    requires '\n' in s
    ensures SkipLine(s + t) == SkipLine(s) + t
  {
    if s[0] != '\n' {
      assert (s + t)[1..] == s[1..] + t;
      SkipLineExtends(s[1..], t);
    }
  }

  lemma {:induction false} SkipBlockExtends(s: string, t: string)
    requires HasBlockEnd(s)
    ensures SkipBlock(s + t) == SkipBlock(s) + t
  {
    if s[0] == '*' && s[1] == '/' {
      assert (s + t)[2..] == s[2..] + t;
    } else {
      assert (s + t)[1..] == s[1..] + t;
      var k :| 0 <= k < |s| - 1 && s[k] == '*' && s[k + 1] == '/';
      assert s[1..][k - 1] == '*' && s[1..][k] == '/';
      SkipBlockExtends(s[1..], t);
    }
  }

  lemma {:induction false} SkipQuotedExtends(s: string, t: string, q: char)
    requires HasQuoteEnd(s, q) && s[|s| - 1] != q
    ensures SkipQuoted(s + t, q) == SkipQuoted(s, q) + t
  {
    if s[0] != q {
      assert (s + t)[1..] == s[1..] + t;
      SkipQuotedExtends(s[1..], t, q);
    } else if s[1] == q {
      assert (s + t)[2..] == s[2..] + t;
      SkipQuotedExtends(s[2..], t, q);
    } else {
      assert (s + t)[1..] == s[1..] + t;
    }
  }

  /** Text after a boundary does not change what the constructs before it consume. */
  lemma RestExtends(s: string, t: string)
    requires s != "" && FirstIsClosed(s) && IsSeparator(s[|s| - 1])
    ensures Rest(s + t) == Rest(s) + t
  {
    var u := s + t;
    if StartsLineComment(s) {
      assert u[1..] == s[1..] + t;
      SkipLineExtends(s[1..], t);
    } else if StartsBlockComment(s) {
      assert u[2..] == s[2..] + t;
      SkipBlockExtends(s[2..], t);
    } else if IsQuote(s[0]) {
      assert u[1..] == s[1..] + t;
      SkipQuotedExtends(s[1..], t, s[0]);
    } else {
      assert u[1..] == s[1..] + t;
    }
  }

  lemma {:induction false} SkipLineKeepsEnd(s: string)
    ensures SkipLine(s) == "" || (s != "" && SkipLine(s)[|SkipLine(s)| - 1] == s[|s| - 1])
  {
    if s != "" && s[0] != '\n' {
      SkipLineKeepsEnd(s[1..]);
    }
  }

  lemma {:induction false} SkipBlockKeepsEnd(s: string)
    ensures SkipBlock(s) == "" || (s != "" && SkipBlock(s)[|SkipBlock(s)| - 1] == s[|s| - 1])
  {
    if |s| >= 2 && !(s[0] == '*' && s[1] == '/') {
      SkipBlockKeepsEnd(s[1..]);
    }
  }

  lemma {:induction false} SkipQuotedKeepsEnd(s: string, q: char)
    ensures SkipQuoted(s, q) == "" || (s != "" && SkipQuoted(s, q)[|SkipQuoted(s, q)| - 1] == s[|s| - 1])
  {
    if s == "" {
    } else if s[0] != q {
      SkipQuotedKeepsEnd(s[1..], q);
    } else if |s| >= 2 && s[1] == q {
      SkipQuotedKeepsEnd(s[2..], q);
    }
  }

  /** What remains of a text ends as the text does. */
  lemma RestKeepsEnd(s: string)
    requires s != ""
    ensures Rest(s) == "" || Rest(s)[|Rest(s)| - 1] == s[|s| - 1]
  {
    if StartsLineComment(s) {
      SkipLineKeepsEnd(s[1..]);
    } else if StartsBlockComment(s) {
      SkipBlockKeepsEnd(s[2..]);
    } else if IsQuote(s[0]) {
      SkipQuotedKeepsEnd(s[1..], s[0]);
    }
  }

  lemma SeparatorIsNoWord(c: char)
    ensures IsSeparator(c) ==> !IsWordChar(c)
  {
  }

  /** Compositionality: at a code boundary the text can be cut and the two halves scanned apart. */
  lemma {:induction false} LexSplits(a: string, b: string, cur: string)
    requires AtCodeBoundary(a)
    requires a == "" ==> cur == ""
    ensures Lex(a + b, cur) == Lex(a, cur) + Lex(b, "")
    decreases |a|
  {
    if a == "" {
      assert a + b == b;
    } else {
      SeparatorIsNoWord(a[|a| - 1]);
      RestOfWord(a);
      RestOfWord(a + b);
      hide Rest, FirstIsClosed, IsWordChar, IsSeparator, Upper, Flush;
      RestExtends(a, b);
      RestKeepsEnd(a);
      assert (a + b)[0] == a[0];
      if IsWordChar(a[0]) {
        LexSplits(Rest(a), b, cur + [Upper(a[0])]);
      } else {
        LexSplits(Rest(a), b, "");
        Regroup(Flush(cur), Lex(Rest(a), ""), Lex(b, ""));
      }
    }
  }

  datatype Trivia =
    | BlockComment(body: string)
    | LineComment(body: string)
    | Quoted(quote: char, content: string)
  {
    /** The body must not end the comment early; a literal may hold anything, quotes included. */
    predicate Valid() {
      match this
      case BlockComment(body) => !HasBlockEnd(body)
      case LineComment(body) => '\n' !in body
      case Quoted(q, _) => IsQuote(q)
    }

    function Render(): string {
      match this
      case BlockComment(body) => "/*" + body + "*/"
      case LineComment(body) => "--" + body + "\n"
      case Quoted(q, content) => [q] + Doubled(content, q) + [q]
    }
  }

  /** Literal contents with the quote character doubled. */
  function Doubled(content: string, q: char): string {
    if content == "" then ""
    else (if content[0] == q then [q, q] else [content[0]]) + Doubled(content[1..], q)
  }

  lemma SkipLineOver(body: string, t: string)
    requires '\n' !in body
    ensures SkipLine(body + "\n" + t) == "\n" + t
  {
    assert body + "\n" + t == body + ("\n" + t);
    LineEnds(body, "\n" + t);
  }

  /** Behind a closing quote the literal is over, unless the next character doubles the quote. */
  function AfterQuote(t: string, q: char): string {
    if t != "" && t[0] == q then SkipQuoted(t[1..], q) else t
  }

  lemma {:induction false} SkipQuotedOver(content: string, q: char, t: string)
    ensures SkipQuoted(Doubled(content, q) + [q] + t, q) == AfterQuote(t, q)
  {
    var s := Doubled(content, q) + [q] + t;
    if content == "" {
      assert s == [q] + t;
      QuoteThen(q, t);
    } else {
      var more := Doubled(content[1..], q) + [q] + t;
      if content[0] == q {
        assert s == [q, q] + more;
        assert s[2..] == more;
      } else {
        assert s == [content[0]] + more;
        assert s[1..] == more;
      }
      SkipQuotedOver(content[1..], q, t);
    }
  }

  lemma QuoteThen(q: char, t: string)
    ensures SkipQuoted([q] + t, q) == AfterQuote(t, q)
  {
    var s := [q] + t;
    assert s[1..] == t;
    if t != "" {
      assert s[1] == t[0] && s[2..] == t[1..];
    }
  }

  lemma BlockCommentHasNoTokens(body: string, b: string)
    requires !HasBlockEnd(body)
    ensures Tokens(BlockComment(body).Render() + b) == Tokens(b)
  {
    var s := BlockComment(body).Render() + b;
    assert s[0] == '/' && s[1] == '*' && s[2..] == body + "*/" + b;
    BlockEnds(body, b);
    assert Rest(s) == b;
  }

  lemma LineCommentHasNoTokens(body: string, b: string)
    requires '\n' !in body
    ensures Tokens(LineComment(body).Render() + b) == Tokens(b)
  {
    var s := LineComment(body).Render() + b;
    assert s[0] == '-' && s[1] == '-' && s[1..] == ("-" + body) + "\n" + b;
    SkipLineOver("-" + body, b);
    var u := "\n" + b;
    assert Rest(s) == u && Rest(u) == b;
    assert Tokens(u) == Tokens(b);
  }

  lemma QuotedFront(q: char, body: string, b: string)
    ensures var s := [q] + body + [q] + b; s[0] == q && s[1..] == body + [q] + b
  {
  }

  lemma QuotedHasNoTokens(s: string)
    requires s != "" && IsQuote(s[0])
    ensures Tokens(s) == Tokens(SkipQuoted(s[1..], s[0]))
  {
    assert Rest(s) == SkipQuoted(s[1..], s[0]) && !IsWordChar(s[0]);
    hide Rest, IsWordChar, IsQuote, SkipQuoted;
  }

  /**
    A literal contributes no token, whatever follows. Where its own quote follows, the two literals become
    one with an escaped quote inside, which ends where the second would have ended.
   */
  lemma LiteralHasNoTokens(q: char, content: string, b: string)
    requires IsQuote(q)
    ensures Tokens(Quoted(q, content).Render() + b) == Tokens(b)
  {
    hide Tokens, IsQuote, SkipQuoted, Doubled;
    QuotedFront(q, Doubled(content, q), b);
    SkipQuotedOver(content, q, b);
    QuotedHasNoTokens([q] + Doubled(content, q) + [q] + b);
    if b != "" && b[0] == q {
      QuotedHasNoTokens(b);
    }
  }

  /** A comment or literal at the front contributes no token. */
  lemma TriviaHasNoTokens(t: Trivia, b: string)
    requires t.Valid()
    ensures Tokens(t.Render() + b) == Tokens(b)
  {
    match t
    case BlockComment(body) => BlockCommentHasNoTokens(body, b);
    case LineComment(body) => LineCommentHasNoTokens(body, b);
    case Quoted(q, content) => LiteralHasNoTokens(q, content, b);
  }

  /**
    Transparency: a comment or literal with arbitrary contents, inserted at a code boundary of any
    statement, leaves the token list unchanged.
   */
  lemma TriviaIsTransparent(a: string, t: Trivia, b: string)
    requires AtCodeBoundary(a) && t.Valid()
    ensures Tokens(a + t.Render() + b) == Tokens(a + b)
  {
    assert a + t.Render() + b == a + (t.Render() + b);
    LexSplits(a, t.Render() + b, "");
    LexSplits(a, b, "");
    TriviaHasNoTokens(t, b);
  }

  // ----- re-scanning the tokens -----

  predicate IsToken(t: string) {
    t != "" && forall i :: 0 <= i < |t| ==> 'A' <= t[i] <= 'Z' || IsAsciiDigit(t[i]) || t[i] == '_' || t[i] == '$'
  }

  predicate AreTokens(ts: seq<string>) {
    forall i :: 0 <= i < |ts| ==> IsToken(ts[i])
  }

  /** Every token is a non-empty word over A-Z, 0-9, `_` and `$`. */
  lemma {:induction false} LexGivesTokens(s: string, cur: string)
    requires cur == "" || IsToken(cur)
    ensures AreTokens(Lex(s, cur))
    decreases |s|
  {
    if s == "" {
    } else if IsWordChar(s[0]) {
      LexGivesTokens(s[1..], cur + [Upper(s[0])]);
    } else {
      LexGivesTokens(Rest(s), "");
    }
  }

  /** Scanning over one whole word leaves it as the word being built. */
  lemma {:induction false} LexOverWord(w: string, cur: string, t: string)
    requires w == "" || IsToken(w)
    ensures Lex(w + t, cur) == Lex(t, cur + w)
  {
    if w == "" {
      assert w + t == t && cur + w == cur;
    } else {
      assert (w + t)[1..] == w[1..] + t;
      assert Upper(w[0]) == w[0];
      LexOverWord(w[1..], cur + [w[0]], t);
      assert cur + [w[0]] + w[1..] == cur + w;
    }
  }

  lemma BlankHasNoTokens(t: string)
    ensures Lex(" " + t, "") == Tokens(t)
  {
    assert (" " + t)[1..] == t;
  }

  lemma {:induction false} LexOfJoinedTokens(ts: seq<string>)
    requires AreTokens(ts)
    ensures Tokens(Join(ts, ' ')) == ts
  {
    if ts == [] {
    } else if |ts| == 1 {
      LexOverWord(ts[0], "", "");
      assert ts[0] + "" == ts[0] && "" + ts[0] == ts[0];
    } else {
      var more := Join(ts[1..], ' ');
      assert Join(ts, ' ') == ts[0] + (" " + more);
      LexOverWord(ts[0], "", " " + more);
      assert "" + ts[0] == ts[0];
      hide Lex, Join;
      BlankHasNoTokens(more);
      LexOfJoinedTokens(ts[1..]);
      assert ts == [ts[0]] + ts[1..];
    }
  }

  /** Normalising a statement to its tokens, joined by single blanks, is idempotent. */
  lemma TokenNormalFormIsStable(sql: string)
    ensures AreTokens(Tokens(sql))
    ensures Tokens(Join(Tokens(sql), ' ')) == Tokens(sql)
  {
    LexGivesTokens(sql, "");
    LexOfJoinedTokens(Tokens(sql));
  }

  // ----- the verdicts -----

  datatype Dialect = Sqlite | MySql | Postgres

  datatype SeedError = NotAnInsert(head: string) | ReadsATable | NotIdempotent(dialect: Dialect)

  function LeadWord(stmt: string): string {
    var ts := Tokens(stmt);
    if ts == [] then "" else ts[0]
  }

  /** Do the words occur next to each other? */
  predicate Has(ts: seq<string>, words: seq<string>) {
    exists i :: 0 <= i < |ts| && HasAt(ts, words, i)
  }

  predicate HasAt(ts: seq<string>, words: seq<string>, i: nat) {
    i + |words| <= |ts| && ts[i..i + |words|] == words
  }

  predicate InsertIsIdempotentIn(stmt: string, dialect: Option<Dialect>) {
    var ts := Tokens(stmt);
    var orIgnore := Has(ts, ["OR", "IGNORE"]);
    var orReplace := Has(ts, ["OR", "REPLACE"]);
    var onConflict := Has(ts, ["ON", "CONFLICT"]);
    var onDuplicate := Has(ts, ["ON", "DUPLICATE", "KEY"]);
    var insertIgnore := Has(ts, ["INSERT", "IGNORE"]);
    match dialect
    case None => orIgnore || orReplace || onConflict || onDuplicate
    case Some(Sqlite) => orIgnore || orReplace || onConflict
    case Some(MySql) => orIgnore || insertIgnore || onDuplicate
    case Some(Postgres) => orIgnore || onConflict
  }

  function SeedStmtAllowed(stmt: string, dialect: Dialect): Result<(), SeedError> {
    var ts := Tokens(stmt);
    if ts == [] then Ok(())
    else if ts[0] != "INSERT" then Err(NotAnInsert(ts[0]))
    else if "SELECT" in ts then Err(ReadsATable)
    else if !InsertIsIdempotentIn(stmt, Some(dialect)) then Err(NotIdempotent(dialect))
    else Ok(())
  }

  /** Two statements between which no verdict of the gate can tell. */
  ghost predicate SameVerdicts(x: string, y: string) {
    && LeadWord(x) == LeadWord(y)
    && (forall d :: InsertIsIdempotentIn(x, d) <==> InsertIsIdempotentIn(y, d))
    && (forall d :: SeedStmtAllowed(x, d) == SeedStmtAllowed(y, d))
  }

  /** No comment and no literal changes a verdict, in any dialect, and neither does token normalisation. */
  lemma VerdictsIgnoreTrivia(a: string, t: Trivia, b: string)
    requires AtCodeBoundary(a) && t.Valid()
    ensures SameVerdicts(a + t.Render() + b, a + b)
    ensures SameVerdicts(Join(Tokens(a + b), ' '), a + b)
  {
    hide Tokens, AtCodeBoundary, Has, Join;
    TriviaIsTransparent(a, t, b);
    TokenNormalFormIsStable(a + b);
  }
}

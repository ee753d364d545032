/**
  The tokens of a statement and the verdicts of the seed gate, said apart from the scanner of `SqlLexer`: every
  text is a list of words, comments, quoted literals and single characters, its tokens are its words in upper
  case, and what may seed a database is told by the words that stand next to each other.
 */
module SqlGrammar {
  import opened Wrappers
  import opened Comments
  import Text
  import opened SqlLexer

  /** A construct that is not closed runs to the end of the text. */
  datatype Piece =
    | Word(w: string)
    | Line(body: string)
    | Block(body: string, closed: bool)
    | Literal(q: char, content: string, closed: bool)
    | Other(c: char)

  predicate IsOfWord(c: char) {
    'a' <= c <= 'z' || 'A' <= c <= 'Z' || '0' <= c <= '9' || c == '_' || c == '$'
  }

  predicate IsQuoteMark(c: char) {
    c == '\'' || c == '"'
  }

  predicate IsValid(p: Piece) {
    match p
    case Word(w) => w != "" && forall i :: 0 <= i < |w| ==> IsOfWord(w[i])
    case Line(body) => '\n' !in body
    case Block(body, _) => !HasBlockEnd(body)
    case Literal(q, _, _) => IsQuoteMark(q)
    case Other(c) => !IsOfWord(c) && !IsQuoteMark(c)
  }

  /** A quote inside a literal is written twice. */
  function Written(p: Piece): string {
    match p
    case Word(w) => w
    case Line(body) => "--" + body
    case Block(body, closed) => "/*" + body + if closed then "*/" else ""
    case Literal(q, content, closed) => [q] + Doubled(content, q) + if closed then [q] else ""
    case Other(c) => [c]
  }

  function Render(ps: seq<Piece>): string {
    if ps == [] then "" else Written(ps[0]) + Render(ps[1..])
  }

  /** Does the piece end where the given text begins? */
  predicate Ends(p: Piece, after: string) {
    match p
    case Word(_) => after == "" || !IsOfWord(after[0])
    case Line(_) => after == "" || after[0] == '\n'
    case Block(_, closed) => closed || after == ""
    case Literal(q, _, closed) => after == "" || (closed && after[0] != q)
    case Other(c) => after == "" || !((c == '-' && after[0] == '-') || (c == '/' && after[0] == '*'))
  }

  /** A list of pieces that is read back from its own text. */
  predicate ArePieces(ps: seq<Piece>) {
    ps == [] || (IsValid(ps[0]) && Ends(ps[0], Render(ps[1..])) && ArePieces(ps[1..]))
  }

  function Capital(c: char): char {
    if 'a' <= c <= 'z' then (c as int - 32) as char else c
  }

  function Capitals(w: string): string {
    if w == "" then "" else [Capital(w[0])] + Capitals(w[1..])
  }

  /** The words of a text, in order and in upper case. */
  function Words(ps: seq<Piece>): seq<string> {
    if ps == [] then []
    else (if ps[0].Word? then [Capitals(ps[0].w)] else []) + Words(ps[1..])
  }

  // ----- the scanner reads the pieces -----

  lemma LetterIsRead(w: string, cur: string, r: string)
    requires w != "" && IsOfWord(w[0])
    ensures Lex(w + r, cur) == Lex(w[1..] + r, cur + [Capital(w[0])])
  {
    assert (w + r)[0] == w[0] && (w + r)[1..] == w[1..] + r;
  }

  lemma WordEnds(cur: string, r: string)
    requires cur != "" && (r == "" || !IsOfWord(r[0]))
    ensures Lex(r, cur) == [cur] + Lex(r, "")
  {
    hide Rest;
  }

  lemma {:induction false} WordIsRead(w: string, cur: string, r: string)
    requires forall i :: 0 <= i < |w| ==> IsOfWord(w[i])
    requires (w != "" || cur != "") && (r == "" || !IsOfWord(r[0]))
    ensures Lex(w + r, cur) == [cur + Capitals(w)] + Lex(r, "")
  {
    hide Lex, Capital;
    if w == "" {
      assert w + r == r && cur + "" == cur;
      WordEnds(cur, r);
    } else {
      LetterIsRead(w, cur, r);
      WordIsRead(w[1..], cur + [Capital(w[0])], r);
      Text.Regroup(cur, [Capital(w[0])], Capitals(w[1..]));
    }
  }

  lemma {:induction false} OpenLiteralIsSkipped(content: string, q: char)
    ensures SkipQuoted(Doubled(content, q), q) == ""
  {
    if content != "" {
      var s := Doubled(content, q);
      OpenLiteralIsSkipped(content[1..], q);
      if content[0] == q {
        assert s[2..] == Doubled(content[1..], q);
      } else {
        assert s[1..] == Doubled(content[1..], q);
      }
    }
  }

  lemma CommentIsSkipped(p: Piece, r: string)
    requires IsValid(p) && Ends(p, r) && (p.Line? || p.Block?)
    ensures var s := Written(p) + r; s != "" && !IsOfWord(s[0]) && Rest(s) == r
  {
    hide SkipLine, SkipBlock, HasBlockEnd;
    var s := Written(p) + r;
    if p.Line? {
      assert s[1..] == ("-" + p.body) + r;
      LineEnds("-" + p.body, r);
    } else if p.closed {
      assert s[2..] == p.body + "*/" + r;
      BlockEnds(p.body, r);
    } else {
      assert s[2..] == p.body;
      OpenBlockEnds(p.body);
    }
  }

  lemma LiteralIsSkipped(p: Piece, r: string)
    requires IsValid(p) && Ends(p, r) && p.Literal?
    ensures var s := Written(p) + r; s != "" && !IsOfWord(s[0]) && Rest(s) == r
  {
    hide SkipQuoted, Doubled;
    var s := Written(p) + r;
    if p.closed {
      assert s[1..] == Doubled(p.content, p.q) + [p.q] + r;
      SkipQuotedOver(p.content, p.q, r);
    } else {
      assert s[1..] == Doubled(p.content, p.q);
      OpenLiteralIsSkipped(p.content, p.q);
    }
  }

  /** One piece gives its word, or nothing. */
  lemma PieceIsRead(p: Piece, r: string)
    requires IsValid(p) && Ends(p, r)
    ensures Tokens(Written(p) + r) == (if p.Word? then [Capitals(p.w)] else []) + Tokens(r)
  {
    hide SkipLine, SkipBlock, SkipQuoted, Doubled, HasBlockEnd;
    match p
    case Word(w) =>
      WordIsRead(w, "", r);
      assert "" + Capitals(w) == Capitals(w);
    case Literal(_, _, _) => LiteralIsSkipped(p, r);
    case Other(_) => assert (Written(p) + r)[1..] == r;
    case _ => CommentIsSkipped(p, r);
  }

  /** The tokens of a text are its words. */
  lemma {:induction false} TokensAreWords(ps: seq<Piece>)
    requires ArePieces(ps)
    ensures Tokens(Render(ps)) == Words(ps)
  {
    hide Tokens, IsValid, Ends, Written;
    if ps == [] {
      NoTokens();
    } else {
      PieceIsRead(ps[0], Render(ps[1..]));
      TokensAreWords(ps[1..]);
    }
  }

  lemma NoTokens()
    ensures Tokens("") == []
  {
  }

  // ----- every text is a list of pieces -----

  lemma DoubledInFront(s: string, n: nat, q: char, c: string, b: string)
    requires n <= |s| && n == (if s != "" && s[0] == q then 2 else 1) && (n == 2 ==> s[1] == q)
    requires s[n..] == Doubled(c, q) + b
    ensures s == Doubled([s[0]] + c, q) + b
  {
    assert ([s[0]] + c)[1..] == c;
    assert s == s[..n] + s[n..];
    assert s[..n] == if s[0] == q then [q, q] else [s[0]];
  }

  lemma {:induction false} LiteralOf(s: string, q: char) returns (content: string, closed: bool)
    ensures s == Doubled(content, q) + ((if closed then [q] else "") + SkipQuoted(s, q))
    ensures !closed ==> SkipQuoted(s, q) == ""
    ensures SkipQuoted(s, q) != "" ==> SkipQuoted(s, q)[0] != q
    decreases |s|
  {
    if s == "" {
      content, closed := "", false;
    } else if s[0] == q && (|s| < 2 || s[1] != q) {
      content, closed := "", true;
      assert s == "" + ([q] + s[1..]);
    } else {
      hide Doubled;
      var n := if s[0] == q then 2 else 1;
      var c;
      c, closed := LiteralOf(s[n..], q);
      content := [s[0]] + c;
      DoubledInFront(s, n, q, c, (if closed then [q] else "") + SkipQuoted(s[n..], q));
    }
  }

  lemma {:induction false} WordOf(s: string) returns (w: string, r: string)
    ensures s == w + r && (forall i :: 0 <= i < |w| ==> IsOfWord(w[i])) && (r == "" || !IsOfWord(r[0]))
  {
    if s == "" || !IsOfWord(s[0]) {
      w, r := "", s;
    } else {
      w, r := WordOf(s[1..]);
      w := [s[0]] + w;
      assert s == [s[0]] + s[1..];
    }
  }

  lemma FirstPiece(s: string) returns (p: Piece, r: string)
    requires s != ""
    ensures IsValid(p) && s == Written(p) + r && Ends(p, r) && |r| < |s|
  {
    hide SkipLine, SkipBlock, SkipQuoted, Doubled, HasBlockEnd;
    assert s == [s[0]] + s[1..];
    if |s| >= 2 {
      assert s == [s[0], s[1]] + s[2..];
    }
    if StartsLineComment(s) {
      var body := LineOf(s[2..]);
      p, r := Line(body), SkipLine(s[2..]);
    } else if StartsBlockComment(s) {
      var body, closed := BlockOf(s[2..]);
      p, r := Block(body, closed), SkipBlock(s[2..]);
    } else if IsQuoteMark(s[0]) {
      var content, closed := LiteralOf(s[1..], s[0]);
      p, r := Literal(s[0], content, closed), SkipQuoted(s[1..], s[0]);
    } else if IsOfWord(s[0]) {
      var w;
      w, r := WordOf(s);
      p := Word(w);
    } else {
      p, r := Other(s[0]), s[1..];
    }
  }

  /** Every text is the text of a list of pieces. */
  lemma {:induction false} EveryTextHasPieces(s: string) returns (ps: seq<Piece>)
    ensures ArePieces(ps) && Render(ps) == s
    decreases |s|
  {
    hide IsValid, Ends, Written;
    if s == "" {
      ps := [];
    } else {
      var p, r := FirstPiece(s);
      var more := EveryTextHasPieces(r);
      ps := [p] + more;
      assert ps[1..] == more;
    }
  }

  // ----- what may seed a database -----

  predicate TwoAt(ts: seq<string>, i: nat, a: string, b: string) {
    i + 1 < |ts| && ts[i] == a && ts[i + 1] == b
  }

  predicate ThreeAt(ts: seq<string>, i: nat, a: string, b: string, c: string) {
    i + 2 < |ts| && ts[i] == a && ts[i + 1] == b && ts[i + 2] == c
  }

  /** The ways to write an insertion that may be repeated. */
  datatype Form = OrIgnore | OrReplace | OnConflict | OnDuplicateKey | InsertIgnore

  /** The words of the form stand next to each other somewhere in the list. */
  ghost predicate Carries(ts: seq<string>, f: Form) {
    match f
    case OrIgnore => exists i :: TwoAt(ts, i, "OR", "IGNORE")
    case OrReplace => exists i :: TwoAt(ts, i, "OR", "REPLACE")
    case OnConflict => exists i :: TwoAt(ts, i, "ON", "CONFLICT")
    case OnDuplicateKey => exists i :: ThreeAt(ts, i, "ON", "DUPLICATE", "KEY")
    case InsertIgnore => exists i :: TwoAt(ts, i, "INSERT", "IGNORE")
  }

  lemma HasTwo(ts: seq<string>, a: string, b: string)
    ensures Has(ts, [a, b]) <==> exists i :: TwoAt(ts, i, a, b)
  {
    forall i | 0 <= i < |ts|
      ensures HasAt(ts, [a, b], i) <==> TwoAt(ts, i, a, b)
    {
      if i + 2 <= |ts| {
        assert ts[i..i + 2] == [ts[i], ts[i + 1]];
      }
    }
    if i :| TwoAt(ts, i, a, b) {
      assert HasAt(ts, [a, b], i);
    }
  }

  lemma HasThree(ts: seq<string>, a: string, b: string, c: string)
    ensures Has(ts, [a, b, c]) <==> exists i :: ThreeAt(ts, i, a, b, c)
  {
    forall i | 0 <= i < |ts|
      ensures HasAt(ts, [a, b, c], i) <==> ThreeAt(ts, i, a, b, c)
    {
      if i + 3 <= |ts| {
        assert ts[i..i + 3] == [ts[i], ts[i + 1], ts[i + 2]];
      }
    }
    if i :| ThreeAt(ts, i, a, b, c) {
      assert HasAt(ts, [a, b, c], i);
    }
  }

  lemma FormsAreRead(stmt: string, d: Option<Dialect>)
    ensures InsertIsIdempotentIn(stmt, d) <==>
            var ts := Tokens(stmt);
            || Carries(ts, OrIgnore)
            || (Carries(ts, OrReplace) && (d == None || d == Some(Sqlite)))
            || (Carries(ts, OnConflict) && d != Some(MySql))
            || (Carries(ts, OnDuplicateKey) && (d == None || d == Some(MySql)))
            || (Carries(ts, InsertIgnore) && d == Some(MySql))
  {
    hide Tokens, Has, TwoAt, ThreeAt;
    var ts := Tokens(stmt);
    HasTwo(ts, "OR", "IGNORE");
    HasTwo(ts, "OR", "REPLACE");
    HasTwo(ts, "ON", "CONFLICT");
    HasThree(ts, "ON", "DUPLICATE", "KEY");
    HasTwo(ts, "INSERT", "IGNORE");
  }

  /**
    The gate, told on the words of a statement: it lets through nothing at all, and insertions that read no
    table and carry a form their dialect knows -- those and no others.
   */
  lemma SeedIsAllowedIff(ps: seq<Piece>, d: Dialect)
    requires ArePieces(ps)
    ensures SeedStmtAllowed(Render(ps), d).Ok? <==>
            var ts := Words(ps);
            ts == [] ||
            (&& ts[0] == "INSERT" && "SELECT" !in ts
             && (|| Carries(ts, OrIgnore)
                 || (Carries(ts, OrReplace) && d == Sqlite)
                 || (Carries(ts, OnConflict) && (d == Sqlite || d == Postgres))
                 || (Carries(ts, OnDuplicateKey) && d == MySql)
                 || (Carries(ts, InsertIgnore) && d == MySql)))
  {
    hide Tokens, Words, Carries, InsertIsIdempotentIn, ArePieces;
    TokensAreWords(ps);
    FormsAreRead(Render(ps), Some(d));
  }

  /** Which dialects let an insertion through that carries one form only. */
  lemma OneFormInItsDialects(ps: seq<Piece>, f: Form)
    requires ArePieces(ps) && Words(ps) != [] && Words(ps)[0] == "INSERT" && "SELECT" !in Words(ps)
    requires forall g :: Carries(Words(ps), g) <==> g == f
    ensures SeedStmtAllowed(Render(ps), Sqlite).Ok? <==> f == OrIgnore || f == OrReplace || f == OnConflict
    ensures SeedStmtAllowed(Render(ps), MySql).Ok? <==> f == OrIgnore || f == InsertIgnore || f == OnDuplicateKey
    ensures SeedStmtAllowed(Render(ps), Postgres).Ok? <==> f == OrIgnore || f == OnConflict
  {
    hide Words, Carries, ArePieces, SeedStmtAllowed;
    SeedIsAllowedIff(ps, Sqlite);
    SeedIsAllowedIff(ps, MySql);
    SeedIsAllowedIff(ps, Postgres);
  }

  /** What a refused statement is told, in the order in which the gate looks. */
  lemma RefusalNamesTheReason(ps: seq<Piece>, d: Dialect)
    requires ArePieces(ps) && Words(ps) != []
    ensures var ts := Words(ps);
            && (ts[0] != "INSERT" ==> SeedStmtAllowed(Render(ps), d) == Err(NotAnInsert(ts[0])))
            && (ts[0] == "INSERT" && "SELECT" in ts ==> SeedStmtAllowed(Render(ps), d) == Err(ReadsATable))
            && (ts[0] == "INSERT" && "SELECT" !in ts && SeedStmtAllowed(Render(ps), d).Err? ==>
                  SeedStmtAllowed(Render(ps), d) == Err(NotIdempotent(d)))
  {
    hide Tokens, Words, ArePieces, InsertIsIdempotentIn;
    TokensAreWords(ps);
  }

  /** Statements that begin with these words are refused in every dialect, whatever follows. */
  lemma OtherStatementsAreRefused(ps: seq<Piece>, d: Dialect)
    requires ArePieces(ps) && Words(ps) != []
    requires Words(ps)[0] in ["UPDATE", "DELETE", "DROP", "CREATE", "ALTER", "REPLACE", "PRAGMA", "ATTACH"]
    ensures SeedStmtAllowed(Render(ps), d).Err?
  {
    hide Words, ArePieces;
    RefusalNamesTheReason(ps, d);
  }
}

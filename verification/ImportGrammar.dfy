/**
  What counts as an import, said on the tokens of a text and apart from the scanner: every text is a list
  of blanks, comments, words, literals and single characters, and the scanner of `ImportScan` finds exactly
  the specifiers that the token list shows.
 */
module ImportGrammar {
  import opened ImportScan
  import opened Comments
  import opened Wrappers

  /** A construct that is not closed runs to the end of the text. */
  datatype Token =
    | Blank(c: char)
    | LineComment(body: string)
    | BlockComment(body: string, closed: bool)
    | Word(w: string)
    | Str(q: char, body: string, closed: bool)
    | Punct(c: char)

  predicate IsLetter(c: char) {
    'a' <= c <= 'z' || 'A' <= c <= 'Z' || c == '_' || c == '$'
  }

  predicate IsDigit(c: char) {
    '0' <= c <= '9'
  }

  predicate IsBlankChar(c: char) {
    c == ' ' || c == '\t' || c == '\n' || c == '\r' || c == 12 as char
  }

  predicate IsQuoteChar(c: char) {
    c == '\'' || c == '"' || c == '`'
  }

  /** The inside of a closed literal: no bare quote, and every backslash takes a character with it. */
  predicate IsBody(s: string, q: char) {
    s == "" ||
    if s[0] == '\\' then |s| >= 2 && IsBody(s[2..], q) else s[0] != q && IsBody(s[1..], q)
  }

  /** The same for a literal that the text ends in, perhaps on a lone backslash. */
  predicate IsOpenBody(s: string, q: char) {
    |s| == 0 || s == "\\" ||
    if s[0] == '\\' then IsOpenBody(s[2..], q) else s[0] != q && IsOpenBody(s[1..], q)
  }

  predicate IsValid(t: Token) {
    match t
    case Blank(c) => IsBlankChar(c)
    case LineComment(body) => '\n' !in body
    case BlockComment(body, _) => !HasBlockEnd(body)
    case Word(w) => w != "" && IsLetter(w[0]) && forall i :: 0 <= i < |w| ==> IsLetter(w[i]) || IsDigit(w[i])
    case Str(q, body, closed) => IsQuoteChar(q) && if closed then IsBody(body, q) else IsOpenBody(body, q)
    case Punct(c) => !IsBlankChar(c) && !IsLetter(c) && !IsQuoteChar(c)
  }

  function Text(t: Token): string {
    match t
    case Blank(c) => [c]
    case LineComment(body) => "//" + body
    case BlockComment(body, closed) => "/*" + body + if closed then "*/" else ""
    case Word(w) => w
    case Str(q, body, closed) => [q] + body + if closed then [q] else ""
    case Punct(c) => [c]
  }

  function Render(ts: seq<Token>): string {
    if ts == [] then "" else Text(ts[0]) + Render(ts[1..])
  }

  /** Does the token end where the given text begins? */
  predicate Ends(t: Token, after: string) {
    match t
    case Blank(_) => true
    case LineComment(_) => after == "" || after[0] == '\n'
    case BlockComment(_, closed) => closed || after == ""
    case Word(_) => after == "" || !(IsLetter(after[0]) || IsDigit(after[0]))
    case Str(_, _, closed) => closed || after == ""
    case Punct(c) => c == '/' ==> after == "" || (after[0] != '/' && after[0] != '*')
  }

  /** A token list that is read back from its own text. */
  predicate AreTokens(ts: seq<Token>) {
    ts == [] || (IsValid(ts[0]) && Ends(ts[0], Render(ts[1..])) && AreTokens(ts[1..]))
  }

  // ----- what the tokens import -----

  predicate IsGap(t: Token) {
    t.Blank? || t.LineComment? || t.BlockComment?
  }

  function DropGaps(ts: seq<Token>): (r: seq<Token>)
    ensures |r| <= |ts|
    ensures r == [] || !IsGap(r[0])
  {
    if ts != [] && IsGap(ts[0]) then DropGaps(ts[1..]) else ts
  }

  /** A literal between single or double quotes; a template is none. */
  predicate IsPlainLiteral(t: Token) {
    t.Str? && t.closed && (t.q == '\'' || t.q == '"')
  }

  predicate StartsWithLiteral(ts: seq<Token>) {
    ts != [] && IsPlainLiteral(ts[0])
  }

  predicate StartsWithPunct(ts: seq<Token>, c: char) {
    ts != [] && ts[0] == Punct(c)
  }

  /** A literal that is a whole argument: a closing parenthesis or a comma follows. */
  predicate StartsWithArgument(ts: seq<Token>) {
    StartsWithLiteral(ts)
    && (StartsWithPunct(DropGaps(ts[1..]), ')') || StartsWithPunct(DropGaps(ts[1..]), ','))
  }

  /** The tokens from the specifier on, if the given tokens follow a keyword and hold one. */
  function SpecTokens(word: string, ts: seq<Token>): (r: Option<seq<Token>>)
    ensures r.Some? ==> StartsWithLiteral(r.value) && |r.value| <= |ts|
  {
    var u := DropGaps(ts);
    if StartsWithLiteral(u) && (word == "from" || word == "import" || word == "require") then Some(u)
    else if StartsWithPunct(u, '(') && (word == "import" || word == "require")
            && StartsWithArgument(DropGaps(u[1..]))
    then Some(DropGaps(u[1..]))
    else None
  }

  /** The specifiers that a token list shows, in order. */
  function Found(ts: seq<Token>): seq<string>
    decreases |ts|
  {
    if ts == [] then []
    else if !ts[0].Word? then Found(ts[1..])
    else match SpecTokens(ts[0].w, ts[1..])
      case Some(lit) => [lit[0].body] + Found(lit[1..])
      case None => Found(ts[1..])
  }

  // ----- what the scanner does with one token -----

  lemma {:induction false} BodyCloses(body: string, q: char, r: string)
    requires IsQuoteChar(q)
    ensures IsBody(body, q) ==> CloseAt(body + [q] + r, q) == Some(|body|)
    ensures CloseAt(body + [q] + r, q) == Some(|body|) ==> IsBody(body, q)
    decreases |body|
  {
    var s := body + [q] + r;
    if body == "" {
    } else if body[0] == '\\' {
      if |body| >= 2 {
        assert s[2..] == body[2..] + [q] + r;
        BodyCloses(body[2..], q, r);
      }
    } else {
      assert s[1..] == body[1..] + [q] + r;
      BodyCloses(body[1..], q, r);
    }
  }

  lemma {:induction false} OpenBodyIsOpen(body: string, q: char)
    ensures IsOpenBody(body, q) <==> CloseAt(body, q).None?
    decreases |body|
  {
    if body == "" {
    } else if body[0] == '\\' {
      if |body| >= 2 {
        OpenBodyIsOpen(body[2..], q);
      }
    } else {
      OpenBodyIsOpen(body[1..], q);
    }
  }

  lemma CommentIsEaten(t: Token, r: string)
    requires IsValid(t) && Ends(t, r) && (t.LineComment? || t.BlockComment?)
    ensures StartsComment(Text(t) + r) && Rest(Text(t) + r) == r
  {
    hide SkipLine, SkipBlock, HasBlockEnd;
    var s := Text(t) + r;
    if t.LineComment? {
      assert s[2..] == t.body + r;
      LineEnds(t.body, r);
    } else {
      assert s[2..] == if t.closed then t.body + "*/" + r else t.body;
      if t.closed {
        BlockEnds(t.body, r);
      } else {
        OpenBlockEnds(t.body);
      }
    }
  }

  lemma LiteralIsEaten(t: Token, r: string)
    requires IsValid(t) && Ends(t, r) && t.Str?
    ensures var s := Text(t) + r;
            && s != "" && s[0] == t.q && !StartsComment(s) && Rest(s) == r
            && CloseAt(s[1..], t.q) == (if t.closed then Some(|t.body|) else None)
            && (t.closed ==> s[1..][..|t.body|] == t.body && s[1..][|t.body| + 1..] == r)
  {
    hide CloseAt, IsBody, IsOpenBody;
    var s := Text(t) + r;
    assert s[1..] == t.body + (if t.closed then [t.q] else "") + r;
    if t.closed {
      BodyCloses(t.body, t.q, r);
    } else {
      assert s[1..] == t.body;
      OpenBodyIsOpen(t.body, t.q);
    }
  }

  /** Each token is what the scanner consumes in one step. */
  lemma TokenIsEaten(t: Token, r: string)
    requires IsValid(t) && Ends(t, r)
    ensures var s := Text(t) + r;
            && s != "" && Rest(s) == r
            && (StartsTrivia(s) <==> IsGap(t))
            && (IsWordStart(s[0]) <==> t.Word?)
            && (s[0] == '\'' || s[0] == '"' ==> t.Str? && t.q == s[0])
            && (forall c :: c == '(' || c == ')' || c == ',' ==> (s[0] == c <==> t == Punct(c)))
            && (t.Word? ==> SkipWord(s) == r && s[..|s| - |r|] == t.w)
  {
    hide SkipLine, SkipBlock, CloseAt, HasBlockEnd, IsBody, IsOpenBody;
    match t
    case LineComment(_) => CommentIsEaten(t, r);
    case BlockComment(_, _) => CommentIsEaten(t, r);
    case Str(_, _, _) => LiteralIsEaten(t, r);
    case Word(w) => WordIsSkipped(w, r);
    case _ => assert (Text(t) + r)[1..] == r;
  }

  // ----- the scanner on a token list -----

  lemma {:induction false} GapsAreSkipped(ts: seq<Token>)
    requires AreTokens(ts)
    ensures SkipTrivia(Render(ts)) == Render(DropGaps(ts)) && AreTokens(DropGaps(ts))
  {
    hide Rest, StartsTrivia, IsValid, Text;
    if ts != [] {
      TokenIsEaten(ts[0], Render(ts[1..]));
      if IsGap(ts[0]) {
        GapsAreSkipped(ts[1..]);
      }
    }
  }

  lemma HeadOfTokens(ts: seq<Token>)
    requires AreTokens(ts)
    ensures Render(ts) == "" <==> ts == []
    ensures forall c :: c == '(' || c == ')' || c == ',' ==>
              (Render(ts) != "" && Render(ts)[0] == c <==> StartsWithPunct(ts, c))
    ensures ts != [] ==> AreTokens(ts[1..]) && Rest(Render(ts)) == Render(ts[1..])
    ensures StartsWithPunct(ts, '(') ==> Render(ts)[1..] == Render(ts[1..])
  {
    hide Rest, StartsTrivia, IsValid, Ends;
    if ts != [] {
      assert IsValid(ts[0]) && Ends(ts[0], Render(ts[1..]));
      TokenIsEaten(ts[0], Render(ts[1..]));
    }
  }

  lemma ArgumentEnds(ts: seq<Token>)
    requires AreTokens(ts)
    ensures EndsArgument(SkipTrivia(Render(ts))) <==>
            StartsWithPunct(DropGaps(ts), ')') || StartsWithPunct(DropGaps(ts), ',')
  {
    hide AreTokens, Render, SkipTrivia;
    GapsAreSkipped(ts);
    HeadOfTokens(DropGaps(ts));
  }

  lemma LiteralIsRead(ts: seq<Token>, call: bool)
    requires AreTokens(ts)
    ensures LiteralAt(Render(ts), call) ==
            if StartsWithLiteral(ts) && (call ==> StartsWithArgument(ts))
            then Some(Import(ts[0].body, Render(ts[1..])))
            else None
  {
    hide SkipTrivia, CloseAt, EndsArgument, DropGaps, IsValid, Rest;
    if ts != [] {
      TokenIsEaten(ts[0], Render(ts[1..]));
      if ts[0].Str? {
        LiteralIsEaten(ts[0], Render(ts[1..]));
        ArgumentEnds(ts[1..]);
      }
    }
  }

  lemma SpecIsRead(word: string, ts: seq<Token>)
    requires AreTokens(ts) && word in KEYWORDS
    ensures SpecAfter(word, Render(ts)) ==
            match SpecTokens(word, ts)
            case Some(lit) => Some(Import(lit[0].body, Render(lit[1..])))
            case None => None
    ensures SpecTokens(word, ts).Some? ==> AreTokens(SpecTokens(word, ts).value)
  {
    hide AreTokens, Render, SkipTrivia, LiteralAt, StartsWithArgument, DropGaps, Rest;
    KeywordsAre(word);
    GapsAreSkipped(ts);
    var u := DropGaps(ts);
    HeadOfTokens(u);
    LiteralIsRead(u, false);
    if StartsWithPunct(u, '(') {
      GapsAreSkipped(u[1..]);
      LiteralIsRead(DropGaps(u[1..]), true);
      ArgumentIsLiteral(DropGaps(u[1..]));
    }
  }

  lemma ArgumentIsLiteral(ts: seq<Token>)
    ensures StartsWithArgument(ts) ==> StartsWithLiteral(ts)
  {
  }

  lemma KeywordsAre(word: string)
    ensures word in KEYWORDS <==> word == "from" || word == "import" || word == "require"
  {
    assert KEYWORDS[0] == "from" && KEYWORDS[1] == "import" && KEYWORDS[2] == "require";
  }

  lemma ImportIsRead(ts: seq<Token>)
    requires AreTokens(ts) && ts != []
    ensures ImportAt(Render(ts)) ==
            if !ts[0].Word? then None
            else match SpecTokens(ts[0].w, ts[1..])
              case Some(lit) => Some(Import(lit[0].body, Render(lit[1..])))
              case None => None
    ensures ts[0].Word? && SpecTokens(ts[0].w, ts[1..]).Some? ==> AreTokens(SpecTokens(ts[0].w, ts[1..]).value)
  {
    hide SpecAfter, SkipWord, Rest, IsValid, Ends, StartsWithLiteral;
    assert IsValid(ts[0]) && Ends(ts[0], Render(ts[1..]));
    TokenIsEaten(ts[0], Render(ts[1..]));
    if ts[0].Word? {
      KeywordsAre(ts[0].w);
      if ts[0].w in KEYWORDS {
        SpecIsRead(ts[0].w, ts[1..]);
      } else {
        hide DropGaps;
      }
    }
  }

  /** The scanner finds exactly what the token list shows. */
  lemma {:induction false} ScannerReadsTokens(ts: seq<Token>)
    requires AreTokens(ts)
    ensures Specs(Render(ts)) == Found(ts)
    decreases |ts|
  {
    hide AreTokens, ImportAt, Rest, SpecTokens, Render, IsPlainLiteral;
    HeadOfTokens(ts);
    if ts != [] {
      ImportIsRead(ts);
      if ImportAt(Render(ts)).Some? {
        var lit := SpecTokens(ts[0].w, ts[1..]).value;
        HeadOfTokens(lit);
        ScannerReadsTokens(lit[1..]);
      } else {
        ScannerReadsTokens(ts[1..]);
      }
    }
  }

  // ----- every text is a token list -----

  lemma {:induction false} BodyOfClosed(s: string, q: char, k: nat)
    requires IsQuoteChar(q) && CloseAt(s, q) == Some(k)
    ensures IsBody(s[..k], q)
  {
    assert s == s[..k] + [q] + s[k + 1..];
    BodyCloses(s[..k], q, s[k + 1..]);
  }

  lemma {:induction false} WordOf(s: string) returns (w: string)
    ensures s == w + SkipWord(s) && (forall i :: 0 <= i < |w| ==> IsLetter(w[i]) || IsDigit(w[i]))
    ensures SkipWord(s) == "" || !(IsLetter(SkipWord(s)[0]) || IsDigit(SkipWord(s)[0]))
  {
    if s == "" || !IsWordChar(s[0]) {
      w := "";
    } else {
      var v := WordOf(s[1..]);
      w := [s[0]] + v;
      assert s == [s[0]] + s[1..];
    }
  }

  lemma FirstComment(s: string) returns (t: Token)
    requires StartsComment(s)
    ensures IsValid(t) && s == Text(t) + Rest(s) && Ends(t, Rest(s))
  {
    hide SkipLine, SkipBlock, HasBlockEnd;
    assert s == s[..2] + s[2..];
    if s[1] == '/' {
      var body := LineOf(s[2..]);
      t := LineComment(body);
    } else {
      var body, closed := BlockOf(s[2..]);
      t := BlockComment(body, closed);
    }
  }

  lemma FirstLiteral(s: string) returns (t: Token)
    requires s != "" && IsStringQuote(s[0])
    ensures IsValid(t) && s == Text(t) + Rest(s) && Ends(t, Rest(s))
  {
    LiteralRest(s);
    RestIsSuffix(s);
    hide CloseAt, IsBody, IsOpenBody, Rest, Eaten;
    match CloseAt(s[1..], s[0])
    case Some(k) =>
      BodyOfClosed(s[1..], s[0], k);
      t := Str(s[0], s[1..][..k], true);
    case None =>
      OpenBodyIsOpen(s[1..], s[0]);
      t := Str(s[0], s[1..], false);
  }

  lemma FirstToken(s: string) returns (t: Token)
    requires s != ""
    ensures IsValid(t) && s == Text(t) + Rest(s) && Ends(t, Rest(s))
  {
    hide SkipLine, SkipBlock, SkipString, HasBlockEnd, IsBody, IsOpenBody, SkipWord;
    if StartsComment(s) {
      t := FirstComment(s);
    } else if IsStringQuote(s[0]) {
      t := FirstLiteral(s);
    } else if IsWordStart(s[0]) {
      var w := WordOf(s);
      t := Word(w);
    } else {
      t := if IsBlankChar(s[0]) then Blank(s[0]) else Punct(s[0]);
    }
  }

  /** Every text is the text of a token list. */
  lemma {:induction false} EveryTextHasTokens(s: string) returns (ts: seq<Token>)
    ensures AreTokens(ts) && Render(ts) == s
    decreases |s|
  {
    hide Rest, IsValid, Ends, Text;
    if s == "" {
      ts := [];
    } else {
      var t := FirstToken(s);
      var more := EveryTextHasTokens(Rest(s));
      ts := [t] + more;
      assert ts[1..] == more;
    }
  }

  // ----- token lists put together -----

  lemma {:induction false} RenderConcat(a: seq<Token>, b: seq<Token>)
    ensures Render(a + b) == Render(a) + Render(b)
  {
    if a == [] {
      assert a + b == b;
    } else {
      assert (a + b)[1..] == a[1..] + b;
      RenderConcat(a[1..], b);
    }
  }

  /** The text after a token list leaves its last token as it is. */
  predicate EndsBefore(ts: seq<Token>, after: string) {
    ts == [] || Ends(ts[|ts| - 1], after)
  }

  lemma TokenIsSomething(t: Token)
    requires IsValid(t)
    ensures Text(t) != ""
  {
  }

  lemma EndsSooner(t: Token, x: string, y: string)
    requires Ends(t, x) && x != ""
    ensures Ends(t, x + y)
  {
  }

  lemma {:induction false} TokensConcat(a: seq<Token>, b: seq<Token>)
    requires AreTokens(a) && AreTokens(b) && EndsBefore(a, Render(b))
    ensures AreTokens(a + b)
  {
    hide IsValid, Ends, Text;
    if a == [] {
      assert a + b == b;
    } else {
      assert (a + b)[0] == a[0] && (a + b)[1..] == a[1..] + b;
      RenderConcat(a[1..], b);
      if |a| > 1 {
        assert a[1..][|a| - 2] == a[|a| - 1];
        TokensConcat(a[1..], b);
        TokenIsSomething(a[1]);
        EndsSooner(a[0], Render(a[1..]), Render(b));
      } else {
        assert a[1..] + b == b && Render(a[1..]) + Render(b) == Render(b);
      }
    }
  }

  lemma {:induction false} DropGapsConcat(a: seq<Token>, b: seq<Token>)
    ensures DropGaps(a + b) == if DropGaps(a) == [] then DropGaps(b) else DropGaps(a) + b
  {
    if a == [] {
      assert a + b == b;
    } else if IsGap(a[0]) {
      assert (a + b)[1..] == a[1..] + b;
      DropGapsConcat(a[1..], b);
    }
  }

  predicate StartsWithWord(ts: seq<Token>) {
    ts != [] && ts[0].Word?
  }

  /** A word that follows completes no import that is under way. */
  lemma SpecTokensBeforeWord(word: string, a: seq<Token>, b: seq<Token>)
    requires StartsWithWord(b)
    ensures SpecTokens(word, a + b) ==
            match SpecTokens(word, a) case Some(lit) => Some(lit + b) case None => None
  {
    hide DropGaps, IsPlainLiteral;
    DropGapsConcat(a, b);
    WordIsKept(b);
    var u := DropGaps(a);
    if u != [] {
      assert (u + b)[0] == u[0] && (u + b)[1..] == u[1..] + b;
      DropGapsConcat(u[1..], b);
      var v := DropGaps(u[1..]);
      if v != [] {
        assert (v + b)[0] == v[0] && (v + b)[1..] == v[1..] + b;
        DropGapsConcat(v[1..], b);
        var x := DropGaps(v[1..]);
        assert x != [] ==> (x + b)[0] == x[0];
      }
      assert v == [] ==> !StartsWithArgument(b) && !StartsWithArgument(v);
    }
  }

  lemma WordIsKept(b: seq<Token>)
    requires StartsWithWord(b)
    ensures DropGaps(b) == b && !StartsWithLiteral(b) && forall c :: !StartsWithPunct(b, c)
  {
  }

  lemma {:induction false} FoundBeforeWord(a: seq<Token>, b: seq<Token>)
    requires StartsWithWord(b)
    ensures Found(a + b) == Found(a) + Found(b)
    decreases |a|
  {
    hide SpecTokens, StartsWithLiteral;
    if a == [] {
      assert a + b == b;
    } else {
      assert (a + b)[0] == a[0] && (a + b)[1..] == a[1..] + b;
      if a[0].Word? {
        SpecTokensBeforeWord(a[0].w, a[1..], b);
      }
      if a[0].Word? && SpecTokens(a[0].w, a[1..]).Some? {
        var lit := SpecTokens(a[0].w, a[1..]).value;
        LiteralComesFirst(lit, b);
        FoundBeforeWord(lit[1..], b);
      } else {
        FoundBeforeWord(a[1..], b);
      }
    }
  }

  lemma LiteralComesFirst(lit: seq<Token>, b: seq<Token>)
    ensures StartsWithLiteral(lit) ==> lit != [] && (lit + b)[0] == lit[0] && (lit + b)[1..] == lit[1..] + b
  {
  }

  /** Blanks and closed comments. */
  predicate AllGaps(w: seq<Token>) {
    forall i :: 0 <= i < |w| ==> IsGap(w[i])
  }

  predicate IsClosed(t: Token) {
    match t
    case BlockComment(_, closed) => closed
    case Str(_, _, closed) => closed
    case LineComment(_) => false
    case _ => true
  }

  /** Blanks and comments between two constructs: the last is no line comment, which would not end. */
  predicate IsSpacing(w: seq<Token>) {
    AreTokens(w) && AllGaps(w) && (w != [] ==> IsClosed(w[|w| - 1]))
  }

  /** Program text before a word: neither a comment nor a literal is open, and no word is under way. */
  predicate IsCodeBeforeWord(ps: seq<Token>) {
    AreTokens(ps) && (ps != [] ==> IsClosed(ps[|ps| - 1]) && !ps[|ps| - 1].Word?)
  }

  lemma {:induction false} GapsAreDropped(w: seq<Token>, ts: seq<Token>)
    requires AllGaps(w)
    ensures DropGaps(w + ts) == DropGaps(ts) && Found(w + ts) == Found(ts)
  {
    if w == [] {
      assert w + ts == ts;
    } else {
      assert (w + ts)[0] == w[0] && (w + ts)[1..] == w[1..] + ts;
      GapsAreDropped(w[1..], ts);
    }
  }

  lemma SpacingThen(w: seq<Token>, ts: seq<Token>)
    requires IsSpacing(w) && AreTokens(ts)
    ensures AreTokens(w + ts) && Render(w + ts) == Render(w) + Render(ts)
    ensures DropGaps(w + ts) == DropGaps(ts) && Found(w + ts) == Found(ts)
    ensures forall c :: IsLetter(c) || IsDigit(c) ==>
              Render(w + ts) != "" && Render(w + ts)[0] == c ==> w == [] && Render(ts) != "" && Render(ts)[0] == c
  {
    hide AreTokens, IsValid;
    assert EndsBefore(w, Render(ts));
    TokensConcat(w, ts);
    RenderConcat(w, ts);
    GapsAreDropped(w, ts);
    if w != [] {
      GapStarts(w);
    }
  }

  lemma GapStarts(w: seq<Token>)
    requires AreTokens(w) && w != [] && IsGap(w[0])
    ensures Render(w) != "" && !IsLetter(Render(w)[0]) && !IsDigit(Render(w)[0])
  {
  }

  lemma TokenThen(t: Token, ts: seq<Token>)
    requires IsValid(t) && Ends(t, Render(ts)) && AreTokens(ts)
    ensures AreTokens([t] + ts) && Render([t] + ts) == Text(t) + Render(ts)
    ensures ([t] + ts)[1..] == ts && ([t] + ts)[0] == t
    ensures !t.Word? ==> Found([t] + ts) == Found(ts)
    ensures !IsGap(t) ==> DropGaps([t] + ts) == [t] + ts
  {
    assert ([t] + ts)[1..] == ts;
    hide IsValid, Ends, Text;
  }

  lemma LiteralThen(q: char, spec: string, ts: seq<Token>)
    requires IsQuoteChar(q) && IsBody(spec, q) && AreTokens(ts)
    ensures var all := [Str(q, spec, true)] + ts;
            && AreTokens(all) && Render(all) == [q] + spec + [q] + Render(ts)
            && all[1..] == ts && DropGaps(all) == all && Found(all) == Found(ts)
            && (StartsWithArgument(all) <==>
                q != '`' && (StartsWithPunct(DropGaps(ts), ')') || StartsWithPunct(DropGaps(ts), ',')))
  {
    hide AreTokens, IsBody, Render, Found;
    var lit := Str(q, spec, true);
    assert Text(lit) + Render(ts) == [q] + spec + [q] + Render(ts);
    TokenThen(lit, ts);
  }

  /** A word and what comes of it, behind any program text. */
  lemma Behind(ps: seq<Token>, word: string, ts: seq<Token>)
    requires IsCodeBeforeWord(ps) && AreTokens(ts) && IsValid(Word(word)) && Ends(Word(word), Render(ts))
    ensures Specs(Render(ps) + (word + Render(ts))) == Specs(Render(ps)) + Found([Word(word)] + ts)
  {
    hide Found, Specs;
    var xs := [Word(word)] + ts;
    TokenThen(Word(word), ts);
    assert EndsBefore(ps, Render(xs));
    TokensConcat(ps, xs);
    RenderConcat(ps, xs);
    hide AreTokens, Render, IsValid;
    ScannerReadsTokens(ps + xs);
    ScannerReadsTokens(ps);
    FoundBeforeWord(ps, xs);
  }

  lemma TextHasTokens(s: string) returns (ts: seq<Token>)
    ensures AreTokens(ts) && Render(ts) == s && Found(ts) == Specs(s)
  {
    ts := EveryTextHasTokens(s);
    ScannerReadsTokens(ts);
  }

  // ----- what is an import, and what is none -----

  /** The text ends, or its next character belongs neither to a blank, nor to a comment, nor to a word. */
  predicate StartsOther(s: string) {
    s != "" ==>
      && !IsBlankChar(s[0]) && !IsLetter(s[0]) && !IsDigit(s[0])
      && !(|s| >= 2 && s[0] == '/' && (s[1] == '/' || s[1] == '*'))
  }

  lemma OtherIsNoGap(ts: seq<Token>)
    requires AreTokens(ts) && StartsOther(Render(ts))
    ensures DropGaps(ts) == ts
    ensures Render(ts) == "" <==> ts == []
    ensures ts != [] ==> !ts[0].Word? && forall c :: StartsWithPunct(ts, c) ==> Render(ts)[0] == c
    ensures StartsWithLiteral(ts) ==> Render(ts) != "" && (Render(ts)[0] == '\'' || Render(ts)[0] == '"')
  {
  }

  /** `from "..."`, `import "..."` and `require "..."`, behind any program text and before any other. */
  lemma BareImportIsFound(ps: seq<Token>, word: string, w: seq<Token>, q: char, spec: string, rest: string)
    requires IsCodeBeforeWord(ps) && IsSpacing(w)
    requires word == "from" || word == "import" || word == "require"
    requires (q == '\'' || q == '"') && IsBody(spec, q)
    ensures Specs(Render(ps) + (word + (Render(w) + ([q] + spec + [q] + rest)))) ==
            Specs(Render(ps)) + ([spec] + Specs(rest))
  {
    hide AreTokens, IsSpacing, IsCodeBeforeWord, Specs, Found, Render, IsBody;
    var rs := TextHasTokens(rest);
    var lit := Str(q, spec, true);
    LiteralThen(q, spec, rs);
    SpacingThen(w, [lit] + rs);
    Behind(ps, word, w + ([lit] + rs));
    FoundSpec(word, w + ([lit] + rs), [lit] + rs);
  }

  lemma FoundSpec(word: string, ts: seq<Token>, lit: seq<Token>)
    requires SpecTokens(word, ts) == Some(lit)
    ensures Found([Word(word)] + ts) == [lit[0].body] + Found(lit[1..])
  {
    assert ([Word(word)] + ts)[1..] == ts;
  }

  lemma FoundNothing(word: string, ts: seq<Token>)
    requires SpecTokens(word, ts) == None
    ensures Found([Word(word)] + ts) == Found(ts)
  {
    assert ([Word(word)] + ts)[1..] == ts;
  }

  lemma SpecOfCall(word: string, ts: seq<Token>, u: seq<Token>)
    requires DropGaps(ts) == [Punct('(')] + u
    ensures SpecTokens(word, ts) ==
            if (word == "import" || word == "require") && StartsWithArgument(DropGaps(u))
            then Some(DropGaps(u))
            else None
  {
    assert ([Punct('(')] + u)[1..] == u;
    hide StartsWithArgument;
  }

  /** A call behind any program text, its arguments as tokens. */
  lemma CallBehind(ps: seq<Token>, word: string, w1: seq<Token>, u: seq<Token>)
    requires IsCodeBeforeWord(ps) && IsSpacing(w1) && AreTokens(u) && IsValid(Word(word))
    ensures Specs(Render(ps) + (word + (Render(w1) + ("(" + Render(u))))) ==
            Specs(Render(ps)) +
            if (word == "import" || word == "require") && StartsWithArgument(DropGaps(u))
            then [DropGaps(u)[0].body] + Found(DropGaps(u)[1..])
            else Found(u)
  {
    hide AreTokens, IsSpacing, IsCodeBeforeWord, Specs, Found, Render, SpecTokens, IsPlainLiteral;
    TokenThen(Punct('('), u);
    var call := [Punct('(')] + u;
    SpacingThen(w1, call);
    Behind(ps, word, w1 + call);
    SpecOfCall(word, w1 + call, u);
    if SpecTokens(word, w1 + call).Some? {
      FoundSpec(word, w1 + call, DropGaps(u));
    } else {
      FoundNothing(word, w1 + call);
    }
  }

  /** `import("...")` and `require("...")`: the literal is a whole argument. */
  lemma CallIsFound(
    ps: seq<Token>, word: string, w1: seq<Token>, w2: seq<Token>, q: char, spec: string, w3: seq<Token>, c: char,
    rest: string)
    requires IsCodeBeforeWord(ps) && IsSpacing(w1) && IsSpacing(w2) && IsSpacing(w3)
    requires (word == "import" || word == "require") && (c == ')' || c == ',')
    requires (q == '\'' || q == '"') && IsBody(spec, q)
    ensures var argument := [q] + spec + [q] + (Render(w3) + ([c] + rest));
            Specs(Render(ps) + (word + (Render(w1) + ("(" + (Render(w2) + argument))))) ==
            Specs(Render(ps)) + ([spec] + Specs(rest))
  {
    hide StartsWithArgument, AreTokens, IsSpacing, IsCodeBeforeWord, Specs, Found, Render, IsBody;
    var rs := TextHasTokens(rest);
    var lit := Str(q, spec, true);
    TokenThen(Punct(c), rs);
    SpacingThen(w3, [Punct(c)] + rs);
    var after := w3 + ([Punct(c)] + rs);
    LiteralThen(q, spec, after);
    SpacingThen(w2, [lit] + after);
    CallBehind(ps, word, w1, w2 + ([lit] + after));
  }

  /** `from(...)` is a method call. */
  lemma FromCallIsNoImport(ps: seq<Token>, w: seq<Token>, rest: string)
    requires IsCodeBeforeWord(ps) && IsSpacing(w)
    ensures Specs(Render(ps) + ("from" + (Render(w) + ("(" + rest)))) == Specs(Render(ps)) + Specs(rest)
  {
    hide AreTokens, IsSpacing, IsCodeBeforeWord, Specs, Found, Render;
    var rs := TextHasTokens(rest);
    TokenThen(Punct('('), rs);
    SpacingThen(w, [Punct('(')] + rs);
    Behind(ps, "from", w + ([Punct('(')] + rs));
    FoundNothing("from", w + ([Punct('(')] + rs));
  }

  /** A keyword followed by anything but a literal or a parenthesis: `import { a }`, `import.meta`, a template. */
  lemma KeywordAloneIsNoImport(ps: seq<Token>, word: string, w: seq<Token>, rest: string)
    requires IsCodeBeforeWord(ps) && IsSpacing(w) && IsValid(Word(word))
    requires StartsOther(rest) && (rest != "" ==> rest[0] != '\'' && rest[0] != '"' && rest[0] != '(')
    ensures Specs(Render(ps) + (word + (Render(w) + rest))) == Specs(Render(ps)) + Specs(rest)
  {
    hide AreTokens, IsSpacing, IsCodeBeforeWord, Specs, Found, Render;
    var rs := TextHasTokens(rest);
    OtherIsNoGap(rs);
    SpacingThen(w, rs);
    Behind(ps, word, w + rs);
    FoundNothing(word, w + rs);
  }

  /** A call whose argument begins with no literal: `import(name)`, a template, an expression. */
  lemma CallOfOtherIsNoImport(ps: seq<Token>, word: string, w1: seq<Token>, w2: seq<Token>, rest: string)
    requires IsCodeBeforeWord(ps) && IsSpacing(w1) && IsSpacing(w2) && IsValid(Word(word))
    requires StartsOther(rest) && (rest != "" ==> rest[0] != '\'' && rest[0] != '"')
    ensures Specs(Render(ps) + (word + (Render(w1) + ("(" + (Render(w2) + rest))))) == Specs(Render(ps)) + Specs(rest)
  {
    hide AreTokens, IsSpacing, IsCodeBeforeWord, Specs, Found, Render;
    var rs := TextHasTokens(rest);
    OtherIsNoGap(rs);
    SpacingThen(w2, rs);
    CallBehind(ps, word, w1, w2 + rs);
  }

  /** A template is no specifier, as a bare literal or as an argument; what it holds is not scanned. */
  lemma TemplateIsNoImport(ps: seq<Token>, word: string, w1: seq<Token>, w2: seq<Token>, body: string, rest: string)
    requires IsCodeBeforeWord(ps) && IsSpacing(w1) && IsSpacing(w2) && IsValid(Word(word)) && IsBody(body, '`')
    ensures var template := "`" + body + "`" + rest;
            && Specs(Render(ps) + (word + (Render(w1) + template))) == Specs(Render(ps)) + Specs(rest)
            && Specs(Render(ps) + (word + (Render(w1) + ("(" + (Render(w2) + template))))) ==
               Specs(Render(ps)) + Specs(rest)
  {
    hide AreTokens, IsSpacing, IsCodeBeforeWord, Specs, Found, Render, IsBody, IsValid;
    var template := "`" + body + "`" + rest;
    LiteralIsSkipped('`', body, rest);
    KeywordAloneIsNoImport(ps, word, w1, template);
    CallOfOtherIsNoImport(ps, word, w1, w2, template);
  }

  lemma LiteralIsSkipped(q: char, body: string, rest: string)
    requires IsQuoteChar(q) && IsBody(body, q)
    ensures Specs([q] + body + [q] + rest) == Specs(rest)
  {
    hide AreTokens, Specs, Found, Render, IsBody;
    var rs := TextHasTokens(rest);
    LiteralThen(q, body, rs);
    ScannerReadsTokens([Str(q, body, true)] + rs);
  }

  lemma ComputedArgument(q: char, spec: string, w3: seq<Token>, rest: string) returns (us: seq<Token>)
    requires IsSpacing(w3) && (q == '\'' || q == '"') && IsBody(spec, q)
    requires StartsOther(rest) && (rest != "" ==> rest[0] != ')' && rest[0] != ',')
    ensures AreTokens(us) && Render(us) == [q] + spec + [q] + (Render(w3) + rest)
    ensures DropGaps(us) == us && !StartsWithArgument(us) && Found(us) == Specs(rest)
  {
    hide AreTokens, IsSpacing, Specs, Found, Render, IsBody, StartsWithArgument;
    var rs := TextHasTokens(rest);
    OtherIsNoGap(rs);
    SpacingThen(w3, rs);
    LiteralThen(q, spec, w3 + rs);
    us := [Str(q, spec, true)] + (w3 + rs);
  }

  /** A literal that is only the beginning of an argument: `import("./a" + x)`. */
  lemma ComputedArgumentIsNoImport(
    ps: seq<Token>, word: string, w1: seq<Token>, w2: seq<Token>, q: char, spec: string, w3: seq<Token>, rest: string)
    requires IsCodeBeforeWord(ps) && IsSpacing(w1) && IsSpacing(w2) && IsSpacing(w3) && IsValid(Word(word))
    requires (q == '\'' || q == '"') && IsBody(spec, q)
    requires StartsOther(rest) && (rest != "" ==> rest[0] != ')' && rest[0] != ',')
    ensures var argument := [q] + spec + [q] + (Render(w3) + rest);
            Specs(Render(ps) + (word + (Render(w1) + ("(" + (Render(w2) + argument))))) ==
            Specs(Render(ps)) + Specs(rest)
  {
    hide AreTokens, IsSpacing, IsCodeBeforeWord, Specs, Found, Render, IsBody, IsValid, StartsOther, StartsWithArgument;
    var us := ComputedArgument(q, spec, w3, rest);
    SpacingThen(w2, us);
    CallBehind(ps, word, w1, w2 + us);
  }
}

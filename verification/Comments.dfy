/** Line and block comments, which the SQL scanner and the import scanner skip in the same way. */
module Comments {
  /** From inside a line comment to the line break, which is not consumed. */
  function SkipLine(s: string): (r: string)
    ensures |r| <= |s|
  {
    if s == "" || s[0] == '\n' then s else SkipLine(s[1..])
  }

  /** From inside a block comment to just after its end; an open comment runs to the end of the text. */
  function SkipBlock(s: string): (r: string)
    ensures |r| <= |s|
  {
    if |s| < 2 then ""
    else if s[0] == '*' && s[1] == '/' then s[2..]
    else SkipBlock(s[1..])
  }

  predicate HasBlockEnd(s: string) {
    exists k :: 0 <= k < |s| - 1 && s[k] == '*' && s[k + 1] == '/'
  }

  lemma BlockEndInTail(s: string)
    requires s != ""
    ensures HasBlockEnd(s[1..]) ==> HasBlockEnd(s)
  {
    if HasBlockEnd(s[1..]) {
      var k :| 0 <= k < |s[1..]| - 1 && s[1..][k] == '*' && s[1..][k + 1] == '/';
      assert s[k + 1] == '*' && s[k + 2] == '/';
    }
  }

  lemma {:induction false} LineEnds(body: string, r: string)
    requires '\n' !in body && (r == "" || r[0] == '\n')
    ensures SkipLine(body + r) == r
  {
    if body == "" {
      assert body + r == r;
    } else {
      assert (body + r)[1..] == body[1..] + r;
      LineEnds(body[1..], r);
    }
  }

  lemma {:induction false} BlockEnds(body: string, r: string)
    requires !HasBlockEnd(body)
    ensures SkipBlock(body + "*/" + r) == r
  {
    var s := body + "*/" + r;
    if body == "" {
      assert s[2..] == r;
    } else {
      assert s[1..] == body[1..] + "*/" + r;
      assert !(s[0] == '*' && s[1] == '/') by {
        if |body| == 1 {
          assert s[1] == '*';
        }
      }
      BlockEndInTail(body);
      BlockEnds(body[1..], r);
    }
  }

  lemma {:induction false} OpenBlockEnds(body: string)
    requires !HasBlockEnd(body)
    ensures SkipBlock(body) == ""
  {
    if |body| >= 2 {
      BlockEndInTail(body);
      OpenBlockEnds(body[1..]);
    }
  }

  /** The character in front joins the first part. */
  lemma InFront(s: string, a: string, b: string)
    requires s != "" && s[1..] == a + b
    ensures s == ([s[0]] + a) + b
  {
    assert s == [s[0]] + s[1..];
  }

  /** The comment that a line scan passes over. */
  lemma {:induction false} LineOf(s: string) returns (body: string)
    ensures '\n' !in body && s == body + SkipLine(s) && (SkipLine(s) == "" || SkipLine(s)[0] == '\n')
  {
    if s == "" || s[0] == '\n' {
      body := "";
      assert "" + s == s;
    } else {
      var b := LineOf(s[1..]);
      body := [s[0]] + b;
      InFront(s, b, SkipLine(s[1..]));
    }
  }

  /** The comment that a block scan passes over; it is open if the text ends first. */
  lemma {:induction false} BlockOf(s: string) returns (body: string, closed: bool)
    ensures !HasBlockEnd(body) && s == body + ((if closed then "*/" else "") + SkipBlock(s))
    ensures !closed ==> SkipBlock(s) == ""
  {
    if |s| < 2 {
      body, closed := s, false;
      assert s == s + ("" + "");
    } else if s[0] == '*' && s[1] == '/' {
      body, closed := "", true;
      assert s == "" + ("*/" + s[2..]);
    } else {
      var b, c := BlockOf(s[1..]);
      body, closed := [s[0]] + b, c;
      InFront(s, b, (if c then "*/" else "") + SkipBlock(s[1..]));
      NoBlockEndInFront(s, b, (if c then "*/" else "") + SkipBlock(s[1..]));
    }
  }

  lemma NoBlockEndInFront(s: string, a: string, b: string)
    requires |s| >= 2 && !(s[0] == '*' && s[1] == '/') && s[1..] == a + b && !HasBlockEnd(a)
    ensures !HasBlockEnd([s[0]] + a)
  {
    var body := [s[0]] + a;
    if a != "" {
      assert a[0] == s[1..][0];
    }
    forall k | 0 <= k < |body| - 1
      ensures !(body[k] == '*' && body[k + 1] == '/')
    {
      if k > 0 {
        assert a[k - 1] == body[k] && a[k] == body[k + 1];
      }
    }
  }
}

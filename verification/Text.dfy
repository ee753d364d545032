/**
  The handful of Rust string operations that several components rely on: splitting and joining
  on a separator, path segments, prefix/suffix stripping, first-occurrence search and trimming.
  Strings are sequences of Unicode scalar values.
 */
module Text {
  import opened Wrappers

  lemma Regroup<T>(a: seq<T>, b: seq<T>, c: seq<T>)
    ensures (a + b) + c == a + (b + c)
  {
  }

  /** `str::split(sep)`: a text with n separators has n + 1 parts, none of them holding one. */
  function Split(s: string, sep: char): (parts: seq<string>)
    ensures |parts| >= 1
    ensures forall i :: 0 <= i < |parts| ==> sep !in parts[i]
  {
    if s == "" then [""] else PrependChar(s[0], sep, Split(s[1..], sep))
  }

  /** Puts one more character in front of a split text. */
  function PrependChar(c: char, sep: char, parts: seq<string>): (r: seq<string>)
    requires parts != []
    ensures |r| >= 1
  {
    if c == sep then [""] + parts else [[c] + parts[0]] + parts[1..]
  }

  lemma PrependCharConcat(c: char, sep: char, parts: seq<string>, more: seq<string>)
    requires parts != []
    ensures PrependChar(c, sep, parts + more) == PrependChar(c, sep, parts) + more
  {
    assert (parts + more)[1..] == parts[1..] + more;
  }

  /** `[str]::join(sep)`. */
  function Join(parts: seq<string>, sep: char): string {
    if parts == [] then ""
    else if |parts| == 1 then parts[0]
    else parts[0] + [sep] + Join(parts[1..], sep)
  }

  lemma {:induction false} SplitWithoutSeparator(s: string, sep: char)
    requires sep !in s
    ensures Split(s, sep) == [s]
  {
    if s == "" {
    } else {
      SplitWithoutSeparator(s[1..], sep);
      assert [s[0]] + s[1..] == s;
    }
  }

  /** Splitting distributes over concatenation at a separator. */
  lemma {:induction false} SplitAtSeparator(a: string, b: string, sep: char)
    ensures Split(a + [sep] + b, sep) == Split(a, sep) + Split(b, sep)
  {
    var s := a + [sep] + b;
    if a == "" {
      assert s[1..] == b;
      assert PrependChar(sep, sep, Split(b, sep)) == [""] + Split(b, sep);
    } else {
      assert s[0] == a[0] && s[1..] == a[1..] + [sep] + b;
      SplitAtSeparator(a[1..], b, sep);
      PrependCharConcat(a[0], sep, Split(a[1..], sep), Split(b, sep));
    }
  }

  /** Joining separator-free parts and splitting again gives the parts back. */
  lemma {:induction false} SplitOfJoin(parts: seq<string>, sep: char)
    requires parts != []
    requires forall i :: 0 <= i < |parts| ==> sep !in parts[i]
    ensures Split(Join(parts, sep), sep) == parts
  {
    if |parts| == 1 {
      SplitWithoutSeparator(parts[0], sep);
    } else {
      SplitAtSeparator(parts[0], Join(parts[1..], sep), sep);
      SplitWithoutSeparator(parts[0], sep);
      SplitOfJoin(parts[1..], sep);
    }
  }

  // ----- path segments -----

  /** The non-empty parts, in order. */
  function NonEmpty(parts: seq<string>): (r: seq<string>)
    ensures forall i :: 0 <= i < |r| ==> r[i] != "" && r[i] in parts
  {
    if parts == [] then []
    else if parts[0] == "" then NonEmpty(parts[1..])
    else [parts[0]] + NonEmpty(parts[1..])
  }

  /** A path as its non-empty `/`-separated segments: repeated and trailing slashes do not matter. */
  function Segments(path: string): (segs: seq<string>)
    ensures ProperSegments(segs)
  {
    NonEmpty(Split(path, '/'))
  }

  predicate ProperSegment(s: string) {
    s != "" && '/' !in s
  }

  predicate ProperSegments(segs: seq<string>) {
    forall i :: 0 <= i < |segs| ==> ProperSegment(segs[i])
  }

  lemma {:induction false} NonEmptyConcat(a: seq<string>, b: seq<string>)
    ensures NonEmpty(a + b) == NonEmpty(a) + NonEmpty(b)
  {
    if a == [] {
      assert a + b == b;
    } else {
      NonEmptyConcat(a[1..], b);
      assert (a + b)[1..] == a[1..] + b;
      Regroup([a[0]], NonEmpty(a[1..]), NonEmpty(b));
    }
  }

  lemma {:induction false} NonEmptyIdentity(parts: seq<string>)
    requires forall i :: 0 <= i < |parts| ==> parts[i] != ""
    ensures NonEmpty(parts) == parts
  {
    if parts != [] {
      NonEmptyIdentity(parts[1..]);
    }
  }

  /** Segmentation distributes over concatenation at a slash. */
  lemma SegmentsAtSlash(a: string, b: string)
    ensures Segments(a + "/" + b) == Segments(a) + Segments(b)
  {
    SplitAtSeparator(a, b, '/');
    NonEmptyConcat(Split(a, '/'), Split(b, '/'));
  }

  /** Every list of proper segments is the segmentation of some path. */
  lemma SegmentsOfJoin(segs: seq<string>)
    requires ProperSegments(segs)
    ensures Segments(Join(segs, '/')) == segs
  {
    if segs == [] {
      assert Split("", '/') == [""];
    } else {
      SplitOfJoin(segs, '/');
      NonEmptyIdentity(segs);
    }
  }

  lemma SegmentsOfOne(s: string)
    requires ProperSegment(s)
    ensures Segments(s) == [s]
  {
    SplitWithoutSeparator(s, '/');
    NonEmptyIdentity([s]);
  }

  // ----- prefixes and suffixes -----

  function StripPrefix(s: string, p: string): (r: Option<string>)
    ensures r.Some? <==> p <= s
    ensures r.Some? ==> s == p + r.value
  {
    if p <= s then Some(s[|p|..]) else None
  }

  function StripSuffix(s: string, p: string): (r: Option<string>)
    ensures r.Some? <==> |p| <= |s| && s[|s| - |p|..] == p
    ensures r.Some? ==> s == r.value + p
  {
    if |p| <= |s| && s[|s| - |p|..] == p then Some(s[..|s| - |p|]) else None
  }

  /** `trim_end_matches(c)`. */
  function TrimEnd(s: string, c: char): (r: string)
    ensures r <= s
    ensures r == "" || r[|r| - 1] != c
    ensures forall i :: |r| <= i < |s| ==> s[i] == c
  {
    if s == "" || s[|s| - 1] != c then s else TrimEnd(s[..|s| - 1], c)
  }

  /** `char::is_whitespace`: the Unicode White_Space property. */
  predicate IsWhitespace(c: char) {
    var n := c as int;
    || 0x09 <= n <= 0x0D || n == 0x20 || n == 0x85 || n == 0xA0 || n == 0x1680
    || 0x2000 <= n <= 0x200A || n == 0x2028 || n == 0x2029 || n == 0x202F || n == 0x205F || n == 0x3000
  }

  /** `s.trim().is_empty()`. */
  predicate IsBlank(s: string) {
    forall i :: 0 <= i < |s| ==> IsWhitespace(s[i])
  }

  predicate IsAsciiDigit(c: char) {
    '0' <= c <= '9'
  }

  predicate IsAsciiAlphanumeric(c: char) {
    '0' <= c <= '9' || 'a' <= c <= 'z' || 'A' <= c <= 'Z'
  }
}

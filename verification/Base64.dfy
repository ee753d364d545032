/** Base64 in the two alphabets of RFC 4648 (sections 4 and 5), strict in decoding. */
module Base64 {
  import opened Wrappers
  import opened Bytes

  datatype Alphabet = Standard | UrlSafe

  type Sextet = v: int | 0 <= v < 64

  function CharOf(a: Alphabet, v: Sextet): char {
    if v < 26 then 'A' + v as char
    else if v < 52 then 'a' + (v - 26) as char
    else if v < 62 then '0' + (v - 52) as char
    else if v == 62 then (if a.Standard? then '+' else '-')
    else (if a.Standard? then '/' else '_')
  }

  function ValueOf(a: Alphabet, c: char): (r: Option<Sextet>)
    ensures r.Some? ==> CharOf(a, r.value) == c
  {
    if 'A' <= c <= 'Z' then Some((c - 'A') as int)
    else if 'a' <= c <= 'z' then Some((c - 'a') as int + 26)
    else if '0' <= c <= '9' then Some((c - '0') as int + 52)
    else if c == (if a.Standard? then '+' else '-') then Some(62)
    else if c == (if a.Standard? then '/' else '_') then Some(63)
    else None
  }

  lemma CharValue(a: Alphabet, v: Sextet)
    ensures ValueOf(a, CharOf(a, v)) == Some(v)
  {
  }

  // ----- bytes and six-bit groups -----

  function Pack(b: Bytes): seq<Sextet>
    decreases |b|
  {
    if |b| == 0 then []
    else if |b| == 1 then [b[0] / 4, b[0] % 4 * 16]
    else if |b| == 2 then [b[0] / 4, b[0] % 4 * 16 + b[1] / 16, b[1] % 16 * 4]
    else Group(b[0], b[1], b[2]) + Pack(b[3..])
  }

  function Group(x: Byte, y: Byte, z: Byte): seq<Sextet> {
    [x / 4, x % 4 * 16 + y / 16, y % 16 * 4 + z / 64, z % 64]
  }

  function First(v: Sextet, w: Sextet): Byte {
    v as int * 4 + w / 16
  }

  function Second(w: Sextet, p: Sextet): Byte {
    w as int % 16 * 16 + p / 4
  }

  function Third(p: Sextet, q: Sextet): Byte {
    p as int % 4 * 64 + q
  }

  /** No impossible length and no stray low bits. */
  function Unpack(v: seq<Sextet>): Option<Bytes>
    decreases |v|
  {
    if |v| == 0 then Some([])
    else if |v| == 1 then None
    else if |v| == 2 then
      if v[1] % 16 == 0 then Some([First(v[0], v[1])]) else None
    else if |v| == 3 then
      if v[2] % 4 == 0 then Some([First(v[0], v[1]), Second(v[1], v[2])]) else None
    else match Unpack(v[4..])
      case None => None
      case Some(rest) => Some([First(v[0], v[1]), Second(v[1], v[2]), Third(v[2], v[3])] + rest)
  }

  lemma GroupOfBytes(x: Byte, y: Byte, z: Byte)
    ensures var v, w, p, q := x / 4, x % 4 * 16 + y / 16, y % 16 * 4 + z / 64, z % 64;
            First(v, w) == x && Second(w, p) == y && Third(p, q) == z
  {
  }

  lemma GroupOfSextets(v: Sextet, w: Sextet, p: Sextet, q: Sextet)
    ensures var x, y, z := First(v, w), Second(w, p), Third(p, q);
            x / 4 == v && x % 4 * 16 + y / 16 == w && y % 16 * 4 + z / 64 == p && z % 64 == q
  {
  }

  lemma UnpackShort(x: Byte, y: Byte)
    ensures Unpack(Pack([x])) == Some([x])
    ensures Unpack(Pack([x, y])) == Some([x, y])
  {
    GroupOfBytes(x, 0, 0);
    GroupOfBytes(x, y, 0);
  }

  lemma UnpackGroup(x: Byte, y: Byte, z: Byte, more: seq<Sextet>)
    requires Unpack(more).Some?
    ensures Unpack(Group(x, y, z) + more) == Some([x, y, z] + Unpack(more).value)
  {
    var v := Group(x, y, z) + more;
    assert v[4..] == more;
    GroupOfBytes(x, y, z);
  }

  lemma SplitThree(b: Bytes)
    requires |b| >= 3
    ensures b == [b[0], b[1], b[2]] + b[3..]
  {
  }

  lemma {:induction false} UnpackPack(b: Bytes)
    ensures Unpack(Pack(b)) == Some(b)
    decreases |b|
  {
    if |b| == 0 {
    } else if |b| == 1 {
      UnpackShort(b[0], b[0]);
      assert b == [b[0]];
    } else if |b| == 2 {
      UnpackShort(b[0], b[1]);
      assert b == [b[0], b[1]];
    } else {
      UnpackPack(b[3..]);
      UnpackGroup(b[0], b[1], b[2], Pack(b[3..]));
      SplitThree(b);
    }
  }

  lemma {:induction false} PackUnpack(v: seq<Sextet>)
    requires Unpack(v).Some?
    ensures Pack(Unpack(v).value) == v
    decreases |v|
  {
    var b := Unpack(v).value;
    if |v| == 0 {
    } else if |v| == 2 {
      GroupOfSextets(v[0], v[1], 0, 0);
      assert v == [v[0], v[1]];
    } else if |v| == 3 {
      GroupOfSextets(v[0], v[1], v[2], 0);
      assert v == [v[0], v[1], v[2]];
    } else {
      GroupOfSextets(v[0], v[1], v[2], v[3]);
      PackUnpack(v[4..]);
      assert b[3..] == Unpack(v[4..]).value;
      assert v == [v[0], v[1], v[2], v[3]] + v[4..];
    }
  }

  // ----- six-bit groups and characters -----

  function Chars(a: Alphabet, v: seq<Sextet>): (s: string)
    ensures |s| == |v|
    ensures forall i :: 0 <= i < |v| ==> s[i] == CharOf(a, v[i])
  {
    seq(|v|, i requires 0 <= i < |v| => CharOf(a, v[i]))
  }

  predicate InAlphabet(a: Alphabet, s: string) {
    forall i :: 0 <= i < |s| ==> ValueOf(a, s[i]).Some?
  }

  function Values(a: Alphabet, s: string): (v: seq<Sextet>)
    requires InAlphabet(a, s)
    ensures |v| == |s|
    ensures forall i :: 0 <= i < |s| ==> v[i] == ValueOf(a, s[i]).value
  {
    seq(|s|, i requires 0 <= i < |s| => ValueOf(a, s[i]).value)
  }

  lemma CharsAreInAlphabet(a: Alphabet, v: seq<Sextet>)
    ensures InAlphabet(a, Chars(a, v)) && Values(a, Chars(a, v)) == v
  {
    forall i | 0 <= i < |v|
      ensures ValueOf(a, Chars(a, v)[i]) == Some(v[i])
    {
      CharValue(a, v[i]);
    }
  }

  // ----- the codec -----

  /** Encoding without padding. */
  function Encode(a: Alphabet, b: Bytes): string {
    Chars(a, Pack(b))
  }

  /** Strict decoding without padding. */
  function Decode(a: Alphabet, s: string): Option<Bytes> {
    if InAlphabet(a, s) then Unpack(Values(a, s)) else None
  }

  lemma DecodeEncode(a: Alphabet, b: Bytes)
    ensures Decode(a, Encode(a, b)) == Some(b)
  {
    CharsAreInAlphabet(a, Pack(b));
    UnpackPack(b);
  }

  /** Strictness: a text that decodes at all is the encoding of what it decodes to. */
  lemma EncodeDecode(a: Alphabet, s: string)
    requires Decode(a, s).Some?
    ensures Encode(a, Decode(a, s).value) == s
  {
    PackUnpack(Values(a, s));
    assert Chars(a, Values(a, s)) == s;
  }

  lemma EncodedCharacters(a: Alphabet, b: Bytes)
    ensures InAlphabet(a, Encode(a, b))
  {
    CharsAreInAlphabet(a, Pack(b));
  }

  /** With padding to a multiple of four characters. */
  function EncodePadded(a: Alphabet, b: Bytes): string {
    Encode(a, b) + (if |b| % 3 == 1 then "==" else if |b| % 3 == 2 then "=" else "")
  }

  // ----- the code of RFC 4648, in its own words -----

  /** The alphabets of tables 1 and 2 of RFC 4648: capitals, small letters, digits, and two characters that differ. */
  lemma AlphabetsAre(a: Alphabet, v: Sextet)
    ensures CharOf(a, 0) == 'A' && CharOf(a, 26) == 'a' && CharOf(a, 52) == '0'
    ensures v != 25 && v != 51 && v < 61 ==> CharOf(a, v + 1) as int == CharOf(a, v) as int + 1
    ensures CharOf(Standard, 62) == '+' && CharOf(Standard, 63) == '/'
    ensures CharOf(UrlSafe, 62) == '-' && CharOf(UrlSafe, 63) == '_'
  {
  }

  /** Three bytes and their four characters are one 24-bit number, and so are, with zeros below, one or two bytes. */
  lemma GroupsAreNumbers(x: Byte, y: Byte, z: Byte, more: Bytes)
    ensures var v := Pack([x, y, z] + more);
            |v| >= 4 && v[4..] == Pack(more)
            && v[0] as int * 262144 + v[1] as int * 4096 + v[2] as int * 64 + v[3] ==
               x as int * 65536 + y as int * 256 + z
    ensures var v := Pack([x, y]); |v| == 3 && v[0] as int * 4096 + v[1] as int * 64 + v[2] == (x as int * 256 + y) * 4
    ensures var v := Pack([x]); |v| == 2 && v[0] as int * 64 + v[1] == x as int * 16
  {
    var b := [x, y, z] + more;
    assert b[3..] == more;
    assert Pack(b) == Group(x, y, z) + Pack(more);
  }

  /** Test vectors of section 10 of RFC 4648. */
  lemma TestVectors()
    ensures EncodePadded(Standard, []) == ""
    ensures EncodePadded(Standard, [102]) == "Zg==" && EncodePadded(Standard, [102, 111]) == "Zm8="
    ensures EncodePadded(Standard, [102, 111, 111]) == "Zm9v"
  {
    assert [102, 111, 111][3..] == [];
    assert Pack([102, 111, 111]) == [25, 38, 61, 47];
    assert Encode(Standard, [102]) == "Zg" && Encode(Standard, [102, 111]) == "Zm8";
    assert Encode(Standard, [102, 111, 111]) == "Zm9v";
  }
}

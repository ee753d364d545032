/** Envelopes `$type:base64` for cells that no plain value can carry (oj-plugin-ffi/src/cellenv.rs). */
module CellEnv {
  import opened Wrappers
  import opened Text
  import opened Bytes
  import opened Json
  import Base64

  predicate TypeOk(c: char) {
    'a' <= c <= 'z' || '0' <= c <= '9' || c == '_'
  }

  predicate IsTypeName(t: string) {
    t != "" && forall i :: 0 <= i < |t| ==> TypeOk(t[i])
  }

  function Lower(c: char): char {
    if 'A' <= c <= 'Z' then c - 'A' + 'a' else c
  }

  function Sanitised(t: string): (r: string)
    ensures |r| == |t|
    ensures forall i :: 0 <= i < |t| ==> TypeOk(r[i])
    ensures forall i :: 0 <= i < |t| && TypeOk(t[i]) ==> r[i] == t[i]
  {
    seq(|t|, i requires 0 <= i < |t| => if TypeOk(Lower(t[i])) then Lower(t[i]) else '_')
  }

  function Encode(typeName: string, bytes: Bytes): string {
    "$" + Sanitised(typeName) + ":" + Base64.EncodePadded(Base64.Standard, bytes)
  }

  /** `split_once(':')`. */
  function SplitOnce(s: string, sep: char): (r: Option<(string, string)>)
    ensures r.Some? ==> s == r.value.0 + [sep] + r.value.1 && sep !in r.value.0
    ensures r.None? ==> sep !in s
  {
    if s == "" then None
    else if s[0] == sep then Some(("", s[1..]))
    else match SplitOnce(s[1..], sep)
      case Some((a, b)) => assert s == [s[0]] + s[1..]; Some(([s[0]] + a, b))
      case None => None
  }

  function Decode(s: string): Option<(string, string)> {
    if s == "" || s[0] != '$' then None
    else match SplitOnce(s[1..], ':')
      case None => None
      case Some((t, payload)) => if IsTypeName(t) then Some((t, payload)) else None
  }

  lemma {:induction false} SplitOnceAt(a: string, b: string, sep: char)
    requires sep !in a
    ensures SplitOnce(a + [sep] + b, sep) == Some((a, b))
  {
    var s := a + [sep] + b;
    if a == "" {
      assert s[1..] == b;
    } else {
      assert s[1..] == a[1..] + [sep] + b;
      SplitOnceAt(a[1..], b, sep);
      assert [a[0]] + a[1..] == a;
    }
  }

  /** A text is recognised exactly when it spells `$`, a lower-case type name, a colon and any payload. */
  lemma DecodeIff(s: string, t: string, payload: string)
    ensures Decode(s) == Some((t, payload)) <==> IsTypeName(t) && s == "$" + t + ":" + payload
  {
    if Decode(s) == Some((t, payload)) {
      assert s == "$" + s[1..];
    }
    if IsTypeName(t) && s == "$" + t + ":" + payload {
      assert s[1..] == t + ":" + payload;
      SplitOnceAt(t, payload, ':');
    }
  }

  lemma {:induction false} TrimPadding(s: string, pad: string)
    requires forall i :: 0 <= i < |pad| ==> pad[i] == '='
    requires s == "" || s[|s| - 1] != '='
    ensures TrimEnd(s + pad, '=') == s
  {
    if pad == "" {
      assert s + pad == s;
    } else {
      assert (s + pad)[..|s + pad| - 1] == s + pad[..|pad| - 1];
      TrimPadding(s, pad[..|pad| - 1]);
    }
  }

  /** The payload is padded base64: without its padding, strict decoding gives the bytes back. */
  lemma PayloadRoundTrip(b: Bytes)
    ensures Base64.Decode(Base64.Standard, TrimEnd(Base64.EncodePadded(Base64.Standard, b), '=')) == Some(b)
  {
    var s, payload := Base64.Encode(Base64.Standard, b), Base64.EncodePadded(Base64.Standard, b);
    Base64.EncodedCharacters(Base64.Standard, b);
    assert payload == s + payload[|s|..];
    assert s != "" ==> Base64.ValueOf(Base64.Standard, s[|s| - 1]).Some?;
    TrimPadding(s, payload[|s|..]);
    Base64.DecodeEncode(Base64.Standard, b);
  }

  /**
    Whatever a driver wraps comes back: the sanitised type name and the base64 of the bytes. The one
    exception is the empty type name, whose envelope is refused.
   */
  lemma RoundTrip(t: string, b: Bytes)
    ensures Decode(Encode(t, b)).Some? <==> t != ""
    ensures t != "" ==> Decode(Encode(t, b)) == Some((Sanitised(t), Base64.EncodePadded(Base64.Standard, b)))
  {
    var payload := Base64.EncodePadded(Base64.Standard, b);
    if t != "" {
      DecodeIff(Encode(t, b), Sanitised(t), payload);
    } else {
      assert Sanitised(t) == "";
      EmptyTypeIsRefused(payload);
    }
  }

  lemma EmptyTypeIsRefused(payload: string)
    ensures Decode("$" + "" + ":" + payload) == None
  {
    var s := "$" + "" + ":" + payload;
    assert s[1..] == "" + ":" + payload;
    SplitOnceAt("", payload, ':');
  }

  // ----- the list of degraded columns -----

  datatype Degraded = Degraded(col: string, ty: string)

  function FieldHit(f: Field): seq<Degraded> {
    match f.val
    case Str(s) => (match Decode(s) case Some((t, _)) => [Degraded(f.key, t)] case None => [])
    case _ => []
  }

  function FieldHits(fields: seq<Field>): seq<Degraded> {
    if fields == [] then [] else FieldHits(fields[..|fields| - 1]) + FieldHit(fields[|fields| - 1])
  }

  /** Every hit of every row, in scan order; rows that are no objects have none. */
  function Hits(rows: seq<Json>): seq<Degraded> {
    if rows == [] then []
    else
      var last := rows[|rows| - 1];
      Hits(rows[..|rows| - 1]) + (if last.Obj? then FieldHits(last.fields) else [])
  }

  /** Without the repetitions. */
  function FirstSeen(hits: seq<Degraded>): seq<Degraded> {
    if hits == [] then [] else Note(FirstSeen(hits[..|hits| - 1]), hits[|hits| - 1])
  }

  function Note(out: seq<Degraded>, d: Degraded): seq<Degraded> {
    if d in out then out else out + [d]
  }

  lemma NoteLast(seen: seq<Degraded>, d: Degraded)
    ensures FirstSeen(seen + [d]) == Note(FirstSeen(seen), d)
    ensures FirstSeen(seen + []) == FirstSeen(seen)
  {
    assert (seen + [d])[..|seen|] == seen && seen + [] == seen;
  }

  lemma NextField(before: seq<Degraded>, fields: seq<Field>, j: nat)
    requires j < |fields|
    ensures before + FieldHits(fields[..j + 1]) == (before + FieldHits(fields[..j])) + FieldHit(fields[j])
  {
    assert fields[..j + 1][..j] == fields[..j];
  }

  /** One row's contribution to the list. */
  method NoteRow(fields: seq<Field>, noted: seq<Degraded>, ghost before: seq<Degraded>) returns (out: seq<Degraded>)
    requires noted == FirstSeen(before)
    ensures out == FirstSeen(before + FieldHits(fields))
  {
    out := noted;
    assert before + FieldHits(fields[..0]) == before;
    for j := 0 to |fields|
      invariant out == FirstSeen(before + FieldHits(fields[..j]))
    {
      ghost var seen := before + FieldHits(fields[..j]);
      NextField(before, fields, j);
      var hit := if fields[j].val.Str? then Decode(fields[j].val.s) else None;
      if hit.Some? {
        var item := Degraded(fields[j].key, hit.value.0);
        NoteLast(seen, item);
        if item !in out {
          out := out + [item];
        }
      } else {
        NoteLast(seen, Degraded("", ""));
      }
    }
    assert fields[..|fields|] == fields;
  }

  method DegradedOf(rows: seq<Json>) returns (out: seq<Degraded>)
    ensures out == FirstSeen(Hits(rows))
  {
    out := [];
    for i := 0 to |rows|
      invariant out == FirstSeen(Hits(rows[..i]))
    {
      assert rows[..i + 1][..i] == rows[..i];
      if rows[i].Obj? {
        out := NoteRow(rows[i].fields, out, Hits(rows[..i]));
      } else {
        assert Hits(rows[..i]) + [] == Hits(rows[..i]);
      }
    }
    assert rows[..|rows|] == rows;
  }

  function FirstIndex(hits: seq<Degraded>, d: Degraded): (k: nat)
    requires d in hits
    ensures k < |hits| && hits[k] == d && d !in hits[..k]
  {
    if hits[0] == d then 0 else 1 + FirstIndex(hits[1..], d)
  }

  lemma {:induction false} FirstIndexIsLocal(hits: seq<Degraded>, d: Degraded, more: Degraded)
    requires d in hits
    ensures FirstIndex(hits + [more], d) == FirstIndex(hits, d)
  {
    if hits[0] != d {
      assert (hits + [more])[1..] == hits[1..] + [more];
      FirstIndexIsLocal(hits[1..], d, more);
    }
  }

  /** Each (column, type) hit of all rows is listed exactly once, in the order of first appearance. */
  lemma {:induction false} FirstSeenOnceInOrder(hits: seq<Degraded>)
    ensures forall d :: d in FirstSeen(hits) <==> d in hits
    ensures forall i, j :: 0 <= i < j < |FirstSeen(hits)| ==>
              FirstIndex(hits, FirstSeen(hits)[i]) < FirstIndex(hits, FirstSeen(hits)[j])
  {
    if hits != [] {
      var init, d := hits[..|hits| - 1], hits[|hits| - 1];
      var before, after := FirstSeen(init), FirstSeen(hits);
      assert hits == init + [d];
      FirstSeenOnceInOrder(init);
      assert forall x :: x in hits <==> x in init || x == d;
      forall x | x in init
        ensures FirstIndex(hits, x) == FirstIndex(init, x)
      {
        FirstIndexIsLocal(init, x, d);
      }
      if d !in before {
        assert FirstIndex(hits, d) == |init| by {
          assert d !in init;
        }
      }
    }
  }

  // ----- the envelope, character by character -----

  /** Letters become small, digits and underscores stay, everything else becomes an underscore. */
  lemma SanitisedIs(t: string, i: nat)
    requires i < |t|
    ensures |Sanitised(t)| == |t|
    ensures var c, r := t[i] as int, Sanitised(t)[i] as int;
            r == if 65 <= c <= 90 then c + 32
                 else if 97 <= c <= 122 || 48 <= c <= 57 || c == 95 then c
                 else 95
  {
  }

  /** An instance: three bytes of a column type in capitals. */
  lemma EnvelopeExample()
    ensures Encode("BYTEA", [102, 111, 111]) == "$bytea:Zm9v"
  {
    assert Sanitised("BYTEA") == "bytea";
    Base64.TestVectors();
  }
}

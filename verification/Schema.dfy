/**
  Schema declarations of request contracts and their audit (src/contract.rs). The audit is the gate
  in front of the run-time checker: an audited schema has only known keywords, well-formed type
  declarations and compilable patterns, at every depth.
 */
module Schema {
  import opened Wrappers
  import opened Json

  datatype F64 = NotANumber | Finite(f: real) | NonFinite

  /** Regular expressions, float parsing and JSON parsing, as functions given from outside. */
  datatype Host = Host(
    regexOk: string -> bool,
    regexMatch: (string, string) -> bool,
    parseF64: string -> F64,
    parseJson: string -> Option<Json>)

  const SUPPORTED_KEYWORDS := [
    "type", "required", "properties", "items", "additionalProperties", "minimum", "maximum", "minLength",
    "maxLength", "pattern", "enum", "nullable", "minItems", "maxItems", "default"]
  const SCALAR_TYPES := ["string", "number", "integer", "boolean", "null"]
  const ALL_TYPES := ["string", "number", "integer", "boolean", "object", "array", "null"]
  const FORBIDDEN_NAMES := ["__proto__", "constructor", "prototype"]
  const COUNT_KEYWORDS := ["minLength", "maxLength", "minItems", "maxItems"]
  const RANGE_KEYWORDS := ["minimum", "maximum"]

  // ----- type declarations -----

  datatype TypeError = UnknownType(name: string) | EmptyTypeArray | NonStringEntry | NotAType

  function DeclaredTypes(t: Json): (r: Result<seq<string>, TypeError>)
    ensures r.Ok? ==> r.value != [] && forall i :: 0 <= i < |r.value| ==> r.value[i] in ALL_TYPES
  {
    match t
    case Str(s) => if s in ALL_TYPES then Ok([s]) else Err(UnknownType(s))
    case Arr(items) => if items == [] then Err(EmptyTypeArray) else CollectTypes(items)
    case _ => Err(NotAType)
  }

  function CollectTypes(items: seq<Json>): (r: Result<seq<string>, TypeError>)
    ensures r.Ok? ==> |r.value| == |items| && forall i :: 0 <= i < |r.value| ==> r.value[i] in ALL_TYPES
  {
    if items == [] then Ok([])
    else if !items[0].Str? then Err(NonStringEntry)
    else if items[0].s !in ALL_TYPES then Err(UnknownType(items[0].s))
    else match CollectTypes(items[1..])
      case Ok(rest) => Ok([items[0].s] + rest)
      case Err(e) => Err(e)
  }

  // ----- what the audit guarantees -----

  predicate IsStringArray(v: Json) {
    v.Arr? && forall i :: 0 <= i < |v.items| ==> v.items[i].Str?
  }

  predicate NumberIfPresent(v: Json, key: string) {
    Get(v, key).Some? ==> Get(v, key).value.Num?
  }

  predicate KnownKeywords(v: Json) {
    v.Obj? && forall i :: 0 <= i < |v.fields| ==> v.fields[i].key in SUPPORTED_KEYWORDS
  }

  predicate TypeAndPatternOk(h: Host, v: Json) {
    && (match Get(v, "type") case Some(t) => DeclaredTypes(t).Ok? case None => true)
    && (match Get(v, "pattern") case Some(p) => p.Str? && h.regexOk(p.s) case None => true)
  }

  predicate EnumAndRequiredOk(v: Json) {
    && (match Get(v, "enum") case Some(e) => e.Arr? && e.items != [] case None => true)
    && (match Get(v, "required") case Some(r) => IsStringArray(r) case None => true)
  }

  predicate AreNumbers(v: Json, keys: seq<string>) {
    forall i :: 0 <= i < |keys| ==> NumberIfPresent(v, keys[i])
  }

  predicate NumbersOk(v: Json) {
    AreNumbers(v, COUNT_KEYWORDS) && AreNumbers(v, RANGE_KEYWORDS)
  }

  /** The demands on one schema object, its children left aside. */
  predicate LocallyAudited(h: Host, v: Json) {
    && KnownKeywords(v)
    && TypeAndPatternOk(h, v)
    && EnumAndRequiredOk(v)
    && NumbersOk(v)
    && (match Get(v, "properties") case Some(ps) => ps.Obj? case None => true)
  }

  /** Property names become keys of generated client code; three of them would reach the prototype. */
  predicate AllowedName(name: string) {
    name !in FORBIDDEN_NAMES
  }

  /** The demands at every depth. */
  predicate Audited(h: Host, v: Json)
    decreases v
  {
    && LocallyAudited(h, v)
    && (match Get(v, "properties")
        case Some(Obj(ps)) =>
          forall i :: 0 <= i < |ps| ==> AllowedName(ps[i].key) && Audited(h, ps[i].val)
        case _ => true)
    && (match Get(v, "items") case Some(sub) => Audited(h, sub) case None => true)
  }

  function OwnPattern(v: Json): seq<string> {
    match Get(v, "pattern")
    case Some(Str(p)) => [p]
    case _ => []
  }

  /** Every pattern of the schema, at any depth, in the order the audit meets them. */
  function PatternsOf(v: Json): seq<string>
    decreases v, 0
  {
    OwnPattern(v) + PropertyPatterns(v) + ItemPatterns(v)
  }

  function PropertyPatterns(v: Json): seq<string>
    decreases v, 0, 0
  {
    match Get(v, "properties")
    case Some(Obj(ps)) => FieldPatterns(Obj(ps), |ps|)
    case _ => []
  }

  function ItemPatterns(v: Json): seq<string>
    decreases v, 0, 0
  {
    match Get(v, "items")
    case Some(sub) => PatternsOf(sub)
    case None => []
  }

  /** Patterns of the first `n` sub-schemas of a properties object. */
  function FieldPatterns(props: Json, n: nat): seq<string>
    requires props.Obj? && n <= |props.fields|
    decreases props, 1, n
  {
    if n == 0 then [] else FieldPatterns(props, n - 1) + PatternsOf(props.fields[n - 1].val)
  }

  // ----- the audit -----

  datatype AuditError =
    | NotAnObject
    | UnsupportedKeyword(key: string)
    | BadType(error: TypeError)
    | PatternNotAString
    | BadRegex(pattern: string)
    | BadEnum
    | BadRequired
    | NotANumberAt(key: string)
    | PropertiesNotAnObject
    | ForbiddenName(name: string)
    | NotScalar(ty: string)
    | Nested
    | ChannelTypeNotObject

  method AuditKeys(v: Json) returns (r: Result<(), AuditError>)
    requires v.Obj?
    ensures r.Ok? <==> KnownKeywords(v)
  {
    for i := 0 to |v.fields|
      invariant forall j :: 0 <= j < i ==> v.fields[j].key in SUPPORTED_KEYWORDS
    {
      if v.fields[i].key !in SUPPORTED_KEYWORDS {
        return Err(UnsupportedKeyword(v.fields[i].key));
      }
    }
    return Ok(());
  }

  method AuditNumbers(v: Json, keys: seq<string>) returns (r: Result<(), AuditError>)
    ensures r.Ok? <==> AreNumbers(v, keys)
  {
    for i := 0 to |keys|
      invariant forall j :: 0 <= j < i ==> NumberIfPresent(v, keys[j])
    {
      if !NumberIfPresent(v, keys[i]) {
        return Err(NotANumberAt(keys[i]));
      }
    }
    return Ok(());
  }

  /** Everything about one schema object but its keys and children; a compilable pattern is collected. */
  method AuditLocal(h: Host, v: Json, pats: seq<string>) returns (r: Result<(), AuditError>, out: seq<string>)
    requires KnownKeywords(v)
    ensures r.Ok? <==> TypeAndPatternOk(h, v) && EnumAndRequiredOk(v) && NumbersOk(v)
    ensures r.Ok? ==> out == pats + OwnPattern(v)
  {
    hide AreNumbers, DeclaredTypes, IsStringArray;
    out := pats;
    var t := Get(v, "type");
    if t.Some? && DeclaredTypes(t.value).Err? {
      return Err(BadType(DeclaredTypes(t.value).error)), out;
    }
    var p := Get(v, "pattern");
    if p.Some? {
      if !p.value.Str? {
        return Err(PatternNotAString), out;
      }
      if !h.regexOk(p.value.s) {
        return Err(BadRegex(p.value.s)), out;
      }
      out := out + [p.value.s];
    }
    var e := Get(v, "enum");
    if e.Some? && (!e.value.Arr? || e.value.items == []) {
      return Err(BadEnum), out;
    }
    var req := Get(v, "required");
    if req.Some? && !IsStringArray(req.value) {
      return Err(BadRequired), out;
    }
    r := AuditNumbers(v, COUNT_KEYWORDS);
    if r.Ok? {
      r := AuditNumbers(v, RANGE_KEYWORDS);
    }
  }

  lemma Regroup(a: seq<string>, b: seq<string>, c: seq<string>, d: seq<string>)
    ensures a + b + c + d == a + (b + c + d)
    ensures a + b + [] == a + b && a + b + c + [] == a + b + c
  {
  }

  /** The recursive audit: accepts exactly the audited schemas and collects exactly their patterns. */
  method AuditKeywords(h: Host, v: Json, pats: seq<string>) returns (r: Result<(), AuditError>, out: seq<string>)
    ensures r.Ok? <==> Audited(h, v)
    ensures r.Ok? ==> out == pats + PatternsOf(v)
    decreases v, 0
  {
    out := pats;
    if !v.Obj? {
      return Err(NotAnObject), out;
    }
    hide KnownKeywords, TypeAndPatternOk, EnumAndRequiredOk, NumbersOk, AllowedName, OwnPattern, FieldPatterns;
    r := AuditKeys(v);
    if r.Err? {
      return r, out;
    }
    r, out := AuditLocal(h, v, out);
    if r.Err? {
      return r, out;
    }
    var props := Get(v, "properties");
    if props.Some? {
      if !props.value.Obj? {
        return Err(PropertiesNotAnObject), out;
      }
      r, out := AuditProperties(h, props.value, out);
      if r.Err? {
        return r, out;
      }
    }
    Regroup(pats, OwnPattern(v), PropertyPatterns(v), ItemPatterns(v));
    var items := Get(v, "items");
    if items.Some? {
      r, out := AuditKeywords(h, items.value, out);
    }
  }

  method AuditProperties(h: Host, props: Json, pats: seq<string>) returns (r: Result<(), AuditError>, out: seq<string>)
    requires props.Obj?
    ensures r.Ok? <==>
            forall i :: 0 <= i < |props.fields| ==>
              AllowedName(props.fields[i].key) && Audited(h, props.fields[i].val)
    ensures r.Ok? ==> out == pats + FieldPatterns(props, |props.fields|)
    decreases props, 1
  {
    hide Audited, PatternsOf, AllowedName;
    out := pats;
    r := Ok(());
    var ps := props.fields;
    for i := 0 to |ps|
      invariant r.Ok?
      invariant forall j :: 0 <= j < i ==> AllowedName(ps[j].key) && Audited(h, ps[j].val)
      invariant out == pats + FieldPatterns(props, i)
    {
      if !AllowedName(ps[i].key) {
        return Err(ForbiddenName(ps[i].key)), out;
      }
      r, out := AuditKeywords(h, ps[i].val, out);
      if r.Err? {
        return;
      }
    }
  }

  // ----- the string channels -----

  /** A property of `params` or `query`: scalar types only, nothing nested, and audited. */
  predicate ScalarProperty(h: Host, sub: Json) {
    && (match Get(sub, "type")
        case Some(t) =>
          && DeclaredTypes(t).Ok?
          && forall i :: 0 <= i < |DeclaredTypes(t).value| ==> DeclaredTypes(t).value[i] in SCALAR_TYPES
        case None => true)
    && Audited(h, sub)
    && Get(sub, "properties").None? && Get(sub, "items").None?
  }

  predicate ScalarChannel(h: Host, s: Json) {
    && s.Obj?
    && (match Get(s, "type") case Some(t) => DeclaredTypes(t) == Ok(["object"]) case None => true)
    && (match Get(s, "properties")
        case Some(props) => props.Obj? && forall i :: 0 <= i < |props.fields| ==> ScalarProperty(h, props.fields[i].val)
        case None => true)
    && Audited(h, s)
  }

  /** Properties are audited once on their own and once more as part of the whole. */
  function ScalarChannelPatterns(s: Json): seq<string> {
    PropertyPatterns(s) + PatternsOf(s)
  }

  method AuditScalarProperty(h: Host, sub: Json, pats: seq<string>)
    returns (r: Result<(), AuditError>, out: seq<string>)
    ensures r.Ok? <==> ScalarProperty(h, sub)
    ensures r.Ok? ==> out == pats + PatternsOf(sub)
  {
    out := pats;
    var t := Get(sub, "type");
    if t.Some? {
      match DeclaredTypes(t.value) {
        case Err(e) => return Err(BadType(e)), out;
        case Ok(types) =>
          for i := 0 to |types|
            invariant forall j :: 0 <= j < i ==> types[j] in SCALAR_TYPES
          {
            if types[i] !in SCALAR_TYPES {
              return Err(NotScalar(types[i])), out;
            }
          }
      }
    }
    r, out := AuditKeywords(h, sub, out);
    if r.Ok? && (Get(sub, "properties").Some? || Get(sub, "items").Some?) {
      r := Err(Nested);
    }
  }

  method AuditScalarChannel(h: Host, schema: Option<Json>, pats: seq<string>)
    returns (r: Result<(), AuditError>, out: seq<string>)
    ensures r.Ok? <==> schema.None? || ScalarChannel(h, schema.value)
    ensures r.Ok? ==> out == pats + (if schema.Some? then ScalarChannelPatterns(schema.value) else [])
  {
    hide Audited, PatternsOf, DeclaredTypes, ScalarProperty;
    out := pats;
    if schema.None? {
      return Ok(()), out;
    }
    var s := schema.value;
    if !s.Obj? {
      return Err(NotAnObject), out;
    }
    var t := Get(s, "type");
    if t.Some? {
      match DeclaredTypes(t.value) {
        case Err(e) => return Err(BadType(e)), out;
        case Ok(types) =>
          if types != ["object"] {
            return Err(ChannelTypeNotObject), out;
          }
      }
    }
    var props := Get(s, "properties");
    if props.Some? {
      if !props.value.Obj? {
        return Err(PropertiesNotAnObject), out;
      }
      var ps := props.value.fields;
      for i := 0 to |ps|
        invariant forall j :: 0 <= j < i ==> ScalarProperty(h, ps[j].val)
        invariant out == pats + FieldPatterns(props.value, i)
      {
        r, out := AuditScalarProperty(h, ps[i].val, out);
        if r.Err? {
          return;
        }
      }
    }
    assert out == pats + PropertyPatterns(s);
    Regroup(pats, PropertyPatterns(s), PatternsOf(s), []);
    r, out := AuditKeywords(h, s, out);
  }
}

/**
  Path and query parameters arrive as strings and are coerced to their declared types before the
  value checker sees them (src/contract.rs); enumerations then compare numbers by value.
 */
module Coercion {
  import opened Wrappers
  import opened Json
  import opened Decimal
  import opened Schema
  import opened Contract

  /** A string map in some iteration order; keys are distinct. */
  predicate DistinctKeys(src: seq<(string, string)>) {
    forall i, j :: 0 <= i < j < |src| ==> src[i].0 != src[j].0
  }

  type StringMap = src: seq<(string, string)> | DistinctKeys(src) witness []

  /** One attempt at one type. A float text beyond the finite range parses, but has no JSON number. */
  function CoerceAs(h: Host, ty: string, raw: string): Option<Json> {
    if ty == "integer" then
      match ParseI64(raw) case Some(i) => Some(Num(IntegerNumber(i))) case None => None
    else if ty == "number" then
      match h.parseF64(raw) case NotANumber => None case Finite(f) => Some(Num(Float(f))) case NonFinite => Some(Null)
    else if ty == "boolean" then
      if raw == "true" then Some(Bool(true)) else if raw == "false" then Some(Bool(false)) else None
    else if ty == "null" then
      if raw == "null" then Some(Null) else None
    else if ty == "string" then Some(Str(raw))
    else None
  }

  function IntegerNumber(i: int): Number
    requires I64_MIN <= i <= I64_MAX
  {
    if i >= 0 then PosInt(i) else NegInt(i)
  }

  /** The first declared type that succeeds. */
  function CoerceOne(h: Host, raw: string, target: seq<string>): Option<Json> {
    if target == [] then None
    else match CoerceAs(h, target[0], raw)
      case Some(v) => Some(v)
      case None => CoerceOne(h, raw, target[1..])
  }

  datatype CoerceError = BadPropertyType(key: string) | CannotParse(key: string)

  function TargetTypes(schema: Json, key: string): Result<seq<string>, TypeError> {
    match PropertySchema(schema, key)
    case Some(sub) => (match Get(sub, "type") case Some(t) => DeclaredTypes(t) case None => Ok(["string"]))
    case None => Ok(["string"])
  }

  function CoerceKey(h: Host, schema: Json, key: string, raw: string): Result<Json, CoerceError> {
    match TargetTypes(schema, key)
    case Err(_) => Err(BadPropertyType(key))
    case Ok(target) =>
      match CoerceOne(h, raw, target)
      case Some(v) => Ok(v)
      case None => if "null" in target then Ok(Null) else Err(CannotParse(key))
  }

  /** The coerced object of the first `n` entries. */
  function CoercePrefix(h: Host, schema: Json, src: StringMap, n: nat): Result<seq<Field>, CoerceError>
    requires n <= |src|
  {
    if n == 0 then Ok([])
    else match CoercePrefix(h, schema, src, n - 1)
      case Err(e) => Err(e)
      case Ok(done) =>
        match CoerceKey(h, schema, src[n - 1].0, src[n - 1].1)
        case Ok(v) => Ok(done + [Field(src[n - 1].0, v)])
        case Err(e) => Err(e)
  }

  function Coerce(h: Host, schema: Json, src: StringMap): Result<Json, CoerceError> {
    match CoercePrefix(h, schema, src, |src|)
    case Ok(fields) => Ok(Obj(fields))
    case Err(e) => Err(e)
  }

  method CoerceScalars(h: Host, schema: Json, src: StringMap) returns (r: Result<Json, CoerceError>)
    ensures r == Coerce(h, schema, src)
  {
    hide CoerceOne, TargetTypes;
    var out := [];
    for i := 0 to |src|
      invariant CoercePrefix(h, schema, src, i) == Ok(out)
    {
      var (key, raw) := src[i];
      var target := TargetTypes(schema, key);
      if target.Err? {
        PrefixError(h, schema, src, i + 1);
        return Err(BadPropertyType(key));
      }
      var v := CoerceOne(h, raw, target.value);
      if v.Some? {
        out := out + [Field(key, v.value)];
      } else if "null" in target.value {
        out := out + [Field(key, Null)];
      } else {
        PrefixError(h, schema, src, i + 1);
        return Err(CannotParse(key));
      }
    }
    return Ok(Obj(out));
  }

  lemma {:induction false} PrefixError(h: Host, schema: Json, src: StringMap, n: nat)
    requires n <= |src| && CoercePrefix(h, schema, src, n).Err?
    ensures CoercePrefix(h, schema, src, |src|) == CoercePrefix(h, schema, src, n)
    decreases |src| - n
  {
    if n < |src| {
      PrefixError(h, schema, src, n + 1);
    }
  }

  /** A coerced object has exactly the keys of its source, in the same order, each coerced on its own. */
  lemma {:induction false} CoercedKeys(h: Host, schema: Json, src: StringMap, n: nat)
    requires n <= |src| && CoercePrefix(h, schema, src, n).Ok?
    ensures var fields := CoercePrefix(h, schema, src, n).value;
            && |fields| == n
            && forall i :: 0 <= i < n ==>
                 CoerceKey(h, schema, src[i].0, src[i].1) == Ok(fields[i].val) && fields[i].key == src[i].0
  {
    if n > 0 {
      CoercedKeys(h, schema, src, n - 1);
    }
  }

  // ----- coerced values against their own types -----

  /** The first type that accepts the text is `number`, and the text denotes no finite double. */
  ghost predicate FirstHitIsNonFinite(h: Host, types: seq<string>, raw: string) {
    exists i :: 0 <= i < |types| && IsNonFiniteHit(h, types, raw, i)
  }

  ghost predicate IsNonFiniteHit(h: Host, types: seq<string>, raw: string, i: nat)
    requires i < |types|
  {
    types[i] == "number" && h.parseF64(raw) == NonFinite && forall j :: 0 <= j < i ==> CoerceAs(h, types[j], raw).None?
  }

  lemma {:induction false} CoerceOneHit(h: Host, raw: string, types: seq<string>) returns (i: nat)
    ensures i <= |types|
    ensures forall j :: 0 <= j < i ==> CoerceAs(h, types[j], raw).None?
    ensures if i < |types|
            then CoerceAs(h, types[i], raw).Some? && CoerceOne(h, raw, types) == CoerceAs(h, types[i], raw)
            else CoerceOne(h, raw, types) == None
  {
    if types == [] || CoerceAs(h, types[0], raw).Some? {
      i := 0;
    } else {
      var k := CoerceOneHit(h, raw, types[1..]);
      i := k + 1;
      forall j | 0 <= j < i
        ensures CoerceAs(h, types[j], raw).None?
      {
        assert j > 0 ==> types[j] == types[1..][j - 1];
      }
    }
  }

  lemma CoercedMatches(h: Host, ty: string, raw: string)
    requires CoerceAs(h, ty, raw).Some?
    ensures MatchesType(CoerceAs(h, ty, raw).value, ty) <==> !(ty == "number" && h.parseF64(raw) == NonFinite)
    ensures ty == "number" && h.parseF64(raw) == NonFinite ==> CoerceAs(h, ty, raw).value == Null
  {
  }

  lemma NonFiniteHitIsFirst(h: Host, types: seq<string>, raw: string, i: nat)
    requires i <= |types| && forall j :: 0 <= j < i ==> CoerceAs(h, types[j], raw).None?
    requires i < |types| ==> CoerceAs(h, types[i], raw).Some?
    ensures FirstHitIsNonFinite(h, types, raw) <==> i < |types| && types[i] == "number" && h.parseF64(raw) == NonFinite
  {
    forall k | 0 <= k < |types| && IsNonFiniteHit(h, types, raw, k)
      ensures k == i
    {
      NumberTakesNonFinite(h, raw);
    }
    if i < |types| && types[i] == "number" && h.parseF64(raw) == NonFinite {
      assert IsNonFiniteHit(h, types, raw, i);
    }
  }

  lemma NumberTakesNonFinite(h: Host, raw: string)
    ensures h.parseF64(raw) == NonFinite ==> CoerceAs(h, "number", raw) == Some(Null)
  {
  }

  // ----- numbers against strings in a list of types -----

  predicate TakesAsNumber(h: Host, raw: string, ty: string) {
    (ty == "integer" && ParseI64(raw).Some?) || (ty == "number" && h.parseF64(raw).Finite?)
  }

  predicate TakesOtherwise(h: Host, raw: string, ty: string) {
    || ty == "string"
    || (ty == "boolean" && (raw == "true" || raw == "false"))
    || (ty == "null" && raw == "null")
    || (ty == "number" && h.parseF64(raw).NonFinite?)
  }

  lemma TakenOneWay(h: Host, raw: string, ty: string)
    ensures TakesAsNumber(h, raw, ty) <==> CoerceAs(h, ty, raw).Some? && CoerceAs(h, ty, raw).value.Num?
    ensures TakesOtherwise(h, raw, ty) <==> CoerceAs(h, ty, raw).Some? && !CoerceAs(h, ty, raw).value.Num?
  {
  }

  /** Some type of the list takes the text as a number, and none before it takes it otherwise. */
  ghost predicate NumberComesFirst(h: Host, raw: string, types: seq<string>) {
    exists i :: 0 <= i < |types| && NumberComesAt(h, raw, types, i)
  }

  ghost predicate NumberComesAt(h: Host, raw: string, types: seq<string>, i: nat)
    requires i < |types|
  {
    TakesAsNumber(h, raw, types[i]) && forall j :: 0 <= j < i ==> !TakesOtherwise(h, raw, types[j])
  }

  /** For every text and every list of types: the order of the list alone decides whether a number comes out. */
  lemma {:induction false} NumberComesOutIff(h: Host, raw: string, types: seq<string>)
    ensures CoerceOne(h, raw, types).Some? && CoerceOne(h, raw, types).value.Num? <==> NumberComesFirst(h, raw, types)
  {
    hide CoerceAs, TakesAsNumber, TakesOtherwise, CoerceOne;
    var k := CoerceOneHit(h, raw, types);
    forall j | 0 <= j < |types|
      ensures TakesAsNumber(h, raw, types[j]) || TakesOtherwise(h, raw, types[j]) <==> CoerceAs(h, types[j], raw).Some?
      ensures !(TakesAsNumber(h, raw, types[j]) && TakesOtherwise(h, raw, types[j]))
    {
      TakenOneWay(h, raw, types[j]);
    }
    if k < |types| {
      TakenOneWay(h, raw, types[k]);
      assert TakesAsNumber(h, raw, types[k]) ==> NumberComesAt(h, raw, types, k);
    }
    if i :| 0 <= i < |types| && NumberComesAt(h, raw, types, i) {
      assert k <= i;
    }
  }

  /**
    "A number is preferred to a string", for a text that is a number and no keyword: exactly when a type
    that takes it as a number stands in the list before any `string`.
   */
  lemma NumberIsPreferredIff(h: Host, raw: string, types: seq<string>)
    requires h.parseF64(raw).Finite? && raw != "true" && raw != "false" && raw != "null"
    ensures CoerceOne(h, raw, types).Some? && CoerceOne(h, raw, types).value.Num? <==>
            exists i :: 0 <= i < |types| && TakesAsNumber(h, raw, types[i]) && "string" !in types[..i]
  {
    hide CoerceOne, CoerceAs;
    NumberComesOutIff(h, raw, types);
    forall i | 0 <= i < |types|
      ensures NumberComesAt(h, raw, types, i) <==> TakesAsNumber(h, raw, types[i]) && "string" !in types[..i]
    {
      assert forall j :: 0 <= j < i ==> types[..i][j] == types[j];
      assert "string" in types[..i] <==> exists j :: 0 <= j < i && types[j] == "string";
    }
  }

  /** An instance in which it is not: the list names `string` first. */
  lemma StringFirstKeepsText(h: Host)
    requires h.parseF64("12") == Finite(12.0)
    ensures CoerceOne(h, "12", ["string", "number"]) == Some(Str("12"))
    ensures CoerceOne(h, "12", ["number", "string"]) == Some(Num(Float(12.0)))
  {
    assert ["string", "number"][0] == "string" && ["number", "string"][0] == "number";
  }

  /** A null matches a list of types exactly when the list names it. */
  lemma NullMatches(types: seq<string>)
    ensures (exists i :: 0 <= i < |types| && MatchesType(Null, types[i])) <==> "null" in types
  {
  }

  lemma WrongTypeIff(h: Host, s: Json, v: Json, pats: Patterns)
    requires Get(s, "type").Some? && DeclaredTypes(Get(s, "type").value).Ok?
    ensures var types := DeclaredTypes(Get(s, "type").value).value;
            Violates(h, s, v, pats, WrongType) <==>
            !(IsNullable(s) && v.Null?) && !exists i :: 0 <= i < |types| && MatchesType(v, types[i])
  {
    hide DeclaredTypes, MatchesType, IsNullable;
  }

  lemma CoercedTypes(h: Host, schema: Json, key: string, raw: string)
    requires PropertySchema(schema, key).Some? && Get(PropertySchema(schema, key).value, "type").Some?
    requires CoerceKey(h, schema, key, raw).Ok?
    ensures DeclaredTypes(Get(PropertySchema(schema, key).value, "type").value).Ok?
    ensures var types := DeclaredTypes(Get(PropertySchema(schema, key).value, "type").value).value;
            match CoerceOne(h, raw, types)
            case Some(v) => CoerceKey(h, schema, key, raw) == Ok(v)
            case None => CoerceKey(h, schema, key, raw) == Ok(Null) && "null" in types
  {
    hide CoerceOne, DeclaredTypes, PropertySchema;
  }

  /**
    After a successful coercion a declared property fails its own type in exactly one case: the first
    declared type that took the text was `number`, the text (`NaN`, `inf`, an overflow) has no finite
    value and so became null, and null is not allowed either. All other coerced properties pass.
   */
  lemma CoercedTypeFailsIff(h: Host, schema: Json, key: string, raw: string, pats: Patterns)
    requires PropertySchema(schema, key).Some? && Get(PropertySchema(schema, key).value, "type").Some?
    requires CoerceKey(h, schema, key, raw).Ok?
    ensures var sub := PropertySchema(schema, key).value;
            var types := DeclaredTypes(Get(sub, "type").value).value;
            Violates(h, sub, CoerceKey(h, schema, key, raw).value, pats, WrongType) <==>
            FirstHitIsNonFinite(h, types, raw) && "null" !in types && !IsNullable(sub)
  {
    hide Violates, IsNullable, CoerceAs, CoerceOne, CoerceKey, MatchesType, DeclaredTypes, PropertySchema, Get;
    CoercedTypes(h, schema, key, raw);
    var sub := PropertySchema(schema, key).value;
    var types := DeclaredTypes(Get(sub, "type").value).value;
    var v := CoerceKey(h, schema, key, raw).value;
    var i := CoerceOneHit(h, raw, types);
    NullMatches(types);
    WrongTypeIff(h, sub, v, pats);
    NonFiniteHitIsFirst(h, types, raw, i);
    if i < |types| {
      CoercedMatches(h, types[i], raw);
    }
  }

  /** A property of type `number` and nothing else, and the text `NaN`. */
  function NumberProperty(): Json {
    Obj([Field("type", Str("number"))])
  }

  lemma NaNFailsItsType(h: Host, pats: Patterns)
    requires h.parseF64("NaN") == NonFinite
    ensures var schema := Obj([Field("properties", Obj([Field("x", NumberProperty())]))]);
            && PropertySchema(schema, "x") == Some(NumberProperty())
            && CoerceKey(h, schema, "x", "NaN") == Ok(Null)
            && Violates(h, NumberProperty(), Null, pats, WrongType)
  {
    var schema := Obj([Field("properties", Obj([Field("x", NumberProperty())]))]);
    assert Get(NumberProperty(), "type") == Some(Str("number"));
    assert Get(schema, "properties") == Some(Obj([Field("x", NumberProperty())]));
    assert ALL_TYPES[1] == "number";
    assert DeclaredTypes(Str("number")) == Ok(["number"]);
    assert Get(NumberProperty(), "nullable") == None;
  }

  // ----- a whole channel -----

  lemma PropertyIsScalar(h: Host, s: Json, key: string)
    requires ScalarChannel(h, s) && PropertySchema(s, key).Some?
    ensures var sub := PropertySchema(s, key).value;
            Get(sub, "properties").None? && Get(sub, "items").None?
  {
    hide Audited, DeclaredTypes;
    var ps := Properties(s).value.fields;
    var i :| 0 <= i < |ps| && ps[i] == Field(key, PropertySchema(s, key).value);
    assert ScalarProperty(h, ps[i].val);
  }

  lemma ChannelIsAnObject(h: Host, s: Json, v: Json, pats: Patterns)
    requires ScalarChannel(h, s) && v.Obj?
    ensures !Violates(h, s, v, pats, WrongType)
  {
    hide Audited, DeclaredTypes;
    var types := ["object"];
    assert MatchesType(v, types[0]);
  }

  /** The declared types of a property, as the checker reads them. */
  ghost predicate LosesItsType(h: Host, s: Json, key: string, raw: string) {
    && PropertySchema(s, key).Some?
    && var sub := PropertySchema(s, key).value;
    && Get(sub, "type").Some? && DeclaredTypes(Get(sub, "type").value).Ok?
    && FirstHitIsNonFinite(h, DeclaredTypes(Get(sub, "type").value).value, raw)
    && "null" !in DeclaredTypes(Get(sub, "type").value).value && !IsNullable(sub)
  }

  /** In a coerced channel, a path to a broken `type` is one step long and leads to such a text. */
  lemma WrongTypeAt(h: Host, s: Json, src: StringMap, pats: Patterns, path: Path)
    requires ScalarChannel(h, s) && Coerce(h, s, src).Ok?
    requires Reach(s, Coerce(h, s, src).value, path).Some?
    requires var (sub, part) := Reach(s, Coerce(h, s, src).value, path).value; Violates(h, sub, part, pats, WrongType)
    ensures |path| == 1 && path[0].Prop? && path[0].i < |src|
    ensures LosesItsType(h, s, src[path[0].i].0, src[path[0].i].1)
  {
    hide ScalarChannel, FirstHitIsNonFinite, DeclaredTypes, CoerceKey, IsNullable, Get, MatchesType;
    var v := Coerce(h, s, src).value;
    CoercedKeys(h, s, src, |src|);
    ChannelIsAnObject(h, s, v, pats);
    assert path != [];
    var i := path[0].i;
    var key := src[i].0;
    PropertyIsScalar(h, s, key);
    var sub := PropertySchema(s, key).value;
    if |path| > 1 {
      ScalarGovernsNothing(sub, v.fields[i].val, path[1]);
    }
    assert path[1..] == [];
    TypeIsDeclared(h, sub, v.fields[i].val, pats);
    CoercedTypeFailsIff(h, s, key, src[i].1, pats);
  }

  lemma ScalarGovernsNothing(sub: Json, part: Json, step: Step)
    requires Get(sub, "properties").None? && Get(sub, "items").None?
    ensures Governs(sub, part, step).None?
  {
  }

  lemma TypeIsDeclared(h: Host, s: Json, v: Json, pats: Patterns)
    requires Violates(h, s, v, pats, WrongType)
    ensures Get(s, "type").Some? && DeclaredTypes(Get(s, "type").value).Ok?
  {
    hide DeclaredTypes, MatchesType;
  }

  /**
    End to end, for params and query: when the strings of a request were coerced and the result is
    rejected for a wrong type, the path of the rejection is that of a text which is no finite number,
    for a property that takes numbers first and no null. No other text is ever refused for its type.
   */
  lemma WrongTypeMeansNonFinite(h: Host, s: Json, src: StringMap, pats: Patterns)
    requires ScalarChannel(h, s) && Coerce(h, s, src).Ok?
    requires CheckValue(h, s, Coerce(h, s, src).value, [], pats).Err?
    requires CheckValue(h, s, Coerce(h, s, src).value, [], pats).error.why == WrongType
    ensures var at := CheckValue(h, s, Coerce(h, s, src).value, [], pats).error.at;
            && |at| == 1 && at[0].Prop? && at[0].i < |src|
            && LosesItsType(h, s, src[at[0].i].0, src[at[0].i].1)
  {
    hide ScalarChannel, CheckValue, Coerce, LosesItsType, Violates, Reach;
    var v := Coerce(h, s, src).value;
    var path := RejectionIsExplained(h, s, v, [], pats);
    assert [] + path == path;
    WrongTypeAt(h, s, src, pats, path);
  }

  // ----- numbers in enumerations -----

  lemma RoundKeepsSign(x: Number)
    requires IntegerValue(x).Some?
    ensures AsF64(x) > 0.0 <==> IntegerValue(x).value > 0
    ensures AsF64(x) < 0.0 <==> IntegerValue(x).value < 0
  {
  }

  /**
    Integers compare exactly over the whole range from -2^63 up to 2^64, although the last resort of
    the comparison is a pair of doubles; and the comparison is symmetric.
   */
  lemma NumericEqIsExactOnIntegers(a: Number, b: Number)
    ensures IntegerValue(a).Some? && IntegerValue(b).Some? ==> (NumericEq(a, b) <==> IntegerValue(a) == IntegerValue(b))
    ensures NumericEq(a, b) <==> NumericEq(b, a)
  {
    if IntegerValue(a).Some? {
      RoundKeepsSign(a);
    }
    if IntegerValue(b).Some? {
      RoundKeepsSign(b);
    }
  }

  /** A list of integer literals contains an integer value exactly when one literal is that integer. */
  lemma IntegerEnumIsExact(arr: seq<Json>, value: Number)
    requires IntegerValue(value).Some?
    requires forall i :: 0 <= i < |arr| && arr[i].Num? ==> IntegerValue(arr[i].num).Some?
    ensures EnumContains(arr, Num(value)) <==>
            exists i :: 0 <= i < |arr| && arr[i].Num? && IntegerValue(arr[i].num) == IntegerValue(value)
  {
    forall i | 0 <= i < |arr|
      ensures ValuesEq(arr[i], Num(value)) <==> arr[i].Num? && IntegerValue(arr[i].num) == IntegerValue(value)
    {
      if arr[i].Num? {
        NumericEqIsExactOnIntegers(arr[i].num, value);
      }
    }
  }

  /** The number a literal denotes. */
  function Denoted(x: Number): real {
    match x case PosInt(n) => n as real case NegInt(i) => i as real case Float(f) => f
  }

  lemma IntegersAreTheirValues(a: Number, b: Number)
    requires IntegerValue(a).Some? && IntegerValue(a) == IntegerValue(b)
    ensures a == b
  {
  }

  /** With float literals about, the comparison is transitive except from one integer to another by way of a float. */
  lemma TransitivityFailsIff(a: Number, b: Number, c: Number)
    requires NumericEq(a, b) && NumericEq(b, c)
    ensures !NumericEq(a, c) <==> b.Float? && !a.Float? && !c.Float? && a != c
  {
    hide AsF64, AsI64, AsU64, NumericEq;
    EqOfIntegers(a, b);
    EqOfIntegers(b, c);
    EqOfIntegers(a, c);
    EqWithFloat(a, b);
    EqWithFloat(b, c);
    EqWithFloat(a, c);
  }

  lemma EqOfIntegers(a: Number, b: Number)
    ensures !a.Float? && !b.Float? ==> (NumericEq(a, b) <==> a == b)
  {
    NumericEqIsExactOnIntegers(a, b);
  }

  lemma EqWithFloat(a: Number, b: Number)
    ensures a.Float? || b.Float? ==> (NumericEq(a, b) <==> AsF64(a) == AsF64(b))
  {
  }

  /** Float literals compare exactly with an integer, whatever the float, when the integer is a double. */
  lemma FloatsAreExactFor(n: Number)
    requires !n.Float?
    ensures (forall f :: NumericEq(n, Float(f)) <==> f == Denoted(n)) <==> AsF64(n) == Denoted(n)
  {
    hide RoundNat;
    assert NumericEq(n, Float(AsF64(n)));
  }

  /** Some literal of the list denotes the number. */
  ghost predicate Lists(arr: seq<Json>, n: Number) {
    exists i :: 0 <= i < |arr| && arr[i].Num? && Denoted(arr[i].num) == Denoted(n)
  }

  /** Lists of integers and floats mixed: which literals an integer value is taken for. */
  lemma MixedEnumContains(arr: seq<Json>, n: Number)
    requires !n.Float?
    ensures EnumContains(arr, Num(n)) <==>
            exists i :: 0 <= i < |arr| && arr[i].Num? && (arr[i].num == n || arr[i].num == Float(AsF64(n)))
  {
    forall i | 0 <= i < |arr|
      ensures ValuesEq(arr[i], Num(n)) <==> arr[i].Num? && (arr[i].num == n || arr[i].num == Float(AsF64(n)))
    {
      if arr[i].Num? {
        EqOfIntegers(arr[i].num, n);
        EqWithFloat(arr[i].num, n);
      }
    }
  }

  /** Membership means "some literal denotes this integer", for every list, exactly when the integer is a double. */
  lemma EnumIsExactIff(n: Number)
    requires !n.Float?
    ensures (forall arr :: EnumContains(arr, Num(n)) <==> Lists(arr, n)) <==> AsF64(n) == Denoted(n)
  {
    hide AsF64, EnumContains;
    if AsF64(n) == Denoted(n) {
      forall arr: seq<Json>
        ensures EnumContains(arr, Num(n)) <==> Lists(arr, n)
      {
        ExactMember(arr, n);
      }
    } else {
      var arr := [Num(Float(AsF64(n)))];
      MixedEnumContains(arr, n);
      assert arr[0].num == Float(AsF64(n));
      assert EnumContains(arr, Num(n)) && !Lists(arr, n);
    }
  }

  /** The same for float values, which is what a parameter of type `number` arrives as. */
  lemma FloatEnumContains(arr: seq<Json>, f: real)
    ensures EnumContains(arr, Num(Float(f))) <==> exists i :: 0 <= i < |arr| && arr[i].Num? && AsF64(arr[i].num) == f
  {
    forall i | 0 <= i < |arr|
      ensures ValuesEq(arr[i], Num(Float(f))) <==> arr[i].Num? && AsF64(arr[i].num) == f
    {
      if arr[i].Num? {
        EqWithFloat(arr[i].num, Float(f));
      }
    }
  }

  /**
    Membership of a float means "some literal denotes it", in every list, exactly when no integer is
    confused with it.
   */
  lemma FloatEnumIsConfusedIff(f: real)
    ensures (forall arr: seq<Json> :: EnumContains(arr, Num(Float(f))) <==> Lists(arr, Float(f))) <==>
            forall n: Number :: AsF64(n) == f <==> Denoted(n) == f
  {
    hide AsF64, EnumContains;
    forall arr: seq<Json>
      ensures EnumContains(arr, Num(Float(f))) <==> exists i :: 0 <= i < |arr| && arr[i].Num? && AsF64(arr[i].num) == f
    {
      FloatEnumContains(arr, f);
    }
    if n: Number :| (AsF64(n) == f) != (Denoted(n) == f) {
      var arr := [Num(n)];
      assert arr[0].num == n;
      assert EnumContains(arr, Num(Float(f))) <==> AsF64(n) == f;
      assert Lists(arr, Float(f)) <==> Denoted(n) == f;
    }
  }

  function Magnitude(z: int): nat {
    if z < 0 then -z else z
  }

  /** A double that is a whole number is its own rounding. */
  predicate IsDouble(f: real) {
    f == f.Floor as real ==> RoundNat(Magnitude(f.Floor)) == Magnitude(f.Floor)
  }

  /**
    The floats that stand for a neighbouring integer too: whole numbers of the 64-bit range from 2^53 on,
    where below 2^54 only every other double does (ties go to the even one).
   */
  predicate StandsForNeighbours(f: real) {
    f == f.Floor as real && WholeStandsForNeighbours(f.Floor)
  }

  predicate WholeStandsForNeighbours(z: int) {
    var m := Magnitude(z);
    I64_MIN <= z <= U64_MAX + 1 && m >= TWO_53 && (m >= 2 * TWO_53 || m % 4 == 0)
  }

  /** For doubles, the lists in which membership is exact can be told from the value alone. */
  lemma FloatEnumIsExactIff(f: real)
    requires IsDouble(f)
    ensures (forall arr: seq<Json> :: EnumContains(arr, Num(Float(f))) <==> Lists(arr, Float(f))) <==>
            !StandsForNeighbours(f)
  {
    hide AsF64, EnumContains, Lists, IsDouble, StandsForNeighbours, Denoted;
    FloatEnumIsConfusedIff(f);
    if StandsForNeighbours(f) {
      var n := NeighbourOf(f);
    } else {
      forall n: Number
        ensures AsF64(n) == f <==> Denoted(n) == f
      {
        NoNeighbour(f, n);
      }
    }
  }

  /** An instance: 2^53 is taken for a member of a list that holds only the next integer. */
  lemma FloatTakenForItsNeighbour()
    ensures var f, arr := 9007199254740992.0, [Num(PosInt(0x20_0000_0000_0001))];
            IsDouble(f) && StandsForNeighbours(f) && EnumContains(arr, Num(Float(f))) && !Lists(arr, Float(f))
  {
    var f, arr := 9007199254740992.0, [Num(PosInt(0x20_0000_0000_0001))];
    assert RoundNat(0x20_0000_0000_0001) == 0x20_0000_0000_0000;
    assert arr[0].num == PosInt(0x20_0000_0000_0001);
    FloatEnumContains(arr, f);
  }

  function PowerOfTwo(e: nat): (p: nat)
    ensures p > 0
  {
    if e == 0 then 1 else 2 * PowerOfTwo(e - 1)
  }

  lemma {:induction false} RoundingStaysBelow(n: nat, sticky: bool, e: nat)
    requires TWO_53 <= n <= TWO_53 * PowerOfTwo(e)
    ensures RoundTo53(n, sticky) <= TWO_53 * PowerOfTwo(e)
  {
    if n >= 2 * TWO_53 {
      RoundingStaysBelow(n / 2, sticky || n % 2 == 1, e - 1);
    }
  }

  lemma {:induction false} StickyBitIsLost(n: nat)
    requires n >= TWO_53 && RoundTo53(n, false) == n
    ensures n % 2 == 0 && RoundTo53(n, true) == n
  {
    if n >= 2 * TWO_53 {
      assert n % 2 == 0;
      StickyBitIsLost(n / 2);
    }
  }

  lemma NextRoundsBack(m: nat)
    requires m >= TWO_53 && RoundNat(m) == m && (m >= 2 * TWO_53 || m % 4 == 0)
    ensures RoundNat(m + 1) == m
  {
    if m >= 2 * TWO_53 {
      assert m % 2 == 0 && (m + 1) / 2 == m / 2;
      StickyBitIsLost(m / 2);
    }
  }

  lemma LastRoundsUp(e: nat, k: nat)
    requires 1 <= e <= k
    ensures TWO_53 * PowerOfTwo(e) - 1 >= TWO_53
    ensures RoundTo53(TWO_53 * PowerOfTwo(e) - 1, e < k) == TWO_53 * PowerOfTwo(e)
  {
    var n := TWO_53 * PowerOfTwo(e) - 1;
    if e > 1 {
      LastRoundsUp(e - 1, k);
      assert n == 2 * (TWO_53 * PowerOfTwo(e - 1)) - 1;
      assert n / 2 == TWO_53 * PowerOfTwo(e - 1) - 1;
    }
  }

  lemma RangeEnds()
    ensures TWO_53 * PowerOfTwo(10) == I64_MAX + 1 && TWO_53 * PowerOfTwo(11) == U64_MAX + 1
    ensures RoundNat(I64_MAX as nat) == I64_MAX + 1 && RoundNat(U64_MAX as nat) == U64_MAX + 1
  {
    assert PowerOfTwo(5) == 32;
    assert PowerOfTwo(10) == 1024;
    LastRoundsUp(10, 10);
    LastRoundsUp(11, 11);
  }

  lemma NeighbourOf(f: real) returns (n: Number)
    requires IsDouble(f) && StandsForNeighbours(f)
    ensures AsF64(n) == f && Denoted(n) != f
  {
    hide RoundNat, PowerOfTwo, AsF64, Denoted;
    RangeEnds();
    var z := f.Floor;
    var k := NeighbourUpTo(if z > 0 then U64_MAX else I64_MAX, Magnitude(z));
    n := if z > 0 then PosInt(k) else NegInt(0 - k as int);
    InIntegers(n, z);
  }

  /** The double of an integer, as an integer. */
  function Rounded(n: Number): int
    requires !n.Float?
  {
    match n
    case PosInt(p) => RoundNat(p)
    case NegInt(i) => -(RoundNat(0 - i as int) as int)
  }

  lemma InIntegers(n: Number, z: int)
    requires !n.Float?
    ensures AsF64(n) == z as real <==> Rounded(n) == z
    ensures Denoted(n) == z as real <==> IntegerValue(n).value == z
    ensures AsF64(n) == AsF64(n).Floor as real && Denoted(n) == Denoted(n).Floor as real
  {
    hide RoundNat;
    assert AsF64(n) == Rounded(n) as real;
    assert Denoted(n) == IntegerValue(n).value as real;
  }

  lemma NeighbourUpTo(most: nat, m: nat) returns (k: nat)
    requires TWO_53 <= m <= most + 1 && RoundNat(m) == m && (m >= 2 * TWO_53 || m % 4 == 0)
    requires RoundNat(most) == most + 1
    ensures k <= most && k > 0 && RoundNat(k) == m && k != m
  {
    hide RoundNat;
    if m > most {
      k := most;
    } else {
      NextRoundsBack(m);
      k := m + 1;
    }
  }

  lemma NoNeighbour(f: real, n: Number)
    requires IsDouble(f) && !StandsForNeighbours(f)
    ensures AsF64(n) == f <==> Denoted(n) == f
  {
    hide RoundNat, WholeStandsForNeighbours, AsF64, Rounded, Denoted, IntegerValue;
    FloatIsItself(n);
    if !n.Float? {
      InIntegers(n, f.Floor);
      if f == f.Floor as real {
        NoWholeNeighbour(f.Floor, n);
      }
    }
  }

  lemma FloatIsItself(x: Number)
    ensures x.Float? ==> AsF64(x) == Denoted(x)
  {
  }

  lemma NoWholeNeighbour(z: int, n: Number)
    requires !n.Float? && RoundNat(Magnitude(z)) == Magnitude(z) && !WholeStandsForNeighbours(z)
    ensures Rounded(n) == z <==> IntegerValue(n).value == z
  {
    hide RoundNat;
    var i := IntegerValue(n).value;
    RoundingOf(Magnitude(i));
    RoundedToItself(Magnitude(i));
  }

  /** Rounding does not leave the range, nor cross 2^53 or 2^54. */
  lemma RoundingOf(k: nat)
    ensures k <= I64_MAX + 1 ==> RoundNat(k) <= I64_MAX + 1
    ensures k <= U64_MAX + 1 ==> RoundNat(k) <= U64_MAX + 1
    ensures k >= 2 * TWO_53 ==> RoundNat(k) >= 2 * TWO_53
  {
    RangeEnds();
    if TWO_53 <= k <= I64_MAX + 1 {
      RoundingStaysBelow(k, false, 10);
    }
    if TWO_53 <= k <= U64_MAX + 1 {
      RoundingStaysBelow(k, false, 11);
    }
  }

  /** What rounds to a double that is no multiple of four below 2^54 is that double. */
  lemma RoundedToItself(k: nat)
    ensures RoundNat(k) < TWO_53 ==> RoundNat(k) == k
    ensures TWO_53 <= RoundNat(k) < 2 * TWO_53 && RoundNat(k) % 4 != 0 ==> RoundNat(k) == k
  {
  }

  lemma ExactMember(arr: seq<Json>, n: Number)
    requires !n.Float? && AsF64(n) == Denoted(n)
    ensures EnumContains(arr, Num(n)) <==> Lists(arr, n)
  {
    hide AsF64, EnumContains, NumericEq;
    MixedEnumContains(arr, n);
    forall i | 0 <= i < |arr| && arr[i].Num?
      ensures Denoted(arr[i].num) == Denoted(n) <==> arr[i].num == n || arr[i].num == Float(AsF64(n))
    {
      if !arr[i].num.Float? && Denoted(arr[i].num) == Denoted(n) {
        IntegersAreTheirValues(arr[i].num, n);
      }
    }
  }

  /** An instance: two integers beyond 2^53, and the float both round to. */
  lemma FloatLiteralsBlurIntegers()
    ensures var a, f, b := PosInt(0x20_0000_0000_0000), Float(9007199254740992.0), PosInt(0x20_0000_0000_0001);
            NumericEq(a, f) && NumericEq(f, b) && !NumericEq(a, b)
  {
    assert RoundNat(0x20_0000_0000_0001) == 0x20_0000_0000_0000;
  }
}

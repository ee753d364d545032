/** The run-time side of request contracts (src/contract.rs): coercion of strings and the value checker. */
module Contract {
  import opened Wrappers
  import opened Json
  import opened Schema

  datatype Regex = Regex(source: string)

  type Patterns = map<string, Regex>

  // ----- equality in enumerations -----

  /** Integers compare exactly; as soon as a float is involved, both sides compare as doubles. */
  predicate NumericEq(a: Number, b: Number) {
    if AsI64(a).Some? && AsI64(b).Some? then AsI64(a) == AsI64(b)
    else if AsU64(a).Some? && AsU64(b).Some? then AsU64(a) == AsU64(b)
    else AsF64(a) == AsF64(b)
  }

  predicate ValuesEq(a: Json, b: Json) {
    if a.Num? && b.Num? then NumericEq(a.num, b.num) else SameJson(a, b)
  }

  predicate EnumContains(arr: seq<Json>, value: Json) {
    exists i :: 0 <= i < |arr| && ValuesEq(arr[i], value)
  }

  // ----- the checker -----

  predicate MatchesType(v: Json, ty: string) {
    match v
    case Null => ty == "null"
    case Bool(_) => ty == "boolean"
    case Str(_) => ty == "string"
    case Num(n) => ty == "number" || (ty == "integer" && !n.Float?)
    case Obj(_) => ty == "object"
    case Arr(_) => ty == "array"
  }

  datatype Step = Prop(i: nat) | Item(i: nat)

  type Path = seq<Step>

  datatype Violation =
    | BadTypeDeclaration
    | WrongType
    | NotInEnum
    | MissingRequired(name: string)
    | AdditionalProperty(name: string)
    | AdditionalProperties
    | TooFewItems
    | TooManyItems
    | TooShort
    | TooLong
    | NotPrecompiled(pattern: string)
    | PatternMismatch(pattern: string)
    | BelowMinimum
    | AboveMaximum

  datatype Rejection = Rejection(why: Violation, at: Path)

  predicate IsNullable(s: Json) {
    Get(s, "nullable") == Some(Bool(true))
  }

  function Properties(s: Json): (r: Option<Json>)
    ensures r.Some? ==> r.value.Obj? && r.value < s
  {
    match Get(s, "properties")
    case Some(Obj(ps)) => Some(Obj(ps))
    case _ => None
  }

  /** The schema of a property, if the schema declares one. */
  function PropertySchema(s: Json, key: string): Option<Json> {
    match Properties(s)
    case Some(ps) => Get(ps, key)
    case None => None
  }

  predicate ForbidsAdditional(s: Json) {
    Get(s, "additionalProperties") == Some(Bool(false))
  }

  function TypeGate(s: Json, v: Json): Option<Violation> {
    match Get(s, "type")
    case None => None
    case Some(t) =>
      match DeclaredTypes(t)
      case Err(_) => Some(BadTypeDeclaration)
      case Ok(types) =>
        if exists i :: 0 <= i < |types| && MatchesType(v, types[i]) then None else Some(WrongType)
  }

  function FirstMissing(required: seq<Json>, fields: seq<Field>): (r: Option<string>)
    ensures r.Some? ==> Str(r.value) in required && !Has(fields, r.value)
    ensures r.None? ==> forall n :: Str(n) in required ==> Has(fields, n)
  {
    if required == [] then None
    else if required[0].Str? && !Has(fields, required[0].s) then Some(required[0].s)
    else
      assert required == [required[0]] + required[1..];
      FirstMissing(required[1..], fields)
  }

  /** `as_u64` of a keyword: only non-negative integers take effect. */
  function Bound(s: Json, key: string): Option<int> {
    match Get(s, key)
    case Some(Num(n)) => AsU64(n)
    case _ => None
  }

  function Limit(s: Json, key: string): Option<real> {
    match Get(s, key)
    case Some(Num(n)) => Some(AsF64(n))
    case _ => None
  }

  function ArrayGate(s: Json, n: nat): Option<Violation> {
    if Bound(s, "minItems").Some? && n < Bound(s, "minItems").value then Some(TooFewItems)
    else if Bound(s, "maxItems").Some? && n > Bound(s, "maxItems").value then Some(TooManyItems)
    else None
  }

  function TextGate(h: Host, s: Json, text: string, pats: Patterns): Option<Violation> {
    if Bound(s, "minLength").Some? && |text| < Bound(s, "minLength").value then Some(TooShort)
    else if Bound(s, "maxLength").Some? && |text| > Bound(s, "maxLength").value then Some(TooLong)
    else match Get(s, "pattern")
      case Some(Str(p)) =>
        if p !in pats then Some(NotPrecompiled(p))
        else if !h.regexMatch(pats[p].source, text) then Some(PatternMismatch(p))
        else None
      case _ => None
  }

  function RangeGate(s: Json, n: Number): Option<Violation> {
    if Limit(s, "minimum").Some? && AsF64(n) < Limit(s, "minimum").value then Some(BelowMinimum)
    else if Limit(s, "maximum").Some? && AsF64(n) > Limit(s, "maximum").value then Some(AboveMaximum)
    else None
  }

  function Reject(w: Option<Violation>, at: Path): Result<(), Rejection> {
    match w
    case Some(v) => Err(Rejection(v, at))
    case None => Ok(())
  }

  function CheckValue(h: Host, s: Json, v: Json, at: Path, pats: Patterns): Result<(), Rejection>
    decreases v, 2, 0
  {
    if !s.Obj? || (IsNullable(s) && v.Null?) then Ok(())
    else if TypeGate(s, v).Some? then Reject(TypeGate(s, v), at)
    else match Get(s, "enum")
      case Some(Arr(arr)) =>
        if EnumContains(arr, v) then CheckByKind(h, s, v, at, pats) else Err(Rejection(NotInEnum, at))
      case Some(_) => Ok(())
      case None => CheckByKind(h, s, v, at, pats)
  }

  function CheckByKind(h: Host, s: Json, v: Json, at: Path, pats: Patterns): Result<(), Rejection>
    requires s.Obj?
    decreases v, 1, 0
  {
    match v
    case Obj(fields) => CheckObject(h, s, v, at, pats)
    case Arr(items) =>
      (match CheckItems(h, s, v, 0, at, pats)
       case Err(e) => Err(e)
       case Ok(_) => Reject(ArrayGate(s, |items|), at))
    case Str(text) => Reject(TextGate(h, s, text, pats), at)
    case Num(n) => Reject(RangeGate(s, n), at)
    case _ => Ok(())
  }

  function CheckObject(h: Host, s: Json, v: Json, at: Path, pats: Patterns): Result<(), Rejection>
    requires s.Obj? && v.Obj?
    decreases v, 0, |v.fields| + 1
  {
    var required := match Get(s, "required") case Some(Arr(rs)) => rs case _ => [];
    if FirstMissing(required, v.fields).Some? then
      Err(Rejection(MissingRequired(FirstMissing(required, v.fields).value), at))
    else if Properties(s).Some? then CheckFields(h, s, v, 0, at, pats)
    else if ForbidsAdditional(s) && v.fields != [] then Err(Rejection(AdditionalProperties, at))
    else Ok(())
  }

  /** The fields from the i-th on, against a schema with declared properties. */
  function CheckFields(h: Host, s: Json, v: Json, i: nat, at: Path, pats: Patterns): Result<(), Rejection>
    requires v.Obj? && i <= |v.fields|
    decreases v, 0, |v.fields| - i
  {
    if i == |v.fields| then Ok(())
    else match PropertySchema(s, v.fields[i].key)
      case Some(sub) =>
        (match CheckValue(h, sub, v.fields[i].val, at + [Prop(i)], pats)
         case Err(e) => Err(e)
         case Ok(_) => CheckFields(h, s, v, i + 1, at, pats))
      case None =>
        if ForbidsAdditional(s) then Err(Rejection(AdditionalProperty(v.fields[i].key), at))
        else CheckFields(h, s, v, i + 1, at, pats)
  }

  function CheckItems(h: Host, s: Json, v: Json, i: nat, at: Path, pats: Patterns): Result<(), Rejection>
    requires v.Arr? && i <= |v.items|
    decreases v, 0, |v.items| - i
  {
    match Get(s, "items")
    case None => Ok(())
    case Some(sub) =>
      if i == |v.items| then Ok(())
      else match CheckValue(h, sub, v.items[i], at + [Item(i)], pats)
        case Err(e) => Err(e)
        case Ok(_) => CheckItems(h, s, v, i + 1, at, pats)
  }

  // ----- what the checker decides -----

  /** The sub-schema that governs a direct part of a value. */
  function Governs(s: Json, v: Json, step: Step): Option<(Json, Json)> {
    match (v, step)
    case (Obj(fs), Prop(i)) =>
      if i < |fs| then match PropertySchema(s, fs[i].key) case Some(sub) => Some((sub, fs[i].val)) case None => None
      else None
    case (Arr(xs), Item(i)) =>
      if i < |xs| then match Get(s, "items") case Some(sub) => Some((sub, xs[i])) case None => None
      else None
    case _ => None
  }

  /** The pair of sub-schema and sub-value at a path through `properties` and `items`. */
  function Reach(s: Json, v: Json, path: Path): Option<(Json, Json)>
    decreases |path|
  {
    if path == [] then Some((s, v))
    else match Governs(s, v, path[0])
      case Some((sub, part)) => Reach(sub, part, path[1..])
      case None => None
  }

  predicate ViolatesShape(s: Json, v: Json, w: Violation) {
    match w
    case BadTypeDeclaration => Get(s, "type").Some? && DeclaredTypes(Get(s, "type").value).Err?
    case WrongType =>
      Get(s, "type").Some? &&
      (match DeclaredTypes(Get(s, "type").value)
       case Ok(types) => forall i :: 0 <= i < |types| ==> !MatchesType(v, types[i])
       case Err(_) => false)
    case NotInEnum => (match Get(s, "enum") case Some(Arr(arr)) => !EnumContains(arr, v) case _ => false)
    case _ => false
  }

  predicate ViolatesObject(s: Json, v: Json, w: Violation) {
    v.Obj? &&
    match w
    case MissingRequired(name) =>
      (match Get(s, "required") case Some(Arr(rs)) => Str(name) in rs && !Has(v.fields, name) case _ => false)
    case AdditionalProperty(name) =>
      Has(v.fields, name) && ForbidsAdditional(s) && Properties(s).Some? && PropertySchema(s, name).None?
    case AdditionalProperties => v.fields != [] && ForbidsAdditional(s) && Properties(s).None?
    case _ => false
  }

  predicate ViolatesLeaf(h: Host, s: Json, v: Json, pats: Patterns, w: Violation) {
    match v
    case Arr(xs) =>
      (match w
       case TooFewItems => Bound(s, "minItems").Some? && |xs| < Bound(s, "minItems").value
       case TooManyItems => Bound(s, "maxItems").Some? && |xs| > Bound(s, "maxItems").value
       case _ => false)
    case Str(text) =>
      (match w
       case TooShort => Bound(s, "minLength").Some? && |text| < Bound(s, "minLength").value
       case TooLong => Bound(s, "maxLength").Some? && |text| > Bound(s, "maxLength").value
       case NotPrecompiled(p) => Get(s, "pattern") == Some(Str(p)) && p !in pats
       case PatternMismatch(p) => Get(s, "pattern") == Some(Str(p)) && p in pats && !h.regexMatch(pats[p].source, text)
       case _ => false)
    case Num(n) =>
      (match w
       case BelowMinimum => Limit(s, "minimum").Some? && AsF64(n) < Limit(s, "minimum").value
       case AboveMaximum => Limit(s, "maximum").Some? && AsF64(n) > Limit(s, "maximum").value
       case _ => false)
    case _ => false
  }

  /** The value breaks this keyword of the schema, looking at neither's children. */
  predicate Violates(h: Host, s: Json, v: Json, pats: Patterns, w: Violation) {
    && s.Obj? && !(IsNullable(s) && v.Null?)
    && (ViolatesShape(s, v, w) || ViolatesObject(s, v, w) || ViolatesLeaf(h, s, v, pats, w))
  }

  ghost predicate LocallyValid(h: Host, s: Json, v: Json, pats: Patterns) {
    forall w :: !Violates(h, s, v, pats, w)
  }

  ghost predicate ValidThroughout(h: Host, s: Json, v: Json, pats: Patterns) {
    forall path :: Reach(s, v, path).Some? ==>
      LocallyValid(h, Reach(s, v, path).value.0, Reach(s, v, path).value.1, pats)
  }

  /** A rejection points, through its path, at a pair that really breaks the keyword it names. */
  ghost predicate Explained(h: Host, s: Json, v: Json, at: Path, pats: Patterns, e: Rejection, path: Path) {
    && e.at == at + path
    && Reach(s, v, path).Some?
    && Violates(h, Reach(s, v, path).value.0, Reach(s, v, path).value.1, pats, e.why)
  }

  lemma ReachBelow(s: Json, v: Json, step: Step, rest: Path)
    requires Governs(s, v, step).Some?
    ensures Reach(s, v, [step] + rest) == Reach(Governs(s, v, step).value.0, Governs(s, v, step).value.1, rest)
  {
    assert ([step] + rest)[1..] == rest;
  }

  lemma ExplainedBelow(h: Host, s: Json, v: Json, at: Path, pats: Patterns, e: Rejection, step: Step, rest: Path)
    requires Governs(s, v, step).Some?
    requires Explained(h, Governs(s, v, step).value.0, Governs(s, v, step).value.1, at + [step], pats, e, rest)
    ensures Explained(h, s, v, at, pats, e, [step] + rest)
  {
    hide Governs, Reach, Violates;
    ReachBelow(s, v, step, rest);
    assert at + [step] + rest == at + ([step] + rest);
  }

  lemma TypeGateViolates(s: Json, v: Json)
    ensures TypeGate(s, v).Some? ==> ViolatesShape(s, v, TypeGate(s, v).value)
  {
  }

  /** Leaves and array counts: the gate that fires names a broken keyword. */
  lemma LeafRejectionIsExplained(h: Host, s: Json, v: Json, at: Path, pats: Patterns)
    requires s.Obj? && !v.Obj? && (v.Arr? ==> CheckItems(h, s, v, 0, at, pats).Ok?)
    ensures match CheckByKind(h, s, v, at, pats)
            case Err(e) => e.at == at && ViolatesLeaf(h, s, v, pats, e.why)
            case Ok(_) => true
  {
  }

  /** Every rejection is explained, for audited and unaudited schemas alike. */
  lemma {:induction false} RejectionIsExplained(h: Host, s: Json, v: Json, at: Path, pats: Patterns)
    returns (path: Path)
    requires CheckValue(h, s, v, at, pats).Err?
    ensures Explained(h, s, v, at, pats, CheckValue(h, s, v, at, pats).error, path)
    decreases v, 2, 0
  {
    hide TypeGate, ArrayGate, TextGate, RangeGate, ViolatesLeaf, ViolatesObject, IsNullable, EnumContains;
    path := [];
    assert at + [] == at;
    TypeGateViolates(s, v);
    if TypeGate(s, v).Some? {
    } else if Get(s, "enum").Some? && !EnumContains(Get(s, "enum").value.items, v) {
      assert ViolatesShape(s, v, NotInEnum);
    } else if v.Obj? {
      path := ObjectRejectionIsExplained(h, s, v, at, pats);
    } else if v.Arr? && CheckItems(h, s, v, 0, at, pats).Err? {
      path := ItemRejectionIsExplained(h, s, v, 0, at, pats);
    } else {
      LeafRejectionIsExplained(h, s, v, at, pats);
    }
  }

  lemma {:induction false} ObjectRejectionIsExplained(h: Host, s: Json, v: Json, at: Path, pats: Patterns)
    returns (path: Path)
    requires s.Obj? && v.Obj? && CheckObject(h, s, v, at, pats).Err?
    ensures Explained(h, s, v, at, pats, CheckObject(h, s, v, at, pats).error, path)
    decreases v, 0, |v.fields| + 1
  {
    path := [];
    assert at + [] == at;
    var required := match Get(s, "required") case Some(Arr(rs)) => rs case _ => [];
    if FirstMissing(required, v.fields).None? && Properties(s).Some? {
      path := FieldRejectionIsExplained(h, s, v, 0, at, pats);
    }
  }

  lemma {:induction false} FieldRejectionIsExplained(h: Host, s: Json, v: Json, i: nat, at: Path, pats: Patterns)
    returns (path: Path)
    requires s.Obj? && v.Obj? && i <= |v.fields| && Properties(s).Some?
    requires CheckFields(h, s, v, i, at, pats).Err?
    ensures Explained(h, s, v, at, pats, CheckFields(h, s, v, i, at, pats).error, path)
    decreases v, 0, |v.fields| - i
  {
    path := [];
    assert at + [] == at;
    match PropertySchema(s, v.fields[i].key)
    case Some(sub) =>
      if CheckValue(h, sub, v.fields[i].val, at + [Prop(i)], pats).Err? {
        var rest := RejectionIsExplained(h, sub, v.fields[i].val, at + [Prop(i)], pats);
        path := [Prop(i)] + rest;
        ExplainedBelow(h, s, v, at, pats, CheckFields(h, s, v, i, at, pats).error, Prop(i), rest);
      } else {
        path := FieldRejectionIsExplained(h, s, v, i + 1, at, pats);
      }
    case None =>
      if ForbidsAdditional(s) {
        assert Has(v.fields, v.fields[i].key);
      } else {
        path := FieldRejectionIsExplained(h, s, v, i + 1, at, pats);
      }
  }

  lemma {:induction false} ItemRejectionIsExplained(h: Host, s: Json, v: Json, i: nat, at: Path, pats: Patterns)
    returns (path: Path)
    requires v.Arr? && i <= |v.items| && CheckItems(h, s, v, i, at, pats).Err?
    ensures Explained(h, s, v, at, pats, CheckItems(h, s, v, i, at, pats).error, path)
    decreases v, 0, |v.items| - i
  {
    var sub := Get(s, "items").value;
    if CheckValue(h, sub, v.items[i], at + [Item(i)], pats).Err? {
      var rest := RejectionIsExplained(h, sub, v.items[i], at + [Item(i)], pats);
      path := [Item(i)] + rest;
      ExplainedBelow(h, s, v, at, pats, CheckItems(h, s, v, i, at, pats).error, Item(i), rest);
    } else {
      path := ItemRejectionIsExplained(h, s, v, i + 1, at, pats);
    }
  }

  lemma {:induction false} AcceptedFields(h: Host, s: Json, v: Json, i: nat, at: Path, pats: Patterns, j: nat)
    requires v.Obj? && i <= j < |v.fields| && CheckFields(h, s, v, i, at, pats).Ok?
    ensures match PropertySchema(s, v.fields[j].key)
            case Some(sub) => CheckValue(h, sub, v.fields[j].val, at + [Prop(j)], pats).Ok?
            case None => !ForbidsAdditional(s)
    decreases |v.fields| - i
  {
    if i < j {
      AcceptedFields(h, s, v, i + 1, at, pats, j);
    }
  }

  lemma {:induction false} AcceptedItems(h: Host, s: Json, v: Json, i: nat, at: Path, pats: Patterns, j: nat)
    requires v.Arr? && i <= j < |v.items| && CheckItems(h, s, v, i, at, pats).Ok? && Get(s, "items").Some?
    ensures CheckValue(h, Get(s, "items").value, v.items[j], at + [Item(j)], pats).Ok?
    decreases |v.items| - i
  {
    if i < j {
      AcceptedItems(h, s, v, i + 1, at, pats, j);
    }
  }

  /** What an accepted value owes to an audited schema: no early exit skipped the rest. */
  lemma AcceptedIsChecked(h: Host, s: Json, v: Json, at: Path, pats: Patterns)
    requires Audited(h, s) && CheckValue(h, s, v, at, pats).Ok?
    ensures (IsNullable(s) && v.Null?) || CheckByKind(h, s, v, at, pats).Ok?
    ensures (IsNullable(s) && v.Null?) || (TypeGate(s, v).None? && forall w :: !ViolatesShape(s, v, w))
  {
  }

  lemma AcceptedStep(h: Host, s: Json, v: Json, at: Path, pats: Patterns, step: Step)
    requires Audited(h, s) && CheckValue(h, s, v, at, pats).Ok? && Governs(s, v, step).Some?
    ensures var (sub, part) := Governs(s, v, step).value;
            CheckValue(h, sub, part, at + [step], pats).Ok? && Audited(h, sub)
  {
    AcceptedIsChecked(h, s, v, at, pats);
    match (v, step)
    case (Obj(fs), Prop(i)) =>
      AcceptedFields(h, s, v, 0, at, pats, i);
      AuditedProperty(h, s, fs[i].key);
    case (Arr(xs), Item(i)) =>
      AcceptedItems(h, s, v, 0, at, pats, i);
    case _ =>
  }

  lemma AuditedProperty(h: Host, s: Json, key: string)
    requires Audited(h, s) && PropertySchema(s, key).Some?
    ensures Audited(h, PropertySchema(s, key).value)
  {
    var ps := Properties(s).value.fields;
    var i :| 0 <= i < |ps| && ps[i] == Field(key, PropertySchema(s, key).value);
  }

  lemma AcceptedObjectIsValid(h: Host, s: Json, v: Json, at: Path, pats: Patterns, w: Violation)
    requires s.Obj? && v.Obj? && CheckObject(h, s, v, at, pats).Ok?
    ensures !ViolatesObject(s, v, w)
  {
    if w.AdditionalProperty? && Has(v.fields, w.name) && Properties(s).Some? {
      var j :| 0 <= j < |v.fields| && v.fields[j].key == w.name;
      AcceptedFields(h, s, v, 0, at, pats, j);
    }
  }

  lemma AcceptedLeafIsValid(h: Host, s: Json, v: Json, at: Path, pats: Patterns, w: Violation)
    requires s.Obj? && CheckByKind(h, s, v, at, pats).Ok?
    ensures !ViolatesLeaf(h, s, v, pats, w)
  {
  }

  lemma ObjectIsCheckedByKind(h: Host, s: Json, v: Json, at: Path, pats: Patterns)
    requires s.Obj? && v.Obj?
    ensures CheckByKind(h, s, v, at, pats) == CheckObject(h, s, v, at, pats)
  {
  }

  lemma AcceptedIsLocallyValid(h: Host, s: Json, v: Json, at: Path, pats: Patterns)
    requires Audited(h, s) && CheckValue(h, s, v, at, pats).Ok?
    ensures LocallyValid(h, s, v, pats)
  {
    assert s.Obj?;
    AcceptedIsChecked(h, s, v, at, pats);
    hide Audited, CheckValue, CheckByKind, CheckObject, ViolatesShape, ViolatesObject, ViolatesLeaf, IsNullable,
         TypeGate;
    forall w
      ensures !Violates(h, s, v, pats, w)
    {
      if !(IsNullable(s) && v.Null?) {
        AcceptedLeafIsValid(h, s, v, at, pats, w);
        if v.Obj? {
          ObjectIsCheckedByKind(h, s, v, at, pats);
          AcceptedObjectIsValid(h, s, v, at, pats, w);
        } else {
          OnlyObjectsBreakObjectKeywords(s, v, w);
        }
      }
    }
  }

  lemma OnlyObjectsBreakObjectKeywords(s: Json, v: Json, w: Violation)
    ensures ViolatesObject(s, v, w) ==> v.Obj?
  {
  }

  lemma {:induction false} AcceptedReach(h: Host, s: Json, v: Json, at: Path, pats: Patterns, path: Path)
    requires Audited(h, s) && CheckValue(h, s, v, at, pats).Ok? && Reach(s, v, path).Some?
    ensures LocallyValid(h, Reach(s, v, path).value.0, Reach(s, v, path).value.1, pats)
    decreases |path|
  {
    if path == [] {
      AcceptedIsLocallyValid(h, s, v, at, pats);
    } else {
      AcceptedStep(h, s, v, at, pats, path[0]);
      var (sub, part) := Governs(s, v, path[0]).value;
      AcceptedReach(h, sub, part, at + [path[0]], pats, path[1..]);
    }
  }

  /**
    For every audited schema and every value: the checker accepts exactly when every pair of
    sub-schema and sub-value reachable through `properties` and `items` satisfies its own keywords.
   */
  lemma CheckValueIff(h: Host, s: Json, v: Json, pats: Patterns)
    requires Audited(h, s)
    ensures CheckValue(h, s, v, [], pats).Ok? <==> ValidThroughout(h, s, v, pats)
  {
    if CheckValue(h, s, v, [], pats).Err? {
      var path := RejectionIsExplained(h, s, v, [], pats);
    } else {
      forall path | Reach(s, v, path).Some?
        ensures LocallyValid(h, Reach(s, v, path).value.0, Reach(s, v, path).value.1, pats)
      {
        AcceptedReach(h, s, v, [], pats, path);
      }
    }
  }
}

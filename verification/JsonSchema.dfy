/**
  What a request contract means, said without the checker: which values meet a schema, keyword by keyword as JSON
  Schema words them, which values a text is read as, and which requests a registered contract lets in.
 */
module JsonSchema {
  import opened Wrappers
  import opened Json
  import opened Decimal
  import opened Schema
  import opened Contract
  import opened Coercion
  import opened InputContracts

  // ----- values and schemas -----

  predicate IsOf(v: Json, ty: string) {
    || (ty == "string" && v.Str?) || (ty == "boolean" && v.Bool?) || (ty == "null" && v.Null?)
    || (ty == "object" && v.Obj?) || (ty == "array" && v.Arr?)
    || (ty == "number" && v.Num?) || (ty == "integer" && v.Num? && !v.num.Float?)
  }

  /** A type declaration names one type or lists several. */
  predicate NamesType(declared: Json, ty: string) {
    declared == Str(ty) || (declared.Arr? && Str(ty) in declared.items)
  }

  ghost predicate MeetsType(s: Json, v: Json) {
    match Get(s, "type")
    case Some(t) => exists ty :: NamesType(t, ty) && IsOf(v, ty)
    case None => true
  }

  predicate MeetsEnum(s: Json, v: Json) {
    match Get(s, "enum")
    case Some(Arr(xs)) => exists i :: 0 <= i < |xs| && ValuesEq(xs[i], v)
    case _ => true
  }

  predicate AtLeast(s: Json, key: string, n: nat) {
    match Get(s, key) case Some(Num(PosInt(k))) => n >= k case _ => true
  }

  predicate AtMost(s: Json, key: string, n: nat) {
    match Get(s, key) case Some(Num(PosInt(k))) => n <= k case _ => true
  }

  predicate MeetsRange(s: Json, n: Number) {
    && (match Get(s, "minimum") case Some(Num(k)) => AsF64(n) >= AsF64(k) case _ => true)
    && (match Get(s, "maximum") case Some(Num(k)) => AsF64(n) <= AsF64(k) case _ => true)
  }

  predicate MeetsPattern(h: Host, s: Json, text: string) {
    match Get(s, "pattern") case Some(Str(p)) => h.regexMatch(p, text) case _ => true
  }

  predicate HasField(fields: seq<Field>, name: string) {
    exists i :: 0 <= i < |fields| && fields[i].key == name
  }

  predicate MeetsRequired(s: Json, fields: seq<Field>) {
    match Get(s, "required")
    case Some(Arr(names)) => forall i :: 0 <= i < |names| && names[i].Str? ==> HasField(fields, names[i].s)
    case _ => true
  }

  /** The schema that a schema gives for the fields of one name. */
  function SubSchema(s: Json, name: string): Option<Json> {
    match Get(s, "properties") case Some(ps) => Get(ps, name) case None => None
  }

  /** The value meets the schema at every depth; regular expressions are matched as they are written. */
  ghost predicate Meets(h: Host, s: Json, v: Json)
    decreases v
  {
    (Get(s, "nullable") == Some(Bool(true)) && v == Null) ||
    (&& MeetsType(s, v)
     && MeetsEnum(s, v)
     && match v
        case Obj(fields) =>
          && MeetsRequired(s, fields)
          && (forall i :: 0 <= i < |fields| ==>
                match SubSchema(s, fields[i].key)
                case Some(sub) => Meets(h, sub, fields[i].val)
                case None => Get(s, "additionalProperties") != Some(Bool(false)))
        case Arr(items) =>
          && (Get(s, "items").Some? ==> forall i :: 0 <= i < |items| ==> Meets(h, Get(s, "items").value, items[i]))
          && AtLeast(s, "minItems", |items|) && AtMost(s, "maxItems", |items|)
        case Str(text) =>
          && AtLeast(s, "minLength", |text|) && AtMost(s, "maxLength", |text|) && MeetsPattern(h, s, text)
        case Num(n) => MeetsRange(s, n)
        case _ => true)
  }

  // ----- the checker decides that -----

  ghost predicate Compiled(s: Json, pats: Patterns) {
    AllIn(PatternsOf(s), pats) && forall p :: p in pats ==> pats[p] == Regex(p)
  }

  lemma MatchesTypeIff(v: Json, ty: string)
    ensures MatchesType(v, ty) <==> IsOf(v, ty)
  {
  }

  lemma {:induction false} CollectedAreNames(items: seq<Json>)
    requires CollectTypes(items).Ok?
    ensures forall i :: 0 <= i < |items| ==> items[i] == Str(CollectTypes(items).value[i])
  {
    if items != [] {
      CollectedAreNames(items[1..]);
    }
  }

  lemma DeclaredAreNamed(t: Json, ty: string)
    requires DeclaredTypes(t).Ok?
    ensures ty in DeclaredTypes(t).value <==> NamesType(t, ty)
  {
    hide CollectTypes;
    if t.Arr? {
      CollectedAreNames(t.items);
    }
  }

  lemma TypeGateIff(s: Json, v: Json)
    requires Get(s, "type").Some? ==> DeclaredTypes(Get(s, "type").value).Ok?
    ensures TypeGate(s, v).None? <==> MeetsType(s, v)
  {
    hide DeclaredTypes, NamesType, IsOf, MatchesType;
    if Get(s, "type").Some? {
      var t := Get(s, "type").value;
      var types := DeclaredTypes(t).value;
      forall ty
        ensures MatchesType(v, ty) <==> IsOf(v, ty)
        ensures ty in types <==> NamesType(t, ty)
      {
        MatchesTypeIff(v, ty);
        DeclaredAreNamed(t, ty);
      }
      if i :| 0 <= i < |types| && MatchesType(v, types[i]) {
        assert NamesType(t, types[i]) && IsOf(v, types[i]);
      }
    }
  }

  lemma CountGates(s: Json, key: string, n: nat)
    ensures AtLeast(s, key, n) <==> !(Bound(s, key).Some? && n < Bound(s, key).value)
    ensures AtMost(s, key, n) <==> !(Bound(s, key).Some? && n > Bound(s, key).value)
  {
  }

  lemma ArrayGateIff(s: Json, n: nat)
    ensures ArrayGate(s, n).None? <==> AtLeast(s, "minItems", n) && AtMost(s, "maxItems", n)
  {
    hide AtLeast, AtMost, Bound;
    CountGates(s, "minItems", n);
    CountGates(s, "maxItems", n);
  }

  lemma TextGateIff(h: Host, s: Json, text: string, pats: Patterns)
    requires Compiled(s, pats)
    ensures TextGate(h, s, text, pats).None? <==>
            AtLeast(s, "minLength", |text|) && AtMost(s, "maxLength", |text|) && MeetsPattern(h, s, text)
  {
    hide AtLeast, AtMost, Bound, PatternsOf;
    PartPatternsIn(s, pats);
    assert OwnPattern(s) != [] ==> OwnPattern(s)[0] in pats;
    CountGates(s, "minLength", |text|);
    CountGates(s, "maxLength", |text|);
  }

  lemma RangeGateIff(s: Json, n: Number)
    ensures RangeGate(s, n).None? <==> MeetsRange(s, n)
  {
    hide AsF64;
  }

  lemma SubSchemaIs(h: Host, s: Json, name: string, pats: Patterns)
    requires Audited(h, s) && Compiled(s, pats)
    ensures SubSchema(s, name) == PropertySchema(s, name)
    ensures SubSchema(s, name).Some? ==>
              Audited(h, SubSchema(s, name).value) && Compiled(SubSchema(s, name).value, pats)
  {
    if PropertySchema(s, name).Some? {
      AuditedProperty(h, s, name);
      PartPatternsIn(s, pats);
      var ps := Properties(s).value;
      var i :| 0 <= i < |ps.fields| && ps.fields[i] == Field(name, PropertySchema(s, name).value);
      FieldPatternsIn(ps, |ps.fields|, i, pats);
    }
  }

  lemma ItemsSchemaIs(h: Host, s: Json, pats: Patterns)
    requires Audited(h, s) && Compiled(s, pats) && Get(s, "items").Some?
    ensures Audited(h, Get(s, "items").value) && Compiled(Get(s, "items").value, pats)
  {
    PartPatternsIn(s, pats);
  }

  lemma AuditedShape(h: Host, s: Json)
    requires Audited(h, s)
    ensures s.Obj? && (Get(s, "type").Some? ==> DeclaredTypes(Get(s, "type").value).Ok?)
    ensures Get(s, "enum").Some? ==> Get(s, "enum").value.Arr?
  {
  }

  lemma RequiredIff(s: Json, fields: seq<Field>)
    ensures var required := match Get(s, "required") case Some(Arr(rs)) => rs case _ => [];
            FirstMissing(required, fields).None? <==> MeetsRequired(s, fields)
  {
    var required := match Get(s, "required") case Some(Arr(rs)) => rs case _ => [];
    hide FirstMissing;
    forall name
      ensures Has(fields, name) <==> HasField(fields, name)
    {
    }
    if FirstMissing(required, fields).Some? {
      var i :| 0 <= i < |required| && required[i] == Str(FirstMissing(required, fields).value);
    }
  }

  ghost predicate FieldMeets(h: Host, s: Json, f: Field) {
    match SubSchema(s, f.key)
    case Some(sub) => Meets(h, sub, f.val)
    case None => Get(s, "additionalProperties") != Some(Bool(false))
  }

  lemma {:induction false} FieldsMeetIff(h: Host, s: Json, v: Json, i: nat, at: Path, pats: Patterns)
    requires Audited(h, s) && Compiled(s, pats) && v.Obj? && i <= |v.fields| && Properties(s).Some?
    ensures CheckFields(h, s, v, i, at, pats).Ok? <==> forall j :: i <= j < |v.fields| ==> FieldMeets(h, s, v.fields[j])
    decreases v, 0, |v.fields| - i
  {
    hide Audited, Compiled, CheckValue, SubSchema, PropertySchema, Meets, Get;
    if i < |v.fields| {
      var f := v.fields[i];
      SubSchemaIs(h, s, f.key, pats);
      if SubSchema(s, f.key).Some? {
        MeetsIff(h, SubSchema(s, f.key).value, f.val, at + [Prop(i)], pats);
      }
      FieldsMeetIff(h, s, v, i + 1, at, pats);
    }
  }

  lemma {:induction false} ItemsMeetIff(h: Host, s: Json, v: Json, i: nat, at: Path, pats: Patterns)
    requires Audited(h, s) && Compiled(s, pats) && v.Arr? && i <= |v.items| && Get(s, "items").Some?
    ensures CheckItems(h, s, v, i, at, pats).Ok? <==>
            forall j :: i <= j < |v.items| ==> Meets(h, Get(s, "items").value, v.items[j])
    decreases v, 0, |v.items| - i
  {
    hide Audited, Compiled, CheckValue, Meets, Get;
    if i < |v.items| {
      ItemsSchemaIs(h, s, pats);
      MeetsIff(h, Get(s, "items").value, v.items[i], at + [Item(i)], pats);
      ItemsMeetIff(h, s, v, i + 1, at, pats);
    }
  }

  lemma ObjectMeetsIff(h: Host, s: Json, v: Json, at: Path, pats: Patterns)
    requires Audited(h, s) && Compiled(s, pats) && s.Obj? && v.Obj?
    ensures CheckObject(h, s, v, at, pats).Ok? <==>
            MeetsRequired(s, v.fields) && forall j :: 0 <= j < |v.fields| ==> FieldMeets(h, s, v.fields[j])
    decreases v, 0, |v.fields| + 1
  {
    hide Audited, Compiled, Meets, FirstMissing, MeetsRequired, CheckFields;
    RequiredIff(s, v.fields);
    if Properties(s).Some? {
      FieldsMeetIff(h, s, v, 0, at, pats);
    } else {
      NoSubSchemas(h, s);
      assert v.fields != [] ==> (FieldMeets(h, s, v.fields[0]) <==> !ForbidsAdditional(s));
    }
  }

  lemma NoSubSchemas(h: Host, s: Json)
    requires Audited(h, s) && Properties(s).None?
    ensures forall name :: SubSchema(s, name).None?
  {
  }

  lemma ArrayParts(h: Host, s: Json, v: Json, at: Path, pats: Patterns)
    requires s.Obj? && v.Arr?
    ensures CheckByKind(h, s, v, at, pats).Ok? <==>
            CheckItems(h, s, v, 0, at, pats).Ok? && ArrayGate(s, |v.items|).None?
    ensures Get(s, "items").None? ==> CheckItems(h, s, v, 0, at, pats).Ok?
  {
    hide ArrayGate, CheckObject, Get;
  }

  lemma ArrayMeetsIff(h: Host, s: Json, v: Json, at: Path, pats: Patterns)
    requires Audited(h, s) && Compiled(s, pats) && s.Obj? && v.Arr?
    ensures CheckByKind(h, s, v, at, pats).Ok? <==>
            && (Get(s, "items").Some? ==>
                  forall j :: 0 <= j < |v.items| ==> Meets(h, Get(s, "items").value, v.items[j]))
            && AtLeast(s, "minItems", |v.items|) && AtMost(s, "maxItems", |v.items|)
    decreases v, 1
  {
    hide Audited, Compiled, Meets, AtLeast, AtMost, ArrayGate, TextGate, RangeGate, CheckByKind, CheckItems, Get;
    ArrayGateIff(s, |v.items|);
    ArrayParts(h, s, v, at, pats);
    if Get(s, "items").Some? {
      ItemsMeetIff(h, s, v, 0, at, pats);
    }
  }

  lemma KindMeetsIff(h: Host, s: Json, v: Json, at: Path, pats: Patterns)
    requires Audited(h, s) && Compiled(s, pats) && s.Obj?
    ensures CheckByKind(h, s, v, at, pats).Ok? <==> MeetsByKind(h, s, v)
    decreases v, 2
  {
    hide Audited, Compiled, Meets, AtLeast, AtMost, MeetsPattern, MeetsRange;
    hide ArrayGate, TextGate, RangeGate, CheckObject;
    match v
    case Obj(_) => ObjectMeetsIff(h, s, v, at, pats);
    case Arr(_) => ArrayMeetsIff(h, s, v, at, pats);
    case Str(text) => TextGateIff(h, s, text, pats);
    case Num(n) => RangeGateIff(s, n);
    case _ =>
  }

  /** The keywords that concern one kind of value only. */
  ghost predicate MeetsByKind(h: Host, s: Json, v: Json) {
    match v
    case Obj(fields) => MeetsRequired(s, fields) && forall i :: 0 <= i < |fields| ==> FieldMeets(h, s, fields[i])
    case Arr(items) =>
      && (Get(s, "items").Some? ==> forall i :: 0 <= i < |items| ==> Meets(h, Get(s, "items").value, items[i]))
      && AtLeast(s, "minItems", |items|) && AtMost(s, "maxItems", |items|)
    case Str(text) =>
      && AtLeast(s, "minLength", |text|) && AtMost(s, "maxLength", |text|) && MeetsPattern(h, s, text)
    case Num(n) => MeetsRange(s, n)
    case _ => true
  }

  lemma MeetsParts(h: Host, s: Json, v: Json)
    ensures Meets(h, s, v) <==>
            || (Get(s, "nullable") == Some(Bool(true)) && v == Null)
            || (MeetsType(s, v) && MeetsEnum(s, v) && MeetsByKind(h, s, v))
  {
    hide MeetsType, MeetsEnum, MeetsRequired, MeetsRange, MeetsPattern, AtLeast, AtMost;
  }

  /** On an audited schema whose patterns are compiled, the checker accepts exactly the values that meet it. */
  lemma {:induction false} MeetsIff(h: Host, s: Json, v: Json, at: Path, pats: Patterns)
    requires Audited(h, s) && Compiled(s, pats)
    ensures CheckValue(h, s, v, at, pats).Ok? <==> Meets(h, s, v)
    decreases v, 3
  {
    hide Audited, Compiled, Meets, MeetsByKind, MeetsType, CheckByKind, TypeGate, DeclaredTypes;
    AuditedShape(h, s);
    TypeGateIff(s, v);
    KindMeetsIff(h, s, v, at, pats);
    MeetsParts(h, s, v);
  }

  // ----- what a text is read as -----

  /** The text is a spelling of the value, for a parameter of this type; a float without finite value reads as null. */
  predicate ReadsAs(h: Host, ty: string, raw: string, v: Json) {
    || (ty == "string" && v == Str(raw))
    || (ty == "boolean" && ((raw == "true" && v == Bool(true)) || (raw == "false" && v == Bool(false))))
    || (ty == "null" && raw == "null" && v == Null)
    || (ty == "integer" && v.Num? && !v.num.Float? && ParseI64(raw) == IntegerValue(v.num))
    || (ty == "number" && h.parseF64(raw).Finite? && v == Num(Float(h.parseF64(raw).f)))
    || (ty == "number" && h.parseF64(raw).NonFinite? && v == Null)
  }

  ghost predicate IsReadable(h: Host, ty: string, raw: string) {
    exists v :: ReadsAs(h, ty, raw, v)
  }

  /** The types a schema gives for the fields of one name; without any, texts stay texts. */
  function TypesOf(s: Json, name: string): seq<Json> {
    match SubSchema(s, name)
    case None => [Str("string")]
    case Some(sub) =>
      match Get(sub, "type")
      case None => [Str("string")]
      case Some(Arr(names)) => names
      case Some(t) => [t]
  }

  predicate ReadsByType(h: Host, t: Json, raw: string, v: Json) {
    t.Str? && ReadsAs(h, t.s, raw, v)
  }

  ghost predicate IsReadableAt(h: Host, types: seq<Json>, j: nat, raw: string)
    requires j < |types|
  {
    types[j].Str? && IsReadable(h, types[j].s, raw)
  }

  ghost predicate FirstReads(h: Host, types: seq<Json>, i: nat, raw: string, v: Json)
    requires i < |types|
  {
    ReadsByType(h, types[i], raw, v) && forall j :: 0 <= j < i ==> !IsReadableAt(h, types, j, raw)
  }

  /** The first type that can read the text reads it; if none can and null is listed, it is null. */
  ghost predicate Reads(h: Host, types: seq<Json>, raw: string, v: Json) {
    || (exists i :: 0 <= i < |types| && FirstReads(h, types, i, raw, v))
    || (v == Null && Str("null") in types && forall j :: 0 <= j < |types| ==> !IsReadableAt(h, types, j, raw))
  }

  lemma CoercedIsRead(h: Host, ty: string, raw: string, v: Json)
    ensures CoerceAs(h, ty, raw) == Some(v) <==> ReadsAs(h, ty, raw, v)
  {
    hide ParseI64;
  }

  lemma ReadableIff(h: Host, ty: string, raw: string)
    ensures IsReadable(h, ty, raw) <==> CoerceAs(h, ty, raw).Some?
  {
    hide CoerceAs, ReadsAs;
    if CoerceAs(h, ty, raw).Some? {
      CoercedIsRead(h, ty, raw, CoerceAs(h, ty, raw).value);
    }
    if v :| ReadsAs(h, ty, raw, v) {
      CoercedIsRead(h, ty, raw, v);
    }
  }

  lemma TypesAre(h: Host, s: Json, name: string)
    requires Audited(h, s)
    ensures TargetTypes(s, name).Ok?
    ensures |TypesOf(s, name)| == |TargetTypes(s, name).value|
    ensures forall i :: 0 <= i < |TypesOf(s, name)| ==> TypesOf(s, name)[i] == Str(TargetTypes(s, name).value[i])
  {
    hide Audited, DeclaredTypes, PropertySchema, SubSchema;
    TargetTypesDeclared(h, s, name);
    SubSchemaName(h, s, name);
    if PropertySchema(s, name).Some? && Get(PropertySchema(s, name).value, "type").Some? {
      DeclaredOneByOne(Get(PropertySchema(s, name).value, "type").value);
    }
  }

  lemma SubSchemaName(h: Host, s: Json, name: string)
    requires Audited(h, s)
    ensures SubSchema(s, name) == PropertySchema(s, name)
  {
  }

  lemma TypesReadAlike(h: Host, names: seq<string>, types: seq<Json>, raw: string, v: Json, j: nat)
    requires |names| == |types| && j < |types| && types[j] == Str(names[j])
    ensures IsReadableAt(h, types, j, raw) <==> CoerceAs(h, names[j], raw).Some?
    ensures ReadsByType(h, types[j], raw, v) <==> CoerceAs(h, names[j], raw) == Some(v)
  {
    hide CoerceAs, ReadsAs, IsReadable;
    ReadableIff(h, names[j], raw);
    CoercedIsRead(h, names[j], raw, v);
  }

  lemma NullIsListed(names: seq<string>, types: seq<Json>)
    requires |names| == |types| && forall j :: 0 <= j < |types| ==> types[j] == Str(names[j])
    ensures "null" in names <==> Str("null") in types
  {
    forall j | 0 <= j < |types|
      ensures types[j] == Str("null") <==> names[j] == "null"
    {
    }
  }

  lemma ReadsAtHit(h: Host, names: seq<string>, types: seq<Json>, raw: string, v: Json, k: nat)
    requires |names| == |types| && forall j :: 0 <= j < |types| ==> types[j] == Str(names[j])
    requires k <= |names| && forall j :: 0 <= j < k ==> CoerceAs(h, names[j], raw).None?
    requires k < |names| ==> CoerceAs(h, names[k], raw).Some?
    ensures Reads(h, types, raw, v) <==>
            if k < |names| then CoerceAs(h, names[k], raw) == Some(v) else v == Null && "null" in names
  {
    hide CoerceAs, ReadsByType, IsReadableAt;
    forall j | 0 <= j < |types|
      ensures IsReadableAt(h, types, j, raw) <==> CoerceAs(h, names[j], raw).Some?
      ensures ReadsByType(h, types[j], raw, v) <==> CoerceAs(h, names[j], raw) == Some(v)
    {
      TypesReadAlike(h, names, types, raw, v, j);
    }
    NullIsListed(names, types);
    if k < |types| {
      assert FirstReads(h, types, k, raw, v) <==> CoerceAs(h, names[k], raw) == Some(v);
      assert IsReadableAt(h, types, k, raw);
    }
  }

  lemma KeyIsRead(h: Host, s: Json, name: string, raw: string, v: Json)
    requires Audited(h, s)
    ensures CoerceKey(h, s, name, raw) == Ok(v) <==> Reads(h, TypesOf(s, name), raw, v)
  {
    hide Audited, TargetTypes, TypesOf, CoerceAs, Reads, CoerceOne;
    TypesAre(h, s, name);
    var names := TargetTypes(s, name).value;
    var k := CoerceOneHit(h, raw, names);
    ReadsAtHit(h, names, TypesOf(s, name), raw, v, k);
  }

  /** The strings of a channel, read one by one: same keys, same order. */
  ghost predicate ReadsFields(h: Host, s: Json, src: StringMap, fields: seq<Field>) {
    && |fields| == |src|
    && forall i :: 0 <= i < |src| ==>
         fields[i].key == src[i].0 && Reads(h, TypesOf(s, src[i].0), src[i].1, fields[i].val)
  }

  lemma {:induction false} ChannelIsRead(h: Host, s: Json, src: StringMap, fields: seq<Field>, n: nat)
    requires Audited(h, s) && n <= |src| && |fields| == |src|
    ensures CoercePrefix(h, s, src, n) == Ok(fields[..n]) <==>
            forall i :: 0 <= i < n ==>
              fields[i].key == src[i].0 && Reads(h, TypesOf(s, src[i].0), src[i].1, fields[i].val)
  {
    hide Audited, Reads, TypesOf, CoerceKey;
    if n > 0 {
      ChannelIsRead(h, s, src, fields, n - 1);
      KeyIsRead(h, s, src[n - 1].0, src[n - 1].1, fields[n - 1].val);
      assert fields[..n] == fields[..n - 1] + [fields[n - 1]];
      if CoercePrefix(h, s, src, n).Ok? {
        CoercedKeys(h, s, src, n - 1);
        LastAndInit(CoercePrefix(h, s, src, n - 1), fields, n);
      }
    }
  }

  lemma LastAndInit(done: Result<seq<Field>, CoerceError>, fields: seq<Field>, n: nat)
    requires 0 < n <= |fields| && done.Ok? && |done.value| == n - 1
    ensures forall f :: done.value + [f] == fields[..n] <==> done.value == fields[..n - 1] && f == fields[n - 1]
  {
    forall f
      ensures done.value + [f] == fields[..n] <==> done.value == fields[..n - 1] && f == fields[n - 1]
    {
      assert (done.value + [f])[n - 1] == f && (done.value + [f])[..n - 1] == done.value;
      assert fields[..n][..n - 1] == fields[..n - 1];
      assert fields[..n] == fields[..n - 1] + [fields[n - 1]];
    }
  }

  lemma CoerceIsReading(h: Host, s: Json, src: StringMap, fields: seq<Field>)
    requires Audited(h, s)
    ensures Coerce(h, s, src) == Ok(Obj(fields)) <==> ReadsFields(h, s, src, fields)
  {
    hide Audited, CoercePrefix, Reads, TypesOf;
    if |fields| == |src| {
      ChannelIsRead(h, s, src, fields, |src|);
      assert fields[..|src|] == fields;
    } else if CoercePrefix(h, s, src, |src|).Ok? {
      CoercedKeys(h, s, src, |src|);
    }
  }

  // ----- which requests are let in -----

  /** The strings of a channel can be read, and what they are read as meets the schema. */
  ghost predicate StringsMeet(h: Host, schema: Option<Json>, src: StringMap) {
    schema.Some? ==>
      exists fields :: ReadsFields(h, schema.value, src, fields) && Meets(h, schema.value, Obj(fields))
  }

  /** The body is a value that meets the schema; an empty body is null. */
  ghost predicate BodyMeets(h: Host, schema: Option<Json>, text: string) {
    schema.Some? ==>
      if text == "" then Meets(h, schema.value, Null)
      else h.parseJson(text).Some? && Meets(h, schema.value, h.parseJson(text).value)
  }

  lemma ValidIsMeeting(h: Host, s: Json, v: Json, pats: Patterns)
    requires Audited(h, s) && Compiled(s, pats)
    ensures ValidThroughout(h, s, v, pats) <==> Meets(h, s, v)
  {
    hide Audited, Compiled, ValidThroughout, Meets, CheckValue;
    CheckValueIff(h, s, v, pats);
    MeetsIff(h, s, v, [], pats);
  }

  lemma StringsMeetIff(h: Host, schema: Option<Json>, src: StringMap, pats: Patterns)
    requires schema.Some? ==> Audited(h, schema.value) && Compiled(schema.value, pats)
    ensures StringsHold(h, schema, src, pats) <==> StringsMeet(h, schema, src)
  {
    hide Audited, Compiled, ValidThroughout, Meets, Coerce, ReadsFields;
    if schema.Some? {
      var s := schema.value;
      var read := Coerce(h, s, src);
      if read.Ok? {
        CoercedIsObject(h, s, src);
        CoerceIsReading(h, s, src, read.value.fields);
        ValidIsMeeting(h, s, read.value, pats);
      }
      if fields :| ReadsFields(h, s, src, fields) && Meets(h, s, Obj(fields)) {
        CoerceIsReading(h, s, src, fields);
      }
    }
  }

  lemma CoercedIsObject(h: Host, s: Json, src: StringMap)
    ensures Coerce(h, s, src).Ok? ==> Coerce(h, s, src).value.Obj?
  {
  }

  lemma BodyMeetsIff(h: Host, schema: Option<Json>, text: string, pats: Patterns)
    requires schema.Some? ==> Audited(h, schema.value) && Compiled(schema.value, pats)
    ensures BodyHolds(h, schema, text, pats) <==> BodyMeets(h, schema, text)
  {
    hide Audited, Compiled, ValidThroughout, Meets;
    if schema.Some? && BodyValue(h, text).Some? {
      ValidIsMeeting(h, schema.value, BodyValue(h, text).value, pats);
    }
  }

  lemma RegisteredIsCompiled(h: Host, reg: Registry, key: Key)
    requires Sound(h, reg) && key in reg.contracts
    ensures var c, pats := reg.contracts[key], reg.patterns;
            && (c.params.Some? ==> Audited(h, c.params.value) && Compiled(c.params.value, pats))
            && (c.query.Some? ==> Audited(h, c.query.value) && Compiled(c.query.value, pats))
            && (c.body.Some? ==> Audited(h, c.body.value) && Compiled(c.body.value, pats))
  {
    hide Audited, PatternsOf, Registrable, ContractPatterns, AllIn;
    ChannelPatternsIn(h, reg.contracts[key], reg.patterns);
  }

  /** The contract of a route lets a request in. */
  ghost predicate LetsIn(h: Host, c: InputContract, req: Request) {
    StringsMeet(h, c.params, req.params) && StringsMeet(h, c.query, req.query) && BodyMeets(h, c.body, req.body)
  }

  lemma LetsInIff(h: Host, reg: Registry, key: Key, req: Request)
    requires Sound(h, reg)
    ensures CheckRequest(h, reg, key, req).Ok? <==> (key in reg.contracts ==> LetsIn(h, reg.contracts[key], req))
  {
    hide Sound, CheckRequest, StringsHold, BodyHolds, StringsMeet, BodyMeets, Audited, Compiled;
    AcceptsIff(h, reg, key, req);
    if key in reg.contracts {
      var c := reg.contracts[key];
      RegisteredIsCompiled(h, reg, key);
      StringsMeetIff(h, c.params, req.params, reg.patterns);
      StringsMeetIff(h, c.query, req.query, reg.patterns);
      BodyMeetsIff(h, c.body, req.body, reg.patterns);
    }
  }

  /**
    The gate from end to end: after any registrations, good and bad, a request passes exactly when the last
    good contract of its route lets it in -- and always when there is none.
   */
  lemma RequestsAreLetInIff(h: Host, ops: seq<Insertion>, key: Key, req: Request)
    ensures CheckRequest(h, RunInserts(h, Registry(map[], map[]), ops), key, req).Ok? <==>
            match LastGood(h, ops, key) case None => true case Some(c) => LetsIn(h, c, req)
  {
    hide Sound, CheckRequest, LetsIn;
    EmptyIsSound(h);
    RunKeepsSound(h, Registry(map[], map[]), ops);
    LastGoodIsKept(h, ops, key);
    LetsInIff(h, RunInserts(h, Registry(map[], map[]), ops), key, req);
  }

  // ----- which schemas can be declared -----

  predicate IsKeyword(key: string) {
    || key == "type" || key == "required" || key == "properties" || key == "items" || key == "additionalProperties"
    || key == "minimum" || key == "maximum" || key == "minLength" || key == "maxLength" || key == "pattern"
    || key == "enum" || key == "nullable" || key == "minItems" || key == "maxItems" || key == "default"
  }

  predicate IsTypeName(ty: string) {
    IsScalarName(ty) || ty == "object" || ty == "array"
  }

  predicate IsScalarName(ty: string) {
    ty == "string" || ty == "number" || ty == "integer" || ty == "boolean" || ty == "null"
  }

  /** One type, or a list of at least one. */
  predicate IsTypeDeclaration(t: Json) {
    || (t.Str? && IsTypeName(t.s))
    || (t.Arr? && t.items != [] && forall i :: 0 <= i < |t.items| ==> t.items[i].Str? && IsTypeName(t.items[i].s))
  }

  predicate IsNumberIfGiven(s: Json, key: string) {
    match Get(s, key) case Some(v) => v.Num? case None => true
  }

  /** A schema that can be enforced: known keywords, each of the right form, and the same at every depth. */
  predicate IsSchema(h: Host, s: Json)
    decreases s
  {
    && s.Obj?
    && (forall i :: 0 <= i < |s.fields| ==> IsKeyword(s.fields[i].key))
    && (match Get(s, "type") case Some(t) => IsTypeDeclaration(t) case None => true)
    && (match Get(s, "pattern") case Some(p) => p.Str? && h.regexOk(p.s) case None => true)
    && (match Get(s, "enum") case Some(e) => e.Arr? && e.items != [] case None => true)
    && (match Get(s, "required")
        case Some(r) => r.Arr? && forall i :: 0 <= i < |r.items| ==> r.items[i].Str?
        case None => true)
    && IsNumberIfGiven(s, "minLength") && IsNumberIfGiven(s, "maxLength") && IsNumberIfGiven(s, "minItems")
    && IsNumberIfGiven(s, "maxItems") && IsNumberIfGiven(s, "minimum") && IsNumberIfGiven(s, "maximum")
    && (match Get(s, "properties")
        case Some(ps) =>
          && ps.Obj?
          && (forall i :: 0 <= i < |ps.fields| ==>
                && ps.fields[i].key != "__proto__" && ps.fields[i].key != "constructor"
                && ps.fields[i].key != "prototype" && IsSchema(h, ps.fields[i].val))
        case None => true)
    && (match Get(s, "items") case Some(sub) => IsSchema(h, sub) case None => true)
  }

  lemma NamesAre(key: string)
    ensures key in SUPPORTED_KEYWORDS <==> IsKeyword(key)
    ensures key in ALL_TYPES <==> IsTypeName(key)
    ensures key in SCALAR_TYPES <==> IsScalarName(key)
    ensures AllowedName(key) <==> key != "__proto__" && key != "constructor" && key != "prototype"
  {
  }

  lemma {:induction false} CollectsIff(items: seq<Json>)
    ensures CollectTypes(items).Ok? <==> forall i :: 0 <= i < |items| ==> items[i].Str? && IsTypeName(items[i].s)
  {
    hide IsTypeName, ALL_TYPES;
    if items != [] {
      if items[0].Str? {
        NamesAre(items[0].s);
      }
      CollectsIff(items[1..]);
      assert items == [items[0]] + items[1..];
    }
  }

  lemma DeclaresIff(t: Json)
    ensures DeclaredTypes(t).Ok? <==> IsTypeDeclaration(t)
  {
    hide CollectTypes, IsTypeName, ALL_TYPES;
    match t
    case Str(s) => NamesAre(s);
    case Arr(items) => CollectsIff(items);
    case _ =>
  }

  lemma NumbersIff(s: Json)
    ensures NumbersOk(s) <==>
            && IsNumberIfGiven(s, "minLength") && IsNumberIfGiven(s, "maxLength") && IsNumberIfGiven(s, "minItems")
            && IsNumberIfGiven(s, "maxItems") && IsNumberIfGiven(s, "minimum") && IsNumberIfGiven(s, "maximum")
  {
    hide Get;
    assert COUNT_KEYWORDS[0] == "minLength" && COUNT_KEYWORDS[1] == "maxLength" && COUNT_KEYWORDS[2] == "minItems"
           && COUNT_KEYWORDS[3] == "maxItems" && RANGE_KEYWORDS[0] == "minimum" && RANGE_KEYWORDS[1] == "maximum";
    forall key
      ensures NumberIfPresent(s, key) <==> IsNumberIfGiven(s, key)
    {
    }
  }

  lemma KeywordsIff(s: Json)
    ensures KnownKeywords(s) <==> s.Obj? && forall i :: 0 <= i < |s.fields| ==> IsKeyword(s.fields[i].key)
  {
    hide IsKeyword, SUPPORTED_KEYWORDS;
    if s.Obj? {
      forall i | 0 <= i < |s.fields|
        ensures s.fields[i].key in SUPPORTED_KEYWORDS <==> IsKeyword(s.fields[i].key)
      {
        NamesAre(s.fields[i].key);
      }
    }
  }

  /** The audit accepts exactly the schemas that can be enforced. */
  lemma {:induction false} AuditedIff(h: Host, s: Json)
    ensures Audited(h, s) <==> IsSchema(h, s)
    decreases s
  {
    hide KnownKeywords, NumbersOk, IsKeyword, IsTypeDeclaration, IsNumberIfGiven, DeclaredTypes, AllowedName;
    KeywordsIff(s);
    NumbersIff(s);
    if Get(s, "type").Some? {
      DeclaresIff(Get(s, "type").value);
    }
    if Get(s, "items").Some? {
      AuditedIff(h, Get(s, "items").value);
    }
    if Get(s, "properties").Some? && Get(s, "properties").value.Obj? {
      var ps := Get(s, "properties").value.fields;
      forall i | 0 <= i < |ps|
        ensures AllowedName(ps[i].key) && Audited(h, ps[i].val) <==>
                && ps[i].key != "__proto__" && ps[i].key != "constructor" && ps[i].key != "prototype"
                && IsSchema(h, ps[i].val)
      {
        NamesAre(ps[i].key);
        AuditedIff(h, ps[i].val);
      }
    }
  }

  /** Every type that the declaration names is a scalar one. */
  predicate IsScalarDeclaration(t: Json) {
    || (t.Str? && IsScalarName(t.s))
    || (t.Arr? && t.items != [] && forall i :: 0 <= i < |t.items| ==> t.items[i].Str? && IsScalarName(t.items[i].s))
  }

  /** A schema for strings: an object of scalars, with nothing nested. */
  predicate IsStringSchema(h: Host, s: Json) {
    && IsSchema(h, s)
    && (match Get(s, "type") case Some(t) => t == Str("object") || t == Arr([Str("object")]) case None => true)
    && (match Get(s, "properties")
        case Some(ps) =>
          ps.Obj? && forall i :: 0 <= i < |ps.fields| ==>
            && (match Get(ps.fields[i].val, "type") case Some(t) => IsScalarDeclaration(t) case None => true)
            && Get(ps.fields[i].val, "properties").None? && Get(ps.fields[i].val, "items").None?
        case None => true)
  }

  lemma ScalarsIff(t: Json)
    ensures IsScalarDeclaration(t) <==>
            DeclaredTypes(t).Ok?
            && forall i :: 0 <= i < |DeclaredTypes(t).value| ==> DeclaredTypes(t).value[i] in SCALAR_TYPES
  {
    hide CollectTypes, SCALAR_TYPES, ALL_TYPES, DeclaredTypes;
    DeclaresIff(t);
    if DeclaredTypes(t).Ok? {
      var types := DeclaredTypes(t).value;
      ScalarNames(types);
      DeclaredOneByOne(t);
      assert t.Str? ==> types[0] == t.s;
      assert t.Arr? ==> forall i :: 0 <= i < |types| ==> types[i] == t.items[i].s;
    }
  }

  lemma ScalarNames(types: seq<string>)
    ensures forall i :: 0 <= i < |types| ==> (types[i] in SCALAR_TYPES <==> IsScalarName(types[i]))
  {
    forall i | 0 <= i < |types|
      ensures types[i] in SCALAR_TYPES <==> IsScalarName(types[i])
    {
      NamesAre(types[i]);
    }
  }

  lemma DeclaredOneByOne(t: Json)
    requires DeclaredTypes(t).Ok?
    ensures t.Str? || t.Arr?
    ensures t.Str? ==> DeclaredTypes(t).value == [t.s]
    ensures t.Arr? ==> |DeclaredTypes(t).value| == |t.items|
                       && forall i :: 0 <= i < |t.items| ==> t.items[i] == Str(DeclaredTypes(t).value[i])
  {
    hide CollectTypes;
    if t.Arr? {
      CollectedAreNames(t.items);
    }
  }

  lemma ObjectTypeIff(t: Json)
    ensures DeclaredTypes(t) == Ok(["object"]) <==> t == Str("object") || t == Arr([Str("object")])
  {
    hide CollectTypes, DeclaredTypes, ALL_TYPES;
    DeclaresIff(t);
    if DeclaredTypes(t).Ok? {
      DeclaredOneByOne(t);
    }
    if t == Arr([Str("object")]) {
      assert IsTypeDeclaration(t);
      assert DeclaredTypes(t).value == ["object"] by {
        assert t.items[0] == Str("object");
      }
    }
  }

  lemma StringPropertyIff(h: Host, sub: Json)
    ensures ScalarProperty(h, sub) <==>
            && (match Get(sub, "type") case Some(t) => IsScalarDeclaration(t) case None => true)
            && Get(sub, "properties").None? && Get(sub, "items").None? && IsSchema(h, sub)
  {
    hide Audited, IsSchema, DeclaredTypes, IsScalarDeclaration, SCALAR_TYPES;
    AuditedIff(h, sub);
    if Get(sub, "type").Some? {
      ScalarsIff(Get(sub, "type").value);
    }
  }

  lemma PropertiesAreSchemas(h: Host, s: Json)
    requires IsSchema(h, s) && Get(s, "properties").Some?
    ensures var ps := Get(s, "properties").value;
            ps.Obj? && forall i :: 0 <= i < |ps.fields| ==> IsSchema(h, ps.fields[i].val)
  {
  }

  /** The audit of `params` and `query` accepts exactly the schemas for strings. */
  lemma StringChannelIff(h: Host, s: Json)
    ensures ScalarChannel(h, s) <==> IsStringSchema(h, s)
  {
    hide Audited, IsSchema, DeclaredTypes, IsScalarDeclaration, ScalarProperty;
    AuditedIff(h, s);
    if Get(s, "type").Some? {
      ObjectTypeIff(Get(s, "type").value);
    }
    if Get(s, "properties").Some? && Get(s, "properties").value.Obj? {
      var ps := Get(s, "properties").value.fields;
      forall i | 0 <= i < |ps|
        ensures ScalarProperty(h, ps[i].val) <==>
                && (match Get(ps[i].val, "type") case Some(t) => IsScalarDeclaration(t) case None => true)
                && Get(ps[i].val, "properties").None? && Get(ps[i].val, "items").None? && IsSchema(h, ps[i].val)
      {
        StringPropertyIff(h, ps[i].val);
      }
      if IsSchema(h, s) {
        PropertiesAreSchemas(h, s);
      }
    }
    if IsSchema(h, s) {
      AuditedShape(h, s);
    } else {
      assert !IsStringSchema(h, s);
    }
  }

  // ----- equality in enumerations -----

  predicate HasNoObject(v: Json) {
    match v
    case Obj(_) => false
    case Arr(xs) => forall i :: 0 <= i < |xs| ==> HasNoObject(xs[i])
    case _ => true
  }

  /** On values without objects, equality is identity. */
  lemma {:induction false} SameIsIdentical(a: Json, b: Json)
    requires HasNoObject(a)
    ensures SameJson(a, b) <==> a == b
  {
    if a.Arr? && b.Arr? && |a.items| == |b.items| {
      forall i | 0 <= i < |a.items|
        ensures SameJson(a.items[i], b.items[i]) <==> a.items[i] == b.items[i]
      {
        SameIsIdentical(a.items[i], b.items[i]);
      }
    }
  }

  predicate KeysDiffer(fields: seq<Field>) {
    forall i, j :: 0 <= i < j < |fields| ==> fields[i].key != fields[j].key
  }

  /** The list holds a field of the same name and an equal value. */
  predicate HasEqual(fields: seq<Field>, f: Field) {
    exists j :: 0 <= j < |fields| && fields[j].key == f.key && SameJson(f.val, fields[j].val)
  }

  lemma HasEqualIff(fields: seq<Field>, f: Field)
    requires KeysDiffer(fields)
    ensures Lookup(fields, f.key).Some? && SameJson(f.val, Lookup(fields, f.key).value) <==> HasEqual(fields, f)
  {
    hide SameJson, Lookup;
    forall j | 0 <= j < |fields| && fields[j].key == f.key
      ensures Lookup(fields, f.key) == Some(fields[j].val)
    {
      OnlyField(fields, j);
    }
    if Lookup(fields, f.key).Some? {
      var j :| 0 <= j < |fields| && fields[j] == Field(f.key, Lookup(fields, f.key).value);
    }
  }

  /** Objects are equal when they have the same keys with equal values, in whatever order. */
  lemma SameObjectsIff(x: seq<Field>, y: seq<Field>)
    requires KeysDiffer(x) && KeysDiffer(y)
    ensures SameJson(Obj(x), Obj(y)) <==> |x| == |y| && forall i :: 0 <= i < |x| ==> HasEqual(y, x[i])
  {
    hide HasEqual, Lookup;
    forall i | 0 <= i < |x|
      ensures Lookup(y, x[i].key).Some? && SameJson(x[i].val, Lookup(y, x[i].key).value) <==> HasEqual(y, x[i])
    {
      HasEqualIff(y, x[i]);
    }
  }

  lemma OnlyField(fields: seq<Field>, j: nat)
    requires KeysDiffer(fields) && j < |fields|
    ensures Lookup(fields, fields[j].key) == Some(fields[j].val)
  {
    hide Lookup;
    var found := Lookup(fields, fields[j].key);
    var i :| 0 <= i < |fields| && fields[i] == Field(fields[j].key, found.value);
  }
}

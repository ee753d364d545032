/**
  The registry of request contracts (src/contract.rs). Contracts are audited when registered and their
  patterns compiled once into a shared table; requests are then checked against that table.
 */
module InputContracts {
  import opened Wrappers
  import opened Json
  import opened Schema
  import opened Contract
  import opened Coercion

  datatype Channel = Params | Query | Body

  datatype InputContract = InputContract(params: Option<Json>, query: Option<Json>, body: Option<Json>)

  /** An API file and the name of one of its handlers. */
  datatype Key = Key(file: string, handler: string)

  datatype Request = Request(params: StringMap, query: StringMap, body: string)

  // ----- construction -----

  predicate Registrable(h: Host, c: InputContract) {
    && (c.params.Some? ==> ScalarChannel(h, c.params.value))
    && (c.query.Some? ==> ScalarChannel(h, c.query.value))
    && (c.body.Some? ==> Audited(h, c.body.value))
  }

  function ContractPatterns(c: InputContract): seq<string> {
    (if c.params.Some? then ScalarChannelPatterns(c.params.value) else []) +
    (if c.query.Some? then ScalarChannelPatterns(c.query.value) else []) +
    (if c.body.Some? then PatternsOf(c.body.value) else [])
  }

  method TryNew(h: Host, params: Option<Json>, query: Option<Json>, body: Option<Json>, pats: seq<string>)
    returns (r: Result<InputContract, AuditError>, out: seq<string>)
    ensures r.Ok? <==> Registrable(h, InputContract(params, query, body))
    ensures r.Ok? ==> r.value == InputContract(params, query, body) && out == pats + ContractPatterns(r.value)
  {
    hide Audited, ScalarChannel, ScalarChannelPatterns, PatternsOf;
    var audited: Result<(), AuditError>;
    out := pats;
    audited, out := AuditScalarChannel(h, params, out);
    if audited.Err? {
      return Err(audited.error), out;
    }
    audited, out := AuditScalarChannel(h, query, out);
    if audited.Err? {
      return Err(audited.error), out;
    }
    if body.Some? {
      audited, out := AuditKeywords(h, body.value, out);
      if audited.Err? {
        return Err(audited.error), out;
      }
    }
    var c := InputContract(params, query, body);
    assert out == pats + ContractPatterns(c);
    return Ok(c), out;
  }

  // ----- the registry -----

  datatype Registry = Registry(contracts: map<Key, InputContract>, patterns: Patterns)

  function Compile(ps: seq<string>): Patterns {
    map p | p in ps :: Regex(p)
  }

  lemma CompileOneMore(ps: seq<string>, p: string, before: Patterns)
    ensures var now := Compile(ps) + before;
            Compile(ps + [p]) + before == if p in now then now else now[p := Regex(p)]
  {
  }

  /** Registering a contract; an already compiled pattern is kept. A bad contract changes nothing. */
  function InsertStep(h: Host, reg: Registry, key: Key, c: InputContract): Registry {
    if Registrable(h, c) then Registry(reg.contracts[key := c], Compile(ContractPatterns(c)) + reg.patterns) else reg
  }

  class InputContractRegistry {
    var contracts: map<Key, InputContract>
    var patterns: Patterns

    ghost function Contents(): Registry
      reads this
    {
      Registry(contracts, patterns)
    }

    constructor ()
      ensures Contents() == Registry(map[], map[])
    {
      contracts, patterns := map[], map[];
    }

    method Insert(h: Host, key: Key, contract: InputContract) returns (r: Result<(), AuditError>)
      modifies this
      ensures r.Ok? <==> Registrable(h, contract)
      ensures Contents() == InsertStep(h, old(Contents()), key, contract)
    {
      hide Registrable, ContractPatterns;
      var made, pats := TryNew(h, contract.params, contract.query, contract.body, []);
      if made.Err? {
        return Err(made.error);
      }
      assert pats == ContractPatterns(contract);
      for i := 0 to |pats|
        invariant contracts == old(contracts)
        invariant patterns == Compile(pats[..i]) + old(patterns)
      {
        CompileOneMore(pats[..i], pats[i], old(patterns));
        assert pats[..i + 1] == pats[..i] + [pats[i]];
        if pats[i] !in patterns {
          patterns := patterns[pats[i] := Regex(pats[i])];
        }
      }
      assert pats[..|pats|] == pats;
      contracts := contracts[key := made.value];
      return Ok(());
    }
  }

  // ----- checking a request -----

  datatype Failure =
    | InvalidJson
    | NotCoercible(channel: Channel, error: CoerceError)
    | NotValid(channel: Channel, rejection: Rejection)

  function CheckScalars(
    h: Host, schema: Option<Json>, src: StringMap, channel: Channel, pats: Patterns): Result<(), Failure>
  {
    if schema.None? then Ok(())
    else match Coerce(h, schema.value, src)
      case Err(e) => Err(NotCoercible(channel, e))
      case Ok(v) =>
        match CheckValue(h, schema.value, v, [], pats)
        case Ok(_) => Ok(())
        case Err(e) => Err(NotValid(channel, e))
  }

  function CheckContract(
    h: Host, c: InputContract, params: StringMap, query: StringMap, body: Option<Json>, pats: Patterns)
    : Result<(), Failure>
  {
    var p := CheckScalars(h, c.params, params, Params, pats);
    if p.Err? then p
    else
      var q := CheckScalars(h, c.query, query, Query, pats);
      if q.Err? then q
      else if c.body.None? then Ok(())
      else
        var v := if body.Some? then body.value else Null;
        match CheckValue(h, c.body.value, v, [], pats) case Ok(_) => Ok(()) case Err(e) => Err(NotValid(Body, e))
  }

  /** The body is parsed only when the route declares one; an empty body counts as none. */
  function CheckRequest(h: Host, reg: Registry, key: Key, req: Request): Result<(), Failure> {
    if key !in reg.contracts then Ok(())
    else
      var c := reg.contracts[key];
      if c.body.Some? && req.body != "" then
        match h.parseJson(req.body)
        case None => Err(InvalidJson)
        case Some(v) => CheckContract(h, c, req.params, req.query, Some(v), reg.patterns)
      else CheckContract(h, c, req.params, req.query, None, reg.patterns)
  }

  // ----- what registration guarantees -----

  /** Every stored contract is audited, and every pattern at any depth of it is compiled as itself. */
  ghost predicate Sound(h: Host, reg: Registry) {
    && (forall k :: k in reg.contracts ==>
          Registrable(h, reg.contracts[k]) && PatternsCovered(reg.contracts[k], reg.patterns))
    && (forall p :: p in reg.patterns ==> reg.patterns[p] == Regex(p))
  }

  ghost predicate PatternsCovered(c: InputContract, pats: Patterns) {
    AllIn(ContractPatterns(c), pats)
  }

  ghost predicate AllIn(ps: seq<string>, pats: Patterns) {
    forall i :: 0 <= i < |ps| ==> ps[i] in pats
  }

  lemma InsertKeepsSound(h: Host, reg: Registry, key: Key, c: InputContract)
    requires Sound(h, reg)
    ensures Sound(h, InsertStep(h, reg, key, c))
  {
    hide Registrable, ContractPatterns;
    var after := InsertStep(h, reg, key, c);
    if after != reg {
      forall k | k in after.contracts
        ensures PatternsCovered(after.contracts[k], after.patterns)
      {
        var d := after.contracts[k];
        forall i | 0 <= i < |ContractPatterns(d)|
          ensures ContractPatterns(d)[i] in after.patterns
        {
        }
      }
    }
  }

  datatype Insertion = Insertion(key: Key, contract: InputContract)

  function RunInserts(h: Host, reg: Registry, ops: seq<Insertion>): Registry
    decreases |ops|
  {
    if ops == [] then reg else RunInserts(h, InsertStep(h, reg, ops[0].key, ops[0].contract), ops[1..])
  }

  lemma {:induction false} RunKeepsSound(h: Host, reg: Registry, ops: seq<Insertion>)
    requires Sound(h, reg)
    ensures Sound(h, RunInserts(h, reg, ops))
    decreases |ops|
  {
    if ops != [] {
      InsertKeepsSound(h, reg, ops[0].key, ops[0].contract);
      RunKeepsSound(h, InsertStep(h, reg, ops[0].key, ops[0].contract), ops[1..]);
    }
  }

  lemma AllInConcat(a: seq<string>, b: seq<string>, pats: Patterns)
    ensures AllIn(a + b, pats) <==> AllIn(a, pats) && AllIn(b, pats)
  {
    if AllIn(a + b, pats) {
      assert forall i :: 0 <= i < |a| ==> (a + b)[i] == a[i];
      assert forall i :: 0 <= i < |b| ==> (a + b)[|a| + i] == b[i];
    }
  }

  lemma {:induction false} FieldPatternsIn(props: Json, n: nat, i: nat, pats: Patterns)
    requires props.Obj? && i < n <= |props.fields| && AllIn(FieldPatterns(props, n), pats)
    ensures AllIn(PatternsOf(props.fields[i].val), pats)
    decreases n
  {
    hide PatternsOf;
    AllInConcat(FieldPatterns(props, n - 1), PatternsOf(props.fields[n - 1].val), pats);
    if i < n - 1 {
      FieldPatternsIn(props, n - 1, i, pats);
    }
  }

  /** Patterns of the parts are among the patterns of the whole. */
  lemma PartPatternsIn(s: Json, pats: Patterns)
    requires AllIn(PatternsOf(s), pats)
    ensures AllIn(OwnPattern(s), pats) && AllIn(PropertyPatterns(s), pats) && AllIn(ItemPatterns(s), pats)
  {
    AllInConcat(OwnPattern(s) + PropertyPatterns(s), ItemPatterns(s), pats);
    AllInConcat(OwnPattern(s), PropertyPatterns(s), pats);
  }

  /** Every sub-schema the checker can reach is itself audited, with its patterns in the table. */
  lemma {:induction false} ReachedIsAudited(h: Host, s: Json, v: Json, path: Path, pats: Patterns)
    requires Audited(h, s) && AllIn(PatternsOf(s), pats) && Reach(s, v, path).Some?
    ensures var sub := Reach(s, v, path).value.0;
            Audited(h, sub) && AllIn(PatternsOf(sub), pats)
    decreases |path|
  {
    if path != [] {
      PartPatternsIn(s, pats);
      var (sub, part) := Governs(s, v, path[0]).value;
      if path[0].Prop? {
        var key := v.fields[path[0].i].key;
        AuditedProperty(h, s, key);
        var ps := Properties(s).value;
        var i :| 0 <= i < |ps.fields| && ps.fields[i] == Field(key, sub);
        FieldPatternsIn(ps, |ps.fields|, i, pats);
      }
      ReachedIsAudited(h, sub, part, path[1..], pats);
    }
  }

  predicate IsInternal(w: Violation) {
    w.NotPrecompiled? || w.BadTypeDeclaration?
  }

  /** An audited schema with its patterns compiled is never rejected for a reason of its own making. */
  lemma NeverInternal(h: Host, s: Json, v: Json, pats: Patterns)
    requires Audited(h, s) && AllIn(PatternsOf(s), pats)
    ensures match CheckValue(h, s, v, [], pats) case Err(e) => !IsInternal(e.why) case Ok(_) => true
  {
    if CheckValue(h, s, v, [], pats).Err? {
      var e := CheckValue(h, s, v, [], pats).error;
      var path := RejectionIsExplained(h, s, v, [], pats);
      ReachedIsAudited(h, s, v, path, pats);
      var (sub, part) := Reach(s, v, path).value;
      PartPatternsIn(sub, pats);
      NoInternalViolation(h, sub, part, pats, e.why);
    }
  }

  lemma NoInternalViolation(h: Host, s: Json, v: Json, pats: Patterns, w: Violation)
    requires Audited(h, s) && AllIn(OwnPattern(s), pats) && Violates(h, s, v, pats, w)
    ensures !IsInternal(w)
  {
    hide ViolatesObject;
    assert OwnPattern(s) != [] ==> OwnPattern(s)[0] in pats;
    if ViolatesObject(s, v, w) {
      ObjectKeywordsAreNotInternal(s, v, w);
    }
  }

  lemma ObjectKeywordsAreNotInternal(s: Json, v: Json, w: Violation)
    requires ViolatesObject(s, v, w)
    ensures !IsInternal(w)
  {
  }

  predicate IsInternalFailure(f: Failure) {
    (f.NotCoercible? && f.error.BadPropertyType?) || (f.NotValid? && IsInternal(f.rejection.why))
  }

  lemma {:induction false} CoerceNeverBadType(h: Host, s: Json, src: StringMap, n: nat)
    requires Audited(h, s) && n <= |src|
    ensures match CoercePrefix(h, s, src, n) case Err(e) => !e.BadPropertyType? case Ok(_) => true
  {
    if n > 0 {
      CoerceNeverBadType(h, s, src, n - 1);
      TargetTypesDeclared(h, s, src[n - 1].0);
    }
  }

  lemma TargetTypesDeclared(h: Host, s: Json, key: string)
    requires Audited(h, s)
    ensures TargetTypes(s, key).Ok?
  {
    if PropertySchema(s, key).Some? {
      AuditedProperty(h, s, key);
    }
  }

  lemma ScalarsNeverInternal(h: Host, schema: Option<Json>, src: StringMap, channel: Channel, pats: Patterns)
    requires schema.Some? ==> Audited(h, schema.value) && AllIn(PatternsOf(schema.value), pats)
    ensures match CheckScalars(h, schema, src, channel, pats) case Err(f) => !IsInternalFailure(f) case Ok(_) => true
  {
    if schema.Some? {
      CoerceNeverBadType(h, schema.value, src, |src|);
      if Coerce(h, schema.value, src).Ok? {
        NeverInternal(h, schema.value, Coerce(h, schema.value, src).value, pats);
      }
    }
  }

  lemma ChannelPatternsIn(h: Host, c: InputContract, pats: Patterns)
    requires Registrable(h, c) && PatternsCovered(c, pats)
    ensures c.params.Some? ==> Audited(h, c.params.value) && AllIn(PatternsOf(c.params.value), pats)
    ensures c.query.Some? ==> Audited(h, c.query.value) && AllIn(PatternsOf(c.query.value), pats)
    ensures c.body.Some? ==> Audited(h, c.body.value) && AllIn(PatternsOf(c.body.value), pats)
  {
    hide Audited, PatternsOf, PropertyPatterns, DeclaredTypes;
    var a := if c.params.Some? then ScalarChannelPatterns(c.params.value) else [];
    var b := if c.query.Some? then ScalarChannelPatterns(c.query.value) else [];
    var d := if c.body.Some? then PatternsOf(c.body.value) else [];
    AllInConcat(a + b, d, pats);
    AllInConcat(a, b, pats);
    if c.params.Some? {
      AllInConcat(PropertyPatterns(c.params.value), PatternsOf(c.params.value), pats);
    }
    if c.query.Some? {
      AllInConcat(PropertyPatterns(c.query.value), PatternsOf(c.query.value), pats);
    }
  }

  /** Against a sound table no request to any route meets an internal error. */
  lemma SoundNeverFailsInternally(h: Host, reg: Registry, key: Key, req: Request)
    requires Sound(h, reg)
    ensures match CheckRequest(h, reg, key, req) case Err(f) => !IsInternalFailure(f) case Ok(_) => true
  {
    hide Registrable, ContractPatterns;
    if key in reg.contracts {
      ContractNeverFailsInternally(h, reg.contracts[key], req, None, reg.patterns);
      if req.body != "" && h.parseJson(req.body).Some? {
        ContractNeverFailsInternally(h, reg.contracts[key], req, h.parseJson(req.body), reg.patterns);
      }
    }
  }

  /**
    After any sequence of registrations, good and bad, no request to any route ever meets an internal
    error: no pattern that was not precompiled, no type declaration that does not parse.
   */
  lemma RequestsNeverFailInternally(h: Host, ops: seq<Insertion>, key: Key, req: Request)
    ensures var reg := RunInserts(h, Registry(map[], map[]), ops);
            match CheckRequest(h, reg, key, req) case Err(f) => !IsInternalFailure(f) case Ok(_) => true
  {
    hide Sound;
    EmptyIsSound(h);
    RunKeepsSound(h, Registry(map[], map[]), ops);
    SoundNeverFailsInternally(h, RunInserts(h, Registry(map[], map[]), ops), key, req);
  }

  lemma EmptyIsSound(h: Host)
    ensures Sound(h, Registry(map[], map[]))
  {
  }

  lemma ContractNeverFailsInternally(h: Host, c: InputContract, req: Request, body: Option<Json>, pats: Patterns)
    requires Registrable(h, c) && PatternsCovered(c, pats)
    ensures match CheckContract(h, c, req.params, req.query, body, pats)
            case Err(f) => !IsInternalFailure(f)
            case Ok(_) => true
  {
    hide Audited, PatternsOf, CheckScalars, CheckValue, IsInternal;
    ChannelPatternsIn(h, c, pats);
    ScalarsNeverInternal(h, c.params, req.params, Params, pats);
    ScalarsNeverInternal(h, c.query, req.query, Query, pats);
    if c.body.Some? {
      NeverInternal(h, c.body.value, if body.Some? then body.value else Null, pats);
    }
  }

  // ----- which requests are accepted -----

  /** The strings of a channel can be coerced, and the object they give is valid at every depth. */
  ghost predicate StringsHold(h: Host, schema: Option<Json>, src: StringMap, pats: Patterns) {
    schema.Some? ==>
      && Coerce(h, schema.value, src).Ok?
      && ValidThroughout(h, schema.value, Coerce(h, schema.value, src).value, pats)
  }

  /** The text of a body as a value: nothing counts as null. */
  function BodyValue(h: Host, text: string): Option<Json> {
    if text == "" then Some(Null) else h.parseJson(text)
  }

  ghost predicate BodyHolds(h: Host, schema: Option<Json>, text: string, pats: Patterns) {
    schema.Some? ==>
      BodyValue(h, text).Some? && ValidThroughout(h, schema.value, BodyValue(h, text).value, pats)
  }

  lemma CheckScalarsIff(h: Host, schema: Option<Json>, src: StringMap, channel: Channel, pats: Patterns)
    requires schema.Some? ==> Audited(h, schema.value)
    ensures CheckScalars(h, schema, src, channel, pats).Ok? <==> StringsHold(h, schema, src, pats)
    ensures match CheckScalars(h, schema, src, channel, pats)
            case Ok(_) => true
            case Err(NotCoercible(c, e)) => c == channel && Coerce(h, schema.value, src) == Err(e)
            case Err(NotValid(c, e)) =>
              && c == channel && Coerce(h, schema.value, src).Ok?
              && CheckValue(h, schema.value, Coerce(h, schema.value, src).value, [], pats) == Err(e)
            case Err(InvalidJson) => false
  {
    hide Audited, Coerce, CheckValue, ValidThroughout;
    if schema.Some? && Coerce(h, schema.value, src).Ok? {
      CheckValueIff(h, schema.value, Coerce(h, schema.value, src).value, pats);
    }
  }

  lemma RegisteredIsAudited(h: Host, reg: Registry, key: Key)
    requires Sound(h, reg) && key in reg.contracts
    ensures var c := reg.contracts[key];
            && (c.params.Some? ==> Audited(h, c.params.value)) && (c.query.Some? ==> Audited(h, c.query.value))
            && (c.body.Some? ==> Audited(h, c.body.value))
  {
    hide Audited, PatternsOf, ContractPatterns, ScalarProperty, DeclaredTypes;
  }

  /**
    Who gets in: in a sound table a request to a route passes exactly when params and query, where declared,
    coerce to valid objects, and the body, where declared, is a valid value -- null if it is empty.
   */
  lemma AcceptsIff(h: Host, reg: Registry, key: Key, req: Request)
    requires Sound(h, reg)
    ensures CheckRequest(h, reg, key, req).Ok? <==>
            (key in reg.contracts ==>
               && StringsHold(h, reg.contracts[key].params, req.params, reg.patterns)
               && StringsHold(h, reg.contracts[key].query, req.query, reg.patterns)
               && BodyHolds(h, reg.contracts[key].body, req.body, reg.patterns))
  {
    hide Sound, StringsHold, CheckScalars, CheckValue, ValidThroughout, Audited;
    if key in reg.contracts {
      var c := reg.contracts[key];
      RegisteredIsAudited(h, reg, key);
      CheckScalarsIff(h, c.params, req.params, Params, reg.patterns);
      CheckScalarsIff(h, c.query, req.query, Query, reg.patterns);
      if c.body.Some? && BodyValue(h, req.body).Some? {
        CheckValueIff(h, c.body.value, BodyValue(h, req.body).value, reg.patterns);
      }
    }
  }

  /**
    What a rejected request is told: a body that does not parse comes before everything else, and then the
    first channel that fails, in the order params, query, body.
   */
  lemma FirstFailureIsReported(h: Host, reg: Registry, key: Key, req: Request)
    requires Sound(h, reg) && key in reg.contracts && CheckRequest(h, reg, key, req).Err?
    ensures var c, pats, f := reg.contracts[key], reg.patterns, CheckRequest(h, reg, key, req).error;
            var unread := c.body.Some? && BodyValue(h, req.body).None?;
            if unread then f == InvalidJson
            else if !StringsHold(h, c.params, req.params, pats) then
              CheckScalars(h, c.params, req.params, Params, pats) == Err(f) && !f.InvalidJson? && f.channel == Params
            else if !StringsHold(h, c.query, req.query, pats) then
              CheckScalars(h, c.query, req.query, Query, pats) == Err(f) && !f.InvalidJson? && f.channel == Query
            else
              && f.NotValid? && f.channel == Body && c.body.Some?
              && CheckValue(h, c.body.value, BodyValue(h, req.body).value, [], pats) == Err(f.rejection)
  {
    hide Sound, StringsHold, CheckScalars, CheckValue, Audited;
    var c := reg.contracts[key];
    RegisteredIsAudited(h, reg, key);
    CheckScalarsIff(h, c.params, req.params, Params, reg.patterns);
    CheckScalarsIff(h, c.query, req.query, Query, reg.patterns);
  }

  /** The contract that was registered last for a route, if any was good. */
  function LastGood(h: Host, ops: seq<Insertion>, key: Key): Option<InputContract> {
    if ops == [] then None
    else
      var last := ops[|ops| - 1];
      if last.key == key && Registrable(h, last.contract) then Some(last.contract)
      else LastGood(h, ops[..|ops| - 1], key)
  }

  lemma {:induction false} RunInsertsSplits(h: Host, reg: Registry, ops: seq<Insertion>, op: Insertion)
    ensures RunInserts(h, reg, ops + [op]) == InsertStep(h, RunInserts(h, reg, ops), op.key, op.contract)
    decreases |ops|
  {
    hide InsertStep;
    if ops == [] {
      assert ([] + [op])[1..] == [];
    } else {
      assert (ops + [op])[1..] == ops[1..] + [op];
      RunInsertsSplits(h, InsertStep(h, reg, ops[0].key, ops[0].contract), ops[1..], op);
    }
  }

  lemma {:induction false} LastGoodIsKept(h: Host, ops: seq<Insertion>, key: Key)
    ensures var reg := RunInserts(h, Registry(map[], map[]), ops);
            LastGood(h, ops, key) == if key in reg.contracts then Some(reg.contracts[key]) else None
    decreases |ops|
  {
    hide Registrable, ContractPatterns, RunInserts;
    if ops == [] {
      EmptyRun(h);
    } else {
      var before, last := ops[..|ops| - 1], ops[|ops| - 1];
      assert ops == before + [last];
      LastGoodIsKept(h, before, key);
      RunInsertsSplits(h, Registry(map[], map[]), before, last);
    }
  }

  lemma EmptyRun(h: Host)
    ensures RunInserts(h, Registry(map[], map[]), []) == Registry(map[], map[])
  {
  }

  /**
    The gate from end to end: after any registrations, good and bad, a request passes exactly when the last
    good contract of its route holds of it; a route without one lets everything pass.
   */
  lemma GateIff(h: Host, ops: seq<Insertion>, key: Key, req: Request)
    ensures var reg := RunInserts(h, Registry(map[], map[]), ops);
            CheckRequest(h, reg, key, req).Ok? <==>
            match LastGood(h, ops, key)
            case None => true
            case Some(c) =>
              && StringsHold(h, c.params, req.params, reg.patterns)
              && StringsHold(h, c.query, req.query, reg.patterns)
              && BodyHolds(h, c.body, req.body, reg.patterns)
  {
    hide Sound, CheckRequest, StringsHold, BodyHolds;
    EmptyIsSound(h);
    RunKeepsSound(h, Registry(map[], map[]), ops);
    LastGoodIsKept(h, ops, key);
    AcceptsIff(h, RunInserts(h, Registry(map[], map[]), ops), key, req);
  }

  // ----- the one audit of a whole declaration -----

  const SCHEMA_CHANNELS := ["params", "query", "body", "response"]

  predicate KnownChannels(schema: Json) {
    schema.Obj? && forall i :: 0 <= i < |schema.fields| ==> schema.fields[i].key in SCHEMA_CHANNELS
  }

  /** The part of a `.schema` declaration that is enforced at run time. */
  function DeclaredContract(schema: Json): InputContract {
    InputContract(Get(schema, "params"), Get(schema, "query"), Get(schema, "body"))
  }

  /** What a declaration must be like to pass; it can then be registered as well. */
  predicate Declarable(h: Host, schema: Json) {
    && KnownChannels(schema)
    && Registrable(h, DeclaredContract(schema))
    && (Get(schema, "response").Some? ==> Audited(h, Get(schema, "response").value))
  }

  /**
    The audit shared by server, build and OpenAPI generation. Passing it means that registration of the
    declared contract cannot fail later, and the converse holds up to channel names and `response`.
   */
  method AuditSchema(h: Host, schema: Json) returns (r: Result<(), AuditError>)
    ensures r.Ok? <==> Declarable(h, schema)
  {
    hide Audited, ScalarChannel;
    if !schema.Obj? {
      return Err(NotAnObject);
    }
    for i := 0 to |schema.fields|
      invariant forall j :: 0 <= j < i ==> schema.fields[j].key in SCHEMA_CHANNELS
    {
      if schema.fields[i].key !in SCHEMA_CHANNELS {
        return Err(UnsupportedKeyword(schema.fields[i].key));
      }
    }
    var pats: seq<string>;
    r, pats := AuditScalarChannel(h, Get(schema, "params"), []);
    if r.Err? {
      return;
    }
    r, pats := AuditScalarChannel(h, Get(schema, "query"), pats);
    if r.Err? {
      return;
    }
    if Get(schema, "body").Some? {
      r, pats := AuditKeywords(h, Get(schema, "body").value, pats);
      if r.Err? {
        return;
      }
    }
    if Get(schema, "response").Some? {
      r, pats := AuditKeywords(h, Get(schema, "response").value, []);
    }
  }
}

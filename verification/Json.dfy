/** JSON values as the host holds them (`serde_json::Value`), with its numbers and its equality. */
module Json {
  import opened Wrappers

  const I64_MIN: int := -0x8000_0000_0000_0000
  const I64_MAX: int := 0x7FFF_FFFF_FFFF_FFFF
  const U64_MAX: int := 0xFFFF_FFFF_FFFF_FFFF

  type U64 = n: int | 0 <= n <= U64_MAX
  type NegI64 = i: int | I64_MIN <= i < 0 witness -1

  /** Non-negative integers, negative integers, and everything else as a finite float. */
  datatype Number = PosInt(n: U64) | NegInt(i: NegI64) | Float(f: real)

  datatype Json =
    | Null
    | Bool(b: bool)
    | Num(num: Number)
    | Str(s: string)
    | Arr(items: seq<Json>)
    | Obj(fields: seq<Field>)

  /** Objects keep their fields in order; lookup takes the first field of that name. */
  datatype Field = Field(key: string, val: Json)

  function Lookup(fields: seq<Field>, key: string): (r: Option<Json>)
    ensures r.Some? <==> exists i :: 0 <= i < |fields| && fields[i].key == key
    ensures r.Some? ==> exists i :: 0 <= i < |fields| && fields[i] == Field(key, r.value)
  {
    if fields == [] then None
    else if fields[0].key == key then
      assert fields[0] == Field(key, fields[0].val);
      Some(fields[0].val)
    else
      assert forall i :: 0 <= i < |fields[1..]| ==> fields[1..][i] == fields[i + 1];
      Lookup(fields[1..], key)
  }

  /** `Value::get(key)`: nothing on anything but an object. */
  function Get(v: Json, key: string): (r: Option<Json>)
    ensures r.Some? ==> v.Obj? && r.value < v
  {
    if v.Obj? then Lookup(v.fields, key) else None
  }

  predicate Has(fields: seq<Field>, key: string) {
    Lookup(fields, key).Some?
  }

  // ----- numbers -----

  function AsI64(x: Number): Option<int> {
    match x
    case PosInt(n) => if n <= I64_MAX then Some(n) else None
    case NegInt(i) => Some(i)
    case Float(_) => None
  }

  function AsU64(x: Number): Option<int> {
    match x
    case PosInt(n) => Some(n)
    case _ => None
  }

  const TWO_53: nat := 0x20_0000_0000_0000

  /**
    Rounds to 53 significant bits, ties to even. `sticky` says that a non-zero bit was already cut
    off below: low bits go one at a time until 54 are left, and the last one decides.
   */
  function RoundTo53(n: nat, sticky: bool): (r: nat)
    requires n >= TWO_53
    ensures r >= TWO_53
  {
    if n >= 2 * TWO_53 then 2 * RoundTo53(n / 2, sticky || n % 2 == 1)
    else if n % 2 == 0 then n
    else if sticky || (n / 2) % 2 == 1 then n + 1
    else n - 1
  }

  /** The nearest double to a natural number. */
  function RoundNat(n: nat): (r: nat)
    ensures n <= TWO_53 ==> r == n
    ensures n > 0 ==> r > 0
  {
    if n < TWO_53 then n else RoundTo53(n, false)
  }

  /** `as_f64`: exact below 2^53, rounded beyond. */
  function AsF64(x: Number): real {
    match x
    case PosInt(n) => RoundNat(n) as real
    case NegInt(i) => -(RoundNat(0 - i as int) as real)
    case Float(f) => f
  }

  function IntegerValue(x: Number): Option<int> {
    match x
    case PosInt(n) => Some(n)
    case NegInt(i) => Some(i)
    case Float(_) => None
  }

  // ----- equality of values -----

  /** `==` on values: strict in the number variant, and blind to the order of object fields. */
  predicate SameJson(a: Json, b: Json) {
    match (a, b)
    case (Null, Null) => true
    case (Bool(x), Bool(y)) => x == y
    case (Num(x), Num(y)) => x == y
    case (Str(x), Str(y)) => x == y
    case (Arr(x), Arr(y)) => |x| == |y| && forall i :: 0 <= i < |x| ==> SameJson(x[i], y[i])
    case (Obj(x), Obj(y)) =>
      |x| == |y| &&
      forall i :: 0 <= i < |x| ==> Lookup(y, x[i].key).Some? && SameJson(x[i].val, Lookup(y, x[i].key).value)
    case _ => false
  }
}

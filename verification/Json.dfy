/**
 The request bodies the registry reads: parsed JSON, with JavaScript's conversions to string, number
 and truth. How a string reads as a number is left to a function `num`.
 */
module Json {
  import opened Text
  import opened Records

  /** The property names the registration handler knows, and any other. */
  datatype Field =
    | Name | Pubkey | Endpoint | FeePpm | FeeBaseSats | ChannelOpenFeeSats | MaxChannelSizeSats
    | SupportsJit | RouteEndpoint | RouteMacaroon | WssUrl | Signature | Ts | FilterUrl | FilterSp
    | TataraBlock | RoutesList
    | V | Sizes | MinPeople | MaxPeople | CountdownS | WakeWindowS | MaxRetries | Strikes
    | MaxPoolsPerSize | MaxPoolsTotal | MaxListPerSize | MaxFeeRate | ChannelPools | ChannelSizes
    | RelayUrl | RelayForOthers | ForwardPayouts | ForwardCoinChecks | CoinCheckUrl | RingHash
    | Reach
    | Other(name: string)

  datatype Json =
    | Undefined | Null | Bool(b: bool) | Num(n: JsNum) | Str(s: string)
    | Arr(items: seq<Json>) | Obj(fields: map<Field, Json>)

  /** A property of an object; anything else has none of these. */
  function Get(j: Json, f: Field): Json {
    if j.Obj? && f in j.fields then j.fields[f] else Undefined
  }

  predicate Nullish(j: Json) { j.Undefined? || j.Null? }

  predicate Truthy(j: Json) {
    match j
    case Undefined => false
    case Null => false
    case Bool(b) => b
    case Num(n) => n.Int? && n.i != 0
    case Str(s) => s != ""
    case _ => true
  }

  function NumText(n: JsNum): string { if n.Int? then Dec(n.i) else "NaN" }

  /** `String(j)`. An array joins its elements with commas, the nullish ones as nothing. */
  function String(j: Json): string {
    match j
    case Undefined => "undefined"
    case Null => "null"
    case Bool(b) => if b then "true" else "false"
    case Num(n) => NumText(n)
    case Str(s) => s
    case Arr(items) => Join(Strings(items), ',')
    case Obj(_) => "[object Object]"
  }

  function Strings(items: seq<Json>): seq<string> {
    if items == [] then []
    else [if Nullish(items[0]) then "" else String(items[0])] + Strings(items[1..])
  }

  /** `Number(j)`. */
  function Number(j: Json, num: string -> JsNum): JsNum {
    match j
    case Undefined => NaN
    case Null => Int(0)
    case Bool(b) => Int(if b then 1 else 0)
    case Num(n) => n
    case Str(s) => num(s)
    case Arr(_) => num(String(j))
    case Obj(_) => NaN
  }

  /** JavaScript's conversions, as they come out. */
  lemma ConversionsSpelled(num: string -> JsNum)
    ensures String(Null) == "null" && String(Undefined) == "undefined" && String(Bool(true)) == "true"
    ensures String(Num(Int(7))) == "7" && String(Num(NaN)) == "NaN" && String(Str("a")) == "a"
    ensures String(Arr([])) == "" && String(Arr([Str("a"), Null, Bool(false)])) == "a,,false"
    ensures String(Obj(map[])) == "[object Object]"
    ensures Number(Null, num) == Int(0) && Number(Undefined, num) == NaN && Number(Bool(true), num) == Int(1)
    ensures Number(Bool(false), num) == Int(0) && Number(Str("5"), num) == num("5")
    ensures Number(Num(Int(5)), num) == Int(5) && Number(Arr([]), num) == num("") && Number(Obj(map[]), num) == NaN
    ensures !Truthy(Null) && !Truthy(Undefined) && !Truthy(Bool(false)) && !Truthy(Num(Int(0))) && !Truthy(Num(NaN))
    ensures !Truthy(Str("")) && Truthy(Bool(true)) && Truthy(Num(Int(-1))) && Truthy(Str("0"))
    ensures Truthy(Arr([])) && Truthy(Obj(map[]))
  {
    var items := [Str("a"), Null, Bool(false)];
    assert items[1..] == [Null, Bool(false)] && items[1..][1..] == [Bool(false)] && [Bool(false)][1..] == [];
    assert Strings(items) == ["a", "", "false"];
    assert ["a", "", "false"][1..] == ["", "false"] && ["", "false"][1..] == ["false"];
    assert Join(["", "false"], ',') == ",false";
  }

  /** The two printers of the canonical messages: `s` and `n`. */
  function S(j: Json): string { if Nullish(j) then "" else String(j) }

  function Whole(n: JsNum): int { if n.Int? then n.i else 0 }

  function N(j: Json, num: string -> JsNum): string { Dec(Whole(Number(j, num))) }

  /** The printers: nothing prints as nothing, and what is not a number as 0. */
  lemma PrintersSpelled(num: string -> JsNum, i: int, s: string)
    ensures S(Null) == "" && S(Undefined) == "" && S(Str(s)) == s && S(Num(Int(i))) == Dec(i)
    ensures N(Undefined, num) == "0" && N(Num(NaN), num) == "0" && N(Num(Int(i)), num) == Dec(i) && N(Null, num) == "0"
  {
    assert Dec(0) == "0";
  }

  function OfOption(o: Option<string>): Json { if o.Some? then Str(o.value) else Null }
}

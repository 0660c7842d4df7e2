/**
 What the registry stores under its keys. The JSON a handler writes is kept as the value it parses
 back to.
 */
module Records {
  import opened Text

  /** A JavaScript number: a whole number, or not a number. */
  datatype JsNum = Int(i: int) | NaN

  datatype Tatara = Tatara(
    v: int, sizes: seq<int>, minPeople: int, maxPeople: int, countdownS: int, wakeWindowS: int,
    maxRetries: int, strikes: int, maxPoolsPerSize: int, maxPoolsTotal: int, maxListPerSize: int,
    maxFeeRate: int, channelPools: bool, channelSizes: seq<int>, relayUrl: string,
    relayForOthers: bool, forwardPayouts: bool, forwardCoinChecks: bool,
    coinCheckUrl: Option<string>, ringHash: Option<string>)

  datatype Route = Route(reach: string, endpoint: string, wssUrl: string, filterUrl: Option<string>)

  /** The signed fields of a registration, as the handler coerces them. */
  datatype Record = Record(
    name: string, pubkey: string, endpoint: string, feePpm: JsNum, feeBaseSats: JsNum,
    channelOpenFeeSats: JsNum, maxChannelSizeSats: JsNum, supportsJit: bool,
    routeEndpoint: Option<string>, routeMacaroon: Option<string>, wssUrl: Option<string>,
    filterUrl: Option<string>, filterSp: bool, tatara: Option<Tatara>, routes: Option<seq<Route>>,
    ts: int)

  /** A copy's `rest` stands for every property but the three named. */
  datatype Val =
    | Lsp(rec: Record, registeredAt: nat, firstRegisteredAt: nat)
    | Copy(version: int, fingerprint: Option<string>, sealed: seq<byte>, rest: string)
    | ScbMeta(sha256: string, size: nat, ts: int, storedAt: nat)
    | NameOf(lspPubkey: string)
    | Plain(text: string)
    | Blob(bytes: seq<byte>)

  /** The finite number a parsed value holds under `ts`. */
  function TsOf(v: Val): Option<int> {
    match v
    case Lsp(rec, _, _) => Some(rec.ts)
    case ScbMeta(_, _, ts, _) => Some(ts)
    case _ => None
  }

  const MAX_SAFE := 9007199254740991

  predicate SafeInteger(i: int) { -MAX_SAFE <= i <= MAX_SAFE }

  /** The safe integer a parsed value holds under `version`. */
  function VersionOf(v: Val): Option<int> {
    if v.Copy? && SafeInteger(v.version) then Some(v.version) else None
  }
}

/**
 The text a registration is signed over, in its four formats (lij-worker/src/index.js).
 */
module RegisterMsg {
  import opened Text
  import opened Records
  import opened Json

  /******* encodeURIComponent *******/

  predicate IsAlnum(c: char) { 'A' <= c <= 'Z' || 'a' <= c <= 'z' || IsDigit(c) }

  predicate Unreserved(c: char) { IsAlnum(c) || c in "-_.!~*'()" }

  function EncodeAll(parts: seq<string>): seq<string> {
    if parts == [] then [] else [Percent(parts[0], Unreserved)] + EncodeAll(parts[1..])
  }

  /** The fields of a message, each encoded, joined with ':'. */
  function Joined(parts: seq<string>): string { Join(EncodeAll(parts), ':') }

  /** The characters that `encodeURIComponent` leaves alone. */
  predicate UriPlain(c: char) {
    'A' <= c <= 'Z' || 'a' <= c <= 'z' || '0' <= c <= '9' || c == '-' || c == '_' || c == '.' || c == '!' || c == '~'
    || c == '*' || c == '\'' || c == '(' || c == ')'
  }

  lemma UriPlainIsUnreserved(c: char)
    ensures Unreserved(c) <==> UriPlain(c)
  {
  }

  /** A text of plain characters alone is printed as it stands, a text with any other is not, and a
      message holds nothing but plain characters, escapes and the colons between its fields. */
  lemma {:induction false} EncodesJustTheOthers(parts: seq<string>)
    ensures forall c :: c in Joined(parts) ==> UriPlain(c) || c == '%' || c == ':'
    ensures forall s: string :: (forall i :: 0 <= i < |s| ==> UriPlain(s[i])) <==> Percent(s, Unreserved) == s
  {
    hide UriPlain, Unreserved, Percent;
    PartChars(parts);
    JoinChars(EncodeAll(parts));
    forall s: string ensures (forall i :: 0 <= i < |s| ==> UriPlain(s[i])) <==> Percent(s, Unreserved) == s {
      PlainIff(s);
    }
  }

  lemma PlainIff(s: string)
    ensures (forall i :: 0 <= i < |s| ==> UriPlain(s[i])) <==> Percent(s, Unreserved) == s
  {
    forall c ensures Unreserved(c) <==> UriPlain(c) { UriPlainIsUnreserved(c); }
    hide Unreserved, UriPlain;
    PercentPlainIff(s, Unreserved);
  }

  lemma {:induction false} PartChars(parts: seq<string>)
    ensures forall p :: p in EncodeAll(parts) ==> forall c :: c in p ==> UriPlain(c) || c == '%'
  {
    hide Percent;
    if parts != [] {
      PartChars(parts[1..]);
      PercentChars(parts[0], Unreserved);
    }
  }

  lemma {:induction false} JoinChars(parts: seq<string>)
    requires forall p :: p in parts ==> forall c :: c in p ==> UriPlain(c) || c == '%'
    ensures forall c :: c in Join(parts, ':') ==> UriPlain(c) || c == '%' || c == ':'
  {
    hide UriPlain;
    if parts != [] {
      assert parts[0] in parts && forall p :: p in parts[1..] ==> p in parts;
      if |parts| > 1 { JoinChars(parts[1..]); }
    }
  }

  lemma {:induction false} EncodedHaveNoColon(parts: seq<string>)
    ensures |EncodeAll(parts)| == |parts| && AllWithout(EncodeAll(parts), ':')
  {
    if parts != [] {
      PercentChars(parts[0], Unreserved);
      EncodedHaveNoColon(parts[1..]);
    }
  }

  lemma {:induction false} EncodeAllInjective(a: seq<string>, b: seq<string>)
    requires EncodeAll(a) == EncodeAll(b)
    ensures a == b
  {
    EncodedHaveNoColon(a);
    EncodedHaveNoColon(b);
    if a != [] {
      assert KeepsAscii(Unreserved);
      assert EncodeAll(a)[0] == EncodeAll(b)[0] && EncodeAll(a)[1..] == EncodeAll(b)[1..];
      PercentInjective(a[0], b[0], Unreserved);
      EncodeAllInjective(a[1..], b[1..]);
      assert a == [a[0]] + a[1..] && b == [b[0]] + b[1..];
    }
  }

  /** Encoding and joining loses nothing: the number of fields and every field come back. */
  lemma JoinedInjective(a: seq<string>, b: seq<string>)
    requires a != [] && b != [] && Joined(a) == Joined(b)
    ensures a == b
  {
    EncodedHaveNoColon(a);
    EncodedHaveNoColon(b);
    JoinInjective(EncodeAll(a), EncodeAll(b), ':');
    EncodeAllInjective(a, b);
  }

  /******* The canonical message *******/

  function Bit(b: bool): string { if b then "1" else "0" }

  function Ns(items: seq<Json>, num: string -> JsNum): seq<string> {
    if items == [] then [] else [N(items[0], num)] + Ns(items[1..], num)
  }

  function Items(j: Json): seq<Json> { if j.Arr? then j.items else [] }

  /** A list of numbers as one field. */
  function L(j: Json, num: string -> JsNum): string { Join(Ns(Items(j), num), ',') }

  function B(j: Json): string { Bit(Truthy(j)) }

  /** A block's fields in the canonical order; of an absent block, the fields of an empty object. */
  function TataraText(t: Json, num: string -> JsNum): seq<string> {
    PoolText(t, num) + LimitText(t, num) + ChannelText(t, num) + ForwardText(t)
  }

  function PoolText(t: Json, num: string -> JsNum): seq<string> {
    [N(Get(t, V), num), L(Get(t, Sizes), num), N(Get(t, MinPeople), num), N(Get(t, MaxPeople), num),
     N(Get(t, CountdownS), num), N(Get(t, WakeWindowS), num)]
  }

  function LimitText(t: Json, num: string -> JsNum): seq<string> {
    [N(Get(t, MaxRetries), num), N(Get(t, Strikes), num), N(Get(t, MaxPoolsPerSize), num),
     N(Get(t, MaxPoolsTotal), num), N(Get(t, MaxListPerSize), num), N(Get(t, MaxFeeRate), num)]
  }

  function ChannelText(t: Json, num: string -> JsNum): seq<string> {
    [B(Get(t, ChannelPools)), L(Get(t, ChannelSizes), num), S(Get(t, RelayUrl)), B(Get(t, RelayForOthers))]
  }

  function ForwardText(t: Json): seq<string> {
    [B(Get(t, ForwardPayouts)), B(Get(t, ForwardCoinChecks)), S(Get(t, CoinCheckUrl)), S(Get(t, RingHash))]
  }

  function RouteText(r: Json): string {
    Join([S(Get(r, Reach)), S(Get(r, Endpoint)), S(Get(r, WssUrl)), S(Get(r, FilterUrl))], '|')
  }

  function RouteTexts(rs: seq<Json>): seq<string> {
    if rs == [] then [] else [RouteText(rs[0])] + RouteTexts(rs[1..])
  }

  function BaseText(f: Json, num: string -> JsNum): seq<string> {
    [S(Get(f, Pubkey)), N(Get(f, Ts), num), S(Get(f, Name)), S(Get(f, Endpoint)), S(Get(f, WssUrl)),
     S(Get(f, RouteEndpoint)), S(Get(f, RouteMacaroon)),
     N(Get(f, FeePpm), num), N(Get(f, FeeBaseSats), num), N(Get(f, ChannelOpenFeeSats), num),
     N(Get(f, MaxChannelSizeSats), num), B(Get(f, SupportsJit))]
  }

  /** A message: the version in its prefix, and its fields. */
  datatype Msg = Msg(version: nat, parts: seq<string>)

  function FilterText(f: Json): seq<string> {
    [S(Get(f, FilterUrl)), B(Get(f, FilterSp))]
  }

  function CanonicalParts(f: Json, num: string -> JsNum): Msg {
    var routes, t := Get(f, RoutesList), Get(f, TataraBlock);
    if Items(routes) != [] then
      Msg(4, BaseText(f, num) + FilterText(f) + TataraText(t, num) + [Join(RouteTexts(Items(routes)), ';')])
    else if Truthy(t) then Msg(3, BaseText(f, num) + FilterText(f) + TataraText(t, num))
    else if Truthy(Get(f, FilterUrl)) then Msg(2, BaseText(f, num) + FilterText(f))
    else Msg(1, BaseText(f, num))
  }

  const REGISTER_PREFIX := "lijox-register:v"

  function MsgText(m: Msg): string { REGISTER_PREFIX + Digits(m.version) + ":" + Joined(m.parts) }

  /** `canonicalRegisterMsg`. */
  function CanonicalRegisterMsg(f: Json, num: string -> JsNum): string { MsgText(CanonicalParts(f, num)) }

  lemma MsgTextInjective(m: Msg, n: Msg)
    requires m.version < 10 && n.version < 10 && m.parts != [] && n.parts != []
    requires MsgText(m) == MsgText(n)
    ensures m == n
  {
    assert MsgText(m)[16] == DigitChar(m.version) && MsgText(n)[16] == DigitChar(n.version);
    assert MsgText(m)[18..] == Joined(m.parts) && MsgText(n)[18..] == Joined(n.parts);
    JoinedInjective(m.parts, n.parts);
  }

  /******* A stored record, as the object the printer sees *******/

  function Ints(xs: seq<int>): (js: seq<Json>)
    ensures |js| == |xs|
  {
    if xs == [] then [] else [Num(Int(xs[0]))] + Ints(xs[1..])
  }

  const TATARA_KEYS: set<Field> := {
    V, Sizes, MinPeople, MaxPeople, CountdownS, WakeWindowS, MaxRetries, Strikes, MaxPoolsPerSize, MaxPoolsTotal,
    MaxListPerSize, MaxFeeRate, ChannelPools, ChannelSizes, RelayUrl, RelayForOthers, ForwardPayouts,
    ForwardCoinChecks, CoinCheckUrl, RingHash}

  function TataraField(t: Tatara, f: Field): Json {
    match f
    case V => Num(Int(t.v)) case Sizes => Arr(Ints(t.sizes)) case MinPeople => Num(Int(t.minPeople))
    case MaxPeople => Num(Int(t.maxPeople)) case CountdownS => Num(Int(t.countdownS))
    case WakeWindowS => Num(Int(t.wakeWindowS)) case MaxRetries => Num(Int(t.maxRetries))
    case Strikes => Num(Int(t.strikes)) case MaxPoolsPerSize => Num(Int(t.maxPoolsPerSize))
    case MaxPoolsTotal => Num(Int(t.maxPoolsTotal)) case MaxListPerSize => Num(Int(t.maxListPerSize))
    case MaxFeeRate => Num(Int(t.maxFeeRate)) case ChannelPools => Bool(t.channelPools)
    case ChannelSizes => Arr(Ints(t.channelSizes)) case RelayUrl => Str(t.relayUrl)
    case RelayForOthers => Bool(t.relayForOthers) case ForwardPayouts => Bool(t.forwardPayouts)
    case ForwardCoinChecks => Bool(t.forwardCoinChecks) case CoinCheckUrl => OfOption(t.coinCheckUrl)
    case RingHash => OfOption(t.ringHash) case _ => Undefined
  }

  function TataraJson(t: Tatara): Json { Obj(map f | f in TATARA_KEYS :: TataraField(t, f)) }

  lemma TataraGet(t: Tatara, f: Field)
    ensures Get(TataraJson(t), f) == TataraField(t, f)
  {
    hide Ints;
  }

  function RouteJson(r: Route): Json {
    Obj(map[Reach := Str(r.reach), Endpoint := Str(r.endpoint), WssUrl := Str(r.wssUrl),
        FilterUrl := OfOption(r.filterUrl)])
  }

  function RouteJsons(rs: seq<Route>): (js: seq<Json>)
    ensures |js| == |rs|
  {
    if rs == [] then [] else [RouteJson(rs[0])] + RouteJsons(rs[1..])
  }

  const RECORD_KEYS: set<Field> := {
    Name, Pubkey, Endpoint, FeePpm, FeeBaseSats, ChannelOpenFeeSats, MaxChannelSizeSats, SupportsJit, RouteEndpoint,
    RouteMacaroon, WssUrl, FilterUrl, FilterSp, TataraBlock, RoutesList, Ts}

  function RecordField(r: Record, f: Field): Json {
    match f
    case Name => Str(r.name) case Pubkey => Str(r.pubkey) case Endpoint => Str(r.endpoint)
    case FeePpm => Num(r.feePpm) case FeeBaseSats => Num(r.feeBaseSats)
    case ChannelOpenFeeSats => Num(r.channelOpenFeeSats) case MaxChannelSizeSats => Num(r.maxChannelSizeSats)
    case SupportsJit => Bool(r.supportsJit) case RouteEndpoint => OfOption(r.routeEndpoint)
    case RouteMacaroon => OfOption(r.routeMacaroon) case WssUrl => OfOption(r.wssUrl)
    case FilterUrl => OfOption(r.filterUrl) case FilterSp => Bool(r.filterSp)
    case TataraBlock => (if r.tatara.Some? then TataraJson(r.tatara.value) else Undefined)
    case RoutesList => (if r.routes.Some? then Arr(RouteJsons(r.routes.value)) else Undefined)
    case Ts => Num(Int(r.ts)) case _ => Undefined
  }

  function RecordJson(r: Record): Json { Obj(map f | f in RECORD_KEYS :: RecordField(r, f)) }

  lemma RecordGet(r: Record, f: Field)
    ensures Get(RecordJson(r), f) == RecordField(r, f)
  {
    hide TataraJson, RouteJsons;
  }

  /******* The same texts, from the record's own fields *******/

  function OrEmpty(o: Option<string>): string { if o.Some? then o.value else "" }

  function Decs(xs: seq<int>): seq<string> { if xs == [] then [] else [Dec(xs[0])] + Decs(xs[1..]) }

  function BaseOf(r: Record): seq<string> {
    [r.pubkey, Dec(r.ts), r.name, r.endpoint, OrEmpty(r.wssUrl), OrEmpty(r.routeEndpoint), OrEmpty(r.routeMacaroon),
     Dec(Whole(r.feePpm)), Dec(Whole(r.feeBaseSats)), Dec(Whole(r.channelOpenFeeSats)),
     Dec(Whole(r.maxChannelSizeSats)), Bit(r.supportsJit)]
  }

  function FilterOf(r: Record): seq<string> { [OrEmpty(r.filterUrl), Bit(r.filterSp)] }

  function TataraOf(t: Tatara): seq<string> { PoolOf(t) + LimitOf(t) + ChannelOf(t) + ForwardOf(t) }

  function PoolOf(t: Tatara): seq<string> {
    [Dec(t.v), Join(Decs(t.sizes), ','), Dec(t.minPeople), Dec(t.maxPeople), Dec(t.countdownS), Dec(t.wakeWindowS)]
  }

  function LimitOf(t: Tatara): seq<string> {
    [Dec(t.maxRetries), Dec(t.strikes), Dec(t.maxPoolsPerSize), Dec(t.maxPoolsTotal), Dec(t.maxListPerSize),
     Dec(t.maxFeeRate)]
  }

  function ChannelOf(t: Tatara): seq<string> {
    [Bit(t.channelPools), Join(Decs(t.channelSizes), ','), t.relayUrl, Bit(t.relayForOthers)]
  }

  function ForwardOf(t: Tatara): seq<string> {
    [Bit(t.forwardPayouts), Bit(t.forwardCoinChecks), OrEmpty(t.coinCheckUrl), OrEmpty(t.ringHash)]
  }

  function AbsentTatara(): seq<string> {
    ["0", "", "0", "0", "0", "0"] + ["0", "0", "0", "0", "0", "0"] + ["0", "", "", "0"] + ["0", "0", "", ""]
  }

  function TataraPart(t: Option<Tatara>): seq<string> { if t.Some? then TataraOf(t.value) else AbsentTatara() }

  function RouteOf(r: Route): seq<string> { [r.reach, r.endpoint, r.wssUrl, OrEmpty(r.filterUrl)] }

  function RoutesOf(rs: seq<Route>): seq<string> {
    if rs == [] then [] else [Join(RouteOf(rs[0]), '|')] + RoutesOf(rs[1..])
  }

  function PartsOf(r: Record): Msg {
    if r.routes.Some? && r.routes.value != [] then
      Msg(4, BaseOf(r) + FilterOf(r) + TataraPart(r.tatara) + [Join(RoutesOf(r.routes.value), ';')])
    else if r.tatara.Some? then Msg(3, BaseOf(r) + FilterOf(r) + TataraPart(r.tatara))
    else if r.filterUrl.Some? && r.filterUrl.value != "" then Msg(2, BaseOf(r) + FilterOf(r))
    else Msg(1, BaseOf(r))
  }

  lemma {:induction false} IntsText(xs: seq<int>, num: string -> JsNum)
    ensures Ns(Ints(xs), num) == Decs(xs)
  {
    if xs != [] {
      IntsText(xs[1..], num);
      assert Ints(xs)[1..] == Ints(xs[1..]);
    }
  }

  /** What the printers make of the values a stored record holds. */
  lemma Printers(num: string -> JsNum)
    ensures forall x :: N(Num(Int(x)), num) == Dec(x)
    ensures forall n :: N(Num(n), num) == Dec(Whole(n))
    ensures forall b :: B(Bool(b)) == Bit(b)
    ensures forall s :: S(Str(s)) == s
    ensures forall o :: S(OfOption(o)) == OrEmpty(o)
    ensures forall xs :: L(Arr(Ints(xs)), num) == Join(Decs(xs), ',')
  {
    forall xs ensures L(Arr(Ints(xs)), num) == Join(Decs(xs), ',') { IntsText(xs, num); }
  }

  lemma PoolJsonText(t: Tatara, num: string -> JsNum)
    ensures PoolText(TataraJson(t), num) == PoolOf(t)
  {
    hide Dec, Join, Decs, Ints, TataraJson, Get, N, B, S, L, OfOption, OrEmpty, Bit;
    Printers(num);
    forall f ensures Get(TataraJson(t), f) == TataraField(t, f) { TataraGet(t, f); }
  }

  lemma LimitJsonText(t: Tatara, num: string -> JsNum)
    ensures LimitText(TataraJson(t), num) == LimitOf(t)
  {
    hide Dec, Join, Decs, Ints, TataraJson, Get, N, B, S, L, OfOption, OrEmpty, Bit;
    Printers(num);
    forall f ensures Get(TataraJson(t), f) == TataraField(t, f) { TataraGet(t, f); }
  }

  lemma ChannelJsonText(t: Tatara, num: string -> JsNum)
    ensures ChannelText(TataraJson(t), num) == ChannelOf(t)
  {
    hide Dec, Join, Decs, Ints, TataraJson, Get, N, B, S, L, OfOption, OrEmpty, Bit;
    Printers(num);
    forall f ensures Get(TataraJson(t), f) == TataraField(t, f) { TataraGet(t, f); }
  }

  lemma ForwardJsonText(t: Tatara)
    ensures ForwardText(TataraJson(t)) == ForwardOf(t)
  {
    hide TataraJson, Get;
    forall f ensures Get(TataraJson(t), f) == TataraField(t, f) { TataraGet(t, f); }
  }

  lemma TataraJsonText(t: Tatara, num: string -> JsNum)
    ensures TataraText(TataraJson(t), num) == TataraOf(t)
  {
    hide PoolText, LimitText, ChannelText, ForwardText, PoolOf, LimitOf, ChannelOf, ForwardOf, TataraJson;
    PoolJsonText(t, num);
    LimitJsonText(t, num);
    ChannelJsonText(t, num);
    ForwardJsonText(t);
  }

  lemma AbsentTataraText(num: string -> JsNum)
    ensures TataraText(Undefined, num) == AbsentTatara()
  {
    assert Dec(0) == "0";
    assert PoolText(Undefined, num) == ["0", "", "0", "0", "0", "0"];
    assert LimitText(Undefined, num) == ["0", "0", "0", "0", "0", "0"];
  }

  lemma {:induction false} RoutesJsonText(rs: seq<Route>)
    ensures RouteTexts(RouteJsons(rs)) == RoutesOf(rs)
  {
    if rs != [] {
      RoutesJsonText(rs[1..]);
      assert RouteJsons(rs)[1..] == RouteJsons(rs[1..]);
    }
  }

  lemma BaseJsonText(r: Record, num: string -> JsNum)
    ensures BaseText(RecordJson(r), num) == BaseOf(r)
  {
    hide Dec, Join, TataraJson, RouteJsons, Get, N, B, S, L, OfOption, OrEmpty, Bit, RecordJson;
    Printers(num);
    forall f ensures Get(RecordJson(r), f) == RecordField(r, f) { RecordGet(r, f); }
  }

  lemma FilterJsonText(r: Record)
    ensures FilterText(RecordJson(r)) == FilterOf(r)
  {
    RecordGet(r, FilterUrl);
    RecordGet(r, FilterSp);
    hide Get, RecordJson, Dec, Join, TataraJson, RouteJsons;
  }

  /** The printer, given a stored record, prints its own fields. */
  lemma RecordText(r: Record, num: string -> JsNum)
    ensures CanonicalParts(RecordJson(r), num) == PartsOf(r)
  {
    hide TataraJson, Get, RecordJson, BaseText, FilterText, BaseOf, FilterOf, TataraText, TataraOf, RouteTexts,
        RoutesOf, AbsentTatara, OfOption;
    BaseJsonText(r, num);
    FilterJsonText(r);
    RecordGet(r, TataraBlock);
    RecordGet(r, RoutesList);
    RecordGet(r, FilterUrl);
    TruthOf(r);
    AbsentTataraText(num);
    if r.tatara.Some? { TataraJsonText(r.tatara.value, num); }
    if r.routes.Some? { RoutesJsonText(r.routes.value); }
  }

  /** The message of a record, field by field: what each place holds in each of the four formats. */
  lemma MessageSpelled(r: Record, num: string -> JsNum)
    requires r.filterUrl != Some("")
    ensures
      var m := CanonicalParts(RecordJson(r), num);
      && CanonicalRegisterMsg(RecordJson(r), num) == "lijox-register:v" + Dec(m.version) + ":" + Joined(m.parts)
      && m.version == (if r.routes.Some? && r.routes.value != [] then 4 else if r.tatara.Some? then 3
                       else if r.filterUrl.Some? then 2 else 1)
      && |m.parts| == (if m.version == 4 then 35 else if m.version == 3 then 34 else if m.version == 2 then 14 else 12)
      && Spells(m.parts, r)
  {
    hide Joined, Dec, CanonicalParts, RecordJson;
    RecordText(r, num);
    PartsSpelled(r);
    hide PartsOf, Spells;
    DecOfVersions();
  }

  /** The places of a message's fields. */
  ghost predicate Spells(p: seq<string>, r: Record)
    requires |p| >= 12
  {
    && p[0] == r.pubkey && p[1] == Dec(r.ts) && p[2] == r.name && p[3] == r.endpoint
    && p[4] == OrEmpty(r.wssUrl) && p[5] == OrEmpty(r.routeEndpoint) && p[6] == OrEmpty(r.routeMacaroon)
    && p[7] == Dec(Whole(r.feePpm)) && p[8] == Dec(Whole(r.feeBaseSats)) && p[9] == Dec(Whole(r.channelOpenFeeSats))
    && p[10] == Dec(Whole(r.maxChannelSizeSats)) && p[11] == (if r.supportsJit then "1" else "0")
    && (|p| >= 14 ==> p[12] == OrEmpty(r.filterUrl) && p[13] == (if r.filterSp then "1" else "0"))
    && (|p| >= 34 ==> p[14..34] == TataraPart(r.tatara))
    && (|p| == 35 ==> r.routes.Some? && p[34] == Join(RoutesOf(r.routes.value), ';'))
  }

  lemma PartsSpelled(r: Record)
    requires r.filterUrl != Some("")
    ensures
      var m := PartsOf(r);
      && m.version == (if r.routes.Some? && r.routes.value != [] then 4 else if r.tatara.Some? then 3
                       else if r.filterUrl.Some? then 2 else 1)
      && |m.parts| == (if m.version == 4 then 35 else if m.version == 3 then 34 else if m.version == 2 then 14 else 12)
      && Spells(m.parts, r)
  {
    BlockSize(r.tatara);
    BaseSpelled(r);
    hide Join, Dec, TataraPart, RoutesOf, BaseOf, Bit, OrEmpty, Whole;
    var base, f, block := BaseOf(r), FilterOf(r), TataraPart(r.tatara);
    var routes := if r.routes.Some? then [Join(RoutesOf(r.routes.value), ';')] else [""];
    Laid(base, f, block, routes);
    BitSpelled(r.filterSp);
  }

  lemma BitSpelled(b: bool)
    ensures Bit(b) == if b then "1" else "0"
  {
  }

  lemma BaseSpelled(r: Record)
    ensures |BaseOf(r)| == 12 && Spells(BaseOf(r), r)
  {
    hide Dec;
  }

  lemma Laid(base: seq<string>, f: seq<string>, block: seq<string>, routes: seq<string>)
    requires |base| == 12 && |f| == 2 && |block| == 20 && |routes| == 1
    ensures
      var two, three, four := base + f, base + f + block, base + f + block + routes;
      && (forall i :: 0 <= i < 12 ==> two[i] == base[i] && three[i] == base[i] && four[i] == base[i])
      && two[12] == f[0] && two[13] == f[1] && three[12] == f[0] && three[13] == f[1] && four[12] == f[0]
      && four[13] == f[1] && three[14..34] == block && four[14..34] == block && four[34] == routes[0]
  {
  }

  lemma DecOfVersions()
    ensures Dec(1) == Digits(1) && Dec(2) == Digits(2) && Dec(3) == Digits(3) && Dec(4) == Digits(4)
  {
  }

  lemma BlockSize(t: Option<Tatara>)
    ensures |TataraPart(t)| == 20
  {
    if t.Some? { TataraCuts(t.value); }
  }

  /** The block's twenty fields in their places, and the ones of a record that has no block. */
  lemma BlockSpelled(t: Tatara)
    ensures
      var p := TataraPart(Some(t));
      && |p| == 20 && p[0] == Dec(t.v) && p[1] == Join(Decs(t.sizes), ',') && p[2] == Dec(t.minPeople)
      && p[3] == Dec(t.maxPeople) && p[4] == Dec(t.countdownS) && p[5] == Dec(t.wakeWindowS)
      && p[6] == Dec(t.maxRetries) && p[7] == Dec(t.strikes) && p[8] == Dec(t.maxPoolsPerSize)
      && p[9] == Dec(t.maxPoolsTotal) && p[10] == Dec(t.maxListPerSize) && p[11] == Dec(t.maxFeeRate)
      && p[12] == (if t.channelPools then "1" else "0") && p[13] == Join(Decs(t.channelSizes), ',')
      && p[14] == t.relayUrl && p[15] == (if t.relayForOthers then "1" else "0")
      && p[16] == (if t.forwardPayouts then "1" else "0") && p[17] == (if t.forwardCoinChecks then "1" else "0")
      && p[18] == OrEmpty(t.coinCheckUrl) && p[19] == OrEmpty(t.ringHash)
    ensures
      TataraPart(None) ==
      ["0", "", "0", "0", "0", "0", "0", "0", "0", "0", "0", "0", "0", "", "", "0", "0", "0", "", ""]
  {
    hide Join, Dec;
  }

  /** A route is its reach, endpoint, wss address and filter address, in that order. */
  lemma RoutesSpelled(rs: seq<Route>, i: nat)
    requires i < |rs|
    ensures |RoutesOf(rs)| == |rs|
    ensures
      var r := rs[i];
      RoutesOf(rs)[i] == r.reach + "|" + r.endpoint + "|" + r.wssUrl + "|" + OrEmpty(r.filterUrl)
  {
    if i > 0 {
      RoutesSpelled(rs[1..], i - 1);
    } else {
      RoutesSize(rs);
      var r := rs[0];
      var p := RouteOf(r);
      FourOf(p[0], p[1], p[2], p[3], '|');
    }
  }

  lemma FourOf(a: string, b: string, c: string, d: string, sep: char)
    ensures Join([a, b, c, d], sep) == a + [sep] + b + [sep] + c + [sep] + d
  {
    JoinSnoc([a, b, c], d, sep);
    JoinSnoc([a, b], c, sep);
    JoinSnoc([a], b, sep);
    assert [a, b, c] + [d] == [a, b, c, d] && [a, b] + [c] == [a, b, c] && [a] + [b] == [a, b];
  }

  lemma {:induction false} RoutesSize(rs: seq<Route>)
    ensures |RoutesOf(rs)| == |rs|
  {
    if rs != [] { RoutesSize(rs[1..]); }
  }

  lemma TruthOf(r: Record)
    ensures forall t :: Truthy(TataraJson(t))
    ensures Truthy(OfOption(r.filterUrl)) <==> r.filterUrl.Some? && r.filterUrl.value != ""
    ensures forall rs :: RouteJsons(rs) == [] <==> rs == []
  {
    hide Ints;
  }

  /******* Injectivity *******/

  ghost predicate NonEmpty(o: Option<string>) { o.Some? ==> o.value != "" }

  ghost predicate ShapedTatara(t: Tatara) { t.v == 1 && NonEmpty(t.coinCheckUrl) && NonEmpty(t.ringHash) }

  /** Nothing in a text could be taken for a joint of the routes field. */
  ghost predicate Jointless(s: string) { Without(s, '|') && Without(s, ';') }

  ghost predicate ShapedRoute(r: Route) {
    Jointless(r.reach) && Jointless(r.endpoint) && Jointless(r.wssUrl) && Jointless(OrEmpty(r.filterUrl))
        && NonEmpty(r.filterUrl)
  }

  /** What normalising leaves true of a record: an absent text is none, never empty; an offer of a
      silent-payment index comes with its server; the routes hold no joint. */
  ghost predicate Shaped(r: Record) {
    && NonEmpty(r.routeEndpoint) && NonEmpty(r.routeMacaroon) && NonEmpty(r.wssUrl) && NonEmpty(r.filterUrl)
    && (r.filterSp ==> r.filterUrl.Some?)
    && (r.tatara.Some? ==> ShapedTatara(r.tatara.value))
    && (r.routes.Some? ==> r.routes.value != [] && forall x :: x in r.routes.value ==> ShapedRoute(x))
  }

  /** The fields the signature covers: a number that is none is signed as 0. */
  function Signed(r: Record): Record {
    r.(feePpm := Int(Whole(r.feePpm)), feeBaseSats := Int(Whole(r.feeBaseSats)),
       channelOpenFeeSats := Int(Whole(r.channelOpenFeeSats)), maxChannelSizeSats := Int(Whole(r.maxChannelSizeSats)))
  }

  lemma OrEmptyInjective(a: Option<string>, b: Option<string>)
    requires NonEmpty(a) && NonEmpty(b) && OrEmpty(a) == OrEmpty(b)
    ensures a == b
  {
  }

  lemma {:induction false} DecsFacts(xs: seq<int>)
    ensures |Decs(xs)| == |xs| && AllWithout(Decs(xs), ',')
    ensures forall i :: 0 <= i < |xs| ==> Decs(xs)[i] == Dec(xs[i]) && Decs(xs)[i] != ""
  {
    if xs != [] {
      DecRead(xs[0]);
      DecsFacts(xs[1..]);
    }
  }

  lemma JoinOfNone(parts: seq<string>, sep: char)
    requires parts != [] && parts[0] != ""
    ensures Join(parts, sep) != ""
  {
  }

  lemma SizesInjective(a: seq<int>, b: seq<int>)
    requires Join(Decs(a), ',') == Join(Decs(b), ',')
    ensures a == b
  {
    DecsFacts(a);
    DecsFacts(b);
    if a == [] || b == [] {
      if a != [] { JoinOfNone(Decs(a), ','); }
      if b != [] { JoinOfNone(Decs(b), ','); }
    } else {
      JoinInjective(Decs(a), Decs(b), ',');
      forall i | 0 <= i < |a| ensures a[i] == b[i] {
        DecInjective(a[i], b[i]);
      }
    }
  }

  lemma BitInjective(a: bool, b: bool)
    requires Bit(a) == Bit(b)
    ensures a == b
  {
    assert Bit(true)[0] == '1' && Bit(false)[0] == '0';
  }

  lemma PoolInjective(t: Tatara, u: Tatara)
    requires PoolOf(t) == PoolOf(u)
    ensures t.v == u.v && t.sizes == u.sizes && t.minPeople == u.minPeople && t.maxPeople == u.maxPeople
    ensures t.countdownS == u.countdownS && t.wakeWindowS == u.wakeWindowS
  {
    var p, q := PoolOf(t), PoolOf(u);
    hide Dec, Join, Decs;
    assert forall i :: 0 <= i < 6 ==> p[i] == q[i];
    DecInjective(t.v, u.v);
    SizesInjective(t.sizes, u.sizes);
    DecInjective(t.minPeople, u.minPeople);
    DecInjective(t.maxPeople, u.maxPeople);
    DecInjective(t.countdownS, u.countdownS);
    DecInjective(t.wakeWindowS, u.wakeWindowS);
  }

  lemma LimitInjective(t: Tatara, u: Tatara)
    requires LimitOf(t) == LimitOf(u)
    ensures t.maxRetries == u.maxRetries && t.strikes == u.strikes && t.maxPoolsPerSize == u.maxPoolsPerSize
    ensures t.maxPoolsTotal == u.maxPoolsTotal && t.maxListPerSize == u.maxListPerSize && t.maxFeeRate == u.maxFeeRate
  {
    var p, q := LimitOf(t), LimitOf(u);
    hide Dec;
    assert forall i :: 0 <= i < 6 ==> p[i] == q[i];
    DecInjective(t.maxRetries, u.maxRetries);
    DecInjective(t.strikes, u.strikes);
    DecInjective(t.maxPoolsPerSize, u.maxPoolsPerSize);
    DecInjective(t.maxPoolsTotal, u.maxPoolsTotal);
    DecInjective(t.maxListPerSize, u.maxListPerSize);
    DecInjective(t.maxFeeRate, u.maxFeeRate);
  }

  lemma ChannelInjective(t: Tatara, u: Tatara)
    requires ChannelOf(t) == ChannelOf(u)
    ensures t.channelPools == u.channelPools && t.channelSizes == u.channelSizes
    ensures t.relayUrl == u.relayUrl && t.relayForOthers == u.relayForOthers
  {
    var p, q := ChannelOf(t), ChannelOf(u);
    hide Join, Decs;
    assert forall i :: 0 <= i < 4 ==> p[i] == q[i];
    BitInjective(t.channelPools, u.channelPools);
    SizesInjective(t.channelSizes, u.channelSizes);
    BitInjective(t.relayForOthers, u.relayForOthers);
  }

  lemma ForwardInjective(t: Tatara, u: Tatara)
    requires ShapedTatara(t) && ShapedTatara(u) && ForwardOf(t) == ForwardOf(u)
    ensures t.forwardPayouts == u.forwardPayouts && t.forwardCoinChecks == u.forwardCoinChecks
    ensures t.coinCheckUrl == u.coinCheckUrl && t.ringHash == u.ringHash
  {
    var p, q := ForwardOf(t), ForwardOf(u);
    assert forall i :: 0 <= i < 4 ==> p[i] == q[i];
    BitInjective(t.forwardPayouts, u.forwardPayouts);
    BitInjective(t.forwardCoinChecks, u.forwardCoinChecks);
    OrEmptyInjective(t.coinCheckUrl, u.coinCheckUrl);
    OrEmptyInjective(t.ringHash, u.ringHash);
  }

  lemma TataraInjective(t: Tatara, u: Tatara)
    requires ShapedTatara(t) && ShapedTatara(u) && TataraOf(t) == TataraOf(u)
    ensures t == u
  {
    TataraCuts(t);
    TataraCuts(u);
    PoolInjective(t, u);
    LimitInjective(t, u);
    ChannelInjective(t, u);
    ForwardInjective(t, u);
  }

  lemma TataraCuts(t: Tatara)
    ensures
      var p := TataraOf(t);
      |p| == 20 && p[..6] == PoolOf(t) && p[6..12] == LimitOf(t) && p[12..16] == ChannelOf(t) && p[16..] == ForwardOf(t)
  {
    assert |PoolOf(t)| == 6 && |LimitOf(t)| == 6 && |ChannelOf(t)| == 4 && |ForwardOf(t)| == 4;
    hide PoolOf, LimitOf, ChannelOf, ForwardOf;
  }

  /** An absent block differs from a present one in its version. */
  lemma TataraPartInjective(t: Option<Tatara>, u: Option<Tatara>)
    requires (t.Some? ==> ShapedTatara(t.value)) && (u.Some? ==> ShapedTatara(u.value))
    requires TataraPart(t) == TataraPart(u)
    ensures t == u
  {
    assert Dec(1) == "1" && "1"[0] != "0"[0];
    assert AbsentTatara()[0] == "0";
    if t.Some? { assert TataraPart(t)[0] == Dec(t.value.v); }
    if u.Some? { assert TataraPart(u)[0] == Dec(u.value.v); }
    hide PoolOf, LimitOf, ChannelOf, ForwardOf;
    if t.Some? && u.Some? {
      TataraInjective(t.value, u.value);
    }
  }

  lemma RouteInjective(r: Route, s: Route)
    requires ShapedRoute(r) && ShapedRoute(s) && Join(RouteOf(r), '|') == Join(RouteOf(s), '|')
    ensures r == s
  {
    JoinInjective(RouteOf(r), RouteOf(s), '|');
    var p, q := RouteOf(r), RouteOf(s);
    assert forall i :: 0 <= i < 4 ==> p[i] == q[i];
    OrEmptyInjective(r.filterUrl, s.filterUrl);
  }

  lemma {:induction false} RoutesHaveNoSemicolon(rs: seq<Route>)
    requires forall x :: x in rs ==> ShapedRoute(x)
    ensures |RoutesOf(rs)| == |rs| && AllWithout(RoutesOf(rs), ';')
  {
    if rs != [] {
      assert rs[0] in rs;
      JoinWithout(RouteOf(rs[0]), '|', ';');
      assert forall x :: x in rs[1..] ==> x in rs;
      RoutesHaveNoSemicolon(rs[1..]);
    }
  }

  lemma {:induction false} RoutesOfInjective(a: seq<Route>, b: seq<Route>)
    requires forall x :: x in a || x in b ==> ShapedRoute(x)
    requires RoutesOf(a) == RoutesOf(b)
    ensures a == b
  {
    RoutesHaveNoSemicolon(a);
    RoutesHaveNoSemicolon(b);
    if a != [] {
      assert RoutesOf(a)[0] == RoutesOf(b)[0] && RoutesOf(a)[1..] == RoutesOf(b)[1..];
      assert a[0] in a && b[0] in b;
      RouteInjective(a[0], b[0]);
      assert forall x :: x in a[1..] ==> x in a;
      assert forall x :: x in b[1..] ==> x in b;
      RoutesOfInjective(a[1..], b[1..]);
      assert a == [a[0]] + a[1..] && b == [b[0]] + b[1..];
    }
  }

  lemma RoutesInjective(a: seq<Route>, b: seq<Route>)
    requires a != [] && b != [] && forall x :: x in a || x in b ==> ShapedRoute(x)
    requires Join(RoutesOf(a), ';') == Join(RoutesOf(b), ';')
    ensures a == b
  {
    RoutesHaveNoSemicolon(a);
    RoutesHaveNoSemicolon(b);
    JoinInjective(RoutesOf(a), RoutesOf(b), ';');
    RoutesOfInjective(a, b);
  }

  /** The twelve fields every version signs. */
  ghost predicate SameBase(r: Record, s: Record) {
    && r.pubkey == s.pubkey && r.ts == s.ts && r.name == s.name && r.endpoint == s.endpoint
    && r.wssUrl == s.wssUrl && r.routeEndpoint == s.routeEndpoint && r.routeMacaroon == s.routeMacaroon
    && Whole(r.feePpm) == Whole(s.feePpm) && Whole(r.feeBaseSats) == Whole(s.feeBaseSats)
    && Whole(r.channelOpenFeeSats) == Whole(s.channelOpenFeeSats)
    && Whole(r.maxChannelSizeSats) == Whole(s.maxChannelSizeSats) && r.supportsJit == s.supportsJit
  }

  lemma BaseInjective(r: Record, s: Record)
    requires Shaped(r) && Shaped(s) && BaseOf(r) == BaseOf(s)
    ensures SameBase(r, s)
  {
    var p, q := BaseOf(r), BaseOf(s);
    hide Dec;
    assert forall i :: 0 <= i < 12 ==> p[i] == q[i];
    DecInjective(r.ts, s.ts);
    OrEmptyInjective(r.wssUrl, s.wssUrl);
    OrEmptyInjective(r.routeEndpoint, s.routeEndpoint);
    OrEmptyInjective(r.routeMacaroon, s.routeMacaroon);
    DecInjective(Whole(r.feePpm), Whole(s.feePpm));
    DecInjective(Whole(r.feeBaseSats), Whole(s.feeBaseSats));
    DecInjective(Whole(r.channelOpenFeeSats), Whole(s.channelOpenFeeSats));
    DecInjective(Whole(r.maxChannelSizeSats), Whole(s.maxChannelSizeSats));
    BitInjective(r.supportsJit, s.supportsJit);
  }

  lemma FilterInjective(r: Record, s: Record)
    requires Shaped(r) && Shaped(s) && FilterOf(r) == FilterOf(s)
    ensures r.filterUrl == s.filterUrl && r.filterSp == s.filterSp
  {
    var p, q := FilterOf(r), FilterOf(s);
    assert p[0] == q[0] && p[1] == q[1];
    OrEmptyInjective(r.filterUrl, s.filterUrl);
    BitInjective(r.filterSp, s.filterSp);
  }

  /** The parts of a message, cut where the blocks of fields meet. */
  lemma Cuts(r: Record)
    requires Shaped(r)
    ensures
      var p := PartsOf(r).parts;
      && |p| == (match PartsOf(r).version case 1 => 12 case 2 => 14 case 3 => 34 case _ => 35)
      && p[..12] == BaseOf(r)
      && (|p| > 12 ==> p[12..14] == FilterOf(r))
      && (|p| > 14 ==> p[14..34] == TataraPart(r.tatara))
      && (|p| > 34 ==> p[34] == Join(RoutesOf(r.routes.value), ';'))
  {
    BlockSize(r.tatara);
    assert |BaseOf(r)| == 12 && |FilterOf(r)| == 2;
    hide BaseOf, FilterOf, TataraPart, RoutesOf, Join, ShapedRoute, ShapedTatara;
    var base, f, block := BaseOf(r), FilterOf(r), TataraPart(r.tatara);
    var routes := if r.routes.Some? then [Join(RoutesOf(r.routes.value), ';')] else [""];
    CutsOf(base, f, block, routes);
  }

  lemma CutsOf(base: seq<string>, f: seq<string>, block: seq<string>, routes: seq<string>)
    requires |base| == 12 && |f| == 2 && |block| == 20 && |routes| == 1
    ensures base[..12] == base && (base + f)[..12] == base && (base + f)[12..14] == f
    ensures (base + f + block)[..12] == base && (base + f + block)[12..14] == f && (base + f + block)[14..34] == block
    ensures
      var all := base + f + block + routes;
      all[..12] == base && all[12..14] == f && all[14..34] == block && all[34] == routes[0]
  {
  }

  lemma PartsInjective(r: Record, s: Record)
    requires Shaped(r) && Shaped(s) && PartsOf(r) == PartsOf(s)
    ensures Signed(r) == Signed(s)
  {
    Cuts(r);
    Cuts(s);
    var version := PartsOf(r).version;
    assert version == 4 <==> r.routes.Some?;
    assert version == 4 <==> s.routes.Some?;
    hide BaseOf, FilterOf, TataraPart, RoutesOf, Join, ShapedRoute;
    BaseInjective(r, s);
    if version >= 2 { FilterInjective(r, s); }
    if version >= 3 { TataraPartInjective(r.tatara, s.tatara); }
    if version == 4 { RoutesInjective(r.routes.value, s.routes.value); }
  }

  /** Two normalised records are signed over the same text exactly when their signed fields are the
      same: the text hides no field and the four formats never meet. */
  lemma RegisterMsgInjective(r: Record, s: Record, num: string -> JsNum)
    requires Shaped(r) && Shaped(s)
    ensures
      CanonicalRegisterMsg(RecordJson(r), num) == CanonicalRegisterMsg(RecordJson(s), num) <==> Signed(r) == Signed(s)
  {
    RecordText(r, num);
    RecordText(s, num);
    Cuts(r);
    Cuts(s);
    hide RecordJson, CanonicalParts;
    if CanonicalRegisterMsg(RecordJson(r), num) == CanonicalRegisterMsg(RecordJson(s), num) {
      MsgTextInjective(PartsOf(r), PartsOf(s));
      PartsInjective(r, s);
    }
    if Signed(r) == Signed(s) {
      SignedDecides(r, s);
    }
  }

  lemma SignedDecides(r: Record, s: Record)
    requires Signed(r) == Signed(s)
    ensures PartsOf(r) == PartsOf(s)
  {
    assert SameBase(r, s) by { assert Signed(r).feePpm == Signed(s).feePpm; }
    assert r.filterUrl == s.filterUrl && r.filterSp == s.filterSp && r.tatara == s.tatara && r.routes == s.routes;
    assert BaseOf(r) == BaseOf(s);
    hide BaseOf, TataraPart, RoutesOf;
  }
}

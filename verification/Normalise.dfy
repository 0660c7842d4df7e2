/**
 From a request body to the record that is stored: the three cleaners and the registration handler's
 own coercions (lij-worker/src/index.js), and when the text signed over the body is the record's.
 */
module Normalise {
  import opened Text
  import opened Records
  import opened Json
  import opened RegisterMsg

  /** A cleaner's answer: nothing was offered, the cleaned value, or the offer is malformed. */
  datatype Cleaned<+T> = Absent | Clean(value: T) | Bad

  /******* Addresses *******/

  predicate HostChar(c: char) { IsAlnum(c) || c == '.' || c == '-' }

  predicate PathChar(c: char) { IsAlnum(c) || c in "._~/-" }

  function Span(s: string, p: char -> bool): (n: nat)
    ensures n <= |s| && forall i :: 0 <= i < n ==> p(s[i])
    ensures n < |s| ==> !p(s[n])
  {
    if s == "" || !p(s[0]) then 0 else 1 + Span(s[1..], p)
  }

  /** An optional path, to the end. */
  predicate PathToEnd(s: string) {
    s == "" || (s[0] == '/' && Span(s[1..], PathChar) == |s| - 1)
  }

  /** An optional port, then an optional path. */
  predicate PortAndPath(s: string) {
    if s != "" && s[0] == ':' then
      var d := Span(s[1..], IsDigit);
      1 <= d <= 5 && PathToEnd(s[d + 1..])
    else PathToEnd(s)
  }

  /** The two address patterns: a scheme, a host, an optional port and path. */
  predicate IsAddress(t: string, scheme: string) {
    scheme <= t &&
    var s := t[|scheme|..];
    s != "" && IsAlnum(s[0]) && PortAndPath(s[1 + Span(s[1..], HostChar)..])
  }

  const HTTPS := "https://"
  const WSS := "wss://"

  predicate IsPlainAddress(t: string, scheme: string) {
    |t| <= 200 && !(t != "" && t[|t| - 1] == '/') && IsAddress(t, scheme)
  }

  predicate AddressChar(c: char) { IsAlnum(c) || c in "._~/-:" }

  lemma PathChars(s: string)
    requires PathToEnd(s)
    ensures forall i :: 0 <= i < |s| ==> AddressChar(s[i])
  {
    if s != "" {
      forall i | 0 < i < |s| ensures AddressChar(s[i]) {
        assert PathChar(s[1..][i - 1]);
      }
    }
  }

  lemma PortChars(s: string)
    requires PortAndPath(s)
    ensures forall i :: 0 <= i < |s| ==> AddressChar(s[i])
  {
    if s != "" && s[0] == ':' {
      var d := Span(s[1..], IsDigit);
      PathChars(s[d + 1..]);
      forall i | 0 < i < |s| ensures AddressChar(s[i]) {
        if i <= d { assert IsDigit(s[1..][i - 1]); } else { assert s[i] == s[d + 1..][i - d - 1]; }
      }
    } else {
      PathChars(s);
    }
  }

  /** An address holds no joint of the routes field. */
  lemma AddressIsPlain(t: string, scheme: string)
    requires IsAddress(t, scheme) && (scheme == HTTPS || scheme == WSS)
    ensures Jointless(t) && t != ""
  {
    var s := t[|scheme|..];
    var h := 1 + Span(s[1..], HostChar);
    PortChars(s[h..]);
    forall i | 0 <= i < |s| ensures AddressChar(s[i]) {
      if 0 < i < h { assert HostChar(s[1..][i - 1]); } else if h <= i { assert s[i] == s[h..][i - h]; }
    }
    assert t == scheme + s;
    assert forall i :: 0 <= i < |scheme| ==> AddressChar(scheme[i]);
    assert forall i :: 0 <= i < |t| ==> AddressChar(t[i]);
    assert !AddressChar('|') && !AddressChar(';');
  }

  /** `cleanFilterUrl`. */
  function CleanFilterUrl(v: Json): Cleaned<string> {
    if Nullish(v) || v == Str("") then Absent
    else if IsPlainAddress(String(v), HTTPS) then Clean(String(v))
    else Bad
  }

  function Kept(c: Cleaned<string>): Option<string> { if c.Clean? then Some(c.value) else None }

  /******* The tatara block *******/

  predicate IsInt(j: Json, lo: int, hi: int) {
    j.Num? && j.n.Int? && SafeInteger(j.n.i) && lo <= j.n.i <= hi
  }

  function IntOf(j: Json): int { if j.Num? then Whole(j.n) else 0 }

  function IntsOf(items: seq<Json>): seq<int> {
    if items == [] then [] else [IntOf(items[0])] + IntsOf(items[1..])
  }

  /** At most twelve whole numbers from 1 to 21 million bitcoin in satoshi, ascending. */
  predicate IsSizeList(j: Json) {
    j.Arr? && |j.items| <= 12
    && (forall i :: 0 <= i < |j.items| ==> IsInt(j.items[i], 1, 2100000000000000))
    && (forall i :: 0 < i < |j.items| ==> IntOf(j.items[i]) > IntOf(j.items[i - 1]))
  }

  function TextOr(j: Json): string { if Truthy(j) then String(j) else "" }

  predicate IsHash(s: string) { |s| == 64 && forall i :: 0 <= i < |s| ==> IsDigit(s[i]) || 'a' <= s[i] <= 'f' }

  predicate NoText(j: Json) { Nullish(j) || j == Str("") }

  predicate TataraLimits(v: Json) {
    && IsInt(Get(v, V), 1, 1) && IsInt(Get(v, MinPeople), 2, 100) && IsInt(Get(v, MaxPeople), 2, 100)
    && IsInt(Get(v, CountdownS), 0, 86400) && IsInt(Get(v, WakeWindowS), 0, 86400)
    && IsInt(Get(v, MaxRetries), 0, 100) && IsInt(Get(v, Strikes), 1, 100)
    && IsInt(Get(v, MaxPoolsPerSize), 1, 1000) && IsInt(Get(v, MaxPoolsTotal), 1, 10000)
    && IsInt(Get(v, MaxListPerSize), 1, 100000) && IsInt(Get(v, MaxFeeRate), 1, 10000)
    && IntOf(Get(v, MinPeople)) <= IntOf(Get(v, MaxPeople))
  }

  predicate TataraLists(v: Json) {
    var ch := if Nullish(Get(v, ChannelSizes)) then Arr([]) else Get(v, ChannelSizes);
    && IsSizeList(Get(v, Sizes)) && |Get(v, Sizes).items| >= 1
    && Get(v, ChannelPools).Bool? && Get(v, RelayForOthers).Bool? && Get(v, ForwardPayouts).Bool?
    && Get(v, ForwardCoinChecks).Bool?
    && IsSizeList(ch) && (Get(v, ChannelPools).b <==> ch.items != [])
  }

  predicate TataraTexts(v: Json) {
    && IsPlainAddress(TextOr(Get(v, RelayUrl)), WSS)
    && CleanFilterUrl(Get(v, CoinCheckUrl)) != Bad
    && (NoText(Get(v, RingHash)) || IsHash(String(Get(v, RingHash))))
  }

  /** `cleanTatara`: the block's shape, and no key but the known ones. */
  function CleanTatara(v: Json): Cleaned<Tatara> {
    if Nullish(v) then Absent
    else if v.Obj? && v.fields.Keys <= TATARA_KEYS && TataraLimits(v) && TataraLists(v) && TataraTexts(v) then
      Clean(TataraFrom(v))
    else Bad
  }

  function TataraFrom(v: Json): Tatara
    requires TataraLists(v)
  {
    Tatara(
      IntOf(Get(v, V)), IntsOf(Items(Get(v, Sizes))), IntOf(Get(v, MinPeople)), IntOf(Get(v, MaxPeople)),
      IntOf(Get(v, CountdownS)), IntOf(Get(v, WakeWindowS)), IntOf(Get(v, MaxRetries)), IntOf(Get(v, Strikes)),
      IntOf(Get(v, MaxPoolsPerSize)), IntOf(Get(v, MaxPoolsTotal)), IntOf(Get(v, MaxListPerSize)),
      IntOf(Get(v, MaxFeeRate)), Get(v, ChannelPools).b, IntsOf(Items(Get(v, ChannelSizes))),
      TextOr(Get(v, RelayUrl)), Get(v, RelayForOthers).b, Get(v, ForwardPayouts).b, Get(v, ForwardCoinChecks).b,
      Kept(CleanFilterUrl(Get(v, CoinCheckUrl))),
      if NoText(Get(v, RingHash)) then None else Some(String(Get(v, RingHash))))
  }

  /******* The routes *******/

  const REACHES: set<string> := {"direct", "cloudflare", "tor"}

  predicate RouteOk(r: Json) {
    && r.Obj? && r.fields.Keys <= {Reach, Endpoint, WssUrl, FilterUrl}
    && Get(r, Reach).Str? && Get(r, Reach).s in REACHES
    && CleanFilterUrl(Get(r, Endpoint)).Clean?
    && IsPlainAddress(TextOr(Get(r, WssUrl)), WSS)
    && CleanFilterUrl(Get(r, FilterUrl)) != Bad
  }

  function RouteFrom(r: Json): Route
    requires RouteOk(r)
  {
    Route(Get(r, Reach).s, CleanFilterUrl(Get(r, Endpoint)).value, TextOr(Get(r, WssUrl)),
          Kept(CleanFilterUrl(Get(r, FilterUrl))))
  }

  function RoutesFrom(items: seq<Json>): seq<Route>
    requires forall i :: 0 <= i < |items| ==> RouteOk(items[i])
  {
    if items == [] then [] else [RouteFrom(items[0])] + RoutesFrom(items[1..])
  }

  /** One to three well-formed routes, no two with the same endpoint. */
  predicate RoutesOk(v: Json) {
    && v.Arr? && 1 <= |v.items| <= 3
    && (forall i :: 0 <= i < |v.items| ==> RouteOk(v.items[i]))
    && (forall i, j :: 0 <= i < j < |v.items| ==>
          String(Get(v.items[i], Endpoint)) != String(Get(v.items[j], Endpoint)))
  }

  function CleanRoutes(v: Json): Cleaned<seq<Route>> {
    if Nullish(v) then Absent else if RoutesOk(v) then Clean(RoutesFrom(v.items)) else Bad
  }

  lemma {:induction false} RoutesFromSnoc(items: seq<Json>, r: Json)
    requires (forall i :: 0 <= i < |items| ==> RouteOk(items[i])) && RouteOk(r)
    ensures forall i :: 0 <= i < |items + [r]| ==> RouteOk((items + [r])[i])
    ensures RoutesFrom(items + [r]) == RoutesFrom(items) + [RouteFrom(r)]
    ensures |RoutesFrom(items)| == |items|
    ensures forall i :: 0 <= i < |items| ==> RoutesFrom(items)[i].endpoint == String(Get(items[i], Endpoint))
  {
    hide RouteOk, RouteFrom;
    var all := items + [r];
    forall i | 0 <= i < |all| ensures RouteOk(all[i]) {
    }
    if items != [] {
      RoutesFromSnoc(items[1..], r);
      assert all[1..] == items[1..] + [r];
      EndpointKept(items[0]);
    }
  }

  lemma EndpointKept(r: Json)
    requires RouteOk(r)
    ensures RouteFrom(r).endpoint == String(Get(r, Endpoint))
  {
  }

  /** `cleanRoutes`: the list built route by route. */
  method TakeRoutes(v: Json) returns (out: Cleaned<seq<Route>>)
    ensures out == CleanRoutes(v)
  {
    hide RouteOk, RouteFrom, String;
    if Nullish(v) { return Absent; }
    if !v.Arr? || |v.items| < 1 || |v.items| > 3 { return Bad; }
    var built: seq<Route> := [];
    for i := 0 to |v.items|
      invariant forall k :: 0 <= k < i ==> RouteOk(v.items[k])
      invariant built == RoutesFrom(v.items[..i]) && |built| == i
      invariant forall k :: 0 <= k < i ==> built[k].endpoint == String(Get(v.items[k], Endpoint))
      invariant forall a, b :: 0 <= a < b < i ==> String(Get(v.items[a], Endpoint)) != String(Get(v.items[b], Endpoint))
    {
      var r := v.items[i];
      if !RouteOk(r) { return Bad; }
      RoutesFromSnoc(v.items[..i], r);
      EndpointKept(r);
      assert v.items[..i] + [r] == v.items[..i + 1];
      var route := RouteFrom(r);
      var taken := Taken(built, route.endpoint);
      if taken { return Bad; }
      built := built + [route];
    }
    assert v.items[..|v.items|] == v.items;
    out := Clean(built);
  }

  method Taken(built: seq<Route>, endpoint: string) returns (taken: bool)
    ensures taken <==> exists k :: 0 <= k < |built| && built[k].endpoint == endpoint
  {
    taken := false;
    for k := 0 to |built|
      invariant taken <==> exists j :: 0 <= j < k && built[j].endpoint == endpoint
    {
      if built[k].endpoint == endpoint { taken := true; }
    }
  }

  /******* The handler's coercions *******/

  /** `length` of a string: its UTF-16 code units. */
  function Units(s: string): nat {
    if s == "" then 0 else (if s[0] as int < 0x10000 then 1 else 2) + Units(s[1..])
  }

  predicate IsLowerHex(s: string) { forall i :: 0 <= i < |s| ==> IsDigit(s[i]) || 'a' <= s[i] <= 'f' }

  predicate AddressOrNone(j: Json, scheme: string) {
    NoText(j) || (j.Str? && IsPlainAddress(j.s, scheme))
  }

  /** `x || null` of what the checks leave: a non-empty string, or nothing. */
  function TextOf(j: Json): Option<string> { if j.Str? && j.s != "" then Some(j.s) else None }

  function NumberOr0(j: Json, num: string -> JsNum): JsNum { if j.Undefined? then Int(0) else Number(j, num) }

  /** What the handler asks of the body's own fields. */
  predicate FieldsOk(b: Json, num: string -> JsNum) {
    && Truthy(Get(b, Signature)) && !Get(b, FeePpm).Undefined? && !Get(b, Ts).Undefined?
    && Get(b, Pubkey).Str? && |Get(b, Pubkey).s| == 66 && IsLowerHex(Get(b, Pubkey).s)
    && Number(Get(b, Ts), num).Int?
    && Get(b, Name).Str? && 1 <= Units(Get(b, Name).s) <= 64
    && Get(b, Endpoint).Str? && IsPlainAddress(Get(b, Endpoint).s, HTTPS)
    && AddressOrNone(Get(b, RouteEndpoint), HTTPS) && AddressOrNone(Get(b, WssUrl), WSS)
    && (Nullish(Get(b, RouteMacaroon)) || (Get(b, RouteMacaroon).Str? && Units(Get(b, RouteMacaroon).s) <= 256))
  }

  /** The body's first route repeats the body's own addresses. */
  predicate FirstRouteRepeats(b: Json, rs: seq<Route>, filterUrl: Option<string>) {
    rs != [] && Str(rs[0].endpoint) == Get(b, Endpoint) && Some(rs[0].wssUrl) == TextOf(Get(b, WssUrl))
    && rs[0].filterUrl == filterUrl
  }

  /** The record a body is coerced to, or none when it is refused for its shape. */
  function Coerce(b: Json, num: string -> JsNum): Option<Record> {
    var filterUrl, tat, rts := CleanFilterUrl(Get(b, FilterUrl)), CleanTatara(Get(b, TataraBlock)),
        CleanRoutes(Get(b, RoutesList));
    if !FieldsOk(b, num) || filterUrl.Bad? || tat.Bad? || rts.Bad? then None
    else if rts.Clean? && !FirstRouteRepeats(b, rts.value, Kept(filterUrl)) then None
    else
      Some(Record(
        Get(b, Name).s, Get(b, Pubkey).s, Get(b, Endpoint).s, Number(Get(b, FeePpm), num),
        NumberOr0(Get(b, FeeBaseSats), num), NumberOr0(Get(b, ChannelOpenFeeSats), num),
        NumberOr0(Get(b, MaxChannelSizeSats), num), Truthy(Get(b, SupportsJit)),
        TextOf(Get(b, RouteEndpoint)), TextOf(Get(b, RouteMacaroon)), TextOf(Get(b, WssUrl)),
        Kept(filterUrl), filterUrl.Clean? && Truthy(Get(b, FilterSp)),
        if tat.Clean? then Some(tat.value) else None,
        if rts.Clean? then Some(rts.value) else None,
        Whole(Number(Get(b, Ts), num))))
  }

  /******* The text is kept *******/

  lemma DecNotAddress(n: JsNum)
    ensures !IsAddress(NumText(n), HTTPS)
  {
    if n.Int? { DecRead(n.i); }
    assert NumText(n)[0] != HTTPS[0];
  }

  /** An address that passes the cleaner was a truthy value, printed as it stands. */
  lemma CleanUrlText(v: Json)
    requires CleanFilterUrl(v) != Bad
    ensures S(v) == OrEmpty(Kept(CleanFilterUrl(v)))
    ensures Truthy(v) <==> CleanFilterUrl(v).Clean?
    ensures CleanFilterUrl(v).Clean? ==> CleanFilterUrl(v).value != "" && Jointless(CleanFilterUrl(v).value)
  {
    assert "true"[0] != HTTPS[0] && "false"[0] != HTTPS[0] && "[object Object]"[0] != HTTPS[0];
    if v.Num? { DecNotAddress(v.n); }
    if CleanFilterUrl(v).Clean? { AddressIsPlain(String(v), HTTPS); }
  }

  lemma {:induction false} IntsOfText(items: seq<Json>, num: string -> JsNum)
    requires forall i :: 0 <= i < |items| ==> items[i].Num?
    ensures Ns(items, num) == Decs(IntsOf(items))
  {
    if items != [] { IntsOfText(items[1..], num); }
  }

  lemma PoolKept(v: Json, num: string -> JsNum)
    requires TataraLimits(v) && TataraLists(v)
    ensures PoolText(v, num) == PoolOf(TataraFrom(v)) && LimitText(v, num) == LimitOf(TataraFrom(v))
  {
    IntsOfText(Get(v, Sizes).items, num);
    hide Dec, Join, Decs, IntsOf, Ns, Get;
  }

  lemma ChannelKept(v: Json, num: string -> JsNum)
    requires TataraLists(v) && TataraTexts(v)
    ensures ChannelText(v, num) == ChannelOf(TataraFrom(v)) && ForwardText(v) == ForwardOf(TataraFrom(v))
  {
    IntsOfText(Items(Get(v, ChannelSizes)), num);
    CleanUrlText(Get(v, CoinCheckUrl));
    assert Truthy(Get(v, RelayUrl)) by {
      assert !IsPlainAddress("", WSS);
    }
    hide Dec, Join, Decs, IntsOf, Ns, Get, IsPlainAddress, CleanFilterUrl;
  }

  lemma TataraKept(v: Json, num: string -> JsNum)
    requires CleanTatara(v) != Bad
    ensures TataraText(v, num) == TataraPart(if CleanTatara(v).Clean? then Some(CleanTatara(v).value) else None)
    ensures Truthy(v) <==> CleanTatara(v).Clean?
    ensures CleanTatara(v).Clean? ==> ShapedTatara(CleanTatara(v).value)
  {
    if CleanTatara(v).Clean? {
      PoolKept(v, num);
      ChannelKept(v, num);
      CleanUrlText(Get(v, CoinCheckUrl));
      hide PoolText, LimitText, ChannelText, ForwardText, PoolOf, LimitOf, ChannelOf, ForwardOf;
    } else {
      AbsentTataraText(num);
      assert TataraText(v, num) == TataraText(Undefined, num) by {
        assert forall f :: Get(v, f) == Undefined;
        hide Get, N, L, B, S;
      }
    }
  }

  lemma ReachIsPlain(reach: string)
    requires reach in REACHES
    ensures Jointless(reach)
  {
  }

  lemma RouteTextsOf(r: Json)
    requires RouteOk(r)
    ensures S(Get(r, Endpoint)) == RouteFrom(r).endpoint && S(Get(r, WssUrl)) == RouteFrom(r).wssUrl
    ensures S(Get(r, FilterUrl)) == OrEmpty(RouteFrom(r).filterUrl) && S(Get(r, Reach)) == RouteFrom(r).reach
  {
    CleanUrlText(Get(r, Endpoint));
    CleanUrlText(Get(r, FilterUrl));
    assert !IsAddress("", WSS);
    hide IsAddress, CleanFilterUrl, Get, Jointless;
  }

  lemma RouteShaped(r: Json)
    requires RouteOk(r)
    ensures ShapedRoute(RouteFrom(r))
  {
    ReachIsPlain(Get(r, Reach).s);
    CleanUrlText(Get(r, Endpoint));
    CleanUrlText(Get(r, FilterUrl));
    AddressIsPlain(TextOr(Get(r, WssUrl)), WSS);
    assert Jointless("");
    hide IsAddress, CleanFilterUrl, Get, Jointless, S, Truthy, String, TextOr;
  }

  lemma RouteKept(r: Json)
    requires RouteOk(r)
    ensures RouteText(r) == Join(RouteOf(RouteFrom(r)), '|') && ShapedRoute(RouteFrom(r))
  {
    hide Join, RouteOk, RouteFrom, Get, S, ShapedRoute;
    RouteTextsOf(r);
    RouteShaped(r);
  }

  lemma {:induction false} RoutesKept(items: seq<Json>)
    requires forall i :: 0 <= i < |items| ==> RouteOk(items[i])
    ensures RouteTexts(items) == RoutesOf(RoutesFrom(items)) && |RoutesFrom(items)| == |items|
    ensures forall x :: x in RoutesFrom(items) ==> ShapedRoute(x)
  {
    hide RouteOk, RouteFrom, RouteText, ShapedRoute, Join, RouteOf;
    if items != [] {
      RouteKept(items[0]);
      RoutesKept(items[1..]);
    }
  }

  lemma BaseKept(b: Json, r: Record, num: string -> JsNum)
    requires Coerce(b, num) == Some(r)
    ensures BaseText(b, num) == BaseOf(r)
  {
    hide Dec, CleanFilterUrl, CleanTatara, CleanRoutes, IsPlainAddress, IsLowerHex, Units, Get;
  }

  /** Whether the offer of a silent-payment index is dropped from under a signature that covers it. */
  predicate DropsOffer(b: Json) {
    Truthy(Get(b, FilterSp)) && !Truthy(Get(b, FilterUrl))
    && (Truthy(Get(b, TataraBlock)) || Truthy(Get(b, RoutesList)))
  }

  function Offered<T>(c: Cleaned<T>): Option<T> { if c.Clean? then Some(c.value) else None }

  /** Where the coerced record's optional fields come from. */
  lemma CoerceFacts(b: Json, r: Record, num: string -> JsNum)
    requires Coerce(b, num) == Some(r)
    ensures
      var url, tat, rts := CleanFilterUrl(Get(b, FilterUrl)), CleanTatara(Get(b, TataraBlock)),
          CleanRoutes(Get(b, RoutesList));
      && url != Bad && tat != Bad && rts != Bad
      && r.filterUrl == Offered(url) && r.tatara == Offered(tat) && r.routes == Offered(rts)
      && r.filterSp == (url.Clean? && Truthy(Get(b, FilterSp)))
      && NonEmpty(r.routeEndpoint) && NonEmpty(r.routeMacaroon) && NonEmpty(r.wssUrl)
  {
    hide CleanFilterUrl, CleanTatara, CleanRoutes, FieldsOk, FirstRouteRepeats, Get, Number;
  }

  lemma RoutesOffered(v: Json)
    requires CleanRoutes(v) != Bad
    ensures CleanRoutes(v).Clean? <==> Truthy(v)
    ensures CleanRoutes(v).Clean? <==> Items(v) != []
    ensures CleanRoutes(v).Clean? ==>
      CleanRoutes(v).value != [] && RouteTexts(Items(v)) == RoutesOf(CleanRoutes(v).value)
      && forall x :: x in CleanRoutes(v).value ==> ShapedRoute(x)
  {
    hide RouteOk, RouteFrom, RouteText, RouteOf, ShapedRoute;
    if CleanRoutes(v).Clean? { RoutesKept(v.items); }
  }

  lemma CoercedIsShaped(b: Json, r: Record, num: string -> JsNum)
    requires Coerce(b, num) == Some(r)
    ensures Shaped(r)
    ensures r.filterUrl.Some? <==> Truthy(Get(b, FilterUrl))
    ensures r.tatara.Some? <==> Truthy(Get(b, TataraBlock))
    ensures r.routes.Some? <==> Truthy(Get(b, RoutesList))
    ensures r.routes.Some? <==> Items(Get(b, RoutesList)) != []
  {
    hide Coerce, Get, TataraText, TataraPart, ShapedTatara, ShapedRoute, RouteTexts, RoutesOf, Truthy, Jointless;
    hide CleanFilterUrl, CleanTatara, CleanRoutes, S;
    CoerceFacts(b, r, num);
    CleanUrlText(Get(b, FilterUrl));
    TataraKept(Get(b, TataraBlock), num);
    RoutesOffered(Get(b, RoutesList));
  }

  /** Normalising keeps the signed text of an accepted body, through every cleaner and coercion, exactly
      when it does not drop the offer of a silent-payment index made without a filter server beside a
      tatara block or a routes list. */
  lemma TextKeptIff(b: Json, r: Record, num: string -> JsNum)
    requires Coerce(b, num) == Some(r)
    ensures CanonicalRegisterMsg(b, num) == CanonicalRegisterMsg(RecordJson(r), num) <==> !DropsOffer(b)
  {
    RecordText(r, num);
    CoercedIsShaped(b, r, num);
    PartsKept(b, r, num);
    hide CanonicalParts, RecordJson, PartsOf, Coerce;
    if CanonicalRegisterMsg(b, num) == CanonicalRegisterMsg(RecordJson(r), num) {
      MsgTextInjective(CanonicalParts(b, num), PartsOf(r));
    }
  }

  lemma PartsKept(b: Json, r: Record, num: string -> JsNum)
    requires Coerce(b, num) == Some(r)
    ensures
      var m, n := CanonicalParts(b, num), PartsOf(r);
      && m.version == n.version && 1 <= m.version <= 4 && m.parts != [] && n.parts != []
      && (m == n <==> !DropsOffer(b))
  {
    CoercedIsShaped(b, r, num);
    CoerceFacts(b, r, num);
    BaseKept(b, r, num);
    FilterKept(b, r, num);
    TataraKept(Get(b, TataraBlock), num);
    RoutesOffered(Get(b, RoutesList));
    hide Coerce, Get, TataraText, TataraPart, Shaped, ShapedTatara, ShapedRoute, RouteTexts, RoutesOf, Truthy,
        Jointless;
    hide CleanFilterUrl, CleanTatara, CleanRoutes, S, BaseText, FilterText, Join;
    var base, f, g, t := BaseOf(r), FilterText(b), FilterOf(r), TataraPart(r.tatara);
    assert |base| == 12 && |f| == 2 && |g| == 2;
    hide BaseOf, FilterOf;
    FilterTells(base, f, g, t, if r.routes.Some? then Join(RoutesOf(r.routes.value), ';') else "");
  }

  /** Messages alike in everything but the filter's two fields are alike when those are. */
  lemma FilterTells(base: seq<string>, f: seq<string>, g: seq<string>, t: seq<string>, routes: string)
    requires |f| == |g|
    ensures base + f == base + g <==> f == g
    ensures base + f + t == base + g + t <==> f == g
    ensures base + f + t + [routes] == base + g + t + [routes] <==> f == g
  {
    var k, l := |base|, |base| + |f|;
    assert (base + f)[k..l] == f && (base + g)[k..l] == g;
    assert (base + f + t)[k..l] == f && (base + g + t)[k..l] == g;
    assert (base + f + t + [routes])[k..l] == f && (base + g + t + [routes])[k..l] == g;
  }

  lemma FilterKept(b: Json, r: Record, num: string -> JsNum)
    requires Coerce(b, num) == Some(r)
    ensures FilterText(b)[0] == FilterOf(r)[0]
    ensures FilterText(b) == FilterOf(r) <==> !(Truthy(Get(b, FilterSp)) && !Truthy(Get(b, FilterUrl)))
  {
    CleanUrlText(Get(b, FilterUrl));
    assert Bit(true)[0] != Bit(false)[0];
    assert FilterText(b)[1] == Bit(Truthy(Get(b, FilterSp))) && FilterOf(r)[1] == Bit(r.filterSp);
    hide IsPlainAddress, Get, CleanTatara, CleanRoutes, FieldsOk;
  }
}

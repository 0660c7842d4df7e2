/**
 Which registrations have the shape the registry asks for: the address patterns, the tatara block, the
 routes and the record, each told by what it may hold (lij-worker/src/index.js).
 */
module Shapes {
  import opened Text
  import opened Records
  import opened Json
  import opened RegisterMsg
  import opened Normalise

  /******* Addresses *******/

  predicate Letter(c: char) { 'A' <= c <= 'Z' || 'a' <= c <= 'z' || '0' <= c <= '9' }

  /** A scheme; a letter or digit and then letters, digits, '.' and '-'; perhaps ':' and one to five
      digits; perhaps '/' and then letters, digits and "._~/-". */
  ghost predicate Spelt(t: string, scheme: string, host: string, port: string, path: string) {
    t == scheme + host + port + path && HostSpelt(host) && PortSpelt(port) && PathSpelt(path)
  }

  ghost predicate HostSpelt(host: string) {
    host != "" && Letter(host[0]) && forall i :: 1 <= i < |host| ==> Letter(host[i]) || host[i] == '.' || host[i] == '-'
  }

  ghost predicate PortSpelt(port: string) {
    port == "" || (port[0] == ':' && 2 <= |port| <= 6 && forall i :: 1 <= i < |port| ==> '0' <= port[i] <= '9')
  }

  ghost predicate PathSpelt(path: string) {
    path == "" ||
    (path[0] == '/' && forall i :: 1 <= i < |path| ==>
       Letter(path[i]) || path[i] == '.' || path[i] == '_' || path[i] == '~' || path[i] == '/' || path[i] == '-')
  }

  lemma SpanIs(s: string, p: char -> bool, n: nat)
    requires n <= |s| && (forall i :: 0 <= i < n ==> p(s[i])) && (n < |s| ==> !p(s[n]))
    ensures Span(s, p) == n
  {
    if n > 0 { SpanIs(s[1..], p, n - 1); }
  }

  lemma CharClasses(c: char)
    ensures IsAlnum(c) <==> Letter(c)
    ensures HostChar(c) <==> Letter(c) || c == '.' || c == '-'
    ensures PathChar(c) <==> Letter(c) || c == '.' || c == '_' || c == '~' || c == '/' || c == '-'
    ensures IsDigit(c) <==> '0' <= c <= '9'
    ensures !HostChar(':') && !HostChar('/') && !IsDigit('/')
  {
  }

  lemma PathIff(s: string)
    ensures
      PathToEnd(s) <==>
      s == "" || (s[0] == '/' && forall i :: 1 <= i < |s| ==> PathChar(s[i]))
  {
    if s != "" && s[0] == '/' {
      if forall i :: 1 <= i < |s| ==> PathChar(s[i]) {
        SpanIs(s[1..], PathChar, |s| - 1);
      } else if PathToEnd(s) {
        forall i | 1 <= i < |s| ensures PathChar(s[i]) { assert PathChar(s[1..][i - 1]); }
      }
    }
  }

  lemma PathSpeltIff(s: string)
    ensures PathToEnd(s) <==> PathSpelt(s)
  {
    PathIff(s);
    forall i | 0 <= i < |s| ensures PathChar(s[i]) <==>
      Letter(s[i]) || s[i] == '.' || s[i] == '_' || s[i] == '~' || s[i] == '/' || s[i] == '-'
    {
      CharClasses(s[i]);
    }
    hide PathToEnd, PathChar, Letter;
  }

  /** A host is read to its end, where a port, a path or nothing follows. */
  lemma HostRead(host: string, tail: string)
    requires HostSpelt(host) && (tail != "" ==> tail[0] == ':' || tail[0] == '/')
    ensures
      var s := host + tail;
      IsAlnum(s[0]) && s[1 + Span(s[1..], HostChar)..] == tail
  {
    var s := host + tail;
    CharClasses(host[0]);
    CharClasses('a');
    var n := |host| - 1;
    forall i | 0 <= i < n ensures HostChar(s[1..][i]) {
      assert s[1..][i] == host[i + 1];
      CharClasses(host[i + 1]);
    }
    hide HostChar, Letter;
    assert n < |s[1..]| ==> s[1..][n] == tail[0];
    SpanIs(s[1..], HostChar, n);
    assert s[|host|..] == tail;
  }

  lemma PortRead(port: string, path: string)
    requires PortSpelt(port) && PathSpelt(path)
    ensures PortAndPath(port + path)
  {
    var s := port + path;
    PathSpeltIff(path);
    hide PathSpelt, PathToEnd;
    if port != "" {
      var d := |port| - 1;
      assert s[1..] == port[1..] + path;
      assert forall i :: 0 <= i < d ==> s[1..][i] == port[i + 1];
      assert path != "" ==> s[1..][d] == path[0];
      PathStart(path);
      SpanIs(s[1..], IsDigit, d);
      assert s[d + 1..] == path;
    } else {
      PathStart(path);
      assert s == path;
    }
  }

  lemma PathStart(path: string)
    requires PathToEnd(path)
    ensures path != "" ==> path[0] == '/' && !IsDigit(path[0]) && path[0] != ':'
  {
  }

  /** An address that is so spelt is one. */
  lemma SpeltIsAddress(t: string, scheme: string, host: string, port: string, path: string)
    requires Spelt(t, scheme, host, port, path)
    ensures IsAddress(t, scheme)
  {
    assert host != "";
    var tail := port + path;
    var s := host + tail;
    HostRead(host, tail);
    PortRead(port, path);
    hide HostSpelt, PortSpelt, PathSpelt, IsAlnum, Span, HostChar, PortAndPath;
    AfterScheme(scheme, host, port, path);
  }

  lemma AfterScheme(scheme: string, host: string, port: string, path: string)
    ensures
      var t := scheme + host + port + path;
      scheme <= t && t[|scheme|..] == host + (port + path)
  {
  }

  lemma ReadHost(s: string)
    requires s != "" && IsAlnum(s[0])
    ensures HostSpelt(s[..1 + Span(s[1..], HostChar)])
  {
    var host := s[..1 + Span(s[1..], HostChar)];
    CharClasses(host[0]);
    forall i | 1 <= i < |host| ensures Letter(host[i]) || host[i] == '.' || host[i] == '-' {
      assert host[i] == s[1..][i - 1] && HostChar(s[1..][i - 1]);
      CharClasses(host[i]);
    }
  }

  lemma ReadPort(tail: string) returns (d: nat)
    requires PortAndPath(tail)
    ensures d <= |tail| && PortSpelt(tail[..d]) && PathSpelt(tail[d..])
  {
    if tail != "" && tail[0] == ':' {
      d := 1 + Span(tail[1..], IsDigit);
      forall i | 1 <= i < d ensures '0' <= tail[i] <= '9' {
        assert tail[i] == tail[1..][i - 1] && IsDigit(tail[1..][i - 1]);
      }
    } else {
      d := 0;
      assert tail[0..] == tail;
    }
    PathSpeltIff(tail[d..]);
  }

  /** And an address can be so spelt. */
  lemma AddressIsSpelt(t: string, scheme: string) returns (host: string, port: string, path: string)
    requires IsAddress(t, scheme)
    ensures Spelt(t, scheme, host, port, path)
  {
    var s := t[|scheme|..];
    ReadHost(s);
    var h := 1 + Span(s[1..], HostChar);
    var tail := s[h..];
    var d := ReadPort(tail);
    host, port, path := s[..h], tail[..d], tail[d..];
    hide HostSpelt, PortSpelt, PathSpelt, Span, PortAndPath, IsAlnum;
    Regroup(t, |scheme|, h, d);
    assert scheme == t[..|scheme|];
  }

  lemma Regroup(t: string, k: nat, h: nat, d: nat)
    requires k <= |t| && h <= |t| - k && d <= |t| - k - h
    ensures
      var s := t[k..];
      var tail := s[h..];
      t == t[..k] + s[..h] + tail[..d] + tail[d..]
  {
  }

  /** A plain address: at most 200 characters, no slash at its end, of the scheme's pattern. */
  ghost predicate Plain(t: string, scheme: string) {
    |t| <= 200 && (t != "" ==> t[|t| - 1] != '/') &&
    exists host, port, path :: Spelt(t, scheme, host, port, path)
  }

  lemma PlainAddressIff(t: string, scheme: string)
    ensures IsPlainAddress(t, scheme) <==> Plain(t, scheme)
    ensures Plain(t, scheme) ==> t != ""
  {
    if IsAddress(t, scheme) {
      var host, port, path := AddressIsSpelt(t, scheme);
    }
    if exists host, port, path :: Spelt(t, scheme, host, port, path) {
      var host, port, path :| Spelt(t, scheme, host, port, path);
      SpeltIsAddress(t, scheme, host, port, path);
    }
  }

  /** A filter address: none when it is nothing or an empty text; else what it prints as, when that is plain. */
  lemma UrlCleanedIff(v: Json)
    ensures CleanFilterUrl(v) == Absent <==> v == Undefined || v == Null || v == Str("")
    ensures CleanFilterUrl(v).Clean? <==> Plain(String(v), "https://")
    ensures CleanFilterUrl(v).Clean? ==> CleanFilterUrl(v).value == String(v)
  {
    PlainAddressIff(String(v), HTTPS);
    assert "undefined"[0] != "https://"[0] && "null"[0] != "https://"[0];
    NotPlain("undefined");
    NotPlain("null");
    hide IsPlainAddress, Plain;
  }

  lemma NotPlain(t: string)
    requires t != "" && t[0] != 'h'
    ensures !IsPlainAddress(t, HTTPS) && !Plain(t, HTTPS)
  {
    PlainAddressIff(t, HTTPS);
    assert HTTPS[0] == 'h';
  }

  /** Lengths are counted in UTF-16 code units. */
  lemma {:induction false} UnitsAreUtf16(s: string)
    ensures Units(s) == |Utf16(s)|
  {
    if s != "" { UnitsAreUtf16(s[1..]); }
  }

  /******* The tatara block *******/

  predicate SizesWithin(xs: seq<int>) {
    |xs| <= 12 && (forall i :: 0 <= i < |xs| ==> 1 <= xs[i] <= 2100000000000000)
    && forall i :: 0 < i < |xs| ==> xs[i - 1] < xs[i]
  }

  /** What a block may hold. */
  ghost predicate BlockWithin(t: Tatara) {
    && t.v == 1 && 2 <= t.minPeople <= t.maxPeople <= 100
    && 0 <= t.countdownS <= 86400 && 0 <= t.wakeWindowS <= 86400 && 0 <= t.maxRetries <= 100 && 1 <= t.strikes <= 100
    && 1 <= t.maxPoolsPerSize <= 1000 && 1 <= t.maxPoolsTotal <= 10000 && 1 <= t.maxListPerSize <= 100000
    && 1 <= t.maxFeeRate <= 10000
    && t.sizes != [] && SizesWithin(t.sizes) && SizesWithin(t.channelSizes)
    && (t.channelPools <==> t.channelSizes != [])
    && Plain(t.relayUrl, "wss://") && (t.coinCheckUrl.Some? ==> Plain(t.coinCheckUrl.value, "https://"))
    && (t.ringHash.Some? ==>
        |t.ringHash.value| == 64 &&
        forall i :: 0 <= i < 64 ==> '0' <= t.ringHash.value[i] <= '9' || 'a' <= t.ringHash.value[i] <= 'f')
  }

  lemma {:induction false} IntsOfAt(items: seq<Json>)
    ensures |IntsOf(items)| == |items| && forall i :: 0 <= i < |items| ==> IntsOf(items)[i] == IntOf(items[i])
  {
    if items != [] { IntsOfAt(items[1..]); }
  }

  lemma {:induction false} IntsBack(xs: seq<int>)
    ensures IntsOf(Ints(xs)) == xs
    ensures forall i :: 0 <= i < |xs| ==> Ints(xs)[i] == Num(Int(xs[i]))
  {
    if xs != [] { IntsBack(xs[1..]); }
  }

  lemma SizeListWithin(j: Json)
    requires IsSizeList(j)
    ensures SizesWithin(IntsOf(j.items)) && |IntsOf(j.items)| == |j.items|
  {
    IntsOfAt(j.items);
  }

  lemma SizesAreList(xs: seq<int>)
    ensures IsSizeList(Arr(Ints(xs))) <==> SizesWithin(xs)
    ensures IntsOf(Ints(xs)) == xs
  {
    IntsBack(xs);
    var items := Arr(Ints(xs)).items;
    assert |items| == |xs|;
    if IsSizeList(Arr(Ints(xs))) { SizeListWithin(Arr(Ints(xs))); }
    if SizesWithin(xs) {
      forall i | 0 <= i < |items| ensures IsInt(items[i], 1, 2100000000000000) { assert items[i] == Num(Int(xs[i])); }
      forall i | 0 < i < |items| ensures IntOf(items[i]) > IntOf(items[i - 1]) {
        assert items[i] == Num(Int(xs[i])) && items[i - 1] == Num(Int(xs[i - 1]));
      }
    }
  }

  lemma CleanUrlWithin(v: Json)
    ensures CleanFilterUrl(v).Clean? ==> Plain(CleanFilterUrl(v).value, "https://")
  {
    PlainAddressIff(String(v), HTTPS);
    hide IsPlainAddress, Plain;
  }

  lemma UrlTaken(o: Option<string>)
    requires o.Some? ==> Plain(o.value, "https://")
    ensures CleanFilterUrl(OfOption(o)) != Bad && Kept(CleanFilterUrl(OfOption(o))) == o
  {
    if o.Some? { PlainAddressIff(o.value, HTTPS); }
    hide IsPlainAddress, Plain;
  }

  lemma RelayTaken(t: Tatara)
    requires BlockWithin(t)
    ensures TextOr(Str(t.relayUrl)) == t.relayUrl && IsPlainAddress(t.relayUrl, WSS)
  {
    PlainAddressIff(t.relayUrl, WSS);
    hide IsPlainAddress, Plain, SizesWithin;
  }

  lemma RingTaken(o: Option<string>)
    requires o.Some? ==>
      |o.value| == 64 && forall i :: 0 <= i < 64 ==> '0' <= o.value[i] <= '9' || 'a' <= o.value[i] <= 'f'
    ensures NoText(OfOption(o)) || IsHash(String(OfOption(o)))
    ensures (if NoText(OfOption(o)) then None else Some(String(OfOption(o)))) == o
  {
  }

  lemma PoolGets(t: Tatara)
    ensures
      var v := TataraJson(t);
      && Get(v, V) == Num(Int(t.v)) && Get(v, MinPeople) == Num(Int(t.minPeople))
      && Get(v, MaxPeople) == Num(Int(t.maxPeople)) && Get(v, CountdownS) == Num(Int(t.countdownS))
      && Get(v, WakeWindowS) == Num(Int(t.wakeWindowS))
  {
    hide TataraJson, Get, Ints, OfOption;
    forall f ensures Get(TataraJson(t), f) == TataraField(t, f) { TataraGet(t, f); }
  }

  lemma LimitGets(t: Tatara)
    ensures
      var v := TataraJson(t);
      && Get(v, MaxRetries) == Num(Int(t.maxRetries)) && Get(v, Strikes) == Num(Int(t.strikes))
      && Get(v, MaxPoolsPerSize) == Num(Int(t.maxPoolsPerSize)) && Get(v, MaxPoolsTotal) == Num(Int(t.maxPoolsTotal))
      && Get(v, MaxListPerSize) == Num(Int(t.maxListPerSize)) && Get(v, MaxFeeRate) == Num(Int(t.maxFeeRate))
  {
    hide TataraJson, Get, Ints, OfOption;
    forall f ensures Get(TataraJson(t), f) == TataraField(t, f) { TataraGet(t, f); }
  }

  lemma TextGets(t: Tatara)
    ensures
      var v := TataraJson(t);
      && Get(v, RelayUrl) == Str(t.relayUrl) && Get(v, CoinCheckUrl) == OfOption(t.coinCheckUrl)
      && Get(v, RingHash) == OfOption(t.ringHash)
  {
    hide TataraJson, Get, Ints, OfOption;
    forall f ensures Get(TataraJson(t), f) == TataraField(t, f) { TataraGet(t, f); }
  }

  lemma TakenLimits(t: Tatara)
    requires BlockWithin(t)
    ensures TataraLimits(TataraJson(t))
    ensures
      var v := TataraJson(t);
      && IntOf(Get(v, V)) == t.v && IntOf(Get(v, MinPeople)) == t.minPeople && IntOf(Get(v, MaxPeople)) == t.maxPeople
      && IntOf(Get(v, CountdownS)) == t.countdownS && IntOf(Get(v, WakeWindowS)) == t.wakeWindowS
      && IntOf(Get(v, MaxRetries)) == t.maxRetries && IntOf(Get(v, Strikes)) == t.strikes
      && IntOf(Get(v, MaxPoolsPerSize)) == t.maxPoolsPerSize && IntOf(Get(v, MaxPoolsTotal)) == t.maxPoolsTotal
      && IntOf(Get(v, MaxListPerSize)) == t.maxListPerSize && IntOf(Get(v, MaxFeeRate)) == t.maxFeeRate
  {
    PoolGets(t);
    LimitGets(t);
    hide TataraJson, Get, Plain, SizesWithin;
  }

  lemma TakenLists(t: Tatara)
    requires BlockWithin(t)
    ensures TataraLists(TataraJson(t))
    ensures
      var v := TataraJson(t);
      && IntsOf(Items(Get(v, Sizes))) == t.sizes && IntsOf(Items(Get(v, ChannelSizes))) == t.channelSizes
      && Get(v, ChannelPools).b == t.channelPools && Get(v, RelayForOthers).b == t.relayForOthers
      && Get(v, ForwardPayouts).b == t.forwardPayouts && Get(v, ForwardCoinChecks).b == t.forwardCoinChecks
  {
    TataraGet(t, Sizes);
    TataraGet(t, ChannelSizes);
    TataraGet(t, ChannelPools);
    TataraGet(t, RelayForOthers);
    TataraGet(t, ForwardPayouts);
    TataraGet(t, ForwardCoinChecks);
    SizesAreList(t.sizes);
    SizesAreList(t.channelSizes);
    hide TataraJson, Get, Plain, IsSizeList, SizesWithin, IntsOf, Ints;
    SameSize(t.sizes);
    SameSize(t.channelSizes);
  }

  lemma SameSize(xs: seq<int>)
    ensures |Ints(xs)| == |xs|
  {
  }

  lemma TakenTexts(t: Tatara)
    requires BlockWithin(t)
    ensures TataraTexts(TataraJson(t))
    ensures
      var v := TataraJson(t);
      && TextOr(Get(v, RelayUrl)) == t.relayUrl && Kept(CleanFilterUrl(Get(v, CoinCheckUrl))) == t.coinCheckUrl
      && (if NoText(Get(v, RingHash)) then None else Some(String(Get(v, RingHash)))) == t.ringHash
  {
    TextGets(t);
    RelayTaken(t);
    UrlTaken(t.coinCheckUrl);
    RingTaken(t.ringHash);
    hide TataraJson, Get, Plain, IsPlainAddress, BlockWithin, CleanFilterUrl, TextOr, NoText, IsHash, String;
  }

  /** What is within the bounds the cleaner takes, and changes nothing of it. */
  lemma BlockTaken(t: Tatara)
    requires BlockWithin(t)
    ensures CleanTatara(TataraJson(t)) == Clean(t)
  {
    TakenLimits(t);
    TakenLists(t);
    TakenTexts(t);
    BlockKeys(t);
    hide TataraJson, Get, BlockWithin, TataraLimits, TataraLists, TataraTexts, TATARA_KEYS, TextOr, NoText;
    hide CleanFilterUrl, String, IntsOf, IntOf, Items, Kept;
  }

  lemma BlockKeys(t: Tatara)
    ensures TataraJson(t).fields.Keys == TATARA_KEYS
  {
    hide TataraField;
  }

  lemma CleanedBlockWithin(v: Json)
    requires CleanTatara(v).Clean?
    ensures BlockWithin(CleanTatara(v).value)
  {
    var t := CleanTatara(v).value;
    SizeListWithin(Get(v, Sizes));
    if !Nullish(Get(v, ChannelSizes)) { SizeListWithin(Get(v, ChannelSizes)); }
    CleanUrlWithin(Get(v, CoinCheckUrl));
    PlainAddressIff(TextOr(Get(v, RelayUrl)), WSS);
    hide Get, Plain, IsPlainAddress, IsSizeList, SizesWithin, IntsOf, CleanFilterUrl, TATARA_KEYS, String, Truthy;
    assert IntsOf([]) == [] && SizesWithin([]) by { NoSizes(); }
  }

  lemma NoSizes()
    ensures IntsOf([]) == [] && SizesWithin([])
  {
  }

  /** A block is taken as it is exactly when it is within the bounds. */
  lemma BlockTakenIff(t: Tatara)
    ensures CleanTatara(TataraJson(t)) == Clean(t) <==> BlockWithin(t)
  {
    if BlockWithin(t) { BlockTaken(t); }
    hide CleanTatara, TataraJson, BlockWithin;
    if CleanTatara(TataraJson(t)) == Clean(t) { CleanedBlockWithin(TataraJson(t)); }
  }

  /** A block with any key but the known twenty is refused. */
  lemma UnknownKeyRefused(v: Json, f: Field)
    requires v.Obj? && f in v.fields && f !in TATARA_KEYS
    ensures CleanTatara(v) == Bad
  {
  }

  /******* The routes *******/

  ghost predicate RouteWithin(r: Route) {
    && (r.reach == "direct" || r.reach == "cloudflare" || r.reach == "tor")
    && Plain(r.endpoint, "https://") && Plain(r.wssUrl, "wss://")
    && (r.filterUrl.Some? ==> Plain(r.filterUrl.value, "https://"))
  }

  /** What a list of routes may hold: one to three, no two with the same endpoint. */
  ghost predicate RoutesWithin(rs: seq<Route>) {
    1 <= |rs| <= 3 && (forall i :: 0 <= i < |rs| ==> RouteWithin(rs[i]))
    && forall i, j :: 0 <= i < j < |rs| ==> rs[i].endpoint != rs[j].endpoint
  }

  lemma RouteTaken(r: Route)
    requires RouteWithin(r)
    ensures RouteOk(RouteJson(r)) && RouteFrom(RouteJson(r)) == r && String(Get(RouteJson(r), Endpoint)) == r.endpoint
  {
    PlainAddressIff(r.endpoint, HTTPS);
    PlainAddressIff(r.wssUrl, WSS);
    UrlTaken(r.filterUrl);
    UrlTaken(Some(r.endpoint));
    hide IsPlainAddress, Plain, CleanFilterUrl;
  }

  lemma RouteOkWithin(j: Json)
    requires RouteOk(j)
    ensures RouteWithin(RouteFrom(j)) && RouteFrom(j).endpoint == String(Get(j, Endpoint))
  {
    CleanUrlWithin(Get(j, Endpoint));
    CleanUrlWithin(Get(j, FilterUrl));
    PlainAddressIff(TextOr(Get(j, WssUrl)), WSS);
    EndpointKept(j);
    hide IsPlainAddress, Plain, CleanFilterUrl, TextOr, Get, String;
  }

  lemma {:induction false} RoutesFromAt(items: seq<Json>)
    requires forall i :: 0 <= i < |items| ==> RouteOk(items[i])
    ensures |RoutesFrom(items)| == |items|
    ensures forall i :: 0 <= i < |items| ==> RoutesFrom(items)[i] == RouteFrom(items[i])
  {
    hide RouteOk, RouteFrom;
    if items != [] { RoutesFromAt(items[1..]); }
  }

  lemma {:induction false} RouteJsonsAt(rs: seq<Route>)
    ensures forall i :: 0 <= i < |rs| ==> RouteJsons(rs)[i] == RouteJson(rs[i])
  {
    hide RouteJson;
    if rs != [] { RouteJsonsAt(rs[1..]); }
  }

  lemma RoutesTaken(rs: seq<Route>)
    requires RoutesWithin(rs)
    ensures CleanRoutes(Arr(RouteJsons(rs))) == Clean(rs)
  {
    hide RouteOk, RouteFrom, RouteJson, RouteWithin, String, Get;
    var items := RouteJsons(rs);
    RouteJsonsAt(rs);
    forall i | 0 <= i < |rs|
      ensures RouteOk(items[i]) && RouteFrom(items[i]) == rs[i] && String(Get(items[i], Endpoint)) == rs[i].endpoint
    {
      RouteTaken(rs[i]);
    }
    RoutesFromAt(items);
    hide RoutesFrom, RouteJsons;
    assert forall i :: 0 <= i < |rs| ==> RoutesFrom(items)[i] == rs[i];
    assert RoutesFrom(items) == rs;
  }

  lemma CleanedRoutesWithin(v: Json)
    requires CleanRoutes(v).Clean?
    ensures RoutesWithin(CleanRoutes(v).value)
  {
    hide RouteOk, RouteFrom, RouteWithin, String, Get;
    var items := v.items;
    RoutesFromAt(items);
    hide RoutesFrom;
    forall i | 0 <= i < |items|
      ensures RouteWithin(RouteFrom(items[i])) && RouteFrom(items[i]).endpoint == String(Get(items[i], Endpoint))
    {
      RouteOkWithin(items[i]);
    }
  }

  /** A list of routes is taken as it is exactly when it is within the bounds. */
  lemma RoutesTakenIff(rs: seq<Route>)
    ensures CleanRoutes(Arr(RouteJsons(rs))) == Clean(rs) <==> RoutesWithin(rs)
  {
    if RoutesWithin(rs) { RoutesTaken(rs); }
    hide CleanRoutes, RouteJsons, RoutesWithin;
    if CleanRoutes(Arr(RouteJsons(rs))) == Clean(rs) { CleanedRoutesWithin(Arr(RouteJsons(rs))); }
  }

  /******* The record *******/

  ghost predicate TextsWithin(r: Record) {
    && |r.pubkey| == 66 && (forall i :: 0 <= i < 66 ==> '0' <= r.pubkey[i] <= '9' || 'a' <= r.pubkey[i] <= 'f')
    && 1 <= |Utf16(r.name)| <= 64 && Plain(r.endpoint, "https://")
    && (r.routeEndpoint.Some? ==> Plain(r.routeEndpoint.value, "https://"))
    && (r.wssUrl.Some? ==> Plain(r.wssUrl.value, "wss://"))
    && (r.routeMacaroon.Some? ==> 1 <= |Utf16(r.routeMacaroon.value)| <= 256)
  }

  ghost predicate OffersWithin(r: Record) {
    && (r.filterUrl.Some? ==> Plain(r.filterUrl.value, "https://")) && (r.filterSp ==> r.filterUrl.Some?)
    && (r.tatara.Some? ==> BlockWithin(r.tatara.value))
    && (r.routes.Some? ==>
         && RoutesWithin(r.routes.value) && r.routes.value[0].endpoint == r.endpoint
         && Some(r.routes.value[0].wssUrl) == r.wssUrl && r.routes.value[0].filterUrl == r.filterUrl)
  }

  /** What a record may hold. */
  ghost predicate RecordWithin(r: Record) { TextsWithin(r) && OffersWithin(r) }

  /** A stored record sent again, with its signature. */
  function RecordBody(r: Record, sig: string): Json { Obj(RecordJson(r).fields[Signature := Str(sig)]) }

  lemma BodyGet(r: Record, sig: string, f: Field)
    ensures Get(RecordBody(r, sig), f) == if f == Signature then Str(sig) else RecordField(r, f)
  {
    RecordGet(r, f);
    hide RecordField;
  }

  lemma AddressTaken(o: Option<string>, scheme: string)
    ensures o != Some("") ==> TextOf(OfOption(o)) == o
    ensures o.Some? && o.value != "" ==> (AddressOrNone(OfOption(o), scheme) <==> Plain(o.value, scheme))
    ensures o.None? ==> AddressOrNone(OfOption(o), scheme)
  {
    if o.Some? { PlainAddressIff(o.value, scheme); }
    hide IsPlainAddress, Plain;
  }

  lemma UnitsOfSome(s: string)
    ensures Units(s) == |Utf16(s)| && (s != "" <==> Units(s) >= 1)
  {
    UnitsAreUtf16(s);
  }

  lemma BodyTexts(r: Record, sig: string)
    ensures
      var b := RecordBody(r, sig);
      && Get(b, Signature) == Str(sig) && Get(b, Pubkey) == Str(r.pubkey) && Get(b, Name) == Str(r.name)
      && Get(b, Endpoint) == Str(r.endpoint) && Get(b, RouteEndpoint) == OfOption(r.routeEndpoint)
      && Get(b, WssUrl) == OfOption(r.wssUrl) && Get(b, RouteMacaroon) == OfOption(r.routeMacaroon)
  {
    hide RecordBody, Get, OfOption, TataraJson, RouteJsons;
    BodyGet(r, sig, Signature);
    BodyGet(r, sig, Pubkey);
    BodyGet(r, sig, Name);
    BodyGet(r, sig, Endpoint);
    BodyGet(r, sig, RouteEndpoint);
    BodyGet(r, sig, WssUrl);
    BodyGet(r, sig, RouteMacaroon);
  }

  lemma BodyNumbers(r: Record, sig: string)
    ensures
      var b := RecordBody(r, sig);
      && Get(b, Ts) == Num(Int(r.ts)) && Get(b, FeePpm) == Num(r.feePpm) && Get(b, FeeBaseSats) == Num(r.feeBaseSats)
      && Get(b, ChannelOpenFeeSats) == Num(r.channelOpenFeeSats)
      && Get(b, MaxChannelSizeSats) == Num(r.maxChannelSizeSats)
      && Get(b, SupportsJit) == Bool(r.supportsJit) && Get(b, FilterSp) == Bool(r.filterSp)
  {
    hide RecordBody, Get, OfOption, TataraJson, RouteJsons;
    BodyGet(r, sig, Ts);
    BodyGet(r, sig, FeePpm);
    BodyGet(r, sig, FeeBaseSats);
    BodyGet(r, sig, ChannelOpenFeeSats);
    BodyGet(r, sig, MaxChannelSizeSats);
    BodyGet(r, sig, SupportsJit);
    BodyGet(r, sig, FilterSp);
  }

  lemma FieldsTaken(r: Record, sig: string, num: string -> JsNum)
    requires TextsWithin(r) && sig != ""
    ensures FieldsOk(RecordBody(r, sig), num)
  {
    BodyTexts(r, sig);
    BodyNumbers(r, sig);
    NoEmptyTexts(r);
    UnitsOfSome(r.name);
    PlainAddressIff(r.endpoint, HTTPS);
    AddressTaken(r.routeEndpoint, HTTPS);
    AddressTaken(r.wssUrl, WSS);
    if r.routeMacaroon.Some? { UnitsOfSome(r.routeMacaroon.value); }
    hide RecordBody, Get, Plain, IsPlainAddress, Units, Utf16, AddressOrNone;
  }

  lemma NoEmptyTexts(r: Record)
    requires TextsWithin(r)
    ensures r.routeEndpoint != Some("") && r.wssUrl != Some("") && r.routeMacaroon != Some("")
  {
    if r.routeEndpoint.Some? { PlainAddressIff(r.routeEndpoint.value, HTTPS); }
    if r.wssUrl.Some? { PlainAddressIff(r.wssUrl.value, WSS); }
    if r.routeMacaroon.Some? { UnitsOfSome(r.routeMacaroon.value); }
    hide IsPlainAddress, Plain, Units, Utf16;
  }

  lemma OffersTaken(r: Record, sig: string)
    requires OffersWithin(r)
    ensures
      var b := RecordBody(r, sig);
      var url, tat, rts := CleanFilterUrl(Get(b, FilterUrl)), CleanTatara(Get(b, TataraBlock)),
          CleanRoutes(Get(b, RoutesList));
      && url != Bad && tat != Bad && rts != Bad
      && Offered(url) == r.filterUrl && Offered(tat) == r.tatara && Offered(rts) == r.routes
  {
    BodyGet(r, sig, FilterUrl);
    BodyGet(r, sig, TataraBlock);
    BodyGet(r, sig, RoutesList);
    UrlTaken(r.filterUrl);
    if r.tatara.Some? { BlockTaken(r.tatara.value); }
    if r.routes.Some? { RoutesTaken(r.routes.value); }
    hide RecordBody, Get, CleanFilterUrl, RoutesWithin, BlockWithin, Plain, TataraJson, RouteJsons;
  }

  lemma CoercedFirstHolds(r: Record, sig: string)
    requires OffersWithin(r)
    ensures r.routes.Some? ==> FirstRouteRepeats(RecordBody(r, sig), r.routes.value, r.filterUrl)
  {
    BodyTexts(r, sig);
    AddressTaken(r.wssUrl, WSS);
    if r.routes.Some? { PlainAddressIff(r.routes.value[0].wssUrl, WSS); }
    hide RecordBody, Get, OfOption, BlockWithin, Plain, IsPlainAddress, TextOf;
  }

  /** A record within the bounds, sent again, is coerced to itself. */
  lemma RecordTaken(r: Record, sig: string, num: string -> JsNum)
    requires RecordWithin(r) && sig != ""
    ensures Coerce(RecordBody(r, sig), num) == Some(r)
  {
    FieldsTaken(r, sig, num);
    OffersTaken(r, sig);
    NoEmptyTexts(r);
    AddressTaken(r.routeEndpoint, HTTPS);
    AddressTaken(r.routeMacaroon, HTTPS);
    AddressTaken(r.wssUrl, WSS);
    BodyTexts(r, sig);
    BodyNumbers(r, sig);
    hide RecordBody, Get, CleanFilterUrl, CleanTatara, CleanRoutes, FieldsOk, OfOption, TextsWithin, RoutesWithin;
    hide BlockWithin, Plain, AddressOrNone, TextOf, FirstRouteRepeats;
    CoercedFirstHolds(r, sig);
  }

  /** Every record a body is coerced to is within the bounds. */
  lemma CoercedWithin(b: Json, r: Record, num: string -> JsNum)
    requires Coerce(b, num) == Some(r)
    ensures RecordWithin(r)
  {
    CoerceFacts(b, r, num);
    CoercedTexts(b, r, num);
    CleanUrlWithin(Get(b, FilterUrl));
    if CleanTatara(Get(b, TataraBlock)).Clean? { CleanedBlockWithin(Get(b, TataraBlock)); }
    if CleanRoutes(Get(b, RoutesList)).Clean? { CleanedRoutesWithin(Get(b, RoutesList)); }
    CoercedFirst(b, r, num);
    hide Coerce, Get, CleanFilterUrl, CleanTatara, CleanRoutes, RoutesWithin, BlockWithin, Plain, TextsWithin;
  }

  lemma CoercedFirst(b: Json, r: Record, num: string -> JsNum)
    requires Coerce(b, num) == Some(r)
    ensures r.routes.Some? ==>
      && r.routes.value != [] && r.routes.value[0].endpoint == r.endpoint
      && Some(r.routes.value[0].wssUrl) == r.wssUrl && r.routes.value[0].filterUrl == r.filterUrl
  {
    hide Get, CleanFilterUrl, CleanTatara, CleanRoutes, TextOf, IsPlainAddress, IsLowerHex, Units;
  }

  /** The numbers and the flag of the coerced record are the body's, as JavaScript reads them; of three of
      the numbers, 0 where the body has none. */
  lemma CoercedNumbers(b: Json, r: Record, num: string -> JsNum)
    requires Coerce(b, num) == Some(r)
    ensures r.feePpm == Number(Get(b, FeePpm), num) && r.supportsJit == Truthy(Get(b, SupportsJit))
    ensures Number(Get(b, Ts), num) == Int(r.ts)
    ensures r.feeBaseSats == if Get(b, FeeBaseSats) == Undefined then Int(0) else Number(Get(b, FeeBaseSats), num)
    ensures
      r.channelOpenFeeSats ==
      if Get(b, ChannelOpenFeeSats) == Undefined then Int(0) else Number(Get(b, ChannelOpenFeeSats), num)
    ensures
      r.maxChannelSizeSats ==
      if Get(b, MaxChannelSizeSats) == Undefined then Int(0) else Number(Get(b, MaxChannelSizeSats), num)
  {
    hide Get, CleanFilterUrl, CleanTatara, CleanRoutes, IsPlainAddress, IsLowerHex, Units, Number, Truthy;
  }

  lemma CoercedTexts(b: Json, r: Record, num: string -> JsNum)
    requires Coerce(b, num) == Some(r)
    ensures TextsWithin(r)
  {
    var route, wss := Get(b, RouteEndpoint), Get(b, WssUrl);
    PlainAddressIff(r.endpoint, HTTPS);
    hide CleanFilterUrl, CleanTatara, CleanRoutes, FirstRouteRepeats, IsAddress, Spelt;
    if route.Str? { PlainAddressIff(route.s, HTTPS); }
    if wss.Str? { PlainAddressIff(wss.s, WSS); }
    UnitsOfSome(r.name);
    if Get(b, RouteMacaroon).Str? { UnitsOfSome(Get(b, RouteMacaroon).s); }
    hide Get, CleanFilterUrl, CleanTatara, CleanRoutes, IsPlainAddress, Units, Plain, Utf16, Number;
  }

  /** A record is taken as it is exactly when it is within the bounds. */
  lemma RecordTakenIff(r: Record, sig: string, num: string -> JsNum)
    requires sig != ""
    ensures Coerce(RecordBody(r, sig), num) == Some(r) <==> RecordWithin(r)
  {
    if RecordWithin(r) { RecordTaken(r, sig, num); }
    hide Coerce, RecordBody, RecordWithin;
    if Coerce(RecordBody(r, sig), num) == Some(r) { CoercedWithin(RecordBody(r, sig), r, num); }
  }
}

/**
 Concrete inputs on which the code falls short of what it promises, for the exact conditions proved
 elsewhere.
 */
module Shortfalls {
  import opened Text
  import opened Kv
  import opened Records
  import opened Json
  import opened MirrorRules
  import opened Doors
  import opened Reconcile
  import FilePath
  import Convergence
  import Registry
  import Runs
  import Normalise
  import RegisterMsg

  /******* A pull into a tombstone's shadow *******/

  const PULLED := "name:a"

  lemma PulledKey()
    ensures Mirrored(PULLED) && |PULLED| == 6 && FilePath.Split(PULLED).Ok? && FilePath.Canonical(PULLED)
    ensures !("lsp:" <= PULLED) && !("backup:" <= PULLED)
  {
    var key := PULLED;
    assert key[0] == 'n' && TOMB_PREFIX[0] == 't' && SKIP_PREFIX[0] == 'b';
    FilePath.ColonAt("name", "a");
    assert key == "name" + ":" + "a" && key[..4] == "name" && key[5..] == "a";
    assert Percent("a", FilePath.SafeChar) == "a" by { assert "a"[1..] == ""; }
  }

  function Before(v: Val, now: nat): Runs.Sys { Runs.Sys(Pair(map[], map[PULLED := Entry(v, 5, None)]), now) }

  function Deleted(v: Val, now: nat): Runs.Sys {
    Before(v, now).(d := Before(v, now).d.(box := map[Tomb(PULLED) := TombEntry(9, now)]))
  }

  function Shadowed(v: Val, now: nat): Runs.Sys {
    Before(v, now).(d := Before(v, now).d.(box := map[Tomb(PULLED) := TombEntry(9, now), PULLED := Entry(v, 5, None)]))
  }

  /** A client deletes the key at the box; the box then pulls it, by listings made before that. */
  const SHADOWING := [Runs.ClientDelete(true, PULLED, 9), Runs.PullStep(PULLED, 0, 0)]

  lemma PulledCells(v: Val, now: nat)
    ensures Runs.WCell(Before(v, now), PULLED) == Cell(Some(Entry(v, 5, None)), None)
    ensures Runs.BCell(Before(v, now), PULLED) == Cell(None, None)
    ensures Runs.BCell(Deleted(v, now), PULLED) == Cell(None, Some(TombEntry(9, now)))
    ensures Runs.BCell(Shadowed(v, now), PULLED) == Cell(Some(Entry(v, 5, None)), Some(TombEntry(9, now)))
  {
    PulledKey();
    TombInjective(PULLED, PULLED);
    TombLives(9, now);
  }

  lemma StepsAtBox(h: seq<Runs.Sys>, key: string, clock: nat, i: nat, j: nat)
    requires h != []
    ensures
      var s := h[|h| - 1];
      && Runs.Apply(h, Runs.ClientDelete(true, key, clock)) ==
         s.(d := s.d.(box := ClockedDelete(s.d.box, key, clock, s.now)))
      && Runs.Apply(h, Runs.PullStep(key, i, j)) == s.(d := s.d.(box := Runs.PulledBox(h, key, i, j)))
  {
    hide ClockedPut, ClockedDelete, Runs.PulledBox, MirrorPut, MirrorDelete, DeleteLocal, Registry.Handle;
  }

  lemma DeletedAtBox(v: Val, now: nat)
    ensures Runs.Apply([Before(v, now)], SHADOWING[0]) == Deleted(v, now)
  {
    PulledKey();
    StepsAtBox([Before(v, now)], PULLED, 9, 0, 0);
    hide Runs.Apply, Mirrorable, ClockedDelete, TombEntry, FilePath.Split, FilePath.Canonical;
    DeletedFromNothing(PULLED, 9, now);
  }

  lemma DeletedFromNothing(key: string, clock: nat, now: nat)
    requires Mirrorable(key)
    ensures ClockedDelete(map[], key, clock, now) == map[Tomb(key) := TombEntry(clock, now)]
  {
    hide TombEntry;
    var none: Store<Val> := map[];
    assert none - {key} == none;
  }

  lemma PulledOver(v: Val, now: nat)
    ensures
      Pull(Deleted(v, now).d.box, Before(v, now).d.worker, PULLED, AsValue(5, None), now).0 ==
      Shadowed(v, now).d.box
  {
    PulledKey();
    TombInjective(PULLED, PULLED);
    hide FilePath.Split, TombEntry;
    assert Written(v, Never, 5, now) == Entry(v, 5, None);
  }

  lemma PulledStale(v: Val, now: nat)
    ensures Runs.Apply([Before(v, now), Deleted(v, now)], SHADOWING[1]) == Shadowed(v, now)
  {
    var h := [Before(v, now), Deleted(v, now)];
    PulledKey();
    PulledCells(v, now);
    PulledOver(v, now);
    StepsAtBox(h, PULLED, 9, 0, 0);
    hide Runs.Apply, Runs.WCell, Runs.BCell, Pull, TombEntry, Mirrored;
    PulledByListing(h, PULLED);
  }

  lemma PulledByListing(h: seq<Runs.Sys>, key: string)
    requires h != [] && Mirrored(key)
    requires SideOf(Runs.BCell(h[0], key)) == Absent && SideOf(Runs.WCell(h[0], key)).AsValue?
    ensures
      var s := h[|h| - 1];
      Runs.PulledBox(h, key, 0, 0) == Pull(s.d.box, s.d.worker, key, SideOf(Runs.WCell(h[0], key)), s.now).0
  {
    hide Pull, CellOf, Mirrored;
  }

  /** The box is empty and the worker holds the key at clock 5. The box lists both, a client then deletes
      the key at the box at clock 9, and the box makes the pull its old listings call for: it ends with
      the value of clock 5 beside the tombstone of clock 9. */
  lemma PulledIntoShadow(v: Val, now: nat)
    ensures
      var h := [Before(v, now), Deleted(v, now), Shadowed(v, now)];
      && Runs.IsRun(h, SHADOWING) && Runs.AllFairToWorker(h, SHADOWING, PULLED)
      && NoShadow(Runs.BCell(h[0], PULLED)) && NoShadow(Runs.BCell(h[1], PULLED))
      && !NoShadow(Runs.BCell(h[2], PULLED))
  {
    PulledCells(v, now);
    DeletedAtBox(v, now);
    PulledStale(v, now);
    var h := [Before(v, now), Deleted(v, now), Shadowed(v, now)];
    assert h[..1] == [h[0]] && h[..2] == [h[0], h[1]];
    hide Runs.Apply, Runs.BCell, Before, Deleted, Shadowed;
  }

  /******* An offer signed and not stored *******/

  function Zeros(n: nat): (s: string)
    ensures |s| == n && forall i :: 0 <= i < n ==> s[i] == '0'
  { if n == 0 then "" else "0" + Zeros(n - 1) }

  function OneRoute(): Json {
    Obj(map[Reach := Str("direct"), Endpoint := Str("https://a"), WssUrl := Str("wss://a")])
  }

  /** A registration with one route and a silent-payment index, and no filter server. */
  function OfferBody(): Json {
    Obj(map[
      Name := Str("a"), Pubkey := Str(Zeros(66)), Endpoint := Str("https://a"), WssUrl := Str("wss://a"),
      FeePpm := Num(Int(1)), Signature := Str("s"), Ts := Num(Int(1)), FilterSp := Bool(true),
      RoutesList := Arr([OneRoute()])])
  }

  lemma OfferAddresses()
    ensures Normalise.IsPlainAddress("https://a", Normalise.HTTPS) && Normalise.IsPlainAddress("wss://a", Normalise.WSS)
  {
    var h, w := "https://a", "wss://a";
    assert Normalise.HTTPS <= h && h[|Normalise.HTTPS|..] == "a";
    assert Normalise.WSS <= w && w[|Normalise.WSS|..] == "a";
    assert "a"[1..] == "";
    assert h[|h| - 1] == 'a' && w[|w| - 1] == 'a';
  }

  lemma OfferRouteOk()
    ensures Normalise.RouteOk(OneRoute())
    ensures Normalise.RouteFrom(OneRoute()) == Route("direct", "https://a", "wss://a", None)
  {
    hide Normalise.IsAddress, Normalise.IsPlainAddress;
    OfferAddresses();
    assert String(Str("https://a")) == "https://a" && "wss://a" != "" && "https://a" != "";
  }

  lemma OfferFields()
    ensures
      var b := OfferBody();
      && Get(b, Name) == Str("a") && Get(b, Pubkey) == Str(Zeros(66)) && Get(b, Endpoint) == Str("https://a")
      && Get(b, WssUrl) == Str("wss://a") && Get(b, FeePpm) == Num(Int(1)) && Get(b, Signature) == Str("s")
      && Get(b, Ts) == Num(Int(1)) && Get(b, FilterSp) == Bool(true) && Get(b, RoutesList) == Arr([OneRoute()])
      && Get(b, RouteEndpoint) == Undefined && Get(b, RouteMacaroon) == Undefined && Get(b, FilterUrl) == Undefined
      && Get(b, TataraBlock) == Undefined
  {
    hide OneRoute, Zeros;
  }

  lemma OfferFieldsOk(num: string -> JsNum)
    ensures Normalise.FieldsOk(OfferBody(), num)
  {
    OfferFields();
    OfferAddresses();
    hide OfferBody, Get, OneRoute, Normalise.IsPlainAddress;
    assert Normalise.Units("a") == 1 by { assert "a"[1..] == ""; }
  }

  lemma OfferCoerced(num: string -> JsNum)
    ensures Normalise.Coerce(OfferBody(), num).Some?
  {
    OfferFields();
    OfferFieldsOk(num);
    OfferRoutes();
    hide OfferBody, Get, OneRoute, Normalise.CleanRoutes, Normalise.FieldsOk, Normalise.IsPlainAddress, Zeros;
  }

  lemma OfferRoutes()
    ensures
      Normalise.CleanRoutes(Arr([OneRoute()])) ==
      Normalise.Clean([Route("direct", "https://a", "wss://a", None)])
  {
    OfferRouteOk();
    hide OneRoute, Normalise.RouteOk, Normalise.RouteFrom;
    assert [OneRoute()][1..] == [];
    assert Normalise.RoutesFrom([OneRoute()]) == [Normalise.RouteFrom(OneRoute())];
  }

  /** The body is accepted, and the message its signer signed is not the stored record's. */
  lemma OfferIsDropped(num: string -> JsNum)
    ensures
      var b := OfferBody();
      var r := Normalise.Coerce(b, num);
      r.Some? && RegisterMsg.CanonicalRegisterMsg(b, num) !=
                 RegisterMsg.CanonicalRegisterMsg(RegisterMsg.RecordJson(r.value), num)
  {
    hide Normalise.Coerce, RegisterMsg.CanonicalRegisterMsg, RegisterMsg.RecordJson;
    OfferCoerced(num);
    Normalise.TextKeptIff(OfferBody(), Normalise.Coerce(OfferBody(), num).value, num);
  }

  /******* A key that is never reached *******/

  const LAST := "zz"

  /** Two-letter names, before the last. */
  function Letters(i: nat): string
    requires i < 300
  { ['a' + (i / 26) as char, 'a' + (i % 26) as char] }

  function FirstNames(n: nat): set<string>
    requires n <= 300
  { set i | 0 <= i < n :: Letters(i) }

  lemma {:induction false} FirstNamesSize(n: nat)
    requires n <= 300
    ensures |FirstNames(n)| == n
  {
    hide Letters;
    if n > 0 {
      FirstNamesSize(n - 1);
      forall i | 0 <= i < n - 1 ensures Letters(i) != Letters(n - 1) { LettersDiffer(i, n - 1); }
      assert FirstNames(n) == FirstNames(n - 1) + {Letters(n - 1)};
    }
  }

  lemma LettersDiffer(i: nat, j: nat)
    requires i < 300 && j < 300 && i != j
    ensures Letters(i) != Letters(j)
  {
    var a, b := Letters(i), Letters(j);
    assert a[0] as int == 'a' as int + i / 26 && a[1] as int == 'a' as int + i % 26;
    assert b[0] as int == 'a' as int + j / 26 && b[1] as int == 'a' as int + j % 26;
  }

  predicate TwoLetters(s: string) { |s| == 2 && 'a' <= s[0] <= 'z' && 'a' <= s[1] <= 'z' }

  lemma LettersFacts(s: string)
    requires TwoLetters(s)
    ensures Mirrored(s) && Fits(s) && FilePath.Canonical(s) && !Guarded(s)
  {
    assert Without(s, ':');
    FilePath.NoColon(s);
    assert s[1..] == [s[1]] && s[1..][1..] == "";
    assert Percent(s[1..], FilePath.SafeChar) == [s[1]];
    assert Percent(s, FilePath.SafeChar) == [s[0]] + [s[1]];
  }

  function Held5(): Entry<Val> { Entry(Plain("x"), 5, None) }

  /** Three hundred names that the box holds at the very clock of the worker's tombstone, and one more
      that it alone holds. */
  function StarvedDoors(now: nat): Pair {
    var names := FirstNames(300);
    Pair(map k | k in names + {LAST} :: Held5(),
         map k | k in Tombs(names) :: TombEntry(5, now))
  }

  function Tombs(names: set<string>): set<string> { set n | n in names :: Tomb(n) }

  lemma StarvedCells(now: nat, n: string)
    requires Mirrored(n)
    ensures
      var v, t, none := Some(Held5()), Some(TombEntry(5, now)), None;
      Convergence.CellsOf(StarvedDoors(now), n, now) ==
      if n in FirstNames(300) then Convergence.Cells(Cell(v, none), Cell(none, t))
      else if n == LAST then Convergence.Cells(Cell(v, none), Cell(none, none))
      else Convergence.Cells(Cell(none, none), Cell(none, none))
  {
    var d, names := StarvedDoors(now), FirstNames(300);
    TombLives(5, now);
    TombInjective(n, n);
    assert forall k :: k in names ==> |k| == 2;
    assert |Tomb(n)| >= 5;
    forall k | k in names && Tomb(k) == Tomb(n) ensures k == n { TombInjective(k, n); }
    forall k ensures k in d.worker ==> IsTomb(k) { }
  }

  lemma StarvedNames(n: string)
    requires n in FirstNames(300)
    ensures TwoLetters(n) && n != LAST && Less(n, LAST)
  {
    var i :| 0 <= i < 300 && Letters(i) == n;
    assert n[0] < 'z' && LAST[0] == 'z';
  }

  lemma StarvedKey(now: nat, horizon: nat, n: string)
    requires Mirrored(n) && now <= horizon && horizon + 61000 <= now + TOMB_TTL_S * 1000
    ensures
      var c := Convergence.CellsOf(StarvedDoors(now), n, now);
      && Convergence.Promising(n, c, horizon)
      && (n in FirstNames(300) ==> !Convergence.Level(c) && !Convergence.Movable(n, c, now))
      && (n == LAST ==> !Convergence.Level(c) && Convergence.Movable(n, c, now))
  {
    StarvedCells(now, n);
    if n in FirstNames(300) { StarvedNames(n); }
    if n in FirstNames(300) || n == LAST { LettersFacts(n); }
    hide Convergence.CellsOf, FirstNames, Fits, FilePath.Canonical;
  }

  lemma StarvedSize(now: nat)
    ensures
      var d := StarvedDoors(now);
      |d.box.Keys + d.worker.Keys| <= 100 * 1000
  {
    var names := FirstNames(300);
    var d := StarvedDoors(now);
    FirstNamesSize(300);
    TombsNoMore(names);
    assert d.box.Keys == names + {LAST} && d.worker.Keys == Tombs(names);
    hide StarvedDoors, Tombs, FirstNames;
    var a, b := names + {LAST}, Tombs(names);
    UnionSize(names, {LAST});
    UnionSize(a, b);
  }

  lemma UnionSize(a: set<string>, b: set<string>)
    ensures |a + b| <= |a| + |b|
  {
    assert a + b == a + (b - a);
    Convergence.SetSizes(b - a, b);
  }

  lemma {:induction false} TombsNoMore(names: set<string>)
    ensures |Tombs(names)| <= |names|
    decreases |names|
  {
    if names != {} {
      var m :| m in names;
      TombsNoMore(names - {m});
      assert Tombs(names) == Tombs(names - {m}) + {Tomb(m)};
    }
  }

  lemma StarvedQuiet(now: nat, horizon: nat)
    requires now <= horizon && horizon + 61000 <= now + TOMB_TTL_S * 1000
    ensures
      var d := StarvedDoors(now);
      Convergence.Quiet(d, now, horizon, d.box.Keys + d.worker.Keys)
  {
    StarvedSize(now);
    hide StarvedDoors, Convergence.CellsOf, Convergence.Promising, Mirrored, FirstNames;
    forall n | Mirrored(n) ensures Convergence.Promising(n, Convergence.CellsOf(StarvedDoors(now), n, now), horizon) {
      StarvedKey(now, horizon, n);
    }
  }

  /** The last key waits, behind the three hundred refused ones. */
  lemma StarvedOrder(now: nat)
    ensures LAST in Convergence.Waiting(StarvedDoors(now), now)
    ensures |Convergence.Before(Convergence.Refused(StarvedDoors(now), now), LAST)| >= MAX_OPS
  {
    var d, names := StarvedDoors(now), FirstNames(300);
    LettersFacts(LAST);
    Convergence.UnlevelIsAll(d, now);
    hide StarvedDoors, Convergence.CellsOf, Convergence.Movable, Convergence.Level, Convergence.Promising, Less;
    hide Mirrored, Convergence.Unlevel, Fits;
    StarvedKey(now, now, LAST);
    var before := Convergence.Before(Convergence.Refused(d, now), LAST);
    forall n | n in names ensures n in before {
      StarvedNames(n);
      LettersFacts(n);
      StarvedKey(now, now, n);
    }
    hide FirstNames, Convergence.Before, Convergence.Refused;
    FirstNamesSize(300);
    Convergence.SetSizes(names, before);
  }

  /** These doors are quiet, the receiving side would take the last key, and no number of cycles levels
      it. */
  lemma NeverReached(now: nat, horizon: nat, times: seq<nat>)
    requires now <= horizon && horizon + 61000 <= now + TOMB_TTL_S * 1000
    requires Convergence.Rising(times, now, horizon)
    ensures
      var d := StarvedDoors(now);
      var keys := d.box.Keys + d.worker.Keys;
      && Convergence.Quiet(d, now, horizon, keys) && LAST in Convergence.Waiting(d, now)
      && Convergence.CellsOf(Convergence.Cycles(d, times), LAST, horizon) == Convergence.CellsOf(d, LAST, now)
      && !Convergence.Level(Convergence.CellsOf(d, LAST, now))
  {
    var d := StarvedDoors(now);
    StarvedQuiet(now, horizon);
    StarvedOrder(now);
    hide StarvedDoors, Convergence.Quiet, Convergence.Waiting, Convergence.Refused, Convergence.Before;
    hide Convergence.Level, Convergence.CellsOf;
    Convergence.TakenIff(d, times, now, horizon, d.box.Keys + d.worker.Keys, LAST);
    Convergence.WaitingIsUnlevel(d, now, LAST);
  }
}

/**
 The rules both doors share (lij-worker/src/mirror.js): which keys are mirrored, tombstones, the
 record guards, and the store that stamps a clock on every write.
 */
module MirrorRules {
  import opened Text
  import opened Kv
  import opened Records

  const SKIP_PREFIX := "bkpchal:"
  const TOMB_PREFIX := "tomb:"
  const TOMB_TTL_S := 7 * 24 * 3600

  predicate Mirrorable(key: string) { key != "" && !(SKIP_PREFIX <= key) }

  predicate IsTomb(key: string) { TOMB_PREFIX <= key }

  function Tomb(name: string): string { TOMB_PREFIX + name }

  /** A key the two doors keep level. */
  predicate Mirrored(name: string) { Mirrorable(name) && !IsTomb(name) }

  /** Whether `incoming` may replace what is stored: a registration never goes back in signed `ts`,
      a copy never in number. */
  predicate RecordAllows(key: string, incoming: Val, stored: Option<Val>) {
    match stored
    case None => true
    case Some(was) =>
      if "lsp:" <= key then TsOf(incoming).Some? && TsOf(was).Some? ==> TsOf(incoming).value >= TsOf(was).value
      else if "backup:" <= key then
        VersionOf(incoming).Some? && VersionOf(was).Some? ==> VersionOf(incoming).value >= VersionOf(was).value
      else true
  }

  /** The guard refuses exactly a record of a lower number than the stored one's, where both have one. */
  lemma GuardRefusesIff(key: string, incoming: Val, stored: Option<Val>)
    ensures
      !RecordAllows(key, incoming, stored) <==>
      stored.Some? && (
        ("lsp:" <= key && TsOf(incoming).Some? && TsOf(stored.value).Some? &&
         TsOf(incoming).value < TsOf(stored.value).value)
        || ("backup:" <= key && incoming.Copy? && stored.value.Copy? &&
            -9007199254740991 <= incoming.version < stored.value.version <= 9007199254740991))
    ensures incoming.Lsp? ==> TsOf(incoming) == Some(incoming.rec.ts)
  {
    assert "lsp:" <= key ==> key[0] == 'l';
    assert "backup:" <= key ==> key[0] == 'b';
  }

  predicate Guarded(key: string) { "lsp:" <= key || "backup:" <= key }

  /** The two entries that decide a key's state at a door: its value and its tombstone. */
  datatype Cell = Cell(v: Option<Entry<Val>>, t: Option<Entry<Val>>)

  function CellOf(s: Store<Val>, name: string, now: nat): Cell {
    Cell(Find(s, name, now), Find(s, Tomb(name), now))
  }

  /** The number a guard compares: a registration's signed `ts`, a copy's version. */
  function NumberOf(name: string, v: Val): Option<int> {
    if "lsp:" <= name then TsOf(v) else if "backup:" <= name then VersionOf(v) else None
  }

  function Held(x: Cell): Option<Val> { if x.v.Some? then Some(x.v.value.value) else None }

  function Clock(e: Option<Entry<Val>>): nat { if e.Some? then e.value.c else 0 }

  function Max(a: nat, b: nat): nat { if a < b then b else a }

  /** The effective clock: the newest of the value's and the tombstone's. */
  function Eff(x: Cell): nat { Max(Clock(x.v), Clock(x.t)) }

  /** No value stands in the shadow of a newer tombstone. */
  predicate NoShadow(x: Cell) { x.v.Some? && x.t.Some? ==> x.v.value.c >= x.t.value.c }

  function TombEntry(clock: nat, now: nat): Entry<Val> {
    Entry(Plain("1"), clock, ExpiresAt(Ttl(TOMB_TTL_S), now))
  }

  /** A tombstone holds its clock for seven days, to within a second. */
  lemma TombLasts(clock: nat, now: nat, t: nat)
    ensures
      var e := TombEntry(clock, now);
      && e.value == Plain("1") && e.c == clock
      && (t + 1000 <= now + 7 * 24 * 3600 * 1000 ==> Live(e, t)) && (t >= now + 7 * 24 * 3600 * 1000 ==> !Live(e, t))
  {
    PutLasts(Plain("1"), clock, Ttl(7 * 24 * 3600), now, t);
  }

  /** The keys the mirror keeps level: all but an open challenge and a tombstone, which no key is twice. */
  lemma MirroredIff(name: string)
    ensures Mirrored(name) <==> name != "" && !("bkpchal:" <= name) && !("tomb:" <= name)
    ensures Tomb(name) == "tomb:" + name
  {
  }

  /******* The clocked store *******/

  function ClockedPut(s: Store<Val>, key: string, value: Val, x: Expiry, clock: nat, now: nat): Store<Val> {
    s[key := Entry(value, if Mirrorable(key) then clock else 0, ExpiresAt(x, now))]
  }

  function ClockedDelete(s: Store<Val>, key: string, clock: nat, now: nat): Store<Val> {
    if Mirrorable(key) then (s - {key})[Tomb(key) := TombEntry(clock, now)] else s - {key}
  }

  lemma TombInjective(a: string, b: string)
    ensures Tomb(a) == Tomb(b) ==> a == b
    ensures IsTomb(Tomb(a)) && Mirrorable(Tomb(a))
  {
    assert Tomb(a)[5..] == a && Tomb(b)[5..] == b;
    assert Tomb(a)[0] == 't' && SKIP_PREFIX[0] == 'b';
  }

  /** A write to one key is a write to that key's cell alone. */
  lemma OtherCell(s: Store<Val>, s': Store<Val>, key: string, name: string, now: nat)
    requires !IsTomb(key) && !IsTomb(name) && name != key
    requires forall k :: k != key && k != Tomb(key) ==> (k in s <==> k in s') && (k in s ==> s[k] == s'[k])
    ensures CellOf(s', name, now) == CellOf(s, name, now)
  {
    TombInjective(key, name);
    TombInjective(name, key);
  }

  lemma ClockedPutCell(s: Store<Val>, key: string, value: Val, x: Expiry, clock: nat, now: nat)
    requires Mirrored(key)
    ensures
      var e := Entry(value, clock, ExpiresAt(x, now));
      CellOf(ClockedPut(s, key, value, x, clock, now), key, now) ==
      CellOf(s, key, now).(v := if Live(e, now) then Some(e) else None)
  {
    TombInjective(key, key);
  }

  lemma ClockedDeleteCell(s: Store<Val>, key: string, clock: nat, now: nat)
    requires Mirrored(key)
    ensures CellOf(ClockedDelete(s, key, clock, now), key, now) == Cell(None, Some(TombEntry(clock, now)))
  {
    TombInjective(key, key);
  }

  /******* Transparency *******/

  datatype Access = Read(key: string) | Write(key: string, value: Val, x: Expiry) | Remove(key: string)

  /** One request of a client, with its clock and the time it runs at. */
  datatype Call = Call(req: Access, clock: nat, now: nat)

  function ClockedStep(s: Store<Val>, c: Call): Store<Val> {
    match c.req
    case Read(_) => s
    case Write(key, value, x) => ClockedPut(s, key, value, x, c.clock, c.now)
    case Remove(key) => ClockedDelete(s, key, c.clock, c.now)
  }

  function BareStep(s: Store<Val>, c: Call): Store<Val> {
    match c.req
    case Read(_) => s
    case Write(key, value, x) => s[key := Entry(value, 0, ExpiresAt(x, c.now))]
    case Remove(key) => s - {key}
  }

  function Reply(s: Store<Val>, c: Call): Option<Val> {
    match c.req
    case Read(key) => (match Find(s, key, c.now) case Some(e) => Some(e.value) case None => None)
    case _ => None
  }

  function ClockedRun(s: Store<Val>, calls: seq<Call>): (Store<Val>, seq<Option<Val>>)
    decreases |calls|
  {
    if calls == [] then (s, [])
    else
      var (s', rest) := ClockedRun(ClockedStep(s, calls[0]), calls[1..]);
      (s', [Reply(s, calls[0])] + rest)
  }

  function BareRun(s: Store<Val>, calls: seq<Call>): (Store<Val>, seq<Option<Val>>)
    decreases |calls|
  {
    if calls == [] then (s, [])
    else
      var (s', rest) := BareRun(BareStep(s, calls[0]), calls[1..]);
      (s', [Reply(s, calls[0])] + rest)
  }

  /** The stores hold the same values and expiries outside the tombstones. */
  ghost predicate Alike(a: Store<Val>, b: Store<Val>) {
    forall k :: !IsTomb(k) ==> (k in a <==> k in b) && (k in a ==> a[k].value == b[k].value && a[k].exp == b[k].exp)
  }

  /** Clocking is transparent: outside the tombstones every read of every run answers as it would on
      the bare store, and the stores end up alike. */
  lemma {:induction false} ClockingIsTransparent(a: Store<Val>, b: Store<Val>, calls: seq<Call>)
    requires Alike(a, b) && forall c :: c in calls ==> !IsTomb(c.req.key)
    ensures ClockedRun(a, calls).1 == BareRun(b, calls).1
    ensures Alike(ClockedRun(a, calls).0, BareRun(b, calls).0)
    decreases |calls|
  {
    if calls != [] {
      var c := calls[0];
      assert c in calls;
      TombInjective(c.req.key, c.req.key);
      assert Alike(ClockedStep(a, c), BareStep(b, c));
      ClockingIsTransparent(ClockedStep(a, c), BareStep(b, c), calls[1..]);
    }
  }

  /** An open challenge gets neither a clock nor a tombstone, whatever the run. */
  ghost predicate ChallengesUnclocked(s: Store<Val>) {
    forall k :: SKIP_PREFIX <= k ==> (k in s ==> s[k].c == 0) && Tomb(k) !in s
  }

  lemma {:induction false} ChallengesStayUnclocked(s: Store<Val>, calls: seq<Call>)
    requires ChallengesUnclocked(s) && forall c :: c in calls ==> !IsTomb(c.req.key)
    ensures ChallengesUnclocked(ClockedRun(s, calls).0)
    decreases |calls|
  {
    if calls != [] {
      var c := calls[0];
      assert c in calls;
      forall k | SKIP_PREFIX <= k ensures Tomb(k) != c.req.key && (Tomb(k) == Tomb(c.req.key) ==> k == c.req.key) {
        TombInjective(k, c.req.key);
      }
      TombInjective(c.req.key, c.req.key);
      ChallengesStayUnclocked(ClockedStep(s, c), calls[1..]);
    }
  }

  /** A delete leaves a tombstone at its request's clock, and it stays until the next delete of the key. */
  lemma {:induction false} DeleteLeavesTombstone(s: Store<Val>, calls: seq<Call>, key: string, clock: nat, now: nat)
    requires Mirrored(key) && forall c :: c in calls ==> !IsTomb(c.req.key) && c.req != Remove(key)
    requires Tomb(key) in s && s[Tomb(key)] == TombEntry(clock, now)
    ensures Tomb(key) in ClockedRun(s, calls).0 && ClockedRun(s, calls).0[Tomb(key)] == TombEntry(clock, now)
    decreases |calls|
  {
    if calls != [] {
      var c := calls[0];
      assert c in calls;
      TombInjective(key, c.req.key);
      DeleteLeavesTombstone(ClockedStep(s, c), calls[1..], key, clock, now);
    }
  }
}

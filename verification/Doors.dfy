/**
 A door of the registry: its store, the client's clocked writes, and the worker's mirror routes
 (lij-worker/src/index.js).
 */
module Doors {
  import opened Text
  import opened Kv
  import opened Records
  import opened MirrorRules

  /** What a /mirror/put or /mirror/delete answers. */
  datatype Verdict = Applied | NotNewer | DeletedLater | RecordRule | Expiring | Refused

  /** A /mirror/put call: the bytes, the clock they are put under, and the expiry (none: 0 or less). */
  datatype PutCall = PutCall(value: Val, clock: int, exp: int)

  predicate CallRefused(key: string, clock: int) {
    !Mirrorable(key) || |key| > 300 || clock <= 0 || IsTomb(key)
  }

  /** An expiry less than a minute away. */
  predicate TooSoon(exp: int, now: nat) { exp > 0 && exp * 1000 < now + 60000 }

  function PutVerdict(key: string, x: Cell, p: PutCall, now: nat): Verdict {
    if CallRefused(key, p.clock) then Refused
    else if x.v.Some? && x.v.value.c >= p.clock then NotNewer
    else if x.t.Some? && x.t.value.c >= p.clock then DeletedLater
    else if !RecordAllows(key, p.value, if x.v.Some? then Some(x.v.value.value) else None) then RecordRule
    else if TooSoon(p.exp, now) then Expiring
    else Applied
  }

  function PutEntry(p: PutCall): Entry<Val>
    requires p.clock > 0
  { Entry(p.value, p.clock, if p.exp > 0 then Some(p.exp) else None) }

  function MirrorPut(s: Store<Val>, key: string, p: PutCall, now: nat): (Store<Val>, Verdict) {
    var verdict := PutVerdict(key, CellOf(s, key, now), p, now);
    (if verdict == Applied then s[key := PutEntry(p)] else s, verdict)
  }

  function DeleteVerdict(key: string, x: Cell, clock: int): Verdict {
    if CallRefused(key, clock) then Refused
    else if x.v.Some? && x.v.value.c >= clock then NotNewer
    else if x.t.Some? && x.t.value.c >= clock then DeletedLater
    else Applied
  }

  function MirrorDelete(s: Store<Val>, key: string, clock: int, now: nat): (Store<Val>, Verdict) {
    var verdict := DeleteVerdict(key, CellOf(s, key, now), clock);
    if verdict != Applied then (s, verdict)
    else
      var s' := if CellOf(s, key, now).v.Some? then s - {key} else s;
      (s'[Tomb(key) := TombEntry(clock, now)], Applied)
  }

  /** Whether the store holds something live under a key at the clock or a newer one. */
  predicate AsNew(s: Store<Val>, key: string, clock: int, now: nat) {
    key in s && (s[key].exp.None? || now < 1000 * s[key].exp.value) && s[key].c >= clock
  }

  predicate NoCall(key: string, clock: int) {
    key == "" || "bkpchal:" <= key || "tomb:" <= key || |key| > 300 || clock <= 0
  }

  /** The answers of a put, each on its own condition, and what an applied one changes: the key's entry,
      to the bytes, clock and expiry that came, and nothing else. */
  lemma PutAnswers(s: Store<Val>, key: string, p: PutCall, now: nat)
    ensures
      var (s', verdict) := MirrorPut(s, key, p, now);
      var stored := if key in s && Live(s[key], now) then Some(s[key].value) else None;
      var older := !NoCall(key, p.clock) && !AsNew(s, key, p.clock, now) && !AsNew(s, "tomb:" + key, p.clock, now);
      && (verdict == Refused <==> NoCall(key, p.clock))
      && (verdict == NotNewer <==> !NoCall(key, p.clock) && AsNew(s, key, p.clock, now))
      && (verdict == DeletedLater <==>
           !NoCall(key, p.clock) && !AsNew(s, key, p.clock, now) && AsNew(s, "tomb:" + key, p.clock, now))
      && (verdict == RecordRule <==> older && !RecordAllows(key, p.value, stored))
      && (verdict == Expiring <==>
           older && RecordAllows(key, p.value, stored) && 0 < p.exp && 1000 * p.exp < now + 60 * 1000)
      && (verdict != Applied ==> s' == s)
      && (verdict == Applied ==>
           s' == s[key := Entry(p.value, p.clock, if p.exp > 0 then Some(p.exp) else None)])
  {
    hide RecordAllows;
  }

  /** The answers of a delete, and what an applied one leaves: no value, a tombstone of seven days at the
      clock that came, and all else as it was. */
  lemma DeleteAnswers(s: Store<Val>, key: string, clock: int, now: nat)
    ensures
      var (s', verdict) := MirrorDelete(s, key, clock, now);
      && (verdict == Refused <==> NoCall(key, clock))
      && (verdict == NotNewer <==> !NoCall(key, clock) && AsNew(s, key, clock, now))
      && (verdict == DeletedLater <==>
           !NoCall(key, clock) && !AsNew(s, key, clock, now) && AsNew(s, "tomb:" + key, clock, now))
      && (verdict == Applied <==>
           !NoCall(key, clock) && !AsNew(s, key, clock, now) && !AsNew(s, "tomb:" + key, clock, now))
      && (verdict != Applied ==> s' == s)
      && (verdict == Applied ==>
           && (key in s' ==> !Live(s'[key], now))
           && "tomb:" + key in s'
           && s'["tomb:" + key] == Entry(Plain("1"), clock, Some(now / 1000 + 7 * 24 * 3600))
           && forall k :: k != key && k != "tomb:" + key ==>
                (k in s' <==> k in s) && (k in s ==> s'[k] == s[k]))
  {
  }

  class Door {
    var kv: Store<Val>

    constructor ()
      ensures kv == map[]
    {
      kv := map[];
    }

    method Put(key: string, value: Val, x: Expiry, clock: nat, now: nat)
      modifies this
      ensures kv == ClockedPut(old(kv), key, value, x, clock, now)
    {
      var c := if Mirrorable(key) then clock else 0;
      kv := kv[key := Entry(value, c, ExpiresAt(x, now))];
    }

    method Delete(key: string, clock: nat, now: nat)
      modifies this
      ensures kv == ClockedDelete(old(kv), key, clock, now)
    {
      kv := kv - {key};
      if Mirrorable(key) {
        kv := kv[Tomb(key) := TombEntry(clock, now)];
      }
    }

    /** POST /mirror/put */
    method TakePut(key: string, p: PutCall, now: nat) returns (verdict: Verdict)
      modifies this
      ensures (kv, verdict) == MirrorPut(old(kv), key, p, now)
    {
      if !Mirrorable(key) || |key| > 300 { return Refused; }
      if p.clock <= 0 { return Refused; }
      if IsTomb(key) { return Refused; }
      var cur := Find(kv, key, now);
      if cur.Some? && cur.value.c >= p.clock { return NotNewer; }
      var tomb := Find(kv, Tomb(key), now);
      if tomb.Some? && tomb.value.c >= p.clock { return DeletedLater; }
      var stored := if cur.Some? then Some(cur.value.value) else None;
      if !RecordAllows(key, p.value, stored) { return RecordRule; }
      var exp := None;
      if p.exp > 0 {
        if p.exp * 1000 < now + 60 * 1000 { return Expiring; }
        exp := Some(p.exp);
      }
      kv := kv[key := Entry(p.value, p.clock, exp)];
      return Applied;
    }

    /** POST /mirror/delete */
    method TakeDelete(key: string, clock: int, now: nat) returns (verdict: Verdict)
      modifies this
      ensures (kv, verdict) == MirrorDelete(old(kv), key, clock, now)
    {
      if !Mirrorable(key) || |key| > 300 { return Refused; }
      if clock <= 0 { return Refused; }
      if IsTomb(key) { return Refused; }
      var cur := Find(kv, key, now);
      if cur.Some? && cur.value.c >= clock { return NotNewer; }
      var tomb := Find(kv, Tomb(key), now);
      if tomb.Some? && tomb.value.c >= clock { return DeletedLater; }
      if cur.Some? {
        kv := kv - {key};
      }
      kv := kv[Tomb(key) := TombEntry(clock, now)];
      return Applied;
    }
  }

  /******* One call, one cell *******/

  lemma TombLives(clock: nat, now: nat)
    ensures Live(TombEntry(clock, now), now)
  {
  }

  lemma MirrorPutCell(s: Store<Val>, key: string, p: PutCall, now: nat)
    requires PutVerdict(key, CellOf(s, key, now), p, now) == Applied
    ensures CellOf(MirrorPut(s, key, p, now).0, key, now) == CellOf(s, key, now).(v := Some(PutEntry(p)))
  {
    TombInjective(key, key);
  }

  lemma MirrorDeleteCell(s: Store<Val>, key: string, clock: int, now: nat)
    requires DeleteVerdict(key, CellOf(s, key, now), clock) == Applied
    ensures CellOf(MirrorDelete(s, key, clock, now).0, key, now) == Cell(None, Some(TombEntry(clock, now)))
  {
    TombInjective(key, key);
    TombLives(clock, now);
  }

  /** A mirror call touches no other key. */
  lemma MirrorOtherCell(s: Store<Val>, key: string, p: PutCall, clock: int, name: string, now: nat)
    requires !IsTomb(name) && name != key
    ensures CellOf(MirrorPut(s, key, p, now).0, name, now) == CellOf(s, name, now)
    ensures CellOf(MirrorDelete(s, key, clock, now).0, name, now) == CellOf(s, name, now)
  {
    if !IsTomb(key) {
      OtherCell(s, MirrorPut(s, key, p, now).0, key, name, now);
      OtherCell(s, MirrorDelete(s, key, clock, now).0, key, name, now);
    }
  }

  /** The worker's routes never lower a key's effective clock and never put a value in a tombstone's
      shadow, whatever they are called with. */
  lemma MirrorCallsOnlyRaise(s: Store<Val>, key: string, p: PutCall, clock: int, name: string, now: nat)
    requires Mirrored(name) && NoShadow(CellOf(s, name, now))
    ensures
      var x := CellOf(MirrorPut(s, key, p, now).0, name, now);
      NoShadow(x) && Eff(x) >= Eff(CellOf(s, name, now))
    ensures
      var x := CellOf(MirrorDelete(s, key, clock, now).0, name, now);
      NoShadow(x) && Eff(x) >= Eff(CellOf(s, name, now))
  {
    if name != key {
      MirrorOtherCell(s, key, p, clock, name, now);
    } else {
      if PutVerdict(key, CellOf(s, key, now), p, now) == Applied { MirrorPutCell(s, key, p, now); }
      if DeleteVerdict(key, CellOf(s, key, now), clock) == Applied { MirrorDeleteCell(s, key, clock, now); }
    }
  }

  /******* Order independence *******/

  datatype MirrorOp = PutOp(p: PutCall) | DeleteOp(clock: int)

  function OpClock(op: MirrorOp): int { if op.PutOp? then op.p.clock else op.clock }

  function ApplyOp(s: Store<Val>, key: string, op: MirrorOp, now: nat): Store<Val> {
    if op.PutOp? then MirrorPut(s, key, op.p, now).0 else MirrorDelete(s, key, op.clock, now).0
  }

  /** Calls on one key and the times they come at. */
  type MirrorOps = seq<(MirrorOp, nat)>

  function ApplyAll(s: Store<Val>, key: string, ops: MirrorOps): Store<Val>
    decreases |ops|
  {
    if ops == [] then s else ApplyAll(ApplyOp(s, key, ops[0].0, ops[0].1), key, ops[1..])
  }

  /** What a key shows: its value, or that it was deleted, and the clock of that. */
  datatype Shown = Bare | Holds(value: Val, clock: nat) | Deleted(clock: nat)

  function Show(x: Cell): Shown {
    if x.v.Some? then Holds(x.v.value.value, x.v.value.c)
    else if x.t.Some? then Deleted(x.t.value.c)
    else Bare
  }

  function ShownBy(op: MirrorOp): Shown
    requires OpClock(op) > 0
  { if op.PutOp? then Holds(op.p.value, op.p.clock) else Deleted(op.clock) }

  /** Calls the worker takes on their merits: a positive clock and no expiry too soon. */
  ghost predicate WellFormedOps(ops: MirrorOps) {
    forall c :: c in ops ==> OpClock(c.0) > 0 && (c.0.PutOp? ==> !TooSoon(c.0.p.exp, c.1))
  }

  ghost predicate DistinctClocks(ops: MirrorOps) {
    forall a, b :: a in ops && b in ops && OpClock(a.0) == OpClock(b.0) ==> a.0 == b.0
  }

  ghost predicate Makes(ops: MirrorOps, op: MirrorOp) { exists c :: c in ops && c.0 == op }

  ghost predicate Newest(op: MirrorOp, ops: MirrorOps) {
    Makes(ops, op) && forall c :: c in ops ==> OpClock(c.0) <= OpClock(op)
  }

  /** From `from` to `until` time only rises, and nothing the key has expires between two calls. */
  ghost predicate Steady(s: Store<Val>, key: string, ops: MirrorOps, from: nat, until: nat)
    decreases |ops|
  {
    var next := if ops == [] then until else ops[0].1;
    && from <= next && CellOf(s, key, next) == CellOf(s, key, from)
    && (ops != [] ==> Steady(ApplyOp(s, key, ops[0].0, next), key, ops[1..], next, until))
  }

  lemma NewestOf(ops: MirrorOps) returns (op: MirrorOp)
    requires ops != []
    ensures Newest(op, ops)
  {
    var c := NewestCall(ops);
    op := c.0;
  }

  lemma {:induction false} NewestCall(ops: MirrorOps) returns (c: (MirrorOp, nat))
    requires ops != []
    ensures c in ops && forall o :: o in ops ==> OpClock(o.0) <= OpClock(c.0)
  {
    c := ops[0];
    if |ops| > 1 {
      var best := NewestCall(ops[1..]);
      assert ops == [ops[0]] + ops[1..];
      c := if OpClock(best.0) > OpClock(ops[0].0) then best else ops[0];
    }
  }

  /** Any sequence of calls on an unguarded key leaves it showing the newest call, or what it showed
      if no call is newer than that. */
  lemma {:induction false} NewestWins(s: Store<Val>, key: string, ops: MirrorOps, from: nat, until: nat, op: MirrorOp)
    requires Mirrored(key) && |key| <= 300 && !Guarded(key) && NoShadow(CellOf(s, key, from))
    requires Steady(s, key, ops, from, until)
    requires WellFormedOps(ops) && DistinctClocks(ops) && Newest(op, ops)
    ensures
      var x, x' := CellOf(s, key, from), CellOf(ApplyAll(s, key, ops), key, until);
      && NoShadow(x') && Eff(x') == Max(Eff(x), OpClock(op))
      && Show(x') == (if OpClock(op) > Eff(x) then ShownBy(op) else Show(x))
    decreases |ops|
  {
    var (first, now) := ops[0];
    var rest, mid := ops[1..], ApplyOp(s, key, first, now);
    assert ops == [ops[0]] + rest && ops[0] in ops;
    assert forall c :: c in rest ==> c in ops;
    OneOp(s, key, first, now);
    hide ApplyOp, CellOf, NoShadow, Eff, Show;
    if rest != [] {
      var best := NewestCall(rest);
      assert Newest(best.0, rest);
      assert op == (if OpClock(best.0) >= OpClock(first) then best.0 else first) by {
        var c :| c in ops && c.0 == op;
        assert c == ops[0] || c in rest;
        assert best in ops;
      }
      NewestWins(mid, key, rest, now, until, best.0);
    } else {
      var c :| c in ops && c.0 == op;
      assert c == ops[0];
    }
  }

  lemma OneOp(s: Store<Val>, key: string, op: MirrorOp, now: nat)
    requires Mirrored(key) && |key| <= 300 && !Guarded(key) && NoShadow(CellOf(s, key, now))
    requires OpClock(op) > 0 && (op.PutOp? ==> !TooSoon(op.p.exp, now))
    ensures
      var x, x' := CellOf(s, key, now), CellOf(ApplyOp(s, key, op, now), key, now);
      && NoShadow(x') && Eff(x') == Max(Eff(x), OpClock(op))
      && Show(x') == (if OpClock(op) > Eff(x) then ShownBy(op) else Show(x))
  {
    var x := CellOf(s, key, now);
    if op.PutOp? {
      assert PutVerdict(key, x, op.p, now) == Applied <==> op.p.clock > Eff(x);
      if op.p.clock > Eff(x) { MirrorPutCell(s, key, op.p, now); }
    } else {
      assert DeleteVerdict(key, x, op.clock) == Applied <==> op.clock > Eff(x);
      if op.clock > Eff(x) { MirrorDeleteCell(s, key, op.clock, now); }
    }
  }

  /** The same calls in any two orders, each repeated any number of times, at whatever times, leave the
      key showing the same. */
  lemma OrderIndependence(s: Store<Val>, key: string, a: MirrorOps, b: MirrorOps, from: nat, untilA: nat, untilB: nat)
    requires Mirrored(key) && |key| <= 300 && !Guarded(key) && NoShadow(CellOf(s, key, from))
    requires Steady(s, key, a, from, untilA) && Steady(s, key, b, from, untilB)
    requires WellFormedOps(a) && DistinctClocks(a) && WellFormedOps(b)
    requires forall op :: Makes(a, op) <==> Makes(b, op)
    ensures Show(CellOf(ApplyAll(s, key, a), key, untilA)) == Show(CellOf(ApplyAll(s, key, b), key, untilB))
  {
    hide ApplyOp, CellOf, NoShadow, Show;
    if b != [] { SameOps(b, a, b[0]); }
    if a != [] {
      var op := NewestOf(a);
      forall c, d | c in b && d in b && OpClock(c.0) == OpClock(d.0) ensures c.0 == d.0 {
        SameOps(b, a, c);
        SameOps(b, a, d);
      }
      forall c | c in b ensures OpClock(c.0) <= OpClock(op) { SameOps(b, a, c); }
      NewestWins(s, key, a, from, untilA, op);
      NewestWins(s, key, b, from, untilB, op);
    }
  }

  lemma SameOps(a: MirrorOps, b: MirrorOps, c: (MirrorOp, nat))
    requires c in a
    requires forall op :: Makes(a, op) <==> Makes(b, op)
    ensures Makes(b, c.0)
  {
    assert Makes(a, c.0);
  }

  /** Two calls commute exactly when their clocks differ, or they show the same, or the store is newer
      than both: at one clock the first to come wins. */
  lemma SwapIff(s: Store<Val>, key: string, a: MirrorOp, b: MirrorOp, now: nat)
    requires Mirrored(key) && |key| <= 300 && !Guarded(key) && NoShadow(CellOf(s, key, now))
    requires WellFormedOps([(a, now), (b, now)])
    ensures
      var ab, ba := ApplyAll(s, key, [(a, now), (b, now)]), ApplyAll(s, key, [(b, now), (a, now)]);
      Show(CellOf(ab, key, now)) == Show(CellOf(ba, key, now))
      <==>
      OpClock(a) != OpClock(b) || ShownBy(a) == ShownBy(b) || OpClock(a) <= Eff(CellOf(s, key, now))
  {
    assert (a, now) in [(a, now), (b, now)] && (b, now) in [(a, now), (b, now)];
    ApplyTwo(s, key, a, b, now);
    ApplyTwo(s, key, b, a, now);
    OneOp(s, key, a, now);
    OneOp(s, key, b, now);
    OneOp(ApplyOp(s, key, a, now), key, b, now);
    OneOp(ApplyOp(s, key, b, now), key, a, now);
    hide ApplyOp, ApplyAll, Show, CellOf;
  }

  lemma ApplyTwo(s: Store<Val>, key: string, a: MirrorOp, b: MirrorOp, now: nat)
    ensures ApplyAll(s, key, [(a, now), (b, now)]) == ApplyOp(ApplyOp(s, key, a, now), key, b, now)
  {
    hide ApplyOp;
    var two, one := [(a, now), (b, now)], [(b, now)];
    assert two[1..] == one && one[1..] == [];
    var mid := ApplyOp(s, key, a, now);
    assert ApplyAll(mid, key, one) == ApplyOp(mid, key, b, now);
  }
}

/**
 The mirror's driver on the box (lij-worker/node/reconcile.js): the four copies it makes, and the
 cycle that lists both doors and makes at most 300 of them.
 */
module Reconcile {
  import opened Text
  import opened Kv
  import opened Records
  import opened MirrorRules
  import opened Doors
  import opened Paging
  import FilePath

  const MAX_OPS := 300

  /******* Listings *******/

  datatype Item = Item(c: nat, exp: Option<nat>)

  type Listing = map<string, Item>

  function ItemOf(e: Entry<Val>): Item { Item(e.c, e.exp) }

  /** Every live mirrorable key of a door, with its clock and expiry. */
  function ListingOf(s: Store<Val>, now: nat): Listing {
    map k | k in s && Live(s[k], now) && Mirrorable(k) :: ItemOf(s[k])
  }

  /** The listing the box gets of the worker: 100 pages of 1000 keys at most. */
  ghost function RemoteListing(s: Store<Val>, now: nat): Listing {
    var names := Sorted(View(s, now).Keys);
    var listed := names[..Min(|names|, 100 * 1000)];
    map k | k in listed && k in s && Mirrorable(k) :: ItemOf(s[k])
  }

  /** The state of one key on one side. */
  datatype Side = Absent | AsValue(c: nat, exp: Option<nat>) | AsTomb(c: nat, exp: Option<nat>)

  function StateIn(l: Listing, name: string): Side {
    if name in l && (Tomb(name) in l ==> l[name].c >= l[Tomb(name)].c) then AsValue(l[name].c, l[name].exp)
    else if Tomb(name) in l then AsTomb(l[Tomb(name)].c, l[Tomb(name)].exp)
    else Absent
  }

  function SideOf(x: Cell): Side {
    if x.v.Some? && (x.t.Some? ==> x.v.value.c >= x.t.value.c) then AsValue(x.v.value.c, x.v.value.exp)
    else if x.t.Some? then AsTomb(x.t.value.c, x.t.value.exp)
    else Absent
  }

  lemma ListingShowsCells(s: Store<Val>, name: string, now: nat)
    requires Mirrored(name)
    ensures StateIn(ListingOf(s, now), name) == SideOf(CellOf(s, name, now))
  {
    TombInjective(name, name);
  }

  /******* The four copies *******/

  datatype Outcome = Moved | Stayed | Failed

  /** The file store refuses a key it has no place for. */
  predicate Fits(key: string) { FilePath.Split(key).Ok? }

  function Pull(box: Store<Val>, worker: Store<Val>, name: string, remote: Side, now: nat): (Store<Val>, Outcome)
    requires !remote.Absent?
  {
    var got := Find(worker, name, now);
    if !Mirrorable(name) || |name| > 300 then (box, Failed)
    else if got.None? then (box, Stayed)
    else if !Fits(name) then (box, Failed)
    else
      var clock := if got.value.c > 0 then got.value.c else remote.c;
      var cur := Find(box, name, now);
      if cur.Some? && cur.value.c >= clock then (box, Stayed)
      else if !RecordAllows(name, got.value.value, if cur.Some? then Some(cur.value.value) else None) then (box, Stayed)
      else
        var x := if remote.exp.Some? then Until(remote.exp.value) else Never;
        (box[name := Written(got.value.value, x, clock, now)], Moved)
  }

  function Push(box: Store<Val>, worker: Store<Val>, name: string, local: Side, now: nat): (Store<Val>, Outcome)
    requires !local.Absent?
  {
    var cur := Find(box, name, now);
    if !Fits(name) then (worker, Failed)
    else if cur.None? then (worker, Stayed)
    else
      var exp := if local.exp.Some? then local.exp.value else 0;
      var (worker', verdict) := MirrorPut(worker, name, PutCall(cur.value.value, local.c, exp), now);
      (worker', OutcomeOf(verdict))
  }

  function OutcomeOf(v: Verdict): Outcome {
    if v == Applied then Moved else if v == Refused then Failed else Stayed
  }

  function DeleteRemote(worker: Store<Val>, name: string, clock: nat, now: nat): (Store<Val>, Outcome) {
    var (worker', verdict) := MirrorDelete(worker, name, clock, now);
    (worker', OutcomeOf(verdict))
  }

  function DeleteLocal(box: Store<Val>, name: string, clock: nat, now: nat): (Store<Val>, Outcome) {
    var x := CellOf(box, name, now);
    if !Fits(name) then (box, Failed)
    else if x.v.Some? && x.v.value.c >= clock then (box, Stayed)
    else if !Fits(Tomb(name)) then (box, Failed)
    else if x.t.Some? && x.t.value.c >= clock then (box, Stayed)
    else ((box - {name})[Tomb(name) := TombEntry(clock, now)], Moved)
  }

  /** The newer clock wins; of a value and a tombstone at one clock, a remote value wins. */
  predicate RemoteWins(rs: Side, ls: Side) {
    ls.Absent? ||
    (!rs.Absent? && (rs.c > ls.c || (rs.c == ls.c && rs.AsValue? && ls.AsTomb?)))
  }

  /** Nothing to do: neither side holds the key, or both hold the same kind at the same clock. */
  predicate Settled(rs: Side, ls: Side) {
    (rs.Absent? && ls.Absent?) ||
    (!rs.Absent? && !ls.Absent? && rs.AsValue? == ls.AsValue? && rs.c == ls.c)
  }

  datatype Pair = Pair(box: Store<Val>, worker: Store<Val>)

  /** One key's copy, the way the two listings call for. */
  function Act(d: Pair, name: string, rs: Side, ls: Side, now: nat): (Pair, Outcome)
    requires !Settled(rs, ls)
  {
    if RemoteWins(rs, ls) then
      var (box, o) := if rs.AsValue? then Pull(d.box, d.worker, name, rs, now) else DeleteLocal(d.box, name, rs.c, now);
      (d.(box := box), o)
    else
      var (worker, o) :=
        if ls.AsValue? then Push(d.box, d.worker, name, ls, now) else DeleteRemote(d.worker, name, ls.c, now);
      (d.(worker := worker), o)
  }

  /******* The cycle *******/

  datatype Tally = Tally(pulled: nat, pushed: nat, deletedHere: nat, deletedThere: nat, left: nat)

  function Count(n: Tally, rs: Side, ls: Side, o: Outcome): Tally
    requires !Settled(rs, ls)
  {
    if o != Moved then n
    else if RemoteWins(rs, ls) then
      (if rs.AsValue? then n.(pulled := n.pulled + 1) else n.(deletedHere := n.deletedHere + 1))
    else (if ls.AsValue? then n.(pushed := n.pushed + 1) else n.(deletedThere := n.deletedThere + 1))
  }

  /** Where a cycle stands: the doors, its counts, and whether a call has failed. */
  datatype Progress = Progress(d: Pair, n: Tally, ops: nat, failed: bool)

  function Visit(p: Progress, name: string, remote: Listing, local: Listing, now: nat): Progress {
    var rs, ls := StateIn(remote, name), StateIn(local, name);
    if p.failed || !Mirrored(name) || Settled(rs, ls) then p
    else if p.ops >= MAX_OPS then p.(n := p.n.(left := p.n.left + 1))
    else
      var (d, o) := Act(p.d, name, rs, ls, now);
      Progress(d, Count(p.n, rs, ls, o), p.ops + 1, o == Failed)
  }

  /** Each count is of what it names, one at a time: a value that came to the box from the worker or went
      the other way, a key deleted at one door or the other; and when neither door changes, none. What is
      past the 300th operation is counted as left. */
  lemma VisitCounts(p: Progress, name: string, remote: Listing, local: Listing, now: nat)
    ensures
      var p' := Visit(p, name, remote, local, now);
      var Pair(b, w), Pair(b', w'), n, n' := p.d, p'.d, p.n, p'.n;
      || (p'.d == p.d && n' == n && p'.ops <= p.ops + 1)
      || (p'.d == p.d && n' == n.(left := n.left + 1) && p'.ops == p.ops >= 300)
      || (p.ops < 300 && p'.ops == p.ops + 1 && (
           || (n' == n.(pulled := n.pulled + 1) && w' == w && name in w && name in b' &&
               b'[name].value == w[name].value && (Find(b, name, now).Some? ==> b[name].c < b'[name].c))
           || (n' == n.(pushed := n.pushed + 1) && b' == b && name in b && name in w' &&
               w'[name].value == b[name].value && (Find(w, name, now).Some? ==> w[name].c < w'[name].c))
           || (n' == n.(deletedHere := n.deletedHere + 1) && w' == w && b' != b && name !in b' &&
               "tomb:" + name in b')
           || (n' == n.(deletedThere := n.deletedThere + 1) && b' == b && w' != w && Find(w', name, now).None? &&
               "tomb:" + name in w')))
  {
    hide RecordAllows, Fits, StateIn;
    var rs, ls := StateIn(remote, name), StateIn(local, name);
    if !p.failed && Mirrored(name) && !Settled(rs, ls) && p.ops < MAX_OPS {
      var d, o := Act(p.d, name, rs, ls, now).0, Act(p.d, name, rs, ls, now).1;
      TombInjective(name, name);
      if RemoteWins(rs, ls) {
        if rs.AsValue? {
          PullMoves(p.d.box, p.d.worker, name, rs, now);
        } else {
          DeleteMoves(p.d.box, name, rs.c, now);
        }
      } else {
        if ls.AsValue? { PushMoves(p.d, name, ls, now); } else { DeleteAnswers(p.d.worker, name, ls.c, now); }
      }
      hide Pull, Push, DeleteLocal, MirrorPut, MirrorDelete, TombEntry;
    }
  }

  lemma PullMoves(box: Store<Val>, worker: Store<Val>, name: string, remote: Side, now: nat)
    requires !remote.Absent?
    ensures
      var (box', o) := Pull(box, worker, name, remote, now);
      if o == Moved
      then
        name in worker && name in box' && box'[name].value == worker[name].value
        && (Find(box, name, now).Some? ==> box[name].c < box'[name].c)
      else box' == box
  {
    hide RecordAllows, Fits;
  }

  lemma DeleteMoves(box: Store<Val>, name: string, clock: nat, now: nat)
    requires Mirrored(name)
    ensures
      var (box', o) := DeleteLocal(box, name, clock, now);
      if o == Moved then box' != box && name !in box' && Tomb(name) in box' else box' == box
  {
    hide Fits;
    TombInjective(name, name);
    TombLives(clock, now);
  }

  lemma PushMoves(d: Pair, name: string, local: Side, now: nat)
    requires !local.Absent? && Mirrored(name)
    ensures
      var (worker', o) := Push(d.box, d.worker, name, local, now);
      if o == Moved
      then
        name in d.box && name in worker' && worker'[name].value == d.box[name].value
        && (Find(d.worker, name, now).Some? ==> d.worker[name].c < worker'[name].c)
      else worker' == d.worker
  {
    hide RecordAllows, Fits;
  }

  function VisitAll(p: Progress, names: seq<string>, remote: Listing, local: Listing, now: nat): Progress
    decreases |names|
  {
    if names == [] then p
    else VisitAll(Visit(p, names[0], remote, local, now), names[1..], remote, local, now)
  }

  function Strip(key: string): string { if IsTomb(key) then key[|TOMB_PREFIX|..] else key }

  function NamesIn(l: Listing): set<string> { set k | k in l :: Strip(k) }

  const START_TALLY := Tally(0, 0, 0, 0, 0)

  ghost function CycleOf(d: Pair, now: nat): Progress {
    var remote, local := RemoteListing(d.worker, now), ListingOf(d.box, now);
    VisitAll(Progress(d, START_TALLY, 0, false), Sorted(NamesIn(remote) + NamesIn(local)), remote, local, now)
  }

  /** The box's driver. */
  class Reconciler {
    const box: Door
    const worker: Door
    var cycles: nat

    constructor (box: Door, worker: Door)
      requires box != worker
      ensures this.box == box && this.worker == worker && cycles == 0
    {
      this.box, this.worker, cycles := box, worker, 0;
    }

    ghost predicate Valid() reads this { box != worker }

    ghost function Doors(): Pair reads this, box, worker { Pair(box.kv, worker.kv) }

    /** GET /mirror/keys, page after page. */
    method ListRemote(now: nat) returns (l: Listing)
      ensures l == RemoteListing(worker.kv, now)
    {
      var names := Sort(View(worker.kv, now).Keys);
      var got := FollowPages(names, 1000, 100);
      l := map k | k in got && k in worker.kv && Mirrorable(k) :: ItemOf(worker.kv[k]);
    }

    method ListLocal(now: nat) returns (l: Listing)
      ensures l == ListingOf(box.kv, now)
    {
      l := map k | k in box.kv && Live(box.kv[k], now) && Mirrorable(k) :: ItemOf(box.kv[k]);
    }

    method PullKey(name: string, remote: Side, now: nat) returns (o: Outcome)
      requires Valid() && !remote.Absent?
      modifies box
      ensures (box.kv, o) == Pull(old(box.kv), worker.kv, name, remote, now)
    {
      if !Mirrorable(name) || |name| > 300 { return Failed; }
      var got := Find(worker.kv, name, now);
      if got.None? { return Stayed; }
      if !Fits(name) { return Failed; }
      var clock := if got.value.c > 0 then got.value.c else remote.c;
      var cur := Find(box.kv, name, now);
      if cur.Some? && cur.value.c >= clock { return Stayed; }
      if !RecordAllows(name, got.value.value, if cur.Some? then Some(cur.value.value) else None) { return Stayed; }
      var x := if remote.exp.Some? then Until(remote.exp.value) else Never;
      box.kv := box.kv[name := Written(got.value.value, x, clock, now)];
      return Moved;
    }

    method PushKey(name: string, local: Side, now: nat) returns (o: Outcome)
      requires Valid() && !local.Absent?
      modifies worker
      ensures (worker.kv, o) == Push(box.kv, old(worker.kv), name, local, now)
    {
      if !Fits(name) { return Failed; }
      var cur := Find(box.kv, name, now);
      if cur.None? { return Stayed; }
      var exp := if local.exp.Some? then local.exp.value else 0;
      var verdict := worker.TakePut(name, PutCall(cur.value.value, local.c, exp), now);
      o := if verdict == Applied then Moved else if verdict == Refused then Failed else Stayed;
    }

    method DeleteRemoteKey(name: string, clock: nat, now: nat) returns (o: Outcome)
      requires Valid()
      modifies worker
      ensures (worker.kv, o) == DeleteRemote(old(worker.kv), name, clock, now)
    {
      var verdict := worker.TakeDelete(name, clock, now);
      o := if verdict == Applied then Moved else if verdict == Refused then Failed else Stayed;
    }

    method DeleteLocalKey(name: string, clock: nat, now: nat) returns (o: Outcome)
      requires Valid()
      modifies box
      ensures (box.kv, o) == DeleteLocal(old(box.kv), name, clock, now)
    {
      if !Fits(name) { return Failed; }
      var cur := Find(box.kv, name, now);
      if cur.Some? && cur.value.c >= clock { return Stayed; }
      if !Fits(Tomb(name)) { return Failed; }
      var tomb := Find(box.kv, Tomb(name), now);
      if tomb.Some? && tomb.value.c >= clock { return Stayed; }
      box.kv := (box.kv - {name})[Tomb(name) := TombEntry(clock, now)];
      return Moved;
    }

    /** One name of a cycle. */
    method VisitName(name: string, remote: Listing, local: Listing, n0: Tally, ops0: nat, now: nat)
      returns (n: Tally, ops: nat, failed: bool)
      requires Valid()
      modifies box, worker
      ensures
        Progress(Doors(), n, ops, failed) ==
        Visit(Progress(old(Doors()), n0, ops0, false), name, remote, local, now)
    {
      n, ops, failed := n0, ops0, false;
      if !Mirrorable(name) || IsTomb(name) { return; }
      var rs, ls := StateIn(remote, name), StateIn(local, name);
      if rs.Absent? && ls.Absent? { return; }
      if !rs.Absent? && !ls.Absent? && rs.AsValue? == ls.AsValue? && rs.c == ls.c { return; }
      if ops >= MAX_OPS {
        n := n.(left := n.left + 1);
        return;
      }
      ops := ops + 1;
      var remoteWins :=
        ls.Absent? || (!rs.Absent? && (rs.c > ls.c || (rs.c == ls.c && rs.AsValue? && ls.AsTomb?)));
      var o;
      hide Pull, Push, DeleteLocal, DeleteRemote, StateIn;
      if remoteWins {
        if rs.AsValue? {
          o := PullKey(name, rs, now);
          if o == Moved { n := n.(pulled := n.pulled + 1); }
        } else {
          o := DeleteLocalKey(name, rs.c, now);
          if o == Moved { n := n.(deletedHere := n.deletedHere + 1); }
        }
      } else {
        if ls.AsValue? {
          o := PushKey(name, ls, now);
          if o == Moved { n := n.(pushed := n.pushed + 1); }
        } else {
          o := DeleteRemoteKey(name, ls.c, now);
          if o == Moved { n := n.(deletedThere := n.deletedThere + 1); }
        }
      }
      failed := o == Failed;
    }

    /** The names of a cycle in turn, until a call fails. */
    method VisitNames(names: seq<string>, remote: Listing, local: Listing, now: nat) returns (n: Tally, failed: bool)
      requires Valid()
      modifies box, worker
      ensures
        var p := VisitAll(Progress(old(Doors()), START_TALLY, 0, false), names, remote, local, now);
        Doors() == p.d && n == p.n && failed == p.failed
    {
      ghost var start := Progress(Doors(), START_TALLY, 0, false);
      n, failed := START_TALLY, false;
      var ops, i := 0, 0;
      assert names[0..] == names;
      hide Visit;
      while i < |names| && !failed
        invariant 0 <= i <= |names|
        invariant
          VisitAll(start, names, remote, local, now) ==
          VisitAll(Progress(Doors(), n, ops, failed), names[i..], remote, local, now)
        decreases |names| - i
      {
        assert names[i..][0] == names[i] && names[i..][1..] == names[i + 1..];
        n, ops, failed := VisitName(names[i], remote, local, n, ops, now);
        i := i + 1;
      }
      if failed {
        FailedStops(Progress(Doors(), n, ops, true), names[i..], remote, local, now);
      } else {
        assert names[i..] == [];
      }
    }

    /** One cycle. It stops at the first call that fails, keeping what it has moved. */
    method Cycle(now: nat) returns (n: Tally, failed: bool)
      requires Valid()
      modifies this, box, worker
      ensures
        var p := CycleOf(old(Doors()), now);
        Doors() == p.d && n == p.n && failed == p.failed
      ensures cycles == old(cycles) + (if failed then 0 else 1)
    {
      var remote := ListRemote(now);
      var local := ListLocal(now);
      hide RemoteListing, ListingOf, VisitAll, Lists;
      var names := Sort((set k | k in remote :: Strip(k)) + (set k | k in local :: Strip(k)));
      n, failed := VisitNames(names, remote, local, now);
      if !failed {
        cycles := cycles + 1;
      }
    }
  }

  lemma {:induction false} FailedStops(p: Progress, names: seq<string>, remote: Listing, local: Listing, now: nat)
    requires p.failed
    ensures VisitAll(p, names, remote, local, now) == p
    decreases |names|
  {
    if names != [] {
      assert Visit(p, names[0], remote, local, now) == p;
      FailedStops(p, names[1..], remote, local, now);
    }
  }
}

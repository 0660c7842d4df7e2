/**
 The two doors over time: either door serves the registry's requests and takes other clients' writes,
 the box copies by listings that may be old, mirror calls arrive at the worker from anywhere, and time
 passes, in any order.
 */
module Runs {
  import opened Text
  import opened Kv
  import opened Records
  import opened MirrorRules
  import opened Doors
  import opened Reconcile
  import FilePath
  import Registry

  datatype Sys = Sys(d: Pair, now: nat)

  datatype Step =
    | Serve(atBox: bool, q: Registry.Request, env: Registry.Env)
    | ClientPut(atBox: bool, key: string, value: Val, x: Expiry, clock: nat)
    | ClientDelete(atBox: bool, key: string, clock: nat)
    | TakePut(key: string, p: PutCall)
    | TakeDelete(key: string, callClock: int)
    | PullStep(key: string, remoteAt: nat, boxAt: nat)
    | DeleteLocalStep(key: string, clock: nat)
    | Tick(to: nat)

  /** The box pulls by a listing of the worker and one of its own, each as old as can be: the state a
      door was in after `at` steps. */
  function PulledBox(h: seq<Sys>, key: string, remoteAt: nat, boxAt: nat): Store<Val>
    requires h != []
  {
    var s := h[|h| - 1];
    if remoteAt >= |h| || boxAt >= |h| || !Mirrored(key) then s.d.box
    else
      var rs := SideOf(CellOf(h[remoteAt].d.worker, key, h[remoteAt].now));
      var ls := SideOf(CellOf(h[boxAt].d.box, key, h[boxAt].now));
      if rs.AsValue? && !Settled(rs, ls) && RemoteWins(rs, ls) then Pull(s.d.box, s.d.worker, key, rs, s.now).0
      else s.d.box
  }

  function Apply(h: seq<Sys>, step: Step): Sys
    requires h != []
  {
    var s := h[|h| - 1];
    var Pair(box, worker) := s.d;
    match step
    case Serve(atBox, q, env) =>
      if atBox then s.(d := Pair(Registry.Handle(box, q, s.now, env).0, worker))
      else s.(d := Pair(box, Registry.Handle(worker, q, s.now, env).0))
    case ClientPut(atBox, key, value, x, clock) =>
      if atBox then s.(d := Pair(ClockedPut(box, key, value, x, clock, s.now), worker))
      else s.(d := Pair(box, ClockedPut(worker, key, value, x, clock, s.now)))
    case ClientDelete(atBox, key, clock) =>
      if atBox then s.(d := Pair(ClockedDelete(box, key, clock, s.now), worker))
      else s.(d := Pair(box, ClockedDelete(worker, key, clock, s.now)))
    case TakePut(key, p) => s.(d := Pair(box, MirrorPut(worker, key, p, s.now).0))
    case TakeDelete(key, clock) => s.(d := Pair(box, MirrorDelete(worker, key, clock, s.now).0))
    case PullStep(key, i, j) => s.(d := Pair(PulledBox(h, key, i, j), worker))
    case DeleteLocalStep(key, clock) =>
      if Mirrored(key) then s.(d := Pair(DeleteLocal(box, key, clock, s.now).0, worker)) else s
    case Tick(to) => if to >= s.now then s.(now := to) else s
  }

  /** A history and the steps that made it. */
  ghost predicate IsRun(h: seq<Sys>, steps: seq<Step>) {
    |h| == |steps| + 1 && forall i :: 0 <= i < |steps| ==> h[i + 1] == Apply(h[..i + 1], steps[i])
  }

  function WCell(s: Sys, name: string): Cell { CellOf(s.d.worker, name, s.now) }

  function BCell(s: Sys, name: string): Cell { CellOf(s.d.box, name, s.now) }

  function DoorCell(s: Sys, name: string, atBox: bool): Cell { if atBox then BCell(s, name) else WCell(s, name) }

  /******* The cycle's copies are steps *******/

  /** The step a cycle takes for a key, by a listing of the worker after `i` steps and one of the box after
      `j`: what it pushes is what the box holds now. */
  function StepFor(h: seq<Sys>, i: nat, j: nat, name: string): Step
    requires i < |h| && j < |h|
  {
    var s, rs, ls := h[|h| - 1], SideOf(WCell(h[i], name)), SideOf(BCell(h[j], name));
    if RemoteWins(rs, ls) then
      (if rs.AsValue? then PullStep(name, i, j) else if rs.AsTomb? then DeleteLocalStep(name, rs.c) else Tick(s.now))
    else if ls.AsTomb? then TakeDelete(name, ls.c)
    else
      var cur := Find(s.d.box, name, s.now);
      if ls.AsValue? && cur.Some? && Fits(name) then
        TakePut(name, PutCall(cur.value.value, ls.c, if ls.exp.Some? then ls.exp.value else 0))
      else Tick(s.now)
  }

  /** Whatever a cycle does for a key, from listings of any age, is one of the steps of a run. */
  lemma CopiesAreSteps(h: seq<Sys>, i: nat, j: nat, name: string)
    requires i < |h| && j < |h| && Mirrored(name)
    ensures
      var s := h[|h| - 1];
      var rs, ls := StateIn(ListingOf(h[i].d.worker, h[i].now), name), StateIn(ListingOf(h[j].d.box, h[j].now), name);
      !Settled(rs, ls) ==> Apply(h, StepFor(h, i, j, name)) == s.(d := Act(s.d, name, rs, ls, s.now).0)
  {
    ListingShowsCells(h[i].d.worker, name, h[i].now);
    ListingShowsCells(h[j].d.box, name, h[j].now);
    hide Apply, Act, CellOf, SideOf, Mirrored, StateIn, ListingOf, StepFor;
    var rs, ls := SideOf(WCell(h[i], name)), SideOf(BCell(h[j], name));
    if !Settled(rs, ls) {
      if RemoteWins(rs, ls) { StepsHere(h, i, j, name); } else { StepsThere(h, i, j, name); }
    }
  }

  lemma StepsHere(h: seq<Sys>, i: nat, j: nat, name: string)
    requires i < |h| && j < |h| && Mirrored(name)
    requires var rs, ls := SideOf(WCell(h[i], name)), SideOf(BCell(h[j], name)); !Settled(rs, ls) && RemoteWins(rs, ls)
    ensures
      var s, rs, ls := h[|h| - 1], SideOf(WCell(h[i], name)), SideOf(BCell(h[j], name));
      Apply(h, StepFor(h, i, j, name)) == s.(d := Act(s.d, name, rs, ls, s.now).0)
  {
    hide Registry.Handle, ClockedPut, ClockedDelete, MirrorPut, MirrorDelete, DeleteLocal, Pull, Push, DeleteRemote;
    hide CellOf, SideOf, Mirrored;
  }

  lemma StepsThere(h: seq<Sys>, i: nat, j: nat, name: string)
    requires i < |h| && j < |h| && Mirrored(name)
    requires var rs, ls := SideOf(WCell(h[i], name)), SideOf(BCell(h[j], name)); !Settled(rs, ls) && !RemoteWins(rs, ls)
    ensures
      var s, rs, ls := h[|h| - 1], SideOf(WCell(h[i], name)), SideOf(BCell(h[j], name));
      Apply(h, StepFor(h, i, j, name)) == s.(d := Act(s.d, name, rs, ls, s.now).0)
  {
    hide Registry.Handle, ClockedPut, ClockedDelete, MirrorPut, MirrorDelete, DeleteLocal, Pull, PulledBox;
    hide CellOf, SideOf, Mirrored, Fits;
  }

  /******* What is asked of clients and of time *******/

  predicate AtBox(step: Step) { (step.Serve? || step.ClientPut? || step.ClientDelete?) && step.atBox }

  predicate AtWorker(step: Step) { (step.Serve? || step.ClientPut? || step.ClientDelete?) && !step.atBox }

  /** A request about the key has a clock no older than what the door holds under it; a client names no
      tombstone, and what it puts has not expired already. */
  ghost predicate FairClient(x: Cell, step: Step, name: string, now: nat) {
    match step
    case Serve(_, q, env) => Registry.About(q, env, name) ==> now >= Eff(x)
    case ClientPut(_, key, value, e, clock) =>
      !IsTomb(key) && (key == name ==> clock >= Eff(x) && Live(Entry(value, clock, ExpiresAt(e, now)), now))
    case ClientDelete(_, key, clock) => !IsTomb(key) && (key == name ==> clock >= Eff(x))
    case _ => true
  }

  /** Asked for the worker's sake: fair clients at its door, and no expiry of the key there. */
  ghost predicate FairToWorker(s: Sys, step: Step, name: string) {
    && (AtWorker(step) ==> FairClient(WCell(s, name), step, name, s.now))
    && (step.Tick? && step.to >= s.now ==> WCell(s.(now := step.to), name) == WCell(s, name))
  }

  /** The key a step names at the box. What the registry's own requests name there is canonical. */
  function NamedAtBox(step: Step): Option<string> {
    match step
    case ClientPut(atBox, key, _, _, _) => if atBox then Some(key) else None
    case ClientDelete(atBox, key, _) => if atBox then Some(key) else None
    case PullStep(key, _, _) => Some(key)
    case DeleteLocalStep(key, _) => Some(key)
    case _ => None
  }

  /** Asked for the box's: the same there; between the listing of the key and a pull of it no write at the
      box, nor the end of the listed expiry; and no key by a spelling that shares another's place. */
  ghost predicate FairToBox(h: seq<Sys>, step: Step, name: string)
    requires h != []
  {
    var s := h[|h| - 1];
    && (NamedAtBox(step).Some? ==> FilePath.Canonical(NamedAtBox(step).value))
    && (AtBox(step) ==> FairClient(BCell(s, name), step, name, s.now))
    && (step.Tick? && step.to >= s.now ==> BCell(s.(now := step.to), name) == BCell(s, name))
    && (step.PullStep? && step.key == name && step.remoteAt < |h| && step.boxAt < |h| ==>
         && BCell(h[step.boxAt], name) == BCell(s, name)
         && var rs := SideOf(WCell(h[step.remoteAt], name));
            rs.AsValue? && rs.exp.Some? ==> s.now < rs.exp.value * 1000)
  }

  ghost predicate AllFairToWorker(h: seq<Sys>, steps: seq<Step>, name: string)
    requires |h| == |steps| + 1
  {
    forall i :: 0 <= i < |steps| ==> FairToWorker(h[i], steps[i], name)
  }

  ghost predicate AllFairToBox(h: seq<Sys>, steps: seq<Step>, name: string)
    requires |h| == |steps| + 1
  {
    forall i :: 0 <= i < |steps| ==> FairToBox(h[..i + 1], steps[i], name)
  }

  /******* The worker *******/

  lemma ClientCell(s: Store<Val>, step: Step, name: string, now: nat)
    requires step.ClientPut? || step.ClientDelete?
    requires Mirrored(name) && NoShadow(CellOf(s, name, now)) && FairClient(CellOf(s, name, now), step, name, now)
    ensures
      var s' := if step.ClientPut? then ClockedPut(s, step.key, step.value, step.x, step.clock, now)
                else ClockedDelete(s, step.key, step.clock, now);
      NoShadow(CellOf(s', name, now)) && Eff(CellOf(s', name, now)) >= Eff(CellOf(s, name, now))
  {
    if step.key != name {
      var s' := if step.ClientPut? then ClockedPut(s, step.key, step.value, step.x, step.clock, now)
                else ClockedDelete(s, step.key, step.clock, now);
      OtherCell(s, s', step.key, name, now);
    } else if step.ClientPut? {
      ClockedPutCell(s, name, step.value, step.x, step.clock, now);
    } else {
      ClockedDeleteCell(s, name, step.clock, now);
    }
  }

  lemma ServedCell(s: Store<Val>, q: Registry.Request, env: Registry.Env, name: string, now: nat)
    requires Mirrored(name) && NoShadow(CellOf(s, name, now))
    requires Registry.About(q, env, name) ==> now >= Eff(CellOf(s, name, now))
    ensures
      var s' := Registry.Handle(s, q, now, env).0;
      NoShadow(CellOf(s', name, now)) && Eff(CellOf(s', name, now)) >= Eff(CellOf(s, name, now))
  {
    hide Registry.Handle, CellOf;
    if Registry.About(q, env, name) {
      Registry.RequestsOnlyRaise(s, q, now, env, name);
    } else {
      Registry.CellsElsewhere(s, q, now, env, name);
    }
  }

  lemma WorkerStep(h: seq<Sys>, step: Step, name: string)
    requires h != [] && Mirrored(name) && FairToWorker(h[|h| - 1], step, name)
    requires NoShadow(WCell(h[|h| - 1], name))
    ensures
      var s, s' := h[|h| - 1], Apply(h, step);
      NoShadow(WCell(s', name)) && Eff(WCell(s', name)) >= Eff(WCell(s, name))
  {
    var s := h[|h| - 1];
    match step {
      case Serve(atBox, q, env) => if !atBox { ServedCell(s.d.worker, q, env, name, s.now); }
      case ClientPut(atBox, _, _, _, _) => if !atBox { ClientCell(s.d.worker, step, name, s.now); }
      case ClientDelete(atBox, _, _) => if !atBox { ClientCell(s.d.worker, step, name, s.now); }
      case TakePut(key, p) => MirrorCallsOnlyRaise(s.d.worker, key, p, 0, name, s.now);
      case TakeDelete(key, clock) =>
        MirrorCallsOnlyRaise(s.d.worker, key, PutCall(Plain(""), 0, 0), clock, name, s.now);
      case _ =>
    }
  }

  lemma StepOf(h: seq<Sys>, steps: seq<Step>, i: nat)
    requires IsRun(h, steps) && i < |steps|
    ensures h[i + 1] == Apply(h[..i + 1], steps[i])
  {
  }

  /** The worker is never rolled back: under every interleaving, however old the listings behind the
      calls it gets, a key's effective clock never falls and no value is ever in a tombstone's shadow. */
  lemma {:induction false} WorkerNeverRolledBack(h: seq<Sys>, steps: seq<Step>, name: string, i: nat, j: nat)
    requires IsRun(h, steps) && Mirrored(name) && AllFairToWorker(h, steps, name)
    requires NoShadow(WCell(h[0], name)) && i <= j < |h|
    ensures NoShadow(WCell(h[j], name)) && Eff(WCell(h[i], name)) <= Eff(WCell(h[j], name))
    decreases j
  {
    hide Apply, NoShadow, Eff, WCell, FairToWorker, Mirrored;
    if j > 0 {
      StepOf(h, steps, j - 1);
      assert h[..j][j - 1] == h[j - 1];
    }
    if i < j {
      WorkerNeverRolledBack(h, steps, name, i, j - 1);
      WorkerStep(h[..j], steps[j - 1], name);
    } else if j > 0 {
      WorkerNeverRolledBack(h, steps, name, j - 1, j - 1);
      WorkerStep(h[..j], steps[j - 1], name);
    }
  }

  /******* The box *******/

  lemma DeleteLocalCell(box: Store<Val>, key: string, clock: nat, name: string, now: nat)
    requires Mirrored(key) && Mirrored(name) && NoShadow(CellOf(box, name, now))
    ensures
      var x, x' := CellOf(box, name, now), CellOf(DeleteLocal(box, key, clock, now).0, name, now);
      NoShadow(x') && Eff(x') >= Eff(x)
  {
    TombInjective(name, name);
    TombLives(clock, now);
    if key != name {
      OtherCell(box, DeleteLocal(box, key, clock, now).0, key, name, now);
    }
  }

  /** A pull that is made keeps the key out of its tombstone's shadow exactly when the tombstone is no
      newer than the clock pulled: that is the guard a pull does not make. */
  lemma PullShadowIff(box: Store<Val>, worker: Store<Val>, name: string, remote: Side, now: nat)
    requires Mirrored(name) && !remote.Absent? && Pull(box, worker, name, remote, now).1 == Moved
    requires remote.exp.Some? ==> now < remote.exp.value * 1000
    ensures
      var got, t := Find(worker, name, now).value, Find(box, Tomb(name), now);
      var clock := if got.c > 0 then got.c else remote.c;
      && (NoShadow(CellOf(Pull(box, worker, name, remote, now).0, name, now)) <==> Clock(t) <= clock || t.None?)
      && Eff(CellOf(Pull(box, worker, name, remote, now).0, name, now)) == Max(clock, Clock(t))
  {
    TombInjective(name, name);
  }

  lemma BoxStep(h: seq<Sys>, step: Step, name: string)
    requires h != [] && Mirrored(name) && FairToBox(h, step, name)
    requires
      forall k :: 0 <= k < |h| ==>
        NoShadow(WCell(h[k], name)) && Eff(WCell(h[k], name)) <= Eff(WCell(h[|h| - 1], name))
    requires NoShadow(BCell(h[|h| - 1], name))
    ensures
      var s, s' := h[|h| - 1], Apply(h, step);
      NoShadow(BCell(s', name)) && Eff(BCell(s', name)) >= Eff(BCell(s, name))
  {
    var s := h[|h| - 1];
    match step {
      case Serve(atBox, q, env) => if atBox { ServedCell(s.d.box, q, env, name, s.now); }
      case ClientPut(atBox, _, _, _, _) => if atBox { ClientCell(s.d.box, step, name, s.now); }
      case ClientDelete(atBox, _, _) => if atBox { ClientCell(s.d.box, step, name, s.now); }
      case PullStep(key, i, j) => PullCell(h, key, i, j, name);
      case DeleteLocalStep(key, clock) => if Mirrored(key) { DeleteLocalCell(s.d.box, key, clock, name, s.now); }
      case _ =>
    }
  }

  lemma PullCell(h: seq<Sys>, key: string, i: nat, j: nat, name: string)
    requires h != [] && Mirrored(name) && FairToBox(h, PullStep(key, i, j), name)
    requires
      forall k :: 0 <= k < |h| ==>
        NoShadow(WCell(h[k], name)) && Eff(WCell(h[k], name)) <= Eff(WCell(h[|h| - 1], name))
    requires NoShadow(BCell(h[|h| - 1], name))
    ensures
      var s, box' := h[|h| - 1], PulledBox(h, key, i, j);
      NoShadow(CellOf(box', name, s.now)) && Eff(CellOf(box', name, s.now)) >= Eff(BCell(s, name))
  {
    var s := h[|h| - 1];
    if key != name {
      if !IsTomb(key) { OtherCell(s.d.box, PulledBox(h, key, i, j), key, name, s.now); }
    } else if i < |h| && j < |h| {
      var rs, ls := SideOf(WCell(h[i], name)), SideOf(BCell(h[j], name));
      if rs.AsValue? && !Settled(rs, ls) && RemoteWins(rs, ls) {
        assert rs.c == Eff(WCell(h[i], name)) <= Eff(WCell(s, name));
        assert Eff(BCell(s, name)) <= rs.c;
        if Pull(s.d.box, s.d.worker, name, rs, s.now).1 == Moved {
          PullShadowIff(s.d.box, s.d.worker, name, rs, s.now);
          assert Clock(WCell(s, name).v) == Eff(WCell(s, name));
        }
      }
    }
  }

  /** Nor is the box, so long as no client writes a key there between its listing and its pull. */
  lemma {:induction false} BoxNeverRolledBack(h: seq<Sys>, steps: seq<Step>, name: string, i: nat, j: nat)
    requires IsRun(h, steps) && Mirrored(name) && FilePath.Canonical(name)
    requires AllFairToWorker(h, steps, name) && AllFairToBox(h, steps, name)
    requires NoShadow(WCell(h[0], name)) && NoShadow(BCell(h[0], name)) && i <= j < |h|
    ensures NoShadow(BCell(h[j], name)) && Eff(BCell(h[i], name)) <= Eff(BCell(h[j], name))
    decreases j
  {
    hide Apply, NoShadow, Eff, WCell, BCell, FairToWorker, FairToBox, Mirrored;
    if j > 0 {
      StepOf(h, steps, j - 1);
      assert h[..j][j - 1] == h[j - 1];
      var k := if i < j then i else j - 1;
      BoxNeverRolledBack(h, steps, name, k, j - 1);
      var before := h[..j];
      forall m | 0 <= m < |before|
        ensures
          NoShadow(WCell(before[m], name)) && Eff(WCell(before[m], name)) <= Eff(WCell(before[|before| - 1], name))
      {
        WorkerNeverRolledBack(h, steps, name, m, m);
        WorkerNeverRolledBack(h, steps, name, m, j - 1);
      }
      BoxStep(before, steps[j - 1], name);
    }
  }

  /******* Replays *******/

  lemma NowRises(h: seq<Sys>, step: Step)
    requires h != []
    ensures h[|h| - 1].now <= Apply(h, step).now
  {
    hide Registry.Handle, PulledBox, MirrorPut, MirrorDelete, DeleteLocal, ClockedPut, ClockedDelete;
  }

  lemma {:induction false} TimeRises(h: seq<Sys>, steps: seq<Step>, i: nat, j: nat)
    requires IsRun(h, steps) && i <= j < |h|
    ensures h[i].now <= h[j].now
    decreases j
  {
    if i < j {
      hide Apply;
      TimeRises(h, steps, i, j - 1);
      NowRises(h[..j], steps[j - 1]);
      assert h[..j][j - 1] == h[j - 1];
      StepOf(h, steps, j - 1);
    }
  }

  /** A put the worker has answered changes nothing when it is sent again, at any later moment of any
      run, unless it was the record rule that refused it. */
  lemma ReplayedPutIsNoop(h: seq<Sys>, steps: seq<Step>, i: nat, j: nat)
    requires IsRun(h, steps) && i < |steps| && i < j < |h| && steps[i].TakePut? && Mirrored(steps[i].key)
    requires AllFairToWorker(h, steps, steps[i].key) && NoShadow(WCell(h[0], steps[i].key))
    requires PutVerdict(steps[i].key, WCell(h[i], steps[i].key), steps[i].p, h[i].now) != RecordRule
    ensures MirrorPut(h[j].d.worker, steps[i].key, steps[i].p, h[j].now).0 == h[j].d.worker
  {
    var key, p := steps[i].key, steps[i].p;
    var verdict := PutVerdict(key, WCell(h[i], key), p, h[i].now);
    WorkerNeverRolledBack(h, steps, key, i, j);
    WorkerNeverRolledBack(h, steps, key, i + 1, j);
    TimeRises(h, steps, i, j);
    if verdict == Applied {
      MirrorPutCell(h[i].d.worker, key, p, h[i].now);
      assert h[..i + 1][i] == h[i];
      assert Eff(WCell(h[i + 1], key)) >= p.clock;
    } else if verdict == NotNewer || verdict == DeletedLater {
      assert Eff(WCell(h[i], key)) >= p.clock;
    }
  }

  /** A delete the worker has answered changes nothing when it is sent again. */
  lemma ReplayedDeleteIsNoop(h: seq<Sys>, steps: seq<Step>, i: nat, j: nat)
    requires IsRun(h, steps) && i < |steps| && i < j < |h| && steps[i].TakeDelete? && Mirrored(steps[i].key)
    requires AllFairToWorker(h, steps, steps[i].key) && NoShadow(WCell(h[0], steps[i].key))
    ensures MirrorDelete(h[j].d.worker, steps[i].key, steps[i].callClock, h[j].now).0 == h[j].d.worker
  {
    var key, clock := steps[i].key, steps[i].callClock;
    WorkerNeverRolledBack(h, steps, key, i, j);
    WorkerNeverRolledBack(h, steps, key, i + 1, j);
    if DeleteVerdict(key, WCell(h[i], key), clock) == Applied {
      MirrorDeleteCell(h[i].d.worker, key, clock, h[i].now);
      assert h[..i + 1][i] == h[i];
    }
  }

  /** A put that the record rule refused changes nothing when it is sent again exactly when the key has
      moved on to its clock or past it, or the rule still refuses it, or its expiry has come too near. */
  lemma RefusedPutReplayIff(h: seq<Sys>, steps: seq<Step>, i: nat, j: nat)
    requires IsRun(h, steps) && i < |steps| && i < j < |h| && steps[i].TakePut? && Mirrored(steps[i].key)
    requires AllFairToWorker(h, steps, steps[i].key) && NoShadow(WCell(h[0], steps[i].key))
    requires PutVerdict(steps[i].key, WCell(h[i], steps[i].key), steps[i].p, h[i].now) == RecordRule
    ensures
      var key, p, x := steps[i].key, steps[i].p, WCell(h[j], steps[i].key);
      MirrorPut(h[j].d.worker, key, p, h[j].now).0 == h[j].d.worker
      <==>
      p.clock <= Eff(x) || !RecordAllows(key, p.value, Held(x)) || TooSoon(p.exp, h[j].now)
  {
    var key, p := steps[i].key, steps[i].p;
    WorkerNeverRolledBack(h, steps, key, j, j);
    hide IsRun, AllFairToWorker, RecordAllows;
    var x := WCell(h[j], key);
    if PutVerdict(key, x, p, h[j].now) == Applied {
      MirrorPutCell(h[j].d.worker, key, p, h[j].now);
      assert CellOf(MirrorPut(h[j].d.worker, key, p, h[j].now).0, key, h[j].now).v == Some(PutEntry(p));
      assert Clock(x.v) <= Eff(x) < p.clock;
    }
  }

  /** The exception is real: a put refused by the record rule is applied when it is sent again after
      the record it fell short of has been deleted at an older clock. */
  lemma RecordRuleReplayApplies(older: Record, newer: Record, now: nat)
    requires older.ts < newer.ts
    ensures
      var key, p := "lsp:a", PutCall(Lsp(older, 0, 0), 7, 0);
      var s: Store<Val> := map[key := Entry(Lsp(newer, 0, 0), 5, None)];
      && PutVerdict(key, CellOf(s, key, now), p, now) == RecordRule
      && MirrorPut(ClockedDelete(s, key, 6, now), key, p, now).1 == Applied
  {
    var key, p := "lsp:a", PutCall(Lsp(older, 0, 0), 7, 0);
    var s: Store<Val> := map[key := Entry(Lsp(newer, 0, 0), 5, None)];
    assert key[0] == 'l' && TOMB_PREFIX[0] == 't' && SKIP_PREFIX[0] == 'b' && "lsp:" <= key;
    assert Tomb(key)[0] == 't';
    assert CellOf(s, key, now) == Cell(Some(s[key]), None);
    ClockedDeleteCell(s, key, 6, now);
  }

  /******* Guarded records *******/

  /** Of the registry's own requests nothing is asked. What else is put under a guarded key is a record
      with its number, and a client puts it only over one with no greater number. */
  ghost predicate Mannered(s: Sys, step: Step, name: string) {
    match step
    case ClientPut(atBox, key, value, _, _) =>
      !IsTomb(key) &&
      (key == name ==>
        NumberOf(name, value).Some? && RecordAllows(name, value, Held(DoorCell(s, name, atBox))))
    case ClientDelete(_, key, _) => !IsTomb(key)
    case TakePut(key, p) => key == name ==> NumberOf(name, p.value).Some?
    case _ => true
  }

  ghost predicate Numbered(x: Cell, name: string) { x.v.Some? ==> NumberOf(name, x.v.value.value).Some? }

  /** From one cell of a guarded key to the next: if it held a record and still does, the number has
      not fallen. */
  ghost predicate NoFall(x: Cell, x': Cell, name: string) {
    Numbered(x', name) &&
    (x.v.Some? && x'.v.Some? && Numbered(x, name) ==>
      NumberOf(name, x'.v.value.value).value >= NumberOf(name, x.v.value.value).value)
  }

  lemma PutCellFacts(s: Store<Val>, key: string, value: Val, x: Expiry, clock: nat, name: string, now: nat)
    requires Mirrored(name) && !IsTomb(key)
    ensures
      var v := CellOf(ClockedPut(s, key, value, x, clock, now), name, now).v;
      if key != name then v == CellOf(s, name, now).v else v.Some? ==> v.value.value == value
  {
    if key != name {
      OtherCell(s, ClockedPut(s, key, value, x, clock, now), key, name, now);
    } else {
      ClockedPutCell(s, name, value, x, clock, now);
    }
  }

  lemma DeleteCellFacts(s: Store<Val>, key: string, clock: nat, name: string, now: nat)
    requires Mirrored(name) && !IsTomb(key)
    ensures
      var v := CellOf(ClockedDelete(s, key, clock, now), name, now).v;
      if key != name then v == CellOf(s, name, now).v else v.None?
  {
    if key != name {
      OtherCell(s, ClockedDelete(s, key, clock, now), key, name, now);
    } else {
      ClockedDeleteCell(s, name, clock, now);
    }
  }

  lemma WorkerGuardStep(h: seq<Sys>, step: Step, name: string)
    requires h != [] && Mirrored(name) && Guarded(name) && Mannered(h[|h| - 1], step, name)
    requires Numbered(WCell(h[|h| - 1], name), name)
    ensures NoFall(WCell(h[|h| - 1], name), WCell(Apply(h, step), name), name)
  {
    var s := h[|h| - 1];
    match step {
      case Serve(atBox, q, env) => if !atBox { Registry.RequestsOnlyRaise(s.d.worker, q, s.now, env, name); }
      case ClientPut(atBox, key, value, x, clock) =>
        if !atBox { PutCellFacts(s.d.worker, key, value, x, clock, name, s.now); }
      case ClientDelete(atBox, key, clock) =>
        if !atBox { DeleteCellFacts(s.d.worker, key, clock, name, s.now); }
      case TakePut(key, p) =>
        if key != name {
          MirrorOtherCell(s.d.worker, key, p, 0, name, s.now);
        } else if PutVerdict(key, WCell(s, name), p, s.now) == Applied {
          MirrorPutCell(s.d.worker, key, p, s.now);
        }
      case TakeDelete(key, clock) =>
        if key != name {
          MirrorOtherCell(s.d.worker, key, PutCall(Plain(""), 0, 0), clock, name, s.now);
        } else if DeleteVerdict(key, WCell(s, name), clock) == Applied {
          MirrorDeleteCell(s.d.worker, key, clock, s.now);
        }
      case _ =>
    }
  }

  lemma PullGuard(h: seq<Sys>, key: string, i: nat, j: nat, name: string)
    requires h != [] && Mirrored(name) && Guarded(name)
    requires Numbered(BCell(h[|h| - 1], name), name) && Numbered(WCell(h[|h| - 1], name), name)
    ensures NoFall(BCell(h[|h| - 1], name), CellOf(PulledBox(h, key, i, j), name, h[|h| - 1].now), name)
  {
    var s := h[|h| - 1];
    if key != name {
      if !IsTomb(key) { OtherCell(s.d.box, PulledBox(h, key, i, j), key, name, s.now); }
    }
  }

  lemma DeleteLocalGuard(box: Store<Val>, key: string, clock: nat, name: string, now: nat)
    requires Mirrored(key) && Mirrored(name)
    ensures
      var v' := CellOf(DeleteLocal(box, key, clock, now).0, name, now).v;
      v'.None? || v' == CellOf(box, name, now).v
  {
    TombInjective(name, name);
    if key != name {
      OtherCell(box, DeleteLocal(box, key, clock, now).0, key, name, now);
    }
  }

  lemma BoxGuardStep(h: seq<Sys>, step: Step, name: string)
    requires h != [] && Mirrored(name) && Guarded(name) && Mannered(h[|h| - 1], step, name)
    requires Numbered(BCell(h[|h| - 1], name), name) && Numbered(WCell(h[|h| - 1], name), name)
    ensures NoFall(BCell(h[|h| - 1], name), BCell(Apply(h, step), name), name)
  {
    var s := h[|h| - 1];
    match step {
      case Serve(atBox, q, env) => if atBox { Registry.RequestsOnlyRaise(s.d.box, q, s.now, env, name); }
      case ClientPut(atBox, key, value, x, clock) =>
        if atBox { PutCellFacts(s.d.box, key, value, x, clock, name, s.now); }
      case ClientDelete(atBox, key, clock) =>
        if atBox { DeleteCellFacts(s.d.box, key, clock, name, s.now); }
      case PullStep(key, i, j) => PullGuard(h, key, i, j, name);
      case DeleteLocalStep(key, clock) =>
        if Mirrored(key) { DeleteLocalGuard(s.d.box, key, clock, name, s.now); }
      case _ =>
    }
  }

  ghost predicate AllMannered(h: seq<Sys>, steps: seq<Step>, name: string)
    requires |h| == |steps| + 1
  {
    forall i :: 0 <= i < |steps| ==> Mannered(h[i], steps[i], name)
  }

  lemma {:induction false} AlwaysNumbered(h: seq<Sys>, steps: seq<Step>, name: string, i: nat)
    requires IsRun(h, steps) && Mirrored(name) && Guarded(name) && AllMannered(h, steps, name) && i < |h|
    requires Numbered(WCell(h[0], name), name) && Numbered(BCell(h[0], name), name)
    ensures Numbered(WCell(h[i], name), name) && Numbered(BCell(h[i], name), name)
  {
    hide NumberOf, Apply, Mannered, WCell, BCell, Mirrored, Guarded;
    if i > 0 {
      AlwaysNumbered(h, steps, name, i - 1);
      StepOf(h, steps, i - 1);
      assert h[..i][i - 1] == h[i - 1];
      WorkerGuardStep(h[..i], steps[i - 1], name);
      BoxGuardStep(h[..i], steps[i - 1], name);
    }
  }

  function HeldNumber(x: Cell, name: string): int
    requires x.v.Some? && NumberOf(name, x.v.value.value).Some?
  { NumberOf(name, x.v.value.value).value }

  lemma GuardStep(h: seq<Sys>, steps: seq<Step>, name: string, atBox: bool, i: nat)
    requires IsRun(h, steps) && Mirrored(name) && Guarded(name) && AllMannered(h, steps, name) && i < |steps|
    requires Numbered(WCell(h[0], name), name) && Numbered(BCell(h[0], name), name)
    ensures Numbered(DoorCell(h[i], name, atBox), name)
    ensures NoFall(DoorCell(h[i], name, atBox), DoorCell(h[i + 1], name, atBox), name)
  {
    hide WCell, BCell, NumberOf, Numbered, NoFall;
    AlwaysNumbered(h, steps, name, i);
    assert h[..i + 1][i] == h[i] && h[i + 1] == Apply(h[..i + 1], steps[i]);
    WorkerGuardStep(h[..i + 1], steps[i], name);
    BoxGuardStep(h[..i + 1], steps[i], name);
  }

  /** A guarded record never goes back: as long as the key stays present at a door, the number it holds
      there never falls, whatever mix of requests, mirror puts and pulls reaches it. */
  lemma {:induction false} GuardedNeverFalls(h: seq<Sys>, steps: seq<Step>, name: string, atBox: bool, i: nat, j: nat)
    requires IsRun(h, steps) && Mirrored(name) && Guarded(name) && AllMannered(h, steps, name)
    requires Numbered(WCell(h[0], name), name) && Numbered(BCell(h[0], name), name) && i <= j < |h|
    requires forall k :: i <= k <= j ==> DoorCell(h[k], name, atBox).v.Some?
    ensures
      var x, x' := DoorCell(h[i], name, atBox), DoorCell(h[j], name, atBox);
      Numbered(x, name) && Numbered(x', name) && HeldNumber(x, name) <= HeldNumber(x', name)
    decreases j
  {
    hide DoorCell, NumberOf, Apply, Mannered, AllMannered, Mirrored, Guarded, WCell, BCell;
    if i < j {
      GuardedNeverFalls(h, steps, name, atBox, i, j - 1);
      GuardStep(h, steps, name, atBox, j - 1);
    } else {
      AlwaysNumbered(h, steps, name, j);
      DoorNumbered(h[j], name, atBox);
    }
  }

  lemma DoorNumbered(s: Sys, name: string, atBox: bool)
    requires Numbered(WCell(s, name), name) && Numbered(BCell(s, name), name)
    ensures Numbered(DoorCell(s, name, atBox), name)
  {
  }
}

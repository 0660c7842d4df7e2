/**
 What a quiet cycle does: nobody writes between its listings and its copies, and nothing expires.
 Which keys it levels, how many it leaves, and that cycle after cycle brings the doors level.
 */
module Convergence {
  import opened Text
  import opened Kv
  import opened Records
  import opened MirrorRules
  import opened Doors
  import opened Paging
  import opened Reconcile
  import FilePath

  /******* One key *******/

  /** A key's cells at the two doors. */
  datatype Cells = Cells(b: Cell, w: Cell)

  function CellsOf(d: Pair, name: string, now: nat): Cells {
    Cells(CellOf(d.box, name, now), CellOf(d.worker, name, now))
  }

  ghost predicate Sound(c: Cells) { NoShadow(c.b) && NoShadow(c.w) }

  /** A key that is held has the spelling a listing of the box gives it. */
  ghost predicate Spelled(name: string, c: Cells) {
    FilePath.Canonical(name) || c == Cells(Cell(None, None), Cell(None, None))
  }

  predicate Level(c: Cells) { Settled(SideOf(c.w), SideOf(c.b)) }

  /** The copy a key's cells call for ends in an error response or a refusal of the file store. */
  predicate Throws(name: string, c: Cells) {
    var rs, ls := SideOf(c.w), SideOf(c.b);
    if RemoteWins(rs, ls) then
      !Fits(name) || (if rs.AsValue? then |name| > 300 else !Fits(Tomb(name)))
    else |name| > 300 || ls.c == 0 || (ls.AsValue? && !Fits(name))
  }

  /** The receiving side lets the winner in. Refused are: a record the guard will not replace, a value
      pushed at the very clock of the worker's tombstone, and a value about to expire. */
  predicate Movable(name: string, c: Cells, now: nat) {
    var rs, ls := SideOf(c.w), SideOf(c.b);
    if RemoteWins(rs, ls) then rs.AsValue? && c.w.v.Some? ==> RecordAllows(name, c.w.v.value.value, Held(c.b))
    else
      ls.AsValue? && c.b.v.Some? ==>
        && !(rs.AsTomb? && rs.c == ls.c)
        && RecordAllows(name, c.b.v.value.value, Held(c.w))
        && !(c.b.v.value.exp.Some? && TooSoon(c.b.v.value.exp.value, now))
  }

  /** The copy itself: the winning entry as it stands, or a fresh tombstone at its clock. */
  function Copied(c: Cells, now: nat): Cells {
    var rs, ls := SideOf(c.w), SideOf(c.b);
    if RemoteWins(rs, ls) then
      (if rs.AsValue? then c.(b := c.b.(v := c.w.v))
       else if rs.AsTomb? then c.(b := Cell(None, Some(TombEntry(rs.c, now)))) else c)
    else
      (if ls.AsValue? then c.(w := c.w.(v := c.b.v))
       else if ls.AsTomb? then c.(w := Cell(None, Some(TombEntry(ls.c, now)))) else c)
  }

  /** What one copy does to the key's own cells, and that it fails, moves and levels exactly when
      `Throws` and `Movable` say. */
  lemma ActOnCells(d: Pair, name: string, now: nat)
    requires Mirrored(name) && Sound(CellsOf(d, name, now)) && !Level(CellsOf(d, name, now))
    ensures
      var c := CellsOf(d, name, now);
      var (d', o) := Act(d, name, SideOf(c.w), SideOf(c.b), now);
      && (o == Failed <==> Throws(name, c))
      && (o == Moved <==> !Throws(name, c) && Movable(name, c, now))
      && (o != Moved ==> d' == d)
      && (o == Moved ==> CellsOf(d', name, now) == Copied(c, now))
  {
    var c := CellsOf(d, name, now);
    var rs, ls := SideOf(c.w), SideOf(c.b);
    TombInjective(name, name);
    if RemoteWins(rs, ls) {
      if rs.AsValue? {
        assert c.w.v.value == Written(c.w.v.value.value,
          if rs.exp.Some? then Until(rs.exp.value) else Never, c.w.v.value.c, now);
      } else {
        TombLives(rs.c, now);
      }
    } else if ls.AsValue? {
      var p := PutCall(c.b.v.value.value, ls.c, if ls.exp.Some? then ls.exp.value else 0);
      if PutVerdict(name, c.w, p, now) == Applied {
        MirrorPutCell(d.worker, name, p, now);
        assert PutEntry(p) == c.b.v.value;
      }
    } else {
      if DeleteVerdict(name, c.w, ls.c) == Applied {
        MirrorDeleteCell(d.worker, name, ls.c, now);
      }
    }
  }

  /******* What the conditions mean *******/

  /** Two doors show one write: nothing at both, or a value or a deletion at one clock. */
  ghost predicate OneMoment(a: Shown, b: Shown) {
    || (a.Bare? && b.Bare?)
    || (a.Holds? && b.Holds? && a.clock == b.clock)
    || (a.Deleted? && b.Deleted? && a.clock == b.clock)
  }

  function ClockShown(s: Shown): nat { if s.Bare? then 0 else s.clock }

  /** Whether the worker's is the later write: of a value and a deletion at one clock, a worker's value is. */
  predicate WorkerLater(b: Shown, w: Shown) {
    b.Bare? ||
    (!w.Bare? && (ClockShown(w) > ClockShown(b) || (ClockShown(w) == ClockShown(b) && w.Holds? && b.Deleted?)))
  }

  /** What the last write to the key left. */
  function Winner(c: Cells): Shown {
    if WorkerLater(Show(c.b), Show(c.w)) then Show(c.w) else Show(c.b)
  }

  /** A key is level exactly when the doors show one write. */
  lemma LevelIff(c: Cells)
    requires Sound(c)
    ensures Level(c) <==> OneMoment(Show(c.b), Show(c.w))
  {
  }

  /** A call fails exactly when a door has no place for what it would store, the key is over 300
      characters where it travels in a call, or the box's side has no clock. */
  lemma ThrowsIff(name: string, c: Cells)
    requires Sound(c) && !OneMoment(Show(c.b), Show(c.w))
    ensures
      var b, w := Show(c.b), Show(c.w);
      Throws(name, c) <==>
      if WorkerLater(b, w) then
        !FilePath.Split(name).Ok? || (w.Holds? && |name| > 300) || (w.Deleted? && !FilePath.Split("tomb:" + name).Ok?)
      else |name| > 300 || ClockShown(b) == 0 || (b.Holds? && !FilePath.Split(name).Ok?)
  {
    hide FilePath.Split;
  }

  /** The receiving side refuses exactly a record of a lower number than its own, and, of what the box
      pushes, a value at the clock of the worker's deletion and one that expires within a minute. */
  lemma MovableIff(name: string, c: Cells, now: nat)
    requires Sound(c) && !OneMoment(Show(c.b), Show(c.w))
    ensures
      var b, w := Show(c.b), Show(c.w);
      !Movable(name, c, now) <==>
      (if WorkerLater(b, w) then w.Holds? && !RecordAllows(name, w.value, Held(c.b))
       else
         b.Holds? && (
           || (w.Deleted? && w.clock == b.clock)
           || !RecordAllows(name, b.value, Held(c.w))
           || (c.b.v.value.exp.Some? && 0 < 1000 * c.b.v.value.exp.value < now + 60 * 1000)))
  {
    hide RecordAllows;
  }

  /** The copy levels the key: both doors then show the last write, bytes included. */
  lemma CopiedLevels(name: string, c: Cells, now: nat)
    requires Sound(c) && !Level(c) && Movable(name, c, now)
    ensures Level(Copied(c, now)) && Sound(Copied(c, now))
    ensures Show(Copied(c, now).b) == Show(Copied(c, now).w) == Winner(c)
  {
    hide RecordAllows;
  }

  lemma ActElsewhere(d: Pair, name: string, rs: Side, ls: Side, other: string, now: nat)
    requires !Settled(rs, ls) && Mirrored(name) && Mirrored(other) && other != name
    ensures CellsOf(Act(d, name, rs, ls, now).0, other, now) == CellsOf(d, other, now)
  {
    var d' := Act(d, name, rs, ls, now).0;
    ActTouches(d, name, rs, ls, now);
    hide Act, CellOf;
    OtherCell(d.box, d'.box, name, other, now);
    OtherCell(d.worker, d'.worker, name, other, now);
  }

  /** The entries a copy may change are the key's value and its tombstone. */
  lemma ActTouches(d: Pair, name: string, rs: Side, ls: Side, now: nat)
    requires !Settled(rs, ls)
    ensures
      var d' := Act(d, name, rs, ls, now).0;
      && (forall k :: k != name && k != Tomb(name) ==>
           (k in d.box <==> k in d'.box) && (k in d.box ==> d.box[k] == d'.box[k]))
      && (forall k :: k != name && k != Tomb(name) ==>
           (k in d.worker <==> k in d'.worker) && (k in d.worker ==> d.worker[k] == d'.worker[k]))
  {
    hide RecordAllows, Fits, ExpiresAt;
  }

  /******* One cycle *******/

  /** The names a cycle would work on, in its order. */
  function Todo(d: Pair, names: seq<string>, now: nat): seq<string> {
    if names == [] then []
    else
      (if Mirrored(names[0]) && !Level(CellsOf(d, names[0], now)) then [names[0]] else []) + Todo(d, names[1..], now)
  }

  ghost predicate SoundPair(d: Pair, now: nat) {
    forall n :: Mirrored(n) ==> Sound(CellsOf(d, n, now)) && Spelled(n, CellsOf(d, n, now))
  }

  /** Within `room` operations: the names reached. */
  function Reached(d: Pair, names: seq<string>, room: nat, now: nat): seq<string> {
    var todo := Todo(d, names, now);
    todo[..Min(|todo|, room)]
  }

  ghost predicate Distinct(names: seq<string>) {
    forall i, j :: 0 <= i < j < |names| ==> names[i] != names[j]
  }

  lemma {:induction false} TodoMembers(d: Pair, names: seq<string>, now: nat)
    ensures forall n :: n in Todo(d, names, now) <==> n in names && Mirrored(n) && !Level(CellsOf(d, n, now))
    ensures Distinct(names) ==> Distinct(Todo(d, names, now))
  {
    if names != [] {
      TodoMembers(d, names[1..], now);
      assert names == [names[0]] + names[1..];
      if Distinct(names) {
        assert names[0] !in names[1..];
      }
    }
  }

  /** What becomes of one key's cells in a quiet cycle. */
  function CellsAfter(d: Pair, reached: seq<string>, name: string, now: nat): Cells {
    var c := CellsOf(d, name, now);
    if name in reached && Movable(name, c, now) then Copied(c, now) else c
  }

  ghost predicate SameCells(a: Pair, b: Pair, names: seq<string>, now: nat) {
    forall n :: n in names && Mirrored(n) ==> CellsOf(a, n, now) == CellsOf(b, n, now)
  }

  lemma ReachedStep(d: Pair, names: seq<string>, room: nat, now: nat)
    requires names != [] && Distinct(names)
    ensures
      var name, rest, todo := names[0], names[1..], Todo(d, names, now);
      var work := Mirrored(name) && !Level(CellsOf(d, name, now));
      && name !in Reached(d, rest, room, now)
      && |todo| == (if work then 1 else 0) + |Todo(d, rest, now)|
      && Reached(d, names, room, now) ==
         (if !work then Reached(d, rest, room, now)
          else if room == 0 then [] else [name] + Reached(d, rest, room - 1, now))
      && (room == 0 ==> Reached(d, names, room, now) == [])
      && (room > 0 && work ==> name !in Reached(d, rest, room - 1, now))
  {
    hide CellsOf, Level, Mirrored;
    TodoMembers(d, names[1..], now);
    assert names[0] !in names[1..];
  }

  /** What a quiet run has done once it is over: it failed exactly when one of the names reached
      throws; else every name reached got its copy, every other name is as it was, and those not
      reached are counted left. */
  ghost predicate QuietRun(d: Pair, p: Progress, r: Progress, names: seq<string>, reached: seq<string>, todo: nat,
          now: nat) {
    && (r.failed <==> exists n :: n in reached && Throws(n, CellsOf(d, n, now)))
    && (!r.failed ==>
         && r.n.left == p.n.left + todo - |reached|
         && (forall n :: Mirrored(n) && n in names ==> CellsOf(r.d, n, now) == CellsAfter(d, reached, n, now))
         && (forall n :: Mirrored(n) && n !in names ==> CellsOf(r.d, n, now) == CellsOf(p.d, n, now)))
  }

  lemma QuietCons(d: Pair, p: Progress, p': Progress, r: Progress, name: string, rest: seq<string>,
                  more: seq<string>, todo: nat, acted: bool, passed: bool, now: nat)
    requires name !in rest && name !in more && QuietRun(d, p', r, rest, more, todo, now)
    requires forall n :: Mirrored(n) && n != name ==> CellsOf(p'.d, n, now) == CellsOf(p.d, n, now)
    requires !(acted && passed) && p'.n.left == p.n.left + (if passed then 1 else 0) && (passed ==> more == [])
    requires acted ==> !Throws(name, CellsOf(d, name, now))
    requires Mirrored(name) ==> CellsOf(p'.d, name, now) == CellsAfter(d, if acted then [name] else [], name, now)
    ensures
      QuietRun(d, p, r, [name] + rest, (if acted then [name] else []) + more,
               (if acted || passed then 1 else 0) + todo, now)
  {
    hide CellsOf, Movable, Copied, Throws, Mirrored;
    var reached := (if acted then [name] else []) + more;
    assert forall n :: n in reached <==> (acted && n == name) || n in more;
    assert forall n :: n in [name] + rest <==> n == name || n in rest;
  }

  /** The first name of a quiet run, and what is left for the others. */
  ghost predicate QuietHead(d: Pair, p: Progress, p': Progress, names: seq<string>, acted: bool, passed: bool, now: nat)
    requires names != [] && p.ops <= MAX_OPS
  {
    var name, rest, room := names[0], names[1..], MAX_OPS - p.ops;
    && name !in rest && !(acted && passed) && p'.ops == p.ops + (if acted then 1 else 0) && p'.ops <= MAX_OPS
    && (forall n :: Mirrored(n) && n != name ==> CellsOf(p'.d, n, now) == CellsOf(p.d, n, now))
    && |Todo(d, names, now)| == (if acted || passed then 1 else 0) + |Todo(d, rest, now)|
    && (passed ==> Reached(d, rest, 0, now) == [] && p'.ops == MAX_OPS)
    && name !in Reached(d, rest, MAX_OPS - p'.ops, now)
    && Reached(d, names, room, now) == (if acted then [name] else []) + Reached(d, rest, MAX_OPS - p'.ops, now)
    && (p'.failed <==> acted && Throws(name, CellsOf(d, name, now)))
    && (!p'.failed ==>
         && p'.n.left == p.n.left + (if passed then 1 else 0)
         && (Mirrored(name) ==> CellsOf(p'.d, name, now) == CellsAfter(d, if acted then [name] else [], name, now)))
  }

  lemma QuietHeadHolds(d: Pair, p: Progress, names: seq<string>, now: nat) returns (acted: bool, passed: bool)
    requires SoundPair(d, now) && Distinct(names) && SameCells(p.d, d, names, now)
    requires !p.failed && p.ops <= MAX_OPS && names != []
    ensures
      QuietHead(d, p, Visit(p, names[0], ListingOf(d.worker, now), ListingOf(d.box, now), now), names, acted, passed,
          now)
  {
    QuietVisit(d, p, names[0], now);
    ReachedStep(d, names, MAX_OPS - p.ops, now);
    var work := Mirrored(names[0]) && !Level(CellsOf(d, names[0], now));
    acted, passed := work && p.ops < MAX_OPS, work && p.ops == MAX_OPS;
    hide Visit, CellsOf, Movable, Copied, Throws, Level, Mirrored, ListingOf, Todo;
  }

  lemma {:induction false} VisitAllQuiet(d: Pair, p: Progress, names: seq<string>, now: nat)
    requires SoundPair(d, now) && Distinct(names) && SameCells(p.d, d, names, now)
    requires !p.failed && p.ops <= MAX_OPS
    ensures
      QuietRun(d, p, VisitAll(p, names, ListingOf(d.worker, now), ListingOf(d.box, now), now), names,
               Reached(d, names, MAX_OPS - p.ops, now), |Todo(d, names, now)|, now)
    decreases |names|
  {
    hide Visit, CellsOf, Movable, Copied, Throws, Level, Mirrored, ListingOf;
    var remote, local := ListingOf(d.worker, now), ListingOf(d.box, now);
    if names == [] {
      assert SameCells(p.d, d, names, now);
    } else {
      var name, rest := names[0], names[1..];
      var p' := Visit(p, name, remote, local, now);
      var acted, passed := QuietHeadHolds(d, p, names, now);
      hide Todo, Reached;
      if p'.failed {
        FailedStops(p', rest, remote, local, now);
        assert name in Reached(d, names, MAX_OPS - p.ops, now);
      } else {
        VisitAllQuiet(d, p', rest, now);
        QuietCons(d, p, p', VisitAll(p', rest, remote, local, now), name, rest,
                  Reached(d, rest, MAX_OPS - p'.ops, now), |Todo(d, rest, now)|, acted, passed, now);
        assert names == [name] + rest;
      }
    }
  }

  lemma QuietVisit(d: Pair, p: Progress, name: string, now: nat)
    requires SoundPair(d, now) && !p.failed && p.ops <= MAX_OPS
    requires Mirrored(name) ==> CellsOf(p.d, name, now) == CellsOf(d, name, now)
    ensures
      var p' := Visit(p, name, ListingOf(d.worker, now), ListingOf(d.box, now), now);
      var c := CellsOf(d, name, now);
      var work := Mirrored(name) && !Level(c);
      && (forall n :: Mirrored(n) && n != name ==> CellsOf(p'.d, n, now) == CellsOf(p.d, n, now))
      && (!work ==> p' == p)
      && (work && p.ops == MAX_OPS ==> p' == p.(n := p.n.(left := p.n.left + 1)))
      && (work && p.ops < MAX_OPS ==>
           && p'.ops == p.ops + 1 && p'.n.left == p.n.left
           && (p'.failed <==> Throws(name, c))
           && (!p'.failed ==> CellsOf(p'.d, name, now) == if Movable(name, c, now) then Copied(c, now) else c))
  {
    if Mirrored(name) {
      var c := CellsOf(d, name, now);
      ListingShowsCells(d.worker, name, now);
      ListingShowsCells(d.box, name, now);
      if !Level(c) && p.ops < MAX_OPS {
        ActOnCells(p.d, name, now);
        forall n | Mirrored(n) && n != name
          ensures CellsOf(Act(p.d, name, SideOf(c.w), SideOf(c.b), now).0, n, now) == CellsOf(p.d, n, now)
        {
          ActElsewhere(p.d, name, SideOf(c.w), SideOf(c.b), n, now);
        }
      }
    }
  }

  /******* The cycle as a whole *******/

  ghost function Unlevel(d: Pair, now: nat): seq<string> {
    Todo(d, Sorted(NamesIn(ListingOf(d.worker, now)) + NamesIn(ListingOf(d.box, now))), now)
  }

  lemma ListedWhenPresent(s: Store<Val>, name: string, now: nat)
    requires Mirrored(name)
    ensures !SideOf(CellOf(s, name, now)).Absent? ==> name in NamesIn(ListingOf(s, now))
  {
    TombInjective(name, name);
    assert Strip(name) == name && Strip(Tomb(name)) == name;
    var l := ListingOf(s, now);
    if CellOf(s, name, now).v.Some? {
      assert name in l;
    } else if CellOf(s, name, now).t.Some? {
      assert Tomb(name) in l;
    }
  }

  /** A cycle works from every unlevel key, in order, each once. */
  lemma UnlevelIsAll(d: Pair, now: nat)
    ensures Ascending(Unlevel(d, now))
    ensures forall n :: n in Unlevel(d, now) <==> Mirrored(n) && !Level(CellsOf(d, n, now))
  {
    var names := Sorted(NamesIn(ListingOf(d.worker, now)) + NamesIn(ListingOf(d.box, now)));
    TodoMembers(d, names, now);
    TodoAscending(d, names, now);
    forall n | Mirrored(n) && !Level(CellsOf(d, n, now)) ensures n in names {
      ListedWhenPresent(d.worker, n, now);
      ListedWhenPresent(d.box, n, now);
    }
  }

  lemma {:induction false} TodoAscending(d: Pair, names: seq<string>, now: nat)
    requires Ascending(names)
    ensures Ascending(Todo(d, names, now))
  {
    if names != [] {
      TodoAscending(d, names[1..], now);
      TodoMembers(d, names[1..], now);
      hide CellsOf, Level;
      var rest := Todo(d, names[1..], now);
      forall i | 0 <= i < |rest| ensures Less(names[0], rest[i]) {
        assert rest[i] in names[1..];
        var j :| 0 <= j < |names| - 1 && names[1..][j] == rest[i];
        assert Less(names[0], names[j + 1]);
      }
    }
  }

  lemma AscendingIsDistinct(names: seq<string>)
    requires Ascending(names)
    ensures Distinct(names)
  {
    forall i, j | 0 <= i < j < |names| ensures names[i] != names[j] {
      LessTrichotomy(names[i], names[j]);
    }
  }

  /** The first 300 of the unlevel keys. */
  ghost function Batch(d: Pair, now: nat): seq<string> {
    var u := Unlevel(d, now);
    u[..Min(|u|, MAX_OPS)]
  }

  lemma ShortListing(s: Store<Val>, now: nat)
    requires |s| <= 100 * 1000
    ensures RemoteListing(s, now) == ListingOf(s, now)
  {
    var view := View(s, now);
    assert view.Keys <= s.Keys;
    SetSizes(view.Keys, s.Keys);
    var names := Sorted(view.Keys);
    ListedSize(names, view.Keys);
    assert names[..|names|] == names;
    assert forall k :: k in names <==> k in view.Keys;
  }

  lemma SetSizes(a: set<string>, b: set<string>)
    requires a <= b
    ensures |a| <= |b|
  {
    assert b == a + (b - a);
  }

  lemma {:induction false} ListedSize(names: seq<string>, s: set<string>)
    requires Lists(names, s)
    ensures |names| == |s|
  {
    if names == [] {
      assert s == {};
    } else {
      assert names[0] in names;
      ListingTail(names, s);
      ListedSize(names[1..], s - {names[0]});
    }
  }

  /** The live keys before a key. */
  function Earlier(s: Store<Val>, now: nat, k: string): set<string> {
    set m | m in s && Live(s[m], now) && Less(m, k)
  }

  /** The listing the box gets of the worker holds exactly the live mirrorable keys that fewer than 100,000
      live keys come before, each with its clock and expiry. */
  lemma RemoteListingIff(s: Store<Val>, now: nat, k: string)
    ensures
      var l := RemoteListing(s, now);
      && (k in l <==>
           k in s && Live(s[k], now) && Mirrorable(k) && |Earlier(s, now, k)| < 100000)
      && (k in l ==> l[k].c == s[k].c && l[k].exp == s[k].exp)
  {
    var live := View(s, now).Keys;
    var names := Sorted(live);
    assert Earlier(s, now, k) == Before(live, k) by { hide Less, Lists, RemoteListing, Mirrorable, Live; }
    RemoteListingHolds(s, now, k);
    hide RemoteListing, Less, Before, Earlier, Mirrorable;
    if k in live {
      HeadIsCount(names, live, k, 100 * 1000);
    } else {
      NotInHead(names, live, k, Min(|names|, 100 * 1000));
    }
  }

  lemma NotInHead(names: seq<string>, live: set<string>, k: string, n: nat)
    requires Lists(names, live) && k !in live && n <= |names|
    ensures k !in names[..n]
  {
  }

  lemma RemoteListingHolds(s: Store<Val>, now: nat, k: string)
    ensures
      var l, names := RemoteListing(s, now), Sorted(View(s, now).Keys);
      && (k in l <==> k in names[..Min(|names|, 100 * 1000)] && k in s && Mirrorable(k))
      && (k in l ==> l[k].c == s[k].c && l[k].exp == s[k].exp)
  {
    hide View, Lists, Mirrorable, Less;
  }

  lemma HeadIsCount(names: seq<string>, live: set<string>, k: string, n: nat)
    requires Lists(names, live) && k in live
    ensures k in names[..Min(|names|, n)] <==> |Before(live, k)| < n
  {
    PlaceIsCount(names, live, k, Min(|names|, n));
    ListedSize(names, live);
    LessTrichotomy(k, k);
    SetSizes(Before(live, k), live - {k});
  }

  /** In a listing, a name's place is the number of names before it. */
  lemma PlaceIsCount(names: seq<string>, live: set<string>, k: string, n: nat)
    requires Lists(names, live) && k in live && n <= |names|
    ensures k in names[..n] <==> |Before(live, k)| < n
  {
    assert k in names;
    var i :| 0 <= i < |names| && names[i] == k;
    hide Less;
    LessTrichotomy(k, k);
    forall m ensures m in names[..i] <==> m in Before(live, k) {
      if m in names[..i] {
        var j :| 0 <= j < i && names[..i][j] == m;
        assert m in names && Less(names[j], names[i]);
      }
      if m in Before(live, k) {
        assert m in names;
        var j :| 0 <= j < |names| && names[j] == m;
        LessTrichotomy(m, k);
        assert j < i;
        assert names[..i][j] == m;
      }
    }
    ListedSize(names[..i], Before(live, k));
    if i < n { assert names[..n][i] == k; }
    if k in names[..n] {
      var j :| 0 <= j < n && names[..n][j] == k;
      assert names[j] == names[i];
      AscendingOnce(names, i, j);
    }
  }

  /** A quiet cycle fails exactly when a key of its batch throws. When it does not fail, the movable
      keys of the batch are copied, every other key stays as it was, and what is beyond the batch is
      reported as left. */
  lemma QuietCycle(d: Pair, now: nat)
    requires SoundPair(d, now) && |d.worker| <= 100 * 1000
    ensures
      var r := CycleOf(d, now);
      && (r.failed <==> exists n :: n in Batch(d, now) && Throws(n, CellsOf(d, n, now)))
      && (!r.failed ==>
           && r.n.left == |Unlevel(d, now)| - |Batch(d, now)|
           && forall n :: Mirrored(n) ==> CellsOf(r.d, n, now) == CellsAfter(d, Batch(d, now), n, now))
  {
    ShortListing(d.worker, now);
    var names := Sorted(NamesIn(ListingOf(d.worker, now)) + NamesIn(ListingOf(d.box, now)));
    AscendingIsDistinct(names);
    TodoMembers(d, names, now);
    hide CellsOf, Movable, Copied, Throws, Level, Mirrored, ListingOf, VisitAll, Less;
    VisitAllQuiet(d, Progress(d, START_TALLY, 0, false), names, now);
  }

  /** Of some names, those whose copy the receiving side refuses. */
  function StillRefused(d: Pair, names: seq<string>, now: nat): seq<string> {
    if names == [] then []
    else
      (if Movable(names[0], CellsOf(d, names[0], now), now) then [] else [names[0]])
      + StillRefused(d, names[1..], now)
  }

  lemma {:induction false} StillRefusedFacts(d: Pair, names: seq<string>, now: nat)
    requires Ascending(names)
    ensures Ascending(StillRefused(d, names, now))
    ensures forall n :: n in StillRefused(d, names, now) <==> n in names && !Movable(n, CellsOf(d, n, now), now)
  {
    hide CellsOf, Movable, Less;
    if names != [] {
      var rest := StillRefused(d, names[1..], now);
      StillRefusedFacts(d, names[1..], now);
      assert names == [names[0]] + names[1..];
      forall i | 0 <= i < |rest| ensures Less(names[0], rest[i]) {
        assert rest[i] in names[1..];
        var j :| 0 <= j < |names| - 1 && names[1..][j] == rest[i];
        assert Less(names[0], names[j + 1]);
      }
    }
  }

  /** What a quiet cycle leaves: the refused keys of its batch, as they were, and then the rest of the
      list. A key once level stays level, and the movable keys of the batch come out level. */
  lemma QuietCycleLeaves(d: Pair, now: nat)
    requires SoundPair(d, now) && |d.worker| <= 100 * 1000
    requires forall n :: n in Batch(d, now) ==> !Throws(n, CellsOf(d, n, now))
    ensures
      var r := CycleOf(d, now);
      && !r.failed && SoundPair(r.d, now)
      && Unlevel(r.d, now) == StillRefused(d, Batch(d, now), now) + Unlevel(d, now)[|Batch(d, now)|..]
      && r.n.left == |Unlevel(d, now)| - |Batch(d, now)|
      && (forall n :: Mirrored(n) && (n in Batch(d, now) ==> !Movable(n, CellsOf(d, n, now), now)) ==>
           CellsOf(r.d, n, now) == CellsOf(d, n, now))
      && (forall n :: n in Batch(d, now) && Movable(n, CellsOf(d, n, now), now) ==>
           && Mirrored(n) && Level(CellsOf(r.d, n, now))
           && Show(CellsOf(r.d, n, now).b) == Show(CellsOf(r.d, n, now).w) == Winner(CellsOf(d, n, now)))
  {
    var r, u, batch := CycleOf(d, now), Unlevel(d, now), Batch(d, now);
    QuietCycle(d, now);
    UnlevelIsAll(d, now);
    hide CycleOf, CellsOf, StillRefused, Less, Mirrored, Sound, Spelled, Show, Level, Throws, Winner;
    forall n | n in batch ensures Mirrored(n) && !Level(CellsOf(d, n, now)) {
      assert n in u;
    }
    hide Batch, Unlevel;
    CopiesOfBatch(d, r.d, batch, now);
    LeftInOrder(d, r.d, batch, now);
    forall n | Mirrored(n) ensures Sound(CellsOf(r.d, n, now)) && Spelled(n, CellsOf(r.d, n, now)) {
      assert BatchCopy(d, r.d, n, n in batch, now);
    }
    assert forall n :: Mirrored(n) ==> BatchCopy(d, r.d, n, n in batch, now);
  }

  lemma CopiesOfBatch(d: Pair, d': Pair, batch: seq<string>, now: nat)
    requires SoundPair(d, now)
    requires forall n :: n in batch ==> Mirrored(n) && !Level(CellsOf(d, n, now))
    requires forall n :: Mirrored(n) ==> CellsOf(d', n, now) == CellsAfter(d, batch, n, now)
    ensures forall n :: Mirrored(n) ==> BatchCopy(d, d', n, n in batch, now)
  {
    hide CellsOf, Mirrored, RecordAllows, Movable, Show, Winner, FilePath.Canonical;
    forall n | Mirrored(n) ensures BatchCopy(d, d', n, n in batch, now) {
      if n in batch && Movable(n, CellsOf(d, n, now), now) {
        CopiedLevels(n, CellsOf(d, n, now), now);
      }
    }
  }

  /** What a batch leaves of the list, in its order. */
  lemma RestOfBatch(d: Pair, batch: seq<string>, now: nat)
    requires batch == Batch(d, now)
    ensures
      var left := StillRefused(d, batch, now) + Unlevel(d, now)[|batch|..];
      && Ascending(left)
      && forall n :: n in left <==> n in Unlevel(d, now) && !(n in batch && Movable(n, CellsOf(d, n, now), now))
  {
    hide CellsOf, Movable, Mirrored, Level, Unlevel, StillRefused, Less;
    var u := Unlevel(d, now);
    UnlevelIsAll(d, now);
    AscendingIsDistinct(u);
    RestOfList(u, |batch|);
    assert u == batch + u[|batch|..] && Ascending(batch);
    StillRefusedFacts(d, batch, now);
    AscendingJoin(u, |batch|, StillRefused(d, batch, now));
  }

  /** The unlevel keys after a cycle, in their order. */
  lemma LeftInOrder(d: Pair, d': Pair, batch: seq<string>, now: nat)
    requires batch == Batch(d, now) && forall n :: Mirrored(n) ==> BatchCopy(d, d', n, n in batch, now)
    ensures Unlevel(d', now) == StillRefused(d, batch, now) + Unlevel(d, now)[|batch|..]
  {
    UnlevelIsAll(d, now);
    UnlevelIsAll(d', now);
    RestOfBatch(d, batch, now);
    hide Batch, Unlevel, CellsOf, StillRefused, Less, Mirrored, Sound, Spelled, Show, Level, Movable, Winner, Ascending;
    var left := StillRefused(d, batch, now) + Unlevel(d, now)[|batch|..];
    forall n ensures n in Unlevel(d', now) <==> n in left {
      assert Mirrored(n) ==> BatchCopy(d, d', n, n in batch, now);
    }
    OneOrder(Unlevel(d', now), left);
  }

  lemma OneOrder(a: seq<string>, b: seq<string>)
    requires Ascending(a) && Ascending(b) && forall n :: n in a <==> n in b
    ensures a == b
  {
    ListingUnique(a, b, set n | n in a);
  }

  /** What a quiet cycle does to one key's cells. */
  ghost predicate BatchCopy(d: Pair, d': Pair, n: string, acted: bool, now: nat) {
    var c, c' := CellsOf(d, n, now), CellsOf(d', n, now);
    if acted && Movable(n, c, now)
    then Sound(c') && Spelled(n, c') && Level(c') && Show(c'.b) == Show(c'.w) == Winner(c)
    else c' == c
  }

  lemma AscendingJoin(u: seq<string>, k: nat, kept: seq<string>)
    requires Ascending(u) && k <= |u| && Ascending(kept) && forall n :: n in kept ==> n in u[..k]
    ensures Ascending(kept + u[k..])
  {
    var all := kept + u[k..];
    forall i, j | 0 <= i < j < |all| ensures Less(all[i], all[j]) {
      if i < |kept| <= j {
        assert kept[i] in u[..k];
        var a :| 0 <= a < k && u[..k][a] == kept[i];
        assert all[j] == u[k + (j - |kept|)] && Less(u[a], u[k + (j - |kept|)]);
      } else if i >= |kept| {
        assert Less(u[k + (i - |kept|)], u[k + (j - |kept|)]);
      }
    }
  }

  lemma RestOfList(u: seq<string>, k: nat)
    requires Ascending(u) && Distinct(u) && k <= |u|
    ensures Ascending(u[k..]) && forall n :: n in u[k..] <==> n in u && n !in u[..k]
  {
    assert u == u[..k] + u[k..];
    forall n | n in u[k..] ensures n !in u[..k] {
      var j :| 0 <= j < |u| - k && u[k..][j] == n;
      assert u[k + j] == n;
    }
    forall i, j | 0 <= i < j < |u| - k ensures Less(u[k..][i], u[k..][j]) {
      assert Less(u[k + i], u[k + j]);
    }
  }

  /** A cycle moves nothing exactly when its whole batch is refused. */
  lemma StarvedIff(d: Pair, now: nat)
    requires SoundPair(d, now) && |d.worker| <= 100 * 1000 && !CycleOf(d, now).failed
    ensures
      (forall n :: Mirrored(n) ==> CellsOf(CycleOf(d, now).d, n, now) == CellsOf(d, n, now))
      <==>
      (forall n :: n in Batch(d, now) ==> !Movable(n, CellsOf(d, n, now), now))
  {
    QuietCycle(d, now);
    UnlevelIsAll(d, now);
    forall n | n in Batch(d, now) && Movable(n, CellsOf(d, n, now), now)
      ensures Mirrored(n) && CellsOf(CycleOf(d, now).d, n, now) != CellsOf(d, n, now)
    {
      assert n in Unlevel(d, now);
      CopiedLevels(n, CellsOf(d, n, now), now);
    }
  }

  /******* Cycle after cycle *******/

  ghost function Cycles(d: Pair, times: seq<nat>): Pair
    decreases |times|
  {
    if times == [] then d else Cycles(CycleOf(d, times[0]).d, times[1..])
  }

  ghost predicate Rising(times: seq<nat>, from: nat, horizon: nat) {
    if times == [] then from <= horizon else from <= times[0] && Rising(times[1..], times[0], horizon)
  }

  predicate OutlastsEntry(e: Option<Entry<Val>>, horizon: nat) {
    e.Some? && e.value.exp.Some? ==> e.value.exp.value * 1000 >= horizon + 60000
  }

  predicate Outlasts(c: Cells, horizon: nat) {
    OutlastsEntry(c.b.v, horizon) && OutlastsEntry(c.b.t, horizon) && OutlastsEntry(c.w.v, horizon)
        && OutlastsEntry(c.w.t, horizon)
  }

  /** What is asked of one key: no value in a tombstone's shadow, no expiry before the horizon, and where
      the doors show one write, of one kind and at one clock, that its bytes are the same; where they do
      not, that the copy's call does not fail. Whether the receiving side takes the copy is left open. */
  ghost predicate Promising(name: string, c: Cells, horizon: nat) {
    && Sound(c) && Spelled(name, c) && Outlasts(c, horizon)
    && (if OneMoment(Show(c.b), Show(c.w)) then Show(c.b) == Show(c.w) else !Throws(name, c))
  }

  /** Two doors with a quiet stretch before them: up to the horizon, which the tombstones written on
      the way outlast, and with no more keys than the listing holds. */
  ghost predicate Quiet(d: Pair, now: nat, horizon: nat, keys: set<string>) {
    && now <= horizon && horizon + 61000 <= now + 7 * 24 * 3600 * 1000
    && d.box.Keys <= keys && d.worker.Keys <= keys && |keys| <= 100 * 1000
    && forall n :: Mirrored(n) ==> Promising(n, CellsOf(d, n, now), horizon)
  }

  /** The unlevel keys whose copy the receiving side refuses, and those it takes. */
  ghost function Refused(d: Pair, now: nat): set<string> {
    set n | n in Unlevel(d, now) && !Movable(n, CellsOf(d, n, now), now)
  }

  ghost function Waiting(d: Pair, now: nat): set<string> {
    set n | n in Unlevel(d, now) && Movable(n, CellsOf(d, n, now), now)
  }

  lemma PromiseKept(d: Pair, name: string, now: nat, later: nat, horizon: nat)
    requires Promising(name, CellsOf(d, name, now), horizon) && now <= later <= horizon
    ensures CellsOf(d, name, later) == CellsOf(d, name, now)
    ensures Movable(name, CellsOf(d, name, now), later) == Movable(name, CellsOf(d, name, now), now)
  {
    hide RecordAllows, Show, Throws, Spelled;
  }

  lemma TimePasses(d: Pair, now: nat, later: nat, horizon: nat, keys: set<string>)
    requires Quiet(d, now, horizon, keys) && now <= later <= horizon
    ensures Quiet(d, later, horizon, keys) && Unlevel(d, later) == Unlevel(d, now)
    ensures Refused(d, later) == Refused(d, now) && Waiting(d, later) == Waiting(d, now)
    ensures forall n :: Mirrored(n) ==> CellsOf(d, n, later) == CellsOf(d, n, now)
  {
    forall n | Mirrored(n)
      ensures CellsOf(d, n, later) == CellsOf(d, n, now)
      ensures Movable(n, CellsOf(d, n, now), later) == Movable(n, CellsOf(d, n, now), now)
    {
      PromiseKept(d, n, now, later, horizon);
    }
    hide CellsOf, Promising, Level, Unlevel, Mirrored, Less, Movable;
    UnlevelIsAll(d, now);
    UnlevelIsAll(d, later);
    var names := set n | n in Unlevel(d, now);
    ListingUnique(Unlevel(d, later), Unlevel(d, now), names);
  }

  /** A copy brings no key to a door that neither listing named. */
  lemma {:induction false} KeysStayWithin(p: Progress, names: seq<string>, remote: Listing, local: Listing, now: nat,
          keys: set<string>)
    requires p.d.box.Keys <= keys && p.d.worker.Keys <= keys && remote.Keys <= keys && local.Keys <= keys
    ensures
      var r := VisitAll(p, names, remote, local, now);
      r.d.box.Keys <= keys && r.d.worker.Keys <= keys
    decreases |names|
  {
    if names != [] {
      KeysStayWithin(Visit(p, names[0], remote, local, now), names[1..], remote, local, now, keys);
    }
  }

  lemma CopyOutlasts(c: Cells, now: nat, horizon: nat)
    requires Outlasts(c, horizon) && horizon + 61000 <= now + 7 * 24 * 3600 * 1000
    ensures Outlasts(Copied(c, now), horizon)
  {
  }

  lemma CopyKept(name: string, c: Cells, now: nat)
    requires Spelled(name, c) && !Level(c)
    ensures Spelled(name, Copied(c, now))
  {
    hide FilePath.Canonical;
  }

  lemma CopiedPromises(name: string, c: Cells, now: nat, horizon: nat)
    requires Promising(name, c, horizon) && !Level(c) && Movable(name, c, now)
    requires horizon + 61000 <= now + 7 * 24 * 3600 * 1000
    ensures Promising(name, Copied(c, now), horizon)
  {
    hide RecordAllows, Throws, FilePath.Canonical, Winner;
    CopiedLevels(name, c, now);
    LevelIff(Copied(c, now));
    CopyOutlasts(c, now, horizon);
    CopyKept(name, c, now);
    hide Copied, Show, Level, Outlasts;
  }

  /** One quiet cycle: it does not fail, it takes the movable keys of its batch off the list, and it
      leaves the doors as quiet as it found them. */
  lemma QuietStep(d: Pair, now: nat, horizon: nat, keys: set<string>)
    requires Quiet(d, now, horizon, keys)
    ensures
      var r, u, batch := CycleOf(d, now), Unlevel(d, now), Batch(d, now);
      && !r.failed && Quiet(r.d, now, horizon, keys)
      && r.n.left == |u| - |batch|
      && Unlevel(r.d, now) == StillRefused(d, batch, now) + u[|batch|..]
      && Refused(r.d, now) == Refused(d, now)
      && Waiting(r.d, now) == Waiting(d, now) - (set n | n in batch)
      && (forall n :: Mirrored(n) && !(n in batch && n in Waiting(d, now)) ==>
           CellsOf(r.d, n, now) == CellsOf(d, n, now))
      && (forall n :: Mirrored(n) ==> Winner(CellsOf(r.d, n, now)) == Winner(CellsOf(d, n, now)))
  {
    SetSizes(d.worker.Keys, keys);
    UnlevelIsAll(d, now);
    forall n | n in Batch(d, now) ensures Mirrored(n) && !Level(CellsOf(d, n, now)) && n in Unlevel(d, now) {
    }
    assert SoundPair(d, now) by {
      hide CellsOf, Mirrored;
      forall n | Mirrored(n) ensures Sound(CellsOf(d, n, now)) && Spelled(n, CellsOf(d, n, now)) {
        assert Promising(n, CellsOf(d, n, now), horizon);
      }
    }
    assert forall n :: n in Batch(d, now) ==> !Throws(n, CellsOf(d, n, now)) by {
      hide CellsOf, Mirrored, Throws, Level, Show;
      forall n | n in Batch(d, now) ensures !Throws(n, CellsOf(d, n, now)) {
        assert Promising(n, CellsOf(d, n, now), horizon);
        LevelIff(CellsOf(d, n, now));
      }
    }
    QuietCycleLeaves(d, now);
    QuietCycle(d, now);
    QuietKeys(d, now, keys);
    QuietAfter(d, CycleOf(d, now).d, Batch(d, now), now, horizon);
    QuietSets(d, CycleOf(d, now).d, Batch(d, now), now);
    SameWinners(d, CycleOf(d, now).d, Batch(d, now), now);
  }

  /** A cycle never changes which write is the last. */
  lemma SameWinners(d: Pair, d': Pair, batch: seq<string>, now: nat)
    requires forall n :: n in batch && Movable(n, CellsOf(d, n, now), now) ==>
      Show(CellsOf(d', n, now).b) == Show(CellsOf(d', n, now).w) == Winner(CellsOf(d, n, now))
    requires forall n :: Mirrored(n) && (n in batch ==> !Movable(n, CellsOf(d, n, now), now)) ==>
      CellsOf(d', n, now) == CellsOf(d, n, now)
    ensures forall n :: Mirrored(n) ==> Winner(CellsOf(d', n, now)) == Winner(CellsOf(d, n, now))
  {
    hide CellsOf, Movable, Show, Mirrored;
  }

  lemma QuietKeys(d: Pair, now: nat, keys: set<string>)
    requires d.box.Keys <= keys && d.worker.Keys <= keys && |d.worker| <= 100 * 1000
    ensures CycleOf(d, now).d.box.Keys <= keys && CycleOf(d, now).d.worker.Keys <= keys
  {
    ShortListing(d.worker, now);
    KeysStayWithin(Progress(d, START_TALLY, 0, false),
                   Sorted(NamesIn(ListingOf(d.worker, now)) + NamesIn(ListingOf(d.box, now))),
                   ListingOf(d.worker, now), ListingOf(d.box, now), now, keys);
  }

  lemma QuietAfter(d: Pair, d': Pair, batch: seq<string>, now: nat, horizon: nat)
    requires horizon + 61000 <= now + 7 * 24 * 3600 * 1000
    requires forall n :: Mirrored(n) ==> Promising(n, CellsOf(d, n, now), horizon)
    requires forall n :: n in batch ==> !Level(CellsOf(d, n, now))
    requires forall n :: Mirrored(n) ==> CellsOf(d', n, now) == CellsAfter(d, batch, n, now)
    ensures forall n :: Mirrored(n) ==> Promising(n, CellsOf(d', n, now), horizon)
  {
    hide CellsOf, Copied, Movable, Promising, Mirrored;
    forall n | Mirrored(n) ensures Promising(n, CellsOf(d', n, now), horizon) {
      if n in batch && Movable(n, CellsOf(d, n, now), now) {
        CopiedPromises(n, CellsOf(d, n, now), now, horizon);
      }
    }
  }

  lemma QuietSets(d: Pair, d': Pair, batch: seq<string>, now: nat)
    requires batch == Batch(d, now)
    requires Unlevel(d', now) == StillRefused(d, batch, now) + Unlevel(d, now)[|batch|..]
    requires forall n :: Mirrored(n) ==> CellsOf(d', n, now) == CellsAfter(d, batch, n, now)
    ensures Refused(d', now) == Refused(d, now) && Waiting(d', now) == Waiting(d, now) - (set n | n in batch)
  {
    RestOfBatch(d, batch, now);
    UnlevelIsAll(d, now);
    hide CellsOf, Copied, Movable, Unlevel, StillRefused, Less, Mirrored, Batch, Level;
    forall n | n in Unlevel(d', now) ensures CellsOf(d', n, now) == CellsOf(d, n, now) {
      assert n in Unlevel(d, now);
    }
  }

  /** What is level stays as it is, cycle after cycle. */
  lemma {:induction false} LevelStays(d: Pair, times: seq<nat>, now: nat, horizon: nat, keys: set<string>, n: string)
    requires Quiet(d, now, horizon, keys) && Rising(times, now, horizon) && Mirrored(n) && n !in Unlevel(d, now)
    ensures CellsOf(Cycles(d, times), n, horizon) == CellsOf(d, n, now)
    decreases |times|
  {
    hide Quiet, CycleOf, Unlevel, CellsOf, Mirrored, Waiting, Refused;
    RisingBounded(times, now, horizon);
    if times == [] {
      TimePasses(d, now, horizon, horizon, keys);
    } else {
      var t := times[0];
      TimePasses(d, now, t, horizon, keys);
      QuietStep(d, t, horizon, keys);
      StaysOff(d, t, n);
      LevelStays(CycleOf(d, t).d, times[1..], t, horizon, keys, n);
    }
  }

  lemma StaysOff(d: Pair, now: nat, n: string)
    requires n !in Unlevel(d, now)
    ensures n !in Batch(d, now) && n !in StillRefused(d, Batch(d, now), now)
    ensures n !in StillRefused(d, Batch(d, now), now) + Unlevel(d, now)[|Batch(d, now)|..]
  {
    UnlevelIsAll(d, now);
    assert Ascending(Batch(d, now));
    StillRefusedFacts(d, Batch(d, now), now);
    hide CellsOf, Movable, Less;
  }

  /** Convergence. However many cycles are made, under each key the doors either both show the last write
      to it, its state, clock and bytes, or show two writes still, as they did from the start; the refused
      keys are the same to the end; and when none is refused, each cycle takes the next 300 keys off the
      list. */
  lemma {:induction false} Converges(d: Pair, times: seq<nat>, now: nat, horizon: nat, keys: set<string>)
    requires Quiet(d, now, horizon, keys) && Rising(times, now, horizon)
    ensures
      var r, u := Cycles(d, times), Unlevel(d, now);
      && Quiet(r, horizon, horizon, keys) && Refused(r, horizon) == Refused(d, now)
      && (forall n :: Mirrored(n) ==> Settles(CellsOf(d, n, now), CellsOf(r, n, horizon)))
      && (Refused(d, now) == {} ==> Unlevel(r, horizon) == u[Min(|u|, 300 * |times|)..])
    decreases |times|
  {
    hide Quiet, CycleOf, Unlevel, Refused, Waiting, CellsOf, Settles;
    RisingBounded(times, now, horizon);
    if times == [] {
      TimePasses(d, now, horizon, horizon, keys);
      OneWriteShown(d, horizon, horizon, keys);
    } else {
      var t := times[0];
      TimePasses(d, now, t, horizon, keys);
      QuietStep(d, t, horizon, keys);
      if Refused(d, now) == {} { NoneRefused(d, Batch(d, t), t); }
      Converges(CycleOf(d, t).d, times[1..], t, horizon, keys);
      forall n | Mirrored(n) ensures Settles(CellsOf(d, n, now), CellsOf(Cycles(d, times), n, horizon)) {
        SettlesStep(d, t, horizon, keys, n, CellsOf(Cycles(d, times), n, horizon));
      }
    }
  }

  /** From a key's cells to later ones: the last write shown at both doors, or still two writes. */
  ghost predicate Settles(c: Cells, c': Cells) {
    if OneMoment(Show(c'.b), Show(c'.w)) then Show(c'.b) == Show(c'.w) == Winner(c) else c' == c
  }

  lemma OneWriteShown(d: Pair, now: nat, horizon: nat, keys: set<string>)
    requires Quiet(d, now, horizon, keys)
    ensures forall n :: Mirrored(n) ==> Settles(CellsOf(d, n, now), CellsOf(d, n, now))
  {
    hide CellsOf, Mirrored, Throws, Outlasts, Show;
    forall n | Mirrored(n) ensures Settles(CellsOf(d, n, now), CellsOf(d, n, now)) {
      assert Promising(n, CellsOf(d, n, now), horizon);
    }
  }

  lemma SettlesStep(d: Pair, now: nat, horizon: nat, keys: set<string>, n: string, c': Cells)
    requires Quiet(d, now, horizon, keys) && Mirrored(n) && Settles(CellsOf(CycleOf(d, now).d, n, now), c')
    ensures Settles(CellsOf(d, n, now), c')
  {
    var d' := CycleOf(d, now).d;
    hide CycleOf, CellsOf, Mirrored, Quiet, Show, OneMoment, Winner, Refused, Unlevel;
    QuietStep(d, now, horizon, keys);
    if n in Batch(d, now) && n in Waiting(d, now) {
      TakenIsLevel(d, now, horizon, keys, n);
    }
  }

  lemma NoneRefused(d: Pair, batch: seq<string>, now: nat)
    requires Refused(d, now) == {} && batch == Batch(d, now)
    ensures StillRefused(d, batch, now) == []
  {
    forall n | n in batch ensures Movable(n, CellsOf(d, n, now), now) {
      assert n in Unlevel(d, now) && n !in Refused(d, now);
    }
    AllTaken(d, batch, now);
  }

  lemma {:induction false} AllTaken(d: Pair, names: seq<string>, now: nat)
    requires forall n :: n in names ==> Movable(n, CellsOf(d, n, now), now)
    ensures StillRefused(d, names, now) == []
  {
    hide CellsOf, Movable;
    if names != [] { AllTaken(d, names[1..], now); }
  }

  lemma LevelShowsTheSame(d: Pair, now: nat, horizon: nat, keys: set<string>)
    requires Quiet(d, now, horizon, keys)
    ensures
      forall n :: Mirrored(n) && n !in Unlevel(d, now) ==> Show(CellOf(d.box, n, now)) == Show(CellOf(d.worker, n, now))
  {
    UnlevelIsAll(d, now);
    forall n | Mirrored(n) && n !in Unlevel(d, now)
      ensures Show(CellOf(d.box, n, now)) == Show(CellOf(d.worker, n, now))
    {
      assert Promising(n, CellsOf(d, n, now), horizon);
      LevelIff(CellsOf(d, n, now));
    }
  }

  lemma {:induction false} RisingBounded(times: seq<nat>, from: nat, horizon: nat)
    requires Rising(times, from, horizon)
    ensures from <= horizon && (times != [] ==> from <= times[0] <= horizon)
    decreases |times|
  {
    if times != [] { RisingBounded(times[1..], times[0], horizon); }
  }

  /******* Which keys are ever reached *******/

  function Before(names: set<string>, n: string): set<string> { set m | m in names && Less(m, n) }

  /** A waiting key's batch has fewer than 300 refused keys before it. */
  lemma InBatch(d: Pair, now: nat, n: string)
    requires n in Waiting(d, now) && n in Batch(d, now)
    ensures |Before(Refused(d, now), n)| < MAX_OPS
  {
    var u, batch := Unlevel(d, now), Batch(d, now);
    UnlevelIsAll(d, now);
    var taken, refused := (set m | m in batch), Before(Refused(d, now), n);
    ListedSize(batch, taken);
    forall m | m in refused ensures m in taken - {n} {
      assert m in u && Less(m, n);
      BeforeInList(u, |batch|, m, n);
    }
    SetSizes(refused, taken - {n});
  }

  /** What comes before a name of an ascending list's head is in the head. */
  lemma BeforeInList(u: seq<string>, k: nat, m: string, n: string)
    requires Ascending(u) && k <= |u| && m in u && n in u[..k] && Less(m, n)
    ensures m in u[..k] && m != n
  {
    var i :| 0 <= i < |u| && u[i] == m;
    var j :| 0 <= j < k && u[..k][j] == n;
    LessTrichotomy(m, n);
    assert i <= j;
    assert u[..k][i] == m;
  }

  lemma AfterInList(u: seq<string>, k: nat, m: string, n: string)
    requires Ascending(u) && k <= |u| && n in u && n !in u[..k] && m in u[..k]
    ensures Less(m, n)
  {
    var i :| 0 <= i < k && u[..k][i] == m;
    forall a | 0 <= a < k ensures u[a] != n {
      assert u[..k][a] in u[..k];
    }
    var j :| 0 <= j < |u| && u[j] == n;
    assert Less(u[i], u[j]);
  }

  /** A batch that does not reach a waiting key is 300 keys before it, and takes as many of those that
      wait before it as are not refused. */
  lemma PastBatch(d: Pair, now: nat, n: string)
    requires n in Waiting(d, now) && n !in Batch(d, now)
    ensures
      var left := Waiting(d, now) - (set m | m in Batch(d, now));
      |Before(left, n)| + MAX_OPS <= |Before(Waiting(d, now), n)| + |Before(Refused(d, now), n)|
  {
    var u, batch, refused, waiting := Unlevel(d, now), Batch(d, now), Refused(d, now), Waiting(d, now);
    UnlevelIsAll(d, now);
    var taken := set m | m in batch;
    ListedSize(batch, taken);
    assert |u| <= MAX_OPS ==> batch == u;
    forall m | m in taken ensures Less(m, n) && (m in refused || m in waiting) && !(m in refused && m in waiting) {
      AfterInList(u, |batch|, m, n);
      assert m in u;
    }
    hide Unlevel, Batch, Refused, Waiting, Less;
    var mine := taken * waiting;
    SetSizes(taken - mine, Before(refused, n));
    assert Before(waiting - taken, n) == Before(waiting, n) - mine;
    assert mine <= Before(waiting, n);
  }

  /** A key the receiving side takes shows its last write at both doors after enough cycles if fewer than
      300 refused keys come before it, and otherwise never: it stays as it was through any number of
      cycles. */
  lemma TakenIff(d: Pair, times: seq<nat>, now: nat, horizon: nat, keys: set<string>, n: string)
    requires Quiet(d, now, horizon, keys) && Rising(times, now, horizon) && n in Waiting(d, now)
    ensures
      var refused, waiting := |Before(Refused(d, now), n)|, |Before(Waiting(d, now), n)|;
      var c := CellsOf(Cycles(d, times), n, horizon);
      && (refused >= 300 ==> c == CellsOf(d, n, now) && !OneMoment(Show(c.b), Show(c.w)))
      && (refused < 300 && |times| * (300 - refused) > waiting ==>
           Show(c.b) == Show(c.w) == Winner(CellsOf(d, n, now)))
      && (|times| > waiting ==> (OneMoment(Show(c.b), Show(c.w)) <==> refused < 300))
  {
    hide Quiet, Cycles, CellsOf, Unlevel, Level, Show, OneMoment, Winner, Refused, Waiting, Before, Promising;
    TakenLevel(d, times, now, horizon, keys, n);
    WaitingIsUnlevel(d, now, n);
    Converges(d, times, now, horizon, keys);
    assert Settles(CellsOf(d, n, now), CellsOf(Cycles(d, times), n, horizon));
    QuietIsSound(Cycles(d, times), horizon, horizon, keys, n);
    LevelIff(CellsOf(Cycles(d, times), n, horizon));
  }

  lemma QuietIsSound(d: Pair, now: nat, horizon: nat, keys: set<string>, n: string)
    requires Quiet(d, now, horizon, keys) && Mirrored(n)
    ensures Sound(CellsOf(d, n, now))
  {
    hide CellsOf, Mirrored, Throws, Outlasts, Show;
    assert Promising(n, CellsOf(d, n, now), horizon);
  }

  /** The list of a quiet cycle, told by what the doors show. */
  lemma UnlevelIff(d: Pair, now: nat, horizon: nat, keys: set<string>, n: string)
    requires Quiet(d, now, horizon, keys)
    ensures
      n in Unlevel(d, now) <==>
      Mirrored(n) && !OneMoment(Show(CellsOf(d, n, now).b), Show(CellsOf(d, n, now).w))
  {
    UnlevelIsAll(d, now);
    hide CellsOf, Mirrored, Quiet, Show, Level, OneMoment;
    if Mirrored(n) {
      QuietIsSound(d, now, horizon, keys, n);
      LevelIff(CellsOf(d, n, now));
    }
  }

  lemma {:induction false} TakenLevel(d: Pair, times: seq<nat>, now: nat, horizon: nat, keys: set<string>, n: string)
    requires Quiet(d, now, horizon, keys) && Rising(times, now, horizon) && n in Waiting(d, now)
    ensures
      var refused, waiting := |Before(Refused(d, now), n)|, |Before(Waiting(d, now), n)|;
      var c := CellsOf(Cycles(d, times), n, horizon);
      && (refused >= MAX_OPS ==> c == CellsOf(d, n, now))
      && (refused < MAX_OPS && |times| * (MAX_OPS - refused) > waiting ==> Level(c))
      && (|times| > waiting ==> (Level(c) <==> refused < MAX_OPS))
    decreases |times|
  {
    hide Quiet, CycleOf, Unlevel, CellsOf, Mirrored, Movable, Less, Level, Show;
    RisingBounded(times, now, horizon);
    WaitingIsUnlevel(d, now, n);
    var refused, waiting := |Before(Refused(d, now), n)|, |Before(Waiting(d, now), n)|;
    if refused < MAX_OPS && |times| > waiting { Times(|times|, MAX_OPS - refused); }
    if times == [] {
      TimePasses(d, now, horizon, horizon, keys);
    } else {
      var t, rest := times[0], times[1..];
      TimePasses(d, now, t, horizon, keys);
      QuietStep(d, t, horizon, keys);
      var d' := CycleOf(d, t).d;
      if n in Batch(d, t) { InBatch(d, t, n); } else { PastBatch(d, t, n); }
      hide Refused, Waiting, Batch;
      if n in Batch(d, t) {
        TakenIsLevel(d, t, horizon, keys, n);
        LevelStays(d', rest, t, horizon, keys, n);
      } else {
        TakenLevel(d', rest, t, horizon, keys, n);
        assert |rest| == |times| - 1;
        Distributes(|times|, MAX_OPS - refused);
      }
    }
  }

  lemma WaitingIsUnlevel(d: Pair, now: nat, n: string)
    requires n in Waiting(d, now)
    ensures Mirrored(n) && !Level(CellsOf(d, n, now)) && n in Unlevel(d, now)
  {
    UnlevelIsAll(d, now);
  }

  lemma TakenIsLevel(d: Pair, now: nat, horizon: nat, keys: set<string>, n: string)
    requires Quiet(d, now, horizon, keys) && n in Waiting(d, now) && n in Batch(d, now)
    ensures
      var d' := CycleOf(d, now).d;
      var c := CellsOf(d', n, now);
      && Mirrored(n) && Level(c) && n !in Unlevel(d', now)
      && Show(c.b) == Show(c.w) == Winner(CellsOf(d, n, now)) && OneMoment(Show(c.b), Show(c.w))
  {
    hide CycleOf, CellsOf, Level, Mirrored, Show;
    QuietStep(d, now, horizon, keys);
    WaitingIsUnlevel(d, now, n);
    UnlevelIsAll(CycleOf(d, now).d, now);
    var d' := CycleOf(d, now).d;
    assert n !in Waiting(d', now) && n !in Refused(d', now);
    LevelShowsTheSame(d', now, horizon, keys);
    CellsAre(d', n, now);
    QuietIsSound(d', now, horizon, keys, n);
    LevelIff(CellsOf(d', n, now));
  }

  lemma CellsAre(d: Pair, n: string, now: nat)
    ensures CellsOf(d, n, now) == Cells(CellOf(d.box, n, now), CellOf(d.worker, n, now))
  {
  }

  lemma Times(k: nat, step: nat)
    requires step >= 1
    ensures k * step >= k
  {
  }

  lemma Distributes(k: nat, step: int)
    requires k >= 1
    ensures k * step == (k - 1) * step + step
  {
  }

  /** The doors come to agree on every key but the refused ones exactly when no key that waits stands
      behind 300 refused ones. */
  lemma AllButTheRefusedIff(d: Pair, times: seq<nat>, now: nat, horizon: nat, keys: set<string>)
    requires Quiet(d, now, horizon, keys) && Rising(times, now, horizon) && |times| > |Waiting(d, now)|
    ensures
      (forall n :: n in Unlevel(Cycles(d, times), horizon) <==> n in Refused(d, now))
      <==>
      (forall n :: n in Waiting(d, now) ==> |Before(Refused(d, now), n)| < 300)
  {
    var r := Cycles(d, times);
    Converges(d, times, now, horizon, keys);
    UnlevelIsAll(r, horizon);
    UnlevelIsAll(d, now);
    hide Quiet, Cycles, CellsOf, Mirrored, Movable, Less, Level, Show;
    forall n | n in Waiting(d, now)
      ensures n in Unlevel(r, horizon) <==> |Before(Refused(d, now), n)| >= 300
      ensures n !in Refused(d, now)
    {
      SetSizes(Before(Waiting(d, now), n), Waiting(d, now));
      TakenLevel(d, times, now, horizon, keys, n);
      WaitingIsUnlevel(d, now, n);
    }
    forall n | n in Unlevel(r, horizon) ensures n in Refused(d, now) || n in Waiting(d, now) {
      if n !in Unlevel(d, now) { LevelStays(d, times, now, horizon, keys, n); }
    }
    assert forall n :: n in Refused(d, now) ==> n in Unlevel(r, horizon);
  }
}

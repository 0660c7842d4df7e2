/**
 The per-address rate limit: a fixed window a key, with the finished windows pruned when the table
 grows (lij-worker/node/limiter.js).
 */
module Limiter {

  /** The open window of a key: when it started (ms) and how many calls it has had. */
  datatype Window = Window(start: nat, n: nat)

  type Windows = map<string, Window>

  const TABLE_MAX := 20000

  datatype Call = Call(key: string, now: nat)

  predicate Finished(w: Window, now: nat, period: nat) { now - w.start >= period }

  /** The key's window after one more call. */
  function Counted(ws: Windows, c: Call, period: nat): Window {
    if c.key in ws && !Finished(ws[c.key], c.now, period) then ws[c.key].(n := ws[c.key].n + 1) else Window(c.now, 1)
  }

  function Pruned(ws: Windows, now: nat, period: nat): Windows {
    map k | k in ws && !Finished(ws[k], now, period) :: ws[k]
  }

  function Step(ws: Windows, c: Call, period: nat): Windows {
    var ws' := ws[c.key := Counted(ws, c, period)];
    if |ws'| > TABLE_MAX then Pruned(ws', c.now, period) else ws'
  }

  /** The same without ever pruning. */
  function PlainStep(ws: Windows, c: Call, period: nat): Windows {
    ws[c.key := Counted(ws, c, period)]
  }

  /** The table is pruned when it has grown past 20,000 windows, and only then; and all that goes is what
      has finished. */
  lemma PrunedWhenLarge(ws: Windows, c: Call, period: nat)
    ensures
      var counted, ws' := ws[c.key := Counted(ws, c, period)], Step(ws, c, period);
      && (|counted| <= 20000 ==> ws' == counted)
      && (|counted| > 20000 ==>
           forall k :: k in ws' <==> k in counted && c.now - counted[k].start < period)
      && (forall k :: k in ws' ==> ws'[k] == counted[k])
  {
  }

  /** A key's count starts again at one when its window has lasted the period, and else goes up by one. */
  lemma CountedSpelled(ws: Windows, c: Call, period: nat)
    ensures
      var w := Counted(ws, c, period);
      if c.key in ws && c.now - ws[c.key].start < period
      then w.start == ws[c.key].start && w.n == ws[c.key].n + 1 else w.start == c.now && w.n == 1
  {
  }

  class MemLimiter {
    var windows: Windows
    const period: nat
    const max: nat

    /** `limit` calls in `periodS` seconds; 60 s where the period is 0, and at least one of each. */
    constructor (limit: int, periodS: int)
      ensures windows == map[] && max >= 1 && period >= 1000
      ensures max == if limit > 1 then limit else 1
      ensures period == 1000 * (if periodS == 0 then 60 else if periodS > 1 then periodS else 1)
    {
      windows := map[];
      max := if limit > 1 then limit else 1;
      period := 1000 * (if periodS == 0 then 60 else if periodS > 1 then periodS else 1);
    }

    method Limit(key: string, now: nat) returns (success: bool)
      modifies this
      ensures windows == Step(old(windows), Call(key, now), period)
      ensures success <==> Counted(old(windows), Call(key, now), period).n <= max
    {
      var w: Window;
      if key !in windows || now - windows[key].start >= period {
        w := Window(now, 0);
      } else {
        w := windows[key];
      }
      w := w.(n := w.n + 1);
      windows := windows[key := w];
      if |windows| > TABLE_MAX {
        Prune(now);
      }
      success := w.n <= max;
    }

    method Prune(now: nat)
      modifies this
      ensures windows == Pruned(old(windows), now, period)
    {
      ghost var was := windows;
      var todo := windows.Keys;
      while todo != {}
        invariant todo <= windows.Keys <= was.Keys
        invariant windows == map k | k in was && (k in todo || !Finished(was[k], now, period)) :: was[k]
        decreases todo
      {
        var k :| k in todo;
        todo := todo - {k};
        if now - windows[k].start >= period {
          windows := windows - {k};
        }
      }
    }
  }

  /******* Pruning is unseen *******/

  ghost predicate InOrder(calls: seq<Call>, from: nat)
    decreases |calls|
  {
    calls != [] ==> from <= calls[0].now && InOrder(calls[1..], calls[0].now)
  }

  /** Whether each call is let through. */
  function Answers(ws: Windows, calls: seq<Call>, max: nat, period: nat): seq<bool>
    decreases |calls|
  {
    if calls == [] then []
    else [Counted(ws, calls[0], period).n <= max] + Answers(Step(ws, calls[0], period), calls[1..], max, period)
  }

  function PlainAnswers(ws: Windows, calls: seq<Call>, max: nat, period: nat): seq<bool>
    decreases |calls|
  {
    if calls == [] then []
    else
      [Counted(ws, calls[0], period).n <= max]
      + PlainAnswers(PlainStep(ws, calls[0], period), calls[1..], max, period)
  }

  /** The pruned table lacks only windows that have finished. */
  ghost predicate Agree(pruned: Windows, plain: Windows, now: nat, period: nat) {
    && (forall k :: k in pruned ==> k in plain && pruned[k] == plain[k])
    && (forall k :: k in plain && k !in pruned ==> Finished(plain[k], now, period))
  }

  /** At times that never fall, pruning changes no answer. */
  lemma {:induction false} PruningIsUnseen(pruned: Windows, plain: Windows, calls: seq<Call>, from: nat, max: nat,
          period: nat)
    requires Agree(pruned, plain, from, period) && InOrder(calls, from)
    ensures Answers(pruned, calls, max, period) == PlainAnswers(plain, calls, max, period)
    decreases |calls|
  {
    if calls != [] {
      var c := calls[0];
      assert Counted(pruned, c, period) == Counted(plain, c, period);
      PruningIsUnseen(Step(pruned, c, period), PlainStep(plain, c, period), calls[1..], c.now, max, period);
    }
  }

  /******* The bound *******/

  /** How many of the key's calls in [t, t + period) are let through. */
  function Admitted(calls: seq<Call>, answers: seq<bool>, key: string, t: nat, period: nat): nat
    requires |answers| == |calls|
  {
    if calls == [] then 0
    else
      (if answers[0] && calls[0].key == key && t <= calls[0].now < t + period then 1 else 0)
      + Admitted(calls[1..], answers[1..], key, t, period)
  }

  lemma {:induction false} OneAnswerEach(ws: Windows, calls: seq<Call>, max: nat, period: nat)
    ensures |PlainAnswers(ws, calls, max, period)| == |calls| && |Answers(ws, calls, max, period)| == |calls|
    decreases |calls|
  {
    if calls != [] {
      OneAnswerEach(PlainStep(ws, calls[0], period), calls[1..], max, period);
      OneAnswerEach(Step(ws, calls[0], period), calls[1..], max, period);
    }
  }

  function Left(max: nat, n: nat): nat { if n < max then max - n else 0 }

  /** How many more calls of the key can be let through in [t, t + period): what its window has left
      when that reaches into the interval, and a whole window more while none can have started there. */
  function Budget(ws: Windows, key: string, t: nat, max: nat, period: nat): nat
    requires max > 0
  {
    if key !in ws || ws[key].start + period <= t then 2 * max - 1
    else if ws[key].start < t then Left(max, ws[key].n) + max
    else if ws[key].start < t + period then Left(max, ws[key].n)
    else 0
  }

  ghost predicate Opened(ws: Windows, now: nat) {
    forall k :: k in ws ==> ws[k].n >= 1 && ws[k].start <= now
  }

  lemma AdmittedCons(ws: Windows, c: Call, more: seq<Call>, key: string, t: nat, max: nat, period: nat)
    ensures
      var calls, ws' := [c] + more, PlainStep(ws, c, period);
      var all, rest := PlainAnswers(ws, calls, max, period), PlainAnswers(ws', more, max, period);
      && |all| == |calls| && |rest| == |more|
      && Admitted(calls, all, key, t, period) ==
         (if ws'[c.key].n <= max && c.key == key && t <= c.now < t + period then 1 else 0)
         + Admitted(more, rest, key, t, period)
  {
    var calls, ws' := [c] + more, PlainStep(ws, c, period);
    OneAnswerEach(ws, calls, max, period);
    OneAnswerEach(ws', more, max, period);
    assert calls[1..] == more;
    assert PlainAnswers(ws, calls, max, period)[1..] == PlainAnswers(ws', more, max, period);
  }

  lemma {:induction false} WithinBudget(ws: Windows, calls: seq<Call>, from: nat, key: string, t: nat, max: nat,
          period: nat)
    requires InOrder(calls, from) && period > 0 && max > 0 && Opened(ws, from)
    ensures |PlainAnswers(ws, calls, max, period)| == |calls|
    ensures Admitted(calls, PlainAnswers(ws, calls, max, period), key, t, period) <= Budget(ws, key, t, max, period)
    decreases |calls|
  {
    if calls != [] {
      assert calls == [calls[0]] + calls[1..];
      AdmittedCons(ws, calls[0], calls[1..], key, t, max, period);
      hide Admitted, PlainAnswers;
      WithinBudget(PlainStep(ws, calls[0], period), calls[1..], calls[0].now, key, t, max, period);
    }
  }

  /** Any interval of one period lets through fewer than twice the limit, whatever calls are made and
      whenever the table is pruned. */
  lemma FewerThanTwiceTheLimit(calls: seq<Call>, key: string, t: nat, max: nat, period: nat)
    requires InOrder(calls, 0) && period > 0 && max > 0
    ensures |Answers(map[], calls, max, period)| == |calls|
    ensures Admitted(calls, Answers(map[], calls, max, period), key, t, period) <= 2 * max - 1
  {
    PruningIsUnseen(map[], map[], calls, 0, max, period);
    WithinBudget(map[], calls, 0, key, t, max, period);
  }

  /** The window a call opens lets through no more than the limit. */
  lemma OneWindowKeepsTheLimit(ws: Windows, calls: seq<Call>, max: nat, period: nat)
    requires InOrder(calls, 0) && period > 0 && max > 0 && calls != [] && Opened(ws, calls[0].now)
    requires calls[0].key !in ws || Finished(ws[calls[0].key], calls[0].now, period)
    ensures |PlainAnswers(ws, calls, max, period)| == |calls|
    ensures
      Admitted(calls, PlainAnswers(ws, calls, max, period), calls[0].key, calls[0].now, period) <= max
  {
    assert calls == [calls[0]] + calls[1..];
    AdmittedCons(ws, calls[0], calls[1..], calls[0].key, calls[0].now, max, period);
    WithinBudget(PlainStep(ws, calls[0], period), calls[1..], calls[0].now, calls[0].key, calls[0].now, max, period);
  }

  /******* The bound is met *******/

  function Burst(c: Call, n: nat, rest: seq<Call>): seq<Call> {
    if n == 0 then rest else [c] + Burst(c, n - 1, rest)
  }

  /** One call at 0, the rest of the window just before it ends, and a full window just after. */
  function Straddle(key: string, max: nat, period: nat): seq<Call>
    requires max > 0 && period > 1
  {
    [Call(key, 0)] + Burst(Call(key, period - 1), max - 1, Burst(Call(key, period), max, []))
  }

  lemma {:induction false} BurstAdmitted(ws: Windows, c: Call, n: nat, rest: seq<Call>, t: nat, max: nat, period: nat)
    requires max > 0 && period > 0 && t <= c.now < t + period
    requires c.key in ws && ws[c.key].start <= c.now < ws[c.key].start + period && ws[c.key].n + n <= max
    ensures |PlainAnswers(ws, Burst(c, n, rest), max, period)| == |Burst(c, n, rest)|
    ensures
      var ws' := ws[c.key := ws[c.key].(n := ws[c.key].n + n)];
      && |PlainAnswers(ws', rest, max, period)| == |rest|
      && Admitted(Burst(c, n, rest), PlainAnswers(ws, Burst(c, n, rest), max, period), c.key, t, period) ==
         n + Admitted(rest, PlainAnswers(ws', rest, max, period), c.key, t, period)
    decreases n
  {
    hide Admitted, PlainAnswers;
    if n == 0 {
      OneAnswerEach(ws, rest, max, period);
      assert ws[c.key := ws[c.key].(n := ws[c.key].n + 0)] == ws;
    } else {
      var ws1 := PlainStep(ws, c, period);
      AdmittedCons(ws, c, Burst(c, n - 1, rest), c.key, t, max, period);
      BurstAdmitted(ws1, c, n - 1, rest, t, max, period);
      assert ws1[c.key := ws1[c.key].(n := ws1[c.key].n + (n - 1))] == ws[c.key := ws[c.key].(n := ws[c.key].n + n)];
    }
  }

  lemma NoneAdmitted(ws: Windows, key: string, t: nat, max: nat, period: nat)
    ensures PlainAnswers(ws, [], max, period) == [] && Admitted([], [], key, t, period) == 0
  {
  }

  /** The bound cannot be lowered: a run that straddles the end of a window reaches it. */
  lemma TheBoundIsMet(key: string, max: nat, period: nat)
    requires max > 0 && period > 1
    ensures
      var calls := Straddle(key, max, period);
      && |PlainAnswers(map[], calls, max, period)| == |calls|
      && Admitted(calls, PlainAnswers(map[], calls, max, period), key, period - 1, period) == 2 * max - 1
  {
    hide Admitted, PlainAnswers;
    NoneAdmitted(map[key := Window(period, max)], key, period - 1, max, period);
    var a, b := Call(key, period - 1), Call(key, period);
    var ws1: Windows := map[key := Window(0, 1)];
    var ws2 := ws1[key := Window(0, 1 + (max - 1))];
    var ws3 := PlainStep(ws2, b, period);
    AdmittedCons(map[], Call(key, 0), Burst(a, max - 1, Burst(b, max, [])), key, period - 1, max, period);
    AdmittedCons(ws2, b, Burst(b, max - 1, []), key, period - 1, max, period);
    BurstAdmitted(ws1, a, max - 1, Burst(b, max, []), period - 1, max, period);
    BurstAdmitted(ws3, b, max - 1, [], period - 1, max, period);
  }
}

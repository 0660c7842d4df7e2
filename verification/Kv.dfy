/**
 The key-value map both doors keep: each key holds a value, the clock of the write (0: none) and
 an expiry in unix seconds. `now` is the wall clock in milliseconds.
 */
module Kv {
  import opened Text

  datatype Entry<+V> = Entry(value: V, c: nat, exp: Option<nat>)

  type Store<+V> = map<string, Entry<V>>

  predicate Live<V>(e: Entry<V>, now: nat) { e.exp.None? || now < e.exp.value * 1000 }

  /** What a reader sees: the entries that have not expired. */
  function View<V>(s: Store<V>, now: nat): Store<V> {
    map k | k in s && Live(s[k], now) :: s[k]
  }

  function Find<V>(s: Store<V>, key: string, now: nat): Option<Entry<V>> {
    if key in s && Live(s[key], now) then Some(s[key]) else None
  }

  /** The expiry options of a put: `expirationTtl` (seconds from now) or `expiration` (a unix time). */
  datatype Expiry = Never | Ttl(seconds: int) | Until(at: int)

  /** The expiry a put records. A ttl counts from the whole second; zero is no option at all, and
      a time before the epoch reads back as none. */
  function ExpiresAt(x: Expiry, now: nat): Option<nat> {
    var at := match x case Never => 0 case Ttl(s) => if s == 0 then 0 else now / 1000 + s case Until(a) => a;
    if at > 0 then Some(at) else None
  }

  /** How long a put lasts: with a ttl, to within the second its seconds allow; to the second named; or
      for ever. */
  lemma PutLasts<V>(value: V, c: nat, x: Expiry, now: nat, t: nat)
    ensures
      var live := Live(Entry(value, c, ExpiresAt(x, now)), t);
      match x
      case Never => live
      case Ttl(s) =>
        s > 0 ==> (t + 1000 <= now + 1000 * s ==> live) && (t >= now + 1000 * s ==> !live)
                  && (live <==> t < 1000 * (now / 1000 + s))
      case Until(at) => at > 0 ==> (live <==> t < 1000 * at)
  {
  }

  /** The clock a put records: a positive number, or none. */
  function ClockOf(c: int): nat { if c > 0 then c else 0 }

  /** A read removes the key's entry when it has expired. */
  function Swept<V>(s: Store<V>, key: string, now: nat): Store<V> {
    if key in s && !Live(s[key], now) then s - {key} else s
  }

  /******* The store that sweeps as it reads, and the plain map *******/

  datatype Op<+V> =
    | ReadKey(key: string)
    | WriteKey(key: string, value: V, x: Expiry, c: int)
    | DeleteKey(key: string)
    | ListKeys

  datatype Answer<+V> = Silent | Found(e: Option<Entry<V>>) | Listing(entries: map<string, (nat, Option<nat>)>)

  function Written<V>(value: V, x: Expiry, c: int, now: nat): Entry<V> {
    Entry(value, ClockOf(c), ExpiresAt(x, now))
  }

  /** A put records the bytes, a positive clock or none, and its expiry. */
  lemma WrittenSpelled<V>(value: V, x: Expiry, c: int, now: nat)
    ensures
      var e := Written(value, x, c, now);
      && e.value == value && e.c == (if c > 0 then c else 0)
      && (x.Never? ==> e.exp == None) && (x.Ttl? && x.seconds > 0 ==> e.exp == Some(now / 1000 + x.seconds))
      && (x.Until? && x.at > 0 ==> e.exp == Some(x.at))
  {
  }

  /** A read takes away the key's own entry when its second has come, and nothing else; a reader sees just
      the entries whose second has not. */
  lemma SweptAndSeenIff<V>(s: Store<V>, key: string, now: nat, k: string)
    ensures
      var over := k in s && s[k].exp.Some? && 1000 * s[k].exp.value <= now;
      && (k in Swept(s, key, now) <==> k in s && !(k == key && over))
      && (k in Swept(s, key, now) ==> Swept(s, key, now)[k] == s[k])
      && (k in View(s, now) <==> k in s && !over) && (k in View(s, now) ==> View(s, now)[k] == s[k])
      && (Find(s, k, now) == if k in s && !over then Some(s[k]) else None)
  {
  }

  /** What each call leaves behind in the file store: reads and listings remove what has expired. */
  function SweepStep<V>(s: Store<V>, op: Op<V>, now: nat): Store<V> {
    match op
    case ReadKey(key) => Swept(s, key, now)
    case WriteKey(key, value, x, c) => s[key := Written(value, x, c, now)]
    case DeleteKey(key) => s - {key}
    case ListKeys => View(s, now)
  }

  /** The plain map: only a put and a delete change it. */
  function PlainStep<V>(s: Store<V>, op: Op<V>, now: nat): Store<V> {
    match op
    case WriteKey(key, value, x, c) => s[key := Written(value, x, c, now)]
    case DeleteKey(key) => s - {key}
    case _ => s
  }

  /** A reader sees what has not expired; a listing tells each key's clock and expiry. */
  function AnswerOf<V>(s: Store<V>, op: Op<V>, now: nat): Answer<V> {
    match op
    case ReadKey(key) => Found(Find(s, key, now))
    case ListKeys => Listing(map k | k in View(s, now) :: (s[k].c, s[k].exp))
    case _ => Silent
  }

  /** A run is a sequence of calls with the times they are made at. */
  type Run<+V> = seq<(Op<V>, nat)>

  /** The times of a run never fall. */
  ghost predicate TimesFrom<T>(run: seq<(T, nat)>, from: nat) {
    run != [] ==> from <= run[0].1 && TimesFrom(run[1..], run[0].1)
  }

  function SweepAnswers<V>(s: Store<V>, run: Run<V>): seq<Answer<V>>
    decreases |run|
  {
    if run == [] then []
    else [AnswerOf(s, run[0].0, run[0].1)] + SweepAnswers(SweepStep(s, run[0].0, run[0].1), run[1..])
  }

  function PlainAnswers<V>(s: Store<V>, run: Run<V>): seq<Answer<V>>
    decreases |run|
  {
    if run == [] then []
    else [AnswerOf(s, run[0].0, run[0].1)] + PlainAnswers(PlainStep(s, run[0].0, run[0].1), run[1..])
  }

  /** The two maps differ, if at all, in entries of the plain one that have already expired. */
  ghost predicate Agree<V>(swept: Store<V>, plain: Store<V>, now: nat) {
    && swept.Keys <= plain.Keys
    && forall k :: k in plain ==> if k in swept then swept[k] == plain[k] else !Live(plain[k], now)
  }

  /** From the same map, at times that never fall, no caller can tell the two apart. */
  lemma {:induction false} SweepingIsUnseen<V>(swept: Store<V>, plain: Store<V>, run: Run<V>, from: nat)
    requires Agree(swept, plain, from) && TimesFrom(run, from)
    ensures SweepAnswers(swept, run) == PlainAnswers(plain, run)
    decreases |run|
  {
    if run != [] {
      var (op, now) := run[0];
      assert AnswerOf(swept, op, now) == AnswerOf(plain, op, now) by {
        assert View(swept, now) == View(plain, now);
      }
      SweepingIsUnseen(SweepStep(swept, op, now), PlainStep(plain, op, now), run[1..], now);
    }
  }
}

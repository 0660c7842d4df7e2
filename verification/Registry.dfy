/**
 The registry's own requests at one door: registering and leaving, a provider's channel backup, and a
 wallet's copy under single-use challenges (lij-worker/src/index.js). Signatures and hashes are
 functions of the environment.
 */
module Registry {
  import opened Text
  import opened Kv
  import opened Records
  import opened Json
  import opened MirrorRules
  import opened Doors
  import FilePath
  import Normalise
  import Domains

  /** `num` reads a string as a number; `signed` is the node-key check of a text; `proved` the wallet-key
      check of a backup proof; `sha` the hash in hex. */
  datatype Env = Env(
    num: string -> JsNum,
    signed: (string, string, string) -> bool,
    proved: (string, seq<byte>, string) -> bool,
    sha: seq<byte> -> string)

  /******* Keys *******/

  datatype Slot =
    | LspSlot(pubkey: string)
    | GoneSlot(pubkey: string)
    | ScbSlot(pubkey: string, prev: bool)
    | ScbMetaSlot(pubkey: string, prev: bool)
    | CopySlot(pubkey: string)
    | ChallengeSlot(pubkey: string, nonce: string)

  function Prefix(k: Slot): string {
    match k
    case LspSlot(_) => "lsp" case GoneSlot(_) => "lspgone" case ScbSlot(_, _) => "lspscb"
    case ScbMetaSlot(_, _) => "lspscbmeta" case CopySlot(_) => "backup" case ChallengeSlot(_, _) => "bkpchal"
  }

  function Rest(k: Slot): string {
    match k
    case LspSlot(pk) => pk case GoneSlot(pk) => pk case CopySlot(pk) => pk
    case ScbSlot(pk, prev) => pk + (if prev then ":prev" else "")
    case ScbMetaSlot(pk, prev) => pk + (if prev then ":prev" else "")
    case ChallengeSlot(pk, nonce) => pk + ":" + nonce
  }

  function KeyOf(k: Slot): string { Prefix(k) + ":" + Rest(k) }

  predicate IsHexChar(c: char) { IsDigit(c) || 'a' <= c <= 'f' || 'A' <= c <= 'F' }

  /** A 33-byte key in hex. */
  predicate IsKey(pk: string) { |pk| == 66 && forall i :: 0 <= i < |pk| ==> IsHexChar(pk[i]) }

  lemma PrefixTells(k: Slot, l: Slot)
    requires Prefix(k) == Prefix(l)
    ensures k.LspSlot? == l.LspSlot? && k.GoneSlot? == l.GoneSlot? && k.ScbSlot? == l.ScbSlot?
    ensures k.ScbMetaSlot? == l.ScbMetaSlot? && k.CopySlot? == l.CopySlot? && k.ChallengeSlot? == l.ChallengeSlot?
  {
    assert Prefix(k)[0] == Prefix(l)[0] && Prefix(k)[1] == Prefix(l)[1] && |Prefix(k)| == |Prefix(l)|;
  }

  lemma PrefixHasNoColon(k: Slot)
    ensures Without(Prefix(k), ':')
  {
  }

  /** Different slots are different keys. */
  lemma KeysDistinct(k: Slot, l: Slot)
    requires IsKey(k.pubkey) && IsKey(l.pubkey) && KeyOf(k) == KeyOf(l)
    ensures k == l
  {
    PrefixHasNoColon(k);
    PrefixHasNoColon(l);
    HeadUnique(Prefix(k), Rest(k), Prefix(l), Rest(l), ':');
    PrefixTells(k, l);
    var r := Rest(k);
    assert r[..66] == k.pubkey && r[..66] == l.pubkey;
    if k.ChallengeSlot? {
      assert r[67..] == k.nonce && r[67..] == l.nonce;
    }
  }

  lemma KeyFacts(k: Slot)
    ensures !IsTomb(KeyOf(k)) && (Mirrorable(KeyOf(k)) <==> !k.ChallengeSlot?)
    ensures ("lsp:" <= KeyOf(k) <==> k.LspSlot?) && ("backup:" <= KeyOf(k) <==> k.CopySlot?)
  {
    var key := KeyOf(k);
    assert k.LspSlot? ==> "lsp:" == Prefix(k) + ":";
    assert k.CopySlot? ==> "backup:" == Prefix(k) + ":";
    assert "lsp:" <= key ==> key[0] == 'l' && key[3] == ':';
    assert "backup:" <= key ==> key[1] == 'a';
    assert TOMB_PREFIX[0] == 't';
    if k.ChallengeSlot? { assert SKIP_PREFIX == "bkpchal" + ":"; }
    assert SKIP_PREFIX[0] == 'b' && SKIP_PREFIX[1] == 'k';
    assert key[0] == Prefix(k)[0] && key[1] == Prefix(k)[1];
  }

  /** The file store gives each of the registry's keys a place of its own. */
  lemma KeysCanonical(k: Slot)
    ensures FilePath.Canonical(KeyOf(k))
  {
    PrefixHasNoColon(k);
    FilePath.ColonAt(Prefix(k), Rest(k));
    assert KeyOf(k)[..|Prefix(k)|] == Prefix(k);
  }

  /******* One slot *******/

  function At(s: Store<Val>, k: Slot, now: nat): Option<Val> {
    var e := Find(s, KeyOf(k), now);
    if e.Some? then Some(e.value.value) else None
  }

  /** A request's clock is the time it began: every write it makes carries it. */
  function PutAt(s: Store<Val>, k: Slot, v: Val, x: Expiry, now: nat): Store<Val> {
    ClockedPut(s, KeyOf(k), v, x, now, now)
  }

  function DropAt(s: Store<Val>, k: Slot, now: nat): Store<Val> { ClockedDelete(s, KeyOf(k), now, now) }

  /******* Requests *******/

  /** A copy as pushed: the wallet it names, its number, its sealed bytes (empty: no byte array), a
      fingerprint property it may bring of its own, and the rest of it. */
  datatype CopyIn = CopyIn(pubkey: string, version: int, sealed: seq<byte>, brought: Option<string>, rest: string)

  datatype Request =
    | RegisterReq(body: Json)
    | UnregisterReq(pubkey: string, ts: int, sig: string)
    | ScbReq(pubkey: string, ts: int, sig: string, blob: seq<byte>)
    | ChallengeReq(pubkey: string, nonce: string)
    | PushReq(pubkey: string, nonce: string, sig: string, authV: int, copy: CopyIn)
    | ReadReq(pubkey: string, nonce: string, sig: string)
    | ForgetReq(pubkey: string, nonce: string, sig: string)

  /** Accepted; answered as fine with nothing done; refused. */
  datatype Reply = Done | Unchanged | Denied

  /** Within 600 seconds of now, either way. */
  predicate Timely(ts: int, now: nat) { -600000 <= now - ts * 1000 <= 600000 }

  const CAP := 5 * 1024 * 1024

  function GoneTs(s: Store<Val>, pk: string, now: nat, env: Env): Option<int> {
    match At(s, GoneSlot(pk), now)
    case Some(Plain(text)) => (match env.num(text) case Int(i) => Some(i) case NaN => None)
    case _ => None
  }

  function StoredTs(s: Store<Val>, k: Slot, now: nat): Option<int> {
    match At(s, k, now) case Some(v) => TsOf(v) case None => None
  }

  /** The node key that the signature recovers to is the one named; it prints as 33 bytes of hex. */
  predicate NodeSigned(pk: string, op: Domains.Op, sig: string, env: Env) {
    IsKey(pk) && sig != "" && env.signed(pk, Domains.TextOf(op, env.num), sig)
  }

  predicate RegisterOk(s: Store<Val>, rec: Record, sig: string, now: nat, env: Env) {
    && Timely(rec.ts, now)
    && (StoredTs(s, LspSlot(rec.pubkey), now).Some? ==> rec.ts >= StoredTs(s, LspSlot(rec.pubkey), now).value)
    && (GoneTs(s, rec.pubkey, now, env).Some? ==> rec.ts > GoneTs(s, rec.pubkey, now, env).value)
    && NodeSigned(rec.pubkey, Domains.Register(rec), sig, env)
  }

  /** The first registration time stays with the record. */
  function FirstSeen(s: Store<Val>, pk: string, now: nat): nat {
    match At(s, LspSlot(pk), now)
    case Some(Lsp(_, at, first)) => if first > 0 then first else if at > 0 then at else now
    case _ => now
  }

  predicate UnregisterOk(s: Store<Val>, pk: string, ts: int, sig: string, now: nat, env: Env) {
    && Timely(ts, now)
    && (StoredTs(s, LspSlot(pk), now).Some? ==> ts > StoredTs(s, LspSlot(pk), now).value)
    && NodeSigned(pk, Domains.Unregister(pk, ts), sig, env)
  }

  predicate ScbSigned(q: Request, now: nat, env: Env)
    requires q.ScbReq?
  {
    && Timely(q.ts, now) && 0 < |q.blob| <= CAP
    && NodeSigned(q.pubkey, Domains.ScbPush(q.pubkey, q.ts, env.sha(q.blob)), q.sig, env)
  }

  predicate IsNonce(n: string) { Normalise.IsHash(n) }

  function HexBytes(hex: string): seq<byte> {
    if |hex| < 2 then [] else [HexPair(hex[0], hex[1])] + HexBytes(hex[2..])
  }

  /** The challenge is open and the proof is over it. */
  predicate Proved(s: Store<Val>, pk: string, nonce: string, sig: string, proof: Domains.Proof, now: nat, env: Env) {
    && IsKey(pk) && IsNonce(nonce) && sig != ""
    && At(s, ChallengeSlot(pk, nonce), now) == Some(Plain(nonce))
    && env.proved(pk, Domains.Preimage(proof), sig)
  }

  function Fingerprint(b: CopyIn, env: Env): Option<string> {
    if b.sealed == [] then None else Some(env.sha(b.sealed))
  }

  /** A copy as it is stored: with the fingerprint of its bytes, or just as it came when it has none. */
  function CopyOf(b: CopyIn, env: Env): Val {
    Copy(b.version, if Fingerprint(b, env).Some? then Fingerprint(b, env) else b.brought, b.sealed, b.rest)
  }

  function PushProof(q: Request, env: Env): Domains.Proof
    requires q.PushReq?
  {
    var n, k := HexBytes(q.nonce), HexBytes(q.pubkey);
    if q.authV == 2 && q.copy.sealed != [] && q.copy.version >= 0 then
      Domains.V2("backup-push", n, k, HexBytes(env.sha(q.copy.sealed)), q.copy.version)
    else Domains.V1("backup-push", n, k)
  }

  predicate PushProved(s: Store<Val>, q: Request, now: nat, env: Env)
    requires q.PushReq?
  {
    && SafeInteger(q.copy.version) && q.copy.version >= 0
    && (q.authV == 1 || (q.authV == 2 && q.copy.sealed != []))
    && Proved(s, q.pubkey, q.nonce, q.sig, PushProof(q, env), now, env)
    && q.copy.pubkey == q.pubkey
  }

  /** The same copy again: its number and its fingerprint. */
  predicate SameCopy(v: Val, q: Request, env: Env)
    requires q.PushReq?
  {
    v.Copy? && v.version == q.copy.version && Fingerprint(q.copy, env).Some?
        && v.fingerprint == Fingerprint(q.copy, env)
  }

  predicate StaleCopy(v: Val, q: Request)
    requires q.PushReq?
  { v.Copy? && v.version >= q.copy.version }

  function ReadProof(action: string, q: Request): Domains.Proof
    requires q.ReadReq? || q.ForgetReq?
  { Domains.V1(action, HexBytes(q.nonce), HexBytes(q.pubkey)) }

  /******* What each request makes of the store *******/

  function HandleRegister(s: Store<Val>, body: Json, now: nat, env: Env): (Store<Val>, Reply) {
    match Normalise.Coerce(body, env.num)
    case None => (s, Denied)
    case Some(rec) =>
      if !RegisterOk(s, rec, String(Get(body, Signature)), now, env) then (s, Denied)
      else (PutAt(s, LspSlot(rec.pubkey), Lsp(rec, now, FirstSeen(s, rec.pubkey, now)), Never, now), Done)
  }

  /** The departure marker outlives any registration signed before it. */
  function HandleUnregister(s: Store<Val>, pk: string, ts: int, sig: string, now: nat, env: Env): (Store<Val>, Reply) {
    if pk == "" || sig == "" || !Timely(ts, now) then (s, Denied)
    else if At(s, LspSlot(pk), now).None? then (s, Unchanged)
    else if !UnregisterOk(s, pk, ts, sig, now, env) then (s, Denied)
    else (PutAt(DropAt(s, LspSlot(pk), now), GoneSlot(pk), Plain(Dec(ts)), Ttl(1200), now), Done)
  }

  /** Rotate the current generation to the previous one, unless this is the same copy or an older one. */
  function HandleScb(s: Store<Val>, pk: string, ts: int, blob: seq<byte>, now: nat, env: Env): (Store<Val>, Reply) {
    var cur, meta := At(s, ScbSlot(pk, false), now), At(s, ScbMetaSlot(pk, false), now);
    if meta.Some? && meta.value.ScbMeta? && meta.value.sha256 == env.sha(blob) then (s, Unchanged)
    else if meta.Some? && TsOf(meta.value).Some? && ts <= TsOf(meta.value).value then (s, Denied)
    else
      var s1 := if cur.Some? then PutAt(s, ScbSlot(pk, true), cur.value, Never, now) else s;
      var s2 := if meta.Some? then PutAt(s1, ScbMetaSlot(pk, true), meta.value, Never, now) else s1;
      var s3 := PutAt(s2, ScbSlot(pk, false), Blob(blob), Never, now);
      (PutAt(s3, ScbMetaSlot(pk, false), ScbMeta(env.sha(blob), |blob|, ts, now), Never, now), Done)
  }

  function HandleChallenge(s: Store<Val>, pk: string, nonce: string, now: nat): (Store<Val>, Reply) {
    if !IsKey(pk) || !IsNonce(nonce) then (s, Denied)
    else (PutAt(s, ChallengeSlot(pk, nonce), Plain(nonce), Ttl(120), now), Done)
  }

  function HandlePush(s: Store<Val>, q: Request, now: nat, env: Env): (Store<Val>, Reply)
    requires q.PushReq?
  {
    var existing, open := At(s, CopySlot(q.pubkey), now), ChallengeSlot(q.pubkey, q.nonce);
    if !PushProved(s, q, now, env) then (s, Denied)
    else if existing.Some? && SameCopy(existing.value, q, env) then (DropAt(s, open, now), Done)
    else if existing.Some? && StaleCopy(existing.value, q) then (s, Denied)
    else (DropAt(PutAt(s, CopySlot(q.pubkey), CopyOf(q.copy, env), Never, now), open, now), Done)
  }

  function HandleRead(s: Store<Val>, q: Request, now: nat, env: Env): (Store<Val>, Reply)
    requires q.ReadReq?
  {
    if !Proved(s, q.pubkey, q.nonce, q.sig, ReadProof("backup-read", q), now, env) then (s, Denied)
    else (DropAt(s, ChallengeSlot(q.pubkey, q.nonce), now), Done)
  }

  function HandleForget(s: Store<Val>, q: Request, now: nat, env: Env): (Store<Val>, Reply)
    requires q.ForgetReq?
  {
    if !Proved(s, q.pubkey, q.nonce, q.sig, ReadProof("backup-forget", q), now, env) then (s, Denied)
    else (DropAt(DropAt(s, ChallengeSlot(q.pubkey, q.nonce), now), CopySlot(q.pubkey), now), Done)
  }

  function Handle(s: Store<Val>, q: Request, now: nat, env: Env): (Store<Val>, Reply) {
    match q
    case RegisterReq(body) => HandleRegister(s, body, now, env)
    case UnregisterReq(pk, ts, sig) => HandleUnregister(s, pk, ts, sig, now, env)
    case ScbReq(pk, ts, _, blob) =>
      if !ScbSigned(q, now, env) then (s, Denied) else HandleScb(s, pk, ts, blob, now, env)
    case ChallengeReq(pk, nonce) => HandleChallenge(s, pk, nonce, now)
    case PushReq(_, _, _, _, _) => HandlePush(s, q, now, env)
    case ReadReq(_, _, _) => HandleRead(s, q, now, env)
    case ForgetReq(_, _, _) => HandleForget(s, q, now, env)
  }

  /******* What a request leaves alone *******/

  function Touches(q: Request, env: Env): set<Slot> {
    match q
    case RegisterReq(body) =>
      (match Normalise.Coerce(body, env.num) case None => {} case Some(rec) => {LspSlot(rec.pubkey)})
    case UnregisterReq(pk, _, _) => {LspSlot(pk), GoneSlot(pk)}
    case ScbReq(pk, _, _, _) => {ScbSlot(pk, false), ScbSlot(pk, true), ScbMetaSlot(pk, false), ScbMetaSlot(pk, true)}
    case ChallengeReq(pk, nonce) => {ChallengeSlot(pk, nonce)}
    case PushReq(pk, nonce, _, _, _) => {CopySlot(pk), ChallengeSlot(pk, nonce)}
    case ReadReq(pk, nonce, _) => {ChallengeSlot(pk, nonce)}
    case ForgetReq(pk, nonce, _) => {CopySlot(pk), ChallengeSlot(pk, nonce)}
  }

  /** The entry a slot has, live or not. */
  function Raw(s: Store<Val>, k: Slot): Option<Entry<Val>> {
    if KeyOf(k) in s then Some(s[KeyOf(k)]) else None
  }

  lemma PutThenRaw(s: Store<Val>, k: Slot, v: Val, x: Expiry, now: nat, l: Slot)
    requires IsKey(k.pubkey) && IsKey(l.pubkey)
    ensures k != l ==> Raw(PutAt(s, k, v, x, now), l) == Raw(s, l)
    ensures
      Raw(PutAt(s, k, v, x, now), k) ==
      Some(Entry(v, if Mirrorable(KeyOf(k)) then now else 0, ExpiresAt(x, now)))
  {
    if KeyOf(k) == KeyOf(l) { KeysDistinct(k, l); }
  }

  lemma DropThenRaw(s: Store<Val>, k: Slot, now: nat, l: Slot)
    requires IsKey(k.pubkey) && IsKey(l.pubkey)
    ensures Raw(DropAt(s, k, now), l) == (if k == l then None else Raw(s, l))
  {
    if KeyOf(k) == KeyOf(l) { KeysDistinct(k, l); }
    KeyFacts(l);
    TombInjective(KeyOf(k), KeyOf(k));
  }

  lemma CoercedKey(body: Json, env: Env)
    ensures
      Normalise.Coerce(body, env.num).Some? ==> IsKey(Normalise.Coerce(body, env.num).value.pubkey)
  {
    hide Normalise.CleanFilterUrl, Normalise.CleanTatara, Normalise.CleanRoutes, Normalise.IsPlainAddress;
  }

  lemma ScbUntouched(s: Store<Val>, pk: string, ts: int, blob: seq<byte>, now: nat, env: Env, l: Slot)
    requires IsKey(pk) && IsKey(l.pubkey)
    requires l !in {ScbSlot(pk, false), ScbSlot(pk, true), ScbMetaSlot(pk, false), ScbMetaSlot(pk, true)}
    ensures Raw(HandleScb(s, pk, ts, blob, now, env).0, l) == Raw(s, l)
  {
    var cur, meta := At(s, ScbSlot(pk, false), now), At(s, ScbMetaSlot(pk, false), now);
    hide PutAt, Raw, At;
    var s1 := if cur.Some? then PutAt(s, ScbSlot(pk, true), cur.value, Never, now) else s;
    if cur.Some? { PutThenRaw(s, ScbSlot(pk, true), cur.value, Never, now, l); }
    var s2 := if meta.Some? then PutAt(s1, ScbMetaSlot(pk, true), meta.value, Never, now) else s1;
    if meta.Some? { PutThenRaw(s1, ScbMetaSlot(pk, true), meta.value, Never, now, l); }
    var s3 := PutAt(s2, ScbSlot(pk, false), Blob(blob), Never, now);
    PutThenRaw(s2, ScbSlot(pk, false), Blob(blob), Never, now, l);
    PutThenRaw(s3, ScbMetaSlot(pk, false), ScbMeta(env.sha(blob), |blob|, ts, now), Never, now, l);
  }

  lemma NodeUntouched(s: Store<Val>, q: Request, now: nat, env: Env, l: Slot)
    requires q.RegisterReq? || q.UnregisterReq?
    requires IsKey(l.pubkey) && l !in Touches(q, env)
    ensures Raw(Handle(s, q, now, env).0, l) == Raw(s, l)
  {
    hide PutAt, DropAt, Raw, At, FirstSeen, Normalise.Coerce, Domains.TextOf;
    match q {
      case RegisterReq(body) =>
        CoercedKey(body, env);
        if Handle(s, q, now, env).1 == Done {
          var rec := Normalise.Coerce(body, env.num).value;
          PutThenRaw(s, LspSlot(rec.pubkey), Lsp(rec, now, FirstSeen(s, rec.pubkey, now)), Never, now, l);
        }
      case UnregisterReq(pk, ts, _) =>
        if Handle(s, q, now, env).1 == Done {
          DropThenRaw(s, LspSlot(pk), now, l);
          PutThenRaw(DropAt(s, LspSlot(pk), now), GoneSlot(pk), Plain(Dec(ts)), Ttl(1200), now, l);
        }
    }
  }

  lemma WalletUntouched(s: Store<Val>, q: Request, now: nat, env: Env, l: Slot)
    requires q.ChallengeReq? || q.PushReq? || q.ReadReq? || q.ForgetReq?
    requires IsKey(l.pubkey) && l !in Touches(q, env)
    ensures Raw(Handle(s, q, now, env).0, l) == Raw(s, l)
  {
    hide PutAt, DropAt, Raw, At, SameCopy, StaleCopy, CopyOf, PushProof, ReadProof, Domains.Preimage;
    if Handle(s, q, now, env).1 == Done {
      var open, own := ChallengeSlot(q.pubkey, q.nonce), CopySlot(q.pubkey);
      DropThenRaw(s, open, now, l);
      match q {
        case ChallengeReq(_, nonce) => PutThenRaw(s, open, Plain(nonce), Ttl(120), now, l);
        case PushReq(_, _, _, _, copy) =>
          PutThenRaw(s, own, CopyOf(copy, env), Never, now, l);
          DropThenRaw(PutAt(s, own, CopyOf(copy, env), Never, now), open, now, l);
        case ReadReq(_, _, _) =>
        case ForgetReq(_, _, _) => DropThenRaw(DropAt(s, open, now), own, now, l);
      }
    }
  }

  /** A request changes the slots it is about and no other. */
  lemma Untouched(s: Store<Val>, q: Request, now: nat, env: Env, l: Slot)
    requires IsKey(l.pubkey) && l !in Touches(q, env)
    ensures Raw(Handle(s, q, now, env).0, l) == Raw(s, l)
  {
    if q.RegisterReq? || q.UnregisterReq? {
      NodeUntouched(s, q, now, env, l);
    } else if q.ScbReq? {
      hide Raw, HandleScb, Domains.TextOf;
      if ScbSigned(q, now, env) { ScbUntouched(s, q.pubkey, q.ts, q.blob, now, env, l); }
    } else {
      WalletUntouched(s, q, now, env, l);
    }
  }

  /******* Runs of requests *******/

  /** A request and the time it comes at. */
  type Calls = seq<(Request, nat)>

  function Run(s: Store<Val>, calls: Calls, env: Env): Store<Val>
    decreases |calls|
  {
    if calls == [] then s else Run(Handle(s, calls[0].0, calls[0].1, env).0, calls[1..], env)
  }

  /******* Freshness *******/

  /** The timestamp of a registration or a departure of `pk` that this request gets accepted. */
  function AcceptedTs(s: Store<Val>, q: Request, now: nat, env: Env, pk: string): Option<int> {
    if Handle(s, q, now, env).1 != Done then None
    else
      match q
      case RegisterReq(body) =>
        var rec := Normalise.Coerce(body, env.num);
        if rec.Some? && rec.value.pubkey == pk then Some(rec.value.ts) else None
      case UnregisterReq(p, ts, _) => if p == pk then Some(ts) else None
      case _ => None
  }

  function AcceptedRun(s: Store<Val>, calls: Calls, env: Env, pk: string): seq<int>
    decreases |calls|
  {
    if calls == [] then []
    else
      var (q, now) := calls[0];
      var ts := AcceptedTs(s, q, now, env, pk);
      (if ts.Some? then [ts.value] else []) + AcceptedRun(Handle(s, q, now, env).0, calls[1..], env, pk)
  }

  ghost predicate NeverFalls(xs: seq<int>) { forall i, j :: 0 <= i < j < |xs| ==> xs[i] <= xs[j] }

  /** The environment reads back the decimals it prints. */
  ghost predicate ReadsDecimals(env: Env) { forall i :: env.num(Dec(i)) == Int(i) }

  /** What the door remembers of the last accepted timestamp: the record holds it; or the departure
      marker does, until 600 seconds past it; or it is 600 seconds old. */
  ghost predicate Remembers(s: Store<Val>, pk: string, last: int, now: nat) {
    var rec, gone := Raw(s, LspSlot(pk)), Raw(s, GoneSlot(pk));
    || (rec.Some? && rec.value.exp.None? && TsOf(rec.value.value) == Some(last))
    || (At(s, LspSlot(pk), now).None? && gone.Some? && gone.value.value == Plain(Dec(last)) &&
        gone.value.exp.Some? && gone.value.exp.value >= last + 600)
    || (At(s, LspSlot(pk), now).None? && (last + 600) * 1000 <= now)
  }

  lemma RememberedLater(s: Store<Val>, pk: string, last: int, now: nat, later: nat)
    requires Remembers(s, pk, last, now) && now <= later
    ensures Remembers(s, pk, last, later)
  {
  }

  /** A request the door accepts for `pk` is no older than what it remembers, and is remembered in turn;
      any other leaves the memory as it is. */
  lemma FreshStep(s: Store<Val>, q: Request, now: nat, env: Env, pk: string, last: int)
    requires IsKey(pk) && ReadsDecimals(env) && Remembers(s, pk, last, now)
    ensures
      var ts, s' := AcceptedTs(s, q, now, env, pk), Handle(s, q, now, env).0;
      if ts.Some? then ts.value >= last && Remembers(s', pk, ts.value, now) else Remembers(s', pk, last, now)
  {
    var ts := AcceptedTs(s, q, now, env, pk);
    if ts.Some? {
      AcceptedIsRemembered(s, q, now, env, pk);
      AcceptedIsNewer(s, q, now, env, pk, last);
    } else {
      NotAcceptedKeeps(s, q, now, env, pk);
      assert At(Handle(s, q, now, env).0, LspSlot(pk), now) == At(s, LspSlot(pk), now);
    }
  }

  lemma AcceptedIsNewer(s: Store<Val>, q: Request, now: nat, env: Env, pk: string, last: int)
    requires IsKey(pk) && ReadsDecimals(env) && Remembers(s, pk, last, now) && AcceptedTs(s, q, now, env, pk).Some?
    ensures AcceptedTs(s, q, now, env, pk).value >= last
  {
    hide PutAt, DropAt, Domains.TextOf, Normalise.Coerce, Dec;
    var gone := Raw(s, GoneSlot(pk));
    assert env.num(Dec(last)) == Int(last);
  }

  /** An accepted timestamp is remembered: this is where the window, the marker's life and its whole
      seconds meet. */
  lemma AcceptedIsRemembered(s: Store<Val>, q: Request, now: nat, env: Env, pk: string)
    requires IsKey(pk) && AcceptedTs(s, q, now, env, pk).Some?
    ensures Remembers(Handle(s, q, now, env).0, pk, AcceptedTs(s, q, now, env, pk).value, now)
  {
    var ts, s' := AcceptedTs(s, q, now, env, pk).value, Handle(s, q, now, env).0;
    hide Domains.TextOf, Normalise.Coerce, Dec;
    if q.RegisterReq? {
      var v := Lsp(Normalise.Coerce(q.body, env.num).value, now, FirstSeen(s, pk, now));
      PutThenRaw(s, LspSlot(pk), v, Never, now, LspSlot(pk));
    } else {
      var s1 := DropAt(s, LspSlot(pk), now);
      DropThenRaw(s, LspSlot(pk), now, LspSlot(pk));
      PutThenRaw(s1, GoneSlot(pk), Plain(Dec(ts)), Ttl(1200), now, LspSlot(pk));
      PutThenRaw(s1, GoneSlot(pk), Plain(Dec(ts)), Ttl(1200), now, GoneSlot(pk));
      assert ts * 1000 <= now + 600000;
      assert ts <= now / 1000 + 600;
    }
  }

  lemma NotAcceptedKeeps(s: Store<Val>, q: Request, now: nat, env: Env, pk: string)
    requires IsKey(pk) && AcceptedTs(s, q, now, env, pk).None?
    ensures Raw(Handle(s, q, now, env).0, LspSlot(pk)) == Raw(s, LspSlot(pk))
    ensures Raw(Handle(s, q, now, env).0, GoneSlot(pk)) == Raw(s, GoneSlot(pk))
  {
    hide Raw, PutAt, DropAt, Normalise.Coerce, Domains.Preimage;
    if Handle(s, q, now, env).1 == Done {
      Untouched(s, q, now, env, LspSlot(pk));
      Untouched(s, q, now, env, GoneSlot(pk));
    }
  }

  lemma {:induction false} FreshAfter(s: Store<Val>, calls: Calls, from: nat, env: Env, pk: string, last: int)
    requires IsKey(pk) && ReadsDecimals(env) && Remembers(s, pk, last, from) && TimesFrom(calls, from)
    ensures NeverFalls([last] + AcceptedRun(s, calls, env, pk))
    decreases |calls|
  {
    if calls != [] {
      var (q, now) := calls[0];
      RememberedLater(s, pk, last, from, now);
      FreshStep(s, q, now, env, pk, last);
      hide Handle, Remembers, AcceptedTs;
      var s', ts := Handle(s, q, now, env).0, AcceptedTs(s, q, now, env, pk);
      var next := if ts.Some? then ts.value else last;
      FreshAfter(s', calls[1..], now, env, pk, next);
      LeastFirst(last, next, AcceptedRun(s', calls[1..], env, pk), ts.Some?);
    }
  }

  lemma LeastFirst(last: int, next: int, rest: seq<int>, taken: bool)
    requires NeverFalls([next] + rest) && last <= next && (!taken ==> next == last)
    ensures NeverFalls([last] + ((if taken then [next] else []) + rest))
  {
    var xs := [last] + ((if taken then [next] else []) + rest);
    var ys := [next] + rest;
    forall i, j | 0 <= i < j < |xs| ensures xs[i] <= xs[j] {
      if taken {
        assert xs[j] == ys[j - 1] && ys[0] <= ys[j - 1];
        if i > 0 { assert xs[i] == ys[i - 1]; }
      } else {
        assert xs == ys;
      }
    }
  }

  /** Freshness over whole runs: from any store, with any requests for any keys between, the timestamps
      of the registrations and departures accepted for one key never fall, even once the departure
      marker has expired. */
  lemma {:induction false} FreshOverRuns(s: Store<Val>, calls: Calls, from: nat, env: Env, pk: string)
    requires IsKey(pk) && ReadsDecimals(env) && TimesFrom(calls, from)
    ensures NeverFalls(AcceptedRun(s, calls, env, pk))
    decreases |calls|
  {
    if calls != [] {
      var (q, now) := calls[0];
      var s', ts := Handle(s, q, now, env).0, AcceptedTs(s, q, now, env, pk);
      if ts.Some? {
        AcceptedIsRemembered(s, q, now, env, pk);
        FreshAfter(s', calls[1..], now, env, pk, ts.value);
      } else {
        FreshOverRuns(s', calls[1..], now, env, pk);
        assert [] + AcceptedRun(s', calls[1..], env, pk) == AcceptedRun(s', calls[1..], env, pk);
      }
    }
  }

  /** The time a record was first registered at, zero when the entry holds no record. */
  function FirstTime(s: Store<Val>, pk: string): nat {
    match Raw(s, LspSlot(pk))
    case Some(Entry(Lsp(_, _, first), _, _)) => first
    case _ => 0
  }

  /** As long as a key stays registered, through any request its first registration time is kept. */
  lemma FirstTimeStays(s: Store<Val>, q: Request, now: nat, env: Env, pk: string)
    requires IsKey(pk) && FirstTime(s, pk) > 0 && Raw(s, LspSlot(pk)).value.exp.None?
    ensures
      var s' := Handle(s, q, now, env).0;
      Raw(s', LspSlot(pk)).Some? ==> FirstTime(s', pk) == FirstTime(s, pk) && Raw(s', LspSlot(pk)).value.exp.None?
  {
    hide PutAt, DropAt, Normalise.Coerce, Domains.TextOf, HandleScb, HandlePush;
    var k := LspSlot(pk);
    if k !in Touches(q, env) {
      Untouched(s, q, now, env, k);
    } else if Handle(s, q, now, env).1 == Done {
      if q.RegisterReq? {
        PutThenRaw(s, k, Lsp(Normalise.Coerce(q.body, env.num).value, now, FirstSeen(s, pk, now)), Never, now, k);
      } else {
        DropThenRaw(s, k, now, k);
        PutThenRaw(DropAt(s, k, now), GoneSlot(pk), Plain(Dec(q.ts)), Ttl(1200), now, k);
      }
    }
  }

  /** A departed key has no record, whatever it had. */
  lemma DepartureRemoves(s: Store<Val>, q: Request, now: nat, env: Env)
    requires q.UnregisterReq? && Handle(s, q, now, env).1 == Done
    ensures Raw(Handle(s, q, now, env).0, LspSlot(q.pubkey)).None?
  {
    hide PutAt, DropAt, Domains.TextOf, At, Raw;
    var k := LspSlot(q.pubkey);
    DropThenRaw(s, k, now, k);
    PutThenRaw(DropAt(s, k, now), GoneSlot(q.pubkey), Plain(Dec(q.ts)), Ttl(1200), now, k);
  }

  /******* Challenges *******/

  /** Whether a request is an accepted one that spends the challenge. */
  predicate Spends(s: Store<Val>, q: Request, now: nat, env: Env, pk: string, nonce: string) {
    && (q.PushReq? || q.ReadReq? || q.ForgetReq?) && q.pubkey == pk && q.nonce == nonce
    && Handle(s, q, now, env).1 == Done
  }

  predicate Issues(s: Store<Val>, q: Request, now: nat, env: Env, pk: string, nonce: string) {
    q == ChallengeReq(pk, nonce) && Handle(s, q, now, env).1 == Done
  }

  function SpentIn(s: Store<Val>, calls: Calls, env: Env, pk: string, nonce: string): nat
    decreases |calls|
  {
    if calls == [] then 0
    else
      (if Spends(s, calls[0].0, calls[0].1, env, pk, nonce) then 1 else 0)
      + SpentIn(Handle(s, calls[0].0, calls[0].1, env).0, calls[1..], env, pk, nonce)
  }

  function IssuedIn(s: Store<Val>, calls: Calls, env: Env, pk: string, nonce: string): nat
    decreases |calls|
  {
    if calls == [] then 0
    else
      (if Issues(s, calls[0].0, calls[0].1, env, pk, nonce) then 1 else 0)
      + IssuedIn(Handle(s, calls[0].0, calls[0].1, env).0, calls[1..], env, pk, nonce)
  }

  lemma OpenIsStored(s: Store<Val>, k: Slot, now: nat)
    ensures At(s, k, now).Some? ==> Raw(s, k).Some?
  {
  }

  lemma ChallengeStep(s: Store<Val>, q: Request, now: nat, env: Env, pk: string, nonce: string)
    requires IsKey(pk)
    ensures
      var k := ChallengeSlot(pk, nonce);
      var open, open' := Raw(s, k).Some?, Raw(Handle(s, q, now, env).0, k).Some?;
      && (Spends(s, q, now, env, pk, nonce) ==> open && !open' && !Issues(s, q, now, env, pk, nonce))
      && (!Spends(s, q, now, env, pk, nonce) && !Issues(s, q, now, env, pk, nonce) ==> open' == open)
  {
    var k, own := ChallengeSlot(pk, nonce), CopySlot(pk);
    hide PutAt, DropAt, Raw, At, SameCopy, StaleCopy, CopyOf, PushProof, ReadProof, Domains.Preimage;
    if k !in Touches(q, env) {
      Untouched(s, q, now, env, k);
    } else if Spends(s, q, now, env, pk, nonce) {
      OpenIsStored(s, k, now);
      DropThenRaw(s, k, now, k);
      if q.PushReq? {
        DropThenRaw(PutAt(s, own, CopyOf(q.copy, env), Never, now), k, now, k);
      } else if q.ForgetReq? {
        DropThenRaw(DropAt(s, k, now), own, now, k);
      }
    }
  }

  /** Single use: over any run, the accepted pushes, reads and forgets under one challenge are no more
      than the times it was issued, plus the one that may have been open at the start. */
  lemma {:induction false} SpentOnce(s: Store<Val>, calls: Calls, env: Env, pk: string, nonce: string)
    requires IsKey(pk)
    ensures
      SpentIn(s, calls, env, pk, nonce) <=
      IssuedIn(s, calls, env, pk, nonce) + (if Raw(s, ChallengeSlot(pk, nonce)).Some? then 1 else 0)
    decreases |calls|
  {
    if calls != [] {
      ChallengeStep(s, calls[0].0, calls[0].1, env, pk, nonce);
      hide Handle, Raw, Spends, Issues;
      SpentOnce(Handle(s, calls[0].0, calls[0].1, env).0, calls[1..], env, pk, nonce);
    }
  }

  /******* The wallet's copy *******/

  /** An accepted push leaves the pushed copy to be read, whole and under the fingerprint of its bytes, or,
      sent again, leaves the one stored of that number and fingerprint; a forget leaves nothing; any other
      request leaves the copy as it was. */
  lemma CopyAfter(s: Store<Val>, q: Request, now: nat, env: Env, pk: string)
    requires IsKey(pk) && (At(s, CopySlot(pk), now).Some? ==> Raw(s, CopySlot(pk)).value.exp.None?)
    ensures
      var (s', r) := Handle(s, q, now, env);
      var was, held := At(s, CopySlot(pk), now), At(s', CopySlot(pk), now);
      && (q.PushReq? && q.pubkey == pk && r == Done ==>
           var c, own := q.copy, if q.copy.sealed != [] then Some(env.sha(q.copy.sealed)) else q.copy.brought;
           held ==
             if was.Some? && was.value.Copy? && was.value.version == c.version && c.sealed != [] &&
                was.value.fingerprint == own
             then was else Some(Copy(c.version, own, c.sealed, c.rest)))
      && (q.ForgetReq? && q.pubkey == pk && r == Done ==> held.None?)
      && (r != Done || !(q.PushReq? || q.ForgetReq?) || q.pubkey != pk ==> held == was)
  {
    hide PutAt, DropAt, Domains.Preimage, Proved, PushProof, ReadProof, HandleScb, HandleRegister, HandleUnregister;
    var own := CopySlot(pk);
    if own !in Touches(q, env) {
      Untouched(s, q, now, env, own);
    } else if Handle(s, q, now, env).1 == Done {
      var open := ChallengeSlot(pk, q.nonce);
      DropThenRaw(s, open, now, own);
      if q.PushReq? {
        PutThenRaw(s, own, CopyOf(q.copy, env), Never, now, own);
        DropThenRaw(PutAt(s, own, CopyOf(q.copy, env), Never, now), open, now, own);
      } else {
        DropThenRaw(DropAt(s, open, now), own, now, own);
      }
    }
  }

  /******* The channel backup's generations *******/

  datatype Gen = Gen(blob: seq<byte>, ts: int, storedAt: nat)

  /** What a request adds to the generations. */
  function NewGen(s: Store<Val>, q: Request, now: nat, env: Env, pk: string): seq<Gen> {
    if q.ScbReq? && q.pubkey == pk && Handle(s, q, now, env).1 == Done then [Gen(q.blob, q.ts, now)] else []
  }

  /** The pushes of `pk` that a run gets accepted. */
  function Gens(s: Store<Val>, calls: Calls, env: Env, pk: string): seq<Gen>
    decreases |calls|
  {
    if calls == [] then []
    else
      var (q, now) := calls[0];
      NewGen(s, q, now, env, pk) + Gens(Handle(s, q, now, env).0, calls[1..], env, pk)
  }

  ghost predicate HoldsGen(s: Store<Val>, pk: string, prev: bool, g: Gen, env: Env) {
    var b, m := Raw(s, ScbSlot(pk, prev)), Raw(s, ScbMetaSlot(pk, prev));
    && b.Some? && b.value.exp.None? && b.value.value == Blob(g.blob)
    && m.Some? && m.value.exp.None? && m.value.value == ScbMeta(env.sha(g.blob), |g.blob|, g.ts, g.storedAt)
  }

  ghost predicate HoldsNone(s: Store<Val>, pk: string, prev: bool) {
    Raw(s, ScbSlot(pk, prev)).None? && Raw(s, ScbMetaSlot(pk, prev)).None?
  }

  /** The current entries hold the last generation, the `:prev` entries the one before. */
  ghost predicate HoldsHistory(s: Store<Val>, pk: string, gens: seq<Gen>, env: Env) {
    && (if gens == [] then HoldsNone(s, pk, false) else HoldsGen(s, pk, false, gens[|gens| - 1], env))
    && (if |gens| < 2 then HoldsNone(s, pk, true) else HoldsGen(s, pk, true, gens[|gens| - 2], env))
  }

  /** Each generation is newer than the one before, and another copy. */
  ghost predicate Climbs(gens: seq<Gen>, env: Env) {
    forall i :: 0 < i < |gens| ==> gens[i - 1].ts < gens[i].ts && env.sha(gens[i - 1].blob) != env.sha(gens[i].blob)
  }

  /** A push is a new generation exactly when it is signed, is not the stored copy, and is newer; else
      it changes nothing. */
  lemma ScbDoneIff(s: Store<Val>, q: Request, now: nat, env: Env, gens: seq<Gen>)
    requires q.ScbReq? && IsKey(q.pubkey) && HoldsHistory(s, q.pubkey, gens, env)
    ensures
      var (s', r) := Handle(s, q, now, env);
      && (r == Done <==>
           ScbSigned(q, now, env) &&
           (gens != [] ==> env.sha(q.blob) != env.sha(gens[|gens| - 1].blob) && q.ts > gens[|gens| - 1].ts))
      && (r != Done ==> s' == s)
  {
    hide PutAt;
  }

  /** The history looks only at its own four entries. */
  lemma SameHistory(s: Store<Val>, s': Store<Val>, pk: string, gens: seq<Gen>, env: Env)
    requires HoldsHistory(s, pk, gens, env)
    requires
      forall l :: l in {ScbSlot(pk, false), ScbSlot(pk, true), ScbMetaSlot(pk, false), ScbMetaSlot(pk, true)} ==>
                    Raw(s', l) == Raw(s, l)
    ensures HoldsHistory(s', pk, gens, env)
  {
    hide Raw;
  }

  lemma ScbStep(s: Store<Val>, q: Request, now: nat, env: Env, pk: string, gens: seq<Gen>)
    requires IsKey(pk) && HoldsHistory(s, pk, gens, env)
    ensures HoldsHistory(Handle(s, q, now, env).0, pk, gens + NewGen(s, q, now, env, pk), env)
  {
    var s' := Handle(s, q, now, env).0;
    hide HoldsHistory, Raw, PutAt, DropAt, HandleRegister, HandleUnregister, HandleScb, HandlePush;
    if NewGen(s, q, now, env, pk) != [] {
      Rotates(s, pk, q.ts, q.blob, now, env, gens);
    } else {
      assert gens + [] == gens;
      if q.ScbReq? && q.pubkey == pk {
        ScbDoneIff(s, q, now, env, gens);
      } else {
        hide Handle, NewGen;
        forall l | l in {ScbSlot(pk, false), ScbSlot(pk, true), ScbMetaSlot(pk, false), ScbMetaSlot(pk, true)}
          ensures Raw(s', l) == Raw(s, l)
        {
          Untouched(s, q, now, env, l);
        }
        SameHistory(s, s', pk, gens, env);
      }
    }
  }

  lemma Rotates(s: Store<Val>, pk: string, ts: int, blob: seq<byte>, now: nat, env: Env, gens: seq<Gen>)
    requires IsKey(pk) && HoldsHistory(s, pk, gens, env) && HandleScb(s, pk, ts, blob, now, env).1 == Done
    ensures HoldsHistory(HandleScb(s, pk, ts, blob, now, env).0, pk, gens + [Gen(blob, ts, now)], env)
  {
    hide PutAt;
    var c, cp, m, mp := ScbSlot(pk, false), ScbSlot(pk, true), ScbMetaSlot(pk, false), ScbMetaSlot(pk, true);
    var cur, meta := At(s, c, now), At(s, m, now);
    assert cur.Some? == (gens != []) && meta.Some? == (gens != []);
    var s1 := if cur.Some? then PutAt(s, cp, cur.value, Never, now) else s;
    var s2 := if meta.Some? then PutAt(s1, mp, meta.value, Never, now) else s1;
    var s3 := PutAt(s2, c, Blob(blob), Never, now);
    var v := ScbMeta(env.sha(blob), |blob|, ts, now);
    forall l | l in {c, cp, m, mp}
      ensures gens != [] && l != cp ==> Raw(s1, l) == Raw(s, l)
      ensures gens != [] && l != mp ==> Raw(s2, l) == Raw(s1, l)
      ensures l != c ==> Raw(s3, l) == Raw(s2, l)
      ensures l != m ==> Raw(PutAt(s3, m, v, Never, now), l) == Raw(s3, l)
    {
      if gens != [] {
        PutThenRaw(s, cp, cur.value, Never, now, l);
        PutThenRaw(s1, mp, meta.value, Never, now, l);
      }
      PutThenRaw(s2, c, Blob(blob), Never, now, l);
      PutThenRaw(s3, m, v, Never, now, l);
    }
    if gens != [] {
      PutThenRaw(s, cp, cur.value, Never, now, cp);
      PutThenRaw(s1, mp, meta.value, Never, now, mp);
    }
    PutThenRaw(s2, c, Blob(blob), Never, now, c);
    PutThenRaw(s3, m, v, Never, now, m);
  }

  lemma ScbClimbs(s: Store<Val>, q: Request, now: nat, env: Env, pk: string, gens: seq<Gen>)
    requires IsKey(pk) && HoldsHistory(s, pk, gens, env) && Climbs(gens, env)
    ensures Climbs(gens + NewGen(s, q, now, env, pk), env)
  {
    hide HoldsHistory;
    if NewGen(s, q, now, env, pk) == [] {
      assert gens + [] == gens;
    } else {
      ScbDoneIff(s, q, now, env, gens);
    }
  }

  /** The history of a key's channel backup: after any run the two generations stored are the last two
      accepted, each beside the hash and size of its own bytes, and timestamps have only grown. */
  lemma {:induction false} ScbHistory(s: Store<Val>, calls: Calls, env: Env, pk: string, gens: seq<Gen>)
    requires IsKey(pk) && HoldsHistory(s, pk, gens, env) && Climbs(gens, env)
    ensures HoldsHistory(Run(s, calls, env), pk, gens + Gens(s, calls, env, pk), env)
    ensures Climbs(gens + Gens(s, calls, env, pk), env)
    decreases |calls|
  {
    hide Handle, HoldsHistory, Climbs, NewGen;
    if calls == [] {
      assert gens + [] == gens;
    } else {
      var (q, now) := calls[0];
      var more, s' := NewGen(s, q, now, env, pk), Handle(s, q, now, env).0;
      ScbStep(s, q, now, env, pk, gens);
      ScbClimbs(s, q, now, env, pk, gens);
      ScbHistory(s', calls[1..], env, pk, gens + more);
      var rest := Gens(s', calls[1..], env, pk);
      assert gens + (more + rest) == (gens + more) + rest;
    }
  }

  /******* What a request does to a key's cell *******/

  lemma PutToCell(s: Store<Val>, k: Slot, v: Val, x: Expiry, now: nat, name: string)
    requires Mirrored(name) && (x.Never? || (x.Ttl? && x.seconds > 0))
    ensures
      CellOf(PutAt(s, k, v, x, now), name, now) ==
      if KeyOf(k) != name then CellOf(s, name, now)
      else CellOf(s, name, now).(v := Some(Entry(v, now, ExpiresAt(x, now))))
  {
    KeyFacts(k);
    if KeyOf(k) != name {
      OtherCell(s, PutAt(s, k, v, x, now), KeyOf(k), name, now);
    } else {
      ClockedPutCell(s, name, v, x, now, now);
    }
  }

  lemma DropToCell(s: Store<Val>, k: Slot, now: nat, name: string)
    requires Mirrored(name)
    ensures
      CellOf(DropAt(s, k, now), name, now) ==
      if KeyOf(k) != name then CellOf(s, name, now) else Cell(None, Some(TombEntry(now, now)))
  {
    KeyFacts(k);
    if KeyOf(k) != name {
      OtherCell(s, DropAt(s, k, now), KeyOf(k), name, now);
    } else {
      ClockedDeleteCell(s, name, now, now);
    }
  }

  /** A request is about the keys of the slots it touches. */
  ghost predicate About(q: Request, env: Env, name: string) {
    exists k :: k in Touches(q, env) && KeyOf(k) == name
  }

  lemma ScbElsewhere(s: Store<Val>, pk: string, ts: int, blob: seq<byte>, now: nat, env: Env, name: string)
    requires Mirrored(name)
    requires KeyOf(ScbSlot(pk, false)) != name && KeyOf(ScbSlot(pk, true)) != name
    requires KeyOf(ScbMetaSlot(pk, false)) != name && KeyOf(ScbMetaSlot(pk, true)) != name
    ensures CellOf(HandleScb(s, pk, ts, blob, now, env).0, name, now) == CellOf(s, name, now)
  {
    var cur, meta := At(s, ScbSlot(pk, false), now), At(s, ScbMetaSlot(pk, false), now);
    hide PutAt, At, KeyOf, CellOf;
    var s1 := if cur.Some? then PutAt(s, ScbSlot(pk, true), cur.value, Never, now) else s;
    if cur.Some? { PutToCell(s, ScbSlot(pk, true), cur.value, Never, now, name); }
    var s2 := if meta.Some? then PutAt(s1, ScbMetaSlot(pk, true), meta.value, Never, now) else s1;
    if meta.Some? { PutToCell(s1, ScbMetaSlot(pk, true), meta.value, Never, now, name); }
    var s3 := PutAt(s2, ScbSlot(pk, false), Blob(blob), Never, now);
    PutToCell(s2, ScbSlot(pk, false), Blob(blob), Never, now, name);
    PutToCell(s3, ScbMetaSlot(pk, false), ScbMeta(env.sha(blob), |blob|, ts, now), Never, now, name);
  }

  lemma NodeElsewhere(s: Store<Val>, q: Request, now: nat, env: Env, name: string)
    requires Mirrored(name) && !About(q, env, name) && (q.RegisterReq? || q.UnregisterReq?)
    ensures CellOf(Handle(s, q, now, env).0, name, now) == CellOf(s, name, now)
  {
    hide PutAt, DropAt, FirstSeen, Normalise.Coerce, Domains.TextOf, CellOf, KeyOf;
    if q.RegisterReq? {
      var rec := Normalise.Coerce(q.body, env.num);
      if rec.Some? {
        var k := LspSlot(rec.value.pubkey);
        assert k in Touches(q, env);
        PutToCell(s, k, Lsp(rec.value, now, FirstSeen(s, rec.value.pubkey, now)), Never, now, name);
      }
    } else {
      var k, gone := LspSlot(q.pubkey), GoneSlot(q.pubkey);
      assert k in Touches(q, env) && gone in Touches(q, env);
      DropToCell(s, k, now, name);
      PutToCell(DropAt(s, k, now), gone, Plain(Dec(q.ts)), Ttl(1200), now, name);
    }
  }

  lemma WalletElsewhere(s: Store<Val>, q: Request, now: nat, env: Env, name: string)
    requires Mirrored(name) && !About(q, env, name)
    requires q.ChallengeReq? || q.PushReq? || q.ReadReq? || q.ForgetReq?
    ensures CellOf(Handle(s, q, now, env).0, name, now) == CellOf(s, name, now)
  {
    hide PutAt, DropAt, At, SameCopy, StaleCopy, CopyOf, PushProof, ReadProof, Proved, CellOf, KeyOf;
    var open, own := ChallengeSlot(q.pubkey, q.nonce), CopySlot(q.pubkey);
    assert open in Touches(q, env);
    DropToCell(s, open, now, name);
    if q.ChallengeReq? {
      PutToCell(s, open, Plain(q.nonce), Ttl(120), now, name);
    } else if q.PushReq? {
      assert own in Touches(q, env);
      PutToCell(s, own, CopyOf(q.copy, env), Never, now, name);
      DropToCell(PutAt(s, own, CopyOf(q.copy, env), Never, now), open, now, name);
    } else if q.ForgetReq? {
      assert own in Touches(q, env);
      DropToCell(DropAt(s, open, now), own, now, name);
    }
  }

  /** A request leaves the cell of every key it is not about, whatever the clocks. */
  lemma CellsElsewhere(s: Store<Val>, q: Request, now: nat, env: Env, name: string)
    requires Mirrored(name) && !About(q, env, name)
    ensures CellOf(Handle(s, q, now, env).0, name, now) == CellOf(s, name, now)
  {
    if q.RegisterReq? || q.UnregisterReq? {
      NodeElsewhere(s, q, now, env, name);
    } else if q.ScbReq? {
      hide HandleScb, CellOf, KeyOf, Domains.TextOf;
      var pk := q.pubkey;
      assert ScbSlot(pk, false) in Touches(q, env) && ScbSlot(pk, true) in Touches(q, env);
      assert ScbMetaSlot(pk, false) in Touches(q, env) && ScbMetaSlot(pk, true) in Touches(q, env);
      ScbElsewhere(s, pk, q.ts, q.blob, now, env, name);
    } else {
      WalletElsewhere(s, q, now, env, name);
    }
  }

  /** From one cell to the next, at a time no older than either: no rollback, no shadow. */
  ghost predicate Advances(x: Cell, x': Cell, now: nat) {
    NoShadow(x) && Eff(x) <= now ==> NoShadow(x') && Eff(x) <= Eff(x') <= now
  }

  lemma ScbPutCell(s: Store<Val>, k: Slot, v: Val, now: nat, name: string)
    requires Mirrored(name) && (k.ScbSlot? || k.ScbMetaSlot?)
    ensures Advances(CellOf(s, name, now), CellOf(PutAt(s, k, v, Never, now), name, now), now)
    ensures Guarded(name) ==> CellOf(PutAt(s, k, v, Never, now), name, now) == CellOf(s, name, now)
  {
    hide PutAt, CellOf;
    KeyFacts(k);
    PutToCell(s, k, v, Never, now, name);
  }

  lemma ScbCell(s: Store<Val>, pk: string, ts: int, blob: seq<byte>, now: nat, env: Env, name: string)
    requires Mirrored(name)
    ensures Advances(CellOf(s, name, now), CellOf(HandleScb(s, pk, ts, blob, now, env).0, name, now), now)
    ensures Guarded(name) ==> CellOf(HandleScb(s, pk, ts, blob, now, env).0, name, now) == CellOf(s, name, now)
  {
    var cur, meta := At(s, ScbSlot(pk, false), now), At(s, ScbMetaSlot(pk, false), now);
    hide PutAt, At, KeyOf, CellOf, Guarded;
    var s1 := if cur.Some? then PutAt(s, ScbSlot(pk, true), cur.value, Never, now) else s;
    if cur.Some? { ScbPutCell(s, ScbSlot(pk, true), cur.value, now, name); }
    var s2 := if meta.Some? then PutAt(s1, ScbMetaSlot(pk, true), meta.value, Never, now) else s1;
    if meta.Some? { ScbPutCell(s1, ScbMetaSlot(pk, true), meta.value, now, name); }
    var s3 := PutAt(s2, ScbSlot(pk, false), Blob(blob), Never, now);
    ScbPutCell(s2, ScbSlot(pk, false), Blob(blob), now, name);
    ScbPutCell(s3, ScbMetaSlot(pk, false), ScbMeta(env.sha(blob), |blob|, ts, now), now, name);
  }

  lemma NodeCell(s: Store<Val>, q: Request, now: nat, env: Env, name: string)
    requires Mirrored(name) && (q.RegisterReq? || q.UnregisterReq?)
    ensures Advances(CellOf(s, name, now), CellOf(Handle(s, q, now, env).0, name, now), now)
    ensures KeepsGuard(CellOf(s, name, now), CellOf(Handle(s, q, now, env).0, name, now), name)
  {
    hide PutAt, DropAt, FirstSeen, Normalise.Coerce, Domains.TextOf, HandleScb, HandlePush;
    if Handle(s, q, now, env).1 == Done {
      if q.RegisterReq? {
        var rec := Normalise.Coerce(q.body, env.num).value;
        KeyFacts(LspSlot(rec.pubkey));
        PutToCell(s, LspSlot(rec.pubkey), Lsp(rec, now, FirstSeen(s, rec.pubkey, now)), Never, now, name);
      } else {
        var s1 := DropAt(s, LspSlot(q.pubkey), now);
        KeyFacts(GoneSlot(q.pubkey));
        DropToCell(s, LspSlot(q.pubkey), now, name);
        PutToCell(s1, GoneSlot(q.pubkey), Plain(Dec(q.ts)), Ttl(1200), now, name);
      }
    }
  }

  lemma AtIsHeld(s: Store<Val>, k: Slot, now: nat)
    ensures At(s, k, now) == Held(CellOf(s, KeyOf(k), now))
  {
  }

  /** A push leaves a key's cell as it was, or puts there a copy of no lower number. */
  lemma PushedCell(s: Store<Val>, q: Request, now: nat, env: Env, name: string)
    requires Mirrored(name) && q.PushReq?
    ensures
      var x, x' := CellOf(s, name, now), CellOf(HandlePush(s, q, now, env).0, name, now);
      x' == x || (
        && x' == x.(v := Some(Entry(CopyOf(q.copy, env), now, None)))
        && KeyOf(CopySlot(q.pubkey)) == name && SafeInteger(q.copy.version)
        && (Held(x).Some? ==> !StaleCopy(Held(x).value, q)))
  {
    var open, own, v := ChallengeSlot(q.pubkey, q.nonce), CopySlot(q.pubkey), CopyOf(q.copy, env);
    hide PutAt, DropAt, PushProof, Proved, SameCopy, At, CellOf, KeyOf, Domains.Preimage;
    KeyFacts(open);
    AtIsHeld(s, own, now);
    DropToCell(s, open, now, name);
    PutToCell(s, own, v, Never, now, name);
    DropToCell(PutAt(s, own, v, Never, now), open, now, name);
  }

  /** A copy of no lower number is one the guard lets in. */
  lemma CopyAllowed(name: string, x: Cell, q: Request, env: Env)
    requires q.PushReq? && KeyOf(CopySlot(q.pubkey)) == name && SafeInteger(q.copy.version)
    requires Held(x).Some? ==> !StaleCopy(Held(x).value, q)
    ensures NumberOf(name, CopyOf(q.copy, env)).Some? && RecordAllows(name, CopyOf(q.copy, env), Held(x))
  {
    KeyFacts(CopySlot(q.pubkey));
  }

  lemma PushAdvances(s: Store<Val>, q: Request, now: nat, env: Env, name: string)
    requires Mirrored(name) && q.PushReq?
    ensures Advances(CellOf(s, name, now), CellOf(HandlePush(s, q, now, env).0, name, now), now)
  {
    hide HandlePush, CellOf, KeyOf, CopyOf, StaleCopy;
    PushedCell(s, q, now, env, name);
  }

  lemma PushKeepsGuard(s: Store<Val>, q: Request, now: nat, env: Env, name: string)
    requires Mirrored(name) && q.PushReq?
    ensures KeepsGuard(CellOf(s, name, now), CellOf(HandlePush(s, q, now, env).0, name, now), name)
  {
    hide HandlePush, CellOf, KeyOf, StaleCopy, CopyOf, NumberOf, RecordAllows;
    PushedCell(s, q, now, env, name);
    var x, x' := CellOf(s, name, now), CellOf(HandlePush(s, q, now, env).0, name, now);
    if x' != x { CopyAllowed(name, x, q, env); }
  }

  lemma WalletCell(s: Store<Val>, q: Request, now: nat, env: Env, name: string)
    requires Mirrored(name) && (q.ChallengeReq? || q.PushReq? || q.ReadReq? || q.ForgetReq?)
    ensures Advances(CellOf(s, name, now), CellOf(Handle(s, q, now, env).0, name, now), now)
    ensures KeepsGuard(CellOf(s, name, now), CellOf(Handle(s, q, now, env).0, name, now), name)
  {
    hide PutAt, DropAt, ReadProof, HandlePush, Domains.Preimage;
    var open, own := ChallengeSlot(q.pubkey, q.nonce), CopySlot(q.pubkey);
    if q.PushReq? {
      PushAdvances(s, q, now, env, name);
      PushKeepsGuard(s, q, now, env, name);
    } else if Handle(s, q, now, env).1 == Done {
      KeyFacts(open);
      KeyFacts(own);
      DropToCell(s, open, now, name);
      if q.ChallengeReq? { PutToCell(s, open, Plain(q.nonce), Ttl(120), now, name); }
      if q.ForgetReq? { DropToCell(DropAt(s, open, now), own, now, name); }
    }
  }

  /** What a write leaves under a guarded key is a record with its number, which the record guard would
      have let in. */
  ghost predicate KeepsGuard(x: Cell, x': Cell, name: string) {
    Guarded(name) && x'.v.Some? && x' != x ==>
      NumberOf(name, x'.v.value.value).Some? && RecordAllows(name, x'.v.value.value, Held(x))
  }

  /** A request moves no key's effective clock back and leaves no value in a tombstone's shadow, as long
      as its own time is no older; and the handlers keep the rule the mirror keeps for guarded records. */
  lemma RequestsOnlyRaise(s: Store<Val>, q: Request, now: nat, env: Env, name: string)
    requires Mirrored(name)
    ensures Advances(CellOf(s, name, now), CellOf(Handle(s, q, now, env).0, name, now), now)
    ensures KeepsGuard(CellOf(s, name, now), CellOf(Handle(s, q, now, env).0, name, now), name)
  {
    if q.RegisterReq? || q.UnregisterReq? {
      NodeCell(s, q, now, env, name);
    } else if q.ScbReq? {
      hide HandleScb, CellOf, Domains.TextOf;
      if ScbSigned(q, now, env) {
        ScbCell(s, q.pubkey, q.ts, q.blob, now, env, name);
      }
    } else {
      WalletCell(s, q, now, env, name);
    }
  }

  /******* The handlers *******/

  /** A door's request handlers, each working on the door's store as it goes. */
  class Registrar {
    const door: Door

    constructor (door: Door)
      ensures this.door == door
    {
      this.door := door;
    }

    /** POST /lsps/register */
    method Register(body: Json, now: nat, env: Env) returns (reply: Reply)
      modifies door
      ensures (door.kv, reply) == HandleRegister(old(door.kv), body, now, env)
    {
      hide Normalise.Coerce, Domains.TextOf, KeyOf;
      var coerced := Normalise.Coerce(body, env.num);
      if coerced.None? { return Denied; }
      var rec := coerced.value;
      if !Timely(rec.ts, now) { return Denied; }
      var first := now;
      var prev := At(door.kv, LspSlot(rec.pubkey), now);
      if prev.Some? && prev.value.Lsp? {
        if prev.value.firstRegisteredAt > 0 {
          first := prev.value.firstRegisteredAt;
        } else if prev.value.registeredAt > 0 {
          first := prev.value.registeredAt;
        }
      }
      var prevTs := StoredTs(door.kv, LspSlot(rec.pubkey), now);
      if prevTs.Some? && rec.ts < prevTs.value { return Denied; }
      var gone := GoneTs(door.kv, rec.pubkey, now, env);
      if gone.Some? && rec.ts <= gone.value { return Denied; }
      if !NodeSigned(rec.pubkey, Domains.Register(rec), String(Get(body, Signature)), env) { return Denied; }
      door.Put(KeyOf(LspSlot(rec.pubkey)), Lsp(rec, now, first), Never, now, now);
      return Done;
    }

    /** POST /lsps/unregister */
    method Unregister(pk: string, ts: int, sig: string, now: nat, env: Env) returns (reply: Reply)
      modifies door
      ensures (door.kv, reply) == HandleUnregister(old(door.kv), pk, ts, sig, now, env)
    {
      hide Domains.TextOf, KeyOf, ClockedPut, ClockedDelete;
      if pk == "" || sig == "" { return Denied; }
      if !Timely(ts, now) { return Denied; }
      var existing := At(door.kv, LspSlot(pk), now);
      if existing.None? { return Unchanged; }
      var stored := TsOf(existing.value);
      if stored.Some? && ts <= stored.value { return Denied; }
      if !NodeSigned(pk, Domains.Unregister(pk, ts), sig, env) { return Denied; }
      door.Delete(KeyOf(LspSlot(pk)), now, now);
      door.Put(KeyOf(GoneSlot(pk)), Plain(Dec(ts)), Ttl(1200), now, now);
      return Done;
    }

    /** PUT /lsp-backup: the current generation moves to `:prev`, and the new one takes its place. */
    method PutScb(pk: string, ts: int, sig: string, blob: seq<byte>, now: nat, env: Env) returns (reply: Reply)
      modifies door
      ensures (door.kv, reply) == Handle(old(door.kv), ScbReq(pk, ts, sig, blob), now, env)
    {
      hide Domains.TextOf, KeyOf, ClockedPut;
      if !Timely(ts, now) { return Denied; }
      if |blob| == 0 || |blob| > CAP { return Denied; }
      var hash := env.sha(blob);
      if !NodeSigned(pk, Domains.ScbPush(pk, ts, hash), sig, env) { return Denied; }
      var cur := At(door.kv, ScbSlot(pk, false), now);
      var meta := At(door.kv, ScbMetaSlot(pk, false), now);
      if meta.Some? {
        if meta.value.ScbMeta? && meta.value.sha256 == hash { return Unchanged; }
        var stored := TsOf(meta.value);
        if stored.Some? && ts <= stored.value { return Denied; }
      }
      if cur.Some? { door.Put(KeyOf(ScbSlot(pk, true)), cur.value, Never, now, now); }
      if meta.Some? { door.Put(KeyOf(ScbMetaSlot(pk, true)), meta.value, Never, now, now); }
      door.Put(KeyOf(ScbSlot(pk, false)), Blob(blob), Never, now, now);
      door.Put(KeyOf(ScbMetaSlot(pk, false)), ScbMeta(hash, |blob|, ts, now), Never, now, now);
      return Done;
    }

    /** GET /backup/challenge */
    method Challenge(pk: string, nonce: string, now: nat) returns (reply: Reply)
      modifies door
      ensures (door.kv, reply) == HandleChallenge(old(door.kv), pk, nonce, now)
    {
      if !IsKey(pk) || !IsNonce(nonce) { return Denied; }
      door.Put(KeyOf(ChallengeSlot(pk, nonce)), Plain(nonce), Ttl(120), now, now);
      return Done;
    }

    /** POST /backup */
    method PushCopy(q: Request, now: nat, env: Env) returns (reply: Reply)
      requires q.PushReq?
      modifies door
      ensures (door.kv, reply) == HandlePush(old(door.kv), q, now, env)
    {
      hide KeyOf, ClockedPut, ClockedDelete, HexBytes, Domains.Preimage;
      var copy := q.copy;
      if !SafeInteger(copy.version) || copy.version < 0 { return Denied; }
      var fingerprint := Fingerprint(copy, env);
      if q.authV != 1 && q.authV != 2 { return Denied; }
      if q.authV == 2 && fingerprint.None? { return Denied; }
      if !Proved(door.kv, q.pubkey, q.nonce, q.sig, PushProof(q, env), now, env) { return Denied; }
      if copy.pubkey != q.pubkey { return Denied; }
      var existing := At(door.kv, CopySlot(q.pubkey), now);
      if existing.Some? && existing.value.Copy? {
        var prev := existing.value;
        if prev.version == copy.version && fingerprint.Some? && prev.fingerprint == fingerprint {
          door.Delete(KeyOf(ChallengeSlot(q.pubkey, q.nonce)), now, now);
          return Done;
        }
        if prev.version >= copy.version { return Denied; }
      }
      var stored := if fingerprint.Some? then fingerprint else copy.brought;
      door.Put(KeyOf(CopySlot(q.pubkey)), Copy(copy.version, stored, copy.sealed, copy.rest), Never, now, now);
      door.Delete(KeyOf(ChallengeSlot(q.pubkey, q.nonce)), now, now);
      return Done;
    }

    /** POST /backup/fetch and /backup/meta: the copy, read after the challenge is spent. */
    method ReadCopy(q: Request, now: nat, env: Env) returns (reply: Reply, copy: Option<Val>)
      requires q.ReadReq?
      modifies door
      ensures (door.kv, reply) == HandleRead(old(door.kv), q, now, env)
      ensures copy == if reply == Done then At(door.kv, CopySlot(q.pubkey), now) else None
    {
      if !Proved(door.kv, q.pubkey, q.nonce, q.sig, ReadProof("backup-read", q), now, env) { return Denied, None; }
      door.Delete(KeyOf(ChallengeSlot(q.pubkey, q.nonce)), now, now);
      return Done, At(door.kv, CopySlot(q.pubkey), now);
    }

    /** POST /backup/forget */
    method ForgetCopy(q: Request, now: nat, env: Env) returns (reply: Reply)
      requires q.ForgetReq?
      modifies door
      ensures (door.kv, reply) == HandleForget(old(door.kv), q, now, env)
    {
      if !Proved(door.kv, q.pubkey, q.nonce, q.sig, ReadProof("backup-forget", q), now, env) { return Denied; }
      door.Delete(KeyOf(ChallengeSlot(q.pubkey, q.nonce)), now, now);
      door.Delete(KeyOf(CopySlot(q.pubkey)), now, now);
      return Done;
    }
  }
}

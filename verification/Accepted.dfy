/**
 What the registry's answers mean: for each request exactly when it is accepted, over what text or bytes
 it was then signed, and what the store holds afterwards (lij-worker/src/index.js).
 */
module Accepted {
  import opened Text
  import opened Kv
  import opened Records
  import opened Json
  import opened MirrorRules
  import opened Registry
  import Domains
  import Normalise
  import RegisterMsg

  /******* Keys, hex and forms *******/

  /** The keys as they are stored. */
  lemma KeysSpelled(pk: string, nonce: string)
    ensures KeyOf(LspSlot(pk)) == "lsp:" + pk && KeyOf(GoneSlot(pk)) == "lspgone:" + pk
    ensures KeyOf(CopySlot(pk)) == "backup:" + pk
    ensures KeyOf(ChallengeSlot(pk, nonce)) == "bkpchal:" + (pk + ":" + nonce)
  {
  }

  lemma ScbKeysSpelled(pk: string)
    ensures KeyOf(ScbSlot(pk, false)) == "lspscb:" + pk && KeyOf(ScbSlot(pk, true)) == "lspscb:" + (pk + ":prev")
    ensures KeyOf(ScbMetaSlot(pk, false)) == "lspscbmeta:" + pk
    ensures KeyOf(ScbMetaSlot(pk, true)) == "lspscbmeta:" + (pk + ":prev")
  {
    assert pk + "" == pk;
  }

  const HEX := "0123456789abcdef"

  /** Bytes in lower-case hex. */
  function HexOf(b: seq<byte>): string {
    if b == [] then "" else [HEX[b[0] / 16], HEX[b[0] % 16]] + HexOf(b[1..])
  }

  predicate LowerHex(s: string) { forall i :: 0 <= i < |s| ==> IsDigit(s[i]) || 'a' <= s[i] <= 'f' }

  lemma HexDigit(c: char)
    requires IsDigit(c) || 'a' <= c <= 'f'
    ensures 0 <= HexVal(c) < 16 && HEX[HexVal(c)] == c
  {
  }

  /** The bytes that hex is read as print as that hex. */
  lemma {:induction false} HexRoundTrip(h: string)
    requires |h| % 2 == 0 && LowerHex(h)
    ensures HexOf(HexBytes(h)) == h && 2 * |HexBytes(h)| == |h|
    decreases |h|
  {
    if h != "" {
      PairPrints(h[0], h[1]);
      hide HexPair, HEX, IsDigit;
      HexRoundTrip(h[2..]);
      assert h == [h[0], h[1]] + h[2..];
    }
  }

  lemma PairPrints(a: char, b: char)
    requires (IsDigit(a) || 'a' <= a <= 'f') && (IsDigit(b) || 'a' <= b <= 'f')
    ensures HEX[HexPair(a, b) / 16] == a && HEX[HexPair(a, b) % 16] == b
  {
    HexDigit(a);
    HexDigit(b);
    PairNibbles(a, b);
    hide HexVal, HexPair;
  }

  lemma PairNibbles(a: char, b: char)
    requires 0 <= HexVal(a) < 16 && 0 <= HexVal(b) < 16
    ensures HexPair(a, b) / 16 == HexVal(a) && HexPair(a, b) % 16 == HexVal(b)
  {
    hide HexVal;
    Nibbles(HexVal(a), HexVal(b));
  }

  lemma Nibbles(x: int, y: int)
    requires 0 <= x < 16 && 0 <= y < 16
    ensures (16 * x + y) % 256 == 16 * x + y && (16 * x + y) / 16 == x && (16 * x + y) % 16 == y
  {
  }

  /** A key is 66 digits of hex, a challenge 64 of lower-case hex. */
  lemma FormsIff(pk: string, nonce: string)
    ensures IsKey(pk) <==> |pk| == 66 && forall c :: c in pk ==> c in HEX || 'A' <= c <= 'F'
    ensures IsNonce(nonce) <==> |nonce| == 64 && forall c :: c in nonce ==> c in HEX
  {
    assert forall c :: c in HEX <==> IsDigit(c) || 'a' <= c <= 'f';
    if IsKey(pk) {
      forall c | c in pk ensures c in HEX || 'A' <= c <= 'F' {
        var i :| 0 <= i < |pk| && pk[i] == c;
        assert IsHexChar(pk[i]);
      }
    } else if |pk| == 66 {
      var i :| 0 <= i < |pk| && !IsHexChar(pk[i]);
      assert pk[i] in pk;
    }
    if !IsNonce(nonce) && |nonce| == 64 {
      var i :| 0 <= i < |nonce| && !(IsDigit(nonce[i]) || 'a' <= nonce[i] <= 'f');
      assert nonce[i] in nonce;
    }
  }

  /******* Registering *******/

  /** The timestamp is within 600 seconds of now, no older than the stored record's and newer than the
      departure's. */
  ghost predicate Fresh(s: Store<Val>, pk: string, ts: int, now: nat, env: Env) {
    && -600 * 1000 <= now - 1000 * ts <= 600 * 1000
    && (forall v :: At(s, LspSlot(pk), now) == Some(v) && TsOf(v).Some? ==> ts >= TsOf(v).value)
    && (forall text: string ::
          At(s, GoneSlot(pk), now) == Some(Plain(text)) && env.num(text).Int? ==> ts > env.num(text).i)
  }

  /** A registration is accepted exactly when its body has the shape, it is fresh, and the node named
      signed the message of the coerced record. */
  lemma RegisteredIff(s: Store<Val>, body: Json, now: nat, env: Env)
    ensures
      var (s', reply) := Handle(s, RegisterReq(body), now, env);
      var rec, sig := Normalise.Coerce(body, env.num), String(Get(body, Signature));
      && reply != Unchanged && (reply != Done ==> s' == s)
      && (reply == Done <==>
           && rec.Some? && Fresh(s, rec.value.pubkey, rec.value.ts, now, env) && IsKey(rec.value.pubkey) && sig != ""
           && env.signed(rec.value.pubkey,
                RegisterMsg.CanonicalRegisterMsg(RegisterMsg.RecordJson(rec.value), env.num), sig))
  {
    hide Normalise.Coerce, RegisterMsg.CanonicalRegisterMsg, RegisterMsg.RecordJson, At, PutAt;
  }

  /** What an accepted registration stores is the coerced record, the one the signature is over, with the
      time it was first seen, and it never expires. */
  lemma RegisteredStores(s: Store<Val>, body: Json, now: nat, env: Env)
    requires Handle(s, RegisterReq(body), now, env).1 == Done
    ensures
      var s' := Handle(s, RegisterReq(body), now, env).0;
      Normalise.Coerce(body, env.num).Some? &&
      var rec := Normalise.Coerce(body, env.num).value;
      var was, held := At(s, LspSlot(rec.pubkey), now), Raw(s', LspSlot(rec.pubkey));
      && held.Some? && held.value.value.Lsp? && held.value.c == now && held.value.exp.None?
      && held.value.value.rec == rec && held.value.value.registeredAt == now
      && env.signed(rec.pubkey,
           RegisterMsg.CanonicalRegisterMsg(RegisterMsg.RecordJson(held.value.value.rec), env.num),
           String(Get(body, Signature)))
      && (was.None? ==> held.value.value.firstRegisteredAt == now)
      && (was.Some? && was.value.Lsp? && was.value.firstRegisteredAt > 0 ==>
           held.value.value.firstRegisteredAt == was.value.firstRegisteredAt)
      && (was.Some? && was.value.Lsp? && was.value.firstRegisteredAt == 0 && was.value.registeredAt > 0 ==>
           held.value.value.firstRegisteredAt == was.value.registeredAt)
  {
    RegisteredIff(s, body, now, env);
    hide Normalise.Coerce, RegisterMsg.CanonicalRegisterMsg, RegisterMsg.RecordJson, PutAt, RegisterOk, Fresh;
    var rec := Normalise.Coerce(body, env.num).value;
    var k := LspSlot(rec.pubkey);
    KeyFacts(k);
    PutThenRaw(s, k, Lsp(rec, now, FirstSeen(s, rec.pubkey, now)), Never, now, k);
    hide Raw, KeyOf;
  }

  /** A departure is accepted exactly when there is a record, it is within 600 seconds and newer than that,
      and the node signed its text; it leaves no record, and a marker for 1200 seconds. */
  lemma DepartedIff(s: Store<Val>, pk: string, ts: int, sig: string, now: nat, env: Env)
    ensures
      var (s', reply) := Handle(s, UnregisterReq(pk, ts, sig), now, env);
      var was, timely := At(s, LspSlot(pk), now), -600 * 1000 <= now - 1000 * ts <= 600 * 1000;
      && (reply == Unchanged <==> pk != "" && sig != "" && timely && was.None?)
      && (reply == Done <==>
           && pk != "" && sig != "" && timely && was.Some? && IsKey(pk)
           && (TsOf(was.value).Some? ==> ts > TsOf(was.value).value)
           && env.signed(pk, "lijox-unregister:v1:" + RegisterMsg.Joined([pk, Dec(ts)]), sig))
      && (reply != Done ==> s' == s)
      && (reply == Done ==>
           && Raw(s', LspSlot(pk)).None?
           && Raw(s', GoneSlot(pk)) == Some(Entry(Plain(Dec(ts)), now, Some(now / 1000 + 1200))))
  {
    hide RegisterMsg.Joined, Dec, PutAt, DropAt, At, Raw, KeyOf;
    Domains.NodeTexts(env.num, pk, ts, "");
    if Handle(s, UnregisterReq(pk, ts, sig), now, env).1 == Done {
      var gone := GoneSlot(pk);
      KeyFacts(gone);
      DropThenRaw(s, LspSlot(pk), now, LspSlot(pk));
      PutThenRaw(DropAt(s, LspSlot(pk), now), gone, Plain(Dec(ts)), Ttl(1200), now, gone);
      PutThenRaw(DropAt(s, LspSlot(pk), now), gone, Plain(Dec(ts)), Ttl(1200), now, LspSlot(pk));
    }
  }

  /** A channel backup is looked at exactly when it is within 600 seconds, of 1 byte to 5 MB, and signed
      by the node over the hash of its bytes. */
  lemma ScbSignedIff(q: Request, now: nat, env: Env)
    requires q.ScbReq?
    ensures
      ScbSigned(q, now, env) <==>
      && -600 * 1000 <= now - 1000 * q.ts <= 600 * 1000 && 0 < |q.blob| <= 5 * 1024 * 1024
      && IsKey(q.pubkey) && q.sig != ""
      && env.signed(q.pubkey, "lijox-scbpush:v1:" + (q.pubkey + ":" + Dec(q.ts) + ":" + env.sha(q.blob)), q.sig)
  {
    hide RegisterMsg.Joined, Dec;
    Domains.NodeTexts(env.num, q.pubkey, q.ts, env.sha(q.blob));
    hide Domains.TextOf;
  }

  /** A signed channel backup is answered as the same again exactly when it has the stored one's hash, and
      refused exactly when it does not and is no newer. */
  lemma ScbAnswers(s: Store<Val>, q: Request, now: nat, env: Env)
    requires q.ScbReq?
    ensures
      var (s', reply) := Handle(s, q, now, env);
      var meta := At(s, ScbMetaSlot(q.pubkey, false), now);
      var same := meta.Some? && meta.value.ScbMeta? && meta.value.sha256 == env.sha(q.blob);
      && (reply == Unchanged <==> ScbSigned(q, now, env) && same)
      && (reply == Done <==>
           ScbSigned(q, now, env) && !same &&
           (meta.Some? && TsOf(meta.value).Some? ==> q.ts > TsOf(meta.value).value))
      && (reply != Done ==> s' == s)
  {
    hide At, PutAt, ScbSigned;
  }

  /******* Challenges and copies *******/

  /** A challenge is issued for any key; it is open at once and for 120 seconds, to within the second. */
  lemma ChallengeOpens(s: Store<Val>, pk: string, nonce: string, now: nat, t: nat, env: Env)
    ensures
      var (s', reply) := Handle(s, ChallengeReq(pk, nonce), now, env);
      && (reply == Done <==> IsKey(pk) && IsNonce(nonce))
      && (reply != Done ==> s' == s)
      && (reply == Done ==>
           && (t + 1000 <= now + 120 * 1000 ==> At(s', ChallengeSlot(pk, nonce), t) == Some(Plain(nonce)))
           && (t >= now + 120 * 1000 ==> At(s', ChallengeSlot(pk, nonce), t) == None))
  {
    hide IsKey, IsNonce, KeyOf;
    PutLasts(Plain(nonce), 0, Ttl(120), now, t);
    KeyFacts(ChallengeSlot(pk, nonce));
  }

  /** The challenge is open and the key proved itself over these bytes. */
  ghost predicate Answers(s: Store<Val>, pk: string, nonce: string, sig: string, bytes: seq<byte>, now: nat, env: Env) {
    && IsKey(pk) && IsNonce(nonce) && sig != ""
    && At(s, ChallengeSlot(pk, nonce), now) == Some(Plain(nonce))
    && env.proved(pk, bytes, sig)
  }

  /** The bytes that a v1 proof of an action is over. */
  function V1Bytes(action: string, nonce: string, pk: string): seq<byte> {
    Utf8("lij-backup-v1") + Utf8(action) + HexBytes(nonce) + HexBytes(pk)
  }

  lemma ReadIff(s: Store<Val>, q: Request, now: nat, env: Env)
    requires q.ReadReq?
    ensures
      var (s', reply) := Handle(s, q, now, env);
      && (reply == Done <==>
           Answers(s, q.pubkey, q.nonce, q.sig, V1Bytes("backup-read", q.nonce, q.pubkey), now, env))
      && (reply != Done ==> reply == Denied && s' == s)
      && (reply == Done ==> Raw(s', ChallengeSlot(q.pubkey, q.nonce)).None?)
  {
    hide IsKey, IsNonce, KeyOf, HexBytes, Utf8, At, DropAt, Raw;
    if IsKey(q.pubkey) { SpentIsGone(s, q.pubkey, q.nonce, now); }
  }

  lemma SpentIsGone(s: Store<Val>, pk: string, nonce: string, now: nat)
    requires IsKey(pk)
    ensures Raw(DropAt(s, ChallengeSlot(pk, nonce), now), ChallengeSlot(pk, nonce)).None?
  {
    DropThenRaw(s, ChallengeSlot(pk, nonce), now, ChallengeSlot(pk, nonce));
  }

  lemma ForgottenIff(s: Store<Val>, q: Request, now: nat, env: Env)
    requires q.ForgetReq?
    ensures
      var (s', reply) := Handle(s, q, now, env);
      && (reply == Done <==>
           Answers(s, q.pubkey, q.nonce, q.sig, V1Bytes("backup-forget", q.nonce, q.pubkey), now, env))
      && (reply != Done ==> reply == Denied && s' == s)
      && (reply == Done ==>
           Raw(s', ChallengeSlot(q.pubkey, q.nonce)).None? && Raw(s', CopySlot(q.pubkey)).None?)
  {
    hide IsKey, IsNonce, KeyOf, HexBytes, Utf8, At, DropAt, Raw;
    if IsKey(q.pubkey) {
      var open, own := ChallengeSlot(q.pubkey, q.nonce), CopySlot(q.pubkey);
      SpentIsGone(s, q.pubkey, q.nonce, now);
      DropThenRaw(DropAt(s, open, now), own, now, open);
      DropThenRaw(DropAt(s, open, now), own, now, own);
    }
  }

  /** The bytes a push's proof is over: of a v2 push, the copy's fingerprint and number with them. */
  ghost predicate PushBytes(q: Request, env: Env, bytes: seq<byte>)
    requires q.PushReq?
  {
    if q.authV == 2 then
      exists tail: seq<byte> :: |tail| == 8 && Domains.Value(tail) == q.copy.version &&
        bytes == Utf8("lij-backup-v2") + Utf8("backup-push") + HexBytes(q.nonce) + HexBytes(q.pubkey)
                 + HexBytes(env.sha(q.copy.sealed)) + tail
    else bytes == V1Bytes("backup-push", q.nonce, q.pubkey)
  }

  /** A resend: the stored copy has the number and the fingerprint of the one pushed. */
  ghost predicate Resent(was: Option<Val>, q: Request, env: Env)
    requires q.PushReq?
  {
    && was.Some? && was.value.Copy? && was.value.version == q.copy.version
    && q.copy.sealed != [] && was.value.fingerprint == Some(env.sha(q.copy.sealed))
  }

  lemma ProofBytes(q: Request, env: Env)
    requires q.PushReq? && SafeInteger(q.copy.version) && q.copy.version >= 0
    requires q.authV == 1 || (q.authV == 2 && q.copy.sealed != [])
    ensures PushBytes(q, env, Domains.Preimage(PushProof(q, env)))
  {
    hide HexBytes, Utf8, Domains.BigEndian, Domains.Value;
    Domains.PreimageSpelled(PushProof(q, env));
  }

  /** A push is accepted exactly when its number is a whole safe number, it is of a known kind, the
      challenge is open and proved over the right bytes, the copy names the wallet, and it is a resend or
      newer than the copy stored. */
  lemma PushedIff(s: Store<Val>, q: Request, now: nat, env: Env)
    requires q.PushReq?
    ensures
      var (s', reply) := Handle(s, q, now, env);
      var was, bytes := At(s, CopySlot(q.pubkey), now), Domains.Preimage(PushProof(q, env));
      && (reply == Done <==>
           && 0 <= q.copy.version <= 9007199254740991 && (q.authV == 1 || (q.authV == 2 && q.copy.sealed != []))
           && Answers(s, q.pubkey, q.nonce, q.sig, bytes, now, env) && q.copy.pubkey == q.pubkey
           && (Resent(was, q, env) || (was.Some? && was.value.Copy? ==> was.value.version < q.copy.version)))
      && (reply == Done ==> PushBytes(q, env, bytes))
      && (reply != Done ==> reply == Denied && s' == s)
  {
    hide IsKey, IsNonce, KeyOf, HexBytes, At, DropAt, PutAt, CopyOf, PushProof, PushBytes, Domains.Preimage;
    if Handle(s, q, now, env).1 == Done { ProofBytes(q, env); }
  }

  /** What is held after an accepted push is the copy that was pushed, its bytes and everything else of
      it, with the fingerprint of its bytes, or the one it brought when it has none; after a resend, the
      copy that was there. The challenge is spent. */
  lemma PushedStores(s: Store<Val>, q: Request, now: nat, env: Env)
    requires q.PushReq? && Handle(s, q, now, env).1 == Done
    ensures
      var s' := Handle(s, q, now, env).0;
      var was, held := At(s, CopySlot(q.pubkey), now), Raw(s', CopySlot(q.pubkey));
      && Raw(s', ChallengeSlot(q.pubkey, q.nonce)).None?
      && (Resent(was, q, env) ==> held == Raw(s, CopySlot(q.pubkey)))
      && (!Resent(was, q, env) ==>
           && held.Some? && held.value.c == now && held.value.exp.None? && held.value.value.Copy?
           && held.value.value.version == q.copy.version && held.value.value.sealed == q.copy.sealed
           && held.value.value.rest == q.copy.rest
           && held.value.value.fingerprint ==
              (if q.copy.sealed != [] then Some(env.sha(q.copy.sealed)) else q.copy.brought))
  {
    var open, own, v := ChallengeSlot(q.pubkey, q.nonce), CopySlot(q.pubkey), CopyOf(q.copy, env);
    PushResult(s, q, now, env);
    CopySpelled(q.copy, env);
    KeyFacts(own);
    hide HandlePush, Resent, CopyOf, At, DropAt, PutAt, Raw, KeyOf, IsKey;
    SpentIsGone(s, q.pubkey, q.nonce, now);
    SpentIsGone(PutAt(s, own, v, Never, now), q.pubkey, q.nonce, now);
    DropThenRaw(s, open, now, own);
    PutThenRaw(s, own, v, Never, now, own);
    DropThenRaw(PutAt(s, own, v, Never, now), open, now, own);
  }

  lemma PushResult(s: Store<Val>, q: Request, now: nat, env: Env)
    requires q.PushReq? && HandlePush(s, q, now, env).1 == Done
    ensures
      var open, own := ChallengeSlot(q.pubkey, q.nonce), CopySlot(q.pubkey);
      && IsKey(q.pubkey)
      && HandlePush(s, q, now, env).0 ==
         DropAt(if Resent(At(s, own, now), q, env) then s else PutAt(s, own, CopyOf(q.copy, env), Never, now),
                open, now)
  {
    hide IsKey, IsNonce, CopyOf, At, DropAt, PutAt, PushProof, Domains.Preimage;
  }

  lemma CopySpelled(c: CopyIn, env: Env)
    ensures
      CopyOf(c, env) ==
      Copy(c.version, if c.sealed != [] then Some(env.sha(c.sealed)) else c.brought, c.sealed, c.rest)
  {
  }
}

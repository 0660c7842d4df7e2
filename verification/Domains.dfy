/**
 The texts and bytes that get signed: every message names its operation, and hides none of its fields
 (lij-worker/src/index.js, lij-worker/src/mirror.js).
 */
module Domains {
  import opened Text
  import opened Records
  import opened RegisterMsg

  /** What a signature can be asked for. */
  datatype Op =
    | Register(rec: Record)
    | Unregister(pubkey: string, ts: int)
    | NameOp(kind: string, name: string, pubkey: string, ts: int, extra: Option<string>)
    | ScbPush(pubkey: string, ts: int, sha256: string)
    | ScbGet(pubkey: string, ts: int)
    | MirrorCall(verb: string, path: string, ts: int, sha256: string)

  const UNREGISTER := "lijox-unregister:v1:"
  const NAME := "lijox-name:v1:"
  const SCBPUSH := "lijox-scbpush:v1:"
  const SCBGET := "lijox-scbget:v1:"
  const MIRROR := "lij-mirror:v1:"

  function NameParts(kind: string, name: string, pubkey: string, ts: int, extra: Option<string>): seq<string> {
    [kind, name, pubkey, Dec(ts)] + (if extra.Some? then [extra.value] else [])
  }

  function TextOf(op: Op, num: string -> JsNum): string {
    match op
    case Register(rec) => CanonicalRegisterMsg(RecordJson(rec), num)
    case Unregister(pubkey, ts) => UNREGISTER + Joined([pubkey, Dec(ts)])
    case NameOp(kind, name, pubkey, ts, extra) => NAME + Joined(NameParts(kind, name, pubkey, ts, extra))
    case ScbPush(pubkey, ts, sha256) => SCBPUSH + Join([pubkey, Dec(ts), sha256], ':')
    case ScbGet(pubkey, ts) => SCBGET + Join([pubkey, Dec(ts)], ':')
    case MirrorCall(verb, path, ts, sha256) => MIRROR + Join([verb, path, Dec(ts), sha256], ':')
  }

  /** The callers' own shapes: a normalised record; hex where the text is not encoded; a verb. The path
      of a mirror call may hold anything. */
  ghost predicate WellFormed(op: Op) {
    match op
    case Register(rec) => Shaped(rec)
    case ScbPush(pubkey, _, sha256) => Without(pubkey, ':') && Without(sha256, ':')
    case ScbGet(pubkey, _) => Without(pubkey, ':')
    case MirrorCall(verb, _, _, sha256) => Without(verb, ':') && Without(sha256, ':')
    case _ => true
  }

  /** What is signed: of a record, its signed fields. */
  function Meaning(op: Op): Op { if op.Register? then Register(Signed(op.rec)) else op }

  /** Three characters of a text tell the operations apart. */
  function Tag(s: string): (char, char, char)
    requires |s| > 9
  { (s[3], s[6], s[9]) }

  lemma TextTag(op: Op, num: string -> JsNum)
    ensures |TextOf(op, num)| > 9
    ensures Tag(TextOf(op, num)) ==
      match op
      case Register(_) => ('o', 'r', 'i') case Unregister(_, _) => ('o', 'u', 'e')
      case NameOp(_, _, _, _, _) => ('o', 'n', 'e')
      case ScbPush(_, _, _) => ('o', 's', 'p') case ScbGet(_, _) => ('o', 's', 'g')
      case MirrorCall(_, _, _, _) => ('-', 'r', 'r')
  {
    hide Joined, Join, Digits, CanonicalParts, RecordJson;
    match op {
      case Register(_) => assert REGISTER_PREFIX[3] == 'o' && REGISTER_PREFIX[6] == 'r' && REGISTER_PREFIX[9] == 'i';
      case Unregister(_, _) => assert UNREGISTER[3] == 'o' && UNREGISTER[6] == 'u' && UNREGISTER[9] == 'e';
      case NameOp(_, _, _, _, _) => assert NAME[3] == 'o' && NAME[6] == 'n' && NAME[9] == 'e';
      case ScbPush(_, _, _) => assert SCBPUSH[3] == 'o' && SCBPUSH[6] == 's' && SCBPUSH[9] == 'p';
      case ScbGet(_, _) => assert SCBGET[3] == 'o' && SCBGET[6] == 's' && SCBGET[9] == 'g';
      case MirrorCall(_, _, _, _) => assert MIRROR[3] == '-' && MIRROR[6] == 'r' && MIRROR[9] == 'r';
    }
  }

  lemma PrefixDrops(prefix: string, a: string, b: string)
    requires prefix + a == prefix + b
    ensures a == b
  {
    assert (prefix + a)[|prefix|..] == a && (prefix + b)[|prefix|..] == b;
  }

  lemma LastSeparator(x: string, b: string, sep: char)
    requires Without(b, sep)
    ensures
      var l := x + [sep] + b;
      l[|l| - |b| - 1] == sep && l[..|l| - |b| - 1] == x && l[|l| - |b|..] == b
      && forall i :: |l| - |b| <= i < |l| ==> l[i] != sep
  {
    var l := x + [sep] + b;
    assert forall i :: |l| - |b| <= i < |l| ==> l[i] == b[i - |x| - 1];
  }

  /** The text after the last separator, and the text before it, are determined by the whole. */
  lemma TailUnique(x: string, b: string, y: string, c: string, sep: char)
    requires Without(b, sep) && Without(c, sep) && x + [sep] + b == y + [sep] + c
    ensures x == y && b == c
  {
    LastSeparator(x, b, sep);
    LastSeparator(y, c, sep);
  }

  lemma DecWithoutColon(i: int)
    ensures Without(Dec(i), ':')
  {
    DecRead(i);
  }

  /** A mirror call's path may hold colons: the verb is read from the front, the hash and the time from
      the back. */
  lemma MirrorMsgInjective(v: string, p: string, t: int, h: string, v': string, p': string, t': int, h': string)
    requires Without(v, ':') && Without(v', ':') && Without(h, ':') && Without(h', ':')
    requires Join([v, p, Dec(t), h], ':') == Join([v', p', Dec(t'), h'], ':')
    ensures v == v' && p == p' && t == t' && h == h'
  {
    FourJoined(v, p, Dec(t), h);
    FourJoined(v', p', Dec(t'), h');
    HeadUnique(v, p + ":" + Dec(t) + ":" + h, v', p' + ":" + Dec(t') + ":" + h', ':');
    TailUnique(p + ":" + Dec(t), h, p' + ":" + Dec(t'), h', ':');
    DecWithoutColon(t);
    DecWithoutColon(t');
    TailUnique(p, Dec(t), p', Dec(t'), ':');
    DecInjective(t, t');
  }

  lemma FourJoined(a: string, b: string, c: string, d: string)
    ensures Join([a, b, c, d], ':') == a + ":" + (b + ":" + c + ":" + d)
  {
    assert [a, b, c, d][1..] == [b, c, d] && [b, c, d][1..] == [c, d] && [c, d][1..] == [d];
    assert Join([c, d], ':') == c + ":" + d;
    assert Join([b, c, d], ':') == b + ":" + c + ":" + d;
  }

  lemma NameTextInjective(a: Op, b: Op)
    requires a.NameOp? && b.NameOp?
    requires
      Joined(NameParts(a.kind, a.name, a.pubkey, a.ts, a.extra)) ==
      Joined(NameParts(b.kind, b.name, b.pubkey, b.ts, b.extra))
    ensures a == b
  {
    var p, q := NameParts(a.kind, a.name, a.pubkey, a.ts, a.extra), NameParts(b.kind, b.name, b.pubkey, b.ts, b.extra);
    JoinedInjective(p, q);
    assert p[0] == q[0] && p[1] == q[1] && p[2] == q[2] && p[3] == q[3] && |p| == |q|;
    DecInjective(a.ts, b.ts);
    if a.extra.Some? { assert p[4] == q[4]; }
  }

  lemma UnregisterTextInjective(a: Op, b: Op)
    requires a.Unregister? && b.Unregister? && Joined([a.pubkey, Dec(a.ts)]) == Joined([b.pubkey, Dec(b.ts)])
    ensures a == b
  {
    var p, q := [a.pubkey, Dec(a.ts)], [b.pubkey, Dec(b.ts)];
    JoinedInjective(p, q);
    assert p[0] == q[0] && p[1] == q[1];
    DecInjective(a.ts, b.ts);
  }

  lemma ScbPushInjective(a: Op, b: Op)
    requires a.ScbPush? && b.ScbPush? && WellFormed(a) && WellFormed(b)
    requires Join([a.pubkey, Dec(a.ts), a.sha256], ':') == Join([b.pubkey, Dec(b.ts), b.sha256], ':')
    ensures a == b
  {
    var p, q := [a.pubkey, Dec(a.ts), a.sha256], [b.pubkey, Dec(b.ts), b.sha256];
    DecWithoutColon(a.ts);
    DecWithoutColon(b.ts);
    JoinInjective(p, q, ':');
    assert p[0] == q[0] && p[1] == q[1] && p[2] == q[2];
    DecInjective(a.ts, b.ts);
  }

  lemma ScbGetInjective(a: Op, b: Op)
    requires a.ScbGet? && b.ScbGet? && WellFormed(a) && WellFormed(b)
    requires Join([a.pubkey, Dec(a.ts)], ':') == Join([b.pubkey, Dec(b.ts)], ':')
    ensures a == b
  {
    var p, q := [a.pubkey, Dec(a.ts)], [b.pubkey, Dec(b.ts)];
    DecWithoutColon(a.ts);
    DecWithoutColon(b.ts);
    JoinInjective(p, q, ':');
    assert p[0] == q[0] && p[1] == q[1];
    DecInjective(a.ts, b.ts);
  }

  /** No signature serves two purposes: a text determines its operation and every field of it. */
  lemma TextTellsOperation(a: Op, b: Op, num: string -> JsNum)
    requires WellFormed(a) && WellFormed(b) && TextOf(a, num) == TextOf(b, num)
    ensures Meaning(a) == Meaning(b)
  {
    TextTag(a, num);
    TextTag(b, num);
    hide Joined, Join, Tag, CanonicalRegisterMsg, RecordJson, NameParts, Signed;
    match a {
      case Register(r) => RegisterMsgInjective(r, b.rec, num);
      case Unregister(pk, ts) =>
        PrefixDrops(UNREGISTER, Joined([pk, Dec(ts)]), Joined([b.pubkey, Dec(b.ts)]));
        UnregisterTextInjective(a, b);
      case NameOp(kind, name, pk, ts, extra) =>
        PrefixDrops(NAME, Joined(NameParts(kind, name, pk, ts, extra)),
                    Joined(NameParts(b.kind, b.name, b.pubkey, b.ts, b.extra)));
        NameTextInjective(a, b);
      case ScbPush(pk, ts, sha) =>
        PrefixDrops(SCBPUSH, Join([pk, Dec(ts), sha], ':'), Join([b.pubkey, Dec(b.ts), b.sha256], ':'));
        ScbPushInjective(a, b);
      case ScbGet(pk, ts) =>
        PrefixDrops(SCBGET, Join([pk, Dec(ts)], ':'), Join([b.pubkey, Dec(b.ts)], ':'));
        ScbGetInjective(a, b);
      case MirrorCall(v, p, ts, sha) =>
        PrefixDrops(MIRROR, Join([v, p, Dec(ts), sha], ':'), Join([b.verb, b.path, Dec(b.ts), b.sha256], ':'));
        MirrorMsgInjective(v, p, ts, sha, b.verb, b.path, b.ts, b.sha256);
    }
  }

  /** What a node signs, spelled out. */
  lemma NodeTexts(num: string -> JsNum, pk: string, ts: int, sha: string)
    ensures TextOf(Unregister(pk, ts), num) == "lijox-unregister:v1:" + Joined([pk, Dec(ts)])
    ensures TextOf(ScbPush(pk, ts, sha), num) == "lijox-scbpush:v1:" + (pk + ":" + Dec(ts) + ":" + sha)
    ensures TextOf(ScbGet(pk, ts), num) == "lijox-scbget:v1:" + (pk + ":" + Dec(ts))
  {
    hide Joined, Join, Dec;
    JoinSnoc([pk, Dec(ts)], sha, ':');
    JoinSnoc([pk], Dec(ts), ':');
    OnePart(pk);
    assert [pk, Dec(ts)] + [sha] == [pk, Dec(ts), sha] && [pk] + [Dec(ts)] == [pk, Dec(ts)];
  }

  lemma OnePart(a: string)
    ensures Join([a], ':') == a
  {
  }

  lemma NameTexts(num: string -> JsNum, kind: string, name: string, pk: string, ts: int, to: string)
    ensures TextOf(NameOp(kind, name, pk, ts, None), num) == "lijox-name:v1:" + Joined([kind, name, pk, Dec(ts)])
    ensures
      TextOf(NameOp(kind, name, pk, ts, Some(to)), num) == "lijox-name:v1:" + Joined([kind, name, pk, Dec(ts), to])
  {
    hide Joined, Join, Dec;
    assert [kind, name, pk, Dec(ts)] + [] == [kind, name, pk, Dec(ts)];
    assert [kind, name, pk, Dec(ts)] + [to] == [kind, name, pk, Dec(ts), to];
  }

  lemma MirrorText(num: string -> JsNum, verb: string, path: string, ts: int, sha: string)
    ensures
      TextOf(MirrorCall(verb, path, ts, sha), num) ==
      "lij-mirror:v1:" + (verb + ":" + path + ":" + Dec(ts) + ":" + sha)
  {
    hide Join, Dec;
    FourOf(verb, path, Dec(ts), sha, ':');
  }

  /******* The backup's proofs *******/

  /** What a wallet signs, over decoded bytes: v1 a challenge, v2 the copy with it. */
  datatype Proof =
    | V1(action: string, nonce: seq<byte>, pubkey: seq<byte>)
    | V2(action: string, nonce: seq<byte>, pubkey: seq<byte>, fingerprint: seq<byte>, version: nat)

  const DOMAIN_V1 := "lij-backup-v1"
  const DOMAIN_V2 := "lij-backup-v2"

  /** `k` bytes, big-endian. */
  function BigEndian(n: nat, k: nat): (b: seq<byte>)
    ensures |b| == k
  {
    if k == 0 then [] else BigEndian(n / 256, k - 1) + [n % 256]
  }

  function Power256(k: nat): nat { if k == 0 then 1 else 256 * Power256(k - 1) }

  lemma {:induction false} BigEndianInjective(m: nat, n: nat, k: nat)
    requires m < Power256(k) && n < Power256(k) && BigEndian(m, k) == BigEndian(n, k)
    ensures m == n
  {
    if k > 0 {
      var a, b := BigEndian(m, k), BigEndian(n, k);
      assert a[..k - 1] == BigEndian(m / 256, k - 1) && b[..k - 1] == BigEndian(n / 256, k - 1);
      assert a[k - 1] == m % 256 && b[k - 1] == n % 256;
      BigEndianInjective(m / 256, n / 256, k - 1);
    }
  }

  function Preimage(p: Proof): seq<byte> {
    match p
    case V1(action, nonce, pubkey) => Utf8(DOMAIN_V1) + Utf8(action) + nonce + pubkey
    case V2(action, nonce, pubkey, fingerprint, version) =>
      Utf8(DOMAIN_V2) + Utf8(action) + nonce + pubkey + fingerprint + BigEndian(version, 8)
  }

  /** A 32-byte nonce, a 33-byte key, a 32-byte fingerprint, a safe integer. */
  ghost predicate Sized(p: Proof) {
    |p.nonce| == 32 && |p.pubkey| == 33 && (p.V2? ==> |p.fingerprint| == 32 && SafeInteger(p.version))
  }

  lemma DomainBytes()
    ensures |Utf8(DOMAIN_V1)| == 13 && Utf8(DOMAIN_V1)[12] == 0x31
    ensures |Utf8(DOMAIN_V2)| == 13 && Utf8(DOMAIN_V2)[12] == 0x32
  {
    hide Utf8;
    AsciiUtf8(DOMAIN_V1);
    AsciiUtf8(DOMAIN_V2);
  }

  lemma {:induction false} AsciiUtf8(s: string)
    requires forall i :: 0 <= i < |s| ==> s[i] as int < 0x80
    ensures |Utf8(s)| == |s| && forall i :: 0 <= i < |s| ==> Utf8(s)[i] == s[i] as int
  {
    if s != "" {
      AsciiUtf8(s[1..]);
      assert Utf8Char(s[0]) == [s[0] as int];
    }
  }

  lemma FromTheEnd(a: seq<byte>, x: seq<byte>, b: seq<byte>, y: seq<byte>)
    requires |x| == |y| && a + x == b + y
    ensures a == b && x == y
  {
    assert (a + x)[|a|..] == x && (b + y)[|b|..] == y;
    assert (a + x)[..|a|] == a && (b + y)[..|b|] == b;
  }

  lemma Utf8Injective(s: string, t: string)
    requires Utf8(s) == Utf8(t)
    ensures s == t
  {
    Utf8RoundTrip(s);
    Utf8RoundTrip(t);
  }

  lemma PreimageDomain(p: Proof)
    ensures |Preimage(p)| >= 13 && Preimage(p)[12] == (if p.V1? then 0x31 else 0x32)
  {
    hide Utf8, BigEndian;
    DomainBytes();
  }

  /** The part both formats share: a fixed domain, an action, and two fields of fixed width. */
  lemma HeadInjective(domain: seq<byte>, p: Proof, q: Proof)
    requires |p.nonce| == |q.nonce| && |p.pubkey| == |q.pubkey|
    requires domain + Utf8(p.action) + p.nonce + p.pubkey == domain + Utf8(q.action) + q.nonce + q.pubkey
    ensures p.action == q.action && p.nonce == q.nonce && p.pubkey == q.pubkey
  {
    hide Utf8;
    FromTheEnd(domain + Utf8(p.action) + p.nonce, p.pubkey, domain + Utf8(q.action) + q.nonce, q.pubkey);
    FromTheEnd(domain + Utf8(p.action), p.nonce, domain + Utf8(q.action), q.nonce);
    assert (domain + Utf8(p.action))[|domain|..] == Utf8(p.action)
        && (domain + Utf8(q.action))[|domain|..] == Utf8(q.action);
    Utf8Injective(p.action, q.action);
  }

  /** A preimage determines its format and every field: the domain's last byte tells v1 from v2, and the
      fields after the action have fixed widths. */
  lemma PreimageInjective(p: Proof, q: Proof)
    requires Sized(p) && Sized(q) && Preimage(p) == Preimage(q)
    ensures p == q
  {
    hide Utf8, BigEndian;
    assert p.V1? == q.V1? by {
      PreimageDomain(p);
      PreimageDomain(q);
    }
    if p.V1? {
      HeadInjective(Utf8(DOMAIN_V1), p, q);
    } else {
      var head := Utf8(DOMAIN_V2);
      var a, b := head + Utf8(p.action) + p.nonce + p.pubkey, head + Utf8(q.action) + q.nonce + q.pubkey;
      FromTheEnd(a + p.fingerprint, BigEndian(p.version, 8), b + q.fingerprint, BigEndian(q.version, 8));
      VersionInjective(p.version, q.version);
      FromTheEnd(a, p.fingerprint, b, q.fingerprint);
      HeadInjective(head, p, q);
    }
  }

  /** The number some bytes spell, the first the most significant. */
  function Value(b: seq<byte>): nat { if b == [] then 0 else 256 * Value(b[..|b| - 1]) + b[|b| - 1] }

  lemma {:induction false} BigEndianValue(n: nat, k: nat)
    requires n < Power256(k)
    ensures |BigEndian(n, k)| == k && Value(BigEndian(n, k)) == n
  {
    if k > 0 {
      BigEndianValue(n / 256, k - 1);
      var b := BigEndian(n, k);
      assert b[..k - 1] == BigEndian(n / 256, k - 1);
    }
  }

  /** A preimage, part by part. */
  lemma PreimageSpelled(p: Proof)
    ensures Utf8(DOMAIN_V1) == [0x6C, 0x69, 0x6A, 0x2D, 0x62, 0x61, 0x63, 0x6B, 0x75, 0x70, 0x2D, 0x76, 0x31]
    ensures Utf8(DOMAIN_V2) == [0x6C, 0x69, 0x6A, 0x2D, 0x62, 0x61, 0x63, 0x6B, 0x75, 0x70, 0x2D, 0x76, 0x32]
    ensures p.V1? ==> Preimage(p) == Utf8("lij-backup-v1") + Utf8(p.action) + p.nonce + p.pubkey
    ensures p.V2? && SafeInteger(p.version) ==>
      exists tail: seq<byte> :: |tail| == 8 && Value(tail) == p.version &&
        Preimage(p) == Utf8("lij-backup-v2") + Utf8(p.action) + p.nonce + p.pubkey + p.fingerprint + tail
  {
    hide Utf8, BigEndian, Value;
    AsciiUtf8(DOMAIN_V1);
    AsciiUtf8(DOMAIN_V2);
    if p.V2? && SafeInteger(p.version) {
      EightBytes();
      BigEndianValue(p.version, 8);
      var tail := BigEndian(p.version, 8);
      assert |tail| == 8 && Value(tail) == p.version;
    }
  }

  lemma EightBytes()
    ensures Power256(8) == 0x1_0000_0000_0000_0000
  {
    assert Power256(4) == 0x1_0000_0000;
    assert Power256(6) == 256 * (256 * Power256(4));
  }

  lemma VersionInjective(m: nat, n: nat)
    requires SafeInteger(m) && SafeInteger(n) && BigEndian(m, 8) == BigEndian(n, 8)
    ensures m == n
  {
    hide BigEndian;
    EightBytes();
    BigEndianInjective(m, n, 8);
  }

  /** The digest builder's buffer: each field set at its offset. */
  method SetAt(pre: array<byte>, field: seq<byte>, offset: nat) returns (next: nat)
    requires offset + |field| <= pre.Length
    modifies pre
    ensures next == offset + |field| && pre[..next] == old(pre[..offset]) + field
  {
    for i := 0 to |field|
      invariant pre[..offset + i] == old(pre[..offset]) + field[..i]
    {
      pre[offset + i] := field[i];
    }
    next := offset + |field|;
  }

  method BuildV1(action: string, nonce: seq<byte>, pubkey: seq<byte>) returns (pre: array<byte>)
    ensures fresh(pre) && pre[..] == Preimage(V1(action, nonce, pubkey))
  {
    hide Utf8;
    var domain, act := Utf8(DOMAIN_V1), Utf8(action);
    pre := new byte[|domain| + |act| + |nonce| + |pubkey|];
    var o := SetAt(pre, domain, 0);
    o := SetAt(pre, act, o);
    o := SetAt(pre, nonce, o);
    o := SetAt(pre, pubkey, o);
    assert pre[..] == pre[..o];
  }

  method BuildV2(action: string, nonce: seq<byte>, pubkey: seq<byte>, fingerprint: seq<byte>, version: nat)
    returns (pre: Option<array<byte>>)
    ensures pre.None? <==> |fingerprint| != 32 || !SafeInteger(version)
    ensures pre.Some? ==> fresh(pre.value) && pre.value[..] == Preimage(V2(action, nonce, pubkey, fingerprint, version))
  {
    hide Utf8, BigEndian;
    if |fingerprint| != 32 || !SafeInteger(version) { return None; }
    var domain, act, ver := Utf8(DOMAIN_V2), Utf8(action), BigEndian(version, 8);
    var a := new byte[|domain| + |act| + |nonce| + |pubkey| + 32 + 8];
    var o := SetAt(a, domain, 0);
    o := SetAt(a, act, o);
    o := SetAt(a, nonce, o);
    o := SetAt(a, pubkey, o);
    o := SetAt(a, fingerprint, o);
    o := SetAt(a, ver, o);
    assert a[..] == a[..o];
    pre := Some(a);
  }
}

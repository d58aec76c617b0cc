/** The key lifecycle on the destination: authority-signed records set, rotate and revoke the
    source key; a migration is accepted under the current key, once per nonce. Opening a
    signature is a parameter. */
module TrustStore {
  import opened Bits
  import opened Wire
  import opened ObjectStore
  import opened SwCap

  type Key = Hash

  /** `crypto_sign_open`: the signed content, if the signature is good under the key. */
  type Opener = (seq<byte>, Key) -> Option<seq<byte>>

  const MAX_REVOKED: nat := 16
  const MAX_NONCES: nat := 64
  const EXPECT_COMP: nat := 0xC0FFEE01
  const MY_DEST: nat := 0xB

  const ENROLL: byte := 0
  const ROTATE: byte := 1
  const REVOKE: byte := 2

  datatype Verdict = Accept | BadSig | RootMismatch | WrongScope | ReplayOrExpired | AntiAmp
                   | UnknownKey | RevokedKey | BadAuthority | StaleEpoch

  // ----- the records on the wire

  datatype LifeRec = LifeRec(op: byte, subject: Key, epoch: u64)

  datatype AuthRec = AuthRec(root: Hash, comp: u32, dest: u32, ceiling: u64, nonce: u64, expiry: u64)

  function PackLife(r: LifeRec): (b: seq<byte>)
    ensures |b| == 48
  {
    [r.op] + r.subject + Le(r.epoch, 8) + [0, 0, 0, 0, 0, 0, 0]
  }

  function Field64(b: seq<byte>): u64
    requires |b| == 8
  {
    UnLeRoundTrip(b);
    Pow256At(8);
    UnLe(b)
  }

  function Field32(b: seq<byte>): u32
    requires |b| == 4
  {
    UnLeRoundTrip(b);
    Pow256At(4);
    UnLe(b)
  }

  function ParseLife(b: seq<byte>): LifeRec
    requires |b| == 48
  {
    LifeRec(b[0], b[1..33], Field64(b[33..41]))
  }

  function PackAuth(r: AuthRec): (b: seq<byte>)
    ensures |b| == 64
  {
    r.root + Le(r.comp, 4) + Le(r.dest, 4) + Le(r.ceiling, 8) + Le(r.nonce, 8) + Le(r.expiry, 8)
  }

  function ParseAuth(b: seq<byte>): AuthRec
    requires |b| == 64
  {
    AuthRec(b[..32], Field32(b[32..36]), Field32(b[36..40]), Field64(b[40..48]), Field64(b[48..56]), Field64(b[56..64]))
  }

  lemma Field64Le(x: u64)
    ensures Field64(Le(x, 8)) == x
  {
    hide Le, UnLe;
    Pow256At(8);
    LeRoundTrip(x, 8);
  }

  lemma Field32Le(x: u32)
    ensures Field32(Le(x, 4)) == x
  {
    hide Le, UnLe;
    Pow256At(4);
    LeRoundTrip(x, 4);
  }

  lemma LifeRoundTrip(r: LifeRec)
    ensures ParseLife(PackLife(r)) == r
  {
    hide Le, Field64;
    Field64Le(r.epoch);
    var b := PackLife(r);
    assert b[1..33] == r.subject;
    assert b[33..41] == Le(r.epoch, 8);
  }

  lemma AuthRoundTrip(r: AuthRec)
    ensures ParseAuth(PackAuth(r)) == r
  {
    hide Le, Field64, Field32;
    Field32Le(r.comp);
    Field32Le(r.dest);
    Field64Le(r.ceiling);
    Field64Le(r.nonce);
    Field64Le(r.expiry);
    var b := PackAuth(r);
    assert b[..32] == r.root;
    assert b[32..36] == Le(r.comp, 4);
    assert b[36..40] == Le(r.dest, 4);
    assert b[40..48] == Le(r.ceiling, 8);
    assert b[48..56] == Le(r.nonce, 8);
    assert b[56..64] == Le(r.expiry, 8);
  }

  /** Where the fields are: operation, subject, epoch from byte 33, zeros from 41. */
  lemma LifeLayout(r: LifeRec, i: nat)
    requires i < 8
    ensures var b := PackLife(r);
      && b[0] == r.op && b[1..33] == r.subject && b[33 + i] == r.epoch / Pow256(i) % 256
      && (i < 7 ==> b[41 + i] == 0)
  {
    LeByte(r.epoch, 8, i);
    hide Le, Pow256;
  }

  /** Root, component and destination from bytes 32 and 36, ceiling, nonce and expiry from 40, 48
      and 56. */
  lemma AuthLayout(r: AuthRec, i: nat)
    requires i < 8
    ensures var b := PackAuth(r);
      && b[..32] == r.root && (i < 4 ==> b[32 + i] == r.comp / Pow256(i) % 256)
      && (i < 4 ==> b[36 + i] == r.dest / Pow256(i) % 256) && b[40 + i] == r.ceiling / Pow256(i) % 256
      && b[48 + i] == r.nonce / Pow256(i) % 256 && b[56 + i] == r.expiry / Pow256(i) % 256
  {
    if i < 4 {
      LeByte(r.comp, 4, i);
      LeByte(r.dest, 4, i);
    }
    LeByte(r.ceiling, 8, i);
    LeByte(r.nonce, 8, i);
    LeByte(r.expiry, 8, i);
    hide Le, Pow256;
  }

  // ----- one event

  datatype Config = Config(open: Opener, authority: Key, arena: u64)

  datatype Trust = Trust(hasCurrent: bool, current: Key, epoch: u64, revoked: seq<Key>, seen: seq<u64>)

  datatype Event = Life(msg: seq<byte>) | Migration(msg: seq<byte>, signer: Key, served: Hash, now: u64)

  function Initial(): Trust
  {
    Trust(false, ZeroHash(), 0, [], [])
  }

  /** The record in a lifecycle message, if the authority signed it and it has the right size. */
  function LifeContent(cfg: Config, msg: seq<byte>): Option<LifeRec>
  {
    var c := cfg.open(msg, cfg.authority);
    if c.Some? && |c.value| == 48 then Some(ParseLife(c.value)) else None
  }

  function LifeVerdict(cfg: Config, t: Trust, msg: seq<byte>): Verdict
  {
    var r := LifeContent(cfg, msg);
    if r.None? then BadAuthority
    else if r.value.epoch <= t.epoch then StaleEpoch
    else if r.value.op > REVOKE then BadAuthority
    else Accept
  }

  function AddBounded<T>(s: seq<T>, x: T, n: nat): seq<T>
  {
    if |s| < n then s + [x] else s
  }

  function LifeStep(cfg: Config, t: Trust, msg: seq<byte>): Trust
  {
    if LifeVerdict(cfg, t, msg) != Accept then t
    else
      var r := LifeContent(cfg, msg).value;
      if r.op == REVOKE then t.(revoked := AddBounded(t.revoked, r.subject, MAX_REVOKED), epoch := r.epoch)
      else t.(hasCurrent := true, current := r.subject, epoch := r.epoch)
  }

  function AuthContent(cfg: Config, e: Event): Option<AuthRec>
    requires e.Migration?
  {
    var c := cfg.open(e.msg, e.signer);
    if c.Some? && |c.value| == 64 then Some(ParseAuth(c.value)) else None
  }

  function MigrVerdict(cfg: Config, t: Trust, e: Event): Verdict
    requires e.Migration?
  {
    if !t.hasCurrent || e.signer != t.current then UnknownKey
    else if e.signer in t.revoked then RevokedKey
    else if AuthContent(cfg, e).None? then BadSig
    else
      var r := AuthContent(cfg, e).value;
      if r.root != e.served then RootMismatch
      else if r.dest != MY_DEST || r.comp != EXPECT_COMP then WrongScope
      else if r.nonce in t.seen || r.expiry < e.now then ReplayOrExpired
      else if AntiampRemint(cfg.arena, r.ceiling, e.served) then Accept
      else AntiAmp
  }

  /** A nonce is used up once the first four checks pass, whether or not the last one does. */
  function MigrStep(cfg: Config, t: Trust, e: Event): Trust
    requires e.Migration?
  {
    if MigrVerdict(cfg, t, e) == Accept || MigrVerdict(cfg, t, e) == AntiAmp
    then t.(seen := AddBounded(t.seen, AuthContent(cfg, e).value.nonce, MAX_NONCES)) else t
  }

  function Step(cfg: Config, t: Trust, e: Event): Trust
  {
    if e.Life? then LifeStep(cfg, t, e.msg) else MigrStep(cfg, t, e)
  }

  function Run(cfg: Config, evs: seq<Event>): Trust
  {
    if evs == [] then Initial() else Step(cfg, Run(cfg, evs[..|evs| - 1]), evs[|evs| - 1])
  }

  // ----- the history behind a state

  /** The lifecycle records accepted so far, in order. */
  function AcceptedLife(cfg: Config, evs: seq<Event>): seq<LifeRec>
  {
    if evs == [] then []
    else
      var init, e := evs[..|evs| - 1], evs[|evs| - 1];
      if e.Life? && LifeVerdict(cfg, Run(cfg, init), e.msg) == Accept
      then AcceptedLife(cfg, init) + [LifeContent(cfg, e.msg).value] else AcceptedLife(cfg, init)
  }

  /** The nonces of the migrations that passed the first four checks, in order. */
  function Marked(cfg: Config, evs: seq<Event>): seq<u64>
  {
    if evs == [] then []
    else
      var init, e := evs[..|evs| - 1], evs[|evs| - 1];
      if e.Migration?
        && (MigrVerdict(cfg, Run(cfg, init), e) == Accept || MigrVerdict(cfg, Run(cfg, init), e) == AntiAmp)
      then Marked(cfg, init) + [AuthContent(cfg, e).value.nonce] else Marked(cfg, init)
  }

  /** The subjects of the enroll and rotate records. */
  function Enrolled(rs: seq<LifeRec>): seq<Key>
  {
    if rs == [] then []
    else
      var r := rs[|rs| - 1];
      if r.op != REVOKE then Enrolled(rs[..|rs| - 1]) + [r.subject] else Enrolled(rs[..|rs| - 1])
  }

  function Revocations(rs: seq<LifeRec>): seq<Key>
  {
    if rs == [] then []
    else
      var r := rs[|rs| - 1];
      if r.op == REVOKE then Revocations(rs[..|rs| - 1]) + [r.subject] else Revocations(rs[..|rs| - 1])
  }

  function First<T>(s: seq<T>, n: nat): seq<T>
  {
    if |s| <= n then s else s[..n]
  }

  lemma FirstAppend<T>(s: seq<T>, x: T, n: nat)
    ensures First(s + [x], n) == AddBounded(First(s, n), x, n)
  {
  }

  predicate Increasing(rs: seq<LifeRec>)
  {
    && (forall i | 0 <= i < |rs| :: rs[i].epoch > 0)
    && (forall i, j | 0 <= i < j < |rs| :: rs[i].epoch < rs[j].epoch)
  }

  /** The state is a digest of the history. */
  predicate Reflects(t: Trust, rs: seq<LifeRec>, ns: seq<u64>)
  {
    && Increasing(rs) && t.epoch == (if rs == [] then 0 else rs[|rs| - 1].epoch)
    && t.revoked == First(Revocations(rs), MAX_REVOKED)
    && (t.hasCurrent <==> Enrolled(rs) != [])
    && (t.hasCurrent ==> t.current == Enrolled(rs)[|Enrolled(rs)| - 1])
    && t.seen == First(ns, MAX_NONCES)
  }

  lemma LifeReflects(cfg: Config, t: Trust, rs: seq<LifeRec>, ns: seq<u64>, msg: seq<byte>)
    requires Reflects(t, rs, ns) && LifeVerdict(cfg, t, msg) == Accept
    ensures Reflects(LifeStep(cfg, t, msg), rs + [LifeContent(cfg, msg).value], ns)
  {
    hide First, LifeContent, AddBounded;
    var r := LifeContent(cfg, msg).value;
    var rs' := rs + [r];
    assert rs'[..|rs'| - 1] == rs;
    FirstAppend(Revocations(rs), r.subject, MAX_REVOKED);
    assert Increasing(rs');
    hide Increasing;
  }

  /** Over every sequence of records and attempts: accepted epochs strictly increase, the
      current key is the subject of the last accepted enroll or rotate, and the revoked and
      nonce lists hold the first 16 revocations and the first 64 used nonces. */
  lemma {:induction false} RunReflects(cfg: Config, evs: seq<Event>)
    ensures Reflects(Run(cfg, evs), AcceptedLife(cfg, evs), Marked(cfg, evs))
  {
    if evs != [] {
      var init, e := evs[..|evs| - 1], evs[|evs| - 1];
      var t := Run(cfg, init);
      RunReflects(cfg, init);
      hide Reflects, MigrVerdict, LifeVerdict, AuthContent, LifeContent;
      if e.Life? && LifeVerdict(cfg, t, e.msg) == Accept {
        LifeReflects(cfg, t, AcceptedLife(cfg, init), Marked(cfg, init), e.msg);
      } else if e.Migration? && (MigrVerdict(cfg, t, e) == Accept || MigrVerdict(cfg, t, e) == AntiAmp) {
        var n := AuthContent(cfg, e).value.nonce;
        FirstAppend(Marked(cfg, init), n, MAX_NONCES);
        NonceReflects(t, AcceptedLife(cfg, init), Marked(cfg, init), n);
      }
    }
  }

  lemma NonceReflects(t: Trust, rs: seq<LifeRec>, ns: seq<u64>, n: u64)
    requires Reflects(t, rs, ns)
    ensures Reflects(t.(seen := AddBounded(t.seen, n, MAX_NONCES)), rs, ns + [n])
  {
    FirstAppend(ns, n, MAX_NONCES);
    hide First;
  }

  // ----- what the gates promise

  /** A migration is accepted exactly when the last enrolled or rotated key, not among the
      first 16 revoked, signed a record for this root, scope and time, with a nonce not among
      the first 64 used, and the whole authority of the source as ceiling. */
  lemma AcceptedIff(cfg: Config, evs: seq<Event>, e: Event)
    requires e.Migration?
    ensures MigrVerdict(cfg, Run(cfg, evs), e) == Accept <==>
            && var keys := Enrolled(AcceptedLife(cfg, evs));
            && keys != [] && e.signer == keys[|keys| - 1]
            && e.signer !in First(Revocations(AcceptedLife(cfg, evs)), MAX_REVOKED)
            && cfg.open(e.msg, e.signer).Some? && |cfg.open(e.msg, e.signer).value| == 64
            && var r := ParseAuth(cfg.open(e.msg, e.signer).value);
            && r.root == e.served && r.dest == MY_DEST && r.comp == EXPECT_COMP && e.now <= r.expiry
            && r.nonce !in First(Marked(cfg, evs), MAX_NONCES) && r.ceiling == CEILING
  {
    RunReflects(cfg, evs);
    hide First, Run, AcceptedLife, Marked, Enrolled, Revocations, AntiampRemint, ParseAuth;
    if AuthContent(cfg, e).Some? {
      AntiampExact(cfg.arena, AuthContent(cfg, e).value.ceiling, e.served);
    }
  }

  /** A nonce is used up exactly when all of this holds but possibly the ceiling. */
  lemma UsedUpIff(cfg: Config, evs: seq<Event>, e: Event)
    requires e.Migration?
    ensures MigrVerdict(cfg, Run(cfg, evs), e) in {Accept, AntiAmp} <==>
            && var keys := Enrolled(AcceptedLife(cfg, evs));
            && keys != [] && e.signer == keys[|keys| - 1]
            && e.signer !in First(Revocations(AcceptedLife(cfg, evs)), MAX_REVOKED)
            && cfg.open(e.msg, e.signer).Some? && |cfg.open(e.msg, e.signer).value| == 64
            && var r := ParseAuth(cfg.open(e.msg, e.signer).value);
            && r.root == e.served && r.dest == MY_DEST && r.comp == EXPECT_COMP && e.now <= r.expiry
            && r.nonce !in First(Marked(cfg, evs), MAX_NONCES)
  {
    RunReflects(cfg, evs);
    hide First, Run, AcceptedLife, Marked, Enrolled, Revocations, AntiampRemint, ParseAuth;
  }

  /** A lifecycle record is accepted exactly when the authority signed it, it is one of the three
      operations, and its epoch is beyond that of every record accepted before. */
  lemma LifeAcceptedIff(cfg: Config, evs: seq<Event>, msg: seq<byte>)
    ensures LifeVerdict(cfg, Run(cfg, evs), msg) == Accept <==>
            && cfg.open(msg, cfg.authority).Some? && |cfg.open(msg, cfg.authority).value| == 48
            && var r := ParseLife(cfg.open(msg, cfg.authority).value);
            && r.op <= 2 && r.epoch > 0 && forall x | x in AcceptedLife(cfg, evs) :: x.epoch < r.epoch
  {
    RunReflects(cfg, evs);
    var rs, t := AcceptedLife(cfg, evs), Run(cfg, evs);
    hide First, Run, AcceptedLife, Marked, Enrolled, Revocations, ParseLife;
    assert rs != [] ==> rs[|rs| - 1] in rs;
    assert forall x | x in rs :: x.epoch <= t.epoch;
  }

  lemma MarkedGrows(cfg: Config, evs: seq<Event>, i: nat, j: nat)
    requires i <= j <= |evs|
    ensures Marked(cfg, evs[..i]) <= Marked(cfg, evs[..j])
    decreases j
  {
    if i < j {
      MarkedGrows(cfg, evs, i, j - 1);
      assert evs[..j][..j - 1] == evs[..j - 1];
    }
  }

  /** While at most 64 nonces are in use, none is accepted twice. */
  lemma NonceOnce(cfg: Config, evs: seq<Event>, i: nat, j: nat)
    requires i < j < |evs| && evs[i].Migration? && evs[j].Migration?
    requires MigrVerdict(cfg, Run(cfg, evs[..i]), evs[i]) == Accept
    requires MigrVerdict(cfg, Run(cfg, evs[..j]), evs[j]) == Accept
    requires |Marked(cfg, evs[..j])| <= MAX_NONCES
    ensures AuthContent(cfg, evs[i]).value.nonce != AuthContent(cfg, evs[j]).value.nonce
  {
    hide Marked, Run, AcceptedLife, AuthContent, MigrVerdict, Increasing, Enrolled, Revocations;
    AcceptedFresh(cfg, Run(cfg, evs[..i]), evs[i]);
    var n := AuthContent(cfg, evs[i]).value.nonce;
    MarkedAt(cfg, evs, i);
    MarkedGrows(cfg, evs, i + 1, j);
    RunReflects(cfg, evs[..j]);
    AcceptedFresh(cfg, Run(cfg, evs[..j]), evs[j]);
    var before, after := Marked(cfg, evs[..i]), Marked(cfg, evs[..j]);
    assert (before + [n])[|before|] == after[|before|] == n;
  }

  lemma AcceptedFresh(cfg: Config, t: Trust, e: Event)
    requires e.Migration? && MigrVerdict(cfg, t, e) == Accept
    ensures AuthContent(cfg, e).Some? && AuthContent(cfg, e).value.nonce !in t.seen
  {
    hide AuthContent, AntiampRemint;
  }

  lemma MarkedAt(cfg: Config, evs: seq<Event>, i: nat)
    requires i < |evs| && evs[i].Migration? && MigrVerdict(cfg, Run(cfg, evs[..i]), evs[i]) == Accept
    ensures Marked(cfg, evs[..i + 1]) == Marked(cfg, evs[..i]) + [AuthContent(cfg, evs[i]).value.nonce]
  {
    hide MigrVerdict, AuthContent, Run;
    assert evs[..i + 1][..i] == evs[..i];
  }

  lemma RunAppend(cfg: Config, evs: seq<Event>, e: Event)
    ensures Run(cfg, evs + [e]) == Step(cfg, Run(cfg, evs), e)
  {
    assert (evs + [e])[..|evs|] == evs;
  }

  /** An accepted migration, presented once more, is refused exactly while the nonce list had
      room for it: from the 65th nonce on, replays go through. */
  lemma ReplayIff(cfg: Config, evs: seq<Event>, e: Event)
    requires e.Migration? && MigrVerdict(cfg, Run(cfg, evs), e) == Accept
    ensures MigrVerdict(cfg, Run(cfg, evs + [e]), e) == Accept <==> |Marked(cfg, evs)| >= MAX_NONCES
  {
    RunAppend(cfg, evs, e);
    RunReflects(cfg, evs);
    hide Run, Marked, AcceptedLife, AuthContent, AntiampRemint, Increasing, Enrolled, Revocations;
  }

  /** Revoking the key behind an accepted migration stops it exactly while fewer than 16
      revocations were on record. */
  lemma RevokeIff(cfg: Config, evs: seq<Event>, e: Event, msg: seq<byte>)
    requires e.Migration? && MigrVerdict(cfg, Run(cfg, evs), e) == Accept
    requires LifeVerdict(cfg, Run(cfg, evs), msg) == Accept
    requires LifeContent(cfg, msg).value.op == REVOKE && LifeContent(cfg, msg).value.subject == e.signer
    ensures MigrVerdict(cfg, Run(cfg, evs + [Life(msg)]), e) == Accept <==>
      |Revocations(AcceptedLife(cfg, evs))| >= MAX_REVOKED
  {
    RunAppend(cfg, evs, Life(msg));
    RunReflects(cfg, evs);
    hide Run, Marked, AcceptedLife, AuthContent, LifeContent, AntiampRemint, Increasing, Enrolled, Revocations;
  }

  lemma {:induction false} RevocationsGrow(rs: seq<LifeRec>, rs': seq<LifeRec>)
    requires rs <= rs'
    ensures Revocations(rs) <= Revocations(rs')
    decreases |rs'|
  {
    if |rs| < |rs'| {
      RevocationsGrow(rs, rs'[..|rs'| - 1]);
    } else {
      assert rs == rs';
    }
  }

  lemma {:induction false} LifeGrows(cfg: Config, evs: seq<Event>, i: nat, j: nat)
    requires i <= j <= |evs|
    ensures AcceptedLife(cfg, evs[..i]) <= AcceptedLife(cfg, evs[..j])
    decreases j
  {
    if i < j {
      LifeGrows(cfg, evs, i, j - 1);
      assert evs[..j][..j - 1] == evs[..j - 1];
    }
  }

  /** Whatever happens later, even a new enrollment of the key: a key revoked by one of the
      first 16 accepted revocations never authorises a migration again. */
  lemma RevokedForever(cfg: Config, evs: seq<Event>, i: nat, j: nat)
    requires i < j < |evs| && evs[i].Life? && evs[j].Migration?
    requires LifeVerdict(cfg, Run(cfg, evs[..i]), evs[i].msg) == Accept
    requires
      LifeContent(cfg, evs[i].msg).value == LifeRec(REVOKE, evs[j].signer, LifeContent(cfg, evs[i].msg).value.epoch)
    requires |Revocations(AcceptedLife(cfg, evs[..i]))| < MAX_REVOKED
    ensures MigrVerdict(cfg, Run(cfg, evs[..j]), evs[j]) in {UnknownKey, RevokedKey}
  {
    RevokeAccepted(cfg, Run(cfg, evs[..i]), evs[i].msg);
    hide Run, AcceptedLife, LifeVerdict, LifeContent, AuthContent, MigrVerdict, Marked, Enrolled, Increasing,
      Revocations, First;
    var rs, r := AcceptedLife(cfg, evs[..i]), LifeContent(cfg, evs[i].msg).value;
    LifeAt(cfg, evs, i);
    LifeGrows(cfg, evs, i + 1, j);
    RunReflects(cfg, evs[..j]);
    StaysOnRecord(rs, r, AcceptedLife(cfg, evs[..j]));
    RevokedRefused(cfg, Run(cfg, evs[..j]), evs[j]);
  }

  lemma RevokeAccepted(cfg: Config, t: Trust, msg: seq<byte>)
    requires LifeVerdict(cfg, t, msg) == Accept
    ensures LifeContent(cfg, msg).Some?
  {
  }

  lemma RevokedRefused(cfg: Config, t: Trust, e: Event)
    requires e.Migration? && e.signer in t.revoked
    ensures MigrVerdict(cfg, t, e) in {UnknownKey, RevokedKey}
  {
  }

  lemma StaysOnRecord(rs: seq<LifeRec>, r: LifeRec, later: seq<LifeRec>)
    requires rs + [r] <= later && r.op == REVOKE && |Revocations(rs)| < MAX_REVOKED
    ensures r.subject in First(Revocations(later), MAX_REVOKED)
  {
    assert (rs + [r])[..|rs|] == rs;
    RevocationsGrow(rs + [r], later);
    assert Revocations(rs + [r]) == Revocations(rs) + [r.subject];
    hide Revocations;
    var k, all := |Revocations(rs)|, Revocations(later);
    assert Revocations(rs + [r])[k] == all[k] == r.subject;
    assert First(all, MAX_REVOKED)[k] == r.subject;
  }

  lemma LifeAt(cfg: Config, evs: seq<Event>, i: nat)
    requires i < |evs| && evs[i].Life? && LifeVerdict(cfg, Run(cfg, evs[..i]), evs[i].msg) == Accept
    ensures AcceptedLife(cfg, evs[..i + 1]) == AcceptedLife(cfg, evs[..i]) + [LifeContent(cfg, evs[i].msg).value]
  {
    hide LifeVerdict, LifeContent, Run;
    assert evs[..i + 1][..i] == evs[..i];
  }

  // ----- the store as it runs

  class Gate {
    const cfg: Config
    var hasCurrent: bool
    var current: Key
    var epoch: u64
    const revoked: array<Key>
    var nRevoked: nat
    const seen: array<u64>
    var seenN: nat
    var now: u64

    ghost predicate Valid()
      reads this
    {
      revoked.Length == MAX_REVOKED && seen.Length == MAX_NONCES && nRevoked <= MAX_REVOKED && seenN <= MAX_NONCES
    }

    ghost function State(): Trust
      requires Valid()
      reads this, revoked, seen
    {
      Trust(hasCurrent, current, epoch, revoked[..nRevoked], seen[..seenN])
    }

    /** `ts_init`, with an empty nonce list. */
    constructor (cfg: Config, now: u64)
      ensures Valid() && fresh(revoked) && fresh(seen) && this.cfg == cfg && this.now == now
      ensures State() == Initial()
    {
      this.cfg := cfg;
      this.now := now;
      hasCurrent, current, epoch, nRevoked, seenN := false, ZeroHash(), 0, 0, 0;
      revoked := new Key[MAX_REVOKED];
      seen := new u64[MAX_NONCES];
    }

    method IsRevoked(key: Key) returns (r: bool)
      requires Valid()
      ensures r <==> key in State().revoked
    {
      for i := 0 to nRevoked
        invariant key !in revoked[..i]
      {
        var eq := HashEq(revoked[i], key);
        if eq {
          assert revoked[..nRevoked][i] == key;
          return true;
        }
      }
      return false;
    }

    method NonceSeen(n: u64) returns (r: bool)
      requires Valid()
      ensures r <==> n in State().seen
    {
      for i := 0 to seenN
        invariant n !in seen[..i]
      {
        if seen[i] == n {
          assert seen[..seenN][i] == n;
          return true;
        }
      }
      return false;
    }

    method NonceMark(n: u64)
      requires Valid()
      modifies this`seenN, seen
      ensures Valid() && State() == old(State()).(seen := AddBounded(old(State().seen), n, MAX_NONCES))
    {
      if seenN < MAX_NONCES {
        seen[seenN] := n;
        seenN := seenN + 1;
        assert seen[..seenN] == old(seen[..seenN]) + [n];
      }
    }

    /** `lifecycle_apply`. */
    method LifecycleApply(msg: seq<byte>) returns (v: Verdict)
      requires Valid()
      modifies this, revoked
      ensures Valid() && v == LifeVerdict(cfg, old(State()), msg) && State() == LifeStep(cfg, old(State()), msg)
      ensures v != Accept ==> State() == old(State())
    {
      hide ParseLife;
      var content := cfg.open(msg, cfg.authority);
      if content.None? || |content.value| != 48 {
        return BadAuthority;
      }
      var r := ParseLife(content.value);
      if r.epoch <= epoch {
        return StaleEpoch;
      }
      if r.op == ENROLL || r.op == ROTATE {
        current, hasCurrent := r.subject, true;
      } else if r.op == REVOKE {
        if nRevoked < MAX_REVOKED {
          revoked[nRevoked] := r.subject;
          nRevoked := nRevoked + 1;
          assert revoked[..nRevoked] == old(revoked[..nRevoked]) + [r.subject];
        }
      } else {
        return BadAuthority;
      }
      epoch := r.epoch;
      return Accept;
    }

    /** `migrate_verify_lifecycle` and the checks after the signature. */
    method MigrateVerify(msg: seq<byte>, signer: Key, served: Hash) returns (v: Verdict)
      requires Valid()
      modifies this`seenN, seen
      ensures Valid() && v == MigrVerdict(cfg, old(State()), Migration(msg, signer, served, now))
      ensures State() == MigrStep(cfg, old(State()), Migration(msg, signer, served, now))
      ensures State() == old(State()).(seen := State().seen) && (v !in {Accept, AntiAmp} ==> State() == old(State()))
    {
      hide ParseAuth, AntiampRemint;
      if !hasCurrent || signer != current {
        return UnknownKey;
      }
      var dead := IsRevoked(signer);
      if dead {
        return RevokedKey;
      }
      var content := cfg.open(msg, signer);
      if content.None? || |content.value| != 64 {
        return BadSig;
      }
      var r := ParseAuth(content.value);
      if r.root != served {
        return RootMismatch;
      }
      if r.dest != MY_DEST || r.comp != EXPECT_COMP {
        return WrongScope;
      }
      var used := NonceSeen(r.nonce);
      if used || r.expiry < now {
        return ReplayOrExpired;
      }
      NonceMark(r.nonce);
      var granted := AntiampRemint(cfg.arena, r.ceiling, served);
      return if granted then Accept else AntiAmp;
    }
  }
}

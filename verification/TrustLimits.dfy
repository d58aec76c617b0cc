/** Runs that reach the limits of the trust store: the 65th nonce and the 17th revocation. */
module TrustLimits {
  import opened Bits
  import opened ObjectStore
  import opened SwCap
  import opened TrustStore

  /** The destination, and who can sign. */
  datatype Scheme = Scheme(cfg: Config, sign: (seq<byte>, Key) -> seq<byte>)
  {
    /** What is signed opens, under the same key. */
    ghost predicate Opens()
    {
      forall m, k: Key :: cfg.open(sign(m, k), k) == Some(m)
    }
  }

  function KeyOf(b: byte): Key
  {
    seq(32, _ => b)
  }

  function Order(c: Scheme, op: byte, subject: Key, epoch: u64): Event
  {
    Life(c.sign(PackLife(LifeRec(op, subject, epoch)), c.cfg.authority))
  }

  /** A record that is right in everything, with the given nonce. */
  function Attempt(c: Scheme, key: Key, nonce: u64): Event
  {
    var rec := AuthRec(ZeroHash(), EXPECT_COMP, MY_DEST, CEILING, nonce, 0);
    Migration(c.sign(PackAuth(rec), key), key, ZeroHash(), 0)
  }

  lemma OrderContent(c: Scheme, op: byte, subject: Key, epoch: u64)
    requires c.Opens()
    ensures LifeContent(c.cfg, Order(c, op, subject, epoch).msg) == Some(LifeRec(op, subject, epoch))
  {
    hide PackLife, ParseLife;
    LifeRoundTrip(LifeRec(op, subject, epoch));
  }

  lemma AttemptVerdict(c: Scheme, t: Trust, key: Key, nonce: u64)
    requires c.Opens() && t.hasCurrent && t.current == key && key !in t.revoked && nonce !in t.seen
    ensures MigrVerdict(c.cfg, t, Attempt(c, key, nonce)) == Accept
    ensures Step(c.cfg, t, Attempt(c, key, nonce)) == t.(seen := AddBounded(t.seen, nonce, MAX_NONCES))
  {
    hide PackAuth, ParseAuth, AntiampRemint;
    AuthRoundTrip(AuthRec(ZeroHash(), EXPECT_COMP, MY_DEST, CEILING, nonce, 0));
    AntiampExact(c.cfg.arena, CEILING, ZeroHash());
  }

  lemma OrderStep(c: Scheme, t: Trust, op: byte, subject: Key, epoch: u64)
    requires c.Opens() && op <= REVOKE && epoch > t.epoch
    ensures LifeVerdict(c.cfg, t, Order(c, op, subject, epoch).msg) == Accept
    ensures Step(c.cfg, t, Order(c, op, subject, epoch)) ==
            if op == REVOKE then t.(revoked := AddBounded(t.revoked, subject, MAX_REVOKED), epoch := epoch)
            else t.(hasCurrent := true, current := subject, epoch := epoch)
  {
    hide LifeContent;
    OrderContent(c, op, subject, epoch);
  }

  // ----- nonces

  /** An enrollment and `n` migrations with the nonces 0 to n - 1. */
  function Uses(c: Scheme, n: nat): seq<Event>
    requires n <= MAX_NONCES
  {
    if n == 0 then [Order(c, ENROLL, KeyOf(1), 1)] else Uses(c, n - 1) + [Attempt(c, KeyOf(1), n - 1)]
  }

  function Nonces(n: nat): (s: seq<u64>)
    requires n <= MAX_NONCES
    ensures |s| == n && forall i | 0 <= i < n :: s[i] == i
  {
    seq(n, i requires 0 <= i < n => i)
  }

  lemma {:induction false} UsesRun(c: Scheme, n: nat)
    requires c.Opens() && n <= MAX_NONCES
    ensures Run(c.cfg, Uses(c, n)) == Trust(true, KeyOf(1), 1, [], Nonces(n))
  {
    hide Step, Run, Attempt, Order, KeyOf;
    var k := KeyOf(1);
    if n == 0 {
      OneEvent(c, Order(c, ENROLL, k, 1));
      OrderStep(c, Initial(), ENROLL, k, 1);
    } else {
      UsesRun(c, n - 1);
      NextNonce(n);
      RunAppend(c.cfg, Uses(c, n - 1), Attempt(c, k, n - 1));
      AttemptVerdict(c, Trust(true, k, 1, [], Nonces(n - 1)), k, n - 1);
    }
  }

  lemma NextNonce(n: nat)
    requires 0 < n <= MAX_NONCES
    ensures AddBounded(Nonces(n - 1), n - 1, MAX_NONCES) == Nonces(n) && n - 1 !in Nonces(n - 1)
  {
  }

  lemma OneEvent(c: Scheme, e: Event)
    ensures Run(c.cfg, [e]) == Step(c.cfg, Initial(), e)
  {
    RunAppend(c.cfg, [], e);
    assert [] + [e] == [e];
  }

  /** After 64 nonces the same migration is accepted twice. */
  lemma ReplayHappens(c: Scheme)
    requires c.Opens()
    ensures var evs, e := Uses(c, MAX_NONCES), Attempt(c, KeyOf(1), 64);
      && MigrVerdict(c.cfg, Run(c.cfg, evs), e) == Accept
      && MigrVerdict(c.cfg, Run(c.cfg, evs + [e]), e) == Accept
  {
    hide Run, Uses, Marked, MigrVerdict, AcceptedLife, Enrolled, Revocations, Increasing, Attempt, Step;
    var evs := Uses(c, MAX_NONCES);
    UsesRun(c, MAX_NONCES);
    AttemptVerdict(c, Run(c.cfg, evs), KeyOf(1), 64);
    RunReflects(c.cfg, evs);
    IsMigration(c, KeyOf(1), 64);
    ReplayIff(c.cfg, evs, Attempt(c, KeyOf(1), 64));
  }

  lemma IsMigration(c: Scheme, key: Key, nonce: u64)
    ensures Attempt(c, key, nonce).Migration? && Attempt(c, key, nonce).signer == key
  {
  }

  // ----- revocations

  /** An enrollment and `n` revocations of another key. */
  function Revokes(c: Scheme, n: nat): seq<Event>
    requires n <= MAX_REVOKED
  {
    if n == 0 then [Order(c, ENROLL, KeyOf(1), 1)] else Revokes(c, n - 1) + [Order(c, REVOKE, KeyOf(2), 1 + n)]
  }

  function Others(n: nat): (s: seq<Key>)
    ensures |s| == n
  {
    seq<Key>(n, _ => KeyOf(2))
  }

  lemma {:induction false} RevokesRun(c: Scheme, n: nat)
    requires c.Opens() && n <= MAX_REVOKED
    ensures Run(c.cfg, Revokes(c, n)) == Trust(true, KeyOf(1), 1 + n, Others(n), [])
  {
    hide Step, Run, Order, KeyOf;
    var k, other := KeyOf(1), KeyOf(2);
    if n == 0 {
      OneEvent(c, Order(c, ENROLL, k, 1));
      OrderStep(c, Initial(), ENROLL, k, 1);
    } else {
      RevokesRun(c, n - 1);
      OneMoreOther(n);
      RunAppend(c.cfg, Revokes(c, n - 1), Order(c, REVOKE, other, 1 + n));
      OrderStep(c, Trust(true, k, n, Others(n - 1), []), REVOKE, other, 1 + n);
    }
  }

  lemma OneMoreOther(n: nat)
    requires 0 < n <= MAX_REVOKED
    ensures AddBounded(Others(n - 1), KeyOf(2), MAX_REVOKED) == Others(n)
  {
    hide KeyOf;
  }

  /** After 16 revocations the current key is revoked, and still authorises. */
  lemma RevocationLost(c: Scheme)
    requires c.Opens()
    ensures var evs, revoke, e := Revokes(c, MAX_REVOKED), Order(c, REVOKE, KeyOf(1), 18), Attempt(c, KeyOf(1), 0);
      && LifeVerdict(c.cfg, Run(c.cfg, evs), revoke.msg) == Accept
      && MigrVerdict(c.cfg, Run(c.cfg, evs + [revoke]), e) == Accept
  {
    hide Run, Revokes, Marked, MigrVerdict, LifeVerdict, AcceptedLife, Enrolled, Revocations, Increasing, Attempt,
      Step, LifeContent;
    var evs := Revokes(c, MAX_REVOKED);
    RevokesRun(c, MAX_REVOKED);
    assert KeyOf(1)[0] != KeyOf(2)[0];
    var t := Run(c.cfg, evs);
    AttemptVerdict(c, t, KeyOf(1), 0);
    OrderStep(c, t, REVOKE, KeyOf(1), 18);
    OrderContent(c, REVOKE, KeyOf(1), 18);
    RunReflects(c.cfg, evs);
    IsMigration(c, KeyOf(1), 0);
    RevokeIff(c.cfg, evs, Attempt(c, KeyOf(1), 0), Order(c, REVOKE, KeyOf(1), 18).msg);
  }
}

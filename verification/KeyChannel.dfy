/** The absolute-counter channel of the key-lifecycle suite: message `s` is announced by the
    value `s + 1`, so either side may start late. */
module KeyChannel {
  import opened Bits
  import opened ObjectStore
  import opened SwCap
  import opened TrustStore

  /** One published step; the four fields are written and read one by one. */
  datatype Packet = Packet(life: bool, msg: seq<byte>, signer: Key, root: Hash)

  datatype PcA = AKind | AMsg | ASigner | ARoot | ABump | AWait | ARead

  datatype PcB = BWait | BKind | BMsg | BSigner | BRoot | BVerdict | BBump

  datatype State = State(
    pcA: PcA, aStep: nat, aLog: seq<Verdict>,
    pcB: PcB, bStep: nat, bGot: Packet, bOut: Verdict, trust: Trust,
    seqA: nat, seqB: nat, wire: Packet, verdict: Verdict)

  /** The messages of the suite, and the destination that judges them. */
  datatype Suite = Suite(cfg: Config, now: u64, packets: seq<Packet>)

  function EventOf(k: Suite, p: Packet): Event
  {
    if p.life then Life(p.msg) else Migration(p.msg, p.signer, p.root, k.now)
  }

  function Judge(cfg: Config, t: Trust, e: Event): Verdict
  {
    if e.Life? then LifeVerdict(cfg, t, e.msg) else MigrVerdict(cfg, t, e)
  }

  // ----- the two programs

  function StepA(k: Suite, s: State): State
  {
    if s.aStep >= |k.packets| then s
    else
      var p := k.packets[s.aStep];
      match s.pcA
      case AKind => s.(wire := s.wire.(life := p.life), pcA := AMsg)
      case AMsg => s.(wire := s.wire.(msg := p.msg), pcA := ASigner)
      case ASigner => s.(wire := s.wire.(signer := p.signer), pcA := ARoot)
      case ARoot => s.(wire := s.wire.(root := p.root), pcA := ABump)
      case ABump => s.(seqA := s.aStep + 1, pcA := AWait)
      case AWait => if s.seqB >= s.aStep + 1 then s.(pcA := ARead) else s
      case ARead => s.(aLog := s.aLog + [s.verdict], aStep := s.aStep + 1, pcA := AKind)
  }

  function StepB(k: Suite, s: State): State
  {
    if s.bStep >= |k.packets| then s
    else
      match s.pcB
      case BWait => if s.seqA >= s.bStep + 1 then s.(pcB := BKind) else s
      case BKind => s.(bGot := s.bGot.(life := s.wire.life), pcB := BMsg)
      case BMsg => s.(bGot := s.bGot.(msg := s.wire.msg), pcB := BSigner)
      case BSigner => s.(bGot := s.bGot.(signer := s.wire.signer), pcB := BRoot)
      case BRoot =>
        var got := s.bGot.(root := s.wire.root);
        var e := EventOf(k, got);
        s.(bGot := got, bOut := Judge(k.cfg, s.trust, e), trust := Step(k.cfg, s.trust, e), pcB := BVerdict)
      case BVerdict => s.(verdict := s.bOut, pcB := BBump)
      case BBump => s.(seqB := s.bStep + 1, bStep := s.bStep + 1, pcB := BWait)
  }

  /** An interleaving: true for a turn of A. */
  function RunTurns(k: Suite, s: State, turns: seq<bool>): State
  {
    if turns == [] then s
    else
      var r := RunTurns(k, s, turns[..|turns| - 1]);
      if turns[|turns| - 1] then StepA(k, r) else StepB(k, r)
  }

  predicate Start(s: State)
  {
    && s.pcA == AKind && s.aStep == 0 && s.aLog == [] && s.seqA == 0
    && s.pcB == BWait && s.bStep == 0 && s.seqB == 0 && s.trust == Initial()
  }

  // ----- the suite without a channel

  function Events(k: Suite, n: nat): seq<Event>
    requires n <= |k.packets|
  {
    seq(n, i requires 0 <= i < n => EventOf(k, k.packets[i]))
  }

  function VerdictOn(k: Suite, i: nat): Verdict
    requires i < |k.packets|
  {
    Judge(k.cfg, Run(k.cfg, Events(k, i)), EventOf(k, k.packets[i]))
  }

  lemma EventsStep(k: Suite, n: nat)
    requires n < |k.packets|
    ensures Run(k.cfg, Events(k, n + 1)) == Step(k.cfg, Run(k.cfg, Events(k, n)), EventOf(k, k.packets[n]))
  {
    hide Step;
    var evs := Events(k, n + 1);
    assert evs[..n] == Events(k, n);
  }

  // ----- the rendezvous

  /** B has read a prefix of the fields of message `i`. */
  predicate ReadSoFar(s: State, p: Packet)
  {
    && (s.pcB in {BMsg, BSigner, BRoot, BVerdict, BBump} ==> s.bGot.life == p.life)
    && (s.pcB in {BSigner, BRoot, BVerdict, BBump} ==> s.bGot.msg == p.msg)
    && (s.pcB in {BRoot, BVerdict, BBump} ==> s.bGot.signer == p.signer)
  }

  predicate WrittenSoFar(s: State, p: Packet)
  {
    && (s.pcA in {AMsg, ASigner, ARoot, ABump, AWait} ==> s.wire.life == p.life)
    && (s.pcA in {ASigner, ARoot, ABump, AWait} ==> s.wire.msg == p.msg)
    && (s.pcA in {ARoot, ABump, AWait} ==> s.wire.signer == p.signer)
    && (s.pcA in {ABump, AWait} ==> s.wire.root == p.root)
  }

  /** A publishes message `aStep`; B has finished the ones before and waits. */
  predicate Publishing(k: Suite, s: State)
  {
    && s.pcA in {AKind, AMsg, ASigner, ARoot, ABump}
    && s.seqA == s.seqB == s.aStep == s.bStep <= |k.packets| && s.pcB == BWait
    && s.trust == Run(k.cfg, Events(k, s.bStep))
    && (s.aStep == |k.packets| ==> s.pcA == AKind)
    && (s.aStep < |k.packets| ==> WrittenSoFar(s, k.packets[s.aStep]))
  }

  /** The message is out; B is somewhere between waiting for it and announcing its verdict. */
  predicate Judging(k: Suite, s: State)
  {
    && s.pcA == AWait && s.aStep == s.bStep == s.seqB < |k.packets| && s.seqA == s.aStep + 1
    && s.wire == k.packets[s.aStep] && ReadSoFar(s, s.wire)
    && (if s.pcB in {BVerdict, BBump}
        then s.trust == Run(k.cfg, Events(k, s.bStep + 1)) && s.bOut == VerdictOn(k, s.bStep)
        else s.trust == Run(k.cfg, Events(k, s.bStep)))
    && (s.pcB == BBump ==> s.verdict == VerdictOn(k, s.bStep))
  }

  /** The verdict is out and A has not logged it yet. */
  predicate Judged(k: Suite, s: State)
  {
    && s.pcA in {AWait, ARead} && s.aStep < |k.packets| && s.seqA == s.seqB == s.bStep == s.aStep + 1 && s.pcB == BWait
    && s.trust == Run(k.cfg, Events(k, s.bStep)) && s.verdict == VerdictOn(k, s.aStep)
  }

  predicate Logged(k: Suite, s: State)
  {
    |s.aLog| == s.aStep <= |k.packets| && forall i | 0 <= i < |s.aLog| :: s.aLog[i] == VerdictOn(k, i)
  }

  predicate InStep(k: Suite, s: State)
  {
    Logged(k, s) && (Publishing(k, s) || Judging(k, s) || Judged(k, s))
  }

  lemma InStepA(k: Suite, s: State)
    requires InStep(k, s)
    ensures InStep(k, StepA(k, s))
  {
    hide Run, Events, VerdictOn;
  }

  lemma InStepB(k: Suite, s: State)
    requires InStep(k, s)
    ensures InStep(k, StepB(k, s))
  {
    if s.pcB == BRoot {
      EventsStep(k, s.bStep);
      hide Run, Events, Step, Judge, EventOf;
      assert s.bGot.(root := s.wire.root) == k.packets[s.bStep];
      assert VerdictOn(k, s.bStep) == Judge(k.cfg, s.trust, EventOf(k, k.packets[s.bStep]));
    } else {
      hide Run, Events, VerdictOn, Step, Judge, EventOf;
    }
  }

  lemma {:induction false} AlwaysInStep(k: Suite, s: State, turns: seq<bool>)
    requires Start(s)
    ensures InStep(k, RunTurns(k, s, turns))
  {
    if turns != [] {
      var r := RunTurns(k, s, turns[..|turns| - 1]);
      AlwaysInStep(k, s, turns[..|turns| - 1]);
      hide InStep, StepA, StepB;
      InStepA(k, r);
      InStepB(k, r);
    } else {
      assert Events(k, 0) == [];
    }
  }

  lemma InStepFacts(k: Suite, r: State)
    requires InStep(k, r)
    ensures |r.aLog| == r.aStep <= |k.packets| && (forall i | 0 <= i < |r.aLog| :: r.aLog[i] == VerdictOn(k, i))
    ensures r.pcB in {BKind, BMsg, BSigner, BRoot} ==> r.bStep < |k.packets| && r.wire == k.packets[r.bStep]
    ensures r.bStep <= |k.packets| && (r.pcB == BWait ==> r.trust == Run(k.cfg, Events(k, r.bStep)))
  {
    hide Run, Events, VerdictOn, WrittenSoFar, ReadSoFar;
  }

  lemma SomeoneMoves(k: Suite, r: State)
    requires InStep(k, r) && StepA(k, r) == r && StepB(k, r) == r
    ensures r.aStep == r.bStep == |k.packets|
  {
    hide Run, Events, VerdictOn, Step, Judge, EventOf, WrittenSoFar, ReadSoFar, Logged;
  }

  /** Under every start order and interleaving: the verdict A logs for step `s` is the one the
      destination gives on message `s` after messages 0 to s - 1, the trust store is that of
      the messages read so far, A overwrites no message B has not finished, and until both
      are done one of them can move. */
  lemma VerdictsMatch(k: Suite, s: State, turns: seq<bool>)
    requires Start(s)
    ensures var r := RunTurns(k, s, turns);
      && |r.aLog| == r.aStep <= |k.packets| && (forall i | 0 <= i < |r.aLog| :: r.aLog[i] == VerdictOn(k, i))
      && (r.pcB in {BKind, BMsg, BSigner, BRoot} ==> r.bStep < |k.packets| && r.wire == k.packets[r.bStep])
      && r.bStep <= |k.packets| && (r.pcB == BWait ==> r.trust == Run(k.cfg, Events(k, r.bStep)))
      && (StepA(k, r) == r && StepB(k, r) == r ==> r.aStep == r.bStep == |k.packets|)
  {
    AlwaysInStep(k, s, turns);
    hide RunTurns, InStep, Run, Events, VerdictOn, StepA, StepB;
    var r := RunTurns(k, s, turns);
    InStepFacts(k, r);
    if StepA(k, r) == r && StepB(k, r) == r {
      SomeoneMoves(k, r);
    }
  }
}

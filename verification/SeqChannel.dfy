/** The sequence-number channel of the pull protocol, every interleaving of the two sides:
    a side waits until the other's counter differs from the value it last saw. */
module SeqChannel {
  import opened Bits
  import opened ObjectStore

  type Part = seq<byte>

  /** What A answers to a request: record, child hints and payload, written one by one; for
      an object it does not hold, only the record. */
  datatype Script = Script(adv: Part, holds: Hash -> bool,
                           rspOf: Hash -> Part, hintOf: Hash -> Part, payOf: Hash -> Part)

  datatype Request = Want(hash: Hash) | Finished

  datatype PcA = ABaseline | AAdvertise | ABumpAdv | AWait | AResample | AReadReq
               | AWriteHint | AWritePay | AWriteRsp | ABump | AEnd

  datatype PcB = BBaseline | BWaitAdv | BResampleAdv | BReadAdv | BPost | BBump
               | BWait | BResample | BReadRsp | BReadPay | BReadHint | BEnd

  datatype State = State(
    pcA: PcA, aSeen: nat, aWant: Hash,
    pcB: PcB, bSeen: nat, gotAdv: Part, gotRsp: Part, gotPay: Part, gotHint: Part,
    seqA: nat, seqB: nat, req: Request, rsp: Part, hint: Part, pay: Part)

  /** A turn of one side; B's carries what it would post next. */
  datatype Turn = TurnA | TurnB(next: Request)

  // ----- the two programs

  function StepA(k: Script, s: State): State
  {
    match s.pcA
    case ABaseline => s.(aSeen := s.seqB, pcA := AAdvertise)
    case AAdvertise => s.(rsp := k.adv, pcA := ABumpAdv)
    case ABumpAdv => s.(seqA := s.seqA + 1, pcA := AWait)
    case AWait => if s.seqB != s.aSeen then s.(pcA := AResample) else s
    case AResample => s.(aSeen := s.seqB, pcA := AReadReq)
    case AReadReq =>
      if s.req.Finished? then s.(pcA := AEnd)
      else s.(aWant := s.req.hash, pcA := if k.holds(s.req.hash) then AWriteHint else AWriteRsp)
    case AWriteHint => s.(hint := k.hintOf(s.aWant), pcA := AWritePay)
    case AWritePay => s.(pay := k.payOf(s.aWant), pcA := AWriteRsp)
    case AWriteRsp => s.(rsp := k.rspOf(s.aWant), pcA := ABump)
    case ABump => s.(seqA := s.seqA + 1, pcA := AWait)
    case AEnd => s
  }

  function StepB(s: State, next: Request): State
  {
    match s.pcB
    case BBaseline => s.(bSeen := s.seqA, pcB := BWaitAdv)
    case BWaitAdv => if s.seqA != s.bSeen then s.(pcB := BResampleAdv) else s
    case BResampleAdv => s.(bSeen := s.seqA, pcB := BReadAdv)
    case BReadAdv => s.(gotAdv := s.rsp, pcB := BPost)
    case BPost => s.(req := next, pcB := BBump)
    case BBump => s.(seqB := s.seqB + 1, pcB := if s.req.Finished? then BEnd else BWait)
    case BWait => if s.seqA != s.bSeen then s.(pcB := BResample) else s
    case BResample => s.(bSeen := s.seqA, pcB := BReadRsp)
    case BReadRsp => s.(gotRsp := s.rsp, pcB := BReadPay)
    case BReadPay => s.(gotPay := s.pay, pcB := BReadHint)
    case BReadHint => s.(gotHint := s.hint, pcB := BPost)
    case BEnd => s
  }

  function Step(k: Script, s: State, t: Turn): State
  {
    if t.TurnA? then StepA(k, s) else StepB(s, t.next)
  }

  function Run(k: Script, s: State, turns: seq<Turn>): State
  {
    if turns == [] then s else Step(k, Run(k, s, turns[..|turns| - 1]), turns[|turns| - 1])
  }

  /** Whatever earlier rounds left in the counters and areas. */
  predicate Initial(s: State)
  {
    s.pcA == ABaseline && s.pcB == BBaseline
  }

  // ----- the rendezvous

  /** Before the advertisement is announced. */
  predicate Opening(k: Script, s: State)
  {
    && s.pcA in {ABaseline, AAdvertise, ABumpAdv} && s.pcB in {BBaseline, BWaitAdv}
    && (s.pcA != ABaseline ==> s.aSeen == s.seqB)
    && (s.pcA == ABumpAdv ==> s.rsp == k.adv)
    && (s.pcB == BWaitAdv ==> s.bSeen == s.seqA)
  }

  /** The advertisement is out and B is on its way to read it. */
  predicate Advertised(k: Script, s: State)
  {
    && s.pcA == AWait && s.aSeen == s.seqB && s.rsp == k.adv
    && s.pcB in {BWaitAdv, BResampleAdv, BReadAdv}
    && (if s.pcB == BReadAdv then s.bSeen == s.seqA else s.bSeen + 1 == s.seqA)
  }

  /** B composes a request while A waits. */
  predicate Composing(k: Script, s: State)
  {
    && s.pcA == AWait && s.aSeen == s.seqB && s.bSeen == s.seqA && s.gotAdv == k.adv && s.pcB in {BPost, BBump}
  }

  /** A works on the latest request while B waits. */
  predicate Serving(k: Script, s: State)
  {
    && s.pcB == BWait && s.bSeen == s.seqA && s.gotAdv == k.adv && s.req.Want?
    && s.pcA in {AWait, AResample, AReadReq, AWriteHint, AWritePay, AWriteRsp, ABump}
    && (if s.pcA in {AWait, AResample} then s.aSeen + 1 == s.seqB else s.aSeen == s.seqB)
    && (s.pcA in {AWriteHint, AWritePay, AWriteRsp, ABump} ==> s.aWant == s.req.hash)
    && (s.pcA in {AWritePay, AWriteRsp, ABump} && k.holds(s.req.hash) ==> s.hint == k.hintOf(s.req.hash))
    && (s.pcA in {AWriteRsp, ABump} && k.holds(s.req.hash) ==> s.pay == k.payOf(s.req.hash))
    && (s.pcA == ABump ==> s.rsp == k.rspOf(s.req.hash))
  }

  /** The areas hold A's whole answer to the latest request. */
  predicate Answered(k: Script, s: State)
  {
    && s.req.Want? && s.rsp == k.rspOf(s.req.hash)
    && (k.holds(s.req.hash) ==> s.pay == k.payOf(s.req.hash) && s.hint == k.hintOf(s.req.hash))
  }

  /** B reads the answer while A waits. */
  predicate Reading(k: Script, s: State)
  {
    && s.pcA == AWait && s.aSeen == s.seqB && s.gotAdv == k.adv && Answered(k, s)
    && s.pcB in {BWait, BResample, BReadRsp, BReadPay, BReadHint}
    && (if s.pcB in {BWait, BResample} then s.bSeen + 1 == s.seqA else s.bSeen == s.seqA)
    && (s.pcB in {BReadPay, BReadHint} ==> s.gotRsp == s.rsp)
    && (s.pcB == BReadHint ==> s.gotPay == s.pay)
  }

  predicate Closing(k: Script, s: State)
  {
    && s.pcB == BEnd && s.req.Finished? && s.gotAdv == k.adv && s.pcA in {AWait, AResample, AReadReq, AEnd}
    && (s.pcA in {AWait, AResample} ==> s.aSeen + 1 == s.seqB)
  }

  /** The phases of a run in which B looked at the counter in time. */
  predicate InTime(k: Script, s: State)
  {
    Opening(k, s) || Advertised(k, s) || Composing(k, s) || Serving(k, s) || Reading(k, s) || Closing(k, s)
  }

  /** B took its baseline after the announcement: both wait for the other. */
  predicate Stuck(s: State)
  {
    s.pcA == AWait && s.aSeen == s.seqB && s.pcB == BWaitAdv && s.bSeen == s.seqA
  }

  /** A has announced and B has not looked yet. */
  predicate Overtaken(s: State)
  {
    s.pcA == AWait && s.aSeen == s.seqB && s.pcB == BBaseline
  }

  lemma InTimeA(k: Script, s: State)
    requires InTime(k, s) && (s.pcA == ABumpAdv ==> s.pcB == BWaitAdv)
    ensures InTime(k, StepA(k, s))
  {
  }

  lemma InTimeB(k: Script, s: State, next: Request)
    requires InTime(k, s)
    ensures InTime(k, StepB(s, next))
  {
  }

  lemma OthersStep(k: Script, s: State, t: Turn)
    ensures Stuck(s) ==> Step(k, s, t) == s
    ensures Overtaken(s) ==> Step(k, s, t) == s || Stuck(Step(k, s, t))
    ensures Opening(k, s) && t.TurnA? && s.pcA == ABumpAdv && s.pcB == BBaseline ==> Overtaken(Step(k, s, t))
  {
  }

  // ----- what this gives

  predicate AWrites(s: State)
  {
    s.pcA in {AAdvertise, AWriteHint, AWritePay, AWriteRsp}
  }

  predicate BReads(s: State)
  {
    s.pcB in {BReadAdv, BReadRsp, BReadPay, BReadHint}
  }

  /** Over every interleaving: A writes the shared areas only while B is not reading, what B
      is about to read is A's whole answer to its latest request, and A reads a request only
      when B has posted it. */
  lemma NoTornReads(k: Script, s: State, turns: seq<Turn>)
    requires Initial(s)
    ensures var r := Run(k, s, turns);
      && !(AWrites(r) && BReads(r))
      && (r.pcB == BReadAdv ==> r.rsp == k.adv)
      && (r.pcB in {BReadRsp, BReadPay, BReadHint} ==> Answered(k, r))
      && (r.pcB == BReadHint ==>
            && r.gotRsp == k.rspOf(r.req.hash)
            && (k.holds(r.req.hash) ==> r.gotPay == k.payOf(r.req.hash)))
      && (r.pcA == AReadReq ==> r.pcB in {BWait, BEnd})
  {
    InTimeExactly(k, s, turns);
    hide Run, SampledInTime;
  }

  /** Neither side can move by itself any more. */
  ghost predicate Halted(k: Script, s: State)
  {
    StepA(k, s) == s && forall next :: StepB(s, next) == s
  }

  /** B takes its baseline before A announces the root, unless the first three turns are A's. */
  predicate SampledInTime(turns: seq<Turn>)
  {
    !(|turns| >= 3 && turns[0].TurnA? && turns[1].TurnA? && turns[2].TurnA?)
  }

  predicate OnlyA(turns: seq<Turn>)
  {
    forall i | 0 <= i < |turns| :: turns[i].TurnA?
  }

  /** As long as only A moves, B has not looked, and A gets as far as its wait. */
  lemma {:induction false} AloneRun(k: Script, s: State, turns: seq<Turn>)
    requires Initial(s)
    ensures var r, n := Run(k, s, turns), |turns|;
      && (r.pcB == BBaseline <==> OnlyA(turns))
      && (OnlyA(turns) ==>
            && r.pcA ==
               (if n == 0 then ABaseline else if n == 1 then AAdvertise else if n == 2 then ABumpAdv else AWait)
            && (n > 0 ==> r.aSeen == r.seqB))
  {
    if turns != [] {
      var init := turns[..|turns| - 1];
      AloneRun(k, s, init);
      assert OnlyA(turns) <==> OnlyA(init) && turns[|turns| - 1].TurnA?;
    }
  }

  /** The turn at which B is overtaken is the third of three of A's. */
  lemma OvertakenAt(k: Script, s: State, turns: seq<Turn>, t: Turn)
    requires Initial(s)
    ensures SampledInTime(turns + [t]) <==>
            SampledInTime(turns) && !(t.TurnA? && Run(k, s, turns).pcA == ABumpAdv && Run(k, s, turns).pcB == BBaseline)
  {
    AloneRun(k, s, turns);
    hide Run;
    var r, more := Run(k, s, turns), turns + [t];
    if |turns| >= 3 {
      assert more[0] == turns[0] && more[1] == turns[1] && more[2] == turns[2];
      assert r.pcB == BBaseline ==> r.pcA == AWait;
    } else if |turns| == 2 {
      assert more[0] == turns[0] && more[1] == turns[1] && more[2] == t;
      assert OnlyA(turns) <==> turns[0].TurnA? && turns[1].TurnA?;
    }
  }

  lemma {:induction false} InTimeExactly(k: Script, s: State, turns: seq<Turn>)
    requires Initial(s)
    ensures var r := Run(k, s, turns);
      if SampledInTime(turns) then InTime(k, r) else Overtaken(r) || Stuck(r)
  {
    if turns != [] {
      var init, t := turns[..|turns| - 1], turns[|turns| - 1];
      var r := Run(k, s, init);
      assert turns == init + [t];
      InTimeExactly(k, s, init);
      OvertakenAt(k, s, init, t);
      hide InTime, Overtaken, Stuck, SampledInTime;
      OthersStep(k, r, t);
      if SampledInTime(turns) {
        if t.TurnA? {
          NotOvertaken(k, r);
          InTimeA(k, r);
        } else {
          InTimeB(k, r, t.next);
        }
      } else if SampledInTime(init) {
        OpeningAt(k, r);
      }
    }
  }

  lemma OpeningAt(k: Script, s: State)
    requires InTime(k, s) && s.pcA == ABumpAdv
    ensures Opening(k, s)
  {
  }

  lemma NotOvertaken(k: Script, s: State)
    requires InTime(k, s) && !(s.pcA == ABumpAdv && s.pcB == BBaseline)
    ensures s.pcA == ABumpAdv ==> s.pcB == BWaitAdv
  {
  }

  /** The rendezvous works exactly when B samples the counter before A announces: then a side
      can move until both are done, and otherwise, once B has sampled, no turn changes anything. */
  lemma DeadlockIff(k: Script, s: State, turns: seq<Turn>)
    requires Initial(s) && Run(k, s, turns).pcB != BBaseline
    ensures var r := Run(k, s, turns);
      && (SampledInTime(turns) ==> (Halted(k, r) <==> r.pcA == AEnd && r.pcB == BEnd))
      && (!SampledInTime(turns) ==> Halted(k, r) && r.pcB == BWaitAdv && r.pcA == AWait)
  {
    InTimeExactly(k, s, turns);
    var r := Run(k, s, turns);
    hide Run, SampledInTime, InTime, Halted, Overtaken, Stuck;
    if SampledInTime(turns) {
      InTimeMoves(k, r);
    } else {
      StuckHalts(k, r);
    }
  }

  lemma StuckHalts(k: Script, r: State)
    requires (Overtaken(r) || Stuck(r)) && r.pcB != BBaseline
    ensures Halted(k, r) && r.pcB == BWaitAdv && r.pcA == AWait
  {
  }

  lemma InTimeMoves(k: Script, r: State)
    requires InTime(k, r)
    ensures Halted(k, r) <==> r.pcA == AEnd && r.pcB == BEnd
  {
    if !(r.pcA == AEnd && r.pcB == BEnd) {
      SomeoneCan(k, r);
      assert !Halted(k, r) by {
        hide InTime, StepA, StepB;
      }
    }
  }

  lemma SomeoneCan(k: Script, r: State)
    requires InTime(k, r) && !(r.pcA == AEnd && r.pcB == BEnd)
    ensures StepA(k, r) != r || StepB(r, r.req) != r
  {
    if r.pcA == AWait && r.aSeen == r.seqB {
      assert StepB(r, r.req).pcB != r.pcB;
    } else {
      assert r.pcA != AEnd ==> StepA(k, r).pcA != r.pcA;
    }
  }

  /** Three turns of A before the first of B, from any state of the areas: deadlock. */
  lemma LateSampleHalts(k: Script, s: State, next: Request)
    requires Initial(s)
    ensures var turns := [TurnA, TurnA, TurnA, TurnB(next)];
      !SampledInTime(turns) && Halted(k, Run(k, s, turns))
  {
    var turns := [TurnA, TurnA, TurnA, TurnB(next)];
    AloneRun(k, s, turns);
    InTimeExactly(k, s, turns);
    hide Run, Overtaken, Stuck;
    assert !OnlyA(turns) by {
      assert !turns[3].TurnA?;
    }
    StuckHalts(k, Run(k, s, turns));
  }
}

/** Destination-pull Merkle synchronization: B walks the graph from an advertised root,
    asking for what it lacks; A streams objects with untrusted child hints. */
module PullSync {
  import opened Bits
  import opened ObjectStore
  import opened Sls

  const WS_MAX: nat := 4096
  const MAX_BLOCK: nat := 1040

  datatype Op = Adv | Block | Other

  /** The shared areas B reads after a response: record, child hints and payload. */
  type HintArea = s: seq<Hash> | |s| == 128 witness seq<Hash>(128, _ => Zero())
  type PayArea = s: seq<byte> | |s| == 4096 witness seq(4096, _ => 0)

  datatype Reply = Reply(op: Op, hash: Hash, len: nat, nchild: nat, hints: HintArea, pay: PayArea)

  function Zero(): Hash
  {
    seq(32, _ => 0)
  }

  /** What answers: from the addresses requested so far to a response, or silence. */
  type Peer = seq<Hash> -> Option<Reply>

  datatype Env = Env(h: HashFn, slots: nat, arena: nat, peer: Peer)

  datatype Outcome = Running | Done | Timeout | BadOp | BadLen

  datatype Sink = Sink(outcome: Outcome, objs: seq<seq<byte>>, ws: seq<Hash>, wants: seq<Hash>,
                       received: nat, blocks: nat, rejected: nat, pruned: nat)

  // ----- the walk on values

  predicate Fits(env: Env, objs: seq<seq<byte>>, bytes: seq<byte>)
  {
    |objs| < env.slots && |Flatten(objs)| + |bytes| <= env.arena
  }

  /** The store after a put whose result nobody looks at. */
  function Install(env: Env, objs: seq<seq<byte>>, bytes: seq<byte>): seq<seq<byte>>
  {
    if env.h(bytes) !in Index(env.h, objs) && Fits(env, objs, bytes) then objs + [bytes] else objs
  }

  /** Pushes the hinted children that are not resident, as far as the stack goes. */
  function PushMissing(resident: map<Hash, seq<byte>>, ws: seq<Hash>, kids: seq<Hash>): seq<Hash>
  {
    if kids == [] then ws
    else
      var rest := PushMissing(resident, ws, kids[..|kids| - 1]);
      var kid := kids[|kids| - 1];
      if kid !in resident && |rest| < WS_MAX then rest + [kid] else rest
  }

  function Hints(r: Reply): seq<Hash>
  {
    r.hints[..if r.nchild > MAX_CHILDREN then MAX_CHILDREN else r.nchild]
  }

  function Accept(env: Env, s: Sink, want: Hash, r: Reply): Sink
  {
    if r.op != Block then s.(outcome := BadOp)
    else if r.len == 0 || r.len > MAX_BLOCK then s.(outcome := BadLen)
    else
      var bytes := r.pay[..r.len];
      if env.h(bytes) != want then s.(rejected := s.rejected + 1)
      else
        var objs := Install(env, s.objs, bytes);
        s.(objs := objs, ws := PushMissing(Index(env.h, objs), s.ws, Hints(r)),
           received := s.received + r.len, blocks := s.blocks + 1)
  }

  /** One turn of the walk. */
  function Round(env: Env, s: Sink): Sink
  {
    if s.outcome != Running then s
    else if s.ws == [] then s.(outcome := Done)
    else
      var want := s.ws[|s.ws| - 1];
      var popped := s.(ws := s.ws[..|s.ws| - 1]);
      if want in Index(env.h, s.objs) then popped.(pruned := s.pruned + 1)
      else
        var asked := popped.(wants := s.wants + [want]);
        var reply := env.peer(asked.wants);
        if reply.None? then asked.(outcome := Timeout) else Accept(env, asked, want, reply.value)
  }

  function Rounds(env: Env, s: Sink, n: nat): Sink
  {
    if n == 0 then s else Round(env, Rounds(env, s, n - 1))
  }

  /** After the advertisement: the root alone on the stack. */
  function Begin(env: Env, objs: seq<seq<byte>>): Sink
  {
    var s := Sink(Running, objs, [], [], 0, 0, 0, 0);
    var adv := env.peer([]);
    if adv.None? then s.(outcome := Timeout)
    else if adv.value.op != Adv then s.(outcome := BadOp)
    else s.(ws := [adv.value.hash])
  }

  // ----- whatever the other side answers

  /** `objs` grew out of `objs0` by objects that were asked for under their own hash. */
  predicate GrownByWants(h: HashFn, objs0: seq<seq<byte>>, objs: seq<seq<byte>>, wants: seq<Hash>)
  {
    objs0 <= objs && Distinct(h, objs) && forall i | |objs0| <= i < |objs| :: h(objs[i]) in wants
  }

  lemma {:induction false} PushMissingLen(resident: map<Hash, seq<byte>>, ws: seq<Hash>, kids: seq<Hash>)
    requires |ws| <= WS_MAX
    ensures |PushMissing(resident, ws, kids)| <= WS_MAX
    ensures |ws| <= |PushMissing(resident, ws, kids)| <= |ws| + |kids|
  {
    if kids != [] {
      PushMissingLen(resident, ws, kids[..|kids| - 1]);
    }
  }

  /** The hinted children that are not resident, in order. */
  function Absent(resident: map<Hash, seq<byte>>, kids: seq<Hash>): seq<Hash>
  {
    if kids == [] then []
    else
      var rest, kid := Absent(resident, kids[..|kids| - 1]), kids[|kids| - 1];
      if kid !in resident then rest + [kid] else rest
  }

  /** What fits the stack is pushed, in order; a child is dropped exactly when the absent ones
      and the stack together exceed 4096 entries. */
  lemma {:induction false} PushExact(resident: map<Hash, seq<byte>>, ws: seq<Hash>, kids: seq<Hash>)
    requires |ws| <= WS_MAX
    ensures var all := ws + Absent(resident, kids);
      PushMissing(resident, ws, kids) == if |all| <= WS_MAX then all else all[..WS_MAX]
  {
    if kids != [] {
      PushExact(resident, ws, kids[..|kids| - 1]);
      var rest, kid := Absent(resident, kids[..|kids| - 1]), kids[|kids| - 1];
      assert ws + (rest + [kid]) == ws + rest + [kid];
    } else {
      assert ws + [] == ws;
    }
  }

  lemma InstallSafe(env: Env, objs: seq<seq<byte>>, bytes: seq<byte>)
    requires Distinct(env.h, objs)
    ensures Distinct(env.h, Install(env, objs, bytes))
    ensures Install(env, objs, bytes) == objs || Install(env, objs, bytes) == objs + [bytes]
    ensures |objs| <= env.slots ==> |Install(env, objs, bytes)| <= env.slots
    ensures |Flatten(objs)| <= env.arena ==> |Flatten(Install(env, objs, bytes))| <= env.arena
  {
    hide Index, Flatten;
    Resident(env.h, objs, env.h(bytes));
    FlattenAppend(objs, bytes);
  }

  /** The measure of the walk: every turn takes one entry off the stack, and only an accepted
      block adds any, at most sixteen. */
  predicate Paced(s: Sink, n: nat)
  {
    |s.ws| <= WS_MAX && (s.outcome.Running? ==> n + |s.ws| <= 1 + 16 * s.blocks) && |s.wants| <= n
  }

  lemma RoundSafe(env: Env, objs0: seq<seq<byte>>, s: Sink, n: nat)
    requires GrownByWants(env.h, objs0, s.objs, s.wants) && Paced(s, n)
    requires |s.objs| <= env.slots && |Flatten(s.objs)| <= env.arena && |s.objs| <= |objs0| + s.blocks
    ensures var s' := Round(env, s);
      && GrownByWants(env.h, objs0, s'.objs, s'.wants) && Paced(s', n + 1)
      && |s'.objs| <= env.slots && |Flatten(s'.objs)| <= env.arena && |s'.objs| <= |objs0| + s'.blocks
  {
    hide Index, Flatten, Install, PushMissing, Fits, Distinct;
    if s.outcome.Running? && s.ws != [] {
      var want := s.ws[|s.ws| - 1];
      var wants := s.wants + [want];
      var popped := s.ws[..|s.ws| - 1];
      assert GrownByWants(env.h, objs0, s.objs, wants) by {
        forall i | |objs0| <= i < |s.objs|
          ensures env.h(s.objs[i]) in wants
        {
          assert env.h(s.objs[i]) in s.wants;
        }
      }
      var reply := env.peer(wants);
      if want !in Index(env.h, s.objs) && reply.Some? && 0 < reply.value.len <= MAX_BLOCK {
        var r := reply.value;
        var bytes := r.pay[..r.len];
        InstallSafe(env, s.objs, bytes);
        var objs := Install(env, s.objs, bytes);
        PushMissingLen(Index(env.h, objs), popped, Hints(r));
        if env.h(bytes) == want {
          assert GrownByWants(env.h, objs0, objs, wants);
        }
      }
    }
  }

  /** Safety and pace over every run, for every peer. */
  lemma {:induction false} RunSafe(env: Env, objs0: seq<seq<byte>>, n: nat)
    requires Distinct(env.h, objs0) && |objs0| <= env.slots && |Flatten(objs0)| <= env.arena
    ensures var s := Rounds(env, Begin(env, objs0), n);
      && GrownByWants(env.h, objs0, s.objs, s.wants) && Paced(s, n)
      && |s.objs| <= env.slots && |Flatten(s.objs)| <= env.arena && |s.objs| <= |objs0| + s.blocks
  {
    if n == 0 {
      hide Distinct, Flatten;
    } else {
      hide GrownByWants, Paced, Flatten, Distinct, Begin, Round;
      RunSafe(env, objs0, n - 1);
      RoundSafe(env, objs0, Rounds(env, Begin(env, objs0), n - 1), n - 1);
    }
  }

  /** A turn leaves the walk running exactly if it had an address to look at, and that was resident
      or answered with a block of 1 to 1040 bytes: a forged block does not stop it. */
  lemma GoesOnIff(env: Env, s: Sink)
    ensures Round(env, s).outcome == Running <==>
            && s.outcome == Running && s.ws != []
            && var want := s.ws[|s.ws| - 1];
            || want in Index(env.h, s.objs)
            || (&& env.peer(s.wants + [want]).Some?
                && var r := env.peer(s.wants + [want]).value; r.op == Block && 1 <= r.len <= 1040)
  {
    hide Index, Install, PushMissing;
  }

  /** Over every run, every turn that asked for something was answered, and a block was accepted or
      rejected; every other turn found its address resident. */
  lemma {:induction false} TurnsAddUp(env: Env, objs0: seq<seq<byte>>, n: nat)
    ensures AddsUp(Rounds(env, Begin(env, objs0), n), n)
  {
    var s0 := Begin(env, objs0);
    hide Round, AddsUp, Rounds;
    if n == 0 {
      RoundsNone(env, s0);
      StartAddsUp(env, objs0);
    } else {
      hide Begin;
      TurnsAddUp(env, objs0, n - 1);
      RoundsStep(env, s0, n - 1);
      RoundAddsUp(env, Rounds(env, s0, n - 1), n - 1);
    }
  }

  predicate AddsUp(s: Sink, n: nat)
  {
    s.outcome == Running ==>
      && n == s.pruned + s.blocks + s.rejected && |s.wants| == s.blocks + s.rejected
      && s.blocks <= s.received <= 1040 * s.blocks
  }

  lemma StartAddsUp(env: Env, objs0: seq<seq<byte>>)
    ensures AddsUp(Begin(env, objs0), 0)
  {
  }

  lemma RoundAddsUp(env: Env, s: Sink, n: nat)
    requires AddsUp(s, n)
    ensures AddsUp(Round(env, s), n + 1)
  {
    hide Index, Install, PushMissing, Hints;
  }

  /** However the hints lie, the walk is over within 2 + 16 * (free slots) turns, unless the
      store has refused a block by then. */
  lemma WalkEnds(env: Env, objs0: seq<seq<byte>>)
    requires Distinct(env.h, objs0) && |objs0| <= env.slots && |Flatten(objs0)| <= env.arena
    ensures var s := Rounds(env, Begin(env, objs0), 2 + 16 * (env.slots - |objs0|));
      s.outcome.Running? ==> s.blocks > |s.objs| - |objs0|
  {
    RunSafe(env, objs0, 2 + 16 * (env.slots - |objs0|));
  }

  // ----- the walk as it runs, on the store and the work stack

  lemma PushStep(resident: map<Hash, seq<byte>>, ws: seq<Hash>, kids: seq<Hash>, c: nat)
    requires c < |kids|
    ensures var rest := PushMissing(resident, ws, kids[..c]);
      PushMissing(resident, ws, kids[..c + 1]) ==
      if kids[c] !in resident && |rest| < WS_MAX then rest + [kids[c]] else rest
  {
    assert kids[..c + 1][..c] == kids[..c];
  }

  lemma PushNone(resident: map<Hash, seq<byte>>, ws: seq<Hash>)
    ensures PushMissing(resident, ws, []) == ws
  {
  }

  class Puller {
    const S: Store
    const peer: Peer
    const ws: array<Hash>
    var wsTop: nat
    /** The requests posted so far. */
    var wants: seq<Hash>
    var outcome: Outcome
    var received: nat
    var blocks: nat
    var rejected: nat
    var pruned: nat

    constructor (S: Store, peer: Peer)
      ensures this.S == S && this.peer == peer && fresh(ws) && ws.Length == WS_MAX
    {
      this.S, this.peer := S, peer;
      ws := new Hash[WS_MAX];
    }

    ghost function Env0(): Env
    {
      Env(S.h, S.index.Length, S.arena.Length, peer)
    }

    ghost predicate Valid()
      reads this, S, S.arena, S.index
    {
      S.Valid() && ws.Length == WS_MAX && wsTop <= WS_MAX
    }

    /** The machine state as a value. */
    ghost function State(): Sink
      requires wsTop <= ws.Length
      reads this, S, ws
    {
      Sink(outcome, S.Objs, ws[..wsTop], wants, received, blocks, rejected, pruned)
    }

    method PushChildren(kids: seq<Hash>)
      requires Valid()
      modifies this`wsTop, ws
      ensures Valid() && ws[..wsTop] == PushMissing(S.Contents(), old(ws[..wsTop]), kids)
    {
      hide PushMissing, Store.Valid, Index;
      ghost var w0 := ws[..wsTop];
      assert kids[..0] == [];
      PushNone(S.Contents(), w0);
      for c := 0 to |kids|
        invariant Valid() && ws[..wsTop] == PushMissing(S.Contents(), w0, kids[..c])
      {
        PushStep(S.Contents(), w0, kids, c);
        var there := S.Exists(kids[c]);
        if !there && wsTop < WS_MAX {
          ghost var before := ws[..wsTop];
          ws[wsTop] := kids[c];
          wsTop := wsTop + 1;
          assert ws[..wsTop] == before + [kids[c]];
        }
      }
      assert kids[..|kids|] == kids;
    }

    /** A put whose status is ignored. */
    method InstallBlock(bytes: seq<byte>)
      requires S.Valid()
      modifies S, S.arena, S.index
      ensures S.Valid() && S.Objs == Install(Env0(), old(S.Objs), bytes)
    {
      hide Index, Distinct;
      assert S.indexCount == |S.Objs| && S.arenaUsed == |Flatten(S.Objs)|;
      hide Flatten;
      var status, hash := S.Put(bytes);
    }

    method AcceptBlock(want: Hash, r: Reply)
      requires Valid()
      modifies this, ws, S, S.arena, S.index
      ensures Valid() && State() == Accept(Env0(), old(State()), want, r)
    {
      hide PushMissing, Store.Valid, Index, Install;
      if r.op != Block {
        outcome := BadOp;
        return;
      }
      if r.len == 0 || r.len > MAX_BLOCK {
        outcome := BadLen;
        return;
      }
      var bytes := r.pay[..r.len];
      var same := HashEq(want, S.h(bytes));
      if !same {
        rejected := rejected + 1;
        return;
      }
      InstallBlock(bytes);
      received := received + r.len;
      blocks := blocks + 1;
      PushChildren(Hints(r));
    }

    method Turn()
      requires Valid() && outcome == Running
      modifies this, ws, S, S.arena, S.index
      ensures Valid() && State() == Round(Env0(), old(State()))
    {
      hide Accept, Store.Valid, Index;
      if wsTop == 0 {
        outcome := Done;
        return;
      }
      ghost var stack := ws[..wsTop];
      wsTop := wsTop - 1;
      var want := ws[wsTop];
      assert ws[..wsTop] == stack[..|stack| - 1];
      var there := S.Exists(want);
      if there {
        pruned := pruned + 1;
        return;
      }
      wants := wants + [want];
      var reply := peer(wants);
      if reply.None? {
        outcome := Timeout;
        return;
      }
      AcceptBlock(want, reply.value);
    }

    /** `b_sync`, wherever it ends: the walk with this peer is over after some number of turns. */
    method BSync(ghost limit: nat) returns (ghost n: nat)
      requires S.Valid() && ws.Length == WS_MAX
      requires Rounds(Env0(), Begin(Env0(), S.Objs), limit).outcome != Running
      modifies this, ws, S, S.arena, S.index
      ensures Valid() && outcome != Running && n <= limit
      ensures State() == Rounds(Env0(), Begin(Env0(), old(S.Objs)), n)
    {
      hide Store.Valid, Round, Rounds, Begin;
      ghost var env, s0 := Env0(), Begin(Env0(), S.Objs);
      Advertised();
      n := 0;
      ghost var s := s0;
      RoundsNone(env, s0);
      while outcome == Running
        invariant Valid() && State() == s == Rounds(env, s0, n) && n <= limit
        decreases limit - n
      {
        RoundsStep(env, s0, n);
        Turn();
        s := Round(env, s);
        n := n + 1;
      }
    }

    /** The wait for the root. */
    method Advertised()
      requires S.Valid() && ws.Length == WS_MAX
      modifies this, ws
      ensures Valid() && State() == Begin(Env0(), S.Objs) && wants == []
    {
      hide Store.Valid;
      assert ws as object != S.arena && ws as object != S.index && this as object != S;
      wsTop, wants, received, blocks, rejected, pruned := 0, [], 0, 0, 0, 0;
      var adv := peer([]);
      assert ws[..0] == [];
      if adv.None? {
        outcome := Timeout;
      } else if adv.value.op != Adv {
        outcome := BadOp;
      } else {
        ws[0] := adv.value.hash;
        wsTop := 1;
        outcome := Running;
        assert ws[..1] == [adv.value.hash];
      }
    }
  }

  lemma RoundsNone(env: Env, s: Sink)
    ensures Rounds(env, s, 0) == s
  {
  }

  lemma RoundsStep(env: Env, s: Sink, n: nat)
    ensures Rounds(env, s, n + 1) == Round(env, Rounds(env, s, n))
  {
  }
}

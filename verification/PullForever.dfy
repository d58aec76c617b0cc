/** When the pull synchronization ends, whatever the other side answers: refused puts and
    lying hints can keep it going for ever. */
module PullForever {
  import opened Bits
  import opened ObjectStore
  import opened Sls
  import opened PullSync

  /** A block of a length that B accepts. */
  predicate BlockSized(b: seq<byte>)
  {
    1 <= |b| <= MAX_BLOCK
  }

  /** A new block that is stored. */
  predicate Taken(env: Env, objs: seq<seq<byte>>, b: seq<byte>)
  {
    BlockSized(b) && env.h(b) !in Index(env.h, objs) && Fits(env, objs, b)
  }

  /** A new block that is refused. */
  predicate Refused(env: Env, objs: seq<seq<byte>>, b: seq<byte>)
  {
    BlockSized(b) && env.h(b) !in Index(env.h, objs) && !Fits(env, objs, b)
  }

  /** Block after block is stored. */
  predicate FillsUp(env: Env, objs: seq<seq<byte>>, ext: seq<seq<byte>>)
  {
    forall i | 0 <= i < |ext| :: Taken(env, objs + ext[..i], ext[i])
  }

  /** The store can be filled so far that a new block is refused. */
  ghost predicate Saturable(env: Env, objs: seq<seq<byte>>)
  {
    exists ext, b :: FillsUp(env, objs, ext) && Refused(env, objs + ext, b)
  }

  // ----- a peer that keeps B busy

  /** A block with one child hint. */
  function BlockReply(b: seq<byte>, hint: Hash): Reply
    requires BlockSized(b)
  {
    var hints: HintArea := [hint] + seq<Hash>(127, _ => Zero());
    var pay: PayArea := b + seq(4096 - |b|, _ => 0);
    Reply(Block, Zero(), |b|, 1, hints, pay)
  }

  lemma BlockReplyIs(b: seq<byte>, hint: Hash)
    requires BlockSized(b)
    ensures var r := BlockReply(b, hint);
      r.op == Block && r.len == |b| && r.pay[..r.len] == b && Hints(r) == [hint]
  {
  }

  /** First the blocks of `ext`, then `b` again and again. */
  function ItemAt(ext: seq<seq<byte>>, b: seq<byte>, i: nat): seq<byte>
  {
    if i < |ext| then ext[i] else b
  }

  predicate AllSized(ext: seq<seq<byte>>, b: seq<byte>)
  {
    BlockSized(b) && forall i | 0 <= i < |ext| :: BlockSized(ext[i])
  }

  /** Every block comes with the address of the next one as its only child. */
  function Busy(h: HashFn, ext: seq<seq<byte>>, b: seq<byte>): Peer
    requires AllSized(ext, b)
  {
    (q: seq<Hash>) =>
      if q == [] then Some(BlockReply(b, Zero()).(op := Adv, hash := h(ItemAt(ext, b, 0))))
      else Some(BlockReply(ItemAt(ext, b, |q| - 1), h(ItemAt(ext, b, |q|))))
  }

  /** One turn that asks for `x` and is told that `y` is its child. */
  lemma BusyTurn(env: Env, s: Sink, ws: seq<Hash>, x: seq<byte>, y: Hash)
    requires BlockSized(x) && s.outcome == Running && s.ws == ws + [env.h(x)] && |ws| < WS_MAX
    requires env.h(x) !in Index(env.h, s.objs) && env.peer(s.wants + [env.h(x)]) == Some(BlockReply(x, y))
    requires y !in Index(env.h, Install(env, s.objs, x))
    ensures var s' := Round(env, s);
      && s'.outcome == Running && s'.ws == ws + [y] && s'.objs == Install(env, s.objs, x)
      && s'.wants == s.wants + [env.h(x)]
  {
    BlockReplyIs(x, y);
    hide BlockReply, Index, Install, Hints;
    var objs := Install(env, s.objs, x);
    assert s.ws[|s.ws| - 1] == env.h(x) && s.ws[..|s.ws| - 1] == ws;
    PushOne(Index(env.h, objs), ws, y);
  }

  lemma PushOne(resident: map<Hash, seq<byte>>, ws: seq<Hash>, y: Hash)
    requires y !in resident && |ws| < WS_MAX
    ensures PushMissing(resident, ws, [y]) == ws + [y]
  {
    assert [y][..0] == [];
    PushNone(resident, ws);
  }

  /** A refused block with its own address as hint: the same request, for ever. */
  lemma {:induction false} RefusedForever(env: Env, s: Sink, ws: seq<Hash>, b: seq<byte>, n: nat)
    requires s.outcome == Running && s.ws == ws + [env.h(b)] && |ws| < WS_MAX && Refused(env, s.objs, b)
    requires forall q: seq<Hash> | q != [] :: env.peer(q) == Some(BlockReply(b, env.h(b)))
    ensures var s' := Rounds(env, s, n); s'.outcome == Running && s'.ws == s.ws && s'.objs == s.objs
  {
    hide BlockReply, Round, Fits, Index;
    if n > 0 {
      RefusedForever(env, s, ws, b, n - 1);
      BusyTurn(env, Rounds(env, s, n - 1), ws, b, env.h(b));
    }
  }

  // ----- the busy run

  /** The store after `n` turns. */
  function Filled(objs: seq<seq<byte>>, ext: seq<seq<byte>>, n: nat): seq<seq<byte>>
  {
    objs + if n < |ext| then ext[..n] else ext
  }

  /** The next block is new, and is stored exactly while it is one of `ext`. */
  lemma NextBlock(env: Env, objs: seq<seq<byte>>, ext: seq<seq<byte>>, b: seq<byte>, n: nat)
    requires FillsUp(env, objs, ext) && Refused(env, objs + ext, b)
    ensures var x, cur := ItemAt(ext, b, n), Filled(objs, ext, n);
      && BlockSized(x) && env.h(x) !in Index(env.h, cur)
      && Install(env, cur, x) == Filled(objs, ext, n + 1)
  {
    hide Fits, Index;
    if n < |ext| {
      assert Taken(env, objs + ext[..n], ext[n]);
      assert objs + ext[..n] + [ext[n]] == objs + ext[..n + 1];
      assert n + 1 == |ext| ==> ext[..n + 1] == ext;
    }
  }

  lemma SizedOnes(env: Env, objs: seq<seq<byte>>, ext: seq<seq<byte>>, b: seq<byte>)
    requires FillsUp(env, objs, ext) && Refused(env, objs + ext, b)
    ensures AllSized(ext, b)
  {
    hide Fits, Index;
    forall i | 0 <= i < |ext|
      ensures BlockSized(ext[i])
    {
      assert Taken(env, objs + ext[..i], ext[i]);
    }
  }

  lemma {:induction false} BusyRun(env: Env, objs: seq<seq<byte>>, ext: seq<seq<byte>>, b: seq<byte>, n: nat)
    requires FillsUp(env, objs, ext) && Refused(env, objs + ext, b) && AllSized(ext, b)
    requires env.peer == Busy(env.h, ext, b)
    ensures var s := Rounds(env, Begin(env, objs), n);
      && s.outcome == Running && s.objs == Filled(objs, ext, n)
      && s.ws == [env.h(ItemAt(ext, b, n))] && |s.wants| == n
  {
    hide BlockReply, Round, FillsUp, Refused, Install, Index, ItemAt;
    if n == 0 {
      NothingFilled(objs, ext);
    } else {
      BusyRun(env, objs, ext, b, n - 1);
      var s, x, y := Rounds(env, Begin(env, objs), n - 1), ItemAt(ext, b, n - 1), env.h(ItemAt(ext, b, n));
      NextBlock(env, objs, ext, b, n - 1);
      NextBlock(env, objs, ext, b, n);
      hide Filled, Begin;
      assert s.ws == [] + [env.h(x)];
      BusyAnswers(env.h, ext, b, s.wants + [env.h(x)]);
      BusyTurn(env, s, [], x, y);
      assert [] + [y] == [y];
    }
  }

  lemma NothingFilled(objs: seq<seq<byte>>, ext: seq<seq<byte>>)
    ensures Filled(objs, ext, 0) == objs
  {
  }

  lemma BusyAnswers(h: HashFn, ext: seq<seq<byte>>, b: seq<byte>, q: seq<Hash>)
    requires AllSized(ext, b) && q != []
    ensures BlockSized(ItemAt(ext, b, |q| - 1))
    ensures Busy(h, ext, b)(q) == Some(BlockReply(ItemAt(ext, b, |q| - 1), h(ItemAt(ext, b, |q|))))
  {
    hide BlockReply;
  }

  // ----- otherwise it ends

  /** Every block that was accepted is stored. */
  ghost predicate NoneRefused(env: Env, objs0: seq<seq<byte>>, objs: seq<seq<byte>>, blocks: nat)
  {
    exists ext :: FillsUp(env, objs0, ext) && objs == objs0 + ext && blocks == |ext|
  }

  lemma NoneRefusedCount(env: Env, objs0: seq<seq<byte>>, objs: seq<seq<byte>>, blocks: nat)
    requires NoneRefused(env, objs0, objs, blocks)
    ensures |objs| == |objs0| + blocks
  {
    hide FillsUp;
  }

  lemma FillsOne(env: Env, objs: seq<seq<byte>>, ext: seq<seq<byte>>, b: seq<byte>)
    requires FillsUp(env, objs, ext) && Taken(env, objs + ext, b)
    ensures FillsUp(env, objs, ext + [b])
  {
    hide Taken;
    var more := ext + [b];
    forall i | 0 <= i < |more|
      ensures Taken(env, objs + more[..i], more[i])
    {
      assert more[..i] == ext[..i];
      assert i == |ext| ==> ext[..i] == ext;
    }
  }

  lemma NewBlockFits(env: Env, objs0: seq<seq<byte>>, ext: seq<seq<byte>>, b: seq<byte>)
    requires !Saturable(env, objs0) && FillsUp(env, objs0, ext)
    requires BlockSized(b) && env.h(b) !in Index(env.h, objs0 + ext)
    ensures Fits(env, objs0 + ext, b)
  {
    hide FillsUp, Fits, Index;
    var refused := Refused(env, objs0 + ext, b);
  }

  lemma BlockIsStored(env: Env, objs0: seq<seq<byte>>, objs: seq<seq<byte>>, blocks: nat, b: seq<byte>)
    requires NoneRefused(env, objs0, objs, blocks) && !Saturable(env, objs0)
    requires BlockSized(b) && env.h(b) !in Index(env.h, objs)
    ensures NoneRefused(env, objs0, Install(env, objs, b), blocks + 1)
  {
    hide FillsUp, Fits, Index, Saturable;
    var ext :| FillsUp(env, objs0, ext) && objs == objs0 + ext && blocks == |ext|;
    NewBlockFits(env, objs0, ext, b);
    FillsOne(env, objs0, ext, b);
    assert objs + [b] == objs0 + (ext + [b]);
  }

  /** A turn leaves the store alone, or puts a new block. */
  lemma TurnPuts(env: Env, s: Sink) returns (b: seq<byte>)
    ensures var s' := Round(env, s);
      || (s'.objs == s.objs && s'.blocks == s.blocks)
      || (&& BlockSized(b) && env.h(b) !in Index(env.h, s.objs)
          && s'.objs == Install(env, s.objs, b) && s'.blocks == s.blocks + 1)
  {
    hide Install, Index, PushMissing;
    b := [];
    if s.ws != [] {
      var reply := env.peer(s.wants + [s.ws[|s.ws| - 1]]);
      if reply.Some? && reply.value.len <= MAX_BLOCK {
        b := reply.value.pay[..reply.value.len];
      }
    }
  }

  lemma NoneYet(env: Env, objs0: seq<seq<byte>>)
    ensures NoneRefused(env, objs0, objs0, 0)
  {
    assert FillsUp(env, objs0, []) && objs0 == objs0 + [];
  }

  lemma {:induction false} RunNoneRefused(env: Env, objs0: seq<seq<byte>>, n: nat)
    requires !Saturable(env, objs0)
    ensures var s := Rounds(env, Begin(env, objs0), n); NoneRefused(env, objs0, s.objs, s.blocks)
  {
    hide Round, Saturable, Rounds, Install, Index, NoneRefused;
    var s0 := Begin(env, objs0);
    if n == 0 {
      RoundsNone(env, s0);
      NoneYet(env, objs0);
    } else {
      hide Begin;
      RunNoneRefused(env, objs0, n - 1);
      var s := Rounds(env, s0, n - 1);
      RoundsStep(env, s0, n - 1);
      var b := TurnPuts(env, s);
      if Round(env, s).blocks != s.blocks {
        BlockIsStored(env, objs0, s.objs, s.blocks, b);
      }
    }
  }

  /** The walk with this peer comes to an end. */
  ghost predicate Ends(env: Env, objs: seq<seq<byte>>, peer: Peer)
  {
    var e := env.(peer := peer);
    exists n: nat :: Rounds(e, Begin(e, objs), n).outcome != Running
  }

  lemma SamePlace(env: Env, objs: seq<seq<byte>>, peer: Peer)
    ensures Saturable(env.(peer := peer), objs) == Saturable(env, objs)
  {
    hide Index, Flatten;
    var e := env.(peer := peer);
    forall o, x
      ensures Taken(e, o, x) == Taken(env, o, x) && Refused(e, o, x) == Refused(env, o, x)
    {
    }
    hide Taken, Refused;
    forall ext
      ensures FillsUp(e, objs, ext) == FillsUp(env, objs, ext)
    {
    }
    hide FillsUp;
  }

  /** The synchronization ends, whatever is answered, exactly if the store cannot be filled so
      far that a new block is refused. */
  lemma EndsIff(env: Env, objs: seq<seq<byte>>)
    requires Distinct(env.h, objs) && |objs| <= env.slots && |Flatten(objs)| <= env.arena
    ensures (forall peer: Peer :: Ends(env, objs, peer)) <==> !Saturable(env, objs)
  {
    hide Saturable, Ends;
    if Saturable(env, objs) {
      SomePeerForever(env, objs);
    } else {
      forall peer: Peer
        ensures Ends(env, objs, peer)
      {
        EndsHere(env, objs, peer);
      }
    }
  }

  lemma EndsHere(env: Env, objs: seq<seq<byte>>, peer: Peer)
    requires Distinct(env.h, objs) && |objs| <= env.slots && |Flatten(objs)| <= env.arena
    requires !Saturable(env, objs)
    ensures Ends(env, objs, peer)
  {
    hide Saturable, Rounds, Begin, Flatten, Distinct;
    var e, n := env.(peer := peer), 2 + 16 * (env.slots - |objs|);
    SamePlace(env, objs, peer);
    WalkEnds(e, objs);
    RunNoneRefused(e, objs, n);
    hide NoneRefused;
    var s := Rounds(e, Begin(e, objs), n);
    NoneRefusedCount(e, objs, s.objs, s.blocks);
    assert s.outcome != Running;
  }

  lemma SomePeerForever(env: Env, objs: seq<seq<byte>>)
    requires Saturable(env, objs)
    ensures exists peer: Peer :: !Ends(env, objs, peer)
  {
    var ext, b :| FillsUp(env, objs, ext) && Refused(env, objs + ext, b);
    hide FillsUp, Refused, Rounds, Begin;
    SizedOnes(env, objs, ext, b);
    var peer := Busy(env.h, ext, b);
    BusyForever(env, objs, ext, b);
    assert !Ends(env, objs, peer);
  }

  lemma BusyForever(env: Env, objs: seq<seq<byte>>, ext: seq<seq<byte>>, b: seq<byte>)
    requires FillsUp(env, objs, ext) && Refused(env, objs + ext, b) && AllSized(ext, b)
    ensures var e := env.(peer := Busy(env.h, ext, b));
      forall n: nat :: Rounds(e, Begin(e, objs), n).outcome == Running
  {
    hide Rounds, Begin, Filled, ItemAt;
    var e := env.(peer := Busy(env.h, ext, b));
    SameFilling(env, e, objs, ext, b);
    forall n: nat
      ensures Rounds(e, Begin(e, objs), n).outcome == Running
    {
      BusyRun(e, objs, ext, b, n);
    }
  }

  lemma SameFilling(env: Env, e: Env, objs: seq<seq<byte>>, ext: seq<seq<byte>>, b: seq<byte>)
    requires e == env.(peer := e.peer) && FillsUp(env, objs, ext) && Refused(env, objs + ext, b)
    ensures FillsUp(e, objs, ext) && Refused(e, objs + ext, b)
  {
    hide Index, Flatten;
    forall i | 0 <= i < |ext|
      ensures Taken(e, objs + ext[..i], ext[i])
    {
      assert Taken(env, objs + ext[..i], ext[i]);
    }
  }

  // ----- a full store

  ghost predicate OverInTwo(env: Env, objs: seq<seq<byte>>, peer: Peer)
  {
    var e := env.(peer := peer);
    Rounds(e, Begin(e, objs), 2).outcome != Running
  }

  /** With every slot taken: over after two turns, whatever is answered, exactly if every block
      hashes to a resident address. */
  lemma FullStoreIff(env: Env, objs: seq<seq<byte>>)
    requires |objs| == env.slots
    ensures (forall peer: Peer :: OverInTwo(env, objs, peer)) <==>
            forall b | BlockSized(b) :: env.h(b) in Index(env.h, objs)
  {
    hide OverInTwo, Index;
    if forall b | BlockSized(b) :: env.h(b) in Index(env.h, objs) {
      forall peer: Peer
        ensures OverInTwo(env, objs, peer)
      {
        TwoTurns(env, objs, peer);
      }
    } else {
      var b :| BlockSized(b) && env.h(b) !in Index(env.h, objs);
      FullRefuses(env, objs, b);
      assert !OverInTwo(env, objs, Busy(env.h, [], b));
    }
  }

  lemma TwoTurns(env: Env, objs: seq<seq<byte>>, peer: Peer)
    requires forall b | BlockSized(b) :: env.h(b) in Index(env.h, objs)
    ensures OverInTwo(env, objs, peer)
  {
    hide Index, Install, PushMissing, Hints;
    var e := env.(peer := peer);
    var s0 := Begin(e, objs);
    RoundsNone(e, s0);
    RoundsStep(e, s0, 0);
    RoundsStep(e, s0, 1);
    var s1 := Round(e, s0);
    assert s1.outcome == Running ==> s1.ws == [];
    hide Rounds;
  }

  lemma FullRefuses(env: Env, objs: seq<seq<byte>>, b: seq<byte>)
    requires |objs| == env.slots && BlockSized(b) && env.h(b) !in Index(env.h, objs)
    ensures AllSized([], b) && !OverInTwo(env, objs, Busy(env.h, [], b))
  {
    hide Index, Flatten, Rounds, Begin;
    assert objs + [] == objs;
    assert FillsUp(env, objs, []) && Refused(env, objs + [], b);
    BusyForever(env, objs, [], b);
  }

  /** An empty store without a slot, one leaf with its own address as child: for ever. */
  lemma LeafForever(h: HashFn, n: nat)
    ensures AllSized([], [LEAF])
    ensures var e := Env(h, 0, 0, Busy(h, [], [LEAF])); Rounds(e, Begin(e, []), n).outcome == Running
  {
    hide Rounds, Begin, Busy;
    var e := Env(h, 0, 0, Busy(h, [], [LEAF]));
    var none: seq<seq<byte>> := [];
    assert Index(h, none) == map[] && none + none == none;
    assert FillsUp(e, none, none) && Refused(e, none + none, [LEAF]);
    BusyForever(e, none, none, [LEAF]);
  }
}

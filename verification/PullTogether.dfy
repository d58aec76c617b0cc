/** The two sides together: the source's own responses as the peer of the walk, and what
    happens when the store is too small. */
module PullTogether {
  import opened Bits
  import opened ObjectStore
  import opened Sls
  import opened PullSync
  import opened PullHonest

  // ----- the source as peer

  /** The responses of `a_serve`. */
  function SourcePeer(a: Graph, root: Hash, shared: Reply): Peer
  {
    (q: seq<Hash>) => Some(AnswersTo(a, root, shared, q))
  }

  lemma WritersServable(h: HashFn, a: Graph, ht: Rank)
    requires SourceOk(h, a, ht)
    ensures forall x | x in a :: Servable(a[x])
  {
    hide WellFormed, RankedKids, Servable;
    AllServable(a);
  }

  /** The source is honest. */
  lemma SourceIsHonest(w: World, shared: Reply, n: nat)
    requires SourceOk(w.env.h, w.a, w.ht) && w.env.peer == SourcePeer(w.a, w.root, shared)
    ensures AnswersUpTo(w, n)
  {
    WritersServable(w.env.h, w.a, w.ht);
    hide WellFormed, RankedKids, AnswersWant, Answer, Servable;
    var peer := w.env.peer;
    forall q: seq<Hash> | 0 < |q| <= n
      ensures peer(q).Some? && AnswersWant(w.a, q[|q| - 1], peer(q).value)
    {
      AnswerIsWhole(w.a, AnswersTo(w.a, w.root, shared, q[..|q| - 1]), q[|q| - 1]);
    }
  }

  /** One synchronization, both sides run: the source served exactly the requests that were
      made, the sink read exactly its responses, and bytes sent, bytes received and the size
      of what was missing are the same number. */
  method PullFromSource(A: Source, P: Puller, root: Hash, ghost w: World) returns (replies: seq<Reply>)
    requires A.S.Valid() && P.S.Valid() && P.ws.Length == WS_MAX
    requires A.S != P.S && A.S.arena != P.S.arena && A.S.index != P.S.index
    requires w.a == A.S.Contents() && w.root == root && w.env == P.Env0() && w.objs0 == P.S.Objs
    requires P.peer == SourcePeer(w.a, root, A.rsp)
    requires Setting(w) && w.ht(root) <= 273 && Room(w)
    modifies A, P, P.ws, P.S, P.S.arena, P.S.index
    ensures P.S.Valid() && P.outcome == Done && Complete(w, P.S.Objs)
    ensures A.bytesSent == P.received == Total(w.a, Lacking(w))
    ensures |replies| == 1 + |P.wants| && forall i | 0 <= i <= |P.wants| :: P.peer(P.wants[..i]) == Some(replies[i])
    ensures NoDup(P.wants) && forall x :: x in P.wants <==> x in Lacking(w)
  {
    hide Lacking, Room, Store.Valid, Total, Index, Complete, Sent, AnswersTo, AnswersWant, Setting, Servable;
    hide Honest, Closure, ClosedIn, SourcePeer;
    ghost var shared := A.rsp;
    Ready(w, shared);
    PullFromHonest(P, w);
    replies := A.AServe(root, P.wants);
    RepliesAreThose(w.a, root, shared, P.wants, replies);
  }

  lemma Ready(w: World, shared: Reply)
    requires Setting(w) && w.ht(w.root) <= 273 && w.env.peer == SourcePeer(w.a, w.root, shared)
    ensures Honest(w) && Lacking(w) <= w.a.Keys
    ensures forall x | x in w.a :: Servable(w.a[x])
  {
    assert SourceOk(w.env.h, w.a, w.ht);
    SourceIsHonest(w, shared, |Lacking(w)|);
    WritersServable(w.env.h, w.a, w.ht);
    LackingInSource(w);
    hide Lacking, AnswersUpTo, Setting, Servable;
  }

  lemma RepliesAreThose(a: Graph, root: Hash, shared: Reply, wants: seq<Hash>, replies: seq<Reply>)
    requires |replies| == 1 + |wants|
    requires forall i | 0 <= i <= |wants| :: replies[i] == AnswersTo(a, root, shared, wants[..i])
    ensures forall i | 0 <= i <= |wants| :: SourcePeer(a, root, shared)(wants[..i]) == Some(replies[i])
  {
    hide AnswersTo;
  }

  // ----- the walk ends with or without room

  function Pow17(n: nat): nat
  {
    if n == 0 then 1 else 17 * Pow17(n - 1)
  }

  lemma {:induction false} Pow17Grows(m: nat, n: nat)
    requires m <= n
    ensures 1 <= Pow17(m) <= Pow17(n)
  {
    if m < n {
      Pow17Grows(m, n - 1);
    } else if n > 0 {
      Pow17Grows(m - 1, n - 1);
    }
  }

  /** The load of a stack: an entry weighs more than sixteen of any lower rank. */
  function Load(ht: Rank, ws: seq<Hash>): nat
  {
    if ws == [] then 0 else Load(ht, ws[..|ws| - 1]) + Pow17(ht(ws[|ws| - 1]))
  }

  lemma LoadPush(ht: Rank, ws: seq<Hash>, x: Hash)
    ensures Load(ht, ws + [x]) == Load(ht, ws) + Pow17(ht(x))
  {
    assert (ws + [x])[..|ws|] == ws;
  }

  lemma {:induction false} PushMembers(resident: Graph, ws: seq<Hash>, kids: seq<Hash>)
    ensures forall x | x in PushMissing(resident, ws, kids) :: x in ws || x in kids
  {
    if kids != [] {
      var init, kid := kids[..|kids| - 1], kids[|kids| - 1];
      assert kids == init + [kid];
      PushMembers(resident, ws, init);
    }
  }

  lemma {:induction false} PushLoad(ht: Rank, resident: Graph, ws: seq<Hash>, kids: seq<Hash>, b: nat)
    requires forall k | k in kids :: Pow17(ht(k)) <= b
    ensures Load(ht, PushMissing(resident, ws, kids)) <= Load(ht, ws) + |kids| * b
  {
    hide Load, Pow17;
    if kids != [] {
      var init, kid := kids[..|kids| - 1], kids[|kids| - 1];
      PushLoad(ht, resident, ws, init, b);
      LoadPush(ht, PushMissing(resident, ws, init), kid);
      OneMore(|init|, b);
    }
  }

  lemma OneMore(n: nat, b: nat)
    ensures (n + 1) * b == n * b + b
  {
  }

  lemma RanksBelow(w: World, x: Hash)
    requires SourceOk(w.env.h, w.a, w.ht) && x in w.a && Kids(w.a[x]) != []
    ensures w.ht(x) >= 1 && |Kids(w.a[x])| <= 16
    ensures forall k | k in Kids(w.a[x]) :: k in w.a && Pow17(w.ht(k)) <= Pow17(w.ht(x) - 1)
  {
    assert RankedKids(w.a, w.ht, x);
    FewKids(w.a[x]);
    hide Kids, Pow17, SourceOk, WellFormed;
    var kids := Kids(w.a[x]);
    assert kids[0] in kids;
    forall k | k in kids
      ensures k in w.a && Pow17(w.ht(k)) <= Pow17(w.ht(x) - 1)
    {
      Pow17Grows(w.ht(k), w.ht(x) - 1);
    }
  }

  lemma Pow17Step(n: nat)
    requires n >= 1
    ensures Pow17(n) == 17 * Pow17(n - 1) && Pow17(n - 1) >= 1
  {
    Pow17Grows(n - 1, n - 1);
  }

  /** Replacing an entry by its children makes the load smaller. */
  lemma KidsWeighLess(w: World, resident: Graph, ws: seq<Hash>, x: Hash)
    requires SourceOk(w.env.h, w.a, w.ht) && x in w.a
    ensures Load(w.ht, PushMissing(resident, ws, Kids(w.a[x]))) < Load(w.ht, ws) + Pow17(w.ht(x))
    ensures forall y | y in PushMissing(resident, ws, Kids(w.a[x])) :: y in ws || y in w.a
  {
    hide Kids, PushMissing, Load, Pow17, SourceOk;
    var kids := Kids(w.a[x]);
    PushMembers(resident, ws, kids);
    if kids == [] {
      PushLoad(w.ht, resident, ws, kids, 0);
      Pow17Grows(0, w.ht(x));
      Pow17Zero();
    } else {
      RanksBelow(w, x);
      var b := Pow17(w.ht(x) - 1);
      PushLoad(w.ht, resident, ws, kids, b);
      Pow17Step(w.ht(x));
      SixteenOfSeventeen(|kids|, b);
    }
  }

  lemma Pow17Zero()
    ensures Pow17(0) == 1
  {
  }

  lemma SixteenOfSeventeen(n: nat, b: nat)
    requires n <= 16 && b >= 1
    ensures n * b < 17 * b
  {
  }

  ghost predicate Ending(w: World, s: Sink)
  {
    && (s.outcome == Running || s.outcome == Done) && s.rejected == 0
    && (forall x | x in s.ws :: x in w.a)
    && Agree(w.a, Index(w.env.h, s.objs))
  }

  /** An honest block, installed or refused. */
  lemma AcceptHonest(env: Env, s: Sink, a: Graph, x: Hash, r: Reply)
    requires x in a && env.h(a[x]) == x && WellFormed(a[x]) && AnswersWant(a, x, r)
    ensures var objs := Install(env, s.objs, a[x]);
      Accept(env, s, x, r) ==
      s.(objs := objs, ws := PushMissing(Index(env.h, objs), s.ws, Kids(a[x])),
         received := s.received + |a[x]|, blocks := s.blocks + 1)
  {
    FewKids(a[x]);
    HintsAreKids(a[x]);
    hide Kids, HintKids, HintCount, Servable, Index, Install, PushMissing;
    assert Hints(r) == Kids(a[x]);
  }

  lemma AgreeInstalled(env: Env, a: Graph, objs: seq<seq<byte>>, x: Hash)
    requires x in a && env.h(a[x]) == x && Agree(a, Index(env.h, objs))
    ensures Agree(a, Index(env.h, Install(env, objs, a[x])))
  {
    hide Index, Fits;
    IndexAppend(env.h, objs, a[x]);
    AgreeAfter(a, Index(env.h, objs), x);
  }

  lemma AskTurn(w: World, s: Sink, ws: seq<Hash>, x: Hash)
    requires Setting(w) && x in w.a && s.outcome == Running && s.ws == ws + [x] && x !in Index(w.env.h, s.objs)
    requires forall q: seq<Hash> | q != [] :: w.env.peer(q).Some? && AnswersWant(w.a, q[|q| - 1], w.env.peer(q).value)
    ensures var objs := Install(w.env, s.objs, w.a[x]);
      Round(w.env, s) ==
      s.(objs := objs, ws := PushMissing(Index(w.env.h, objs), ws, Kids(w.a[x])), wants := s.wants + [x],
         received := s.received + |w.a[x]|, blocks := s.blocks + 1)
  {
    hide Index, Install, PushMissing, Kids, Accept, WellFormed, AnswersWant, Setting;
    SettingFacts(w, x);
    var q := s.wants + [x];
    assert q[|q| - 1] == x && s.ws[|s.ws| - 1] == x && s.ws[..|s.ws| - 1] == ws;
    AcceptHonest(w.env, s.(ws := ws, wants := q), w.a, x, w.env.peer(q).value);
  }

  lemma AskEnds(w: World, s: Sink, ws: seq<Hash>, x: Hash)
    requires Setting(w) && Ending(w, s) && s.outcome == Running
    requires s.ws == ws + [x] && x in w.a && x !in Index(w.env.h, s.objs)
    requires forall q: seq<Hash> | q != [] :: w.env.peer(q).Some? && AnswersWant(w.a, q[|q| - 1], w.env.peer(q).value)
    ensures Ending(w, Round(w.env, s)) && Load(w.ht, Round(w.env, s).ws) < Load(w.ht, s.ws)
  {
    hide Round, Setting, Agree, Index, Install, PushMissing, Load, Kids, SourceOk, Pow17, AnswersWant;
    SettingFacts(w, x);
    AskTurn(w, s, ws, x);
    AgreeInstalled(w.env, w.a, s.objs, x);
    LoadPush(w.ht, ws, x);
    KidsWeighLess(w, Index(w.env.h, Install(w.env, s.objs, w.a[x])), ws, x);
    assert forall y | y in ws :: y in s.ws;
  }

  /** Every turn of the walk takes load off the stack, whatever the store does. */
  lemma TurnEnds(w: World, s: Sink)
    requires Setting(w) && Ending(w, s)
    requires forall q: seq<Hash> | q != [] :: w.env.peer(q).Some? && AnswersWant(w.a, q[|q| - 1], w.env.peer(q).value)
    ensures var s' := Round(w.env, s);
      && Ending(w, s')
      && (s.outcome == Running && s'.outcome == Running ==> Load(w.ht, s'.ws) < Load(w.ht, s.ws))
  {
    hide Setting, Agree, Index, Load, Pow17, AnswersWant, Accept;
    if s.outcome == Running && s.ws != [] {
      var ws, x := s.ws[..|s.ws| - 1], s.ws[|s.ws| - 1];
      assert s.ws == ws + [x];
      if x !in Index(w.env.h, s.objs) {
        hide Round, Ending;
        EntryInSource(w, s, x);
        AskEnds(w, s, ws, x);
      } else {
        LoadPush(w.ht, ws, x);
        Pow17Grows(0, w.ht(x));
        Pow17Zero();
      }
    }
  }

  lemma EntryInSource(w: World, s: Sink, x: Hash)
    requires Ending(w, s) && x in s.ws
    ensures x in w.a
  {
  }

  lemma SettingFacts(w: World, x: Hash)
    requires Setting(w) && x in w.a
    ensures SourceOk(w.env.h, w.a, w.ht) && w.env.h(w.a[x]) == x && WellFormed(w.a[x])
  {
    hide Index, Agree, Distinct, WellFormed, RankedKids;
  }

  lemma {:induction false} RunEnds(w: World, n: nat)
    requires Setting(w)
    requires AnswersUpTo(w, 0)
    requires forall q: seq<Hash> | q != [] :: w.env.peer(q).Some? && AnswersWant(w.a, q[|q| - 1], w.env.peer(q).value)
    ensures var s := Rounds(w.env, Begin(w.env, w.objs0), n);
      Ending(w, s) && (s.outcome == Running ==> Load(w.ht, s.ws) + n <= Pow17(w.ht(w.root)))
  {
    hide Round, Rounds, AnswersWant, Load, Begin, Setting, Ending, AnswersUpTo, Pow17;
    var s0 := Begin(w.env, w.objs0);
    if n == 0 {
      RoundsNone(w.env, s0);
      StartEnds(w);
    } else {
      var s := Rounds(w.env, s0, n - 1);
      RunEnds(w, n - 1);
      RoundsStep(w.env, s0, n - 1);
      TurnEnds(w, s);
      if s.outcome != Running {
        StoppedStays(w.env, s);
      }
    }
  }

  lemma StartEnds(w: World)
    requires Setting(w) && AnswersUpTo(w, 0)
    ensures var s := Begin(w.env, w.objs0);
      Ending(w, s) && Load(w.ht, s.ws) == Pow17(w.ht(w.root))
  {
    hide AnswersWant, SourceOk, Agree, Index, Distinct, Load;
    StartLoad(w);
  }

  lemma StoppedStays(env: Env, s: Sink)
    requires s.outcome != Running
    ensures Round(env, s) == s
  {
  }

  lemma StartLoad(w: World)
    ensures Load(w.ht, [w.root]) == Pow17(w.ht(w.root))
  {
    LoadPush(w.ht, [], w.root);
    assert [] + [w.root] == [w.root];
  }

  /** Answers every request, however many. */
  ghost predicate AnswersAll(w: World)
  {
    forall n: nat :: AnswersUpTo(w, n)
  }

  lemma AnswersEach(w: World)
    requires AnswersAll(w)
    ensures forall q: seq<Hash> | q != [] :: w.env.peer(q).Some? && AnswersWant(w.a, q[|q| - 1], w.env.peer(q).value)
  {
    hide AnswersWant;
    forall q: seq<Hash> | q != []
      ensures w.env.peer(q).Some? && AnswersWant(w.a, q[|q| - 1], w.env.peer(q).value)
    {
      assert AnswersUpTo(w, |q|);
    }
  }

  /** Against an honest source the walk ends as done, of whatever height the graph and however
      small the store. */
  lemma AlwaysDone(w: World, n: nat)
    requires Setting(w) && AnswersAll(w) && n > Pow17(w.ht(w.root))
    ensures Rounds(w.env, Begin(w.env, w.objs0), n).outcome == Done
    ensures Agree(w.a, Index(w.env.h, Rounds(w.env, Begin(w.env, w.objs0), n).objs))
  {
    assert AnswersUpTo(w, 0);
    AnswersEach(w);
    hide Setting, AnswersUpTo, AnswersWant, Load, Agree, Rounds, Begin;
    RunEnds(w, n);
  }

  /** The walk ignores refused puts and reports completion either way: what it got to is there
      exactly when there was room for it. */
  lemma CompleteIffRoom(w: World, n: nat)
    requires Setting(w) && AnswersAll(w) && w.ht(w.root) <= 273 && n > Pow17(w.ht(w.root))
    requires |w.objs0| <= w.env.slots && |Flatten(w.objs0)| <= w.env.arena
    ensures var s := Rounds(w.env, Begin(w.env, w.objs0), n);
      s.outcome == Done && (Complete(w, s.objs) <==> Room(w))
  {
    assert Distinct(w.env.h, w.objs0) && AnswersUpTo(w, |Lacking(w)|);
    AlwaysDone(w, n);
    var s := Rounds(w.env, Begin(w.env, w.objs0), n);
    RunSafe(w.env, w.objs0, n);
    hide Setting, AnswersUpTo, Rounds, Begin, Complete, Room, Agree;
    if Room(w) {
      HonestSync(w, n);
    } else if Complete(w, s.objs) {
      CompleteNeedsRoom(w, s.objs);
    }
  }

  // ----- one leaf, no free slot

  const leaf: seq<byte> := [LEAF]

  function Blank(): Reply
  {
    Reply(Other, Zero(), 0, 0, seq<Hash>(128, _ => Zero()), seq(4096, _ => 0))
  }

  /** A source with one empty leaf and a sink without a slot. */
  function FullSink(h: HashFn): World
  {
    var a: Graph := map[h(leaf) := leaf];
    World(Env(h, 0, 0, q => Some(AnswersTo(a, h(leaf), Blank(), q))), [], a, _ => 0, h(leaf))
  }

  lemma FullSinkSetting(h: HashFn)
    ensures Setting(FullSink(h)) && AnswersAll(FullSink(h))
  {
    var w := FullSink(h);
    assert Kids(leaf) == [];
    assert WellFormed(leaf);
    HintsAreKids(leaf);
    hide Kids, WellFormed, AnswersWant, Answer, Servable;
    forall n: nat
      ensures AnswersUpTo(w, n)
    {
      forall q: seq<Hash> | 0 < |q| <= n
        ensures w.env.peer(q).Some? && AnswersWant(w.a, q[|q| - 1], w.env.peer(q).value)
      {
        AnswerIsWhole(w.a, AnswersTo(w.a, w.root, Blank(), q[..|q| - 1]), q[|q| - 1]);
      }
    }
  }

  /** The synchronization reports completion, and the root is not there. */
  lemma FullSinkReportsDone(h: HashFn)
    ensures var w := FullSink(h);
      var s := Rounds(w.env, Begin(w.env, w.objs0), 2);
      s.outcome == Done && !Complete(w, s.objs)
  {
    var w := FullSink(h);
    FullSinkSetting(h);
    assert Index(h, []) == map[] && Flatten([]) == [];
    LeafLacking(h);
    LackingInSource(w);
    Pow17Zero();
    hide Setting, AnswersAll, Rounds, Begin, Complete, Lacking, Total, Index, Flatten, Pow17;
    assert |Lacking(w)| >= 1 by {
      assert Lacking(w) != {};
    }
    CompleteIffRoom(w, 2);
  }

  lemma LeafLacking(h: HashFn)
    ensures h(leaf) in Lacking(FullSink(h))
  {
    hide Kids;
    var w := FullSink(h);
    assert BarePath(w.a, Index(h, w.objs0), [w.root], w.root, w.root);
  }
}

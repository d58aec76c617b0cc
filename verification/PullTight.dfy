/** The height up to which the pull synchronization is complete cannot be raised: a chain of
    274 nodes with fifteen leaves each loses the leaf at its end. */
module PullTight {
  import opened Bits
  import opened ObjectStore
  import opened Sls
  import opened PullSync
  import opened PullHonest
  import opened PullTogether

  // ----- the graph

  /** Two leaves, then nodes: fifteen times the first leaf, and the item before. */
  function Item(h: HashFn, i: nat): seq<byte>
  {
    if i == 0 then [LEAF] else if i == 1 then [LEAF, 1] else NodeBytes(Below(h, i))
  }

  function Below(h: HashFn, i: nat): (cs: seq<Hash>)
    requires i >= 2
    ensures |cs| == 16
    decreases i, 0
  {
    Leaves(h, 15) + [h(Item(h, i - 1))]
  }

  function Leaves(h: HashFn, n: nat): (cs: seq<Hash>)
    ensures |cs| == n
  {
    seq<Hash>(n, _ => h([LEAF]))
  }

  /** No collision among the first items. */
  predicate Clean(h: HashFn, n: nat)
  {
    forall i, j | 0 <= i < j <= n :: h(Item(h, i)) != h(Item(h, j))
  }

  function Items(h: HashFn, n: nat): Graph
  {
    if n == 0 then map[h(Item(h, 0)) := Item(h, 0)] else Items(h, n - 1)[h(Item(h, n)) := Item(h, n)]
  }

  lemma {:induction false} ItemAt(h: HashFn, n: nat, i: nat)
    requires Clean(h, n) && i <= n
    ensures h(Item(h, i)) in Items(h, n) && Items(h, n)[h(Item(h, i))] == Item(h, i)
  {
    hide Item;
    if i < n {
      ItemAt(h, n - 1, i);
    }
  }

  lemma {:induction false} OnlyItems(h: HashFn, n: nat, x: Hash) returns (i: nat)
    requires x in Items(h, n)
    ensures i <= n && x == h(Item(h, i))
  {
    hide Item;
    if x == h(Item(h, n)) {
      i := n;
    } else {
      i := OnlyItems(h, n - 1, x);
    }
  }

  /** The height of an item, read off its address. */
  function RankIn(h: HashFn, n: nat, x: Hash): nat
  {
    if n == 0 then 0 else if x == h(Item(h, n)) then n - 1 else RankIn(h, n - 1, x)
  }

  lemma {:induction false} RankOf(h: HashFn, n: nat, i: nat)
    requires Clean(h, n) && i <= n
    ensures RankIn(h, n, h(Item(h, i))) == if i == 0 then 0 else i - 1
  {
    hide Item;
    if i < n {
      RankOf(h, n - 1, i);
    }
  }

  lemma ItemKids(h: HashFn, i: nat)
    ensures WellFormed(Item(h, i))
    ensures Kids(Item(h, i)) == if i < 2 then [] else Below(h, i)
  {
    if i >= 2 {
      NodeRoundTrip(Below(h, i));
      hide Kids, NodeBytes;
    }
  }

  // ----- the world

  function Tall(h: HashFn, slots: nat, arena: nat): World
  {
    var a, root := Items(h, 275), h(Item(h, 275));
    World(Env(h, slots, arena, SourcePeer(a, root, Blank())), [], a, x => RankIn(h, 275, x), root)
  }

  lemma TallSizes(h: HashFn, slots: nat, arena: nat)
    ensures Tall(h, slots, arena).env.slots == slots && Tall(h, slots, arena).env.arena == arena
  {
    hide Item, Items, RankIn;
  }

  lemma TallItem(h: HashFn, w: World, i: nat)
    requires Clean(h, 275) && w == Tall(h, w.env.slots, w.env.arena) && i <= 275
    ensures h(Item(h, i)) in w.a && w.a[h(Item(h, i))] == Item(h, i)
    ensures w.ht(h(Item(h, i))) == if i == 0 then 0 else i - 1
  {
    hide Item, Items, RankIn, Clean;
    ItemAt(h, 275, i);
    RankOf(h, 275, i);
  }

  lemma TallRanked(h: HashFn, w: World, i: nat)
    requires Clean(h, 275) && w == Tall(h, w.env.slots, w.env.arena) && i <= 275
    ensures h(Item(h, i)) in w.a && RankedKids(w.a, w.ht, h(Item(h, i)))
  {
    hide Item, Clean, Kids, Tall;
    var x := h(Item(h, i));
    TallItem(h, w, i);
    ItemKids(h, i);
    LeafIsItem(h);
    if i >= 2 {
      TallItem(h, w, 0);
      TallItem(h, w, i - 1);
    }
  }

  lemma LeafIsItem(h: HashFn)
    ensures Item(h, 0) == [LEAF]
  {
  }

  lemma TallSetting(h: HashFn, slots: nat, arena: nat)
    requires Clean(h, 275)
    ensures Setting(Tall(h, slots, arena)) && AnswersAll(Tall(h, slots, arena))
  {
    var w := Tall(h, slots, arena);
    TallSizes(h, slots, arena);
    NothingResident(h);
    hide Item, Clean, Kids, Tall, WellFormed, RankedKids, AnswersUpTo, Index, SourcePeer;
    forall x | x in w.a
      ensures h(w.a[x]) == x && WellFormed(w.a[x]) && RankedKids(w.a, w.ht, x)
    {
      var i := TallMember(h, w, x);
      TallItem(h, w, i);
      ItemKids(h, i);
      TallRanked(h, w, i);
    }
    TallItem(h, w, 275);
    TallParts(h, w);
    assert SourceOk(h, w.a, w.ht);
    forall n: nat
      ensures AnswersUpTo(w, n)
    {
      SourceIsHonest(w, Blank(), n);
    }
  }

  lemma TallMember(h: HashFn, w: World, x: Hash) returns (i: nat)
    requires w == Tall(h, w.env.slots, w.env.arena) && x in w.a
    ensures i <= 275 && x == h(Item(h, i))
  {
    hide Item, Items;
    i := OnlyItems(h, 275, x);
  }

  lemma TallParts(h: HashFn, w: World)
    requires w == Tall(h, w.env.slots, w.env.arena)
    ensures w.env.h == h && w.objs0 == [] && w.root == h(Item(h, 275))
    ensures w.env.peer == SourcePeer(w.a, w.root, Blank())
  {
    hide Item, Items;
  }

  // ----- the walk down the chain

  /** The store holds nothing but items above `low`. */
  predicate OnlyAbove(h: HashFn, objs: seq<seq<byte>>, low: nat)
  {
    forall k | 0 <= k < |objs| :: IsAbove(h, objs[k], low)
  }

  predicate IsAbove(h: HashFn, b: seq<byte>, low: nat)
  {
    exists j :: low < j <= 275 && b == Item(h, j)
  }

  lemma AbsentBelow(h: HashFn, objs: seq<seq<byte>>, low: nat, i: nat)
    requires Clean(h, 275) && OnlyAbove(h, objs, low) && i <= low && i <= 275
    ensures h(Item(h, i)) !in Index(h, objs)
  {
    hide Item, Index;
    forall k | 0 <= k < |objs|
      ensures h(objs[k]) != h(Item(h, i))
    {
      assert IsAbove(h, objs[k], low);
      var j :| low < j <= 275 && objs[k] == Item(h, j);
      assert h(Item(h, i)) != h(Item(h, j));
    }
    NotResident(h, objs, h(Item(h, i)));
  }

  lemma NotResident(h: HashFn, objs: seq<seq<byte>>, x: Hash)
    requires forall k | 0 <= k < |objs| :: h(objs[k]) != x
    ensures x !in Index(h, objs)
  {
    hide Index;
    if x in Index(h, objs) {
      IndexInv(h, objs, x);
    }
  }

  lemma InstallAbove(env: Env, objs: seq<seq<byte>>, i: nat)
    requires OnlyAbove(env.h, objs, i) && 1 <= i <= 275
    ensures OnlyAbove(env.h, Install(env, objs, Item(env.h, i)), i - 1)
  {
    hide Item, Index, Fits;
    var b := Item(env.h, i);
    var more := Install(env, objs, b);
    forall k | 0 <= k < |more|
      ensures IsAbove(env.h, more[k], i - 1)
    {
      if k < |objs| {
        assert IsAbove(env.h, objs[k], i);
        var j :| i < j <= 275 && objs[k] == Item(env.h, j);
        assert i - 1 < j <= 275 && more[k] == Item(env.h, j);
      } else {
        assert i - 1 < i <= 275 && more[k] == Item(env.h, i);
      }
    }
  }

  lemma {:induction false} AbsentAll(resident: Graph, kids: seq<Hash>)
    requires forall k | k in kids :: k !in resident
    ensures Absent(resident, kids) == kids
  {
    if kids != [] {
      var init, last := kids[..|kids| - 1], kids[|kids| - 1];
      assert kids == init + [last];
      AbsentAll(resident, init);
    }
  }

  lemma LeavesJoin(h: HashFn, m: nat, x: Hash)
    ensures Leaves(h, m) + (Leaves(h, 15) + [x]) == Leaves(h, m + 15) + [x]
    ensures m == 4095 ==> (Leaves(h, m) + (Leaves(h, 15) + [x]))[..4096] == Leaves(h, 4096)
  {
  }

  /** After `d` turns: fifteen leaves for each node above, and the next node on top. */
  predicate Descending(h: HashFn, s: Sink, d: nat)
    requires d <= 275
  {
    && s.outcome == Running && s.ws == Leaves(h, 15 * d) + [h(Item(h, 275 - d))]
    && OnlyAbove(h, s.objs, 275 - d)
  }

  /** The stack after the node on top was replaced by its children. */
  lemma DescendStack(h: HashFn, resident: Graph, d: nat)
    requires d <= 273 && h([LEAF]) !in resident && h(Item(h, 274 - d)) !in resident
    ensures var ws := PushMissing(resident, Leaves(h, 15 * d), Below(h, 275 - d));
      ws == if d < 273 then Leaves(h, 15 * (d + 1)) + [h(Item(h, 274 - d))] else Leaves(h, 4096)
  {
    hide Item;
    var ws, kids := Leaves(h, 15 * d), Below(h, 275 - d);
    assert kids == Leaves(h, 15) + [h(Item(h, 274 - d))];
    AbsentAll(resident, kids);
    PushExact(resident, ws, kids);
    LeavesJoin(h, 15 * d, h(Item(h, 274 - d)));
  }

  lemma DescendTurn(h: HashFn, w: World, s: Sink, d: nat)
    requires Clean(h, 275) && w == Tall(h, w.env.slots, w.env.arena) && d <= 273 && Descending(h, s, d)
    requires Setting(w) && AnswersAll(w)
    ensures var s' := Round(w.env, s);
      && s'.outcome == Running && OnlyAbove(h, s'.objs, 274 - d)
      && s'.ws == if d < 273 then Leaves(h, 15 * (d + 1)) + [h(Item(h, 274 - d))] else Leaves(h, 4096)
  {
    hide Item, Clean, Kids, Tall, Leaves, Index, Round, Setting, AnswersAll, AnswersWant, Install, OnlyAbove, Below;
    hide PushMissing, WellFormed;
    var i := 275 - d;
    TallItem(h, w, i);
    TallParts(h, w);
    ItemKids(h, i);
    LeafIsItem(h);
    AbsentBelow(h, s.objs, i, i);
    AnswersEach(w);
    AskTurn(w, s, Leaves(h, 15 * d), h(Item(h, i)));
    InstallAbove(w.env, s.objs, i);
    var objs := Install(w.env, s.objs, Item(h, i));
    AbsentBelow(h, objs, i - 1, 0);
    AbsentBelow(h, objs, i - 1, i - 1);
    DescendStack(h, Index(h, objs), d);
  }

  lemma DescendStart(h: HashFn, w: World)
    requires w == Tall(h, w.env.slots, w.env.arena) && AnswersAll(w)
    ensures Descending(h, Rounds(w.env, Begin(w.env, w.objs0), 0), 0)
  {
    hide Tall, Item, AnswersWant, Rounds;
    TallParts(h, w);
    assert AnswersUpTo(w, 0);
    RoundsNone(w.env, Begin(w.env, w.objs0));
    assert Leaves(h, 0) == [];
  }

  lemma {:induction false} DescendRun(h: HashFn, w: World, d: nat)
    requires Clean(h, 275) && w == Tall(h, w.env.slots, w.env.arena) && d <= 273
    requires Setting(w) && AnswersAll(w)
    ensures Descending(h, Rounds(w.env, Begin(w.env, w.objs0), d), d)
  {
    var s0 := Begin(w.env, w.objs0);
    if d == 0 {
      hide *;
      DescendStart(h, w);
    } else {
      hide Clean, Tall, Setting, AnswersAll, Rounds, Begin, Round, Item, OnlyAbove, Leaves;
      DescendRun(h, w, d - 1);
      RoundsStep(w.env, s0, d - 1);
      DescendTurn(h, w, Rounds(w.env, s0, d - 1), d - 1);
    }
  }

  // ----- from there on the second leaf is lost

  /** Only the first leaf is asked for, and the second is not there. */
  predicate Lost(h: HashFn, s: Sink)
  {
    (forall x | x in s.ws :: x == h(Item(h, 0))) && AllOther(h, s.objs)
  }

  predicate AllOther(h: HashFn, objs: seq<seq<byte>>)
  {
    forall k | 0 <= k < |objs| :: IsOther(h, objs[k])
  }

  predicate IsOther(h: HashFn, b: seq<byte>)
  {
    exists j :: 0 <= j <= 275 && j != 1 && b == Item(h, j)
  }

  lemma AboveIsOther(h: HashFn, objs: seq<seq<byte>>)
    requires OnlyAbove(h, objs, 1)
    ensures AllOther(h, objs)
  {
    hide Item;
    forall k | 0 <= k < |objs|
      ensures IsOther(h, objs[k])
    {
      assert IsAbove(h, objs[k], 1);
      var j :| 1 < j <= 275 && objs[k] == Item(h, j);
      assert 0 <= j <= 275 && j != 1 && objs[k] == Item(h, j);
    }
  }

  lemma LostAbsent(h: HashFn, s: Sink)
    requires Clean(h, 275) && Lost(h, s)
    ensures h(Item(h, 1)) !in Index(h, s.objs)
  {
    hide Item, Index;
    forall k | 0 <= k < |s.objs|
      ensures h(s.objs[k]) != h(Item(h, 1))
    {
      assert IsOther(h, s.objs[k]);
      var j :| 0 <= j <= 275 && j != 1 && s.objs[k] == Item(h, j);
      assert h(Item(h, 1)) != h(Item(h, j));
    }
    NotResident(h, s.objs, h(Item(h, 1)));
  }

  /** A turn that asks for the first leaf pushes nothing. */
  lemma LeafTurn(h: HashFn, w: World, s: Sink, ws: seq<Hash>)
    requires Clean(h, 275) && w == Tall(h, w.env.slots, w.env.arena) && Setting(w) && AnswersAll(w)
    requires s.outcome == Running && s.ws == ws + [h(Item(h, 0))]
    requires h(Item(h, 0)) !in Index(h, s.objs)
    ensures var s' := Round(w.env, s); s'.ws == ws && s'.objs == Install(w.env, s.objs, Item(h, 0))
  {
    hide Item, Clean, Tall, Setting, AnswersAll, AnswersWant, Index, Kids, Round, Install, WellFormed, PushMissing;
    TallParts(h, w);
    TallItem(h, w, 0);
    ItemKids(h, 0);
    AnswersEach(w);
    AskTurn(w, s, ws, h(Item(h, 0)));
    PushNone(Index(h, Install(w.env, s.objs, Item(h, 0))), ws);
  }

  /** A turn on a stack whose top is resident, or that is over. */
  lemma QuietTurn(env: Env, s: Sink)
    requires s.outcome != Running || s.ws == [] || s.ws[|s.ws| - 1] in Index(env.h, s.objs)
    ensures Round(env, s).objs == s.objs && Round(env, s).ws <= s.ws
  {
    hide Index, Accept;
  }

  lemma StillLost(h: HashFn, s: Sink, s': Sink)
    requires Lost(h, s) && s'.ws <= s.ws && AllOther(h, s'.objs)
    ensures Lost(h, s')
  {
    hide Item, AllOther;
    assert forall x | x in s'.ws :: x in s.ws;
  }

  lemma LostTop(h: HashFn, s: Sink)
    requires Lost(h, s)
    ensures AllOther(h, s.objs) && (s.ws == [] || s.ws == s.ws[..|s.ws| - 1] + [h(Item(h, 0))])
  {
    hide Item, AllOther;
    assert s.ws != [] ==> s.ws[|s.ws| - 1] in s.ws;
  }

  lemma LostTurn(h: HashFn, w: World, s: Sink)
    requires Clean(h, 275) && w == Tall(h, w.env.slots, w.env.arena)
    requires Setting(w) && AnswersAll(w) && Lost(h, s)
    ensures Lost(h, Round(w.env, s))
  {
    hide Item, Clean, Tall, Setting, AnswersAll, Index, Install, AllOther, Round, Lost;
    TallParts(h, w);
    LostTop(h, s);
    if s.outcome != Running || s.ws == [] || s.ws[|s.ws| - 1] in Index(h, s.objs) {
      QuietTurn(w.env, s);
    } else {
      LeafTurn(h, w, s, s.ws[..|s.ws| - 1]);
      InstallOther(w.env, s.objs);
    }
    StillLost(h, s, Round(w.env, s));
  }

  lemma InstallOther(env: Env, objs: seq<seq<byte>>)
    requires AllOther(env.h, objs)
    ensures AllOther(env.h, Install(env, objs, Item(env.h, 0)))
  {
    hide Item, Index, Fits;
    assert IsOther(env.h, Item(env.h, 0)) by {
      assert 0 <= 0 <= 275 && 0 != 1 && Item(env.h, 0) == Item(env.h, 0);
    }
    hide IsOther;
  }

  lemma {:induction false} LostRun(h: HashFn, w: World, n: nat)
    requires Clean(h, 275) && w == Tall(h, w.env.slots, w.env.arena)
    requires Setting(w) && AnswersAll(w) && n >= 274
    ensures Lost(h, Rounds(w.env, Begin(w.env, w.objs0), n))
  {
    var s0 := Begin(w.env, w.objs0);
    hide Clean, Tall, Setting, AnswersAll, Rounds, Begin, Round, Item, OnlyAbove, IsOther;
    RoundsStep(w.env, s0, n - 1);
    if n == 274 {
      DescendRun(h, w, 273);
      DescendTurn(h, w, Rounds(w.env, s0, 273), 273);
      AboveIsOther(h, Rounds(w.env, s0, 274).objs);
      LeafIsItem(h);
    } else {
      hide Lost;
      LostRun(h, w, n - 1);
      LostTurn(h, w, Rounds(w.env, s0, n - 1));
    }
  }

  // ----- the result

  lemma ChainStep(h: HashFn, w: World, i: nat)
    requires Clean(h, 275) && w == Tall(h, w.env.slots, w.env.arena) && 2 <= i <= 275
    ensures h(Item(h, i)) in w.a && h(Item(h, i - 1)) in Kids(w.a[h(Item(h, i))])
  {
    hide Clean, Tall, Kids, Item;
    TallItem(h, w, i);
    ItemKids(h, i);
    assert Below(h, i)[15] == h(Item(h, i - 1));
  }

  /** The chain from the root to the second leaf. */
  function Chain(h: HashFn): (path: seq<Hash>)
    ensures |path| == 275
    ensures forall i | 0 <= i < 275 :: path[i] == h(Item(h, 275 - i))
  {
    seq<Hash>(275, i requires 0 <= i < 275 => h(Item(h, 275 - i)))
  }

  lemma ChainIsPath(h: HashFn, w: World)
    requires Clean(h, 275) && w == Tall(h, w.env.slots, w.env.arena)
    ensures IsPath(w.a, Chain(h))
  {
    hide Clean, Tall, Kids, Item, Chain;
    var path := Chain(h);
    forall k | 0 <= k < |path| - 1
      ensures path[k] in w.a && path[k + 1] in Kids(w.a[path[k]])
    {
      ChainStep(h, w, 275 - k);
    }
  }

  lemma SecondLeafLacking(h: HashFn, w: World)
    requires Clean(h, 275) && w == Tall(h, w.env.slots, w.env.arena)
    ensures h(Item(h, 1)) in Lacking(w)
  {
    hide Clean, Tall, IsPath, Item, Index, Fetchable;
    TallParts(h, w);
    TallItem(h, w, 1);
    ChainIsPath(h, w);
    NothingResident(h);
    FetchedBy(w.a, Chain(h));
  }

  /** With nothing resident, every path is walked. */
  lemma FetchedBy(a: Graph, path: seq<Hash>)
    requires path != [] && path[|path| - 1] in a && IsPath(a, path)
    ensures path[|path| - 1] in Fetchable(a, path[0], map[])
  {
    hide IsPath;
    assert BarePath(a, map[], path, path[0], path[|path| - 1]);
  }

  lemma NothingResident(h: HashFn)
    ensures Index(h, []) == map[]
  {
  }

  /** One level above 273, and however large the store: the walk reports completion and the leaf
      at the end of the chain is not there. */
  lemma HeightIsTight(h: HashFn, slots: nat, arena: nat, n: nat)
    requires Clean(h, 275) && n > Pow17(274)
    ensures var w := Tall(h, slots, arena);
      var s := Rounds(w.env, Begin(w.env, w.objs0), n);
      && Setting(w) && AnswersAll(w) && w.ht(w.root) == 274
      && s.outcome == Done && !Complete(w, s.objs)
  {
    var w := Tall(h, slots, arena);
    TallSizes(h, slots, arena);
    hide Clean, Tall, Setting, AnswersAll, Rounds, Begin, Item, Lost, Pow17, Lacking, Index;
    TallSetting(h, slots, arena);
    TallItem(h, w, 275);
    TallParts(h, w);
    Pow17Above(274);
    AlwaysDone(w, n);
    LostRun(h, w, n);
    LostAbsent(h, Rounds(w.env, Begin(w.env, w.objs0), n));
    SecondLeafLacking(h, w);
    LackingInSource(w);
  }

  lemma {:induction false} Pow17Above(n: nat)
    ensures Pow17(n) > n
  {
    if n > 0 {
      Pow17Above(n - 1);
    }
  }
}

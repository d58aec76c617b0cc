/** The pull synchronization against an honest source: complete, and exactly as expensive
    as the objects that were missing. */
module PullHonest {
  import opened Bits
  import opened ObjectStore
  import opened Sls
  import opened PullSync

  type Graph = map<Hash, seq<byte>>

  /** A rank that decreases from parent to child: the height of an object, for one. */
  type Rank = Hash -> nat

  /** An object as the leaf and node writers produce it. */
  predicate WellFormed(b: seq<byte>)
  {
    1 <= |b| <= MAX_BLOCK && (IsNode(b) ==> WellFormedNode(b))
  }

  predicate Closed(c: Graph)
  {
    forall x | x in c :: forall k | k in Kids(c[x]) :: k in c
  }

  predicate SourceOk(h: HashFn, a: Graph, ht: Rank)
  {
    forall x | x in a :: h(a[x]) == x && WellFormed(a[x]) && RankedKids(a, ht, x)
  }

  predicate RankedKids(a: Graph, ht: Rank, x: Hash)
    requires x in a
  {
    forall k | k in Kids(a[x]) :: k in a && ht(k) < ht(x)
  }

  /** Two stores without a collision between them. */
  predicate Agree(a: Graph, b: Graph)
  {
    forall x | x in a && x in b :: a[x] == b[x]
  }

  ghost predicate PathFromTo(a: Graph, path: seq<Hash>, x: Hash, y: Hash)
  {
    path != [] && path[0] == x && path[|path| - 1] == y && IsPath(a, path)
  }

  ghost predicate Reaches(a: Graph, x: Hash, y: Hash)
  {
    exists path :: PathFromTo(a, path, x, y)
  }

  ghost function Closure(a: Graph, root: Hash): set<Hash>
  {
    set y | y in a && Reaches(a, root, y)
  }

  /** What B lacks of the graph below the root. */
  ghost function Missing(a: Graph, root: Hash, b: Graph): set<Hash>
  {
    Closure(a, root) - b.Keys
  }

  /** A path on which B holds nothing. */
  ghost predicate BarePath(a: Graph, b: Graph, path: seq<Hash>, x: Hash, y: Hash)
  {
    PathFromTo(a, path, x, y) && forall k | 0 <= k < |path| :: path[k] !in b
  }

  ghost predicate Uncovered(a: Graph, b: Graph, x: Hash, y: Hash)
  {
    exists path :: BarePath(a, b, path, x, y)
  }

  /** What the walk gets to: it does not look below an object that B holds. */
  ghost function Fetchable(a: Graph, root: Hash, b: Graph): set<Hash>
  {
    set y | y in a && Uncovered(a, b, root, y)
  }

  // ----- the source

  /** The number of children `a_serve` takes an object to have. */
  function HintCount(b: seq<byte>): (n: nat)
    ensures n <= MAX_CHILDREN
  {
    if |b| < 5 || b[0] != NODE then 0 else if Count(b) > MAX_CHILDREN then MAX_CHILDREN else Count(b)
  }

  /** The hints lie within the object, and the object within the payload area. */
  predicate Servable(b: seq<byte>)
  {
    |b| <= 4096 && (HintCount(b) == 0 || 5 + 32 * HintCount(b) <= |b|)
  }

  /** The byte of the object that is copied to byte `i` of hint `c`. */
  function HintOffset(c: nat, i: nat): nat
  {
    5 + 32 * c + i
  }

  /** Exactly then every byte that is copied to the hints is a byte of the object. */
  lemma ServableIff(b: seq<byte>)
    ensures Servable(b) <==> |b| <= 4096 && forall c: nat, i: nat | c < HintCount(b) && i < 32 :: HintOffset(c, i) < |b|
  {
    hide HintCount;
    var n := HintCount(b);
    if n > 0 && 5 + 32 * n > |b| {
      assert HintOffset(n - 1, 31) >= |b|;
    }
  }

  function HintKids(b: seq<byte>): (cs: seq<Hash>)
    requires Servable(b)
    ensures |cs| == HintCount(b)
  {
    seq<Hash>(HintCount(b), i requires 0 <= i < HintCount(b) => ChildAt(b, i))
  }

  /** For what the leaf and node writers produce, the hints are the children. */
  lemma HintsAreKids(b: seq<byte>)
    requires WellFormed(b)
    ensures Servable(b) && HintKids(b) == Kids(b)
  {
    FewKids(b);
    if IsNode(b) {
      assert HintCount(b) == Count(b);
    }
    hide Kids, Count, ChildAt;
    assert forall i | 0 <= i < HintCount(b) :: HintKids(b)[i] == Kids(b)[i];
  }

  /** The response of `a_serve` to a request for `w`; the areas beyond it hold older data. */
  predicate AnswersWant(a: Graph, w: Hash, r: Reply)
  {
    && r.op == Block
    && (w !in a ==> r.len == 0 && r.nchild == 0)
    && (w in a ==>
          && Servable(a[w]) && r.len == |a[w]| && r.pay[..r.len] == a[w]
          && r.nchild == HintCount(a[w]) && r.hints[..r.nchild] == HintKids(a[w]))
  }

  /** The response record after a request for `w`, given the one before. */
  function Answer(a: Graph, prior: Reply, w: Hash): Reply
  {
    if w !in a || !Servable(a[w]) then prior.(op := Block, len := 0, nchild := 0)
    else
      var b, kids := a[w], HintKids(a[w]);
      prior.(op := Block, len := |b|, nchild := |kids|,
             hints := kids + prior.hints[|kids|..], pay := b + prior.pay[|b|..])
  }

  /** The response after the advertisement of `root` and the requests `q`, from the areas
      `shared` on. */
  function AnswersTo(a: Graph, root: Hash, shared: Reply, q: seq<Hash>): Reply
  {
    if q == [] then shared.(op := Adv, len := 0, nchild := 0, hash := root)
    else Answer(a, AnswersTo(a, root, shared, q[..|q| - 1]), q[|q| - 1])
  }

  lemma AnswerIsWhole(a: Graph, prior: Reply, w: Hash)
    requires forall x | x in a :: Servable(a[x])
    ensures AnswersWant(a, w, Answer(a, prior, w))
  {
    hide HintCount, HintKids;
  }

  lemma AllServable(a: Graph)
    requires forall x | x in a :: WellFormed(a[x])
    ensures forall x | x in a :: Servable(a[x])
  {
    forall x | x in a
      ensures Servable(a[x])
    {
      HintsAreKids(a[x]);
    }
  }

  /** Payload bytes for a list of requests. */
  function Sent(a: Graph, wants: seq<Hash>): nat
  {
    if wants == [] then 0
    else
      var w := wants[|wants| - 1];
      Sent(a, wants[..|wants| - 1]) + if w in a then |a[w]| else 0
  }

  lemma SentStep(a: Graph, wants: seq<Hash>, w: Hash)
    ensures Sent(a, wants + [w]) == Sent(a, wants) + if w in a then |a[w]| else 0
  {
    assert (wants + [w])[..|wants|] == wants;
  }

  lemma FewKids(b: seq<byte>)
    requires WellFormed(b)
    ensures |Kids(b)| <= MAX_CHILDREN && (|b| >= 5 && b[0] == NODE <==> WellFormedNode(b))
    ensures WellFormedNode(b) ==> |Kids(b)| == Count(b) && forall i | 0 <= i < Count(b) :: Kids(b)[i] == ChildAt(b, i)
    ensures !WellFormedNode(b) ==> Kids(b) == []
  {
  }

  class Source {
    const S: Store
    var rsp: Reply
    var bytesSent: nat

    constructor (S: Store, shared: Reply)
      ensures this.S == S && rsp == shared && bytesSent == 0
    {
      this.S, rsp, bytesSent := S, shared, 0;
    }

    /** The child hints, parsed out of the object. */
    method CopyHints(pb: seq<byte>) returns (hints: HintArea, nchild: nat)
      requires Servable(pb)
      ensures nchild == HintCount(pb) && hints == HintKids(pb) + rsp.hints[nchild..]
    {
      hide Count, ChildAt;
      hints, nchild := rsp.hints, 0;
      if |pb| >= 5 && pb[0] == NODE {
        nchild := Count(pb);
        if nchild > MAX_CHILDREN {
          nchild := MAX_CHILDREN;
        }
        ghost var kids, before := HintKids(pb), rsp.hints;
        for c := 0 to nchild
          invariant forall j | 0 <= j < c :: hints[j] == kids[j]
          invariant forall j | c <= j < 128 :: hints[j] == before[j]
        {
          var kid := ChildAt(pb, c);
          hints := hints[c := kid];
        }
        Overlay(hints, kids, before);
      }
    }

    /** One turn of `a_serve`: a miss is an empty block. */
    method Serve(want: Hash)
      requires S.Valid() && forall x | x in S.Contents() :: Servable(S.Contents()[x])
      modifies this
      ensures rsp == Answer(S.Contents(), old(rsp), want) && AnswersWant(S.Contents(), want, rsp)
      ensures bytesSent == old(bytesSent) + if want in S.Contents() then |S.Contents()[want]| else 0
    {
      hide Store.Valid, Index, HintKids, HintCount;
      AnswerIsWhole(S.Contents(), rsp, want);
      var found := S.Get(want);
      if found.None? {
        rsp := rsp.(op := Block, len := 0, nchild := 0);
        return;
      }
      var pb := found.value;
      var hints, nchild := CopyHints(pb);
      var pay: PayArea := pb + rsp.pay[|pb|..];
      rsp := rsp.(op := Block, len := |pb|, nchild := nchild, hints := hints, pay := pay);
      bytesSent := bytesSent + |pb|;
    }

    /** `a_serve`: the advertisement, then an answer to each request until B is done. */
    method AServe(root: Hash, requests: seq<Hash>) returns (replies: seq<Reply>)
      requires S.Valid() && forall x | x in S.Contents() :: Servable(S.Contents()[x])
      modifies this
      ensures |replies| == 1 + |requests| && replies[0].op == Adv && replies[0].hash == root
      ensures forall i | 0 <= i < |requests| :: AnswersWant(S.Contents(), requests[i], replies[i + 1])
      ensures forall i | 0 <= i <= |requests| :: replies[i] == AnswersTo(S.Contents(), root, old(rsp), requests[..i])
      ensures bytesSent == Sent(S.Contents(), requests)
    {
      hide Store.Valid, Index, AnswersWant, Servable, Sent, Answer, AnswersTo;
      ghost var a, shared := S.Contents(), rsp;
      bytesSent := 0;
      rsp := rsp.(op := Adv, len := 0, nchild := 0, hash := root);
      replies := [rsp];
      NothingSent(a);
      AnswersNone(a, root, shared);
      assert requests[..0] == [];
      for i := 0 to |requests|
        invariant |replies| == 1 + i && rsp == replies[i]
        invariant forall j | 0 <= j <= i :: replies[j] == AnswersTo(a, root, shared, requests[..j])
        invariant bytesSent == Sent(a, requests[..i])
      {
        AnswersNext(a, root, shared, requests, i);
        SentStep(a, requests[..i], requests[i]);
        assert requests[..i + 1] == requests[..i] + [requests[i]];
        Serve(requests[i]);
        replies := replies + [rsp];
      }
      assert requests[..|requests|] == requests;
      RepliesWhole(a, root, shared, requests, replies);
    }
  }

  lemma AnswersNone(a: Graph, root: Hash, shared: Reply)
    ensures AnswersTo(a, root, shared, []) == shared.(op := Adv, len := 0, nchild := 0, hash := root)
  {
  }

  lemma AnswersNext(a: Graph, root: Hash, shared: Reply, q: seq<Hash>, i: nat)
    requires i < |q|
    ensures AnswersTo(a, root, shared, q[..i + 1]) == Answer(a, AnswersTo(a, root, shared, q[..i]), q[i])
  {
    hide Answer;
    assert q[..i + 1][..i] == q[..i];
  }

  lemma RepliesWhole(a: Graph, root: Hash, shared: Reply, q: seq<Hash>, replies: seq<Reply>)
    requires |replies| == 1 + |q| && forall x | x in a :: Servable(a[x])
    requires forall i | 0 <= i <= |q| :: replies[i] == AnswersTo(a, root, shared, q[..i])
    ensures replies[0].op == Adv && replies[0].hash == root
    ensures forall i | 0 <= i < |q| :: AnswersWant(a, q[i], replies[i + 1])
  {
    hide Answer, AnswersWant, Servable, AnswersTo;
    AnswersNone(a, root, shared);
    assert q[..0] == [];
    forall i | 0 <= i < |q|
      ensures AnswersWant(a, q[i], replies[i + 1])
    {
      AnswersNext(a, root, shared, q, i);
      AnswerIsWhole(a, AnswersTo(a, root, shared, q[..i]), q[i]);
    }
  }

  lemma Overlay(s: seq<Hash>, front: seq<Hash>, before: seq<Hash>)
    requires |front| <= |s| == |before|
    requires (forall j | 0 <= j < |front| :: s[j] == front[j]) && forall j | |front| <= j < |s| :: s[j] == before[j]
    ensures s == front + before[|front|..]
  {
  }

  lemma NothingSent(a: Graph)
    ensures Sent(a, []) == 0
  {
  }

  // ----- sizes of sets of objects

  ghost function Total(a: Graph, s: set<Hash>): nat
    requires s <= a.Keys
  {
    if s == {} then 0 else var x :| x in s; |a[x]| + Total(a, s - {x})
  }

  lemma {:induction false} TotalWithout(a: Graph, s: set<Hash>, x: Hash)
    requires s <= a.Keys && x in s
    ensures Total(a, s) == |a[x]| + Total(a, s - {x})
    decreases |s|
  {
    var y :| y in s && Total(a, s) == |a[y]| + Total(a, s - {y});
    if y != x {
      TotalWithout(a, s - {y}, x);
      TotalWithout(a, s - {x}, y);
      assert s - {y} - {x} == s - {x} - {y};
    }
  }

  /** Different members of a set, listed: no more of them, nor more bytes, than the set has. */
  lemma {:induction false} SentWithin(a: Graph, wants: seq<Hash>, s: set<Hash>)
    requires s <= a.Keys && NoDup(wants) && forall w | w in wants :: w in s
    ensures |wants| <= |s| && Sent(a, wants) <= Total(a, s)
    ensures (forall x | x in s :: x in wants) ==> |wants| == |s| && Sent(a, wants) == Total(a, s)
  {
    if wants != [] {
      var w, rest := wants[|wants| - 1], wants[..|wants| - 1];
      assert wants == rest + [w];
      TotalWithout(a, s, w);
      forall x | x in rest
        ensures x in s - {w}
      {
        var i :| 0 <= i < |rest| && rest[i] == x;
        assert wants[i] != wants[|wants| - 1];
      }
      SentWithin(a, rest, s - {w});
      SentStep(a, rest, w);
    } else if forall x | x in s :: x in wants {
      assert s == {};
    }
  }

  // ----- the run

  /** The fixed facts of one synchronization. */
  datatype World = World(env: Env, objs0: seq<seq<byte>>, a: Graph, ht: Rank, root: Hash)

  ghost function Lacking(w: World): set<Hash>
  {
    Fetchable(w.a, w.root, Index(w.env.h, w.objs0))
  }

  /** Source and sink, whatever answers. */
  ghost predicate Setting(w: World)
  {
    && SourceOk(w.env.h, w.a, w.ht) && w.root in w.a
    && Distinct(w.env.h, w.objs0) && Agree(w.a, Index(w.env.h, w.objs0))
  }

  /** The peer advertises the root and answers up to `n` requests as the source would. */
  ghost predicate AnswersUpTo(w: World, n: nat)
  {
    var peer := w.env.peer;
    && peer([]).Some? && peer([]).value.op == Adv && peer([]).value.hash == w.root
    && (forall q: seq<Hash> | 0 < |q| <= n :: peer(q).Some? && AnswersWant(w.a, q[|q| - 1], peer(q).value))
  }

  ghost predicate Honest(w: World)
  {
    Setting(w) && w.ht(w.root) <= 273 && AnswersUpTo(w, |Lacking(w)|)
  }

  /** There is space for what the walk gets to. */
  ghost predicate Room(w: World)
  {
    |w.objs0| + |Lacking(w)| <= w.env.slots && |Flatten(w.objs0)| + Total(w.a, Lacking(w)) <= w.env.arena
  }

  /** The objects beyond the old ones are the requested ones, in order of request. */
  ghost predicate Fetched(w: World, objs: seq<seq<byte>>, wants: seq<Hash>)
  {
    && w.objs0 <= objs && |objs| == |w.objs0| + |wants|
    && (forall i | 0 <= i < |wants| :: wants[i] in Lacking(w) && objs[|w.objs0| + i] == w.a[wants[i]])
    && NoDup(wants) && Distinct(w.env.h, objs)
    && |Flatten(objs)| == |Flatten(w.objs0)| + Sent(w.a, wants)
  }

  /** Depth-first: an entry is as high on the stack as its rank is below the root's. */
  ghost predicate Stacked(w: World, ws: seq<Hash>)
  {
    forall i | 0 <= i < |ws| :: InReach(w, ws[i]) && i + 15 * w.ht(ws[i]) <= 15 * w.ht(w.root)
  }

  ghost predicate InReach(w: World, x: Hash)
  {
    x in Index(w.env.h, w.objs0) || x in Lacking(w)
  }

  /** A child of a fetched object is resident or waits on the stack. */
  ghost predicate Owed(a: Graph, wants: seq<Hash>, c: Graph, ws: seq<Hash>)
  {
    forall x | x in wants && x in a :: forall k | k in Kids(a[x]) :: k in c || k in ws
  }

  ghost predicate OnTrack(w: World, s: Sink)
  {
    && (s.outcome == Running || s.outcome == Done)
    && Fetched(w, s.objs, s.wants) && Stacked(w, s.ws)
    && Owed(w.a, s.wants, Index(w.env.h, s.objs), s.ws) && Agree(w.a, Index(w.env.h, s.objs))
    && (w.root in Index(w.env.h, s.objs) || w.root in s.ws)
    && (s.outcome == Done ==> s.ws == [])
    && s.received == Sent(w.a, s.wants) && s.blocks == |s.wants| && s.rejected == 0
  }

  lemma LackingInSource(w: World)
    ensures Lacking(w) <= w.a.Keys
  {
    hide Index;
  }

  /** A further missing object that is not resident still fits. */
  lemma NextFits(w: World, objs: seq<seq<byte>>, wants: seq<Hash>, x: Hash)
    requires Room(w) && Fetched(w, objs, wants) && x in Lacking(w) && x !in wants
    ensures |wants| < |Lacking(w)| && Fits(w.env, objs, w.a[x])
  {
    LackingInSource(w);
    hide Flatten, Total, Lacking, Sent, Distinct;
    var next := wants + [x];
    assert forall y | y in next :: y in Lacking(w);
    SentWithin(w.a, next, Lacking(w));
    SentStep(w.a, wants, x);
  }

  lemma {:induction false} PushAll(resident: Graph, ws: seq<Hash>, kids: seq<Hash>)
    requires |ws| + |kids| <= WS_MAX || kids == []
    ensures var r := PushMissing(resident, ws, kids);
      && ws <= r && |r| <= |ws| + |kids|
      && (forall k | k in kids :: k in resident || k in r)
      && (forall i | |ws| <= i < |r| :: r[i] in kids)
  {
    if kids != [] {
      var init, last := kids[..|kids| - 1], kids[|kids| - 1];
      assert kids == init + [last];
      PushAll(resident, ws, init);
    }
  }

  lemma StepBare(w: World, x: Hash, k: Hash)
    requires x in Lacking(w) && k in Kids(w.a[x]) && k in w.a
    ensures InReach(w, k)
  {
    hide Kids, Index;
    var a, b := w.a, Index(w.env.h, w.objs0);
    if k !in b {
      var path :| BarePath(a, b, path, w.root, x);
      var longer := path + [k];
      forall i | 0 <= i < |longer| - 1
        ensures longer[i] in a && longer[i + 1] in Kids(a[longer[i]])
      {
        if i < |path| - 1 {
          assert path[i] in a && path[i + 1] in Kids(a[path[i]]);
        }
      }
      assert BarePath(a, b, longer, w.root, k);
    }
  }

  lemma KidsStacked(w: World, ws: seq<Hash>, x: Hash, r: seq<Hash>)
    requires SourceOk(w.env.h, w.a, w.ht) && w.ht(w.root) <= 273
    requires Stacked(w, ws + [x]) && x in w.a && x in Lacking(w)
    requires ws <= r && |r| <= |ws| + |Kids(w.a[x])| && forall i | |ws| <= i < |r| :: r[i] in Kids(w.a[x])
    ensures Stacked(w, r)
  {
    hide Kids, InReach, Lacking;
    assert (ws + [x])[|ws|] == x;
    FewKids(w.a[x]);
    assert RankedKids(w.a, w.ht, x);
    forall i | 0 <= i < |r|
      ensures InReach(w, r[i]) && i + 15 * w.ht(r[i]) <= 15 * w.ht(w.root)
    {
      if i < |ws| {
        assert r[i] == ws[i] == (ws + [x])[i];
      } else {
        StepBare(w, x, r[i]);
      }
    }
  }

  lemma FetchOne(w: World, objs: seq<seq<byte>>, wants: seq<Hash>, x: Hash)
    requires SourceOk(w.env.h, w.a, w.ht) && Fetched(w, objs, wants) && x in Lacking(w) && x !in Index(w.env.h, objs)
    ensures x in w.a && x !in wants && Fetched(w, objs + [w.a[x]], wants + [x])
  {
    LackingInSource(w);
    hide Lacking, Flatten, Sent, Index, WellFormed, RankedKids;
    Resident(w.env.h, objs, x);
    forall i | 0 <= i < |wants|
      ensures wants[i] != x
    {
      assert w.env.h(objs[|w.objs0| + i]) == wants[i];
    }
    FlattenAppend(objs, w.a[x]);
    SentStep(w.a, wants, x);
  }

  lemma OwedAfter(a: Graph, wants: seq<Hash>, c: Graph, ws: seq<Hash>, x: Hash, r: seq<Hash>)
    requires Owed(a, wants, c, ws + [x]) && ws <= r && x in a
    requires forall k | k in Kids(a[x]) :: k in c[x := a[x]] || k in r
    ensures Owed(a, wants + [x], c[x := a[x]], r)
  {
    hide Kids;
    var c' := c[x := a[x]];
    forall y | y in wants + [x] && y in a
      ensures forall k | k in Kids(a[y]) :: k in c' || k in r
    {
      if y != x {
        forall k | k in Kids(a[y])
          ensures k in c' || k in r
        {
          assert k in c || k in ws + [x];
        }
      }
    }
  }

  lemma OwedPop(a: Graph, wants: seq<Hash>, c: Graph, ws: seq<Hash>, x: Hash)
    requires Owed(a, wants, c, ws + [x]) && x in c
    ensures Owed(a, wants, c, ws)
  {
    hide Kids;
    forall y | y in wants && y in a
      ensures forall k | k in Kids(a[y]) :: k in c || k in ws
    {
      assert forall k | k in Kids(a[y]) :: k in c || k in ws + [x];
    }
  }

  /** An honest block is accepted: installed, with all its children considered. */
  lemma HonestAccept(env: Env, s: Sink, a: Graph, x: Hash, r: Reply)
    requires x in a && env.h(a[x]) == x && WellFormed(a[x]) && AnswersWant(a, x, r)
    requires x !in Index(env.h, s.objs) && Fits(env, s.objs, a[x])
    ensures Accept(env, s, x, r) ==
            s.(objs := s.objs + [a[x]], ws := PushMissing(Index(env.h, s.objs)[x := a[x]], s.ws, Kids(a[x])),
               received := s.received + |a[x]|, blocks := s.blocks + 1)
  {
    hide Kids, HintKids, HintCount, Index, Fits, PushMissing;
    HintsAreKids(a[x]);
    hide Servable;
    IndexAppend(env.h, s.objs, a[x]);
    assert Hints(r) == Kids(a[x]);
  }

  /** The stack after the children of `x` took its place. */
  lemma TakeStack(w: World, wants: seq<Hash>, c: Graph, ws: seq<Hash>, x: Hash)
    requires SourceOk(w.env.h, w.a, w.ht) && w.ht(w.root) <= 273
    requires x in w.a && x in Lacking(w) && Stacked(w, ws + [x]) && Owed(w.a, wants, c, ws + [x])
    ensures var c' := c[x := w.a[x]]; var ws' := PushMissing(c', ws, Kids(w.a[x]));
      Stacked(w, ws') && Owed(w.a, wants + [x], c', ws') && ws <= ws'
  {
    var bytes := w.a[x];
    FewKids(bytes);
    hide Kids, Lacking, InReach;
    assert (ws + [x])[|ws|] == x;
    if Kids(bytes) != [] {
      assert RankedKids(w.a, w.ht, x);
      assert Kids(bytes)[0] in Kids(bytes);
    }
    var c' := c[x := bytes];
    PushAll(c', ws, Kids(bytes));
    hide PushMissing, Stacked, Owed;
    var ws' := PushMissing(c', ws, Kids(bytes));
    KidsStacked(w, ws, x, ws');
    OwedAfter(w.a, wants, c, ws, x, ws');
  }

  /** The turn that requests `x`, popped off the stack `ws + [x]`. */
  lemma TakeTurn(w: World, s: Sink, ws: seq<Hash>, x: Hash)
    requires Honest(w) && Room(w) && OnTrack(w, s) && s.outcome == Running
    requires s.ws == ws + [x] && x !in Index(w.env.h, s.objs)
    ensures x in w.a && x in Lacking(w) && Fetched(w, s.objs + [w.a[x]], s.wants + [x])
    ensures Round(w.env, s) ==
            s.(objs := s.objs + [w.a[x]], ws := PushMissing(Index(w.env.h, s.objs)[x := w.a[x]], ws, Kids(w.a[x])),
               wants := s.wants + [x], received := s.received + |w.a[x]|, blocks := s.blocks + 1)
  {
    hide Index, Lacking, InReach, Kids, PushMissing, Accept, Fits, WellFormed, RankedKids, Fetched;
    assert s.ws[|s.ws| - 1] == x && s.ws[..|s.ws| - 1] == ws;
    assert InReach(w, s.ws[|s.ws| - 1]);
    StillLacking(w, s.objs, s.wants, x);
    FetchOne(w, s.objs, s.wants, x);
    NextFits(w, s.objs, s.wants, x);
    var q := s.wants + [x];
    assert |q| <= |Lacking(w)| && q[|q| - 1] == x;
    HonestAccept(w.env, s.(ws := ws, wants := q), w.a, x, w.env.peer(q).value);
  }

  lemma SourceFacts(w: World)
    requires Honest(w)
    ensures SourceOk(w.env.h, w.a, w.ht) && w.ht(w.root) <= 273
    ensures forall x | x in w.a :: w.env.h(w.a[x]) == x
  {
    hide SourceOk, Index, Distinct, Agree, AnswersWant, Lacking;
    assert SourceOk(w.env.h, w.a, w.ht);
    SourceHashes(w.env.h, w.a, w.ht);
  }

  lemma SourceHashes(h: HashFn, a: Graph, ht: Rank)
    requires SourceOk(h, a, ht)
    ensures forall x | x in a :: h(a[x]) == x
  {
    hide WellFormed, RankedKids;
  }

  lemma RootWaits(c: Graph, ws: seq<Hash>, x: Hash, bytes: seq<byte>, ws': seq<Hash>, root: Hash)
    requires root in c || root in ws + [x]
    requires ws <= ws'
    ensures root in c[x := bytes] || root in ws'
  {
  }

  lemma AgreeAfter(a: Graph, c: Graph, x: Hash)
    requires Agree(a, c) && x in a
    ensures Agree(a, c[x := a[x]])
  {
  }

  lemma Take(w: World, s: Sink, ws: seq<Hash>, x: Hash)
    requires Honest(w) && Room(w) && OnTrack(w, s) && s.outcome == Running
    requires s.ws == ws + [x] && x !in Index(w.env.h, s.objs)
    ensures OnTrack(w, Round(w.env, s))
  {
    hide Index, Kids, PushMissing, Round, Lacking, Fetched, Stacked, Owed, Agree, Sent, SourceOk, Room, Honest;
    TakeTurn(w, s, ws, x);
    SourceFacts(w);
    var c := Index(w.env.h, s.objs);
    TakeStack(w, s.wants, c, ws, x);
    IndexAppend(w.env.h, s.objs, w.a[x]);
    SentStep(w.a, s.wants, x);
    AgreeAfter(w.a, c, x);
    RootWaits(c, ws, x, w.a[x], PushMissing(c[x := w.a[x]], ws, Kids(w.a[x])), w.root);
  }

  /** Every turn of the walk stays on track. */
  lemma TurnOnTrack(w: World, s: Sink)
    requires Honest(w) && Room(w) && OnTrack(w, s)
    ensures OnTrack(w, Round(w.env, s))
  {
    hide Index, Kids, Fetched, Sent, Honest, Room, Accept, Agree, Stacked, Owed;
    if s.outcome == Running && s.ws != [] {
      var ws, x := s.ws[..|s.ws| - 1], s.ws[|s.ws| - 1];
      assert s.ws == ws + [x];
      if x in Index(w.env.h, s.objs) {
        OwedPop(w.a, s.wants, Index(w.env.h, s.objs), ws, x);
        StackedPop(w, ws, x);
      } else {
        hide OnTrack, Round;
        Take(w, s, ws, x);
      }
    }
  }

  lemma StackedPop(w: World, ws: seq<Hash>, x: Hash)
    requires Stacked(w, ws + [x])
    ensures Stacked(w, ws)
  {
    hide InReach;
    assert forall i | 0 <= i < |ws| :: ws[i] == (ws + [x])[i];
  }

  lemma Start(w: World)
    requires Honest(w)
    ensures OnTrack(w, Begin(w.env, w.objs0))
  {
    hide Index, Flatten, Kids, AnswersWant, Distinct, SourceOk, Agree, Lacking;
    StartStack(w);
    NothingSent(w.a);
    assert Owed(w.a, [], Index(w.env.h, w.objs0), [w.root]);
    hide Sent, Stacked, Owed;
    assert Fetched(w, w.objs0, []);
    hide Fetched;
  }

  lemma StartStack(w: World)
    requires w.root in w.a
    ensures Stacked(w, [w.root])
  {
    hide Kids, Index;
    var b := Index(w.env.h, w.objs0);
    assert w.root !in b ==> BarePath(w.a, b, [w.root], w.root, w.root);
  }

  lemma {:induction false} RunOnTrack(w: World, n: nat)
    requires Honest(w) && Room(w)
    ensures OnTrack(w, Rounds(w.env, Begin(w.env, w.objs0), n))
  {
    hide OnTrack, Honest, Room, Begin, Round, Rounds;
    var s0 := Begin(w.env, w.objs0);
    if n == 0 {
      Start(w);
      RoundsNone(w.env, s0);
    } else {
      RunOnTrack(w, n - 1);
      TurnOnTrack(w, Rounds(w.env, s0, n - 1));
      RoundsStep(w.env, s0, n - 1);
    }
  }

  /** Along a path on which B held nothing, everything was requested in the end. */
  lemma {:induction false} PathWanted(w: World, objs: seq<seq<byte>>, wants: seq<Hash>, path: seq<Hash>, y: Hash)
    requires Fetched(w, objs, wants) && Distinct(w.env.h, w.objs0) && forall z | z in w.a :: w.env.h(w.a[z]) == z
    requires Owed(w.a, wants, Index(w.env.h, objs), []) && w.root in Index(w.env.h, objs)
    requires BarePath(w.a, Index(w.env.h, w.objs0), path, w.root, y)
    ensures y in wants
    decreases |path|
  {
    hide Kids, Index, Fetched, Distinct;
    Whence(w, objs, wants, y);
    if |path| > 1 {
      var x, init := path[|path| - 2], path[..|path| - 1];
      forall i | 0 <= i < |init| - 1
        ensures init[i] in w.a && init[i + 1] in Kids(w.a[init[i]])
      {
        assert path[i] in w.a && path[i + 1] in Kids(w.a[path[i]]);
      }
      PathWanted(w, objs, wants, init, x);
      assert path[|path| - 2] in w.a && path[|path| - 2 + 1] in Kids(w.a[x]);
    }
  }

  /** What is in reach and not resident was not resident before. */
  lemma StillLacking(w: World, objs: seq<seq<byte>>, wants: seq<Hash>, x: Hash)
    requires Fetched(w, objs, wants) && InReach(w, x) && x !in Index(w.env.h, objs)
    ensures x in Lacking(w)
  {
    hide Lacking, Flatten, Sent;
    if x in Index(w.env.h, w.objs0) {
      IndexGrows(w.env.h, w.objs0, objs, x);
    }
  }

  // ----- what the synchronization achieves

  /** The store at the end: the old one and what the walk gets to. */
  ghost predicate Complete(w: World, objs: seq<seq<byte>>)
  {
    LackingInSource(w);
    Index(w.env.h, objs) == Index(w.env.h, w.objs0) + map y | y in Lacking(w) :: w.a[y]
  }

  /** Resident means: old, or requested. */
  lemma Whence(w: World, objs: seq<seq<byte>>, wants: seq<Hash>, x: Hash)
    requires Fetched(w, objs, wants) && Distinct(w.env.h, w.objs0) && forall y | y in w.a :: w.env.h(w.a[y]) == y
    ensures x in Index(w.env.h, objs) <==> x in Index(w.env.h, w.objs0) || x in wants
  {
    LackingInSource(w);
    hide Index, Lacking, Flatten, Sent;
    var h := w.env.h;
    Resident(h, objs, x);
    Resident(h, w.objs0, x);
    if x in Index(h, objs) {
      var i :| 0 <= i < |objs| && h(objs[i]) == x;
      if i < |w.objs0| {
        assert h(w.objs0[i]) == x;
      } else {
        assert wants[i - |w.objs0|] == x;
      }
    }
    if x in wants {
      var i :| 0 <= i < |wants| && wants[i] == x;
      assert h(objs[|w.objs0| + i]) == x;
    }
    if x in Index(h, w.objs0) {
      var i :| 0 <= i < |w.objs0| && h(w.objs0[i]) == x;
      assert h(objs[i]) == x;
    }
  }

  /** At the end the requests are exactly what the walk gets to. */
  lemma WantsAreLacking(w: World, s: Sink)
    requires Honest(w) && OnTrack(w, s) && s.ws == []
    ensures forall x :: x in s.wants <==> x in Lacking(w)
  {
    SourceFacts(w);
    hide Index, SourceOk, Stacked, Owed, Sent, Flatten, Agree, AnswersWant;
    var b := Index(w.env.h, w.objs0);
    forall x
      ensures x in s.wants <==> x in Lacking(w)
    {
      if x in Lacking(w) {
        var path :| BarePath(w.a, b, path, w.root, x);
        PathWanted(w, s.objs, s.wants, path, x);
      }
    }
  }

  lemma KeysAtEnd(w: World, s: Sink, x: Hash)
    requires Honest(w) && OnTrack(w, s) && s.ws == []
    ensures x in Index(w.env.h, s.objs) <==> x in Index(w.env.h, w.objs0) || x in Lacking(w)
  {
    SourceFacts(w);
    WantsAreLacking(w, s);
    hide Index, Lacking, SourceOk, AnswersWant, Stacked, Owed, Sent, Flatten, Agree;
    Whence(w, s.objs, s.wants, x);
  }

  lemma CompleteAtEnd(w: World, s: Sink)
    requires Honest(w) && OnTrack(w, s) && s.ws == []
    ensures Complete(w, s.objs)
  {
    var c, c0 := Index(w.env.h, s.objs), Index(w.env.h, w.objs0);
    LackingInSource(w);
    hide Index, Lacking, Honest, Stacked, Owed, Sent, Flatten;
    forall x
      ensures x in c <==> x in c0 || x in Lacking(w)
    {
      KeysAtEnd(w, s, x);
    }
    forall x | x in c0
      ensures x in c && c[x] == c0[x]
    {
      IndexGrows(w.env.h, w.objs0, s.objs, x);
    }
    hide OnTrack, Fetched;
    assert c == c0 + map y | y in Lacking(w) :: w.a[y];
  }

  /** Against an honest source, with room and for graphs up to 273 levels: the stack never
      exceeds 1 + 15 * height, nothing is rejected or dropped, the walk ends, and when it has
      ended B holds its old store and what the walk gets to, each such object streamed exactly
      once. */
  lemma HonestSync(w: World, n: nat)
    requires Honest(w) && Room(w)
    ensures var s := Rounds(w.env, Begin(w.env, w.objs0), n);
      && |s.ws| <= 1 + 15 * w.ht(w.root) <= WS_MAX && s.rejected == 0
      && (s.outcome == Running ==> n < 2 + 16 * |Lacking(w)|)
      && (s.outcome != Running ==>
            && s.outcome == Done && Complete(w, s.objs)
            && NoDup(s.wants) && (forall x :: x in s.wants <==> x in Lacking(w)) && |s.wants| == |Lacking(w)|
            && s.received == Sent(w.a, s.wants) == Total(w.a, Lacking(w)))
  {
    LackingInSource(w);
    RunOnTrack(w, n);
    RunSafe(w.env, w.objs0, n);
    var s := Rounds(w.env, Begin(w.env, w.objs0), n);
    SourceFacts(w);
    hide Rounds, Begin, Lacking, Index, Honest, Flatten, InReach, Owed, Agree, GrownByWants, Complete, Sent, Total,
      SourceOk;
    if s.ws != [] {
      assert |s.ws| - 1 + 15 * w.ht(s.ws[|s.ws| - 1]) <= 15 * w.ht(w.root);
    }
    assert forall x | x in s.wants :: x in Lacking(w);
    SentWithin(w.a, s.wants, Lacking(w));
    if s.outcome != Running {
      WantsAreLacking(w, s);
      CompleteAtEnd(w, s);
    }
  }

  // ----- and without room

  /** Distinct new objects take at least the slots and bytes of the addresses they serve. */
  lemma {:induction false} NewObjectsCost(h: HashFn, a: Graph, objs0: seq<seq<byte>>, objs: seq<seq<byte>>,
      t: set<Hash>)
    requires objs0 <= objs && Distinct(h, objs) && t <= a.Keys
    requires forall y | y in t :: exists i :: |objs0| <= i < |objs| && h(objs[i]) == y && objs[i] == a[y]
    ensures |t| <= |objs| - |objs0| && |Flatten(objs0)| + Total(a, t) <= |Flatten(objs)|
    decreases |objs|
  {
    if |objs| == |objs0| {
      assert t == {};
      assert objs == objs0;
    } else {
      var init, last := objs[..|objs| - 1], objs[|objs| - 1];
      assert objs == init + [last];
      FlattenAppend(init, last);
      var t' := t - {h(last)};
      hide Flatten, Total;
      forall y | y in t'
        ensures exists i :: |objs0| <= i < |init| && h(init[i]) == y && init[i] == a[y]
      {
        var i :| |objs0| <= i < |objs| && h(objs[i]) == y && objs[i] == a[y];
        assert init[i] == objs[i];
      }
      NewObjectsCost(h, a, objs0, init, t');
      if h(last) in t {
        TotalWithout(a, t, h(last));
        var i :| |objs0| <= i < |objs| && h(objs[i]) == h(last) && objs[i] == a[h(last)];
        assert objs[i] == last;
      } else {
        assert t' == t;
      }
    }
  }

  lemma DistinctPrefix(h: HashFn, objs0: seq<seq<byte>>, objs: seq<seq<byte>>)
    requires objs0 <= objs && Distinct(h, objs)
    ensures Distinct(h, objs0)
  {
    forall i, j | 0 <= i < j < |objs0|
      ensures h(objs0[i]) != h(objs0[j])
    {
      assert objs0[i] == objs[i] && objs0[j] == objs[j];
    }
  }

  lemma NewOne(h: HashFn, objs0: seq<seq<byte>>, objs: seq<seq<byte>>, y: Hash)
    requires objs0 <= objs && Distinct(h, objs) && y in Index(h, objs) && y !in Index(h, objs0)
    ensures exists i :: |objs0| <= i < |objs| && h(objs[i]) == y && objs[i] == Index(h, objs)[y]
  {
    hide Index, Distinct;
    DistinctPrefix(h, objs0, objs);
    IndexInv(h, objs, y);
    Resident(h, objs0, y);
    var i :| 0 <= i < |objs| && objs[i] == Index(h, objs)[y];
    assert |objs0| <= i < |objs| && h(objs[i]) == y && objs[i] == Index(h, objs)[y];
  }

  lemma CompleteNeedsRoom(w: World, objs: seq<seq<byte>>)
    requires Complete(w, objs) && w.objs0 <= objs && Distinct(w.env.h, objs) && Agree(w.a, Index(w.env.h, objs))
    requires |objs| <= w.env.slots && |Flatten(objs)| <= w.env.arena
    ensures Room(w)
  {
    LackingInSource(w);
    hide Flatten, Total, Index, Distinct;
    var h := w.env.h;
    forall y | y in Lacking(w)
      ensures exists i :: |w.objs0| <= i < |objs| && h(objs[i]) == y && objs[i] == w.a[y]
    {
      assert y in Index(h, objs) && Index(h, objs)[y] == w.a[y];
      LackingIsNew(w, y);
      NewOne(h, w.objs0, objs, y);
    }
    NewObjectsCost(h, w.a, w.objs0, objs, Lacking(w));
  }

  lemma LackingIsNew(w: World, y: Hash)
    requires y in Lacking(w)
    ensures y !in Index(w.env.h, w.objs0)
  {
    hide Index;
    var b := Index(w.env.h, w.objs0);
    var path :| BarePath(w.a, b, path, w.root, y);
    assert path[|path| - 1] !in b;
  }

  // ----- when that is the whole graph

  lemma FetchableIsMissing(a: Graph, root: Hash, b: Graph)
    ensures Fetchable(a, root, b) <= Missing(a, root, b)
  {
    hide IsPath;
    forall y | y in Fetchable(a, root, b)
      ensures y in Missing(a, root, b)
    {
      var path :| BarePath(a, b, path, root, y);
      assert path[|path| - 1] !in b;
    }
  }

  /** A child in `a` of an object that both hold is in `b`. */
  predicate ClosedIn(a: Graph, b: Graph)
  {
    forall x | x in a && x in b :: forall k | k in Kids(a[x]) && k in a :: k in b
  }

  lemma ClosedIsClosedIn(a: Graph, b: Graph)
    requires Closed(b) && Agree(a, b)
    ensures ClosedIn(a, b)
  {
    hide Kids;
  }

  /** Then everything below an object of `b` is in `b`. */
  lemma {:induction false} BelowResident(a: Graph, b: Graph, path: seq<Hash>, k: nat)
    requires ClosedIn(a, b) && IsPath(a, path) && k < |path| && path[k] in b && path[|path| - 1] in a
    ensures path[|path| - 1] in b
    decreases |path| - k
  {
    hide Kids;
    if k < |path| - 1 {
      assert path[k] in a && path[k + 1] in Kids(a[path[k]]);
      assert k + 1 < |path| - 1 ==> path[k + 1] in a;
      BelowResident(a, b, path, k + 1);
    }
  }

  lemma ClosedMeansAll(a: Graph, root: Hash, b: Graph)
    requires ClosedIn(a, b)
    ensures Fetchable(a, root, b) == Missing(a, root, b)
  {
    hide Kids, ClosedIn, IsPath;
    FetchableIsMissing(a, root, b);
    forall y | y in Missing(a, root, b)
      ensures y in Fetchable(a, root, b)
    {
      var path :| PathFromTo(a, path, root, y);
      forall k | 0 <= k < |path|
        ensures path[k] !in b
      {
        if path[k] in b {
          BelowResident(a, b, path, k);
          assert false;
        }
      }
      assert BarePath(a, b, path, root, y);
    }
  }

  /** And wrong otherwise: a resident root ends the walk before it begins. */
  lemma ResidentRootHidesAll(a: Graph, root: Hash, b: Graph)
    requires root in b
    ensures Fetchable(a, root, b) == {}
  {
    hide IsPath;
    forall path, y
      ensures !BarePath(a, b, path, root, y)
    {
    }
  }

  /** Stores built by putting nodes over resident children are child-closed. */
  lemma OrderedIsClosed(h: HashFn, objs: seq<seq<byte>>)
    requires Distinct(h, objs) && Ordered(h, objs)
    ensures Closed(Index(h, objs))
  {
    hide Kids, Index;
    var c := Index(h, objs);
    forall x | x in c
      ensures forall k | k in Kids(c[x]) :: k in c
    {
      IndexInv(h, objs, x);
      var i :| 0 <= i < |objs| && objs[i] == c[x];
      assert ChildrenBelow(h, objs, i);
      forall k | k in Kids(c[x])
        ensures k in c
      {
        var j :| 0 <= j < i && h(objs[j]) == k;
        Resident(h, objs, k);
      }
    }
  }

  /** Pruning at resident objects is right, for every root that may be advertised, exactly
      when B holds the children of what it shares with A. */
  lemma PruneIff(a: Graph, b: Graph)
    ensures ClosedIn(a, b) <==> forall root :: Fetchable(a, root, b) == Missing(a, root, b)
  {
    hide Kids, Fetchable, Missing;
    if ClosedIn(a, b) {
      forall root
        ensures Fetchable(a, root, b) == Missing(a, root, b)
      {
        ClosedMeansAll(a, root, b);
      }
    } else {
      var x :| x in a && x in b && !(forall k | k in Kids(a[x]) && k in a :: k in b);
      var k :| k in Kids(a[x]) && k in a && k !in b;
      ResidentRootHidesAll(a, x, b);
      ChildIsMissing(a, b, x, k);
      assert Fetchable(a, x, b) != Missing(a, x, b);
    }
  }

  lemma ChildIsMissing(a: Graph, b: Graph, x: Hash, k: Hash)
    requires x in a && k in Kids(a[x]) && k in a && k !in b
    ensures k in Missing(a, x, b)
  {
    hide Kids;
    assert PathFromTo(a, [x, k], x, k);
  }

  /** Then the result is the old store and the closure of the root. */
  lemma CompleteIsClosure(w: World, objs: seq<seq<byte>>)
    requires Complete(w, objs) && ClosedIn(w.a, Index(w.env.h, w.objs0)) && Agree(w.a, Index(w.env.h, w.objs0))
    ensures Lacking(w) == Missing(w.a, w.root, Index(w.env.h, w.objs0))
    ensures Closure(w.a, w.root) <= w.a.Keys
    ensures Index(w.env.h, objs) == Index(w.env.h, w.objs0) + map y | y in Closure(w.a, w.root) :: w.a[y]
  {
    LackingInSource(w);
    ClosureInside(w.a, w.root);
    ClosedMeansAll(w.a, w.root, Index(w.env.h, w.objs0));
    hide Index, Closure, Fetchable, ClosedIn;
    var c, c0 := Index(w.env.h, objs), Index(w.env.h, w.objs0);
    assert c == c0 + map y | y in Closure(w.a, w.root) :: w.a[y];
  }

  /** A sink that was itself built by putting nodes over resident children ends up with its old
      store and the closure of the root. */
  lemma BuiltStoreComplete(w: World, objs: seq<seq<byte>>)
    requires Complete(w, objs) && Distinct(w.env.h, w.objs0) && Ordered(w.env.h, w.objs0)
    requires Agree(w.a, Index(w.env.h, w.objs0))
    ensures Closure(w.a, w.root) <= w.a.Keys
    ensures Index(w.env.h, objs) == Index(w.env.h, w.objs0) + map y | y in Closure(w.a, w.root) :: w.a[y]
  {
    hide Index, Closure, Complete, ClosedIn, Closed, Agree, Ordered, Distinct;
    OrderedIsClosed(w.env.h, w.objs0);
    ClosedIsClosedIn(w.a, Index(w.env.h, w.objs0));
    CompleteIsClosure(w, objs);
  }

  lemma ClosureInside(a: Graph, root: Hash)
    ensures Closure(a, root) <= a.Keys
  {
  }

  /** `b_sync` against an honest source. */
  method PullFromHonest(P: Puller, ghost w: World)
    requires P.S.Valid() && P.ws.Length == WS_MAX && w.env == P.Env0() && w.objs0 == P.S.Objs
    requires Honest(w) && Room(w)
    modifies P, P.ws, P.S, P.S.arena, P.S.index
    ensures P.S.Valid() && P.outcome == Done && Complete(w, P.S.Objs)
    ensures P.received == Sent(w.a, P.wants) == Total(w.a, Lacking(w))
    ensures P.blocks == |P.wants| == |Lacking(w)| && P.rejected == 0
    ensures NoDup(P.wants) && forall x :: x in P.wants <==> x in Lacking(w)
    ensures ClosedIn(w.a, old(P.S.Contents())) ==>
              P.S.Contents() == old(P.S.Contents()) + map y | y in Closure(w.a, w.root) :: w.a[y]
  {
    LackingInSource(w);
    ClosureInside(w.a, w.root);
    NoCollisions(w);
    hide Lacking, Honest, Room, Store.Valid, Rounds, Begin, Total, Index, Complete, ClosedIn, Closure, Sent;
    ghost var limit := 2 + 16 * |Lacking(w)|;
    HonestSync(w, limit);
    ghost var n := P.BSync(limit);
    HonestSync(w, n);
    RunOnTrack(w, n);
    if ClosedIn(w.a, Index(w.env.h, w.objs0)) {
      CompleteIsClosure(w, P.S.Objs);
    }
  }

  lemma NoCollisions(w: World)
    requires Honest(w)
    ensures Agree(w.a, Index(w.env.h, w.objs0))
  {
    hide Index, Agree, SourceOk, AnswersWant, Lacking;
  }
}

/** The memoised structural diff and its reference: the plain positional descent from the
    two roots, given by the paths it can take. */
module SlsDiff {
  import opened Bits
  import opened ObjectStore
  import opened Sls

  const MAX_DEPTH: nat := 32
  const DIFF_MAX: nat := 512

  type Pair = (Hash, Hash)

  /** What looking at a pair of different objects leads to. */
  datatype Look = Missing | Bad | Report | Descend(pairs: seq<Pair>)

  function Zip(a: seq<Hash>, b: seq<Hash>): (r: seq<Pair>)
    requires |a| == |b|
    ensures |r| == |a|
  {
    seq(|a|, i requires 0 <= i < |a| => (a[i], b[i]))
  }

  function LookAt(c: map<Hash, seq<byte>>, p: Pair): Look
  {
    if p.0 !in c || p.1 !in c then Missing
    else
      var a, b := c[p.0], c[p.1];
      if |a| < 1 || |b| < 1 then Bad
      else if !IsNode(a) || !IsNode(b) then Report
      else if !WellFormedNode(a) || !WellFormedNode(b) then Bad
      else if Count(a) != Count(b) then Report
      else Descend(Zip(Kids(a), Kids(b)))
  }

  /** The pair the descent reaches by taking the child positions of `path`; equal
      subtrees are not entered. */
  function Follow(c: map<Hash, seq<byte>>, p: Pair, path: seq<nat>): Option<Pair>
    decreases |path|
  {
    if path == [] then Some(p)
    else if p.0 == p.1 then None
    else
      var look := LookAt(c, p);
      if look.Descend? && path[0] < |look.pairs| then Follow(c, look.pairs[path[0]], path[1..]) else None
  }

  /** A different pair that the descent without a memo visits. */
  ghost predicate Visited(c: map<Hash, seq<byte>>, root: Pair, p: Pair)
  {
    p.0 != p.1 && exists path :: Follow(c, root, path) == Some(p)
  }

  /** What the descent without a memo reports. */
  ghost predicate Reported(c: map<Hash, seq<byte>>, root: Pair, oid: Hash)
  {
    exists p: Pair :: Visited(c, root, p) && LookAt(c, p).Report? && p.1 == oid
  }

  lemma VisitedSelf(c: map<Hash, seq<byte>>, p: Pair)
    requires p.0 != p.1
    ensures Visited(c, p, p)
  {
    assert Follow(c, p, []) == Some(p);
  }

  lemma VisitedBelow(c: map<Hash, seq<byte>>, p: Pair, i: nat, q: Pair)
    requires p.0 != p.1 && LookAt(c, p).Descend? && i < |LookAt(c, p).pairs|
    requires Visited(c, LookAt(c, p).pairs[i], q)
    ensures Visited(c, p, q)
  {
    var path :| Follow(c, LookAt(c, p).pairs[i], path) == Some(q);
    assert ([i] + path)[1..] == path;
    assert Follow(c, p, [i] + path) == Some(q);
  }

  /** Two nodes with the same number of children. */
  predicate Alike(c: map<Hash, seq<byte>>, a: Hash, b: Hash)
  {
    a in c && b in c && IsNode(c[a]) && IsNode(c[b]) && |Kids(c[a])| == |Kids(c[b])|
  }

  function Arity(c: map<Hash, seq<byte>>, p: Pair): nat
  {
    if Alike(c, p.0, p.1) then |Kids(c[p.0])| else 0
  }

  lemma ArityIs(c: map<Hash, seq<byte>>, p: Pair)
    ensures Arity(c, p) == if LookAt(c, p).Descend? then |LookAt(c, p).pairs| else 0
  {
  }

  /** The total arity of the descended pairs from position `k` on. */
  function Arities(c: map<Hash, seq<byte>>, seen: seq<Pair>, k: nat): nat
    requires k <= |seen|
    decreases |seen| - k
  {
    if k == |seen| then 0 else Arity(c, seen[k]) + Arities(c, seen, k + 1)
  }

  lemma {:induction false} AritiesSplit(c: map<Hash, seq<byte>>, a: seq<Pair>, b: seq<Pair>, k: nat)
    requires k <= |a| && a <= b
    ensures Arities(c, b, k) == Arities(c, a, k) + Arities(c, b, |a|)
    decreases |a| - k
  {
    hide Arity;
    if k < |a| {
      AritiesSplit(c, a, b, k + 1);
    }
  }

  /** The pair has been dealt with: reported, or all its different children memoised. */
  predicate Settled(c: map<Hash, seq<byte>>, p: Pair, seen: seq<Pair>, out: seq<Hash>)
  {
    && p.0 != p.1
    && match LookAt(c, p)
       case Report => p.1 in out
       case Descend(ps) => forall i | 0 <= i < |ps| :: ps[i].0 == ps[i].1 || ps[i] in seen
       case _ => false
  }

  predicate AllSettled(c: map<Hash, seq<byte>>, seen: seq<Pair>, out: seq<Hash>, k: nat)
  {
    forall i | k <= i < |seen| :: Settled(c, seen[i], seen, out)
  }

  /** Everything in the output beyond `out0` was reported by a pair memoised from `k` on. */
  predicate OutJustified(c: map<Hash, seq<byte>>, seen: seq<Pair>, out0: seq<Hash>, out: seq<Hash>, k: nat)
  {
    forall x | x in out :: x in out0 || exists i :: k <= i < |seen| && LookAt(c, seen[i]).Report? && seen[i].1 == x
  }

  ghost predicate AllVisited(c: map<Hash, seq<byte>>, root: Pair, seen: seq<Pair>, k: nat)
  {
    forall i | k <= i < |seen| :: Visited(c, root, seen[i])
  }

  lemma SettledGrows(c: map<Hash, seq<byte>>, p: Pair, seen: seq<Pair>, seen': seq<Pair>, out: seq<Hash>,
      out': seq<Hash>)
    requires Settled(c, p, seen, out) && seen <= seen' && out <= out'
    ensures Settled(c, p, seen', out')
  {
    hide LookAt;
    assert forall q | q in seen :: q in seen';
    assert forall x | x in out :: x in out';
  }

  lemma AllSettledJoin(c: map<Hash, seq<byte>>, seen: seq<Pair>, seen': seq<Pair>, out: seq<Hash>, out': seq<Hash>,
      k: nat)
    requires seen <= seen' && out <= out' && k <= |seen|
    requires AllSettled(c, seen, out, k) && AllSettled(c, seen', out', |seen|)
    ensures AllSettled(c, seen', out', k)
  {
    hide Settled;
    forall i | k <= i < |seen'|
      ensures Settled(c, seen'[i], seen', out')
    {
      if i < |seen| {
        SettledGrows(c, seen[i], seen, seen', out, out');
      }
    }
  }

  lemma OutJustifiedJoin(c: map<Hash, seq<byte>>, seen: seq<Pair>, seen': seq<Pair>,
                         out0: seq<Hash>, out: seq<Hash>, out': seq<Hash>, k: nat)
    requires seen <= seen' && k <= |seen|
    requires OutJustified(c, seen, out0, out, k) && OutJustified(c, seen', out, out', |seen|)
    ensures OutJustified(c, seen', out0, out', k)
  {
    hide LookAt;
    forall x | x in out'
      ensures x in out0 || exists i :: k <= i < |seen'| && LookAt(c, seen'[i]).Report? && seen'[i].1 == x
    {
      if x in out && x !in out0 {
        var i :| k <= i < |seen| && LookAt(c, seen[i]).Report? && seen[i].1 == x;
        assert seen'[i] == seen[i];
      }
    }
  }

  /** A stretch of the descent from `root` that took the memo from `seen0` to `seen` and the
      output from `out0` to `out`, settling every pair it memoised. */
  ghost predicate Stretch(c: map<Hash, seq<byte>>, root: Pair, seen0: seq<Pair>, out0: seq<Hash>, seen: seq<Pair>,
      out: seq<Hash>)
  {
    && seen0 <= seen && out0 <= out
    && AllSettled(c, seen, out, |seen0|)
    && OutJustified(c, seen, out0, out, |seen0|)
    && AllVisited(c, root, seen, |seen0|)
  }

  lemma StretchEmpty(c: map<Hash, seq<byte>>, root: Pair, seen: seq<Pair>, out: seq<Hash>)
    ensures Stretch(c, root, seen, out, seen, out)
  {
  }

  /** A stretch below child `i`, after a stretch below earlier children. */
  lemma StretchJoin(c: map<Hash, seq<byte>>, p: Pair, i: nat, seen0: seq<Pair>, out0: seq<Hash>,
                    seen: seq<Pair>, out: seq<Hash>, seen': seq<Pair>, out': seq<Hash>)
    requires p.0 != p.1 && LookAt(c, p).Descend? && i < |LookAt(c, p).pairs|
    requires Stretch(c, p, seen0, out0, seen, out)
    requires Stretch(c, LookAt(c, p).pairs[i], seen, out, seen', out')
    ensures Stretch(c, p, seen0, out0, seen', out')
  {
    hide Settled, LookAt, Visited;
    AllSettledJoin(c, seen, seen', out, out', |seen0|);
    OutJustifiedJoin(c, seen, seen', out0, out, out', |seen0|);
    forall j | |seen0| <= j < |seen'|
      ensures Visited(c, p, seen'[j])
    {
      if j < |seen| {
        assert seen'[j] == seen[j];
      } else {
        VisitedBelow(c, p, i, seen'[j]);
      }
    }
  }

  /** The pair itself, memoised just before the stretch below it. */
  lemma StretchClose(c: map<Hash, seq<byte>>, p: Pair, seen0: seq<Pair>, out0: seq<Hash>, seen: seq<Pair>,
      out: seq<Hash>)
    requires Stretch(c, p, seen0 + [p], out0, seen, out) && Settled(c, p, seen, out)
    ensures Stretch(c, p, seen0, out0, seen, out)
  {
    hide LookAt, Visited, Settled, OutJustified;
    var k, seen1 := |seen0|, seen0 + [p];
    assert seen0 <= seen1 <= seen && seen[k] == seen1[k] == p;
    SettledDiffers(c, p, seen, out);
    VisitedSelf(c, p);
    JustifiedEarlier(c, seen, out0, out, k + 1, k);
    forall i | k <= i < |seen|
      ensures Settled(c, seen[i], seen, out) && Visited(c, p, seen[i])
    {
      assert i == k || |seen1| <= i;
    }
  }

  lemma ArityClose(c: map<Hash, seq<byte>>, p: Pair, seen0: seq<Pair>, seen: seq<Pair>)
    requires seen0 + [p] <= seen
    ensures Arities(c, seen, |seen0|) == Arity(c, p) + Arities(c, seen, |seen0| + 1)
  {
    hide Arity;
    assert seen[|seen0|] == (seen0 + [p])[|seen0|] == p;
  }

  lemma SettledDiffers(c: map<Hash, seq<byte>>, p: Pair, seen: seq<Pair>, out: seq<Hash>)
    requires Settled(c, p, seen, out)
    ensures p.0 != p.1
  {
  }

  lemma JustifiedEarlier(c: map<Hash, seq<byte>>, seen: seq<Pair>, out0: seq<Hash>, out: seq<Hash>, k: nat, k': nat)
    requires OutJustified(c, seen, out0, out, k) && k' <= k
    ensures OutJustified(c, seen, out0, out, k')
  {
    hide LookAt;
    forall x | x in out
      ensures x in out0 || exists i :: k' <= i < |seen| && LookAt(c, seen[i]).Report? && seen[i].1 == x
    {
      if x !in out0 {
        var i :| k <= i < |seen| && LookAt(c, seen[i]).Report? && seen[i].1 == x;
      }
    }
  }

  /** The same for a pair that reports itself. */
  lemma StretchReport(c: map<Hash, seq<byte>>, p: Pair, seen0: seq<Pair>, out0: seq<Hash>, out: seq<Hash>)
    requires p.0 != p.1 && LookAt(c, p).Report? && out0 <= out && p.1 in out
    requires forall x | x in out :: x in out0 || x == p.1
    ensures Stretch(c, p, seen0, out0, seen0 + [p], out)
    ensures Arities(c, seen0 + [p], |seen0|) == 0
  {
    ArityIs(c, p);
    hide LookAt, Visited, Arity;
    var seen, k := seen0 + [p], |seen0|;
    assert seen[k] == p;
    VisitedSelf(c, p);
    assert Settled(c, seen[k], seen, out);
    assert Arities(c, seen, k + 1) == 0;
  }

  /** A path of the descent that ends at a different pair. */
  predicate Reach(c: map<Hash, seq<byte>>, root: Pair, path: seq<nat>, p: Pair)
  {
    p.0 != p.1 && Follow(c, root, path) == Some(p)
  }

  /** Why a diff stops short: a missing or malformed object at a visited pair, a full output
      or memo, or a different pair `room` levels down. */
  ghost predicate Cause(c: map<Hash, seq<byte>>, root: Pair, room: nat, err: SlsStatus, full: bool)
  {
    match err
    case Miss => exists q: Pair :: Visited(c, root, q) && LookAt(c, q).Missing?
    case Malformed => exists q: Pair :: Visited(c, root, q) && LookAt(c, q).Bad?
    case TooMany => full
    case TooDeep => exists path, q: Pair :: |path| == room && Reach(c, root, path, q)
    case _ => false
  }

  lemma CauseBelow(c: map<Hash, seq<byte>>, p: Pair, i: nat, room: nat, err: SlsStatus, full: bool)
    requires p.0 != p.1 && LookAt(c, p).Descend? && i < |LookAt(c, p).pairs|
    requires Cause(c, LookAt(c, p).pairs[i], room, err, full)
    ensures Cause(c, p, room + 1, err, full)
  {
    var kid := LookAt(c, p).pairs[i];
    match err
    case Miss =>
      var q: Pair :| Visited(c, kid, q) && LookAt(c, q).Missing?;
      VisitedBelow(c, p, i, q);
    case Malformed =>
      var q: Pair :| Visited(c, kid, q) && LookAt(c, q).Bad?;
      VisitedBelow(c, p, i, q);
    case TooDeep =>
      var path, q: Pair :| |path| == room && Reach(c, kid, path, q);
      assert ([i] + path)[1..] == path;
      assert Reach(c, p, [i] + path, q);
    case _ =>
  }

  /** Two objects resolved for each pair; one less when the first of the last pair is missing. */
  predicate Fetches(gets0: nat, gets: nat, pairs: int, err: SlsStatus)
  {
    gets == gets0 + 2 * pairs || (err.Miss? && gets == gets0 + 2 * pairs - 1)
  }

  class DiffCtx {
    const store: Store
    const cap: nat
    var out: seq<Hash>
    var seen: seq<Pair>
    var cmps: nat
    var gets: nat
    var err: SlsStatus

    constructor (store: Store, cap: nat)
      ensures this.store == store && this.cap == cap
      ensures out == [] && seen == [] && cmps == 0 && gets == 0 && err.Ok?
    {
      this.store := store;
      this.cap := cap;
      out, seen, cmps, gets, err := [], [], 0, 0, Ok;
    }

    /** `rec_change`: the output is a set within its capacity. */
    method RecChange(oid: Hash)
      requires NoDup(out) && err.Ok?
      modifies this`out, this`err
      ensures NoDup(out) && old(out) <= out && (forall x | x in out :: x in old(out) || x == oid)
      ensures oid in old(out) ==> out == old(out) && err.Ok?
      ensures oid !in old(out) ==>
                if |old(out)| >= cap then out == old(out) && err.TooMany? else out == old(out) + [oid] && err.Ok?
    {
      if oid in out {
        return;
      }
      if |out| >= cap {
        err := TooMany;
        return;
      }
      out := out + [oid];
    }

    /** `seen_or_add`: true if the pair need not be processed. */
    method SeenOrAdd(p: Pair) returns (skip: bool)
      requires NoDup(seen) && err.Ok?
      modifies this`seen, this`err
      ensures NoDup(seen) && (err.Ok? ==> p in seen)
      ensures if skip then seen == old(seen) && (if p in old(seen) then err.Ok? else err.TooMany? && |seen| >= DIFF_MAX)
              else err.Ok? && p !in old(seen) && |old(seen)| < DIFF_MAX && seen == old(seen) + [p]
    {
      if p in seen {
        return true;
      }
      if |seen| >= DIFF_MAX {
        err := TooMany;
        return true;
      }
      seen := seen + [p];
      return false;
    }

    /** Resolve both sides, as `diff_rec` does after the memo check. */
    method LookUp(p: Pair) returns (look: Look)
      requires store.Valid()
      modifies this`gets
      ensures look == LookAt(store.Contents(), p)
      ensures gets == old(gets) + if p.0 in store.Contents() then 2 else 1
      ensures !look.Missing? ==> p.0 in store.Contents()
    {
      hide Index;
      gets := gets + 1;
      var a := store.Get(p.0);
      if a.None? {
        return Missing;
      }
      gets := gets + 1;
      var b := store.Get(p.1);
      if b.None? {
        return Missing;
      }
      return LookAt(map[p.0 := a.value, p.1 := b.value], p);
    }

    ghost predicate Tidy()
      reads this, store, store.arena, store.index
    {
      store.Valid() && NoDup(seen) && NoDup(out) && |seen| <= DIFF_MAX && |out| <= cap
    }

    /** `diff_rec`. */
    method DiffRec(p: Pair, depth: nat)
      requires Tidy() && depth <= MAX_DEPTH
      modifies this
      ensures Tidy() && (err.Ok? ==> old(err).Ok?) && old(seen) <= seen
      ensures Fetches(old(gets), gets, |seen| - |old(seen)|, err)
      ensures cmps <= old(cmps) + 1 + Arities(store.Contents(), seen, |old(seen)|)
      ensures err.Ok? ==>
                && Stretch(store.Contents(), p, old(seen), old(out), seen, out)
                && (p.0 == p.1 || p in seen)
                && cmps == old(cmps) + 1 + Arities(store.Contents(), seen, |old(seen)|)
      ensures old(err).Ok? && !err.Ok? ==>
                Cause(store.Contents(), p, MAX_DEPTH - depth, err, |out| >= cap || |seen| >= DIFF_MAX)
      decreases MAX_DEPTH - depth, 2
    {
      hide LookAt, Stretch, Store.Valid, Index, Visited;
      if !err.Ok? {
        return;
      }
      ghost var c := store.Contents();
      cmps := cmps + 1;
      StretchEmpty(c, p, seen, out);
      if p.0 == p.1 {
        return;
      }
      if depth >= MAX_DEPTH {
        err := TooDeep;
        assert Reach(c, p, [], p);
        return;
      }
      var skip := SeenOrAdd(p);
      if skip {
        return;
      }
      Examine(p, depth, old(seen));
    }

    /** What follows the memo check: resolve, then report or descend. */
    method Examine(p: Pair, depth: nat, ghost seen0: seq<Pair>)
      requires Tidy() && depth < MAX_DEPTH && err.Ok? && p.0 != p.1 && seen == seen0 + [p]
      modifies this
      ensures Tidy() && seen0 + [p] <= seen
      ensures Fetches(old(gets), gets, |seen| - |seen0|, err)
      ensures cmps <= old(cmps) + Arities(store.Contents(), seen, |seen0|)
      ensures err.Ok? ==>
                && Stretch(store.Contents(), p, seen0, old(out), seen, out)
                && cmps == old(cmps) + Arities(store.Contents(), seen, |seen0|)
      ensures !err.Ok? ==> Cause(store.Contents(), p, MAX_DEPTH - depth, err, |out| >= cap || |seen| >= DIFF_MAX)
      decreases MAX_DEPTH - depth, 1
    {
      hide LookAt, Stretch, Store.Valid, Index, Visited, Arity;
      ghost var c := store.Contents();
      VisitedSelf(c, p);
      var look := LookUp(p);
      match look
      case Missing =>
        err := Miss;
      case Bad =>
        err := Malformed;
      case Report =>
        RecChange(p.1);
        if err.Ok? {
          StretchReport(c, p, seen0, old(out), out);
        }
      case Descend(pairs) =>
        DiffKids(p, pairs, depth);
        ArityClose(c, p, seen0, seen);
        ArityIs(c, p);
        if err.Ok? {
          StretchExtends(c, p, seen0 + [p], old(out), seen, out);
          SettledKids(c, p, pairs, seen, out);
          StretchClose(c, p, seen0, old(out), seen, out);
        }
    }

    /** The loop over the child positions. */
    method DiffKids(p: Pair, pairs: seq<Pair>, depth: nat)
      requires Tidy() && depth < MAX_DEPTH && err.Ok?
      requires p.0 != p.1 && LookAt(store.Contents(), p) == Descend(pairs)
      modifies this
      ensures Tidy() && old(seen) <= seen
      ensures Fetches(old(gets), gets, |seen| - |old(seen)|, err)
      ensures cmps <= old(cmps) + |pairs| + Arities(store.Contents(), seen, |old(seen)|)
      ensures err.Ok? ==>
                && Stretch(store.Contents(), p, old(seen), old(out), seen, out)
                && (forall i | 0 <= i < |pairs| :: pairs[i].0 == pairs[i].1 || pairs[i] in seen)
                && cmps == old(cmps) + |pairs| + Arities(store.Contents(), seen, |old(seen)|)
      ensures !err.Ok? ==> Cause(store.Contents(), p, MAX_DEPTH - depth, err, |out| >= cap || |seen| >= DIFF_MAX)
      decreases MAX_DEPTH - depth, 0
    {
      hide LookAt, Stretch, Store.Valid, Index, Cause;
      ghost var c := store.Contents();
      StretchEmpty(c, p, seen, out);
      for i := 0 to |pairs|
        invariant Tidy() && err.Ok? && old(seen) <= seen
        invariant Stretch(c, p, old(seen), old(out), seen, out)
        invariant forall j | 0 <= j < i :: pairs[j].0 == pairs[j].1 || pairs[j] in seen
        invariant Fetches(old(gets), gets, |seen| - |old(seen)|, err)
        invariant cmps == old(cmps) + i + Arities(c, seen, |old(seen)|)
      {
        ghost var seen1, out1 := seen, out;
        DiffRec(pairs[i], depth + 1);
        AritiesSplit(c, seen1, seen, |old(seen)|);
        if !err.Ok? {
          CauseBelow(c, p, i, MAX_DEPTH - depth - 1, err, |out| >= cap || |seen| >= DIFF_MAX);
          return;
        }
        StretchExtends(c, pairs[i], seen1, out1, seen, out);
        StretchExtends(c, p, old(seen), old(out), seen1, out1);
        StretchJoin(c, p, i, old(seen), old(out), seen1, out1, seen, out);
      }
    }
  }

  lemma StretchExtends(c: map<Hash, seq<byte>>, root: Pair, seen0: seq<Pair>, out0: seq<Hash>, seen: seq<Pair>,
      out: seq<Hash>)
    requires Stretch(c, root, seen0, out0, seen, out)
    ensures seen0 <= seen && out0 <= out && forall q | q in seen0 :: q in seen
  {
  }

  lemma SettledKids(c: map<Hash, seq<byte>>, p: Pair, pairs: seq<Pair>, seen: seq<Pair>, out: seq<Hash>)
    requires p.0 != p.1 && LookAt(c, p) == Descend(pairs)
    requires forall i | 0 <= i < |pairs| :: pairs[i].0 == pairs[i].1 || pairs[i] in seen
    ensures Settled(c, p, seen, out)
  {
  }

  lemma {:induction false} AllReached(c: map<Hash, seq<byte>>, p: Pair, path: seq<nat>, q: Pair, seen: seq<Pair>,
      out: seq<Hash>)
    requires AllSettled(c, seen, out, 0) && Follow(c, p, path) == Some(q)
    requires p.0 == p.1 || p in seen
    ensures q.0 == q.1 || q in seen
    decreases |path|
  {
    hide LookAt, AllSettled;
    if path != [] {
      SettledIn(c, p, seen, out);
      var ps := LookAt(c, p).pairs;
      AllReached(c, ps[path[0]], path[1..], q, seen, out);
    }
  }

  lemma SettledIn(c: map<Hash, seq<byte>>, p: Pair, seen: seq<Pair>, out: seq<Hash>)
    requires AllSettled(c, seen, out, 0) && p in seen
    ensures Settled(c, p, seen, out)
  {
    hide Settled;
    var i :| 0 <= i < |seen| && seen[i] == p;
  }

  /** The memo of a completed diff is exactly the set of pairs the plain descent visits, and
      its output exactly what the plain descent reports. */
  lemma DiffIsDescent(c: map<Hash, seq<byte>>, root: Pair, seen: seq<Pair>, out: seq<Hash>)
    requires Stretch(c, root, [], [], seen, out) && (root.0 == root.1 || root in seen)
    ensures forall p: Pair :: p in seen <==> Visited(c, root, p)
    ensures forall p: Pair :: p in seen ==> LookAt(c, p).Report? || LookAt(c, p).Descend?
    ensures forall x :: x in out <==> Reported(c, root, x)
  {
    hide LookAt, Follow;
    forall p: Pair
      ensures p in seen <==> Visited(c, root, p)
      ensures p in seen ==> Settled(c, p, seen, out)
    {
      if p in seen {
        SettledIn(c, p, seen, out);
        var i :| 0 <= i < |seen| && seen[i] == p;
        assert Visited(c, root, seen[i]);
      } else if Visited(c, root, p) {
        var path :| Follow(c, root, path) == Some(p);
        AllReached(c, root, path, p, seen, out);
      }
    }
    hide Visited;
    forall x
      ensures x in out <==> Reported(c, root, x)
    {
      if x in out {
        var i :| 0 <= i < |seen| && LookAt(c, seen[i]).Report? && seen[i].1 == x;
        assert seen[i] in seen;
      }
      if Reported(c, root, x) {
        var p: Pair :| Visited(c, root, p) && LookAt(c, p).Report? && p.1 == x;
        assert Settled(c, p, seen, out);
      }
    }
  }

  // ----- what the report covers

  /** The object reached from `x` by taking the child positions of `path`. */
  function Walk(c: map<Hash, seq<byte>>, x: Hash, path: seq<nat>): Option<Hash>
    decreases |path|
  {
    if path == [] then Some(x)
    else if x in c && path[0] < |Kids(c[x])| then Walk(c, Kids(c[x])[path[0]], path[1..])
    else None
  }

  ghost predicate Below(c: map<Hash, seq<byte>>, x: Hash, y: Hash)
  {
    exists path :: Walk(c, x, path) == Some(y)
  }

  lemma BelowChild(c: map<Hash, seq<byte>>, x: Hash, i: nat, y: Hash)
    requires x in c && i < |Kids(c[x])| && Below(c, Kids(c[x])[i], y)
    ensures Below(c, x, y)
  {
    hide Kids;
    var path :| Walk(c, Kids(c[x])[i], path) == Some(y);
    assert ([i] + path)[1..] == path;
    assert Walk(c, x, [i] + path) == Some(y);
  }

  lemma DescendKids(c: map<Hash, seq<byte>>, p: Pair)
    requires LookAt(c, p).Descend?
    ensures p.0 in c && p.1 in c && IsNode(c[p.1])
    ensures |Kids(c[p.0])| == |Kids(c[p.1])| == |LookAt(c, p).pairs|
    ensures forall i | 0 <= i < |LookAt(c, p).pairs| :: LookAt(c, p).pairs[i] == (Kids(c[p.0])[i], Kids(c[p.1])[i])
  {
  }

  lemma ReportedBelow(c: map<Hash, seq<byte>>, p: Pair, i: nat, x: Hash)
    requires p.0 != p.1 && LookAt(c, p).Descend? && i < |LookAt(c, p).pairs|
    requires Reported(c, LookAt(c, p).pairs[i], x)
    ensures Reported(c, p, x)
  {
    hide LookAt, Visited;
    var q: Pair :| Visited(c, LookAt(c, p).pairs[i], q) && LookAt(c, q).Report? && q.1 == x;
    VisitedBelow(c, p, i, q);
  }

  /** Transferring what the diff reports is enough: every leaf below the new root is below
      the old root or below a reported object. */
  lemma {:induction false} LeavesAreCovered(c: map<Hash, seq<byte>>, p: Pair, path: seq<nat>, leaf: Hash)
    requires forall q: Pair :: Visited(c, p, q) ==> LookAt(c, q).Report? || LookAt(c, q).Descend?
    requires Walk(c, p.1, path) == Some(leaf) && leaf in c && !IsNode(c[leaf])
    ensures Below(c, p.0, leaf) || exists x :: Reported(c, p, x) && Below(c, x, leaf)
    decreases |path|
  {
    hide LookAt, Visited, Kids, IsNode;
    if p.0 == p.1 {
      assert Below(c, p.0, leaf);
    } else {
      VisitedSelf(c, p);
      if LookAt(c, p).Report? {
        assert Reported(c, p, p.1) && Below(c, p.1, leaf);
      } else {
        DescendKids(c, p);
        assert path != [];
        var i := path[0];
        var q := LookAt(c, p).pairs[i];
        forall r: Pair | Visited(c, q, r)
          ensures LookAt(c, r).Report? || LookAt(c, r).Descend?
        {
          VisitedBelow(c, p, i, r);
        }
        LeavesAreCovered(c, q, path[1..], leaf);
        if Below(c, q.0, leaf) {
          BelowChild(c, p.0, i, leaf);
        } else {
          var x :| Reported(c, q, x) && Below(c, x, leaf);
          ReportedBelow(c, p, i, x);
        }
      }
    }
  }

  // ----- the diff in terms of the two graphs alone

  /** `path` leads from the roots to `a` and `b`, through nodes that are alike all the way. */
  predicate Meets(c: map<Hash, seq<byte>>, root: Pair, path: seq<nat>, a: Hash, b: Hash)
  {
    && Walk(c, root.0, path) == Some(a) && Walk(c, root.1, path) == Some(b)
    && forall k | 0 <= k < |path| :: AlikeAt(c, root, path[..k])
  }

  predicate AlikeAt(c: map<Hash, seq<byte>>, root: Pair, path: seq<nat>)
  {
    var a, b := Walk(c, root.0, path), Walk(c, root.1, path);
    a.Some? && b.Some? && Alike(c, a.value, b.value)
  }

  /** A different pair at the same place of the two graphs. */
  ghost predicate Compared(c: map<Hash, seq<byte>>, root: Pair, p: Pair)
  {
    p.0 != p.1 && exists path :: Meets(c, root, path, p.0, p.1)
  }

  /** The second of two different objects at the same place, where the graphs part: not two
      nodes with the same number of children. */
  ghost predicate Parts(c: map<Hash, seq<byte>>, root: Pair, x: Hash)
  {
    exists path, a :: Meets(c, root, path, a, x) && a != x && !Alike(c, a, x)
  }

  lemma DescendIsAlike(c: map<Hash, seq<byte>>, p: Pair, i: nat)
    ensures LookAt(c, p).Descend? && i < |LookAt(c, p).pairs| <==> Alike(c, p.0, p.1) && i < |Kids(c[p.0])|
    ensures LookAt(c, p).Descend? && i < |LookAt(c, p).pairs| ==>
              LookAt(c, p).pairs[i] == (Kids(c[p.0])[i], Kids(c[p.1])[i])
  {
  }

  lemma MeetsStep(c: map<Hash, seq<byte>>, p: Pair, path: seq<nat>, a: Hash, b: Hash)
    requires path != []
    ensures Meets(c, p, path, a, b) <==>
            && Alike(c, p.0, p.1) && path[0] < |Kids(c[p.0])|
            && Meets(c, (Kids(c[p.0])[path[0]], Kids(c[p.1])[path[0]]), path[1..], a, b)
  {
    AlikeHas(c, p.0, p.1);
    hide Kids, Alike;
    var rest := path[1..];
    assert AlikeAt(c, p, path[..0]) == Alike(c, p.0, p.1);
    if Alike(c, p.0, p.1) && path[0] < |Kids(c[p.0])| {
      var q := (Kids(c[p.0])[path[0]], Kids(c[p.1])[path[0]]);
      forall k | 0 <= k < |rest|
        ensures AlikeAt(c, q, rest[..k]) == AlikeAt(c, p, path[..k + 1])
      {
        assert path[..k + 1][1..] == rest[..k];
      }
      if Meets(c, q, rest, a, b) {
        forall k | 0 <= k < |path|
          ensures AlikeAt(c, p, path[..k])
        {
          if k > 0 {
            assert AlikeAt(c, q, rest[..k - 1]);
          }
        }
      } else if Meets(c, p, path, a, b) {
        forall k | 0 <= k < |rest|
          ensures AlikeAt(c, q, rest[..k])
        {
          assert AlikeAt(c, p, path[..k + 1]);
        }
      }
    }
  }

  lemma AlikeHas(c: map<Hash, seq<byte>>, a: Hash, b: Hash)
    ensures Alike(c, a, b) ==> a in c && b in c && |Kids(c[a])| == |Kids(c[b])|
  {
  }

  /** From equal objects every path leads to equal objects. */
  lemma MeetsEqual(c: map<Hash, seq<byte>>, x: Hash, path: seq<nat>, a: Hash, b: Hash)
    requires Meets(c, (x, x), path, a, b)
    ensures a == b
  {
    hide Walk;
  }

  /** The descent goes exactly where the graphs are alike. */
  lemma {:induction false} FollowIsMeets(c: map<Hash, seq<byte>>, root: Pair, path: seq<nat>, p: Pair)
    requires p.0 != p.1
    ensures Follow(c, root, path) == Some(p) <==> Meets(c, root, path, p.0, p.1)
    decreases |path|
  {
    if path != [] {
      var i := path[0];
      MeetsStep(c, root, path, p.0, p.1);
      DescendIsAlike(c, root, i);
      hide LookAt, Kids, Alike, Meets;
      if root.0 == root.1 {
        if Meets(c, root, path, p.0, p.1) {
          MeetsEqual(c, root.0, path, p.0, p.1);
        }
      } else if LookAt(c, root).Descend? && i < |LookAt(c, root).pairs| {
        FollowIsMeets(c, LookAt(c, root).pairs[i], path[1..], p);
      }
    }
  }

  lemma VisitedIsCompared(c: map<Hash, seq<byte>>, root: Pair, p: Pair)
    ensures Visited(c, root, p) <==> Compared(c, root, p)
  {
    hide Follow, Meets;
    if Visited(c, root, p) {
      var path :| Follow(c, root, path) == Some(p);
      FollowIsMeets(c, root, path, p);
    }
    if Compared(c, root, p) {
      var path :| Meets(c, root, path, p.0, p.1);
      FollowIsMeets(c, root, path, p);
    }
  }

  lemma ReportIsApart(c: map<Hash, seq<byte>>, p: Pair)
    requires LookAt(c, p).Report? || LookAt(c, p).Descend?
    ensures LookAt(c, p).Report? <==> !Alike(c, p.0, p.1)
  {
  }

  /** What the descent reports, where nothing is missing or malformed. */
  lemma ReportedIsParts(c: map<Hash, seq<byte>>, root: Pair, x: Hash)
    requires forall q: Pair :: Visited(c, root, q) ==> LookAt(c, q).Report? || LookAt(c, q).Descend?
    ensures Reported(c, root, x) <==> Parts(c, root, x)
  {
    hide LookAt, Visited, Meets, Alike;
    if Reported(c, root, x) {
      var p: Pair :| Visited(c, root, p) && LookAt(c, p).Report? && p.1 == x;
      VisitedIsCompared(c, root, p);
      ReportIsApart(c, p);
      var path :| Meets(c, root, path, p.0, p.1);
    }
    if Parts(c, root, x) {
      var path, a :| Meets(c, root, path, a, x) && a != x && !Alike(c, a, x);
      var p: Pair := (a, x);
      assert Compared(c, root, p);
      VisitedIsCompared(c, root, p);
      ReportIsApart(c, p);
    }
  }

  /** Two objects of which one is empty, or two nodes of which one is malformed. */
  predicate Spoiled(c: map<Hash, seq<byte>>, p: Pair)
  {
    && p.0 in c && p.1 in c
    && (|| c[p.0] == [] || c[p.1] == []
        || (IsNode(c[p.0]) && IsNode(c[p.1]) && !(WellFormedNode(c[p.0]) && WellFormedNode(c[p.1]))))
  }

  /** Why a diff fails. */
  ghost predicate Obstacle(c: map<Hash, seq<byte>>, root: Pair, status: SlsStatus, full: bool)
  {
    match status
    case Miss => exists p: Pair :: Compared(c, root, p) && !(p.0 in c && p.1 in c)
    case Malformed => exists p: Pair :: Compared(c, root, p) && Spoiled(c, p)
    case TooMany => full
    case TooDeep => exists path, a, b :: |path| == MAX_DEPTH && a != b && Meets(c, root, path, a, b)
    case _ => false
  }

  lemma LookFails(c: map<Hash, seq<byte>>, p: Pair)
    ensures LookAt(c, p).Missing? <==> !(p.0 in c && p.1 in c)
    ensures LookAt(c, p).Bad? <==> Spoiled(c, p)
  {
  }

  lemma CauseIsObstacle(c: map<Hash, seq<byte>>, root: Pair, status: SlsStatus, full: bool)
    requires Cause(c, root, MAX_DEPTH, status, full)
    ensures Obstacle(c, root, status, full)
  {
    hide LookAt, Visited, Compared, Meets, Follow, Spoiled;
    match status
    case Miss =>
      var q: Pair :| Visited(c, root, q) && LookAt(c, q).Missing?;
      VisitedIsCompared(c, root, q);
      LookFails(c, q);
    case Malformed =>
      var q: Pair :| Visited(c, root, q) && LookAt(c, q).Bad?;
      VisitedIsCompared(c, root, q);
      LookFails(c, q);
    case TooDeep =>
      var path, q: Pair :| |path| == MAX_DEPTH && Reach(c, root, path, q);
      FollowIsMeets(c, root, path, q);
    case _ =>
  }

  /** The output and the memo of a completed diff, on the two graphs. */
  lemma DiffIsPrecise(c: map<Hash, seq<byte>>, root: Pair, seen: seq<Pair>, out: seq<Hash>)
    requires Stretch(c, root, [], [], seen, out) && (root.0 == root.1 || root in seen)
    ensures forall x :: x in out <==> Parts(c, root, x)
    ensures forall p: Pair :: p in seen <==> Compared(c, root, p)
    ensures forall p: Pair | p in seen :: p.0 in c && p.1 in c && !Spoiled(c, p)
  {
    hide LookAt, Visited, Compared, Reported, Parts, Stretch, Spoiled;
    DiffIsDescent(c, root, seen, out);
    forall p: Pair
      ensures Visited(c, root, p) <==> Compared(c, root, p)
      ensures p in seen ==> p.0 in c && p.1 in c && !Spoiled(c, p)
    {
      VisitedIsCompared(c, root, p);
      LookFails(c, p);
    }
    forall x
      ensures x in out <==> Parts(c, root, x)
    {
      ReportedIsParts(c, root, x);
    }
  }

  /** Where the roots already part, nothing below them is reported. */
  lemma PartsAtRoot(c: map<Hash, seq<byte>>, root: Pair, x: Hash)
    requires root.0 != root.1 && !Alike(c, root.0, root.1)
    ensures Parts(c, root, x) <==> x == root.1
  {
    if Parts(c, root, x) {
      var path, a :| Meets(c, root, path, a, x) && a != x && !Alike(c, a, x);
      if path != [] {
        MeetsStep(c, root, path, a, x);
      }
    }
    assert Meets(c, root, [], root.0, root.1);
  }

  /** Nodes with one and with two children: different leaves lie at position 0, and the diff is
      the root of B alone. */
  lemma OtherArityHidesLeaves(c: map<Hash, seq<byte>>, root: Pair, x: Hash, y: Hash, z: Hash)
    requires root.0 in c && root.1 in c && x in c && y in c && !IsNode(c[x]) && !IsNode(c[y])
    requires Kids(c[root.0]) == [x] && Kids(c[root.1]) == [y, z] && x != y && y != root.1 && root.0 != root.1
    ensures Walk(c, root.0, [0]) == Some(x) && Walk(c, root.1, [0]) == Some(y) && !Parts(c, root, y)
  {
    hide Kids, IsNode, Parts;
    assert [0][1..] == [];
    PartsAtRoot(c, root, y);
  }

  /** Transferring what the diff reports is enough, on the two graphs. */
  lemma TransferSuffices(c: map<Hash, seq<byte>>, root: Pair, path: seq<nat>, leaf: Hash)
    requires forall p: Pair | Compared(c, root, p) :: p.0 in c && p.1 in c && !Spoiled(c, p)
    requires Walk(c, root.1, path) == Some(leaf) && leaf in c && !IsNode(c[leaf])
    ensures Below(c, root.0, leaf) || exists x :: Parts(c, root, x) && Below(c, x, leaf)
  {
    hide LookAt, Visited, Compared, Reported, Parts, Spoiled, IsNode, Walk, Below;
    forall q: Pair | Visited(c, root, q)
      ensures LookAt(c, q).Report? || LookAt(c, q).Descend?
    {
      VisitedIsCompared(c, root, q);
      LookFails(c, q);
    }
    LeavesAreCovered(c, root, path, leaf);
    if !Below(c, root.0, leaf) {
      var x :| Reported(c, root, x) && Below(c, x, leaf);
      ReportedIsParts(c, root, x);
    }
  }

  /** `cvsasx_sls_diff`. When it succeeds: the output is duplicate-free and holds exactly the
      objects of B at which the two graphs part; two objects were resolved per distinct different
      pair at the same place, and one comparison made for the roots and each child position of
      two nodes alike. */
  method Diff(store: Store, rootA: Hash, rootB: Hash, cap: nat)
      returns (status: SlsStatus, out: seq<Hash>, gets: nat, cmps: nat, ghost memo: seq<Pair>)
    requires store.Valid()
    ensures NoDup(out) && NoDup(memo) && |out| <= cap && |memo| <= DIFF_MAX
    ensures 2 * |memo| - 1 <= gets <= 2 * |memo| && (gets < 2 * |memo| ==> status.Miss?)
    ensures cmps <= 1 + Arities(store.Contents(), memo, 0)
    ensures status.Ok? ==>
              && (forall x :: x in out <==> Parts(store.Contents(), (rootA, rootB), x))
              && (forall p: Pair :: p in memo <==> Compared(store.Contents(), (rootA, rootB), p))
              && (forall p: Pair | p in memo ::
                    p.0 in store.Contents() && p.1 in store.Contents() && !Spoiled(store.Contents(), p))
              && cmps == 1 + Arities(store.Contents(), memo, 0)
    ensures !status.Ok? ==>
      Obstacle(store.Contents(), (rootA, rootB), status, |out| >= cap || |memo| >= DIFF_MAX)
  {
    hide Stretch, Store.Valid, Index, Compared, Parts, Cause, Obstacle, Spoiled, Alike;
    var ctx := new DiffCtx(store, cap);
    ctx.DiffRec((rootA, rootB), 0);
    status, out, gets, cmps, memo := ctx.err, ctx.out, ctx.gets, ctx.cmps, ctx.seen;
    if status.Ok? {
      DiffIsPrecise(store.Contents(), (rootA, rootB), memo, out);
    } else {
      CauseIsObstacle(store.Contents(), (rootA, rootB), status, |out| >= cap || |memo| >= DIFF_MAX);
    }
  }
}

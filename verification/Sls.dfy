/** The Merkle object graph over the store: tagged serialization of leaves and nodes,
    structural sharing by content address, and why the graph has no cycles. */
module Sls {
  import opened Bits
  import opened ObjectStore

  const LEAF: byte := 0
  const NODE: byte := 1
  const MAX_CHILDREN: nat := 16
  const MAX_LEAF: nat := 1024

  datatype SlsStatus = Ok | StoreFull | Miss | Malformed | TooMany | TooDeep

  function LeafBytes(data: seq<byte>): seq<byte>
  {
    [LEAF] + data
  }

  function Join(cs: seq<Hash>): (s: seq<byte>)
    ensures |s| == 32 * |cs|
  {
    if cs == [] then [] else Join(cs[..|cs| - 1]) + cs[|cs| - 1]
  }

  /** Tag, child count in four little-endian bytes, child addresses. */
  function NodeBytes(cs: seq<Hash>): (s: seq<byte>)
    requires |cs| <= MAX_CHILDREN
    ensures |s| == 5 + 32 * |cs|
  {
    [NODE, |cs|, 0, 0, 0] + Join(cs)
  }

  predicate IsNode(b: seq<byte>)
  {
    |b| >= 1 && b[0] == NODE
  }

  function Count(b: seq<byte>): nat
    requires |b| >= 5
  {
    b[1] as int + 0x100 * (b[2] as int) + 0x1_0000 * (b[3] as int) + 0x100_0000 * (b[4] as int)
  }

  /** A node whose count is within bounds and whose length fits it. */
  predicate WellFormedNode(b: seq<byte>)
  {
    IsNode(b) && |b| >= 5 && Count(b) <= MAX_CHILDREN && |b| == 5 + 32 * Count(b)
  }

  function ChildAt(b: seq<byte>, i: nat): Hash
    requires 5 + 32 * (i + 1) <= |b|
  {
    b[5 + 32 * i..5 + 32 * i + 32]
  }

  /** The children of an object; a leaf, or anything that is not a node, has none. */
  function Kids(b: seq<byte>): (cs: seq<Hash>)
    ensures WellFormedNode(b) ==> |cs| == Count(b)
  {
    if WellFormedNode(b) then seq<Hash>(Count(b), i requires 0 <= i < Count(b) => ChildAt(b, i)) else []
  }

  lemma {:induction false} JoinSlice(cs: seq<Hash>, i: nat)
    requires i < |cs|
    ensures Join(cs)[32 * i..32 * i + 32] == cs[i]
  {
    if i < |cs| - 1 {
      var init := cs[..|cs| - 1];
      JoinSlice(init, i);
      assert Join(cs)[32 * i..32 * i + 32] == Join(init)[32 * i..32 * i + 32];
    }
  }

  /** A node reads back as the children it was built from, a leaf as having none. */
  lemma NodeRoundTrip(cs: seq<Hash>)
    requires |cs| <= MAX_CHILDREN
    ensures WellFormedNode(NodeBytes(cs)) && Kids(NodeBytes(cs)) == cs
  {
    hide Join;
    var b := NodeBytes(cs);
    assert Count(b) == |cs|;
    forall i | 0 <= i < |cs|
      ensures Kids(b)[i] == cs[i]
    {
      JoinSlice(cs, i);
      assert ChildAt(b, i) == Join(cs)[32 * i..32 * i + 32];
    }
  }

  /** Each child of the object at `i` is stored at a smaller position. */
  predicate ChildrenBelow(h: HashFn, objs: seq<seq<byte>>, i: nat)
    requires i < |objs|
  {
    forall c | c in Kids(objs[i]) :: exists j :: 0 <= j < i && h(objs[j]) == c
  }

  predicate Ordered(h: HashFn, objs: seq<seq<byte>>)
  {
    forall i | 0 <= i < |objs| :: ChildrenBelow(h, objs, i)
  }

  lemma OrderedAppend(h: HashFn, objs: seq<seq<byte>>, x: seq<byte>)
    requires Distinct(h, objs) && Ordered(h, objs)
    requires forall c | c in Kids(x) :: c in Index(h, objs)
    ensures Ordered(h, objs + [x])
  {
    hide Kids, Index;
    var objs' := objs + [x];
    forall i | 0 <= i < |objs'|
      ensures ChildrenBelow(h, objs', i)
    {
      forall c | c in Kids(objs'[i])
        ensures exists j :: 0 <= j < i && h(objs'[j]) == c
      {
        if i < |objs| {
          assert ChildrenBelow(h, objs, i);
          var j :| 0 <= j < i && h(objs[j]) == c;
          assert h(objs'[j]) == c;
        } else {
          Resident(h, objs, c);
          var j :| 0 <= j < |objs| && h(objs[j]) == c;
          assert h(objs'[j]) == c;
        }
      }
    }
  }

  /** What is resident stays resident, unchanged, as the store grows. */
  lemma {:induction false} IndexGrows(h: HashFn, objs: seq<seq<byte>>, objs': seq<seq<byte>>, x: Hash)
    requires Distinct(h, objs') && objs <= objs' && x in Index(h, objs)
    ensures x in Index(h, objs') && Index(h, objs')[x] == Index(h, objs)[x]
  {
    IndexInv(h, objs, x);
    var i :| 0 <= i < |objs| && objs[i] == Index(h, objs)[x];
    assert objs'[i] == objs[i];
    IndexAt(h, objs', i);
  }

  /** Consecutive entries are a resident parent and one of its children. */
  predicate IsPath(c: map<Hash, seq<byte>>, path: seq<Hash>)
  {
    forall k | 0 <= k < |path| - 1 :: path[k] in c && path[k + 1] in Kids(c[path[k]])
  }

  /** Along a path positions strictly decrease. */
  lemma {:induction false} PathDescends(h: HashFn, objs: seq<seq<byte>>, path: seq<Hash>, i: nat) returns (j: nat)
    requires Distinct(h, objs) && Ordered(h, objs) && IsPath(Index(h, objs), path) && path != []
    requires i < |objs| && h(objs[i]) == path[0]
    ensures j <= i && (|path| > 1 ==> j < i) && h(objs[j]) == path[|path| - 1]
    decreases |path|
  {
    hide Kids;
    if |path| == 1 {
      return i;
    }
    IndexAt(h, objs, i);
    assert path[0] in Index(h, objs) && path[0 + 1] in Kids(Index(h, objs)[path[0]]);
    assert ChildrenBelow(h, objs, i);
    var k :| 0 <= k < i && h(objs[k]) == path[1];
    assert IsPath(Index(h, objs), path[1..]) by { TailIsPath(Index(h, objs), path); }
    j := PathDescends(h, objs, path[1..], k);
  }

  lemma TailIsPath(c: map<Hash, seq<byte>>, path: seq<Hash>)
    requires IsPath(c, path) && path != []
    ensures IsPath(c, path[1..])
  {
    hide Kids;
    forall k | 0 <= k < |path[1..]| - 1
      ensures path[1..][k] in c && path[1..][k + 1] in Kids(c[path[1..][k]])
    {
      assert path[k + 1] in c && path[k + 1 + 1] in Kids(c[path[k + 1]]);
    }
  }

  /** No object of an ordered store is below itself. */
  lemma Acyclic(h: HashFn, objs: seq<seq<byte>>, path: seq<Hash>)
    requires Distinct(h, objs) && Ordered(h, objs) && IsPath(Index(h, objs), path) && |path| > 1
    ensures path[0] != path[|path| - 1]
  {
    hide Kids, Index;
    assert path[0] in Index(h, objs) && path[0 + 1] in Kids(Index(h, objs)[path[0]]);
    Resident(h, objs, path[0]);
    var i :| 0 <= i < |objs| && h(objs[i]) == path[0];
    var j := PathDescends(h, objs, path, i);
    assert h(objs[j]) != h(objs[i]);
  }

  /** The bytes collide with nothing that is already stored. */
  predicate NoCollision(h: HashFn, b: seq<byte>, c: map<Hash, seq<byte>>)
  {
    h(b) in c ==> c[h(b)] == b
  }

  ghost predicate HasRoom(s: Store, len: nat)
    reads s
  {
    s.indexCount < s.index.Length && len <= s.arena.Length - s.arenaUsed
  }

  /** Store serialized bytes; what was resident stays, and the order is kept if the
      children are resident. */
  method PutObject(s: Store, b: seq<byte>) returns (status: SlsStatus, oid: Option<Hash>)
    requires s.Valid()
    modifies s, s.arena, s.index
    ensures s.Valid() && oid == (if status.Ok? then Some(s.h(b)) else None) && (status.Ok? || status.StoreFull?)
    ensures s.Objs == if status.Ok? && s.h(b) !in old(s.Contents()) then old(s.Objs) + [b] else old(s.Objs)
    ensures status.Ok? <==> s.h(b) in old(s.Contents()) || old(HasRoom(s, |b|))
    ensures status.Ok? ==> s.h(b) in s.Contents()
    ensures status.Ok? && NoCollision(s.h, b, old(s.Contents())) ==> s.Contents()[s.h(b)] == b
    ensures Ordered(s.h, old(s.Objs)) && (forall c | c in Kids(b) :: c in old(s.Contents())) ==> Ordered(s.h, s.Objs)
  {
    hide Index, Kids, Ordered, Distinct;
    ghost var objs := s.Objs;
    var st, hash := s.Put(b);
    IndexAppend(s.h, objs, b);
    if Ordered(s.h, objs) && forall c | c in Kids(b) :: c in Index(s.h, objs) {
      OrderedAppend(s.h, objs, b);
    }
    return if st.StoreOk? then Ok else StoreFull, hash;
  }

  method PutLeaf(s: Store, data: seq<byte>) returns (status: SlsStatus, oid: Option<Hash>)
    requires s.Valid()
    modifies s, s.arena, s.index
    ensures s.Valid() && old(s.Objs) <= s.Objs
    ensures |data| > MAX_LEAF <==> status.TooMany?
    ensures status in {Ok, StoreFull, TooMany} && (!status.Ok? ==> s.Objs == old(s.Objs))
    ensures status.StoreFull? ==> s.h(LeafBytes(data)) !in old(s.Contents()) && !old(HasRoom(s, |LeafBytes(data)|))
    ensures status.Ok? ==> s.h(LeafBytes(data)) in s.Contents()
    ensures oid == if status.Ok? then Some(s.h(LeafBytes(data))) else None
    ensures status.Ok? && NoCollision(s.h, LeafBytes(data), old(s.Contents())) ==>
      s.Contents()[s.h(LeafBytes(data))] == LeafBytes(data)
    ensures Ordered(s.h, old(s.Objs)) ==> Ordered(s.h, s.Objs)
  {
    hide Ordered, Index;
    if |data| > MAX_LEAF {
      return TooMany, None;
    }
    assert Kids(LeafBytes(data)) == [];
    status, oid := PutObject(s, LeafBytes(data));
  }

  method PutNode(s: Store, children: seq<Hash>) returns (status: SlsStatus, oid: Option<Hash>)
    requires s.Valid()
    modifies s, s.arena, s.index
    ensures s.Valid() && old(s.Objs) <= s.Objs
    ensures |children| > MAX_CHILDREN <==> status.TooMany?
    ensures status in {Ok, StoreFull, TooMany} && (!status.Ok? ==> s.Objs == old(s.Objs))
    ensures status.StoreFull? ==>
      s.h(NodeBytes(children)) !in old(s.Contents()) && !old(HasRoom(s, |NodeBytes(children)|))
    ensures status.Ok? ==> s.h(NodeBytes(children)) in s.Contents()
    ensures oid == if status.Ok? then Some(s.h(NodeBytes(children))) else None
    ensures status.Ok? && NoCollision(s.h, NodeBytes(children), old(s.Contents())) ==>
              Kids(s.Contents()[s.h(NodeBytes(children))]) == children
    ensures Ordered(s.h, old(s.Objs)) && (forall c | c in children :: c in old(s.Contents())) ==> Ordered(s.h, s.Objs)
  {
    hide Ordered, Index, Kids, NodeBytes, WellFormedNode;
    if |children| > MAX_CHILDREN {
      return TooMany, None;
    }
    var buf: seq<byte> := [NODE, |children|, 0, 0, 0];
    for c := 0 to |children|
      invariant buf == [NODE, |children|, 0, 0, 0] + Join(children[..c])
    {
      assert children[..c + 1][..c] == children[..c];
      buf := buf + children[c];
    }
    assert children[..|children|] == children;
    assert buf == NodeBytes(children) by { NodeBytesIs(children); }
    NodeRoundTrip(children);
    status, oid := PutObject(s, buf);
  }

  lemma NodeBytesIs(cs: seq<Hash>)
    requires |cs| <= MAX_CHILDREN
    ensures NodeBytes(cs) == [NODE, |cs|, 0, 0, 0] + Join(cs)
  {
  }

  datatype BuildOp = MakeLeaf(data: seq<byte>) | MakeNode(children: seq<Hash>)

  /** Every run of leaf and node constructions over resident children keeps the order that
      makes the graph acyclic, and keeps everything that was stored. */
  method BuildRun(s: Store, ops: seq<BuildOp>)
    requires s.Valid() && Ordered(s.h, s.Objs)
    modifies s, s.arena, s.index
    ensures s.Valid() && Ordered(s.h, s.Objs)
    ensures forall x | x in old(s.Contents()) :: x in s.Contents() && s.Contents()[x] == old(s.Contents())[x]
  {
    hide Ordered;
    for i := 0 to |ops|
      invariant s.Valid() && Ordered(s.h, s.Objs) && old(s.Objs) <= s.Objs
    {
      match ops[i]
      case MakeLeaf(data) =>
        var _, _ := PutLeaf(s, data);
      case MakeNode(children) =>
        var all := AllResident(s, children);
        if all {
          var _, _ := PutNode(s, children);
        }
    }
    forall x | x in old(s.Contents())
      ensures x in s.Contents() && s.Contents()[x] == old(s.Contents())[x]
    {
      IndexGrows(s.h, old(s.Objs), s.Objs, x);
    }
  }

  method AllResident(s: Store, cs: seq<Hash>) returns (all: bool)
    requires s.Valid()
    ensures all <==> forall c | c in cs :: c in s.Contents()
  {
    hide Index;
    for i := 0 to |cs|
      invariant forall j | 0 <= j < i :: cs[j] in s.Contents()
    {
      var here := s.Exists(cs[i]);
      if !here {
        return false;
      }
    }
    return true;
  }
}

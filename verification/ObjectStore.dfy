/** The content-addressed object store: an append-only arena with an index of hashes.
    The hash function is a parameter. */
module ObjectStore {
  import opened Bits

  type Hash = s: seq<byte> | |s| == 32 witness seq(32, _ => 0)

  type HashFn = seq<byte> -> Hash

  datatype Entry = Entry(hash: Hash, offset: nat, len: nat)

  datatype StoreStatus = StoreOk | Full

  /** The bytes of all objects, in the order in which they were stored. */
  function Flatten(objs: seq<seq<byte>>): seq<byte>
  {
    if objs == [] then [] else Flatten(objs[..|objs| - 1]) + objs[|objs| - 1]
  }

  /** The map from content address to object that a list of objects stands for. */
  function Index(h: HashFn, objs: seq<seq<byte>>): map<Hash, seq<byte>>
  {
    if objs == [] then map[]
    else var last := objs[|objs| - 1]; Index(h, objs[..|objs| - 1])[h(last) := last]
  }

  predicate Distinct(h: HashFn, objs: seq<seq<byte>>)
  {
    forall i, j | 0 <= i < j < |objs| :: h(objs[i]) != h(objs[j])
  }

  lemma {:induction false} FlattenPrefix(objs: seq<seq<byte>>, i: nat)
    requires i <= |objs|
    ensures Flatten(objs[..i]) <= Flatten(objs)
    decreases |objs|
  {
    if i == |objs| {
      assert objs[..i] == objs;
    } else {
      FlattenPrefix(objs[..|objs| - 1], i);
      assert objs[..|objs| - 1][..i] == objs[..i];
    }
  }

  /** Object `i` is the slice of the arena right after the objects before it. */
  lemma FlattenSlice(objs: seq<seq<byte>>, i: nat)
    requires i < |objs|
    ensures |Flatten(objs[..i])| + |objs[i]| <= |Flatten(objs)|
    ensures Flatten(objs)[|Flatten(objs[..i])|..|Flatten(objs[..i])| + |objs[i]|] == objs[i]
  {
    var front, x := Flatten(objs[..i]), objs[i];
    FlattenPrefix(objs, i + 1);
    FlattenAppend(objs[..i], x);
    hide Flatten;
    assert objs[..i + 1] == objs[..i] + [x];
    MiddleSlice(front, x, Flatten(objs));
  }

  lemma MiddleSlice(a: seq<byte>, b: seq<byte>, whole: seq<byte>)
    requires a + b <= whole
    ensures |a| + |b| <= |whole| && whole[|a|..|a| + |b|] == b
  {
    assert whole[..|a| + |b|] == a + b;
  }

  lemma FlattenAppend(objs: seq<seq<byte>>, x: seq<byte>)
    ensures Flatten(objs + [x]) == Flatten(objs) + x
  {
    assert (objs + [x])[..|objs|] == objs;
  }

  lemma IndexAppend(h: HashFn, objs: seq<seq<byte>>, x: seq<byte>)
    ensures Index(h, objs + [x]) == Index(h, objs)[h(x) := x]
  {
    assert (objs + [x])[..|objs|] == objs;
  }

  lemma {:induction false} IndexAt(h: HashFn, objs: seq<seq<byte>>, i: nat)
    requires Distinct(h, objs) && i < |objs|
    ensures h(objs[i]) in Index(h, objs) && Index(h, objs)[h(objs[i])] == objs[i]
    decreases |objs|
  {
    if i < |objs| - 1 {
      IndexAt(h, objs[..|objs| - 1], i);
    }
  }

  /** Every resident address is the hash of the object it leads to. */
  lemma {:induction false} IndexInv(h: HashFn, objs: seq<seq<byte>>, x: Hash)
    requires x in Index(h, objs)
    ensures h(Index(h, objs)[x]) == x
    ensures exists i :: 0 <= i < |objs| && objs[i] == Index(h, objs)[x]
    decreases |objs|
  {
    var last := objs[|objs| - 1];
    if h(last) == x {
      assert objs[|objs| - 1] == Index(h, objs)[x];
    } else {
      var init := objs[..|objs| - 1];
      IndexInv(h, init, x);
      var i :| 0 <= i < |init| && init[i] == Index(h, init)[x];
      assert objs[i] == Index(h, objs)[x];
    }
  }

  /** `cvsasx_hash_eq`: no early exit. */
  method HashEq(a: Hash, b: Hash) returns (eq: bool)
    ensures eq <==> a == b
  {
    var diff := false;
    for i := 0 to 32
      invariant diff <==> a[..i] != b[..i]
    {
      assert a[..i + 1] == a[..i] + [a[i]] && b[..i + 1] == b[..i] + [b[i]];
      diff := diff || a[i] != b[i];
    }
    assert a[..32] == a && b[..32] == b;
    return !diff;
  }

  class Store {
    const h: HashFn
    const arena: array<byte>
    const index: array<Entry>
    var arenaUsed: nat
    var indexCount: nat
    var putCalls: nat
    var dedupHits: nat
    var bytesStored: nat
    ghost var Objs: seq<seq<byte>>
    ghost var Refused: nat

    /** The entries tile the arena; addresses are the hashes of their objects and distinct. */
    ghost predicate Tiled()
      reads this, arena, index
    {
      && indexCount == |Objs| <= index.Length
      && arenaUsed == |Flatten(Objs)| <= arena.Length && arena[..arenaUsed] == Flatten(Objs)
      && Distinct(h, Objs)
      && (forall i | 0 <= i < indexCount :: index[i] == Entry(h(Objs[i]), |Flatten(Objs[..i])|, |Objs[i]|))
    }

    ghost predicate Valid()
      reads this, arena, index
    {
      Tiled() && bytesStored == arenaUsed && putCalls == dedupHits + indexCount + Refused
    }

    ghost function Contents(): map<Hash, seq<byte>>
      reads this
    {
      Index(h, Objs)
    }

    constructor (h: HashFn, arena: array<byte>, index: array<Entry>)
      ensures Valid() && Objs == [] && Contents() == map[]
      ensures this.h == h && this.arena == arena && this.index == index
    {
      this.h := h;
      this.arena := arena;
      this.index := index;
      arenaUsed, indexCount, putCalls, dedupHits, bytesStored := 0, 0, 0, 0, 0;
      Objs := [];
      Refused := 0;
    }

    /** `find_entry`: the linear scan. */
    method FindEntry(hash: Hash) returns (at: Option<nat>)
      requires Tiled()
      ensures at.Some? ==> at.value < |Objs| && h(Objs[at.value]) == hash
      ensures at.None? ==> forall j | 0 <= j < |Objs| :: h(Objs[j]) != hash
    {
      for i := 0 to indexCount
        invariant forall j | 0 <= j < i :: h(Objs[j]) != hash
      {
        var eq := HashEq(index[i].hash, hash);
        if eq {
          return Some(i);
        }
      }
      return None;
    }

    /** `cvsasx_store_put`: idempotent; a new object is appended and nothing else moves. The
        hash is given out only for a resident object. */
    method Put(bytes: seq<byte>) returns (status: StoreStatus, hash: Option<Hash>)
      requires Valid()
      modifies this, arena, index
      ensures Valid() && hash == if status.StoreOk? then Some(h(bytes)) else None
      ensures putCalls == old(putCalls) + 1
      ensures h(bytes) in old(Contents()) ==> status.StoreOk? && Objs == old(Objs) && dedupHits == old(dedupHits) + 1
      ensures h(bytes) !in old(Contents()) ==>
                && dedupHits == old(dedupHits)
                && (status.StoreOk? <==> old(indexCount) < index.Length && |bytes| <= arena.Length - old(arenaUsed))
                && (!status.StoreOk? ==> status.Full?)
                && Objs == (if status.StoreOk? then old(Objs) + [bytes] else old(Objs))
    {
      hide Flatten, Index, Distinct;
      var addr := h(bytes);
      putCalls := putCalls + 1;
      var at := FindEntry(addr);
      Resident(h, Objs, addr);
      if at.Some? {
        dedupHits := dedupHits + 1;
        return StoreOk, Some(addr);
      }
      if indexCount >= index.Length || |bytes| > arena.Length - arenaUsed {
        Refused := Refused + 1;
        return Full, None;
      }
      Append(bytes, addr);
      return StoreOk, Some(addr);
    }

    method Append(bytes: seq<byte>, hash: Hash)
      requires Tiled() && indexCount < index.Length && |bytes| <= arena.Length - arenaUsed && hash == h(bytes)
      requires forall j | 0 <= j < |Objs| :: h(Objs[j]) != hash
      modifies this`arenaUsed, this`indexCount, this`bytesStored, this`Objs, arena, index
      ensures Tiled() && Objs == old(Objs) + [bytes] && bytesStored == old(bytesStored) + |bytes|
      ensures arenaUsed == old(arenaUsed) + |bytes|
    {
      hide Flatten;
      FlattenAppend(Objs, bytes);
      forall i | 0 <= i < |bytes| {
        arena[arenaUsed + i] := bytes[i];
      }
      index[indexCount] := Entry(hash, arenaUsed, |bytes|);
      ghost var objs := Objs + [bytes];
      assert forall i | 0 <= i <= indexCount :: objs[..i] == Objs[..i];
      assert Objs[..indexCount] == Objs;
      indexCount := indexCount + 1;
      arenaUsed := arenaUsed + |bytes|;
      bytesStored := bytesStored + |bytes|;
      Objs := objs;
    }

    /** `cvsasx_store_get`: a view of the resident object, or a miss. */
    method Get(hash: Hash) returns (r: Option<seq<byte>>)
      requires Valid()
      ensures r == if hash in Contents() then Some(Contents()[hash]) else None
    {
      hide Flatten, Index, Distinct;
      var at := FindEntry(hash);
      Resident(h, Objs, hash);
      if at.None? {
        return None;
      }
      var e := index[at.value];
      FlattenSlice(Objs, at.value);
      IndexAt(h, Objs, at.value);
      r := Some(arena[e.offset..e.offset + e.len]);
      assert arena[e.offset..e.offset + e.len] == arena[..arenaUsed][e.offset..e.offset + e.len];
    }

    method Exists(hash: Hash) returns (r: bool)
      requires Valid()
      ensures r <==> hash in Contents()
    {
      var at := FindEntry(hash);
      Resident(h, Objs, hash);
      return at.Some?;
    }
  }

  lemma Resident(h: HashFn, objs: seq<seq<byte>>, x: Hash)
    requires Distinct(h, objs)
    ensures x in Index(h, objs) <==> exists i :: 0 <= i < |objs| && h(objs[i]) == x
  {
    if x in Index(h, objs) {
      IndexInv(h, objs, x);
    } else {
      forall i | 0 <= i < |objs|
        ensures h(objs[i]) != x
      {
        IndexAt(h, objs, i);
      }
    }
  }
}

/** Canonical packing of an authority set: sort by hash in place, then serialize; and the
    destination's field-by-field reading of it. */
module AuthSet {
  import opened Bits
  import opened Wire
  import opened ObjectStore
  import opened SwCap
  import opened TrustStore

  datatype SetCap = SetCap(hash: Hash, rights: u32, length: u64)

  // ----- the order on hashes

  predicate Less(a: seq<byte>, b: seq<byte>)
    requires |a| == |b|
  {
    a != [] && (a[0] < b[0] || (a[0] == b[0] && Less(a[1..], b[1..])))
  }

  lemma {:induction false} LessTrans(a: seq<byte>, b: seq<byte>, c: seq<byte>)
    requires |a| == |b| == |c| && Less(a, b) && Less(b, c)
    ensures Less(a, c)
  {
    if a[0] == b[0] == c[0] {
      LessTrans(a[1..], b[1..], c[1..]);
    }
  }

  lemma {:induction false} LessTotal(a: seq<byte>, b: seq<byte>)
    requires |a| == |b|
    ensures Less(a, b) || Less(b, a) || a == b
    ensures !(Less(a, b) && Less(b, a)) && (a == b ==> !Less(a, b))
  {
    if a != [] {
      LessTotal(a[1..], b[1..]);
      assert a == [a[0]] + a[1..] && b == [b[0]] + b[1..];
    }
  }

  /** Equal prefixes drop out of the comparison. */
  lemma {:induction false} LessAfter(a: seq<byte>, b: seq<byte>, i: nat)
    requires |a| == |b| && i <= |a| && a[..i] == b[..i]
    ensures Less(a, b) == Less(a[i..], b[i..])
    decreases i
  {
    if i > 0 {
      assert a[0] == a[..i][0] && b[0] == b[..i][0];
      assert a[1..][..i - 1] == a[..i][1..] && b[1..][..i - 1] == b[..i][1..];
      LessAfter(a[1..], b[1..], i - 1);
      assert a[1..][i - 1..] == a[i..] && b[1..][i - 1..] == b[i..];
      assert Less(a, b) == Less(a[1..], b[1..]);
    } else {
      assert a[0..] == a && b[0..] == b;
    }
  }

  /** `dm_hcmp`. */
  method HashCompare(a: Hash, b: Hash) returns (c: int)
    ensures c < 0 <==> Less(a, b)
    ensures c > 0 <==> Less(b, a)
    ensures c == 0 <==> a == b
  {
    LessTotal(a, b);
    for i := 0 to 32
      invariant a[..i] == b[..i]
    {
      LessAfter(a, b, i);
      LessAfter(b, a, i);
      if a[i] < b[i] {
        return -1;
      }
      if a[i] > b[i] {
        return 1;
      }
      assert a[..i + 1] == a[..i] + [a[i]] && b[..i + 1] == b[..i] + [b[i]];
    }
    assert a == a[..32] && b == b[..32];
    return 0;
  }

  // ----- sorting

  predicate Leq(a: SetCap, b: SetCap)
  {
    !Less(b.hash, a.hash)
  }

  predicate SortedBy(s: seq<SetCap>)
  {
    forall i, j | 0 <= i < j < |s| :: Leq(s[i], s[j])
  }

  lemma LeqTrans(a: SetCap, b: SetCap, c: SetCap)
    requires Leq(a, b) && Leq(b, c)
    ensures Leq(a, c)
  {
    hide Less;
    LessTotal(a.hash, b.hash);
    LessTotal(b.hash, c.hash);
    LessTotal(a.hash, c.hash);
    if Less(a.hash, b.hash) && Less(b.hash, c.hash) {
      LessTrans(a.hash, b.hash, c.hash);
    }
  }

  /** The capabilities for one hash, in order of appearance. */
  function For(s: seq<SetCap>, h: Hash): seq<SetCap>
  {
    if s == [] then []
    else (if s[0].hash == h then [s[0]] else []) + For(s[1..], h)
  }

  /** Same capabilities, those with the same hash in the same order. */
  ghost predicate SameUpToOrder(s: seq<SetCap>, t: seq<SetCap>)
  {
    |s| == |t| && forall h: Hash :: For(s, h) == For(t, h)
  }

  lemma {:induction false} ForSplit(s: seq<SetCap>, t: seq<SetCap>, h: Hash)
    ensures For(s + t, h) == For(s, h) + For(t, h)
  {
    if s != [] {
      ForSplit(s[1..], t, h);
      assert (s + t)[1..] == s[1..] + t;
    } else {
      assert s + t == t;
    }
  }

  /** Exchanging two neighbours with different hashes keeps every one of these lists. */
  lemma SwapKeeps(s: seq<SetCap>, j: nat)
    requires j + 1 < |s| && s[j].hash != s[j + 1].hash
    ensures SameUpToOrder(s, s[j := s[j + 1]][j + 1 := s[j]])
  {
    var a, b, x, y := s[..j], s[j + 2..], s[j], s[j + 1];
    var t := s[j := y][j + 1 := x];
    assert s == a + ([x, y] + b) && t == a + ([y, x] + b);
    forall h: Hash
      ensures For(s, h) == For(t, h)
    {
      ForSplit(a, [x, y] + b, h);
      ForSplit(a, [y, x] + b, h);
      ForSplit([x, y], b, h);
      ForSplit([y, x], b, h);
      TwoFor(x, y, h);
      TwoFor(y, x, h);
    }
  }

  lemma TwoFor(x: SetCap, y: SetCap, h: Hash)
    ensures For([x, y], h) == (if x.hash == h then [x] else []) + (if y.hash == h then [y] else [])
  {
    assert [x, y][1..] == [y];
    OneFor(y, h);
  }

  lemma OneFor(y: SetCap, h: Hash)
    ensures For([y], h) == if y.hash == h then [y] else []
  {
  }

  lemma {:induction false} InFor(s: seq<SetCap>, h: Hash)
    ensures For(s, h) != [] ==> exists i :: 0 <= i < |s| && s[i].hash == h
    ensures (forall c | c in For(s, h) :: c.hash == h && c in s)
    ensures forall c | c in s && c.hash == h :: c in For(s, h)
  {
    if s != [] {
      InFor(s[1..], h);
      if s[0].hash != h && For(s, h) != [] {
        var i :| 0 <= i < |s[1..]| && s[1..][i].hash == h;
        assert s[i + 1].hash == h;
      }
      assert s == [s[0]] + s[1..];
    }
  }

  /** A sorted list is determined by them. */
  lemma {:induction false} SortedUnique(s: seq<SetCap>, t: seq<SetCap>)
    requires SortedBy(s) && SortedBy(t) && SameUpToOrder(s, t)
    ensures s == t
  {
    if s != [] {
      hide Less;
      SameHead(s, t);
      forall h: Hash
        ensures For(s[1..], h) == For(t[1..], h)
      {
        assert For(s, h) == For(t, h);
        assert For(s[1..], h) == For(s, h)[if s[0].hash == h then 1 else 0..];
        assert For(t[1..], h) == For(t, h)[if t[0].hash == h then 1 else 0..];
      }
      SortedUnique(s[1..], t[1..]);
    }
  }

  lemma SameHead(s: seq<SetCap>, t: seq<SetCap>)
    requires SortedBy(s) && SortedBy(t) && SameUpToOrder(s, t) && s != []
    ensures s[0] == t[0]
  {
    HeadBelow(s, t);
    HeadBelow(t, s);
    hide Less;
    LessTotal(s[0].hash, t[0].hash);
    var h := s[0].hash;
    assert For(s, h) == For(t, h) && For(s, h)[0] == s[0] && For(t, h)[0] == t[0];
  }

  lemma HeadBelow(s: seq<SetCap>, t: seq<SetCap>)
    requires SortedBy(s) && SameUpToOrder(s, t) && s != []
    ensures Leq(s[0], t[0])
  {
    hide Less;
    var h := t[0].hash;
    assert For(t, h) != [] && For(s, h) == For(t, h);
    InFor(s, h);
    var i :| 0 <= i < |s| && s[i].hash == h;
    LessTotal(s[0].hash, s[0].hash);
  }

  /** The bubble sort of `dm_set_pack`: any order of the same list ends in the same place. */
  method BubbleSort(a: array<SetCap>)
    modifies a
    ensures SortedBy(a[..]) && SameUpToOrder(old(a[..]), a[..])
  {
    hide Less;
    var n := a.Length;
    for i := 0 to n
      invariant SameUpToOrder(old(a[..]), a[..])
      invariant TailSorted(a[..], n - i)
    {
      Pass(a, n - i);
    }
    AllSorted(a[..]);
  }

  /** The last positions hold the greatest elements, in order. */
  predicate TailSorted(s: seq<SetCap>, m: nat)
    requires m <= |s|
  {
    forall i, j | 0 <= i < j < |s| && m <= j :: Leq(s[i], s[j])
  }

  lemma AllSorted(s: seq<SetCap>)
    requires TailSorted(s, 0)
    ensures SortedBy(s)
  {
    hide Less;
  }

  method Pass(a: array<SetCap>, m: nat)
    requires 0 < m <= a.Length && TailSorted(a[..], m)
    modifies a
    ensures TailSorted(a[..], m - 1) && SameUpToOrder(old(a[..]), a[..])
  {
    var j := 0;
    while j + 1 < m
      invariant 0 <= j < m
      invariant SameUpToOrder(old(a[..]), a[..]) && TailSorted(a[..], m)
      invariant MaxAt(a[..], j)
    {
      var c := HashCompare(a[j].hash, a[j + 1].hash);
      ghost var s := a[..];
      if c > 0 {
        LessTotal(a[j].hash, a[j + 1].hash);
        SwapKeeps(s, j);
        a[j], a[j + 1] := a[j + 1], a[j];
        assert a[..] == s[j := s[j + 1]][j + 1 := s[j]];
        SameTrans(old(a[..]), s, a[..]);
      }
      PassStep(s, a[..], j, m, c > 0);
      j := j + 1;
    }
    PassEnd(a[..], m);
  }

  predicate MaxAt(s: seq<SetCap>, j: nat)
    requires j < |s|
  {
    forall i | 0 <= i < j :: Leq(s[i], s[j])
  }

  lemma PassStep(s: seq<SetCap>, t: seq<SetCap>, j: nat, m: nat, swap: bool)
    requires j + 1 < m <= |s| && MaxAt(s, j) && TailSorted(s, m)
    requires t == (if swap then s[j := s[j + 1]][j + 1 := s[j]] else s)
    requires swap <==> Less(s[j + 1].hash, s[j].hash)
    ensures MaxAt(t, j + 1) && TailSorted(t, m)
  {
    hide Less;
    LessTotal(s[j].hash, s[j + 1].hash);
    if !swap {
      forall i | 0 <= i < j + 1
        ensures Leq(t[i], t[j + 1])
      {
        if i < j {
          LeqTrans(s[i], s[j], s[j + 1]);
        }
      }
    }
  }

  lemma PassEnd(s: seq<SetCap>, m: nat)
    requires 0 < m <= |s| && MaxAt(s, m - 1) && TailSorted(s, m)
    ensures TailSorted(s, m - 1)
  {
    hide Less;
  }

  lemma SameTrans(s: seq<SetCap>, t: seq<SetCap>, u: seq<SetCap>)
    requires SameUpToOrder(s, t) && SameUpToOrder(t, u)
    ensures SameUpToOrder(s, u)
  {
    hide For;
  }

  // ----- serialization

  /** Hash, rights in four and length in eight little-endian bytes. */
  function PackCap(c: SetCap): (b: seq<byte>)
    ensures |b| == 44
  {
    c.hash + Le(c.rights, 4) + Le(c.length, 8)
  }

  function PackAll(s: seq<SetCap>): (b: seq<byte>)
    ensures |b| == 44 * |s|
  {
    if s == [] then [] else PackAll(s[..|s| - 1]) + PackCap(s[|s| - 1])
  }

  function CapAt(b: seq<byte>, k: nat): SetCap
    requires 44 * (k + 1) <= |b|
  {
    var c := b[44 * k..44 * k + 44];
    SetCap(c[..32], Field32(c[32..36]), Field64(c[36..44]))
  }

  /** Hash, rights from byte 32, length from 36. */
  lemma CapLayout(c: SetCap, i: nat)
    requires i < 8
    ensures var b := PackCap(c);
      && b[..32] == c.hash && (i < 4 ==> b[32 + i] == c.rights / Pow256(i) % 256)
      && b[36 + i] == c.length / Pow256(i) % 256
  {
    if i < 4 {
      LeByte(c.rights, 4, i);
    }
    LeByte(c.length, 8, i);
    hide Le, Pow256;
  }

  lemma CapRoundTrip(c: SetCap)
    ensures CapAt(PackCap(c), 0) == c
  {
    hide Le, Field32, Field64;
    Field32Le(c.rights);
    Field64Le(c.length);
    var b := PackCap(c);
    assert b[0..44] == b && b[..32] == c.hash && b[32..36] == Le(c.rights, 4) && b[36..44] == Le(c.length, 8);
  }

  /** Field by field, the packed bytes give back the list. */
  lemma {:induction false} PackRoundTrip(s: seq<SetCap>, k: nat)
    requires k < |s|
    ensures CapAt(PackAll(s), k) == s[k]
  {
    hide Field32, Field64, PackCap;
    var init, b := s[..|s| - 1], PackAll(s);
    if k < |s| - 1 {
      PackRoundTrip(init, k);
      assert b[44 * k..44 * k + 44] == PackAll(init)[44 * k..44 * k + 44];
    } else {
      CapRoundTrip(s[k]);
      assert b[44 * k..44 * k + 44] == PackCap(s[k]) == PackCap(s[k])[0..44];
    }
  }

  lemma PackInjective(s: seq<SetCap>, t: seq<SetCap>)
    requires |s| == |t| && PackAll(s) == PackAll(t)
    ensures s == t
  {
    hide PackAll;
    forall k | 0 <= k < |s|
      ensures s[k] == t[k]
    {
      PackRoundTrip(s, k);
      PackRoundTrip(t, k);
    }
  }

  // ----- the canonical form, independently of how it is reached

  function Insert(c: SetCap, s: seq<SetCap>): (r: seq<SetCap>)
    ensures |r| == |s| + 1
  {
    if s == [] then [c]
    else if Less(s[0].hash, c.hash) then [s[0]] + Insert(c, s[1..])
    else [c] + s
  }

  function Sort(s: seq<SetCap>): (r: seq<SetCap>)
    ensures |r| == |s|
  {
    if s == [] then [] else Insert(s[0], Sort(s[1..]))
  }

  lemma {:induction false} InsertFor(c: SetCap, s: seq<SetCap>, h: Hash)
    ensures For(Insert(c, s), h) == For([c] + s, h)
  {
    hide Less, For;
    if s != [] && Less(s[0].hash, c.hash) {
      LessTotal(s[0].hash, c.hash);
      var tail := s[1..];
      var r := Insert(c, tail);
      assert Insert(c, s) == [s[0]] + r;
      hide Insert;
      InsertFor(c, tail, h);
      ForCons(s[0], r, h);
      ForCons(c, tail, h);
      ForCons(c, s, h);
      ForCons(s[0], tail, h);
      assert s == [s[0]] + tail;
    } else {
      assert Insert(c, s) == [c] + s;
    }
  }

  lemma {:induction false} InsertSorted(c: SetCap, s: seq<SetCap>)
    requires SortedBy(s)
    ensures SortedBy(Insert(c, s))
    ensures forall d | d in Insert(c, s) :: d == c || d in s
  {
    hide Less;
    if s != [] {
      LessTotal(s[0].hash, c.hash);
      if Less(s[0].hash, c.hash) {
        var tail := Insert(c, s[1..]);
        InsertSorted(c, s[1..]);
        forall j | 0 <= j < |tail|
          ensures Leq(s[0], tail[j])
        {
          assert tail[j] in tail;
        }
        ConsSorted(s[0], tail);
      } else {
        forall j | 0 <= j < |s|
          ensures Leq(c, s[j])
        {
          if j > 0 {
            LeqTrans(c, s[0], s[j]);
          }
        }
        ConsSorted(c, s);
      }
    }
  }

  lemma ConsSorted(c: SetCap, s: seq<SetCap>)
    requires SortedBy(s) && forall j | 0 <= j < |s| :: Leq(c, s[j])
    ensures SortedBy([c] + s)
  {
    hide Less;
  }

  lemma ForCons(c: SetCap, s: seq<SetCap>, h: Hash)
    ensures For([c] + s, h) == (if c.hash == h then [c] else []) + For(s, h)
  {
    assert ([c] + s)[1..] == s;
  }

  lemma {:induction false} SortIsSorted(s: seq<SetCap>)
    ensures SortedBy(Sort(s)) && SameUpToOrder(s, Sort(s))
  {
    hide Less;
    if s != [] {
      var tail := Sort(s[1..]);
      SortIsSorted(s[1..]);
      InsertSorted(s[0], tail);
      forall h: Hash
        ensures For(s, h) == For(Sort(s), h)
      {
        InsertFor(s[0], tail, h);
        ForCons(s[0], tail, h);
      }
    }
  }

  /** `dm_set_pack` into a buffer for `max` capabilities, zero behind the last. */
  method SetPack(caps: seq<SetCap>, max: nat) returns (out: seq<byte>)
    requires |caps| <= max
    ensures out == PackAll(Sort(caps)) + seq(44 * (max - |caps|), _ => 0)
  {
    hide Less, Insert;
    var a := new SetCap[|caps|](i requires 0 <= i < |caps| => caps[i]);
    assert a[..] == caps;
    BubbleSort(a);
    SortIsSorted(caps);
    SameTransBack(caps, a[..], Sort(caps));
    SortedUnique(a[..], Sort(caps));
    ghost var s := a[..];
    out := [];
    assert s[..0] == [];
    for k := 0 to a.Length
      invariant a[..] == s && out == PackAll(s[..k])
    {
      out := out + PackCap(a[k]);
      assert s[..k + 1][..k] == s[..k];
    }
    assert s[..a.Length] == s;
    var zeros: seq<byte> := seq(44 * (max - |caps|), _ => 0);
    out := out + zeros;
  }

  lemma SameTransBack(s: seq<SetCap>, t: seq<SetCap>, u: seq<SetCap>)
    requires SameUpToOrder(s, t) && SameUpToOrder(s, u)
    ensures SameUpToOrder(t, u)
  {
    hide For;
  }

  // ----- when is it canonical?

  predicate Permutation(s: seq<SetCap>, t: seq<SetCap>)
  {
    multiset(s) == multiset(t)
  }

  /** No two different capabilities for the same hash. */
  predicate OnePerHash(s: seq<SetCap>)
  {
    forall i, j | 0 <= i < |s| && 0 <= j < |s| && s[i].hash == s[j].hash :: s[i] == s[j]
  }

  lemma {:induction false} ForCount(s: seq<SetCap>, c: SetCap)
    ensures multiset(For(s, c.hash))[c] == multiset(s)[c]
  {
    if s != [] {
      ForCount(s[1..], c);
      assert s == [s[0]] + s[1..];
      assert multiset(s) == multiset{s[0]} + multiset(s[1..]);
    }
  }

  lemma ForMultiset(s: seq<SetCap>, h: Hash, c: SetCap)
    ensures multiset(For(s, h))[c] == if c.hash == h then multiset(s)[c] else 0
  {
    ForCount(s, c);
    InFor(s, h);
    hide For;
  }

  lemma ConstantLists(fs: seq<SetCap>, ft: seq<SetCap>, x: SetCap)
    requires multiset(fs) == multiset(ft) && forall c | c in fs :: c == x
    ensures fs == ft
  {
    assert |fs| == |multiset(fs)| == |multiset(ft)| == |ft|;
    forall k | 0 <= k < |fs|
      ensures fs[k] == ft[k]
    {
      assert fs[k] in fs;
      assert ft[k] in multiset(ft);
      assert ft[k] in multiset(fs);
      assert ft[k] in fs;
    }
  }

  lemma SameFor(s: seq<SetCap>, t: seq<SetCap>, h: Hash)
    requires Permutation(s, t) && OnePerHash(s)
    ensures For(s, h) == For(t, h)
  {
    hide For;
    InFor(s, h);
    var fs, ft := For(s, h), For(t, h);
    forall c: SetCap
      ensures multiset(fs)[c] == multiset(ft)[c]
    {
      ForMultiset(s, h, c);
      ForMultiset(t, h, c);
    }
    if fs == [] {
      assert multiset(ft) == multiset{};
    } else {
      ConstantLists(fs, ft, fs[0]);
    }
  }

  /** Two different capabilities for one hash: exchange them. */
  lemma ExchangeShows(s: seq<SetCap>, i: nat, j: nat) returns (t: seq<SetCap>)
    requires i < j < |s| && s[i].hash == s[j].hash && s[i] != s[j]
    ensures Permutation(s, t) && |t| == |s| && For(s, s[i].hash) != For(t, s[i].hash)
  {
    hide For;
    var x, y, a, b, c := s[i], s[j], s[..i], s[i + 1..j], s[j + 1..];
    t := a + ([y] + (b + ([x] + c)));
    assert s == a + ([x] + (b + ([y] + c)));
    FiveParts(a, x, b, y, c);
    FiveParts(a, y, b, x, c);
    AtMark(a, x, b + ([y] + c), x.hash);
    AtMark(a, y, b + ([x] + c), x.hash);
  }

  lemma FiveParts(a: seq<SetCap>, x: SetCap, b: seq<SetCap>, y: SetCap, c: seq<SetCap>)
    ensures multiset(a + ([x] + (b + ([y] + c)))) == multiset(a) + multiset(b) + multiset(c) + multiset{x, y}
  {
  }

  /** The first capability for the hash behind those of `a`. */
  lemma AtMark(a: seq<SetCap>, x: SetCap, rest: seq<SetCap>, h: Hash)
    requires x.hash == h
    ensures |For(a, h)| < |For(a + ([x] + rest), h)| && For(a + ([x] + rest), h)[|For(a, h)|] == x
  {
    ForSplit(a, [x] + rest, h);
    ForCons(x, rest, h);
  }

  /** Every order of the set packs to the same bytes exactly when no hash occurs with two
      different rights or lengths. */
  lemma CanonicalIff(s: seq<SetCap>)
    ensures (forall t | Permutation(s, t) :: PackAll(Sort(t)) == PackAll(Sort(s))) <==> OnePerHash(s)
  {
    hide Less, PackAll, Sort, For;
    SortIsSorted(s);
    if OnePerHash(s) {
      forall t | Permutation(s, t)
        ensures PackAll(Sort(t)) == PackAll(Sort(s))
      {
        CanonicalPack(s, t);
      }
    } else {
      var i, j :| 0 <= i < |s| && 0 <= j < |s| && s[i].hash == s[j].hash && s[i] != s[j];
      var t := ExchangeShows(s, if i < j then i else j, if i < j then j else i);
      SortIsSorted(t);
      if PackAll(Sort(t)) == PackAll(Sort(s)) {
        PackInjective(Sort(t), Sort(s));
        assert false;
      }
      assert Permutation(s, t) && PackAll(Sort(t)) != PackAll(Sort(s));
    }
  }

  lemma CanonicalPack(s: seq<SetCap>, t: seq<SetCap>)
    requires OnePerHash(s) && Permutation(s, t)
    ensures Sort(t) == Sort(s)
  {
    SortIsSorted(s);
    SortIsSorted(t);
    assert |s| == |multiset(s)| == |multiset(t)| == |t|;
    forall h: Hash
      ensures For(s, h) == For(t, h)
    {
      SameFor(s, t, h);
    }
    hide For, Less, Sort, Permutation, OnePerHash;
    SameTransBack(s, t, Sort(s));
    SameTransBack(t, Sort(t), Sort(s));
    SortedUnique(Sort(t), Sort(s));
  }

  // ----- the destination

  /** A handle and the object it was minted for. */
  datatype Grant = Grant(target: Hash, cap: Cap)

  /** What `dm_dest` mints for a member: a handle of its length on the served root, with the
      permissions of the destination's own. */
  function MintedFor(cfg: Config, root: Hash, c: SetCap): Grant
  {
    Grant(root, Cap(cfg.arena, c.length, LOAD | STORE | GLOBAL, true))
  }

  /** `dm_dest` for one message: nothing is minted unless the signature is good, and then one
      handle for each member up to the first that exceeds the source's authority. */
  method VerifySet(cfg: Config, msg: seq<byte>, source: Key, root: Hash, n: nat)
      returns (v: Verdict, minted: seq<Grant>)
    ensures |minted| <= n && v in {Accept, BadSig, AntiAmp}
    ensures v == BadSig <==> cfg.open(msg, source).None? || |cfg.open(msg, source).value| != 44 * n
    ensures v == BadSig ==> minted == []
    ensures v == Accept ==> |minted| == n
    ensures v == AntiAmp ==> |minted| < n && !(0 < CapAt(cfg.open(msg, source).value, |minted|).length <= CEILING)
    ensures v != BadSig ==>
              forall k | 0 <= k < |minted| ::
                var c := CapAt(cfg.open(msg, source).value, k);
                0 < c.length <= CEILING && minted[k] == MintedFor(cfg, root, c)
  {
    hide Field64, Field32, SetMemberRemint;
    minted := [];
    var content := cfg.open(msg, source);
    if content.None? || |content.value| != 44 * n {
      return BadSig, [];
    }
    var b := content.value;
    while |minted| < n
      invariant |minted| <= n
      invariant forall k | 0 <= k < |minted| ::
                  0 < CapAt(b, k).length <= CEILING && minted[k] == MintedFor(cfg, root, CapAt(b, k))
      decreases n - |minted|
    {
      var len := CapAt(b, |minted|).length;
      SetMemberBounded(cfg.arena, len, root);
      var (st, out) := SetMemberRemint(cfg.arena, len, root);
      if st != Ok || !out.valid {
        return AntiAmp, minted;
      }
      minted := minted + [Grant(root, out)];
    }
    return Accept, minted;
  }

  function RightsOf(c: SetCap): bv32
  {
    c.rights as bv32
  }

  /** The access is one that a grant allows. */
  predicate Allows(g: Grant, target: Hash, o: u64, size: u64, need: bv32)
  {
    target == g.target && Check(g.cap, o, size, need)
  }

  /** The access is one that was signed for. */
  predicate SignedFor(c: SetCap, target: Hash, o: u64, size: u64, need: bv32)
  {
    target == c.hash && Has(RightsOf(c), need) && Inside(o, size, c.length)
  }

  /** Neither the rights nor the hash of a member are looked at: what arrives stays within what
      was signed exactly when the rights include load, store and global and the member is for
      the served root. */
  lemma ArrivesWithinSignedIff(cfg: Config, root: Hash, c: SetCap)
    ensures (forall target: Hash, o: u64, size: u64, need: bv32 ::
               Allows(MintedFor(cfg, root, c), target, o, size, need) ==> SignedFor(c, target, o, size, need)) <==>
            Subset(LOAD | STORE | GLOBAL, RightsOf(c)) && c.hash == root
  {
    var g := MintedFor(cfg, root, c);
    var p := g.cap.perms;
    hide RightsOf, Has, Subset;
    WithinRightsIff(g.cap, RightsOf(c));
    if forall target: Hash, o: u64, size: u64, need: bv32 ::
         Allows(g, target, o, size, need) ==> SignedFor(c, target, o, size, need)
    {
      HasItself(p);
      assert Allows(g, root, 0, 0, p);
      forall o: u64, size: u64, need: bv32 | Check(g.cap, o, size, need)
        ensures Has(RightsOf(c), need)
      {
        assert Allows(g, root, o, size, need);
      }
    }
  }

  /** A member signed for loading only arrives writable. */
  lemma ReadOnlyArrivesWritable(cfg: Config, root: Hash)
    ensures var c := SetCap(root, 4, 1);
      Allows(MintedFor(cfg, root, c), root, 0, 1, STORE) && !SignedFor(c, root, 0, 1, STORE)
  {
    LoadIsFour(root);
    hide RightsOf;
  }

  lemma LoadIsFour(root: Hash)
    ensures RightsOf(SetCap(root, 4, 1)) == LOAD
  {
  }

  /** A member for another object, whatever its rights, arrives as a handle on the served root. */
  lemma OtherObjectArrives(cfg: Config, root: Hash, c: SetCap)
    requires c.hash != root && c.length > 0
    ensures Allows(MintedFor(cfg, root, c), root, 0, 1, LOAD) && !SignedFor(c, root, 0, 1, LOAD)
    ensures forall other: SetCap | other.length == c.length :: MintedFor(cfg, root, other) == MintedFor(cfg, root, c)
  {
    hide RightsOf;
  }

  /** From end to end: a set signed by the source arrives as that set, sorted by hash. */
  lemma SetArrives(cfg: Config, msg: seq<byte>, source: Key, caps: seq<SetCap>, k: nat)
    requires cfg.open(msg, source) == Some(PackAll(Sort(caps))) && k < |caps|
    ensures CapAt(cfg.open(msg, source).value, k) == Sort(caps)[k] && Sort(caps)[k] in caps
  {
    PackRoundTrip(Sort(caps), k);
    hide PackAll, CapAt;
    SortMembers(caps, k);
  }

  lemma SortMembers(s: seq<SetCap>, k: nat)
    requires k < |s|
    ensures Sort(s)[k] in s
  {
    SortIsSorted(s);
    var r := Sort(s);
    hide Sort, Less, For;
    InFor(r, r[k].hash);
    InFor(s, r[k].hash);
    assert For(s, r[k].hash) == For(r, r[k].hash);
  }
}

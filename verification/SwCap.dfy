/** The software capability gate: a handle is stripped to a position-independent reference
    and re-minted on another machine with no more authority than the region there has. */
module SwCap {
  import opened Bits
  import opened ObjectStore

  const GLOBAL: bv32 := 0x1
  const EXECUTE: bv32 := 0x2
  const LOAD: bv32 := 0x4
  const STORE: bv32 := 0x8
  const WRITE_ANY: bv32 := 0x28
  /** Sealing, invocation, system registers, compartment id, and the unmodelled sentinel. */
  const FORBIDDEN: bv32 := 0x8000_0F80

  const PIR_VERSION: nat := 1
  const UNSEALED: nat := 0
  const OPAQUE: nat := 0xFFFF_FFFF

  datatype Cap = Cap(base: u64, length: u64, perms: bv32, valid: bool)

  const NoCap: Cap := Cap(0, 0, 0, false)

  datatype Referent = Referent(hash: Hash, base: u64, length: u64)

  datatype Region = Region(cap: Cap, base: u64, length: u64, hash: Hash)

  datatype Custodian = Custodian(root: Cap, initialized: bool)

  datatype Pir = Pir(hash: Hash, offset: u64, length: u64, version: nat, perms: bv32, otype: nat,
                     sealed: bool, referentValid: bool, wasSealed: bool)

  datatype MintStatus = Ok | Version | Untagged | ReferentRange | BadRoot | BadRegion | ReferentMismatch | BadBounds
                  | PermForbidden | WxViolation | AmplifyPerms | SealedUnsupported

  function ZeroHash(): Hash
  {
    seq(32, _ => 0)
  }

  function NoPir(): Pir
  {
    Pir(ZeroHash(), 0, 0, PIR_VERSION, 0, OPAQUE, false, false, false)
  }

  /** `a` has only permissions that `b` has. */
  predicate Subset(a: bv32, b: bv32)
  {
    a & !b == 0
  }

  /** `p` has every permission in `need`. */
  predicate Has(p: bv32, need: bv32)
  {
    p & need == need
  }

  predicate Privileged(p: bv32)
  {
    p & FORBIDDEN != 0
  }

  predicate WritableCode(p: bv32)
  {
    p & EXECUTE != 0 && p & WRITE_ANY != 0
  }

  /** `len` bytes from `off` lie within `total`, with no overflow on the way. */
  predicate Inside(off: nat, len: nat, total: nat)
  {
    off <= total && len <= total - off
  }

  // ----- the gate

  function InitCustodian(root: Cap): Custodian
  {
    if root.valid then Custodian(root, true) else Custodian(root.(valid := false), false)
  }

  function Strip(cap: Cap, ref: Referent): (r: (MintStatus, Pir))
  {
    if !cap.valid then (Untagged, NoPir())
    else if cap.base < ref.base then (ReferentRange, NoPir())
    else
      var off := cap.base - ref.base;
      if off > ref.length || cap.length > ref.length - off then (ReferentRange, NoPir())
      else (Ok, Pir(ref.hash, off, cap.length, PIR_VERSION, cap.perms, UNSEALED, false, true, false))
  }

  function CheckRegion(root: Cap, r: Region): MintStatus
  {
    if !r.cap.valid then BadRegion
    else if !Subset(r.cap.perms, root.perms) then BadRegion
    else if r.cap.base < root.base then BadRegion
    else
      var off := r.cap.base - root.base;
      if off > root.length || r.cap.length > root.length - off then BadRegion
      else if r.cap.base != r.base || r.cap.length != r.length then BadRegion
      else Ok
  }

  function Remint(cust: Custodian, pir: Pir, region: Region): (r: (MintStatus, Cap))
  {
    if !cust.initialized || !cust.root.valid then (BadRoot, NoCap)
    else if pir.version != PIR_VERSION then (Version, NoCap)
    else if pir.sealed || pir.wasSealed || pir.otype != UNSEALED then (SealedUnsupported, NoCap)
    else if !pir.referentValid || pir.hash != region.hash then (ReferentMismatch, NoCap)
    else if CheckRegion(cust.root, region) != Ok then (CheckRegion(cust.root, region), NoCap)
    else if pir.length == 0 || pir.offset > region.length || pir.length > region.length - pir.offset then
      (BadBounds, NoCap)
    else if Privileged(pir.perms) then (PermForbidden, NoCap)
    else if WritableCode(pir.perms) then (WxViolation, NoCap)
    else if !Subset(pir.perms, region.cap.perms) then (AmplifyPerms, NoCap)
    else (Ok, Cap((region.cap.base + pir.offset) % 0x1_0000_0000_0000_0000, pir.length, pir.perms, true))
  }

  /** `cvsasx_swcap_check`: an access at an offset into the capability. */
  predicate Check(c: Cap, offset: u64, size: u64, need: bv32)
  {
    c.valid && Has(c.perms, need) && offset <= c.length && size <= c.length - offset
  }

  // ----- no access beyond the region and the root

  lemma SubsetTrans(a: bv32, b: bv32, c: bv32)
    requires Subset(a, b) && Subset(b, c)
    ensures Subset(a, c)
  {
  }

  lemma NeedKept(p: bv32, q: bv32, need: bv32)
    requires Subset(p, q) && Has(p, need)
    ensures Has(q, need)
  {
  }

  /** What an accepted reference looks like. */
  lemma Accepted(cust: Custodian, pir: Pir, region: Region)
    ensures var (st, c) := Remint(cust, pir, region);
      && (st != Ok ==> c == NoCap)
      && (st == Ok <==> c.valid)
      && (st == Ok ==>
            && cust.root.valid && region.cap.valid
            && region.base == region.cap.base && region.length == region.cap.length
            && cust.root.base <= region.base && Inside(region.base - cust.root.base, region.length, cust.root.length)
            && Inside(pir.offset, pir.length, region.length) && 0 < c.length == pir.length && c.perms == pir.perms
            && c.base == (region.base + pir.offset) % 0x1_0000_0000_0000_0000
            && Subset(pir.perms, region.cap.perms) && Subset(region.cap.perms, cust.root.perms))
  {
    hide Subset, Privileged, WritableCode;
  }

  /** A re-mint succeeds exactly if the custodian is up, the reference is a current, unsealed one
      for the object in the region, its window is a non-empty part of the region, the region lies
      in the root, and the permissions are harmless ones of the region. */
  lemma RemintIff(cust: Custodian, pir: Pir, region: Region)
    ensures Remint(cust, pir, region).0 == Ok <==>
            && cust.initialized && cust.root.valid && region.cap.valid
            && pir.version == PIR_VERSION && !pir.sealed && !pir.wasSealed && pir.otype == UNSEALED
            && pir.referentValid && pir.hash == region.hash
            && region.base == region.cap.base && region.length == region.cap.length
            && cust.root.base <= region.base && Inside(region.base - cust.root.base, region.length, cust.root.length)
            && 0 < pir.length && Inside(pir.offset, pir.length, region.length)
            && Subset(region.cap.perms, cust.root.perms) && Subset(pir.perms, region.cap.perms)
            && !Privileged(pir.perms) && !WritableCode(pir.perms)
  {
    hide Subset, Privileged, WritableCode;
  }

  /** An access is granted exactly if it ends within the window and needs nothing more. */
  lemma CheckIff(c: Cap, o: u64, size: u64, need: bv32)
    ensures Check(c, o, size, need) <==> c.valid && o + size <= c.length && Has(c.perms, need)
  {
    hide Has;
  }

  /** For any reference whatever: an access granted by the minted handle is granted by the
      region and by the root, at the shifted offset. */
  lemma NoAmplification(cust: Custodian, pir: Pir, region: Region, o: u64, size: u64, need: bv32)
    requires Check(Remint(cust, pir, region).1, o, size, need)
    ensures pir.offset + o < 0x1_0000_0000_0000_0000 && Check(region.cap, pir.offset + o, size, need)
    ensures cust.root.base <= region.cap.base
    ensures var shifted := region.cap.base - cust.root.base + pir.offset + o;
      shifted < 0x1_0000_0000_0000_0000 && Check(cust.root, shifted, size, need)
  {
    Accepted(cust, pir, region);
    hide Remint, Subset, Has;
    var c := Remint(cust, pir, region).1;
    SubsetTrans(pir.perms, region.cap.perms, cust.root.perms);
    NeedKept(c.perms, region.cap.perms, need);
    NeedKept(c.perms, cust.root.perms, need);
  }

  /** The bytes themselves: under a root that does not wrap around, they are bytes of the root. */
  lemma SameBytes(cust: Custodian, pir: Pir, region: Region, o: u64, size: u64, need: bv32)
    requires Check(Remint(cust, pir, region).1, o, size, need)
    requires cust.root.base + cust.root.length <= 0x1_0000_0000_0000_0000
    ensures var c := Remint(cust, pir, region).1;
      && c.base == region.cap.base + pir.offset
      && cust.root.base <= c.base + o && c.base + o + size <= cust.root.base + cust.root.length
  {
    hide Subset, Has;
    Accepted(cust, pir, region);
    hide Remint;
  }

  /** A minted handle is never both writable and executable, nor privileged. */
  lemma WriteXorExecute(cust: Custodian, pir: Pir, region: Region)
    ensures var p := Remint(cust, pir, region).1.perms;
      (p & EXECUTE == 0 || p & WRITE_ANY == 0) && p & FORBIDDEN == 0
  {
  }

  // ----- travel from machine to machine

  /** One migration: where the object sat, and the machine and region it goes to. */
  datatype Hop = Hop(ref: Referent, cust: Custodian, region: Region)

  /** Re-mint of whatever `Strip` wrote, its status ignored. */
  function Migrate(cap: Cap, hop: Hop): Cap
  {
    Remint(hop.cust, Strip(cap, hop.ref).1, hop.region).1
  }

  /** The position within an object at `base`, in 64-bit arithmetic. */
  function Relative(cap: Cap, base: u64): u64
  {
    (cap.base - base) % 0x1_0000_0000_0000_0000
  }

  /** The hop is possible: the handle lies in its object, which the region holds under the
      same hash and in full, inside the root, with permissions the region has. */
  predicate Possible(cap: Cap, hop: Hop)
  {
    var root, reg := hop.cust.root, hop.region;
    && cap.valid && hop.cust.initialized && root.valid && reg.cap.valid
    && hop.ref.base <= cap.base && Inside(cap.base - hop.ref.base, cap.length, hop.ref.length)
    && hop.ref.hash == reg.hash && reg.base == reg.cap.base && reg.length == reg.cap.length
    && root.base <= reg.base && Inside(reg.base - root.base, reg.length, root.length)
    && Subset(reg.cap.perms, root.perms)
    && 0 < cap.length && Inside(cap.base - hop.ref.base, cap.length, reg.length)
    && Subset(cap.perms, reg.cap.perms) && !Privileged(cap.perms) && !WritableCode(cap.perms)
  }

  /** An unmodified reference keeps window and permissions exactly, or nothing is minted. */
  lemma HopExact(cap: Cap, hop: Hop)
    ensures Possible(cap, hop) <==> Migrate(cap, hop).valid
    ensures Possible(cap, hop) ==>
              && Migrate(cap, hop).length == cap.length && Migrate(cap, hop).perms == cap.perms
              && Relative(Migrate(cap, hop), hop.region.base) == Relative(cap, hop.ref.base)
    ensures !Possible(cap, hop) ==> Migrate(cap, hop) == NoCap
  {
    hide Subset, Privileged, WritableCode;
    if Possible(cap, hop) {
      Rebase(hop.region.base, cap.base - hop.ref.base);
    }
  }

  lemma Rebase(base: u64, off: u64)
    ensures ((base + off) % 0x1_0000_0000_0000_0000 - base) % 0x1_0000_0000_0000_0000 == off
  {
  }

  function Travel(cap: Cap, hops: seq<Hop>): Cap
  {
    if hops == [] then cap else Migrate(Travel(cap, hops[..|hops| - 1]), hops[|hops| - 1])
  }

  /** Each machine strips the handle relative to where the one before it put the object. */
  predicate Linked(hops: seq<Hop>)
  {
    forall i | 0 < i < |hops| :: hops[i].ref.base == hops[i - 1].region.base
  }

  /** Over any chain of machines with any bases: the window in the object and the permissions
      are those of the start, or the handle is dead, and then for good. */
  lemma {:induction false} TravelExact(cap: Cap, hops: seq<Hop>)
    requires Linked(hops) && hops != []
    ensures var c := Travel(cap, hops);
      if c.valid then
        && c.length == cap.length && c.perms == cap.perms
        && Relative(c, hops[|hops| - 1].region.base) == Relative(cap, hops[0].ref.base)
        && (forall i | 0 <= i < |hops| :: Possible(Travel(cap, hops[..i]), hops[i]))
      else
        c == NoCap && exists i :: 0 <= i < |hops| && !Possible(Travel(cap, hops[..i]), hops[i])
  {
    hide Possible, Migrate, Relative;
    var init, last := hops[..|hops| - 1], hops[|hops| - 1];
    HopExact(Travel(cap, init), last);
    if init != [] {
      TravelExact(cap, init);
      assert forall i | 0 <= i < |init| :: init[..i] == hops[..i];
      DeadStays(Travel(cap, init), last);
    }
  }

  lemma DeadStays(cap: Cap, hop: Hop)
    ensures !cap.valid ==> !Possible(cap, hop)
  {
  }

  // ----- the two uses in the migration protocol

  const CEILING: u64 := 256

  /** `antiamp_remint` for an arena at `arena`: object length and request are the ceiling. */
  function AntiampRemint(arena: u64, wantLen: u64, hash: Hash): bool
  {
    var root := Cap(arena, CEILING, LOAD | STORE | GLOBAL, true);
    var pir := Strip(root, Referent(hash, arena, wantLen)).1.(length := wantLen);
    var (st, out) := Remint(InitCustodian(root), pir, Region(root, arena, wantLen, hash));
    st == Ok && out.valid
  }

  /** `dm_remint`: a member of an authority set, within the whole object. */
  function SetMemberRemint(arena: u64, capLen: u64, hash: Hash): (MintStatus, Cap)
  {
    var root := Cap(arena, CEILING, LOAD | STORE | GLOBAL, true);
    var pir := Strip(root, Referent(hash, arena, CEILING)).1.(length := capLen);
    Remint(InitCustodian(root), pir, Region(root, arena, CEILING, hash))
  }

  /** A ceiling is granted only when it is the source's own: smaller ones are refused as well,
      because the region must be exactly the object. */
  lemma AntiampExact(arena: u64, wantLen: u64, hash: Hash)
    ensures AntiampRemint(arena, wantLen, hash) <==> wantLen == CEILING
  {
    DataPerms();
    hide Subset, Privileged, WritableCode;
  }

  /** A set member is granted exactly up to the ceiling, with the permissions of the root
      whatever the member's own. */
  lemma SetMemberBounded(arena: u64, capLen: u64, hash: Hash)
    ensures var (st, out) := SetMemberRemint(arena, capLen, hash);
      && (st == Ok <==> 0 < capLen <= CEILING)
      && out == if 0 < capLen <= CEILING then Cap(arena, capLen, LOAD | STORE | GLOBAL, true) else NoCap
  {
    DataPerms();
    hide Subset, Privileged, WritableCode;
  }

  /** A handle stays within signed rights, for every access it grants, exactly when its
      permissions are among them. */
  lemma WithinRightsIff(c: Cap, rights: bv32)
    requires c.valid
    ensures (forall o: u64, size: u64, need: bv32 :: Check(c, o, size, need) ==> Has(rights, need)) <==>
      Subset(c.perms, rights)
  {
    hide Has, Subset;
    if Subset(c.perms, rights) {
      forall o: u64, size: u64, need: bv32 | Check(c, o, size, need)
        ensures Has(rights, need)
      {
        NeedKept(c.perms, rights, need);
      }
    }
    if forall o: u64, size: u64, need: bv32 :: Check(c, o, size, need) ==> Has(rights, need) {
      HasItself(c.perms);
      assert Check(c, 0, 0, c.perms);
      HasIsSubset(c.perms, rights);
    }
  }

  lemma HasItself(p: bv32)
    ensures Has(p, p)
  {
  }

  lemma HasIsSubset(p: bv32, q: bv32)
    requires Has(q, p)
    ensures Subset(p, q)
  {
  }

  lemma DataPerms()
    ensures var p := LOAD | STORE | GLOBAL; Subset(p, p) && !Privileged(p) && !WritableCode(p)
  {
  }
}

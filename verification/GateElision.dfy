/** Which accesses lose their bounds check: exactly those whose address is a constant that
    nothing in between takes up, with no branch target on the way. */
module GateElision {
  import opened Bits
  import opened GateIr
  import opened GateChecker
  import opened GateOptimizer

  /** The constant `v`, pushed at `j` as operand number `d`, is still there before `i`: no
      instruction in between takes it, and no branch lands in between. */
  ghost predicate Carries(m: Module, j: nat, i: nat, d: nat, v: u32)
    requires i <= |m.code|
  {
    && j < i && m.code[j].op.Const? && m.code[j].imm == v && Depth(m.code, j) == d
    && (forall x | j < x < i :: LeavesAlone(m, x, d)) && (forall x | j < x <= i :: NoBranchTo(m, x))
  }

  predicate NoBranchTo(m: Module, t: nat)
  {
    forall i | 0 <= i < |m.code| && (m.code[i].op.Br? || m.code[i].op.BrIf?) :: m.code[i].a != t
  }

  lemma TargetIs(m: Module, t: nat)
    ensures IsTarget(m, t) <==> !NoBranchTo(m, t)
  {
  }

  predicate LeavesAlone(m: Module, x: nat, d: nat)
    requires x < |m.code|
  {
    Depth(m.code, x) - Needs(m.code[x].op) > d
  }

  ghost predicate Carried(m: Module, i: nat, d: nat, v: u32)
    requires i <= |m.code|
  {
    exists j: nat :: Carries(m, j, i, d, v)
  }

  /** What one instruction does to one slot. */
  lemma TransferAt(m: Module, i: Inst, s: AbsStack, d: nat)
    requires Verdict(m, i, |s|).Ok? && d < |Transfer(s, i)|
    ensures d < |s| - Needs(i.op) ==> d < |s| && Transfer(s, i)[d] == s[d]
    ensures d >= |s| - Needs(i.op) ==> Transfer(s, i)[d] == if i.op.Const? then Some(i.imm) else None
    ensures d >= |s| - Needs(i.op) && i.op.Const? ==> d == |s|
  {
  }

  lemma CarriedStep(m: Module, i: nat, d: nat, v: u32)
    requires i < |m.code| && NoBranchTo(m, i + 1)
    ensures LeavesAlone(m, i, d) ==> (Carried(m, i + 1, d, v) <==> Carried(m, i, d, v) || Fresh(m, i, d, v))
    ensures !LeavesAlone(m, i, d) ==> (Carried(m, i + 1, d, v) <==> Fresh(m, i, d, v))
  {
    hide Depth, NoBranchTo, LeavesAlone;
    if Carried(m, i + 1, d, v) {
      var j: nat :| Carries(m, j, i + 1, d, v);
      if j < i {
        assert LeavesAlone(m, i, d) && Carries(m, j, i, d, v);
      }
    }
    if Fresh(m, i, d, v) {
      assert Carries(m, i, i + 1, d, v);
    }
    if Carried(m, i, d, v) && LeavesAlone(m, i, d) {
      var j: nat :| Carries(m, j, i, d, v);
      assert Carries(m, j, i + 1, d, v);
    }
  }

  predicate Fresh(m: Module, i: nat, d: nat, v: u32)
    requires i < |m.code|
  {
    m.code[i].op.Const? && m.code[i].imm == v && Depth(m.code, i) == d
  }

  /** The pass knows an operand exactly if it is such a constant. */
  lemma {:induction false} KnownIff(m: Module, i: nat, d: nat, v: u32)
    requires m.Shaped() && Accepted(m) && i <= |m.code| && d < |AbsAt(m, i)|
    ensures AbsAt(m, i)[d] == Some(v) <==> Carried(m, i, d, v)
  {
    if i > 0 {
      var k := i - 1;
      AbsDepth(m, k);
      assert InstOk(m, k);
      var s, t := AbsAt(m, k), Transfer(AbsAt(m, k), m.code[k]);
      assert AbsAt(m, i) == Meet(m, i, t);
      TargetIs(m, i);
      hide Depth, IsTarget, NoBranchTo, Transfer, Verdict, AbsAt, Carried, Needs;
      if IsTarget(m, i) {
        TargetForgets(m, i, d, v);
      } else {
        TransferAt(m, m.code[k], s, d);
        CarriedStep(m, k, d, v);
        if LeavesAlone(m, k, d) {
          KnownIff(m, k, d, v);
        }
      }
    }
  }

  lemma TargetForgets(m: Module, i: nat, d: nat, v: u32)
    requires i <= |m.code| && !NoBranchTo(m, i)
    ensures !Carried(m, i, d, v)
  {
    hide NoBranchTo, LeavesAlone, Depth;
  }

  /** On an accepted module: an access is rewritten exactly if its address, the top operand of a
      load and the one below of a store, is a constant with which it ends inside the memory. */
  lemma ElidedIff(m: Module, i: nat)
    requires m.Shaped() && Accepted(m) && i < |m.code| && (m.code[i].op.Load? || m.code[i].op.Store?)
    ensures var d := Depth(m.code, i) - if m.code[i].op.Load? then 1 else 2;
      && d >= 0
      && (Proven(m, i) <==> exists v: u32 :: Carried(m, i, d, v) && v + m.code[i].imm + 4 <= m.memSize)
  {
    AbsDepth(m, i);
    assert InstOk(m, i);
    var d := Depth(m.code, i) - if m.code[i].op.Load? then 1 else 2;
    var s := AbsAt(m, i);
    hide Depth, AbsAt, Carried;
    forall v: u32
      ensures s[d] == Some(v) <==> Carried(m, i, d, v)
    {
      KnownIff(m, i, d, v);
    }
  }
}

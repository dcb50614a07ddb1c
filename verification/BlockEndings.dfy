/** How each block of a compiled function ends, read off the program: for any laid-out program that
    compiles, whatever its operands name and however many of its statements fail to lower. */
module BlockEndings {
  import opened Wrappers
  import opened Machine
  import opened Lowering
  import opened BlockShape
  import opened EdgeAgreement
  import opened TrackedScan
  import J = JuliaIR

  /** The scan finds that block b's first terminator can be emitted. */
  predicate EmitsOwn(p: J.Prog, b: nat)
    requires J.LaidOut(p) && b < |p.blocks|
  {
    ScanTo(p, b).Some? && ScanStmts(p, ScanTo(p, b).value, b, p.blocks[b].first).1
  }

  /** Where a conditional goes when its condition holds: the other successor, or, for want of one, the
      destination. */
  predicate OtherSide(succs: seq<nat>, dest: nat, target: nat) {
    if |succs| < 2 then target == dest + 1
    else if succs[1] == dest then target == succs[0] + 1
    else target == succs[1] + 1
  }

  /** The instruction that stands for a terminator. */
  predicate StandsFor(i: Instr, s: J.Stmt, succs: seq<nat>) {
    match s
    case GotoNode(d) => i.Jump? && i.target == d + 1
    case GotoIfNot(_, d) => i.Brif? && i.els == d + 1 && OtherSide(succs, d, i.thn)
    case ReturnNode(_) => i.Return?
    case ReturnNothing => i.Return?
    case _ => i == Trap
  }

  /** The instruction that ends a block whose terminator was not emitted: a jump to the only successor, and
      otherwise a trap. */
  predicate Fallback(i: Instr, succs: seq<nat>) {
    if |succs| == 1 then i.Jump? && i.target == succs[0] + 1 else i == Trap
  }

  // ---- one terminator ----

  lemma BranchStands(c: Ctx, p: J.Prog, b: nat, cond: J.Operand, dest: nat)
    requires Valid(c) && J.LaidOut(p) && b < |p.blocks| && dest < |p.blocks| && |c.params| == |p.blocks| + 1
    requires EmitGotoIfNot(c, p, b, cond, dest).1
    ensures var c' := EmitGotoIfNot(c, p, b, cond, dest).0;
      c'.bodies[c'.cur] != [] && StandsFor(LastOf(c'), J.GotoIfNot(cond, dest), p.blocks[b].succs)
  {
    hide BranchArgs, CoerceAll, Resolve;
  }

  lemma TerminatorStands(c: Ctx, p: J.Prog, b: nat, s: J.Stmt)
    requires Valid(c) && J.LaidOut(p) && b < |p.blocks| && |c.params| == |p.blocks| + 1
    requires s.IsTerminator() && J.DestInRange(p, s) && EmitTerminator(c, p, b, s).1
    ensures var c' := EmitTerminator(c, p, b, s).0;
      c'.bodies[c'.cur] != [] && StandsFor(LastOf(c'), s, p.blocks[b].succs)
  {
    hide EdgeArgs, EmitGotoIfNot, Resolve, CoerceAll, Coerce, J.LaidOut;
    match s
    case GotoIfNot(cond, d) => BranchStands(c, p, b, cond, d);
    case _ =>
  }

  lemma {:induction false} StmtsStand(c: Ctx, p: J.Prog, b: nat, si: nat)
    requires Valid(c) && J.LaidOut(p) && b < |p.blocks| && |c.params| == |p.blocks| + 1
    requires p.blocks[b].first <= si <= p.blocks[b].last && EmitStmts(c, p, b, si).1
    ensures var c1 := EmitStmts(c, p, b, si).0;
      && c1.bodies[c1.cur] != []
      && var t := FirstTerminator(p, si, p.blocks[b].last);
        t < p.blocks[b].last && StandsFor(LastOf(c1), p.stmts[t], p.blocks[b].succs)
    decreases p.blocks[b].last - si
  {
    hide EmitTerminator, EmitValue, Sentinel, StandsFor, J.LaidOut;
    BlockStmt(p, b, si);
    if p.stmts[si].IsTerminator() {
      TerminatorStands(c, p, b, p.stmts[si]);
    } else {
      StmtsStand(EmitStmt(c, p, b, si).0, p, b, si + 1);
    }
  }

  // ---- one block ----

  /** What block b's last instruction must be. */
  predicate EndsAs(p: J.Prog, b: nat, own: bool, i: Instr)
    requires J.LaidOut(p) && b < |p.blocks|
  {
    var t := FirstTerminator(p, p.blocks[b].first, p.blocks[b].last);
    if own then t < p.blocks[b].last && StandsFor(i, p.stmts[t], p.blocks[b].succs)
    else Fallback(i, p.blocks[b].succs)
  }

  lemma BlockEndsAs(c: Ctx, p: J.Prog, b: nat)
    requires Valid(c) && J.LaidOut(p) && b < |p.blocks| && |c.params| == |p.blocks| + 1 && EmitBlock(c, p, b).Some?
    ensures var r := EmitBlock(c, p, b).value;
      && b + 1 < |r.bodies| && r.bodies[b + 1] != []
      && EndsAs(p, b, EmitStmts(c.(cur := b + 1), p, b, p.blocks[b].first).1, Last(r, b + 1))
  {
    hide EmitStmts, EdgeArgs, CoerceAll, StandsFor, J.LaidOut;
    var c0, first := c.(cur := b + 1), p.blocks[b].first;
    LastInRange(p, b);
    if EmitStmts(c0, p, b, first).1 { StmtsStand(c0, p, b, first); }
  }

  // ---- every block of a function ----

  /** Earlier blocks, when block b is reached. */
  ghost predicate EndedBefore(p: J.Prog, c: Ctx, b: nat)
    requires J.LaidOut(p) && b <= |p.blocks|
  {
    && |c.bodies| == |p.blocks| + 1 && (forall i | b < i <= |p.blocks| :: c.bodies[i] == [])
    && forall i: nat | i < b :: Ended(p, c, i)
  }

  predicate Ended(p: J.Prog, c: Ctx, i: nat)
    requires J.LaidOut(p) && i < |p.blocks|
  {
    i + 1 < |c.bodies| && c.bodies[i + 1] != [] && EndsAs(p, i, EmitsOwn(p, i), Last(c, i + 1))
  }

  /** One block more, which leaves the others' code alone. */
  lemma EndedNext(p: J.Prog, c: Ctx, r: Ctx, b: nat)
    requires J.LaidOut(p) && b < |p.blocks| && EndedBefore(p, c, b) && |r.bodies| == |c.bodies| && Ended(p, r, b)
    requires forall i | 0 <= i < |c.bodies| && i != b + 1 :: r.bodies[i] == c.bodies[i]
    ensures EndedBefore(p, r, b + 1)
  {
    hide EndsAs, EmitsOwn, J.LaidOut;
    forall i: nat | i < b + 1 ensures Ended(p, r, i) {
      if i < b { assert Ended(p, c, i) && r.bodies[i + 1] == c.bodies[i + 1]; }
    }
  }

  lemma {:induction false} ContextEnds(p: J.Prog, b: nat)
    requires J.LaidOut(p) && b <= |p.blocks| && ContextAt(p, b).Some?
    ensures EndedBefore(p, ContextAt(p, b).value, b)
    decreases b
  {
    hide EmitBlock, EmitStmts, ScanStmts, ScanBlock, AddAllParams, EndsAs, Scanned, J.LaidOut, Complete, ScanTo,
      EndedBefore;
    if b == 0 {
      NoneEnded(p);
    } else {
      ContextEnds(p, b - 1);
      EndedSizes(p, ContextAt(p, b - 1).value, b - 1);
      var c := ContextAt(p, b - 1).value;
      BlockCompletes(c, p, b - 1);
      BlockEndsAs(c, p, b - 1);
      ContextScan(p, b - 1);
      BlockScan(p, c, ScanTo(p, b - 1).value, b - 1);
      EndedNext(p, c, EmitBlock(c, p, b - 1).value, b - 1);
    }
  }

  lemma EndedSizes(p: J.Prog, c: Ctx, b: nat)
    requires J.LaidOut(p) && b < |p.blocks| && EndedBefore(p, c, b)
    ensures |c.bodies| == |p.blocks| + 1 && c.bodies[b + 1] == []
  {
    hide Ended, J.LaidOut;
  }

  lemma NoneEnded(p: J.Prog)
    requires J.LaidOut(p)
    ensures EndedBefore(p, AddAllParams(Init(p), p, 0), 0)
  {
    hide AddAllParams, J.LaidOut;
    AllParamsKeepCode(Init(p), p, 0);
  }

  /** Every block of every laid-out program that compiles ends in its own first terminator, if the scan finds
      that it can be emitted, with its own targets; otherwise in a jump to its only successor; otherwise, with
      no successor or several, in a trap. */
  lemma BlocksEndAs(p: J.Prog, b: nat)
    requires J.LaidOut(p) && Compile(p).Some? && b < |p.blocks|
    ensures var r := Compile(p).value;
      && b + 1 < |r.bodies| && r.bodies[b + 1] != []
      && EndsAs(p, b, EmitsOwn(p, b), Last(r, b + 1))
  {
    hide ContextAt, EmitBlocks, EndsAs, J.LaidOut, AddAllParams, EmitsOwn;
    ContextsCompile(p, 0);
    FirstContext(p);
    ContextEnds(p, |p.blocks|);
    assert Ended(p, Compile(p).value, b);
  }

  // ---- a return that cannot be emitted ----

  /** A function that returns a value the emitter never tracks. */
  function LostReturn(): J.Prog {
    J.Prog([], Some(J.Int64), [J.Nop, J.ReturnNode(J.SSA(0))], [J.Block(0, 2, [])])
  }

  /** It compiles, to a trap: nothing is returned in its place. */
  lemma LostReturnTraps()
    ensures J.LaidOut(LostReturn()) && Compile(LostReturn()).Some?
    ensures var r := Compile(LostReturn()).value; 1 < |r.bodies| && r.bodies[1] != [] && Last(r, 1) == Trap
  {
    hide Compile, EndsAs;
    var p := LostReturn();
    var k := Known(TrackedScan.Phis(p), {});
    assert p.stmts[0] == J.Nop && p.stmts[1] == J.ReturnNode(J.SSA(0));
    assert ScanStmts(p, k, 0, 1) == (k.(ssa := k.ssa + {1}), false);
    assert ScanStmts(p, k, 0, 0) == (k.(ssa := k.ssa + {1}), false);
    assert ScanTo(p, 0) == Some(k) && ScanTo(p, 1).Some?;
    CompilesExactly(p);
    BlocksEndAs(p, 0);
    TrapOnly(p, Last(Compile(p).value, 1));
  }

  lemma TrapOnly(p: J.Prog, i: Instr)
    requires p == LostReturn() && J.LaidOut(p) && EndsAs(p, 0, false, i)
    ensures i == Trap
  {
  }
}

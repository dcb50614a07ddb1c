/** What a statement that fails to lower leaves behind: a zero of its own type, under which later statements
    find it, in any laid-out program that compiles. */
module FailedStatements {
  import opened Wrappers
  import opened Machine
  import opened Lowering
  import opened BlockShape
  import opened EdgeAgreement
  import opened TrackedScan
  import J = JuliaIR

  /** What is tracked in block b when statement n is reached, if it is. */
  function KnownAt(p: J.Prog, k: Known, b: nat, n: nat): Known
    requires J.LaidOut(p) && b < |p.blocks| && n <= |p.stmts|
  {
    if n <= p.blocks[b].first then k else ScanValue(p, KnownAt(p, k, b, n - 1), n - 1)
  }

  /** Statement n cannot be emitted: it, or an operand, is not supported or not tracked. */
  predicate Fails(p: J.Prog, k: Known, b: nat, n: nat)
    requires J.LaidOut(p) && b < |p.blocks| && n < |p.stmts|
  {
    match p.stmts[n]
    case Call(_, _, x, y) => !OperandKnown(p, k, x) || !OperandKnown(p, k, y)
    case Checked(_, ty, x, y) => !OperandKnown(p, k, x) || !OperandKnown(p, k, y) || ty.Bool?
    case GetField(q, _) => q !in k.pairs
    case Pi(_, v) => !OperandKnown(p, k, v)
    case Unsupported(_) => true
    case Phi(_, _) => false
    case Nop => false
    case s => !ScanTerminator(p, k, b, s)
  }

  /** The register type of the statement's own type; i64 for one without, and for a pair. */
  function OwnReg(p: J.Prog, n: nat): Ty
    requires n < |p.stmts|
  {
    match p.stmts[n]
    case Call(op, ty, _, _) => if op.IsCompare() then I32 else ty.Reg()
    case GetField(q, second) =>
      if q < |p.stmts| && p.stmts[q].Checked? then (if second then I32 else p.stmts[q].aty.Reg()) else I64
    case Pi(ty, _) => ty.Reg()
    case Unsupported(ty) => ty.Reg()
    case Phi(ty, _) => ty.Reg()
    case _ => I64
  }

  /** In machine block b, a zero is defined, and statement n is tracked as it. */
  ghost predicate Zeroed(p: J.Prog, c: Ctx, b: nat, n: nat)
    requires n < |p.stmts|
  {
    b < |c.bodies| && n in c.ssa && Instr.Iconst(c.ssa[n], OwnReg(p, n), 0) in c.bodies[b]
  }

  // ---- the failing statement ----

  lemma SentinelZeroes(c: Ctx, p: J.Prog, n: nat)
    requires Valid(c) && n < |p.stmts|
    ensures var r := Sentinel(c, p, n); r.cur == c.cur && Zeroed(p, r, r.cur, n)
  {
    var r := Sentinel(c, p, n);
    var body := r.bodies[r.cur];
    assert body[|body| - 1] == Instr.Iconst(c.next, OwnReg(p, n), 0);
  }

  lemma FailingZeroes(c: Ctx, p: J.Prog, k: Known, b: nat, n: nat)
    requires Valid(c) && J.LaidOut(p) && b < |p.blocks| && J.In(p, b, n) && n < |p.stmts|
    requires |c.params| == |p.blocks| + 1 && Scanned(p, c, k) && Fails(p, k, b, n)
    ensures var r := EmitStmt(c, p, b, n).0; r.cur == c.cur && Zeroed(p, r, c.cur, n)
  {
    hide Sentinel, EmitTerminator, EmitCall, EmitPair, Resolve, Resolve2, Scanned, J.LaidOut, ScanTerminator, Zeroed,
      OperandKnown;
    BlockStmt(p, b, n);
    if p.stmts[n].IsTerminator() {
      TerminatorScan(p, c, k, b, p.stmts[n]);
      SentinelZeroes(EmitTerminator(c, p, b, p.stmts[n]).0, p, n);
    } else {
      FailsToEmit(c, p, k, b, n);
      SentinelZeroes(EmitValue(c, p, n).0, p, n);
    }
  }

  lemma FailsToEmit(c: Ctx, p: J.Prog, k: Known, b: nat, n: nat)
    requires Valid(c) && J.LaidOut(p) && b < |p.blocks| && n < |p.stmts| && !p.stmts[n].IsTerminator()
    requires Scanned(p, c, k) && Fails(p, k, b, n)
    ensures !EmitValue(c, p, n).1
  {
    hide Valid, Resolve, Resolve2, EmitCall, EmitPair, Record, J.LaidOut, OperandKnown, Frame;
    match p.stmts[n]
    case Call(_, _, x, y) => Resolve2Scan(p, c, k, x, y);
    case Checked(_, _, x, y) => Resolve2Scan(p, c, k, x, y);
    case Pi(_, v) => ResolveScan(p, c, k, v);
    case _ =>
  }

  // ---- nothing later replaces it ----

  ghost predicate Later(c: Ctx, c': Ctx, n: nat) {
    && |c.bodies| == |c'.bodies| && (forall i | 0 <= i < |c.bodies| :: c.bodies[i] <= c'.bodies[i])
    && (n in c.ssa ==> n in c'.ssa && c'.ssa[n] == c.ssa[n])
  }

  lemma LaterZeroed(p: J.Prog, c: Ctx, c': Ctx, b: nat, n: nat)
    requires n < |p.stmts| && Zeroed(p, c, b, n) && Later(c, c', n)
    ensures Zeroed(p, c', b, n)
  {
    hide OwnReg;
  }

  lemma LaterTrans(a: Ctx, b: Ctx, c: Ctx, n: nat)
    requires Later(a, b, n) && Later(b, c, n)
    ensures Later(a, c, n)
  {
  }

  lemma FrameLater(c: Ctx, c': Ctx, n: nat)
    requires Frame(c, c') && (n in c.ssa ==> n in c'.ssa && c'.ssa[n] == c.ssa[n])
    ensures Later(c, c', n)
  {
  }

  lemma ValueKeepsOthers(c: Ctx, p: J.Prog, si: nat, n: nat)
    requires Valid(c) && si < |p.stmts| && !p.stmts[si].IsTerminator() && n != si && n in c.ssa
    ensures n in EmitValue(c, p, si).0.ssa && EmitValue(c, p, si).0.ssa[n] == c.ssa[n]
  {
    hide Valid, Resolve, Resolve2, EmitOps, Frame;
  }

  lemma SentinelKeepsOthers(c: Ctx, p: J.Prog, si: nat, n: nat)
    requires Valid(c) && n != si && n in c.ssa
    ensures n in Sentinel(c, p, si).ssa && Sentinel(c, p, si).ssa[n] == c.ssa[n]
  {
  }

  lemma DestOK(p: J.Prog, si: nat)
    requires J.LaidOut(p) && si < |p.stmts|
    ensures J.DestInRange(p, p.stmts[si])
  {
  }

  lemma StmtLater(c: Ctx, p: J.Prog, b: nat, si: nat, n: nat)
    requires Valid(c) && J.LaidOut(p) && b < |p.blocks| && si < |p.stmts| && |c.params| == |p.blocks| + 1 && n != si
    ensures Later(c, EmitStmt(c, p, b, si).0, n)
  {
    hide EmitTerminator, EmitValue, Sentinel, Valid, J.LaidOut, Later, Frame;
    var (c1, done) := EmitStmt(c, p, b, si);
    DestOK(p, si);
    StmtShape(c, p, b, si);
    if n in c.ssa {
      if p.stmts[si].IsTerminator() {
        TerminatorKeepsTables(c, p, b, p.stmts[si]);
        if !done { SentinelKeepsOthers(EmitTerminator(c, p, b, p.stmts[si]).0, p, si, n); }
      } else {
        ValueKeepsOthers(c, p, si, n);
        if !EmitValue(c, p, si).1 { SentinelKeepsOthers(EmitValue(c, p, si).0, p, si, n); }
      }
    }
    FrameLater(c, c1, n);
  }

  lemma {:induction false} StmtsLater(c: Ctx, p: J.Prog, b: nat, si: nat, n: nat)
    requires Valid(c) && J.LaidOut(p) && b < |p.blocks| && |c.params| == |p.blocks| + 1
    requires p.blocks[b].first <= si && !(si <= n < p.blocks[b].last)
    ensures Later(c, EmitStmts(c, p, b, si).0, n)
    decreases p.blocks[b].last - si
  {
    hide EmitStmt, J.LaidOut, Valid;
    if si < p.blocks[b].last {
      LastInRange(p, b);
      StmtLater(c, p, b, si, n);
      var c1 := EmitStmt(c, p, b, si).0;
      if !p.stmts[si].IsTerminator() {
        StmtsLater(c1, p, b, si + 1, n);
        LaterTrans(c, c1, EmitStmts(c1, p, b, si + 1).0, n);
      }
    }
  }

  lemma EndLater(c: Ctx, p: J.Prog, b: nat, done: bool, n: nat)
    requires Valid(c) && J.LaidOut(p) && b < |p.blocks| && |c.params| == |p.blocks| + 1
    requires EndBlock(c, p, b, done).Some?
    ensures Later(c, EndBlock(c, p, b, done).value, n)
  {
    hide EdgeArgs, EmitJump, Valid, J.LaidOut;
    if !done && |p.blocks[b].succs| == 1 {
      var d := p.blocks[b].succs[0];
      OnlySuccInRange(p, b);
      JumpKeepsTables(c, p, b, d);
    }
  }

  lemma BlockLater(c: Ctx, p: J.Prog, b: nat, n: nat)
    requires Valid(c) && J.LaidOut(p) && b < |p.blocks| && |c.params| == |p.blocks| + 1 && EmitBlock(c, p, b).Some?
    requires !J.In(p, b, n)
    ensures Later(c, EmitBlock(c, p, b).value, n)
  {
    hide EmitStmts, EndBlock, J.LaidOut;
    var c0 := c.(cur := b + 1);
    StmtsLater(c0, p, b, p.blocks[b].first, n);
    var (c1, done) := EmitStmts(c0, p, b, p.blocks[b].first);
    EndLater(c1, p, b, done, n);
    LaterTrans(c0, c1, EndBlock(c1, p, b, done).value, n);
  }

  // ---- from the failing statement to the end ----

  /** Statement n is reached in block b: no terminator stands before it. */
  predicate Reached(p: J.Prog, b: nat, n: nat)
    requires J.LaidOut(p) && b < |p.blocks| && n <= |p.stmts|
  {
    J.In(p, b, n) && forall m | p.blocks[b].first <= m < n :: !p.stmts[m].IsTerminator()
  }

  lemma {:induction false} StmtsZeroed(c: Ctx, p: J.Prog, k: Known, b: nat, si: nat, n: nat)
    requires Valid(c) && J.LaidOut(p) && b < |p.blocks| && |c.params| == |p.blocks| + 1 && n < |p.stmts|
    requires Reached(p, b, n) && p.blocks[b].first <= si <= n && Scanned(p, c, KnownAt(p, k, b, si))
    requires Fails(p, KnownAt(p, k, b, n), b, n)
    ensures var r := EmitStmts(c, p, b, si).0; r.cur == c.cur && Zeroed(p, r, c.cur, n)
    decreases n - si
  {
    hide EmitStmt, J.LaidOut, Valid, ScanValue, Fails, Zeroed, Scanned, Later, EmitStmts;
    NextStmts(c, p, b, si);
    var c1 := EmitStmt(c, p, b, si).0;
    if si == n {
      FailingZeroes(c, p, KnownAt(p, k, b, n), b, n);
      if !p.stmts[n].IsTerminator() {
        StmtsLater(c1, p, b, si + 1, n);
        LaterZeroed(p, c1, EmitStmts(c1, p, b, si + 1).0, c.cur, n);
      }
    } else {
      ValueScan(p, c, KnownAt(p, k, b, si), b, si);
      StmtsZeroed(c1, p, k, b, si + 1, n);
    }
  }

  lemma NextStmts(c: Ctx, p: J.Prog, b: nat, si: nat)
    requires Valid(c) && J.LaidOut(p) && b < |p.blocks| && |c.params| == |p.blocks| + 1
    requires p.blocks[b].first <= si < p.blocks[b].last
    ensures si < |p.stmts|
    ensures var c1 := EmitStmt(c, p, b, si).0;
      && Valid(c1) && c1.cur == c.cur && |c1.params| == |c.params|
      && EmitStmts(c, p, b, si).0 == (if p.stmts[si].IsTerminator() then c1 else EmitStmts(c1, p, b, si + 1).0)
      && Valid(EmitStmts(c1, p, b, si + 1).0) && EmitStmts(c1, p, b, si + 1).0.cur == c.cur
  {
    hide EmitStmt, J.LaidOut;
    LastInRange(p, b);
  }

  lemma BlockZeroed(c: Ctx, p: J.Prog, k: Known, b: nat, n: nat)
    requires Valid(c) && J.LaidOut(p) && b < |p.blocks| && |c.params| == |p.blocks| + 1 && EmitBlock(c, p, b).Some?
    requires n < |p.stmts| && Reached(p, b, n) && Scanned(p, c, k) && Fails(p, KnownAt(p, k, b, n), b, n)
    ensures Zeroed(p, EmitBlock(c, p, b).value, b + 1, n)
  {
    hide EmitStmts, EndBlock, J.LaidOut, Zeroed, Fails, ScanValue, Later;
    var c0 := c.(cur := b + 1);
    StmtsZeroed(c0, p, k, b, p.blocks[b].first, n);
    var (c1, done) := EmitStmts(c0, p, b, p.blocks[b].first);
    EndLater(c1, p, b, done, n);
    LaterZeroed(p, c1, EndBlock(c1, p, b, done).value, b + 1, n);
  }

  /** Other blocks do not hold statement n. */
  lemma OneBlock(p: J.Prog, b: nat, d: nat, n: nat)
    requires J.LaidOut(p) && b < d < |p.blocks| && J.In(p, b, n)
    ensures !J.In(p, d, n)
  {
    FirstsGrow(p, b, d);
  }

  lemma {:induction false} FirstsGrow(p: J.Prog, b: nat, d: nat)
    requires J.LaidOut(p) && b < d < |p.blocks|
    ensures p.blocks[b].last <= p.blocks[d].first
    decreases d
  {
    if b < d - 1 { FirstsGrow(p, b, d - 1); }
  }

  lemma {:induction false} ContextZeroed(p: J.Prog, b: nat, d: nat, n: nat)
    requires J.LaidOut(p) && b < d <= |p.blocks| && ContextAt(p, d).Some? && n < |p.stmts| && Reached(p, b, n)
    requires ScanTo(p, b).Some? ==> Fails(p, KnownAt(p, ScanTo(p, b).value, b, n), b, n)
    ensures Zeroed(p, ContextAt(p, d).value, b + 1, n)
    decreases d
  {
    hide EmitBlock, J.LaidOut, Zeroed, Fails, ScanTo, Later, Scanned, AddAllParams;
    var c := ContextAt(p, d - 1).value;
    if b == d - 1 {
      ContextScan(p, b);
      BlockZeroed(c, p, ScanTo(p, b).value, b, n);
    } else {
      ContextZeroed(p, b, d - 1, n);
      OneBlock(p, b, d - 1, n);
      BlockLater(c, p, d - 1, n);
      LaterZeroed(p, c, EmitBlock(c, p, d - 1).value, b + 1, n);
    }
  }

  /** In every laid-out program that compiles, each statement that is reached and fails is tracked, to the end,
      as a zero of its own type that is defined in its block. */
  lemma FailuresAreZero(p: J.Prog, b: nat, n: nat)
    requires J.LaidOut(p) && Compile(p).Some? && b < |p.blocks| && n < |p.stmts| && Reached(p, b, n)
    requires ScanTo(p, b).Some? ==> Fails(p, KnownAt(p, ScanTo(p, b).value, b, n), b, n)
    ensures Zeroed(p, Compile(p).value, b + 1, n)
  {
    hide ContextAt, EmitBlocks, J.LaidOut, AddAllParams, Fails, ScanTo, Zeroed;
    ContextsCompile(p, 0);
    FirstContext(p);
    ContextZeroed(p, b, |p.blocks|, n);
  }
}

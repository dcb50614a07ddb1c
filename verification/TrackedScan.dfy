/** What the emitter will have tracked at each statement, found by reading the program: for any laid-out
    program this decides whether it compiles, and which blocks end in a branch of the wrong arity. */
module TrackedScan {
  import opened Wrappers
  import opened Machine
  import opened Scripts
  import opened Lowering
  import opened BlockShape
  import opened EdgeAgreement
  import J = JuliaIR

  /** The statements tracked as values, and as pairs. */
  datatype Known = Known(ssa: set<nat>, pairs: set<nat>)

  predicate OperandKnown(p: J.Prog, k: Known, o: J.Operand) {
    match o case SSA(n) => n in k.ssa case Arg(i) => i < |p.args| case Lit(_, _) => true
  }

  /** Every statement that has a value tracks one, its own or a zero, save a checked pair that succeeds. */
  function ScanValue(p: J.Prog, k: Known, si: nat): Known
    requires si < |p.stmts|
  {
    match p.stmts[si]
    case Call(op, _, x, y) =>
      var ok := OperandKnown(p, k, x) && OperandKnown(p, k, y);
      Known(k.ssa + {si}, if ok && op.CheckedRem? then k.pairs + {si} else k.pairs)
    case Checked(_, ty, x, y) =>
      if OperandKnown(p, k, x) && OperandKnown(p, k, y) && !ty.Bool? then k.(pairs := k.pairs + {si})
      else k.(ssa := k.ssa + {si})
    case GetField(_, _) => k.(ssa := k.ssa + {si})
    case Pi(_, _) => k.(ssa := k.ssa + {si})
    case Unsupported(_) => k.(ssa := k.ssa + {si})
    case _ => k
  }

  predicate PhiKnown(p: J.Prog, k: Known, n: nat, from: nat)
    requires n < |p.stmts|
  {
    p.stmts[n].Phi? ==>
      match J.EdgeFrom(p.stmts[n].edges, from) case Some(Edge(_, Some(o))) => OperandKnown(p, k, o) case _ => true
  }

  /** All that d's phis take from a predecessor is tracked. */
  predicate EdgeKnown(p: J.Prog, k: Known, from: nat, d: nat)
    requires J.LaidOut(p) && d < |p.blocks|
  {
    forall n | p.blocks[d].first <= n < p.blocks[d].last :: PhiKnown(p, k, n, from)
  }

  predicate ScanTerminator(p: J.Prog, k: Known, b: nat, s: J.Stmt)
    requires J.LaidOut(p) && b < |p.blocks| && J.DestInRange(p, s)
  {
    match s
    case GotoNode(d) => EdgeKnown(p, k, b, d)
    case GotoIfNot(cond, d) =>
      var ft := Fallthrough(p.blocks[b].succs, d);
      && OperandKnown(p, k, cond) && (ft.Some? ==> ft.value < |p.blocks| && EdgeKnown(p, k, b, ft.value))
      && EdgeKnown(p, k, b, d)
    case ReturnNode(v) => OperandKnown(p, k, v)
    case _ => true
  }

  /** Up to the first terminator; true if that can be emitted. */
  function ScanStmts(p: J.Prog, k: Known, b: nat, si: nat): (Known, bool)
    requires J.LaidOut(p) && b < |p.blocks|
    decreases p.blocks[b].last - si
  {
    if si >= p.blocks[b].last then (k, false)
    else if !p.stmts[si].IsTerminator() then ScanStmts(p, ScanValue(p, k, si), b, si + 1)
    else if ScanTerminator(p, k, b, p.stmts[si]) then (k, true)
    else (k.(ssa := k.ssa + {si}), false)
  }

  /** None if the block needs a jump to its only successor whose arguments are not tracked. */
  function ScanBlock(p: J.Prog, k: Known, b: nat): Option<Known>
    requires J.LaidOut(p) && b < |p.blocks|
  {
    var (k1, done) := ScanStmts(p, k, b, p.blocks[b].first);
    var succs := p.blocks[b].succs;
    if done || |succs| != 1 || EdgeKnown(p, k1, b, succs[0]) then Some(k1) else None
  }

  function Phis(p: J.Prog): set<nat> {
    set n | 0 <= n < |p.stmts| && p.stmts[n].Phi?
  }

  function ScanTo(p: J.Prog, b: nat): Option<Known>
    requires J.LaidOut(p) && b <= |p.blocks|
  {
    if b == 0 then Some(Known(Phis(p), {}))
    else match ScanTo(p, b - 1) case None => None case Some(k) => ScanBlock(p, k, b - 1)
  }

  // ---- the emitter tracks what is scanned ----

  ghost predicate Scanned(p: J.Prog, c: Ctx, k: Known) {
    c.nargs == |p.args| && c.ssa.Keys == k.ssa && c.pairs.Keys == k.pairs
  }

  lemma ResolveScan(p: J.Prog, c: Ctx, k: Known, o: J.Operand)
    requires Valid(c) && Scanned(p, c, k)
    ensures Resolve(c, o).1.Some? <==> OperandKnown(p, k, o)
    ensures Scanned(p, Resolve(c, o).0, k)
  {
  }

  lemma Resolve2Scan(p: J.Prog, c: Ctx, k: Known, x: J.Operand, y: J.Operand)
    requires Valid(c) && Scanned(p, c, k)
    ensures Resolve2(c, x, y).1.Some? <==> OperandKnown(p, k, x) && OperandKnown(p, k, y)
    ensures Scanned(p, Resolve2(c, x, y).0, k)
  {
    hide Resolve, OperandKnown, Scanned;
    ResolveScan(p, c, k, x);
    if Resolve(c, x).1.Some? { ResolveScan(p, Resolve(c, x).0, k, y); }
  }

  lemma CallScan(p: J.Prog, c: Ctx, k: Known, si: nat, op: J.Intrinsic, ty: J.JTy, a: Id, b: Id)
    requires Valid(c) && Scanned(p, c, k)
    ensures Scanned(p, EmitCall(c, si, op, ty, a, b),
                    Known(k.ssa + {si}, if op.CheckedRem? then k.pairs + {si} else k.pairs))
  {
    hide EmitOps, CallScript, Valid;
  }

  lemma PairScan(p: J.Prog, c: Ctx, k: Known, si: nat, kind: J.Arith, ty: J.JTy, a: Id, b: Id)
    requires Valid(c) && Scanned(p, c, k)
    ensures Scanned(p, EmitPair(c, si, kind, ty, a, b), k.(pairs := k.pairs + {si}))
  {
    hide EmitOps, CheckedScript, Valid;
  }

  lemma ZeroScan(p: J.Prog, c: Ctx, k: Known, si: nat)
    requires Valid(c) && Scanned(p, c, k)
    ensures Scanned(p, Sentinel(c, p, si), k.(ssa := k.ssa + {si}))
  {
  }

  lemma RecordScan(p: J.Prog, c: Ctx, k: Known, si: nat, id: Id)
    requires Valid(c) && Scanned(p, c, k)
    ensures Scanned(p, Record(c, si, id), k.(ssa := k.ssa + {si}))
  {
  }

  lemma ValueScan(p: J.Prog, c: Ctx, k: Known, b: nat, si: nat)
    requires Valid(c) && J.LaidOut(p) && b < |p.blocks| && si < |p.stmts| && |c.params| == |p.blocks| + 1
    requires Scanned(p, c, k) && !p.stmts[si].IsTerminator()
    ensures Scanned(p, EmitStmt(c, p, b, si).0, ScanValue(p, k, si))
  {
    hide Valid, Resolve, Resolve2, EmitCall, EmitPair, Record, Sentinel, J.LaidOut, OperandKnown, Scanned, Frame;
    match p.stmts[si]
    case Call(op, ty, x, y) =>
      Resolve2Scan(p, c, k, x, y);
      var (c1, ab) := Resolve2(c, x, y);
      if ab.Some? { CallScan(p, c1, k, si, op, ty, ab.value.0, ab.value.1); } else { ZeroScan(p, c1, k, si); }
    case Checked(kind, ty, x, y) =>
      Resolve2Scan(p, c, k, x, y);
      var (c1, ab) := Resolve2(c, x, y);
      if ab.Some? && !ty.Bool? { PairScan(p, c1, k, si, kind, ty, ab.value.0, ab.value.1); }
      else { ZeroScan(p, c1, k, si); }
    case GetField(q, second) =>
      if q in c.pairs { RecordScan(p, c, k, si, if second then c.pairs[q].1 else c.pairs[q].0); }
      else { ZeroScan(p, c, k, si); }
    case Pi(_, v) =>
      ResolveScan(p, c, k, v);
      var (c1, id) := Resolve(c, v);
      if id.Some? { RecordScan(p, c1, k, si, id.value); } else { ZeroScan(p, c1, k, si); }
    case Unsupported(_) => ZeroScan(p, c, k, si);
    case _ =>
  }

  lemma EdgeScan(p: J.Prog, c: Ctx, k: Known, from: nat, d: nat)
    requires Valid(c) && J.LaidOut(p) && d < |p.blocks| && Scanned(p, c, k)
    ensures EdgeArgs(c, p, from, d).1.Some? <==> EdgeKnown(p, k, from, d)
    ensures Scanned(p, EdgeArgs(c, p, from, d).0, k)
  {
    hide PhiArgs;
    LastInRange(p, d);
    PhiArgsCount(c, p, from, p.blocks[d].first, p.blocks[d].last);
    forall n | p.blocks[d].first <= n < p.blocks[d].last && p.stmts[n].Phi?
      ensures EdgeTracked(c, p.stmts[n], from) <==> PhiKnown(p, k, n, from)
    {
    }
  }

  lemma CondScan(p: J.Prog, c: Ctx, k: Known, b: nat, cond: J.Operand, d: nat)
    requires Valid(c) && J.LaidOut(p) && b < |p.blocks| && d < |p.blocks| && |c.params| == |p.blocks| + 1
    requires Scanned(p, c, k)
    ensures EmitGotoIfNot(c, p, b, cond, d).1 <==> ScanTerminator(p, k, b, J.GotoIfNot(cond, d))
  {
    hide Valid, Resolve, EdgeArgs, EmitBrif, EdgeKnown, OperandKnown;
    ResolveScan(p, c, k, cond);
    var c1 := Resolve(c, cond).0;
    var ft := Fallthrough(p.blocks[b].succs, d);
    if ft.Some? { EdgeScan(p, c1, k, b, ft.value); }
    var c2 := if ft.None? then c1 else EdgeArgs(c1, p, b, ft.value).0;
    EdgeScan(p, c2, k, b, d);
  }

  lemma TerminatorScan(p: J.Prog, c: Ctx, k: Known, b: nat, s: J.Stmt)
    requires Valid(c) && J.LaidOut(p) && b < |p.blocks| && |c.params| == |p.blocks| + 1 && Scanned(p, c, k)
    requires s.IsTerminator() && J.DestInRange(p, s)
    ensures EmitTerminator(c, p, b, s).1 <==> ScanTerminator(p, k, b, s)
    ensures Scanned(p, EmitTerminator(c, p, b, s).0, k)
  {
    hide Valid, Resolve, EdgeArgs, EmitGotoIfNot, EmitJump, EmitReturn, EdgeKnown, OperandKnown, EmitIconst, J.LaidOut;
    TerminatorKeepsTables(c, p, b, s);
    match s
    case GotoNode(d) => EdgeScan(p, c, k, b, d);
    case GotoIfNot(cond, d) => CondScan(p, c, k, b, cond, d);
    case ReturnNode(v) => ResolveScan(p, c, k, v);
    case _ =>
  }

  lemma {:induction false} StmtsScan(p: J.Prog, c: Ctx, k: Known, b: nat, si: nat)
    requires Valid(c) && J.LaidOut(p) && b < |p.blocks| && |c.params| == |p.blocks| + 1 && Scanned(p, c, k)
    requires p.blocks[b].first <= si
    ensures var (c1, done) := EmitStmts(c, p, b, si);
      var (k1, known) := ScanStmts(p, k, b, si);
      done == known && Scanned(p, c1, k1)
    decreases p.blocks[b].last - si
  {
    hide Valid, EmitValue, EmitTerminator, ScanValue, ScanTerminator, J.LaidOut;
    if si < p.blocks[b].last {
      BlockStmt(p, b, si);
      if p.stmts[si].IsTerminator() {
        TerminatorScan(p, c, k, b, p.stmts[si]);
      } else {
        ValueScan(p, c, k, b, si);
        StmtsScan(p, EmitStmt(c, p, b, si).0, ScanValue(p, k, si), b, si + 1);
      }
    }
  }

  lemma BlockScan(p: J.Prog, c: Ctx, k: Known, b: nat)
    requires Valid(c) && J.LaidOut(p) && b < |p.blocks| && |c.params| == |p.blocks| + 1 && Scanned(p, c, k)
    ensures EmitBlock(c, p, b).Some? <==> ScanBlock(p, k, b).Some?
    ensures EmitBlock(c, p, b).Some? ==> Scanned(p, EmitBlock(c, p, b).value, ScanBlock(p, k, b).value)
    ensures EmitStmts(c.(cur := b + 1), p, b, p.blocks[b].first).1 == ScanStmts(p, k, b, p.blocks[b].first).1
  {
    hide EmitStmts, ScanStmts, EdgeArgs, EmitJump, EdgeKnown;
    var c0 := c.(cur := b + 1);
    StmtsScan(p, c0, k, b, p.blocks[b].first);
    var (c1, done) := EmitStmts(c0, p, b, p.blocks[b].first);
    if !done && |p.blocks[b].succs| == 1 {
      var d := p.blocks[b].succs[0];
      EdgeScan(p, c1, ScanStmts(p, k, b, p.blocks[b].first).0, b, d);
      if EdgeArgs(c1, p, b, d).1.Some? { JumpKeepsTables(c1, p, b, d); }
    }
  }

  lemma {:induction false} ParamsScan(c: Ctx, p: J.Prog, b: nat, si: nat, last: nat)
    requires Valid(c) && last <= |p.stmts| && b + 1 < |c.params|
    ensures var r := AddParams(c, p, b, si, last);
      r.nargs == c.nargs && r.pairs == c.pairs && forall n | n in r.ssa :: n in c.ssa || n in Phis(p)
    decreases last - si
  {
    if si < last {
      if p.stmts[si].Phi? {
        var id := c.next;
        var c1 := c.(params := c.params[b + 1 := c.params[b + 1] + [id]],
                     types := c.types[id := p.stmts[si].ty.Reg()], next := id + 1, ssa := c.ssa[si := id]);
        ParamsScan(c1, p, b, si + 1, last);
      } else {
        ParamsScan(c, p, b, si + 1, last);
      }
    }
  }

  lemma {:induction false} AllParamsScan(c: Ctx, p: J.Prog, b: nat)
    requires Valid(c) && J.LaidOut(p) && b <= |p.blocks| && |c.params| == |p.blocks| + 1
    ensures var r := AddAllParams(c, p, b);
      r.nargs == c.nargs && r.pairs == c.pairs && forall n | n in r.ssa :: n in c.ssa || n in Phis(p)
    decreases |p.blocks| - b
  {
    hide AddParams, J.LaidOut, Phis;
    if b < |p.blocks| {
      LastInRange(p, b);
      ParamsScan(c, p, b, p.blocks[b].first, p.blocks[b].last);
      AllParamsScan(AddParams(c, p, b, p.blocks[b].first, p.blocks[b].last), p, b + 1);
    }
  }

  lemma FirstScan(p: J.Prog)
    requires J.LaidOut(p)
    ensures Scanned(p, AddAllParams(Init(p), p, 0), Known(Phis(p), {}))
  {
    hide AddAllParams, J.LaidOut;
    HasFirstBlock(p);
    AllParamsScan(Init(p), p, 0);
    AllParamsTrackPhis(Init(p), p, 0);
  }

  /** The emitter reaches block b exactly when the scan does, with the same values tracked. */
  lemma {:induction false} ContextScan(p: J.Prog, b: nat)
    requires J.LaidOut(p) && b <= |p.blocks|
    ensures ContextAt(p, b).Some? <==> ScanTo(p, b).Some?
    ensures ContextAt(p, b).Some? ==> Scanned(p, ContextAt(p, b).value, ScanTo(p, b).value)
    decreases b
  {
    hide EmitBlock, ScanBlock, AddAllParams, Scanned, J.LaidOut;
    if b == 0 {
      FirstScan(p);
    } else {
      ContextScan(p, b - 1);
      if ContextAt(p, b - 1).Some? { BlockScan(p, ContextAt(p, b - 1).value, ScanTo(p, b - 1).value, b - 1); }
    }
  }

  // ---- read off the program ----

  /** A laid-out program compiles exactly when no block that needs a jump to its only successor, for want
      of an emitted terminator, lacks a tracked argument for it. */
  lemma CompilesExactly(p: J.Prog)
    requires J.LaidOut(p)
    ensures Compile(p).Some? <==> ScanTo(p, |p.blocks|).Some?
  {
    hide ContextAt, EmitBlocks, ScanTo, J.LaidOut, AddAllParams;
    ContextsCompile(p, 0);
    FirstContext(p);
    ContextScan(p, |p.blocks|);
  }

  /** Block b's first terminator is a one-successor conditional onto a phi, and its operands are tracked. */
  predicate ScansDegenerate(p: J.Prog, b: nat)
    requires J.LaidOut(p) && b < |p.blocks|
  {
    var blk := p.blocks[b];
    var si := FirstTerminator(p, blk.first, blk.last);
    && si < blk.last && Degenerate(p, b, p.stmts[si])
    && ScanTo(p, b).Some? && ScanStmts(p, ScanTo(p, b).value, b, blk.first).1
  }

  lemma DegenerateScan(p: J.Prog, b: nat)
    requires J.LaidOut(p) && b < |p.blocks|
    ensures EmitsDegenerate(p, b) <==> ScansDegenerate(p, b)
  {
    hide ContextAt, ScanTo, EmitStmts, ScanStmts, Degenerate, Scanned, EmitBlock, ScanBlock;
    ContextScan(p, b);
    if ContextAt(p, b).Some? { BlockScan(p, ContextAt(p, b).value, ScanTo(p, b).value, b); }
  }

  /** For every laid-out program, by reading it: if the scan goes through, the program compiles, and a
      block's last instruction agrees with its targets' parameters exactly when the scan does not find the
      block's own degenerate conditional. */
  lemma EdgesAgreeExactly(p: J.Prog)
    requires J.LaidOut(p) && ScanTo(p, |p.blocks|).Some?
    ensures Compile(p).Some?
    ensures var r := Compile(p).value;
      && |r.bodies| == |p.blocks| + 1
      && (forall i | 0 <= i <= |p.blocks| :: Complete(r.bodies[i]))
      && forall i | 0 < i <= |p.blocks| :: Agrees(r.params, Last(r, i)) <==> !ScansDegenerate(p, i - 1)
  {
    hide Compile, ScanTo, EmitsDegenerate, ScansDegenerate, Agrees, Complete, J.LaidOut;
    CompilesExactly(p);
    EdgesAgree(p);
    forall b: nat | b < |p.blocks| ensures EmitsDegenerate(p, b) <==> ScansDegenerate(p, b) { DegenerateScan(p, b); }
  }

  // ---- a terminator that is dropped ----

  /** A conditional on a value that was never tracked, whose block has one successor with a phi. */
  function Untracked(): J.Prog {
    OneSuccessor().(stmts := OneSuccessor().stmts[0 := J.GotoIfNot(J.SSA(0), 1)])
  }

  /** It compiles: the conditional becomes a zero, and the block jumps to its successor with the phi's argument. */
  lemma UntrackedExample()
    ensures J.LaidOut(Untracked()) && Compile(Untracked()).Some?
    ensures var r := Compile(Untracked()).value; 1 < |r.bodies| && r.bodies[1] != [] && Agrees(r.params, Last(r, 1))
  {
    hide Compile, Agrees, Complete, ScansDegenerate, ScanTo, J.LaidOut;
    var p := Untracked();
    UntrackedLaidOut(p);
    UntrackedScans(p);
    EdgesAgreeExactly(p);
    var r := Compile(p).value;
    assert Complete(r.bodies[1]);
    NotEmpty(r.bodies[1]);
    assert Agrees(r.params, Last(r, 1)) <==> !ScansDegenerate(p, 1 - 1);
  }

  lemma NotEmpty(body: seq<Instr>)
    requires Complete(body)
    ensures body != []
  {
  }

  lemma UntrackedLaidOut(p: J.Prog)
    requires p == Untracked()
    ensures J.LaidOut(p) && |p.blocks| == 2
  {
    assert p.stmts == [J.GotoIfNot(J.SSA(0), 1), OneSuccessor().stmts[1], OneSuccessor().stmts[2]];
  }

  lemma UntrackedScans(p: J.Prog)
    requires p == Untracked() && J.LaidOut(p)
    ensures ScanTo(p, 2).Some? && !ScansDegenerate(p, 0)
  {
    var k := Known(Phis(p), {});
    assert p.stmts[0] == J.GotoIfNot(J.SSA(0), 1) && !p.stmts[0].Phi?;
    assert ScanStmts(p, k, 0, 0) == (Known(k.ssa + {0}, {}), false);
    assert ScanTo(p, 0) == Some(k);
    assert p.stmts[1].Phi? && J.EdgeFrom(p.stmts[1].edges, 0) == Some(J.Edge(0, Some(J.Lit(J.Int64, 5))));
    assert ScanBlock(p, k, 0).Some?;
    assert ScanBlock(p, Known(k.ssa + {0}, {}), 1).Some?;
    assert ScanTo(p, 1) == Some(Known(k.ssa + {0}, {}));
  }
}

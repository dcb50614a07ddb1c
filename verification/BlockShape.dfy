/** Block completeness, for any program whose blocks are laid out, however many of its statements fail to
    lower: every block that is emitted ends in exactly one terminator. */
module BlockShape {
  import opened Wrappers
  import opened Machine
  import opened Lowering
  import J = JuliaIR

  // ---- one terminator, at the end ----

  predicate Complete(body: seq<Instr>) {
    && body != [] && body[|body| - 1].IsTerminator()
    && forall j | 0 <= j < |body| - 1 :: !body[j].IsTerminator()
  }

  lemma OpenTrans(a: Ctx, b: Ctx, c: Ctx)
    requires Open(a, b) && Open(b, c)
    ensures Open(a, c)
  {
  }

  lemma OpenCloses(a: Ctx, b: Ctx, c: Ctx)
    requires Open(a, b) && Closes(b, c)
    ensures Closes(a, c)
  {
  }

  /** After a step that may have emitted a terminator. */
  ghost predicate Shaped(c: Ctx, c': Ctx, done: bool) {
    if done then Closes(c, c') else Open(c, c')
  }

  lemma Same1(c: Ctx)
    requires Valid(c)
    ensures Open(c, c)
  {
  }

  lemma TrapCloses(c: Ctx)
    requires Valid(c)
    ensures Closes(c, Push(c, Trap))
  {
  }

  lemma BranchShape(c: Ctx, p: J.Prog, b: nat, cond: J.Operand, dest: nat)
    requires Valid(c) && J.LaidOut(p) && b < |p.blocks| && dest < |p.blocks| && |c.params| == |p.blocks| + 1
    ensures var (c', ok) := EmitGotoIfNot(c, p, b, cond, dest); Shaped(c, c', ok)
  {
    hide EdgeArgs, EmitBrif, Resolve, Valid;
    var (c1, cv) := Resolve(c, cond);
    if cv.Some? {
      var ft := Fallthrough(p.blocks[b].succs, dest);
      var (c2, args) := BranchArgs(c1, p, b, ft, dest);
      OpenTrans(c, c1, c2);
      if args.Some? {
        var t := if ft.None? then dest else ft.value;
        OpenCloses(c, c2, EmitBrif(c2, cv.value, t + 1, args.value.0, dest + 1, args.value.1));
      }
    }
  }

  lemma TerminatorShape(c: Ctx, p: J.Prog, b: nat, s: J.Stmt)
    requires Valid(c) && J.LaidOut(p) && b < |p.blocks| && |c.params| == |p.blocks| + 1
    requires s.IsTerminator() && J.DestInRange(p, s)
    ensures var (c', ok) := EmitTerminator(c, p, b, s); Shaped(c, c', ok)
  {
    hide EdgeArgs, EmitJump, EmitReturn, EmitGotoIfNot, Resolve, EmitIconst, Valid, J.LaidOut;
    match s
    case GotoNode(d) =>
      var (c1, args) := EdgeArgs(c, p, b, d);
      if args.Some? { OpenCloses(c, c1, EmitJump(c1, d + 1, args.value)); }
    case GotoIfNot(cond, d) => BranchShape(c, p, b, cond, d);
    case ReturnNode(v) =>
      var (c1, id) := Resolve(c, v);
      if id.Some? { OpenCloses(c, c1, EmitReturn(c1, p, id.value)); }
    case ReturnNothing =>
      var (c1, z) := EmitIconst(c, I64, 0);
      OpenCloses(c, c1, EmitReturn(c1, p, z));
    case _ => TrapCloses(c);
  }

  // ---- terminators track nothing ----

  ghost predicate TablesKept(c: Ctx, c': Ctx) {
    c'.ssa == c.ssa && c'.pairs == c.pairs && c'.nargs == c.nargs
  }

  lemma JumpKeepsTables(c: Ctx, p: J.Prog, b: nat, d: nat)
    requires Valid(c) && J.LaidOut(p) && d < |p.blocks| && |c.params| == |p.blocks| + 1
    requires EdgeArgs(c, p, b, d).1.Some?
    ensures TablesKept(c, EmitJump(EdgeArgs(c, p, b, d).0, d + 1, EdgeArgs(c, p, b, d).1.value))
  {
    hide PhiArgs, CoerceAll, Valid, J.LaidOut;
  }

  lemma BranchKeepsTables(c: Ctx, p: J.Prog, b: nat, cond: J.Operand, dest: nat)
    requires Valid(c) && J.LaidOut(p) && b < |p.blocks| && dest < |p.blocks| && |c.params| == |p.blocks| + 1
    ensures TablesKept(c, EmitGotoIfNot(c, p, b, cond, dest).0)
  {
    hide BranchArgs, CoerceAll, Valid, Resolve;
  }

  lemma TerminatorKeepsTables(c: Ctx, p: J.Prog, b: nat, s: J.Stmt)
    requires Valid(c) && J.LaidOut(p) && b < |p.blocks| && |c.params| == |p.blocks| + 1
    requires s.IsTerminator() && J.DestInRange(p, s)
    ensures TablesKept(c, EmitTerminator(c, p, b, s).0)
  {
    hide EdgeArgs, EmitGotoIfNot, EmitJump, Resolve, EmitIconst, Valid, J.LaidOut;
    match s
    case GotoNode(d) => if EdgeArgs(c, p, b, d).1.Some? { JumpKeepsTables(c, p, b, d); }
    case GotoIfNot(cond, d) => BranchKeepsTables(c, p, b, cond, d);
    case _ =>
  }

  // ---- statements and blocks ----

  lemma StmtShape(c: Ctx, p: J.Prog, b: nat, si: nat)
    requires Valid(c) && J.LaidOut(p) && b < |p.blocks| && si < |p.stmts| && |c.params| == |p.blocks| + 1
    ensures var (c', done) := EmitStmt(c, p, b, si);
      Shaped(c, c', done) && (done ==> p.stmts[si].IsTerminator())
  {
    hide Closes, EmitTerminator, EmitValue, Sentinel, Valid;
    if p.stmts[si].IsTerminator() {
      TerminatorShape(c, p, b, p.stmts[si]);
      var (c1, ok) := EmitTerminator(c, p, b, p.stmts[si]);
      if !ok { OpenTrans(c, c1, Sentinel(c1, p, si)); }
    } else {
      var (c1, ok) := EmitValue(c, p, si);
      if !ok { OpenTrans(c, c1, Sentinel(c1, p, si)); }
    }
  }

  lemma {:induction false} StmtsShape(c: Ctx, p: J.Prog, b: nat, si: nat)
    requires Valid(c) && J.LaidOut(p) && b < |p.blocks| && |c.params| == |p.blocks| + 1
    ensures var (c', done) := EmitStmts(c, p, b, si); Shaped(c, c', done)
    decreases p.blocks[b].last - si
  {
    hide Open, Closes, Frame, EmitStmt, Valid, J.LaidOut;
    if si >= p.blocks[b].last {
      Same1(c);
    } else {
      LastInRange(p, b);
      StmtShape(c, p, b, si);
      var (c1, done) := EmitStmt(c, p, b, si);
      if !p.stmts[si].IsTerminator() {
        StmtsShape(c1, p, b, si + 1);
        var (c2, done') := EmitStmts(c1, p, b, si + 1);
        if done' { OpenCloses(c, c1, c2); } else { OpenTrans(c, c1, c2); }
      }
    }
  }

  lemma LastInRange(p: J.Prog, b: nat)
    requires J.LaidOut(p) && b < |p.blocks|
    ensures p.blocks[b].first <= p.blocks[b].last <= |p.stmts|
  {
  }

  lemma EndCloses(c0: Ctx, c: Ctx, p: J.Prog, b: nat, done: bool)
    requires Valid(c) && J.LaidOut(p) && b < |p.blocks| && |c.params| == |p.blocks| + 1
    requires Shaped(c0, c, done) && EndBlock(c, p, b, done).Some?
    ensures Closes(c0, EndBlock(c, p, b, done).value)
  {
    hide EdgeArgs, EmitJump, Valid;
    var succs := p.blocks[b].succs;
    if !done {
      if |succs| == 1 {
        var (c1, args) := EdgeArgs(c, p, b, succs[0]);
        OpenTrans(c0, c, c1);
        OpenCloses(c0, c1, EmitJump(c1, succs[0] + 1, args.value));
      } else {
        TrapCloses(c);
        OpenCloses(c0, c, Push(c, Trap));
      }
    }
  }

  /** A finished block has exactly one terminator, at its end; no other block has changed. */
  lemma BlockCompletes(c: Ctx, p: J.Prog, b: nat)
    requires Valid(c) && J.LaidOut(p) && b < |p.blocks| && |c.params| == |p.blocks| + 1
    requires c.bodies[b + 1] == [] && EmitBlock(c, p, b).Some?
    ensures var r := EmitBlock(c, p, b).value;
      && Complete(r.bodies[b + 1]) && |r.bodies| == |c.bodies|
      && forall i | 0 <= i < |c.bodies| && i != b + 1 :: r.bodies[i] == c.bodies[i]
  {
    hide Shaped, EmitStmts, EndBlock;
    var c0 := c.(cur := b + 1);
    StmtsShape(c0, p, b, p.blocks[b].first);
    var (c1, done) := EmitStmts(c0, p, b, p.blocks[b].first);
    EndCloses(c0, c1, p, b, done);
  }

  lemma {:induction false} BlocksComplete(c: Ctx, p: J.Prog, b: nat)
    requires Valid(c) && J.LaidOut(p) && b <= |p.blocks| && |c.params| == |p.blocks| + 1
    requires b < |c.bodies| && forall i | 0 <= i <= b :: Complete(c.bodies[i])
    requires forall i | b < i < |c.bodies| :: c.bodies[i] == []
    requires EmitBlocks(c, p, b).Some?
    ensures |EmitBlocks(c, p, b).value.bodies| == |c.bodies|
    ensures forall i | 0 <= i < |c.bodies| :: Complete(EmitBlocks(c, p, b).value.bodies[i])
    decreases |p.blocks| - b
  {
    hide EmitBlock, Complete, J.LaidOut;
    if b < |p.blocks| {
      BlockCompletes(c, p, b);
      BlocksComplete(EmitBlock(c, p, b).value, p, b + 1);
    }
  }

  lemma {:induction false} ParamsKeepCode(c: Ctx, p: J.Prog, b: nat, si: nat, last: nat)
    requires Valid(c) && last <= |p.stmts| && b + 1 < |c.params|
    ensures AddParams(c, p, b, si, last).bodies == c.bodies
    decreases last - si
  {
    if si < last {
      if p.stmts[si].Phi? {
        var id := c.next;
        var c1 := c.(params := c.params[b + 1 := c.params[b + 1] + [id]],
                     types := c.types[id := p.stmts[si].ty.Reg()], next := id + 1, ssa := c.ssa[si := id]);
        ParamsKeepCode(c1, p, b, si + 1, last);
      } else {
        ParamsKeepCode(c, p, b, si + 1, last);
      }
    }
  }

  lemma {:induction false} AllParamsKeepCode(c: Ctx, p: J.Prog, b: nat)
    requires Valid(c) && J.LaidOut(p) && b <= |p.blocks| && |c.params| == |p.blocks| + 1
    ensures AddAllParams(c, p, b).bodies == c.bodies
    decreases |p.blocks| - b
  {
    hide AddParams;
    if b < |p.blocks| {
      ParamsKeepCode(c, p, b, p.blocks[b].first, p.blocks[b].last);
      AllParamsKeepCode(AddParams(c, p, b, p.blocks[b].first, p.blocks[b].last), p, b + 1);
    }
  }

  /** Whatever fails to lower, a compiled function consists of complete blocks. */
  lemma AllBlocksComplete(p: J.Prog)
    requires J.LaidOut(p) && Compile(p).Some?
    ensures |Compile(p).value.bodies| == |p.blocks| + 1
    ensures forall i | 0 <= i <= |p.blocks| :: Complete(Compile(p).value.bodies[i])
  {
    hide AddAllParams, EmitBlocks;
    AllParamsKeepCode(Init(p), p, 0);
    BlocksComplete(AddAllParams(Init(p), p, 0), p, 0);
  }
}

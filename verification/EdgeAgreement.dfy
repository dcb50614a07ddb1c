/** Argument lists against parameter lists, for any laid-out program that compiles, however many of its
    statements fail to lower and whatever its operands name.  An emitted jump always carries one argument
    per parameter of its target, except where a conditional's block does not list two successors. */
module EdgeAgreement {
  import opened Wrappers
  import opened Machine
  import opened Lowering
  import opened BlockShape
  import J = JuliaIR

  // ---- counting phis ----

  function PhiCount(p: J.Prog, si: nat, last: nat): nat
    requires last <= |p.stmts|
    decreases last - si
  {
    if si >= last then 0 else (if p.stmts[si].Phi? then 1 else 0) + PhiCount(p, si + 1, last)
  }

  function Phis(p: J.Prog, b: nat): nat
    requires J.LaidOut(p) && b < |p.blocks|
  {
    PhiCount(p, p.blocks[b].first, p.blocks[b].last)
  }

  ghost predicate Counted(p: J.Prog, params: seq<seq<Id>>)
    requires J.LaidOut(p)
  {
    |params| == |p.blocks| + 1 && forall b | 0 <= b < |p.blocks| :: |params[b + 1]| == Phis(p, b)
  }

  lemma {:induction false} ParamsCounted(c: Ctx, p: J.Prog, b: nat, si: nat, last: nat)
    requires Valid(c) && last <= |p.stmts| && b + 1 < |c.params|
    ensures var r := AddParams(c, p, b, si, last);
      && |r.params[b + 1]| == |c.params[b + 1]| + PhiCount(p, si, last)
      && forall i | 0 <= i < |c.params| && i != b + 1 :: r.params[i] == c.params[i]
    decreases last - si
  {
    if si < last {
      if p.stmts[si].Phi? {
        var id := c.next;
        var c1 := c.(params := c.params[b + 1 := c.params[b + 1] + [id]],
                     types := c.types[id := p.stmts[si].ty.Reg()], next := id + 1, ssa := c.ssa[si := id]);
        ParamsCounted(c1, p, b, si + 1, last);
      } else {
        ParamsCounted(c, p, b, si + 1, last);
      }
    }
  }

  lemma {:induction false} AllParamsCounted(c: Ctx, p: J.Prog, b: nat)
    requires Valid(c) && J.LaidOut(p) && b <= |p.blocks| && |c.params| == |p.blocks| + 1
    requires forall i | b < i < |c.params| :: c.params[i] == []
    requires forall i | 0 <= i < b :: |c.params[i + 1]| == Phis(p, i)
    ensures Counted(p, AddAllParams(c, p, b).params)
    decreases |p.blocks| - b
  {
    hide AddParams, J.LaidOut;
    if b < |p.blocks| {
      LastInRange(p, b);
      ParamsCounted(c, p, b, p.blocks[b].first, p.blocks[b].last);
      AllParamsCounted(AddParams(c, p, b, p.blocks[b].first, p.blocks[b].last), p, b + 1);
    }
  }

  // ---- argument lists ----

  predicate Tracked(c: Ctx, o: J.Operand) {
    match o case SSA(n) => n in c.ssa case Arg(k) => k < c.nargs case Lit(_, _) => true
  }

  predicate EdgeTracked(c: Ctx, s: J.Stmt, from: nat)
    requires s.Phi?
  {
    match J.EdgeFrom(s.edges, from) case Some(Edge(_, Some(o))) => Tracked(c, o) case _ => true
  }

  /** Collecting a block's arguments fails exactly when some phi's operand was never tracked; otherwise
      there is one argument per phi. */
  lemma {:induction false} PhiArgsCount(c: Ctx, p: J.Prog, from: nat, si: nat, last: nat)
    requires Valid(c) && last <= |p.stmts|
    ensures var args := PhiArgs(c, p, from, si, last).1;
      && (args.Some? <==> forall n | si <= n < last && p.stmts[n].Phi? :: EdgeTracked(c, p.stmts[n], from))
      && (args.Some? ==> |args.value| == PhiCount(p, si, last))
    decreases last - si
  {
    hide Frame, Valid;
    if si < last {
      if p.stmts[si].Phi? {
        var (c1, a) := PhiArg(c, p.stmts[si].edges, p.stmts[si].ty, from);
        PhiArgsCount(c1, p, from, si + 1, last);
        assert a.Some? <==> EdgeTracked(c, p.stmts[si], from);
        assert forall n | si + 1 <= n < last && p.stmts[n].Phi? ::
            EdgeTracked(c1, p.stmts[n], from) == EdgeTracked(c, p.stmts[n], from) by { TrackedSame(c, c1, p, from); }
      } else {
        PhiArgsCount(c, p, from, si + 1, last);
      }
    }
  }

  lemma TrackedSame(c: Ctx, c1: Ctx, p: J.Prog, from: nat)
    requires Straight(c, c1)
    ensures forall n | 0 <= n < |p.stmts| && p.stmts[n].Phi? ::
      EdgeTracked(c1, p.stmts[n], from) == EdgeTracked(c, p.stmts[n], from)
  {
  }

  lemma {:induction false} CoerceCount(c: Ctx, vs: seq<Id>, params: seq<Id>)
    requires Valid(c)
    ensures |CoerceAll(c, vs, params).1| == |vs|
    decreases |vs|
  {
    hide Frame, Valid;
    if vs != [] {
      var c1 := if params == [] then c else Coerce(c, vs[0], TyOf(c, params[0])).0;
      CoerceCount(c1, vs[1..], if params == [] then [] else params[1..]);
    }
  }

  // ---- agreement ----

  predicate Agrees(params: seq<seq<Id>>, i: Instr) {
    match i
    case Jump(t, args) => t < |params| && |args| == |params[t]|
    case Brif(_, t, ta, e, ea) => t < |params| && |ta| == |params[t]| && e < |params| && |ea| == |params[e]|
    case _ => true
  }

  /** A conditional whose block does not list two successors: both sides go to the destination, the
      first without arguments. */
  predicate Degenerate(p: J.Prog, b: nat, s: J.Stmt)
    requires J.LaidOut(p) && b < |p.blocks| && J.DestInRange(p, s)
  {
    s.GotoIfNot? && |p.blocks[b].succs| < 2 && Phis(p, s.dest) > 0
  }

  function LastOf(c: Ctx): Instr
    requires c.cur < |c.bodies| && c.bodies[c.cur] != []
  {
    c.bodies[c.cur][|c.bodies[c.cur]| - 1]
  }

  lemma JumpAgrees(c: Ctx, p: J.Prog, from: nat, d: nat)
    requires Valid(c) && J.LaidOut(p) && d < |p.blocks| && Counted(p, c.params) && EdgeArgs(c, p, from, d).1.Some?
    ensures var (c1, args) := EdgeArgs(c, p, from, d);
      Agrees(c.params, LastOf(EmitJump(c1, d + 1, args.value)))
  {
    hide PhiArgs, CoerceAll, PhiCount;
    var (c1, args) := EdgeArgs(c, p, from, d);
    PhiArgsCount(c, p, from, p.blocks[d].first, p.blocks[d].last);
    assert |args.value| == Phis(p, d) == |c.params[d + 1]|;
    CoerceCount(c1, args.value, c.params[d + 1]);
  }

  lemma BrifCounts(c: Ctx, cond: Id, thn: nat, thnArgs: seq<Id>, els: nat, elsArgs: seq<Id>)
    requires Valid(c) && thn < |c.params| && els < |c.params|
    ensures Agrees(c.params, LastOf(EmitBrif(c, cond, thn, thnArgs, els, elsArgs)))
      <==> |thnArgs| == |c.params[thn]| && |elsArgs| == |c.params[els]|
  {
    hide CoerceAll;
    CoerceCount(c, thnArgs, c.params[thn]);
    CoerceCount(CoerceAll(c, thnArgs, c.params[thn]).0, elsArgs, c.params[els]);
  }

  lemma BranchCounts(c: Ctx, p: J.Prog, b: nat, ft: Option<nat>, dest: nat)
    requires Valid(c) && J.LaidOut(p) && dest < |p.blocks| && (ft.Some? ==> ft.value < |p.blocks|)
    requires BranchArgs(c, p, b, ft, dest).1.Some?
    ensures var (c1, args) := BranchArgs(c, p, b, ft, dest);
      && |args.value.0| == (if ft.None? then 0 else Phis(p, ft.value))
      && |args.value.1| == Phis(p, dest)
  {
    hide PhiArgs, PhiCount, EdgeTracked;
    if ft.Some? { PhiArgsCount(c, p, b, p.blocks[ft.value].first, p.blocks[ft.value].last); }
    var c1 := if ft.None? then c else EdgeArgs(c, p, b, ft.value).0;
    PhiArgsCount(c1, p, b, p.blocks[dest].first, p.blocks[dest].last);
  }

  lemma BranchAgrees(c: Ctx, p: J.Prog, b: nat, cond: J.Operand, dest: nat)
    requires Valid(c) && J.LaidOut(p) && b < |p.blocks| && dest < |p.blocks| && Counted(p, c.params)
    requires EmitGotoIfNot(c, p, b, cond, dest).1
    ensures var c' := EmitGotoIfNot(c, p, b, cond, dest).0;
      && c'.bodies[c'.cur] != []
      && (Agrees(c.params, LastOf(c')) <==> !Degenerate(p, b, J.GotoIfNot(cond, dest)))
  {
    hide BranchArgs, EmitBrif, Resolve, Phis, Agrees;
    var (c1, cv) := Resolve(c, cond);
    var ft := Fallthrough(p.blocks[b].succs, dest);
    BranchCounts(c1, p, b, ft, dest);
    var (c2, args) := BranchArgs(c1, p, b, ft, dest);
    var t := if ft.None? then dest else ft.value;
    BrifCounts(c2, cv.value, t + 1, args.value.0, dest + 1, args.value.1);
  }

  /** Arity on an emitted terminator, exactly. */
  lemma TerminatorAgrees(c: Ctx, p: J.Prog, b: nat, s: J.Stmt)
    requires Valid(c) && J.LaidOut(p) && b < |p.blocks| && Counted(p, c.params)
    requires s.IsTerminator() && J.DestInRange(p, s) && EmitTerminator(c, p, b, s).1
    ensures var c' := EmitTerminator(c, p, b, s).0;
      && c'.bodies[c'.cur] != []
      && (Agrees(c.params, LastOf(c')) <==> !Degenerate(p, b, s))
  {
    hide PhiArgs, EmitGotoIfNot, Resolve, PhiCount, CoerceAll;
    match s
    case GotoNode(d) => JumpAgrees(c, p, b, d);
    case GotoIfNot(cond, d) => BranchAgrees(c, p, b, cond, d);
    case _ =>
  }

  // ---- blocks and functions, whatever their operands name ----

  /** The last instruction of a block's code. */
  function Last(c: Ctx, i: nat): Instr
    requires i < |c.bodies| && c.bodies[i] != []
  {
    c.bodies[i][|c.bodies[i]| - 1]
  }

  /** The statement that may end a block's emission; last if there is none. */
  function FirstTerminator(p: J.Prog, si: nat, last: nat): (r: nat)
    requires si <= last <= |p.stmts|
    ensures si <= r <= last && (r < last ==> p.stmts[r].IsTerminator())
    ensures forall n | si <= n < r :: !p.stmts[n].IsTerminator()
    decreases last - si
  {
    if si == last then last else if p.stmts[si].IsTerminator() then si else FirstTerminator(p, si + 1, last)
  }

  /** The state in which block b is reached; None if an earlier block abandoned the function. */
  function ContextAt(p: J.Prog, b: nat): (c: Option<Ctx>)
    requires J.LaidOut(p) && b <= |p.blocks|
    ensures c.Some? ==> Valid(c.value) && |c.value.params| == |p.blocks| + 1
  {
    if b == 0 then Some(AddAllParams(Init(p), p, 0))
    else match ContextAt(p, b - 1)
      case None => None
      case Some(c) => EmitBlock(c, p, b - 1)
  }

  /** Block b's code ends in its own terminator, which is a degenerate conditional. */
  predicate EmitsDegenerate(p: J.Prog, b: nat)
    requires J.LaidOut(p) && b < |p.blocks|
  {
    var blk := p.blocks[b];
    var si := FirstTerminator(p, blk.first, blk.last);
    && si < blk.last && Degenerate(p, b, p.stmts[si])
    && ContextAt(p, b).Some? && EmitStmts(ContextAt(p, b).value.(cur := b + 1), p, b, blk.first).1
  }

  /** Statements up to the first terminator: if that was emitted, its arity is right unless it is
      degenerate. */
  lemma {:induction false} StmtsAgree(c: Ctx, p: J.Prog, b: nat, si: nat)
    requires Valid(c) && J.LaidOut(p) && b < |p.blocks| && Counted(p, c.params)
    requires p.blocks[b].first <= si <= p.blocks[b].last
    ensures var (c1, done) := EmitStmts(c, p, b, si);
      done ==>
        && c1.bodies[c1.cur] != []
        && var t := FirstTerminator(p, si, p.blocks[b].last);
          t < p.blocks[b].last && (Agrees(c.params, LastOf(c1)) <==> !Degenerate(p, b, p.stmts[t]))
    decreases p.blocks[b].last - si
  {
    hide EmitTerminator, EmitValue, Sentinel, Degenerate, Agrees, J.LaidOut;
    if si < p.blocks[b].last {
      BlockStmt(p, b, si);
      if p.stmts[si].IsTerminator() {
        if EmitTerminator(c, p, b, p.stmts[si]).1 { TerminatorAgrees(c, p, b, p.stmts[si]); }
      } else {
        StmtsAgree(EmitStmt(c, p, b, si).0, p, b, si + 1);
      }
    }
  }

  lemma BlockStmt(p: J.Prog, b: nat, si: nat)
    requires J.LaidOut(p) && b < |p.blocks| && p.blocks[b].first <= si < p.blocks[b].last
    ensures J.In(p, b, si) && si < |p.stmts| && J.DestInRange(p, p.stmts[si])
  {
  }

  lemma BlockAgrees(c: Ctx, p: J.Prog, b: nat)
    requires Valid(c) && J.LaidOut(p) && b < |p.blocks| && Counted(p, c.params) && EmitBlock(c, p, b).Some?
    ensures var r := EmitBlock(c, p, b).value;
      var t := FirstTerminator(p, p.blocks[b].first, p.blocks[b].last);
      && r.cur == b + 1 && r.params == c.params && r.bodies[b + 1] != []
      && (Agrees(c.params, Last(r, b + 1)) <==>
          !(t < p.blocks[b].last && Degenerate(p, b, p.stmts[t])
            && EmitStmts(c.(cur := b + 1), p, b, p.blocks[b].first).1))
  {
    hide EmitStmts, Degenerate, EdgeArgs, EmitJump, Phis, J.LaidOut;
    var c0, first := c.(cur := b + 1), p.blocks[b].first;
    LastInRange(p, b);
    StmtsAgree(c0, p, b, first);
    var (c1, done) := EmitStmts(c0, p, b, first);
    if !done && |p.blocks[b].succs| == 1 {
      OnlySuccInRange(p, b);
      JumpAgrees(c1, p, b, p.blocks[b].succs[0]);
    }
  }

  lemma OnlySuccInRange(p: J.Prog, b: nat)
    requires J.LaidOut(p) && b < |p.blocks| && |p.blocks[b].succs| == 1
    ensures p.blocks[b].succs[0] < |p.blocks|
  {
  }

  /** What earlier blocks' code looks like when block b is reached. */
  lemma {:induction false} ContextShape(p: J.Prog, b: nat)
    requires J.LaidOut(p) && b <= |p.blocks| && ContextAt(p, b).Some?
    ensures var c := ContextAt(p, b).value;
      && Counted(p, c.params) && |c.bodies| == |p.blocks| + 1 && c.bodies[0] == [Jump(1, [])]
      && (forall i | b < i <= |p.blocks| :: c.bodies[i] == [])
      && (forall i | 0 < i <= b :: c.bodies[i] != [] && (Agrees(c.params, Last(c, i)) <==> !EmitsDegenerate(p, i - 1)))
    decreases b
  {
    hide EmitBlock, EmitStmts, AddAllParams, EmitsDegenerate, Agrees, J.LaidOut, Complete;
    if b == 0 {
      AllParamsKeepCode(Init(p), p, 0);
      AllParamsCounted(Init(p), p, 0);
    } else {
      ContextShape(p, b - 1);
      var c := ContextAt(p, b - 1).value;
      BlockCompletes(c, p, b - 1);
      BlockAgrees(c, p, b - 1);
      EmitsAt(p, b - 1);
    }
  }

  lemma EmitsAt(p: J.Prog, b: nat)
    requires J.LaidOut(p) && b < |p.blocks| && ContextAt(p, b).Some?
    ensures var t := FirstTerminator(p, p.blocks[b].first, p.blocks[b].last);
      EmitsDegenerate(p, b) <==>
        (t < p.blocks[b].last && Degenerate(p, b, p.stmts[t])
         && EmitStmts(ContextAt(p, b).value.(cur := b + 1), p, b, p.blocks[b].first).1)
  {
    hide EmitStmts, ContextAt, Degenerate;
  }

  lemma {:induction false} ContextsCompile(p: J.Prog, b: nat)
    requires J.LaidOut(p) && b <= |p.blocks|
    ensures ContextAt(p, b).None? ==> ContextAt(p, |p.blocks|).None?
    ensures ContextAt(p, b).Some? ==> EmitBlocks(ContextAt(p, b).value, p, b) == ContextAt(p, |p.blocks|)
    decreases |p.blocks| - b
  {
    hide EmitBlock, AddAllParams, J.LaidOut;
    if b < |p.blocks| { ContextsCompile(p, b + 1); }
  }

  /** Any laid-out program that compiles: its blocks are complete, and a block's last instruction agrees
      with its targets' parameters exactly when it is not a degenerate conditional of the block's own.
      The entry jump agrees exactly when block 1 has no phi. */
  lemma EdgesAgree(p: J.Prog)
    requires J.LaidOut(p) && Compile(p).Some?
    ensures var r := Compile(p).value;
      && |r.bodies| == |p.blocks| + 1
      && (forall i | 0 <= i <= |p.blocks| :: Complete(r.bodies[i]))
      && (forall i | 0 < i <= |p.blocks| :: Agrees(r.params, Last(r, i)) <==> !EmitsDegenerate(p, i - 1))
      && (Agrees(r.params, Last(r, 0)) <==> J.NoEntryPhi(p))
  {
    hide EmitBlocks, EmitBlock, AddAllParams, EmitsDegenerate, J.LaidOut;
    ContextsCompile(p, 0);
    ContextShape(p, |p.blocks|);
    AllBlocksComplete(p);
    EntryAgrees(p, Compile(p).value);
  }

  /** A caller's check: no conditional of a block that lists fewer than two successors leads to phis. */
  lemma NoneDegenerate(p: J.Prog)
    requires J.LaidOut(p) && Compile(p).Some?
    requires forall b: nat, si: nat | J.In(p, b, si) :: !Degenerate(p, b, p.stmts[si])
    ensures var r := Compile(p).value;
      && |r.bodies| == |p.blocks| + 1
      && forall i | 0 < i <= |p.blocks| :: r.bodies[i] != [] && Agrees(r.params, Last(r, i))
  {
    hide Compile, Agrees, Degenerate, ContextAt, EmitStmts;
    EdgesAgree(p);
    forall b: nat | b < |p.blocks| ensures !EmitsDegenerate(p, b) {
      var t := FirstTerminator(p, p.blocks[b].first, p.blocks[b].last);
      if t < p.blocks[b].last { assert J.In(p, b, t); }
    }
  }

  // ---- whole programs whose operands are always tracked ----

  /** Statements that leave a tracked value behind, whether they lower or fail. */
  predicate LeavesValue(s: J.Stmt) {
    s.Phi? || s.Call? || s.GetField? || s.Pi? || s.Unsupported?
  }

  predicate Resolvable(p: J.Prog, o: J.Operand, si: nat) {
    match o
    case SSA(n) => J.UsableAt(p, n, si) && LeavesValue(p.stmts[n])
    case Arg(k) => k < |p.args|
    case Lit(_, _) => true
  }

  /** The operands of terminators and of phi edges name earlier values. */
  ghost predicate Resolves(p: J.Prog)
    requires J.LaidOut(p)
  {
    && (forall si | 0 <= si < |p.stmts| && p.stmts[si].IsTerminator() ::
          forall o | o in p.stmts[si].Operands() :: Resolvable(p, o, si))
    && (forall b, n | 0 <= b < |p.blocks| && 0 <= n < |p.stmts| && p.stmts[n].Phi? ::
          EdgeResolvable(p, p.stmts[n], b))
  }

  predicate EdgeResolvable(p: J.Prog, s: J.Stmt, b: nat)
    requires J.LaidOut(p) && b < |p.blocks| && s.Phi?
  {
    match J.EdgeFrom(s.edges, b) case Some(Edge(_, Some(o))) => Resolvable(p, o, p.blocks[b].last) case _ => true
  }

  /** Every value left behind before si, and every phi, is tracked. */
  ghost predicate Known(p: J.Prog, c: Ctx, si: nat) {
    c.nargs == |p.args| && forall n: nat | J.UsableAt(p, n, si) && LeavesValue(p.stmts[n]) :: n in c.ssa
  }

  lemma EdgeArgsKnown(c: Ctx, p: J.Prog, b: nat, d: nat)
    requires Valid(c) && J.LaidOut(p) && b < |p.blocks| && d < |p.blocks| && Resolves(p)
    requires Known(p, c, p.blocks[b].last)
    ensures EdgeArgs(c, p, b, d).1.Some?
  {
    hide PhiArgs;
    PhiArgsCount(c, p, b, p.blocks[d].first, p.blocks[d].last);
    forall n | p.blocks[d].first <= n < p.blocks[d].last && p.stmts[n].Phi? ensures EdgeTracked(c, p.stmts[n], b) {
      assert EdgeResolvable(p, p.stmts[n], b);
    }
  }

  lemma ValueKnown(c: Ctx, p: J.Prog, si: nat)
    requires Valid(c) && si < |p.stmts| && !p.stmts[si].IsTerminator() && Known(p, c, si)
    ensures var (c1, ok) := EmitValue(c, p, si);
      Known(p, if ok then c1 else Sentinel(c1, p, si), si + 1)
  {
    hide Valid, Resolve2, Resolve, EmitOps;
  }

  lemma TerminatorKnown(c: Ctx, p: J.Prog, b: nat, si: nat)
    requires Valid(c) && J.LaidOut(p) && J.In(p, b, si) && |c.params| == |p.blocks| + 1 && Resolves(p)
    requires p.stmts[si].IsTerminator() && Known(p, c, si) && si == p.blocks[b].last - 1
    ensures EmitTerminator(c, p, b, p.stmts[si]).1
  {
    hide EdgeArgs, EmitBrif, EmitJump, EmitReturn, Valid, J.Terminated;
    var s := p.stmts[si];
    match s
    case GotoNode(d) => EdgeArgsKnown(c, p, b, d);
    case GotoIfNot(cond, d) =>
      assert cond in s.Operands();
      var c1 := Resolve(c, cond).0;
      var ft := Fallthrough(p.blocks[b].succs, d);
      var c2 := if ft.None? then c1 else EdgeArgs(c1, p, b, ft.value).0;
      if ft.Some? { EdgeArgsKnown(c1, p, b, ft.value); }
      EdgeArgsKnown(c2, p, b, d);
    case ReturnNode(v) => assert v in s.Operands();
    case _ =>
  }

  // ---- and when they compile ----

  ghost predicate TerminatorsLast(p: J.Prog)
    requires J.LaidOut(p)
  {
    forall b: nat, si: nat | J.In(p, b, si) && p.stmts[si].IsTerminator() :: si == p.blocks[b].last - 1
  }

  predicate EndsInTerminator(p: J.Prog, b: nat)
    requires J.LaidOut(p) && b < |p.blocks|
  {
    p.blocks[b].first < p.blocks[b].last && p.stmts[p.blocks[b].last - 1].IsTerminator()
  }

  predicate DegenerateBlock(p: J.Prog, b: nat)
    requires J.LaidOut(p) && b < |p.blocks|
  {
    EndsInTerminator(p, b) && Degenerate(p, b, p.stmts[p.blocks[b].last - 1])
  }

  /** Every statement of a block but its terminator, if it has one. */
  lemma {:induction false} StmtsKnown(c: Ctx, p: J.Prog, b: nat, si: nat)
    requires Valid(c) && J.LaidOut(p) && b < |p.blocks| && TerminatorsLast(p) && Resolves(p)
    requires p.blocks[b].first <= si <= p.blocks[b].last && Known(p, c, si) && |c.params| == |p.blocks| + 1
    requires si == p.blocks[b].last ==> !EndsInTerminator(p, b)
    ensures var (c1, done) := EmitStmts(c, p, b, si);
      (done <==> EndsInTerminator(p, b)) && Known(p, c1, p.blocks[b].last)
    decreases p.blocks[b].last - si
  {
    hide Known, Resolves, EmitTerminator, EmitValue, Sentinel, J.LaidOut;
    if si < p.blocks[b].last {
      BlockStmt(p, b, si);
      if p.stmts[si].IsTerminator() {
        TerminatorKnown(c, p, b, si);
        TerminatorKeepsTables(c, p, b, p.stmts[si]);
        KnownPast(p, c, EmitTerminator(c, p, b, p.stmts[si]).0, si);
      } else {
        ValueKnown(c, p, si);
        StmtsKnown(EmitStmt(c, p, b, si).0, p, b, si + 1);
      }
    }
  }

  lemma KnownPast(p: J.Prog, c: Ctx, c': Ctx, si: nat)
    requires Known(p, c, si) && c'.ssa == c.ssa && c'.nargs == c.nargs && si < |p.stmts| && p.stmts[si].IsTerminator()
    ensures Known(p, c', si + 1)
  {
  }

  lemma BlockKnown(c: Ctx, p: J.Prog, b: nat)
    requires Valid(c) && J.LaidOut(p) && b < |p.blocks| && TerminatorsLast(p) && Resolves(p)
    requires Known(p, c, p.blocks[b].first) && |c.params| == |p.blocks| + 1
    ensures EmitBlock(c, p, b).Some? && Known(p, EmitBlock(c, p, b).value, p.blocks[b].last)
    ensures EmitStmts(c.(cur := b + 1), p, b, p.blocks[b].first).1 <==> EndsInTerminator(p, b)
  {
    hide Known, Resolves, EmitStmts, EdgeArgs, EmitJump;
    var c0 := c.(cur := b + 1);
    var first := p.blocks[b].first;
    assert Known(p, c0, first) by { KnownAnywhere(p, c, c0, first); }
    StmtsKnown(c0, p, b, first);
    var (c1, done) := EmitStmts(c0, p, b, first);
    if !done && |p.blocks[b].succs| == 1 {
      EdgeArgsKnown(c1, p, b, p.blocks[b].succs[0]);
      JumpKeepsTables(c1, p, b, p.blocks[b].succs[0]);
    }
    KnownAnywhere(p, c1, EndBlock(c1, p, b, done).value, p.blocks[b].last);
  }

  lemma KnownAnywhere(p: J.Prog, c: Ctx, c': Ctx, si: nat)
    requires Known(p, c, si) && c'.ssa == c.ssa && c'.nargs == c.nargs
    ensures Known(p, c', si)
  {
  }

  lemma NextFirst(p: J.Prog, b: nat)
    requires J.LaidOut(p) && b < |p.blocks|
    ensures p.blocks[b].last == if b + 1 < |p.blocks| then p.blocks[b + 1].first else |p.stmts|
  {
  }

  lemma {:induction false} ParamsTrackPhis(c: Ctx, p: J.Prog, b: nat, si: nat, last: nat)
    requires Valid(c) && last <= |p.stmts| && b + 1 < |c.params|
    ensures var r := AddParams(c, p, b, si, last);
      && r.nargs == c.nargs
      && (forall n | n in c.ssa :: n in r.ssa)
      && (forall n: nat | si <= n < last && p.stmts[n].Phi? :: n in r.ssa)
    decreases last - si
  {
    if si < last {
      if p.stmts[si].Phi? {
        var id := c.next;
        var c1 := c.(params := c.params[b + 1 := c.params[b + 1] + [id]],
                     types := c.types[id := p.stmts[si].ty.Reg()], next := id + 1, ssa := c.ssa[si := id]);
        ParamsTrackPhis(c1, p, b, si + 1, last);
      } else {
        ParamsTrackPhis(c, p, b, si + 1, last);
      }
    }
  }

  lemma {:induction false} AllParamsTrackPhis(c: Ctx, p: J.Prog, b: nat)
    requires Valid(c) && J.LaidOut(p) && b <= |p.blocks| && |c.params| == |p.blocks| + 1
    requires
      forall n: nat | n < (if b < |p.blocks| then p.blocks[b].first else |p.stmts|) && p.stmts[n].Phi? :: n in c.ssa
    ensures var r := AddAllParams(c, p, b);
      r.nargs == c.nargs && forall n: nat | n < |p.stmts| && p.stmts[n].Phi? :: n in r.ssa
    decreases |p.blocks| - b
  {
    hide AddParams, J.LaidOut;
    if b < |p.blocks| {
      LastInRange(p, b);
      NextFirst(p, b);
      ParamsTrackPhis(c, p, b, p.blocks[b].first, p.blocks[b].last);
      AllParamsTrackPhis(AddParams(c, p, b, p.blocks[b].first, p.blocks[b].last), p, b + 1);
    }
  }

  lemma {:induction false} ContextKnown(p: J.Prog, b: nat)
    requires J.LaidOut(p) && TerminatorsLast(p) && Resolves(p) && b <= |p.blocks|
    ensures ContextAt(p, b).Some?
    ensures Known(p, ContextAt(p, b).value, if b < |p.blocks| then p.blocks[b].first else |p.stmts|)
    decreases b
  {
    hide Known, Resolves, TerminatorsLast, EmitBlock, AddAllParams, J.LaidOut;
    if b == 0 {
      HasFirstBlock(p);
      AllParamsTrackPhis(Init(p), p, 0);
      KnownFirst(p, ContextAt(p, 0).value);
    } else {
      ContextKnown(p, b - 1);
      BlockKnown(ContextAt(p, b - 1).value, p, b - 1);
      NextFirst(p, b - 1);
    }
  }

  lemma HasFirstBlock(p: J.Prog)
    requires J.LaidOut(p)
    ensures |p.blocks| > 0 && p.blocks[0].first == 0
  {
  }

  lemma KnownFirst(p: J.Prog, c: Ctx)
    requires J.LaidOut(p) && c.nargs == |p.args| && forall n: nat | n < |p.stmts| && p.stmts[n].Phi? :: n in c.ssa
    ensures Known(p, c, 0)
  {
  }

  /** Compilation succeeds whichever statements fail to lower, provided terminators and phi edges name
      earlier values; a block's own terminator is then always the one that ends it. */
  lemma ResolvesCompiles(p: J.Prog)
    requires J.LaidOut(p) && TerminatorsLast(p) && Resolves(p)
    ensures Compile(p).Some?
    ensures forall b: nat | b < |p.blocks| :: EmitsDegenerate(p, b) <==> DegenerateBlock(p, b)
  {
    hide Known, Resolves, TerminatorsLast, EmitBlocks, ContextAt, EmitsDegenerate, DegenerateBlock, J.LaidOut;
    ContextKnown(p, |p.blocks|);
    ContextsCompile(p, 0);
    assert ContextAt(p, 0) == Some(AddAllParams(Init(p), p, 0)) by { FirstContext(p); }
    forall b: nat | b < |p.blocks| ensures EmitsDegenerate(p, b) <==> DegenerateBlock(p, b) {
      ContextKnown(p, b);
      BlockKnown(ContextAt(p, b).value, p, b);
      OwnTerminator(p, b);
    }
  }

  lemma FirstContext(p: J.Prog)
    requires J.LaidOut(p)
    ensures ContextAt(p, 0) == Some(AddAllParams(Init(p), p, 0))
  {
  }

  lemma OwnTerminator(p: J.Prog, b: nat)
    requires J.LaidOut(p) && TerminatorsLast(p) && b < |p.blocks| && ContextAt(p, b).Some?
    requires EmitStmts(ContextAt(p, b).value.(cur := b + 1), p, b, p.blocks[b].first).1 <==> EndsInTerminator(p, b)
    ensures EmitsDegenerate(p, b) <==> DegenerateBlock(p, b)
  {
    hide EmitStmts, ContextAt;
    var t := FirstTerminator(p, p.blocks[b].first, p.blocks[b].last);
    if t < p.blocks[b].last { assert J.In(p, b, t); }
  }

  lemma EntryAgrees(p: J.Prog, r: Ctx)
    requires J.LaidOut(p) && Counted(p, r.params) && r.bodies != [] && r.bodies[0] == [Jump(1, [])]
    ensures Agrees(r.params, Last(r, 0)) <==> J.NoEntryPhi(p)
  {
    hide PhiCount;
    CountZero(p, 0, p.blocks[0].last);
    assert Phis(p, 0) == |r.params[1]|;
  }

  lemma {:induction false} CountZero(p: J.Prog, si: nat, last: nat)
    requires last <= |p.stmts|
    ensures PhiCount(p, si, last) == 0 <==> forall n | si <= n < last :: !p.stmts[n].Phi?
    decreases last - si
  {
    if si < last { CountZero(p, si + 1, last); }
  }

  /** A conditional whose block lists one successor, and whose destination has a phi. */
  function OneSuccessor(): J.Prog {
    J.Prog([J.Bool], Some(J.Int64),
           [J.GotoIfNot(J.Arg(0), 1), J.Phi(J.Int64, [J.Edge(0, Some(J.Lit(J.Int64, 5)))]), J.ReturnNode(J.SSA(1))],
           [J.Block(0, 1, [1]), J.Block(1, 3, [])])
  }

  lemma OneSuccessorLaidOut(p: J.Prog)
    requires p == OneSuccessor()
    ensures J.LaidOut(p) && TerminatorsLast(p)
  {
  }

  lemma OneSuccessorResolves(p: J.Prog)
    requires p == OneSuccessor() && J.LaidOut(p)
    ensures Resolves(p)
  {
    hide J.LaidOut;
    forall si, o | 0 <= si < |p.stmts| && p.stmts[si].IsTerminator() && o in p.stmts[si].Operands()
      ensures Resolvable(p, o, si)
    {
    }
    forall b, n | 0 <= b < |p.blocks| && 0 <= n < |p.stmts| && p.stmts[n].Phi?
      ensures EdgeResolvable(p, p.stmts[n], b)
    {
      assert n == 1;
    }
  }

  /** It compiles, to a branch with too few arguments on one side. */
  lemma DegenerateExample()
    ensures J.LaidOut(OneSuccessor()) && Compile(OneSuccessor()).Some?
    ensures var r := Compile(OneSuccessor()).value;
      1 < |r.bodies| && r.bodies[1] != [] && !Agrees(r.params, Last(r, 1))
  {
    hide Compile, Resolves, TerminatorsLast, EmitsDegenerate, J.LaidOut;
    var p := OneSuccessor();
    OneSuccessorLaidOut(p);
    OneSuccessorResolves(p);
    assert p.stmts[1].Phi?;
    assert Phis(p, 1) > 0;
    assert DegenerateBlock(p, 0);
    ResolvesCompiles(p);
    EdgesAgree(p);
  }
}

/** One block of a well-formed program: its statements lower without error, and running its machine
    code leaves the block the way the Julia block is left. */
module BlockRun {
  import opened Wrappers
  import opened Words
  import opened Machine
  import opened Lowering
  import opened BlockShape
  import opened EdgeAgreement
  import opened EmitRun
  import opened Tracking
  import opened Relation
  import opened StrictSsa
  import opened Edges
  import J = JuliaIR

  // ---- statics ----

  ghost predicate Supported(p: J.Prog) {
    Sound(p) && Static(p) && J.Terminated(p)
  }

  lemma SupportedResolves(p: J.Prog)
    requires Supported(p)
    ensures Resolves(p) && TerminatorsLast(p)
  {
    forall si, o | 0 <= si < |p.stmts| && p.stmts[si].IsTerminator() && o in p.stmts[si].Operands()
      ensures Resolvable(p, o, si)
    {
      assert J.StmtTyped(p, p.stmts[si]);
      if o.SSA? { TypedLeaves(p, o.n); }
    }
    forall b, n | 0 <= b < |p.blocks| && 0 <= n < |p.stmts| && p.stmts[n].Phi?
      ensures EdgeResolvable(p, p.stmts[n], b)
    {
      EdgesInOrder(p, b);
      match EdgeOperand(p.stmts[n].edges, b)
      case Some(o) =>
        assert OperandOK(p, o, p.stmts[n].ty, p.blocks[b].last);
        if o.SSA? { TypedLeaves(p, o.n); }
      case None =>
    }
  }

  lemma TypedLeaves(p: J.Prog, n: nat)
    requires J.StmtTy(p, n).Some?
    ensures LeavesValue(p.stmts[n])
  {
  }

  lemma TracksKnown(p: J.Prog, c: Ctx, si: nat)
    requires Tracks(p, c, si) && J.Typed(p)
    ensures Known(p, c, si)
  {
    forall n: nat | J.UsableAt(p, n, si) && LeavesValue(p.stmts[n]) ensures n in c.ssa {
      assert J.StmtTyped(p, p.stmts[n]);
      assert Emitted(p, n, si);
    }
  }

  lemma QuietTracks(p: J.Prog, c: Ctx, c': Ctx, si: nat)
    requires Tracks(p, c, si) && Quiet(c, c') && ParamsOKIf(p, c)
    ensures Tracks(p, c', si) && Later(p, c, c') && ParamsOKIf(p, c')
  {
    TracksQuiet(p, c, c', si);
    LaterQuiet(p, c, c');
  }

  ghost predicate ParamsOKIf(p: J.Prog, c: Ctx) {
    J.LaidOut(p) && ParamsOK(p, c)
  }

  /** The emitter's state on arriving at statement si of block b. */
  ghost predicate Reached(p: J.Prog, c: Ctx, b: nat, si: nat) {
    && Supported(p) && b < |p.blocks| && p.blocks[b].first <= si <= p.blocks[b].last
    && Valid(c) && |c.params| == |p.blocks| + 1 && Tracks(p, c, si) && ParamsOKIf(p, c)
  }

  /** A terminator is emitted, and tracks nothing. */
  lemma TermStatic(p: J.Prog, c: Ctx, b: nat, si: nat)
    requires Reached(p, c, b, si) && si < p.blocks[b].last && p.stmts[si].IsTerminator()
    ensures si == p.blocks[b].last - 1
    ensures var (c', ok) := EmitTerminator(c, p, b, p.stmts[si]);
      ok && Reached(p, c', b, si + 1) && Later(p, c, c') && Closes(c, c')
  {
    hide Tracks, Later, J.Typed, J.Ordered, J.LaidOut, J.Terminated, Sound, ParamsOKIf, EmitTerminator, Known,
      Resolves, Frame;
    SupportedResolves(p);
    BlockStmt(p, b, si);
    TracksKnown(p, c, si);
    TerminatorKnown(c, p, b, si);
    TerminatorShape(c, p, b, p.stmts[si]);
    TerminatorKeepsTables(c, p, b, p.stmts[si]);
    var c' := EmitTerminator(c, p, b, p.stmts[si]).0;
    QuietTracks(p, c, c', si);
    SkipTracks(p, c', si);
  }

  lemma ValueStatic(p: J.Prog, c: Ctx, b: nat, si: nat)
    requires Reached(p, c, b, si) && si < p.blocks[b].last && !p.stmts[si].IsTerminator()
    ensures var (c', ok) := EmitValue(c, p, si);
      ok && Reached(p, c', b, si + 1) && Later(p, c, c') && Open(c, c')
  {
    hide Tracks, Later, Sound, EmitValue, Frame, ParamsOK, J.Terminated;
    BlockStmt(p, b, si);
    ValueTracks(p, c, si);
    var c' := EmitValue(c, p, si).0;
    TracksValid(p, c', si + 1);
    ParamsLater(p, c, c', si);
  }

  lemma {:induction false} StmtsStatic(p: J.Prog, c: Ctx, b: nat, si: nat)
    requires Reached(p, c, b, si) && (si == p.blocks[b].last ==> !EndsInTerminator(p, b))
    ensures var (c1, done) := EmitStmts(c, p, b, si);
      Reached(p, c1, b, p.blocks[b].last) && Later(p, c, c1) && (done <==> EndsInTerminator(p, b))
    decreases p.blocks[b].last - si
  {
    hide Tracks, Later, Supported, ParamsOKIf, EmitValue, EmitTerminator, Frame, Sentinel;
    if si < p.blocks[b].last {
      SupportedLaidOut(p);
      BlockStmt(p, b, si);
      if p.stmts[si].IsTerminator() {
        TermStatic(p, c, b, si);
      } else {
        ValueStatic(p, c, b, si);
        var c1 := EmitValue(c, p, si).0;
        StmtsStatic(p, c1, b, si + 1);
        LaterTrans(p, c, c1, EmitStmts(c1, p, b, si + 1).0);
      }
    } else {
      SupportedLaidOut(p);
      LaterSame(p, c);
    }
  }

  lemma SupportedLaidOut(p: J.Prog)
    requires Supported(p)
    ensures J.LaidOut(p)
  {
  }

  lemma LaterSame(p: J.Prog, c: Ctx)
    ensures Later(p, c, c)
  {
  }

  /** A block that does not end in a terminator falls through to the next. */
  lemma FallsThrough(p: J.Prog, b: nat)
    requires Supported(p) && b < |p.blocks| && !EndsInTerminator(p, b)
    ensures p.blocks[b].succs == [b + 1] && b + 1 < |p.blocks|
  {
    hide Sound, J.Typed, J.Ordered;
    assert J.SuccsOK(p, b);
    assert p.blocks[b].succs[0] == b + 1;
  }

  lemma EndStatic(p: J.Prog, c: Ctx, b: nat, done: bool)
    requires b < |p.blocks| && Reached(p, c, b, p.blocks[b].last) && (done <==> EndsInTerminator(p, b))
    ensures EndBlock(c, p, b, done).Some?
    ensures var r := EndBlock(c, p, b, done).value;
      Reached(p, r, b, p.blocks[b].last) && Later(p, c, r)
  {
    hide Tracks, Later, J.Typed, J.Ordered, J.LaidOut, J.Terminated, Sound, ParamsOKIf, EdgeArgs, EmitJump,
      Known, Resolves;
    if done {
      LaterSame(p, c);
    } else {
      FallsThrough(p, b);
      SupportedResolves(p);
      TracksKnown(p, c, p.blocks[b].last);
      EdgeArgsKnown(c, p, b, b + 1);
      var (c1, args) := EdgeArgs(c, p, b, b + 1);
      JumpKeepsTables(c, p, b, b + 1);
      var r := EmitJump(c1, b + 2, args.value);
      OpenCloses(c, c1, r);
      QuietTracks(p, c, r, p.blocks[b].last);
    }
  }

  // ---- argument lists that need no coercion ----

  lemma {:induction false} AlignedLater(p: J.Prog, c: Ctx, c': Ctx, si: nat, last: nat, ids: seq<Id>)
    requires last <= |p.stmts| && Aligned(p, c, si, last, ids) && Straight(c, c')
    ensures Aligned(p, c', si, last, ids)
    decreases last - si
  {
    hide TypedId;
    if si < last {
      if p.stmts[si].Phi? {
        TypedIdLater(c, c', ids[0], p.stmts[si].ty.Reg());
        AlignedLater(p, c, c', si + 1, last, ids[1..]);
      } else {
        AlignedLater(p, c, c', si + 1, last, ids);
      }
    }
  }

  /** ids are arguments for block d as they stand. */
  ghost predicate Ready(p: J.Prog, c: Ctx, d: nat, ids: seq<Id>) {
    && J.LaidOut(p) && d < |p.blocks| && Valid(c) && |c.params| == |p.blocks| + 1
    && Aligned(p, c, p.blocks[d].first, p.blocks[d].last, ids)
    && CoerceAll(c, ids, c.params[d + 1]) == (c, ids)
  }

  lemma ReadyFrom(p: J.Prog, c: Ctx, d: nat, ids: seq<Id>, t: nat)
    requires Tracks(p, c, t) && ParamsOKIf(p, c) && d < |p.blocks|
    requires Aligned(p, c, p.blocks[d].first, p.blocks[d].last, ids)
    ensures Ready(p, c, d, ids)
  {
    hide Aligned, CoerceAll, PhiIds, Values, Pairs, Args;
    var first, last := p.blocks[d].first, p.blocks[d].last;
    ParamsAligned(p, c, first, last, t);
    CoerceNothing(p, c, first, last, ids, c.params[d + 1]);
  }

  lemma EdgeArgsStatic(p: J.Prog, c: Ctx, b: nat, d: nat)
    requires b < |p.blocks| && Reached(p, c, b, p.blocks[b].last) && d < |p.blocks|
    ensures var (c1, ids) := EdgeArgs(c, p, b, d);
      ids.Some? && Reached(p, c1, b, p.blocks[b].last) && Ready(p, c1, d, ids.value)
  {
    hide Tracks, Later, Sound, Frame, Ready, ParamsOKIf, EdgesUsable, Aligned, J.Terminated, J.Typed, J.Ordered,
      PhiArgs;
    SupportedLaidOut(p);
    EdgesInOrder(p, b);
    var first, last := p.blocks[d].first, p.blocks[d].last;
    PhiArgsTracks(p, c, b, first, last, p.blocks[b].last);
    var (c1, ids) := EdgeArgs(c, p, b, d);
    QuietTracks(p, c, c1, p.blocks[b].last);
    ReadyFrom(p, c1, d, ids.value, p.blocks[b].last);
  }

  // ---- leaving a block ----

  predicate Enters(p: J.Prog, args: seq<int>, b: nat, d: nat, env: J.Env) {
    J.LaidOut(p) && d < |p.blocks| && J.EnterFrom(p, args, b, env, p.blocks[d].first, p.blocks[d].last, env).Some?
  }

  /** The machine leaves for block d, passing what d's phis take from block b. */
  ghost predicate Leaves(x: Point, b: nat, d: nat, env: J.Env, res: Machine.Outcome) {
    && J.LaidOut(x.p) && d < |x.p.blocks| && res.Goto? && res.target == d + 1
    && Related(x.p, x.args, x.fin, env, res.env)
    && PhiVals(x.p, x.args, env, b, x.p.blocks[d].first, x.p.blocks[d].last, res.vals)
  }

  /** The end of a block: all its statements but a terminator have run. */
  ghost predicate AtEnd(x: Point, c: Ctx, b: nat, start: Env, tenv: Env) {
    && OnRun(x) && InStep(x, c, start, tenv) && Reached(x.p, c, b, x.si)
    && |x.path| > 0 && x.path[|x.path| - 1] == b && b < |x.p.blocks| && x.si == x.p.blocks[b].last
  }

  lemma EdgeRun(x: Point, c: Ctx, b: nat, d: nat, taken: bool, start: Env, tenv: Env) returns (tenv': Env)
    requires AtEnd(x, c, b, start, tenv) && d < |x.p.blocks| && Valid(c) && J.LaidOut(x.p)
    requires Later(x.p, EdgeArgs(c, x.p, b, d).0, x.fin)
    requires taken ==> Enters(x.p, x.args, b, d, x.env)
    ensures var (c1, ids) := EdgeArgs(c, x.p, b, d);
      && ids.Some? && AtEnd(x, c1, b, start, tenv') && Wrote(c, c1, tenv, tenv') && Ready(x.p, c1, d, ids.value)
      && (taken ==> (Defined(tenv', ids.value) &&
            PhiVals(x.p, x.args, x.env, b, x.p.blocks[d].first, x.p.blocks[d].last, Lookup(tenv', ids.value))))
  {
    hide OnRun, InStep, Reached, PhiArgs, Later, PhiVals, EdgesHere, EdgesUsable, Wrote, Ready, Frame,
      J.LaidOut, Valid, Taken;
    EdgeArgsStatic(x.p, c, b, d);
    LastInRange(x.p, d);
    EndInScope(x, c, b, start, tenv);
    var first, last := x.p.blocks[d].first, x.p.blocks[d].last;
    if taken { EnterTaken(x.p, x.args, b, x.env, first, last, x.env); }
    tenv' := PhiArgsRun(x, c, first, last, taken, start, tenv);
  }

  lemma EndInScope(x: Point, c: Ctx, b: nat, start: Env, tenv: Env)
    requires AtEnd(x, c, b, start, tenv)
    ensures EdgesHere(x) && EdgesUsable(x.p, b, x.si)
  {
    hide J.Typed, J.Ordered, J.Strict, Tracks, InStep, Reached, EdgesHere, EdgesUsable;
    EdgesInScope(x);
  }

  lemma JumpRun(x: Point, c: Ctx, b: nat, d: nat, start: Env, tenv: Env)
    requires AtEnd(x, c, b, start, tenv) && d < |x.p.blocks|
      && Valid(c) && J.LaidOut(x.p) && |c.params| == |x.p.blocks| + 1
    requires Later(x.p, EdgeArgs(c, x.p, b, d).0, x.fin) && Enters(x.p, x.args, b, d, x.env)
    ensures var (c1, ids) := EdgeArgs(c, x.p, b, d);
      ids.Some? && Leaves(x, b, d, x.env, Exec(EmitJump(c1, d + 1, ids.value).bodies[c.cur], start))
  {
    hide OnRun, Reached, EdgeArgs, Later, PhiVals, Wrote, J.LaidOut, Valid, Aligned, Enters, Exec, CoerceAll,
      Related, Tracks;
    var tenv' := EdgeRun(x, c, b, d, true, start, tenv);
    var (c1, ids) := EdgeArgs(c, x.p, b, d);
    PushRun(c1, Jump(d + 1, ids.value), start, tenv');
  }

  // ---- conditionals ----

  lemma {:induction false} AlignedOld(p: J.Prog, c: Ctx, si: nat, last: nat, ids: seq<Id>)
    requires last <= |p.stmts| && Aligned(p, c, si, last, ids)
    ensures forall i | 0 <= i < |ids| :: ids[i] < c.next
    decreases last - si
  {
    if si < last {
      if p.stmts[si].Phi? {
        AlignedOld(p, c, si + 1, last, ids[1..]);
        assert ids == [ids[0]] + ids[1..];
      } else {
        AlignedOld(p, c, si + 1, last, ids);
      }
    }
  }

  lemma LookupKept(c: Ctx, c': Ctx, e: Env, e': Env, ids: seq<Id>)
    requires Defined(e, ids) && Wrote(c, c', e, e') && forall i | 0 <= i < |ids| :: ids[i] < c.next
    ensures Defined(e', ids) && Lookup(e', ids) == Lookup(e, ids)
  {
  }

  lemma ReadyKept(p: J.Prog, c: Ctx, c': Ctx, b: nat, si: nat, d: nat, ids: seq<Id>)
    requires Ready(p, c, d, ids) && Straight(c, c') && Reached(p, c', b, si)
    ensures Ready(p, c', d, ids) && forall i | 0 <= i < |ids| :: ids[i] < c.next
  {
    hide Tracks, Frame, Supported, Aligned, CoerceAll, ParamsOKIf;
    LastInRange(p, d);
    AlignedLater(p, c, c', p.blocks[d].first, p.blocks[d].last, ids);
    AlignedOld(p, c, p.blocks[d].first, p.blocks[d].last, ids);
    ReadyFrom(p, c', d, ids, si);
  }

  /** What a conditional leaves with: the chosen side's arguments. */
  ghost predicate Holding(x: Point, b: nat, d: nat, tenv: Env, ids: seq<Id>) {
    && J.LaidOut(x.p) && d < |x.p.blocks| && Defined(tenv, ids)
    && PhiVals(x.p, x.args, x.env, b, x.p.blocks[d].first, x.p.blocks[d].last, Lookup(tenv, ids))
  }

  lemma BothEdgesRun(x: Point, c: Ctx, b: nat, t: nat, dest: nat, u: int, start: Env, tenv: Env) returns (tenv': Env)
    requires AtEnd(x, c, b, start, tenv) && t < |x.p.blocks| && dest < |x.p.blocks| && Valid(c) && J.LaidOut(x.p)
    requires Later(x.p, BranchArgs(c, x.p, b, Some(t), dest).0, x.fin)
    requires Enters(x.p, x.args, b, if u != 0 then t else dest, x.env)
    ensures var (c2, args) := BranchArgs(c, x.p, b, Some(t), dest);
      && args.Some? && AtEnd(x, c2, b, start, tenv') && Wrote(c, c2, tenv, tenv')
      && Ready(x.p, c2, t, args.value.0) && Ready(x.p, c2, dest, args.value.1)
      && (if u != 0 then Holding(x, b, t, tenv', args.value.0) else Holding(x, b, dest, tenv', args.value.1))
  {
    hide OnRun, InStep, Reached, EdgeArgs, Later, PhiVals, Wrote, J.LaidOut, Valid, Enters, Ready, Defined;
    var (c1, fargs) := EdgeArgs(c, x.p, b, t);
    EdgeArgsStatic(x.p, c, b, t);
    EdgeArgsStatic(x.p, c1, b, dest);
    var (c2, dargs) := EdgeArgs(c1, x.p, b, dest);
    QuietLater(x.p, c1, c2, x.fin);
    var t1 := EdgeRun(x, c, b, t, u != 0, start, tenv);
    tenv' := EdgeRun(x, c1, b, dest, u == 0, start, t1);
    ReadyKept(x.p, c1, c2, b, x.si, t, fargs.value);
    if u != 0 { LookupKept(c1, c2, t1, tenv', fargs.value); }
    WroteTwice(c, c1, c2, tenv, t1, tenv');
  }

  lemma ReduceBool(c: Ctx, cv: Id, u: int, start: Env, tenv: Env)
    requires Arrives(c, start, tenv) && 0 <= u <= 1 && Carries(c, tenv, cv, J.Rep(J.Bool, u))
    ensures var (c', id) := Def(c, Ireduce(c.next, I8, cv), I8);
      var v := OfBool(I8, u != 0);
      Arrives(c', start, tenv[id := v]) && Wrote(c, c', tenv, tenv[id := v])
  {
    hide Pow2, Exec;
    BoolHolds(u != 0);
    SmallWrap(u, I8);
    SmallWrap(u, I32);
    DefRun(c, Ireduce(c.next, I8, cv), OfBool(I8, u != 0), start, tenv);
  }

  lemma SmallWrap(u: int, w: Ty)
    requires 0 <= u <= 1
    ensures Wrap(u, w) == u
  {
    Pow2Mono(1, w);
    ModSmall(u, Pow2(w));
  }

  /** Extra code of its own changes nothing that a Holding mentions. */
  lemma HoldingKept(x: Point, b: nat, d: nat, c: Ctx, c': Ctx, e: Env, e': Env, ids: seq<Id>)
    requires Holding(x, b, d, e, ids) && Wrote(c, c', e, e') && Ready(x.p, c, d, ids)
    ensures Holding(x, b, d, e', ids)
  {
    hide PhiVals, Aligned, CoerceAll, J.LaidOut;
    LastInRange(x.p, d);
    AlignedOld(x.p, c, x.p.blocks[d].first, x.p.blocks[d].last, ids);
    LookupKept(c, c', e, e', ids);
  }

  lemma BrifPlain(p: J.Prog, c: Ctx, cv: Id, t: nat, f: seq<Id>, dest: nat, d: seq<Id>)
    requires Ready(p, c, t, f) && Ready(p, c, dest, d) && TypedId(c, cv, I32)
    ensures var (c', id) := Def(c, Ireduce(c.next, I8, cv), I8);
      EmitBrif(c, cv, t + 1, f, dest + 1, d) == Push(c', Brif(id, t + 1, f, dest + 1, d))
  {
    hide CoerceAll, Aligned, J.LaidOut;
  }

  lemma BrifTakes(c: Id, t: nat, f: seq<Id>, e: nat, d: seq<Id>, u: int, env: Env)
    requires c in env && env[c] == OfBool(I8, u != 0)
    requires if u != 0 then Defined(env, f) else Defined(env, d)
    ensures Exec1(Brif(c, t, f, e, d), env)
         == if u != 0 then Outcome.Goto(t, Lookup(env, f), env) else Outcome.Goto(e, Lookup(env, d), env)
  {
    hide Pow2;
  }

  /** The branch itself, once both argument lists are computed. */
  lemma BrifRun(x: Point, c: Ctx, b: nat, cv: Id, u: int, t: nat, f: seq<Id>, dest: nat, d: seq<Id>,
          start: Env, tenv: Env)
    requires AtEnd(x, c, b, start, tenv) && Valid(c)
    requires 0 <= u <= 1 && Carries(c, tenv, cv, J.Rep(J.Bool, u))
    requires Ready(x.p, c, t, f) && Ready(x.p, c, dest, d)
    requires if u != 0 then Holding(x, b, t, tenv, f) else Holding(x, b, dest, tenv, d)
    requires Later(x.p, EmitBrif(c, cv, t + 1, f, dest + 1, d), x.fin)
    ensures Leaves(x, b, if u != 0 then t else dest, x.env,
                   Exec(EmitBrif(c, cv, t + 1, f, dest + 1, d).bodies[c.cur], start))
  {
    hide OnRun, Reached, Later, PhiVals, Wrote, J.LaidOut, Ready, Exec, Exec1, Tracks, Related, Pow2, Wrap,
      Arrives, EmitBrif, OfBool, Defined;
    BrifPlain(x.p, c, cv, t, f, dest, d);
    var (c', id) := Def(c, Ireduce(c.next, I8, cv), I8);
    var i := Brif(id, t + 1, f, dest + 1, d);
    ReduceBool(c, cv, u, start, tenv);
    var tenv' := tenv[id := OfBool(I8, u != 0)];
    PushLater(x.p, c', i, x.fin);
    QuietKeeps(x.p, x.args, x.fin, c, c', x.si, x.env, tenv, tenv');
    if u != 0 { HoldingKept(x, b, t, c, c', tenv, tenv', f); } else { HoldingKept(x, b, dest, c, c', tenv, tenv', d); }
    PushRun(c', i, start, tenv');
    BrifTakes(id, t + 1, f, dest + 1, d, u, tenv');
  }

  lemma PushLater(p: J.Prog, c: Ctx, i: Instr, fin: Ctx)
    requires Valid(c) && Later(p, Push(c, i), fin)
    ensures Later(p, c, fin)
  {
    LaterTrans(p, c, Push(c, i), fin);
  }

  // ---- terminators ----

  /** A machine outcome matches the Julia outcome of the same block.  Where Julia reads an undefined
      value the machine may do anything. */
  ghost predicate Ends(x: Point, b: nat, out: J.Outcome, res: Machine.Outcome) {
    match out
    case Goto(d, env) =>
      b < |x.p.blocks| && d in x.p.blocks[b].succs && (Enters(x.p, x.args, b, d, env) ==> Leaves(x, b, d, env, res))
    case Ret(v) => Returns(x.p, v, res)
    case Throw => res.Trapped?
    case Undefined => true
    case Fall(_) => false
  }

  predicate Returns(p: J.Prog, v: Option<int>, res: Machine.Outcome) {
    && (v.Some? <==> p.ret.Some?)
    && res == Machine.Ret(if v.Some? then J.Rep(p.ret.value, v.value) else Val(I64, 0))
  }

  function Next(x: Point): Point { x.(si := x.si + 1) }

  /** About to execute terminator si of block b. */
  ghost predicate AtTerm(x: Point, c: Ctx, b: nat, start: Env, tenv: Env) {
    && OnRun(x) && InStep(x, c, start, tenv) && Reached(x.p, c, b, x.si)
    && |x.path| > 0 && x.path[|x.path| - 1] == b && b < |x.p.blocks| && x.si + 1 == x.p.blocks[b].last <= |x.p.stmts|
    && x.p.stmts[x.si].IsTerminator()
  }

  lemma CoherentBump(p: J.Prog, path: seq<nat>, si: nat, env: J.Env)
    requires J.LaidOut(p) && |path| > 0 && si < |p.stmts| && p.stmts[si].IsTerminator() && Coherent(p, path, si, env)
    ensures Coherent(p, path, si + 1, env)
  {
    hide J.LaidOut, UpToDate;
    forall n | n in env && n < |p.stmts| && AliasOf(p, n).Some? && AliasOf(p, n).value < |p.stmts|
      && Current(p, path, si + 1, n, AliasOf(p, n).value)
      ensures UpToDate(p, env, n)
    {
      assert n != si;
      assert Current(p, path, si, n, AliasOf(p, n).value);
    }
  }

  lemma TermEnd(x: Point, c: Ctx, b: nat, start: Env, tenv: Env)
    requires AtTerm(x, c, b, start, tenv)
    ensures AtEnd(Next(x), c, b, start, tenv)
  {
    hide Coherent, Values, Pairs, Args, J.Typed, J.Ordered, J.Strict, J.Terminated, J.IsPath, Related, Arrives,
      ParamsOKIf;
    CoherentBump(x.p, x.path, x.si, x.env);
    SkipTracks(x.p, c, x.si);
  }

  lemma GotoRun(x: Point, c: Ctx, b: nat, start: Env, tenv: Env)
    requires AtTerm(x, c, b, start, tenv) && Valid(c) && J.LaidOut(x.p) && x.p.stmts[x.si].GotoNode?
    requires x.p.stmts[x.si].dest < |x.p.blocks| && |c.params| == |x.p.blocks| + 1
    requires Later(x.p, EmitTerminator(c, x.p, b, x.p.stmts[x.si]).0, x.fin)
    ensures var d := x.p.stmts[x.si].dest;
      Enters(x.p, x.args, b, d, x.env) ==>
        Leaves(x, b, d, x.env, Exec(EmitTerminator(c, x.p, b, x.p.stmts[x.si]).0.bodies[c.cur], start))
  {
    hide OnRun, InStep, Reached, Later, J.LaidOut, Valid, Enters, Leaves, Exec, EdgeArgs, EmitJump;
    var d := x.p.stmts[x.si].dest;
    if Enters(x.p, x.args, b, d, x.env) {
      TermEnd(x, c, b, start, tenv);
      EdgeArgsStatic(x.p, c, b, d);
      var (c1, ids) := EdgeArgs(c, x.p, b, d);
      JumpLater(x.p, c1, d + 1, ids.value, x.fin);
      JumpRun(Next(x), c, b, d, start, tenv);
      LeavesNext(x, b, d, x.env, Exec(EmitJump(c1, d + 1, ids.value).bodies[c.cur], start));
    }
  }

  lemma LeavesNext(x: Point, b: nat, d: nat, env: J.Env, res: Machine.Outcome)
    ensures Leaves(Next(x), b, d, env, res) == Leaves(x, b, d, env, res)
  {
    hide Related, PhiVals, J.LaidOut;
  }

  lemma JumpLater(p: J.Prog, c: Ctx, t: nat, ids: seq<Id>, fin: Ctx)
    requires Valid(c) && t < |c.params| && Later(p, EmitJump(c, t, ids), fin)
    ensures Later(p, c, fin)
  {
    hide Later, CoerceAll;
    LaterQuiet(p, c, EmitJump(c, t, ids));
    LaterTrans(p, c, EmitJump(c, t, ids), fin);
  }

  lemma BrifLater(p: J.Prog, c: Ctx, cv: Id, t: nat, f: seq<Id>, e: nat, d: seq<Id>, fin: Ctx)
    requires Valid(c) && t < |c.params| && e < |c.params| && Later(p, EmitBrif(c, cv, t, f, e, d), fin)
    ensures Later(p, c, fin)
  {
    hide Later, CoerceAll;
    LaterQuiet(p, c, EmitBrif(c, cv, t, f, e, d));
    LaterTrans(p, c, EmitBrif(c, cv, t, f, e, d), fin);
  }

  /** The fall-through of a well-formed conditional is the next block. */
  lemma CondTargets(p: J.Prog, b: nat, si: nat)
    requires J.LaidOut(p) && J.Terminated(p) && J.In(p, b, si) && p.stmts[si].GotoIfNot?
    ensures b + 1 < |p.blocks| && p.stmts[si].dest < |p.blocks|
    ensures Fallthrough(p.blocks[b].succs, p.stmts[si].dest) == Some(b + 1)
    ensures p.stmts[si].dest in p.blocks[b].succs && b + 1 in p.blocks[b].succs
  {
    assert J.SuccsOK(p, b);
    assert p.stmts[si].IsTerminator();
    var s := p.blocks[b].succs;
    assert s[0] < |p.blocks| && s[1] < |p.blocks|;
  }

  lemma CondHere(x: Point, b: nat, o: J.Operand)
    requires OnRun(x) && |x.path| > 0 && J.In(x.p, x.path[|x.path| - 1], x.si) && x.si < |x.p.stmts|
    requires x.p.stmts[x.si].GotoIfNot? && o == x.p.stmts[x.si].cond
    ensures OperandHere(x, o, J.Bool) && OperandOK(x.p, o, J.Bool, x.si)
  {
    hide Coherent, J.Ordered, J.Strict, J.IsPath, Tracks, J.Reaches, J.LaidOut;
    assert J.StmtTyped(x.p, x.p.stmts[x.si]);
    UseHere(x, o, J.Bool);
  }

  /** The condition, resolved. */
  lemma CondRun(x: Point, c: Ctx, b: nat, u: int, start: Env, tenv: Env) returns (tenv': Env)
    requires AtTerm(x, c, b, start, tenv) && Valid(c) && x.p.stmts[x.si].GotoIfNot?
    requires J.Eval(x.args, x.env, x.p.stmts[x.si].cond) == Some(u)
    requires Later(x.p, Resolve(c, x.p.stmts[x.si].cond).0, x.fin)
    ensures var (c1, id) := Resolve(c, x.p.stmts[x.si].cond);
      && id.Some? && AtTerm(x, c1, b, start, tenv') && 0 <= u <= 1 && Carries(c1, tenv', id.value, J.Rep(J.Bool, u))
  {
    hide Coherent, J.Ordered, J.Strict, J.Terminated, J.IsPath, Related, Arrives, Tracks, Carries, Later,
      J.Eval, Frame, OperandHere, Wrote, ParamsOK;
    var cond := x.p.stmts[x.si].cond;
    CondHere(x, b, cond);
    ResolveTracks(x.p, c, cond, J.Bool, x.si);
    var (c1, id) := Resolve(c, cond);
    QuietTracks(x.p, c, c1, x.si);
    QuietLater(x.p, c, c1, x.fin);
    tenv' := ResolveRun(x, c, cond, J.Bool, u, start, tenv);
    QuietKeeps(x.p, x.args, x.fin, c, c1, x.si, x.env, tenv, tenv');
  }

  lemma CondEdgesRun(x: Point, c: Ctx, b: nat, cv: Id, u: int, dest: nat, start: Env, tenv: Env)
    requires AtEnd(x, c, b, start, tenv) && Valid(c) && J.LaidOut(x.p) && |c.params| == |x.p.blocks| + 1
    requires b + 1 < |x.p.blocks| && dest < |x.p.blocks| && 0 <= u <= 1 && Carries(c, tenv, cv, J.Rep(J.Bool, u))
    requires Enters(x.p, x.args, b, if u != 0 then b + 1 else dest, x.env)
    requires var (c2, args) := BranchArgs(c, x.p, b, Some(b + 1), dest);
      args.Some? && Later(x.p, EmitBrif(c2, cv, b + 2, args.value.0, dest + 1, args.value.1), x.fin)
    ensures var (c2, args) := BranchArgs(c, x.p, b, Some(b + 1), dest);
      Leaves(x, b, if u != 0 then b + 1 else dest, x.env,
             Exec(EmitBrif(c2, cv, b + 2, args.value.0, dest + 1, args.value.1).bodies[c.cur], start))
  {
    hide AtEnd, Later, J.LaidOut, Valid, Enters, Leaves, Exec, BranchArgs, EmitBrif, Carries, Ready, Holding,
      Wrote;
    var (c2, args) := BranchArgs(c, x.p, b, Some(b + 1), dest);
    BrifLater(x.p, c2, cv, b + 2, args.value.0, dest + 1, args.value.1, x.fin);
    var t2 := BothEdgesRun(x, c, b, b + 1, dest, u, start, tenv);
    CarriesWrote(c, c2, tenv, t2, cv, J.Rep(J.Bool, u));
    BrifRun(x, c2, b, cv, u, b + 1, args.value.0, dest, args.value.1, start, t2);
  }

  /** What the terminator's emitted code leads to. */
  ghost predicate TermDone(x: Point, c: Ctx, b: nat, start: Env) {
    && Valid(c) && J.LaidOut(x.p) && b < |x.p.blocks| && |c.params| == |x.p.blocks| + 1 && x.si < |x.p.stmts|
    && x.p.stmts[x.si].IsTerminator() && J.DestInRange(x.p, x.p.stmts[x.si])
    && var c' := EmitTerminator(c, x.p, b, x.p.stmts[x.si]).0;
      c'.cur < |c'.bodies| && Ends(x, b, J.ExecStmt(x.p, x.args, b, x.si, x.env), Exec(c'.bodies[c'.cur], start))
  }

  /** The terminator about to be emitted. */
  ghost predicate TermHere(x: Point, c: Ctx, b: nat, start: Env, tenv: Env) {
    && AtTerm(x, c, b, start, tenv) && Valid(c) && J.LaidOut(x.p) && |c.params| == |x.p.blocks| + 1
    && J.DestInRange(x.p, x.p.stmts[x.si])
    && EmitTerminator(c, x.p, b, x.p.stmts[x.si]).1
    && Later(x.p, EmitTerminator(c, x.p, b, x.p.stmts[x.si]).0, x.fin)
  }

  lemma GotoDone(x: Point, c: Ctx, b: nat, start: Env, tenv: Env)
    requires TermHere(x, c, b, start, tenv) && x.p.stmts[x.si].GotoNode?
    ensures TermDone(x, c, b, start)
  {
    hide OnRun, InStep, Sound, J.Typed, J.Ordered, Later, J.LaidOut, Enters, Leaves, Exec, Tracks, EdgeArgs;
    GotoRun(x, c, b, start, tenv);
    assert J.SuccsOK(x.p, b);
    assert x.p.blocks[b].succs[0] == x.p.stmts[x.si].dest;
  }

  lemma CondDone(x: Point, c: Ctx, b: nat, start: Env, tenv: Env)
    requires TermHere(x, c, b, start, tenv) && x.p.stmts[x.si].GotoIfNot?
    ensures TermDone(x, c, b, start)
  {
    hide Coherent, InStep, J.Typed, J.Ordered, J.Strict, Later, J.LaidOut, Enters, Leaves, Exec, Tracks,
      BranchArgs, EmitBrif, Resolve, J.Eval, Fallthrough, Carries, AtEnd, OnRun, ParamsOKIf, Sound;
    var s := x.p.stmts[x.si];
    CondTargets(x.p, b, x.si);
    match J.Eval(x.args, x.env, s.cond)
    case None =>
    case Some(u) =>
      var t := if u == 0 then s.dest else b + 1;
      if Enters(x.p, x.args, b, t, x.env) { CondLeaves(x, c, b, u, start, tenv); }
  }

  lemma CondLeaves(x: Point, c: Ctx, b: nat, u: int, start: Env, tenv: Env)
    requires TermHere(x, c, b, start, tenv) && x.p.stmts[x.si].GotoIfNot?
    requires J.Eval(x.args, x.env, x.p.stmts[x.si].cond) == Some(u)
    requires b + 1 < |x.p.blocks| && Fallthrough(x.p.blocks[b].succs, x.p.stmts[x.si].dest) == Some(b + 1)
    requires Enters(x.p, x.args, b, if u == 0 then x.p.stmts[x.si].dest else b + 1, x.env)
    ensures Leaves(x, b, if u == 0 then x.p.stmts[x.si].dest else b + 1, x.env,
                   Exec(EmitTerminator(c, x.p, b, x.p.stmts[x.si]).0.bodies[c.cur], start))
  {
    hide AtTerm, Later, J.LaidOut, Enters, Leaves, Exec, BranchArgs, EmitBrif, Resolve, J.Eval, Fallthrough,
      Carries, AtEnd, Valid;
    AtTermFacts(x, c, b, start, tenv);
    var s := x.p.stmts[x.si];
    var (c1, id) := Resolve(c, s.cond);
    var (c2, args) := BranchArgs(c1, x.p, b, Some(b + 1), s.dest);
    BrifLater(x.p, c2, id.value, b + 2, args.value.0, s.dest + 1, args.value.1, x.fin);
    QuietLater(x.p, c1, c2, x.fin);
    var t1 := CondRun(x, c, b, u, start, tenv);
    TermEnd(x, c1, b, start, t1);
    CondEdgesRun(Next(x), c1, b, id.value, u, s.dest, start, t1);
    LeavesNext(x, b, if u == 0 then s.dest else b + 1, x.env,
               Exec(EmitBrif(c2, id.value, b + 2, args.value.0, s.dest + 1, args.value.1).bodies[c.cur], start));
  }

  lemma AtTermFacts(x: Point, c: Ctx, b: nat, start: Env, tenv: Env)
    requires AtTerm(x, c, b, start, tenv)
    ensures x.si < |x.p.stmts| && b < |x.p.blocks|
  {
  }

  lemma ReturnHere(x: Point, b: nat)
    requires OnRun(x) && |x.path| > 0 && J.In(x.p, x.path[|x.path| - 1], x.si) && x.si < |x.p.stmts|
    requires x.p.stmts[x.si].ReturnNode?
    ensures x.p.ret.Some? && OperandHere(x, x.p.stmts[x.si].v, x.p.ret.value)
    ensures OperandOK(x.p, x.p.stmts[x.si].v, x.p.ret.value, x.si)
  {
    hide Coherent, J.Ordered, J.Strict, J.IsPath, Tracks, J.Reaches, J.LaidOut;
    assert J.StmtTyped(x.p, x.p.stmts[x.si]);
    UseHere(x, x.p.stmts[x.si].v, x.p.ret.value);
  }

  /** Returning a value of the return register type. */
  lemma ReturnRun(c: Ctx, p: J.Prog, id: Id, v: Value, start: Env, tenv: Env)
    requires Arrives(c, start, tenv) && Carries(c, tenv, id, v) && v.ty == RetTy(p)
    ensures Exec(EmitReturn(c, p, id).bodies[c.cur], start) == Machine.Ret(v)
  {
    hide Exec, Pow2;
    PushRun(c, Return(id), start, tenv);
  }

  lemma ReturnValueRun(x: Point, c: Ctx, b: nat, u: int, start: Env, tenv: Env)
    requires TermHere(x, c, b, start, tenv) && x.p.stmts[x.si].ReturnNode?
    requires J.Eval(x.args, x.env, x.p.stmts[x.si].v) == Some(u)
    ensures x.p.ret.Some?
    ensures Exec(EmitTerminator(c, x.p, b, x.p.stmts[x.si]).0.bodies[c.cur], start)
      == Machine.Ret(J.Rep(x.p.ret.value, u))
  {
    hide Coherent, J.Ordered, J.Strict, J.Typed, J.LaidOut, J.Terminated, J.IsPath, Related, Arrives, Tracks,
      Carries, Later, J.Eval, OperandHere, Wrote, ParamsOKIf, EmitReturn, Resolve, Exec, Wrap, OperandOK;
    var v := x.p.stmts[x.si].v;
    ReturnHere(x, b);
    ResolveTracks(x.p, c, v, x.p.ret.value, x.si);
    var (c1, id) := Resolve(c, v);
    ReturnLater(x.p, c, c1, id.value, x.fin);
    var t1 := ResolveRun(x, c, v, x.p.ret.value, u, start, tenv);
    ReturnRun(c1, x.p, id.value, J.Rep(x.p.ret.value, u), start, t1);
  }

  lemma ReturnLater(p: J.Prog, c: Ctx, c1: Ctx, id: Id, fin: Ctx)
    requires Straight(c, c1) && Later(p, EmitReturn(c1, p, id), fin)
    ensures Later(p, c, fin)
  {
    hide Later;
    LaterQuiet(p, c1, EmitReturn(c1, p, id));
    LaterTrans(p, c1, EmitReturn(c1, p, id), fin);
    QuietLater(p, c, c1, fin);
  }

  lemma ReturnDone(x: Point, c: Ctx, b: nat, start: Env, tenv: Env)
    requires TermHere(x, c, b, start, tenv) && x.p.stmts[x.si].ReturnNode?
    ensures TermDone(x, c, b, start)
  {
    hide AtTerm, Later, J.LaidOut, Exec, EmitReturn, Resolve, J.Eval, Wrap, Pow2, Enters, Leaves, EdgeArgs,
      EmitJump, EmitGotoIfNot, Frame, J.Rep;
    AtTermFacts(x, c, b, start, tenv);
    match J.Eval(x.args, x.env, x.p.stmts[x.si].v)
    case None =>
    case Some(u) => ReturnValueRun(x, c, b, u, start, tenv);
  }

  lemma TermTyped(x: Point, c: Ctx, b: nat, start: Env, tenv: Env)
    requires AtTerm(x, c, b, start, tenv)
    ensures J.StmtTyped(x.p, x.p.stmts[x.si]) && Arrives(c, start, tenv)
  {
    hide Coherent, J.Ordered, J.Strict, J.LaidOut, J.Terminated, J.IsPath, Related, Arrives, Tracks,
      J.StmtTyped;
  }

  lemma ConstDone(x: Point, c: Ctx, b: nat, start: Env, tenv: Env)
    requires TermHere(x, c, b, start, tenv)
    requires x.p.stmts[x.si].ReturnNothing? || x.p.stmts[x.si].Unreachable? || x.p.stmts[x.si].ThrowCall?
    ensures TermDone(x, c, b, start)
  {
    hide AtTerm, Later, J.LaidOut, Exec, EmitReturn, Wrap, Pow2, Frame;
    AtTermFacts(x, c, b, start, tenv);
    TermTyped(x, c, b, start, tenv);
    if x.p.stmts[x.si].ReturnNothing? {
      IconstRun(c, I64, 0, start, tenv);
      WrapZero(I64);
      ReturnRun(EmitIconst(c, I64, 0).0, x.p, c.next, Val(I64, 0), start, tenv[c.next := Val(I64, 0)]);
    } else {
      PushRun(c, Trap, start, tenv);
    }
  }

  lemma TermRun(x: Point, c: Ctx, b: nat, start: Env, tenv: Env)
    requires TermHere(x, c, b, start, tenv)
    ensures TermDone(x, c, b, start)
  {
    hide TermHere, TermDone;
    TermStmt(x, c, b, start, tenv);
    match x.p.stmts[x.si]
    case GotoNode(_) => GotoDone(x, c, b, start, tenv);
    case GotoIfNot(_, _) => CondDone(x, c, b, start, tenv);
    case ReturnNode(_) => ReturnDone(x, c, b, start, tenv);
    case _ => ConstDone(x, c, b, start, tenv);
  }

  lemma TermStmt(x: Point, c: Ctx, b: nat, start: Env, tenv: Env)
    requires TermHere(x, c, b, start, tenv)
    ensures x.si < |x.p.stmts| && x.p.stmts[x.si].IsTerminator()
  {
    hide Later, J.LaidOut, EmitTerminator, OnRun, InStep;
  }
}

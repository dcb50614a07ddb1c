/** The lowering preserves meaning: the emitted function simulates the Julia program block by block. */
module Simulation {
  import opened Wrappers
  import opened Words
  import opened Machine
  import opened Lowering
  import opened BlockShape
  import opened EdgeAgreement
  import opened EmitRun
  import opened Tracking
  import opened Relation
  import opened StrictSsa
  import opened Edges
  import opened BlockRun
  import opened Entry
  import J = JuliaIR

  // ---- one block ----

  /** The emitter is at statement si of block b, in step with a run; c2 is the state at the block's end. */
  ghost predicate InBlock(x: Point, c: Ctx, b: nat, start: Env, tenv: Env, c2: Ctx) {
    && OnRun(x) && InStep(x, c, start, tenv) && Reached(x.p, c, b, x.si)
    && |x.path| > 0 && x.path[|x.path| - 1] == b && c.cur == b + 1
    && Valid(c) && J.LaidOut(x.p) && b < |x.p.blocks| && |c.params| == |x.p.blocks| + 1
    && (x.si == x.p.blocks[b].last ==> !EndsInTerminator(x.p, b))
    && Later(x.p, c2, x.fin)
    && var (c1, done) := EmitStmts(c, x.p, b, x.si);
      EndBlock(c1, x.p, b, done) == Some(c2)
  }

  lemma EndsSame(x: Point, y: Point, b: nat, out: J.Outcome, res: Machine.Outcome)
    requires x.p == y.p && x.args == y.args && x.fin == y.fin
    ensures Ends(x, b, out, res) == Ends(y, b, out, res)
  {
    hide Related, PhiVals, Enters, Returns, J.LaidOut;
  }

  lemma FallDone(x: Point, c: Ctx, b: nat, start: Env, tenv: Env, c2: Ctx)
    requires InBlock(x, c, b, start, tenv, c2) && x.si == x.p.blocks[b].last
    ensures Ends(x, b, J.Outcome.Goto(b + 1, x.env), Exec(c2.bodies[b + 1], start))
  {
    hide OnRun, InStep, Later, J.LaidOut, Enters, Leaves, Exec, EdgeArgs, EmitJump, Supported, Tracks,
      ParamsOKIf;
    EndFalls(x.p, c, b);
    if Enters(x.p, x.args, b, b + 1, x.env) {
      EdgeArgsStatic(x.p, c, b, b + 1);
      var (c1, ids) := EdgeArgs(c, x.p, b, b + 1);
      JumpLater(x.p, c1, b + 2, ids.value, x.fin);
      JumpRun(x, c, b, b + 1, start, tenv);
    }
  }

  lemma EndFalls(p: J.Prog, c: Ctx, b: nat)
    requires b < |p.blocks| && Reached(p, c, b, p.blocks[b].last) && !EndsInTerminator(p, b)
    ensures p.blocks[b].succs == [b + 1] && b + 1 < |p.blocks|
  {
    hide Tracks, ParamsOKIf, Supported, Valid;
    FallsThrough(p, b);
  }

  /** What the rest of the block does to the emitter's state. */
  lemma RestLater(p: J.Prog, c: Ctx, b: nat, si: nat, c2: Ctx)
    requires J.LaidOut(p) && b < |p.blocks| && Reached(p, c, b, si)
      && (si == p.blocks[b].last ==> !EndsInTerminator(p, b))
    requires var (c1, done) := EmitStmts(c, p, b, si); EndBlock(c1, p, b, done) == Some(c2)
    ensures Later(p, c, c2) && Closes(c, c2)
  {
    hide Tracks, Later, Supported, ParamsOKIf, Closes, EmitStmts, EndBlock, J.LaidOut;
    StmtsStatic(p, c, b, si);
    StmtsShape(c, p, b, si);
    var (c1, done) := EmitStmts(c, p, b, si);
    EndStatic(p, c1, b, done);
    EndCloses(c, c1, p, b, done);
    LaterTrans(p, c, c1, c2);
  }

  lemma TermInBlock(x: Point, c: Ctx, b: nat, start: Env, tenv: Env, c2: Ctx)
    requires InBlock(x, c, b, start, tenv, c2) && x.si < x.p.blocks[b].last
    requires x.si < |x.p.stmts| && x.p.stmts[x.si].IsTerminator()
    ensures TermHere(x, c, b, start, tenv) && c2 == EmitTerminator(c, x.p, b, x.p.stmts[x.si]).0 && c2.cur == c.cur
  {
    hide OnRun, InStep, Later, Supported, Tracks, ParamsOKIf, EmitTerminator, J.LaidOut, Closes;
    BlockStmt(x.p, b, x.si);
    LastInRange(x.p, b);
    TermStatic(x.p, c, b, x.si);
  }

  lemma {:induction false} StmtsRun(x: Point, c: Ctx, b: nat, start: Env, tenv: Env, c2: Ctx)
    requires InBlock(x, c, b, start, tenv, c2)
    ensures Ends(x, b, J.ExecFrom(x.p, x.args, b, x.si, x.env), Exec(c2.bodies[b + 1], start))
    decreases if b < |x.p.blocks| then x.p.blocks[b].last - x.si else 0
  {
    hide OnRun, InStep, Later, Supported, Tracks, ParamsOKIf, EmitTerminator, EmitStmts, EndBlock, Ends,
      J.LaidOut, J.ExecStmt, Exec, Reached, Valid;
    AtStmt(x, c, b, start, tenv, c2);
    if x.si == x.p.blocks[b].last {
      FallDone(x, c, b, start, tenv, c2);
    } else if x.p.stmts[x.si].IsTerminator() {
      TermInBlock(x, c, b, start, tenv, c2);
      TermRun(x, c, b, start, tenv);
      TermLast(x, b);
    } else {
      var tenv', out := ValueStep(x, c, b, start, tenv, c2);
      match out
      case Fall(env') =>
        var y := x.(si := x.si + 1, env := env');
        StmtsRun(y, EmitValue(c, x.p, x.si).0, b, start, tenv', c2);
        EndsSame(x, y, b, J.ExecFrom(y.p, y.args, b, y.si, y.env), Exec(c2.bodies[b + 1], start));
      case _ =>
    }
  }

  lemma AtStmt(x: Point, c: Ctx, b: nat, start: Env, tenv: Env, c2: Ctx)
    requires InBlock(x, c, b, start, tenv, c2)
    ensures b < |x.p.blocks| && x.si <= x.p.blocks[b].last <= |x.p.stmts| && |c2.bodies| > b + 1
  {
    hide OnRun, InStep, Later, Supported, Tracks, ParamsOKIf, EmitStmts, EndBlock;
  }

  lemma TermLast(x: Point, b: nat)
    requires J.LaidOut(x.p) && b < |x.p.blocks| && x.si < x.p.blocks[b].last <= |x.p.stmts|
    requires x.p.stmts[x.si].IsTerminator()
    ensures J.ExecFrom(x.p, x.args, b, x.si, x.env) == J.ExecStmt(x.p, x.args, b, x.si, x.env)
  {
    hide J.LaidOut;
  }

  /** One statement that is not a terminator. */
  lemma ValueStep(x: Point, c: Ctx, b: nat, start: Env, tenv: Env, c2: Ctx) returns (tenv': Env, out: J.Outcome)
    requires InBlock(x, c, b, start, tenv, c2) && x.si < x.p.blocks[b].last
    requires x.si < |x.p.stmts| && !x.p.stmts[x.si].IsTerminator()
    ensures out == J.ExecStmt(x.p, x.args, b, x.si, x.env)
    ensures |c2.bodies| > b + 1 && match out
      case Fall(env') =>
        InBlock(x.(si := x.si + 1, env := env'), EmitValue(c, x.p, x.si).0, b, start, tenv', c2)
      case o => Ends(x, b, o, Exec(c2.bodies[b + 1], start))
  {
    hide OnRun, InStep, Later, Supported, Tracks, ParamsOKIf, EmitValue, EmitStmts, EndBlock, J.LaidOut,
      J.ExecStmt, Exec, Outcomes, Closes, Valid, Ends, Reached;
    AtStmt(x, c, b, start, tenv, c2);
    var c' := EmitValue(c, x.p, x.si).0;
    ValueRest(x, c, b, start, tenv, c2);
    tenv' := ValueHere(x, c, b, start, tenv);
    out := J.ExecStmt(x.p, x.args, b, x.si, x.env);
    ValueNotLast(x, b);
    match out
    case Fall(env') => StepRun(x, c', b, start, tenv', env');
    case Throw => ThrowRun(x, c', b, start, tenv', c2);
    case Undefined => UndefinedEnds(x, b, Exec(c2.bodies[b + 1], start));
  }

  /** The emitter's side of a statement step. */
  lemma ValueRest(x: Point, c: Ctx, b: nat, start: Env, tenv: Env, c2: Ctx)
    requires InBlock(x, c, b, start, tenv, c2) && x.si < x.p.blocks[b].last
    requires x.si < |x.p.stmts| && !x.p.stmts[x.si].IsTerminator()
    ensures var (c', ok) := EmitValue(c, x.p, x.si);
      && ok && J.In(x.p, b, x.si) && Reached(x.p, c', b, x.si + 1)
        && Later(x.p, c', x.fin) && Open(c, c') && Closes(c', c2)
      && (x.si + 1 == x.p.blocks[b].last ==> !EndsInTerminator(x.p, b))
      && var (c1, done) := EmitStmts(c', x.p, b, x.si + 1);
        EndBlock(c1, x.p, b, done) == Some(c2)
  {
    hide OnRun, InStep, Later, Supported, Tracks, ParamsOKIf, EmitValue, EndBlock, J.LaidOut, Closes;
    ValueStatic(x.p, c, b, x.si);
    var c' := EmitValue(c, x.p, x.si).0;
    RestLater(x.p, c', b, x.si + 1, c2);
    LaterTrans(x.p, c', c2, x.fin);
  }

  lemma ValueHere(x: Point, c: Ctx, b: nat, start: Env, tenv: Env) returns (tenv': Env)
    requires OnRun(x) && InStep(x, c, start, tenv) && Valid(c) && |x.path| > 0 && x.path[|x.path| - 1] == b
    requires b < |x.p.blocks| && Reached(x.p, c, b, x.si) && x.si < x.p.blocks[b].last
    requires x.si < |x.p.stmts| && !x.p.stmts[x.si].IsTerminator()
    requires Later(x.p, EmitValue(c, x.p, x.si).0, x.fin)
    ensures Outcomes(x, EmitValue(c, x.p, x.si).0, start, tenv', J.ExecStmt(x.p, x.args, b, x.si, x.env))
  {
    hide OnRun, InStep, Later, Supported, Tracks, ParamsOKIf, EmitValue, Outcomes, Valid, J.ExecStmt;
    tenv' := ValueRun(x, c, start, tenv);
  }

  lemma ValueNotLast(x: Point, b: nat)
    requires x.si < |x.p.stmts| && !x.p.stmts[x.si].IsTerminator()
    ensures var out := J.ExecStmt(x.p, x.args, b, x.si, x.env); out.Fall? || out.Throw? || out.Undefined?
  {
    hide J.Apply;
  }

  lemma StepRun(x: Point, c': Ctx, b: nat, start: Env, tenv': Env, env': J.Env)
    requires OnRun(x) && |x.path| > 0 && x.path[|x.path| - 1] == b && x.si < |x.p.stmts| && J.In(x.p, b, x.si)
    requires J.ExecStmt(x.p, x.args, b, x.si, x.env) == J.Outcome.Fall(env')
    requires Outcomes(x, c', start, tenv', J.Outcome.Fall(env')) && Reached(x.p, c', b, x.si + 1)
    ensures var y := x.(si := x.si + 1, env := env');
      OnRun(y) && InStep(y, c', start, tenv')
  {
    hide Coherent, Related, Tracks, J.ExecStmt, J.IsPath, J.Typed, J.Ordered, J.Strict, ParamsOKIf,
      J.Terminated, Arrives;
    CoherentStep(x.p, x.path, x.args, x.si, x.env, env');
  }

  lemma ThrowRun(x: Point, c': Ctx, b: nat, start: Env, tenv': Env, c2: Ctx)
    requires Outcomes(x, c', start, tenv', J.Throw) && Closes(c', c2) && c'.cur == b + 1
    ensures |c2.bodies| > b + 1 && Ends(x, b, J.Throw, Exec(c2.bodies[b + 1], start))
  {
    hide Related, Exec;
    FaultStays(c', c2, start);
  }

  lemma UndefinedEnds(x: Point, b: nat, res: Machine.Outcome)
    ensures Ends(x, b, J.Undefined, res)
  {
  }

  // ---- the whole function, statically ----

  /** Block b's final code was emitted from c0, by a state that knows no more than fin. */
  ghost predicate BlockFrom(p: J.Prog, fin: Ctx, b: nat, c0: Ctx) {
    && J.LaidOut(p) && b < |p.blocks| && |fin.bodies| > b + 1
    && Reached(p, c0, b, p.blocks[b].first) && Valid(c0) && |c0.params| == |p.blocks| + 1
    && c0.cur == b + 1 && c0.bodies[b + 1] == []
    && var (c1, done) := EmitStmts(c0, p, b, p.blocks[b].first);
      && EndBlock(c1, p, b, done).Some?
      && var c2 := EndBlock(c1, p, b, done).value;
        |c2.bodies| > b + 1 && Later(p, c2, fin) && fin.bodies[b + 1] == c2.bodies[b + 1]
  }

  ghost predicate HasBlock(p: J.Prog, fin: Ctx, b: nat) {
    exists c0 :: BlockFrom(p, fin, b, c0)
  }

  lemma BlockStatic(p: J.Prog, c: Ctx, b: nat)
    requires b < |p.blocks| && Reached(p, c, b, p.blocks[b].first) && J.LaidOut(p)
    requires Valid(c) && |c.params| == |p.blocks| + 1
    ensures EmitBlock(c, p, b).Some?
    ensures var c2 := EmitBlock(c, p, b).value;
      && Reached(p, c2, b, p.blocks[b].last) && Later(p, c, c2) && Reached(p, c.(cur := b + 1), b, p.blocks[b].first)
  {
    hide Later, Supported, J.LaidOut, EmitStmts, EndBlock, SharesId, Emitted, PairEmitted, TypedId;
    var c0 := c.(cur := b + 1);
    var first := p.blocks[b].first;
    CurReached(p, c, b, first);
    StmtsStatic(p, c0, b, first);
    var (c1, done) := EmitStmts(c0, p, b, first);
    EndStatic(p, c1, b, done);
    LaterTrans(p, c0, c1, EndBlock(c1, p, b, done).value);
    LaterCur(p, c, b, EndBlock(c1, p, b, done).value);
  }

  lemma CurReached(p: J.Prog, c: Ctx, b: nat, si: nat)
    requires Reached(p, c, b, si)
    ensures Reached(p, c.(cur := b + 1), b, si)
  {
    hide Supported, J.LaidOut;
    var c0 := c.(cur := b + 1);
    forall n | n in c0.ssa ensures SharesId(p, c0, n) { assert SharesId(p, c, n); }
  }

  lemma LaterCur(p: J.Prog, c: Ctx, b: nat, c': Ctx)
    requires Later(p, c.(cur := b + 1), c')
    ensures Later(p, c, c')
  {
    hide IsRoot;
  }

  /** The emitter's state before block b. */
  ghost predicate Before(p: J.Prog, c: Ctx, b: nat) {
    && Supported(p) && J.LaidOut(p) && b <= |p.blocks| && Valid(c) && |c.params| == |p.blocks| + 1
    && Tracks(p, c, Start(p, b)) && ParamsOK(p, c)
  }

  lemma BeforeReached(p: J.Prog, c: Ctx, b: nat)
    requires Before(p, c, b) && b < |p.blocks|
    ensures Reached(p, c, b, p.blocks[b].first)
  {
    hide Tracks, ParamsOK, Supported;
  }

  lemma ReachedBefore(p: J.Prog, c: Ctx, b: nat)
    requires b < |p.blocks| && Reached(p, c, b, p.blocks[b].last) && J.LaidOut(p)
    ensures Before(p, c, b + 1)
  {
    hide Tracks, ParamsOK, Supported;
    NextFirst(p, b);
  }

  lemma {:induction false} BlocksStatic(p: J.Prog, c: Ctx, b: nat)
    requires Before(p, c, b) && forall i | b < i < |c.bodies| :: c.bodies[i] == []
    ensures EmitBlocks(c, p, b).Some?
    ensures var r := EmitBlocks(c, p, b).value;
      && Before(p, r, |p.blocks|) && Later(p, c, r) && |r.bodies| == |c.bodies|
      && (forall i | 0 <= i <= b :: r.bodies[i] == c.bodies[i])
      && forall i: nat | b <= i < |p.blocks| :: HasBlock(p, r, i)
    decreases |p.blocks| - b
  {
    hide Supported, Tracks, ParamsOK, Later, J.LaidOut, EmitBlock, Reached, HasBlock, ParamsOKIf;
    if b < |p.blocks| {
      BeforeReached(p, c, b);
      BlockStatic(p, c, b);
      BlockCompletes(c, p, b);
      var c1 := EmitBlock(c, p, b).value;
      ReachedBefore(p, c1, b);
      BlocksStatic(p, c1, b + 1);
      var r := EmitBlocks(c1, p, b + 1).value;
      LaterTrans(p, c, c1, r);
      FromBlock(p, c, b, r);
    } else {
      LaterSame(p, c);
    }
  }

  lemma FromBlock(p: J.Prog, c: Ctx, b: nat, r: Ctx)
    requires b < |p.blocks| && J.LaidOut(p) && Valid(c) && |c.params| == |p.blocks| + 1 && EmitBlock(c, p, b).Some?
    requires Reached(p, c.(cur := b + 1), b, p.blocks[b].first) && c.bodies[b + 1] == []
    requires Later(p, EmitBlock(c, p, b).value, r) && |r.bodies| == |p.blocks| + 1
    requires r.bodies[b + 1] == EmitBlock(c, p, b).value.bodies[b + 1]
    ensures HasBlock(p, r, b)
  {
    hide Reached, Later, J.LaidOut, EmitStmts, EndBlock;
    assert BlockFrom(p, r, b, c.(cur := b + 1));
  }

  /** A well-formed program compiles. */
  lemma Compiles(p: J.Prog)
    requires Supported(p)
    ensures Compile(p).Some?
    ensures var fin := Compile(p).value;
      && Final(p, fin) && PhisApart(p, fin) && ParamsOK(p, fin) && |fin.bodies| == |p.blocks| + 1
      && fin.bodies[0] == [Jump(1, [])]
      && forall b: nat | b < |p.blocks| :: HasBlock(p, fin, b)
  {
    hide AddAllParams, EmitBlocks, Tracks, Later, PhisApart, ParamsOK, HasBlock, Static, Sound, J.LaidOut;
    SupportedLaidOut(p);
    PreparedTracks(p);
    var c := Prepared(p);
    FirstBlock(p);
    TracksValid(p, c, 0);
    BlocksStatic(p, c, 0);
    PhisApartLater(p, c, Compile(p).value, 0, |p.stmts|);
  }

  lemma FirstBlock(p: J.Prog)
    requires J.LaidOut(p)
    ensures Start(p, 0) == 0
  {
  }

  // ---- whole runs ----

  /** The two programs are at the same block with related environments, or have ended alike.  A Julia
      run that reads an undefined phi is left open. */
  ghost predicate Matches(p: J.Prog, args: seq<int>, fin: Ctx, s: J.State, t: Machine.State)
    requires J.LaidOut(p)
  {
    match s
    case At(path, env) =>
      && J.IsPath(p, path) && t.At? && t.block == path[|path| - 1] + 1
      && Related(p, args, fin, env, t.env) && Coherent(p, path, p.blocks[path[|path| - 1]].first, env)
    case Returned(v) =>
      && (v.Some? <==> p.ret.Some?)
      && t == Machine.Returned(if v.Some? then J.Rep(p.ret.value, v.value) else Val(I64, 0))
    case Threw => t == Aborted
    case Undetermined => true
  }

  lemma {:induction false} CoherentEnd(p: J.Prog, path: seq<nat>, args: seq<int>, si: nat, env: J.Env)
    requires Sound(p) && TerminatorsLast(p) && |path| > 0 && path[|path| - 1] < |p.blocks|
    requires var blk := p.blocks[path[|path| - 1]]; blk.first <= si <= blk.last <= |p.stmts|
    requires Coherent(p, path, si, env) && J.ExecFrom(p, args, path[|path| - 1], si, env).Goto?
    ensures Coherent(p, path, p.blocks[path[|path| - 1]].last, J.ExecFrom(p, args, path[|path| - 1], si, env).env)
    decreases p.blocks[path[|path| - 1]].last - si
  {
    hide Coherent, J.Ordered, J.Strict, J.Apply, J.LaidOut;
    var b := path[|path| - 1];
    if si < p.blocks[b].last {
      SoundLaidOut(p);
      BlockStmt(p, b, si);
      if p.stmts[si].IsTerminator() {
        CoherentBump(p, path, si, env);
        TerminatorKeepsEnv(p, args, b, si, env);
      } else {
        ValueFalls(p, args, b, si, env);
        var env' := J.ExecStmt(p, args, b, si, env).env;
        CoherentStep(p, path, args, si, env, env');
        CoherentEnd(p, path, args, si + 1, env');
      }
    }
  }

  lemma SoundLaidOut(p: J.Prog)
    requires Sound(p)
    ensures J.LaidOut(p)
  {
  }

  lemma TerminatorKeepsEnv(p: J.Prog, args: seq<int>, b: nat, si: nat, env: J.Env)
    requires b < |p.blocks| && si < p.blocks[b].last <= |p.stmts| && p.stmts[si].IsTerminator()
    requires J.ExecFrom(p, args, b, si, env).Goto?
    ensures J.ExecFrom(p, args, b, si, env).env == env
  {
  }

  lemma ValueFalls(p: J.Prog, args: seq<int>, b: nat, si: nat, env: J.Env)
    requires b < |p.blocks| && si < p.blocks[b].last <= |p.stmts| && !p.stmts[si].IsTerminator()
    requires J.ExecFrom(p, args, b, si, env).Goto?
    ensures J.ExecStmt(p, args, b, si, env).Fall?
    ensures J.ExecFrom(p, args, b, si, env) == J.ExecFrom(p, args, b, si + 1, J.ExecStmt(p, args, b, si, env).env)
  {
    hide J.Apply;
  }

  /** The machine block, run from a related environment, ends as the Julia block does. */
  lemma BlockEnds(p: J.Prog, args: seq<int>, fin: Ctx, path: seq<nat>, env: J.Env, tenv: Env)
    requires Final(p, fin) && J.IsPath(p, path) && HasBlock(p, fin, path[|path| - 1])
    requires Related(p, args, fin, env, tenv) && Coherent(p, path, p.blocks[path[|path| - 1]].first, env)
    ensures var b := path[|path| - 1];
      && |fin.bodies| > b + 1 && p.blocks[b].last <= |p.stmts|
      && Ends(Point(p, args, fin, path, p.blocks[b].first, env), b,
              J.ExecFrom(p, args, b, p.blocks[b].first, env), Exec(fin.bodies[b + 1], tenv))
  {
    hide J.IsPath, Sound, Static, Tracks, Supported, ParamsOKIf, Related, Coherent, Later, EmitStmts, EndBlock,
      Ends, J.LaidOut, J.ExecFrom;
    PathBlock(p, path);
    var b := path[|path| - 1];
    LastInRange(p, b);
    var c0 :| BlockFrom(p, fin, b, c0);
    var (c1, done) := EmitStmts(c0, p, b, p.blocks[b].first);
    var c2 := EndBlock(c1, p, b, done).value;
    StmtsRun(Point(p, args, fin, path, p.blocks[b].first, env), c0, b, tenv, tenv, c2);
  }

  lemma PathBlock(p: J.Prog, path: seq<nat>)
    requires J.IsPath(p, path)
    ensures |path| > 0 && path[|path| - 1] < |p.blocks|
  {
  }

  /** Entering a block: its parameters accept the values passed, and binding them keeps the relation. */
  lemma EnterRun(p: J.Prog, args: seq<int>, fin: Ctx, x: Point, b: nat, d: nat, env: J.Env, res: Machine.Outcome)
    requires Final(p, fin) && PhisApart(p, fin) && ParamsOKIf(p, fin) && x.p == p && x.args == args && x.fin == fin
    requires Enters(p, args, b, d, env) && Leaves(x, b, d, env, res)
    ensures d < |p.blocks| && |fin.params| == |p.blocks| + 1 && Accepts(Function(fin, p), fin.params[d + 1], res.vals)
    ensures Related(p, args, fin, J.EnterFrom(p, args, b, env, p.blocks[d].first, p.blocks[d].last, env).value,
                    Bind(res.env, fin.params[d + 1], res.vals))
  {
    hide Sound, Static, Tracks, Related, PhiVals, PhisApart, J.EnterFrom, J.LaidOut;
    LastInRange(p, d);
    var first, last := p.blocks[d].first, p.blocks[d].last;
    PhiTypes(p, args, fin, env, b, first, last, res.vals);
    BindPhis(p, args, fin, b, env, first, last, env, res.env, res.vals);
  }

  ghost predicate Compiled(p: J.Prog, fin: Ctx) {
    && Supported(p) && Final(p, fin) && PhisApart(p, fin) && ParamsOKIf(p, fin) && |fin.bodies| == |p.blocks| + 1
    && fin.bodies[0] == [Jump(1, [])]
    && (forall b: nat | b < |p.blocks| :: HasBlock(p, fin, b))
  }

  /** One step of each side. */
  lemma StepMatches(p: J.Prog, args: seq<int>, fin: Ctx, s: J.State, t: Machine.State)
    requires Compiled(p, fin) && J.LaidOut(p) && Matches(p, args, fin, s, t)
    ensures Matches(p, args, fin, J.Step(p, args, s), Machine.Step(Function(fin, p), t))
  {
    hide Compiled, Related, Coherent, J.LaidOut, J.ExecFrom, Exec, J.EnterFrom, Ends;
    if s.At? {
      PathBlock(p, s.path);
      BlockMatches(p, args, fin, s.path, s.env, t.env);
    }
  }

  lemma BlockMatches(p: J.Prog, args: seq<int>, fin: Ctx, path: seq<nat>, env: J.Env, tenv: Env)
    requires Compiled(p, fin) && J.LaidOut(p) && J.IsPath(p, path)
    requires Related(p, args, fin, env, tenv) && Coherent(p, path, p.blocks[path[|path| - 1]].first, env)
    ensures Matches(p, args, fin, J.Step(p, args, J.At(path, env)),
                    Machine.Step(Function(fin, p), State.At(path[|path| - 1] + 1, tenv)))
  {
    hide Related, Coherent, J.LaidOut, J.ExecFrom, Exec, J.EnterFrom, Leaves, Final, Sound, Static, ParamsOKIf,
      PhisApart, HasBlock, J.IsPath, Enters;
    PathBlock(p, path);
    var b := path[|path| - 1];
    var x := Point(p, args, fin, path, p.blocks[b].first, env);
    assert HasBlock(p, fin, b);
    BlockEnds(p, args, fin, path, env, tenv);
    var res := Exec(fin.bodies[b + 1], tenv);
    match J.ExecFrom(p, args, b, p.blocks[b].first, env)
    case Goto(d, env') => GotoMatches(p, args, fin, path, env, tenv, d, env', x);
    case Ret(v) => ReturnTy(p, v, res);
    case Throw =>
    case Undefined =>
  }

  lemma ReturnTy(p: J.Prog, v: Option<int>, res: Machine.Outcome)
    requires Returns(p, v, res)
    ensures res.v.ty == RetTy(p)
  {
    hide Pow2, Wrap;
  }

  lemma GotoMatches(p: J.Prog, args: seq<int>, fin: Ctx, path: seq<nat>, env: J.Env, tenv: Env, d: nat,
          env': J.Env, x: Point)
    requires Compiled(p, fin) && J.LaidOut(p) && J.IsPath(p, path)
    requires Coherent(p, path, p.blocks[path[|path| - 1]].first, env)
    requires var b := path[|path| - 1];
      && x == Point(p, args, fin, path, p.blocks[b].first, env)
      && J.ExecFrom(p, args, b, p.blocks[b].first, env) == J.Outcome.Goto(d, env')
      && |fin.bodies| > b + 1
      && Ends(x, b, J.Outcome.Goto(d, env'), Exec(fin.bodies[b + 1], tenv))
    ensures Matches(p, args, fin, J.Step(p, args, J.At(path, env)),
                    Machine.Step(Function(fin, p), State.At(path[|path| - 1] + 1, tenv)))
  {
    hide Related, Coherent, J.ExecFrom, Exec, J.EnterFrom, Leaves, Final, Sound, Static, ParamsOKIf, PhisApart,
      HasBlock, J.IsPath, J.LaidOut, Accepts, Bind;
    PathBlock(p, path);
    var b := path[|path| - 1];
    SuccInRange(p, b, d);
    LastInRange(p, d);
    if Enters(p, args, b, d, env') {
      var res := Exec(fin.bodies[b + 1], tenv);
      EnterRun(p, args, fin, x, b, d, env', res);
      assert res.Goto? && res.target == d + 1 by { LeavesGoto(x, b, d, env', res); }
      EnterCoherent(p, args, path, env, d, env');
      PathExtends(p, path, d);
    }
  }

  lemma SuccInRange(p: J.Prog, b: nat, d: nat)
    requires J.LaidOut(p) && b < |p.blocks| && d in p.blocks[b].succs
    ensures d < |p.blocks|
  {
  }

  lemma LeavesGoto(x: Point, b: nat, d: nat, env: J.Env, res: Machine.Outcome)
    requires Leaves(x, b, d, env, res)
    ensures res.Goto? && res.target == d + 1
  {
  }

  lemma PathExtends(p: J.Prog, path: seq<nat>, d: nat)
    requires J.IsPath(p, path) && d < |p.blocks| && d in p.blocks[path[|path| - 1]].succs
    ensures J.IsPath(p, path + [d])
  {
  }

  lemma EnterCoherent(p: J.Prog, args: seq<int>, path: seq<nat>, env: J.Env, d: nat, env': J.Env)
    requires Supported(p) && J.LaidOut(p) && |path| > 0 && path[|path| - 1] < |p.blocks|
    requires Coherent(p, path, p.blocks[path[|path| - 1]].first, env)
    requires J.ExecFrom(p, args, path[|path| - 1], p.blocks[path[|path| - 1]].first, env) == J.Outcome.Goto(d, env')
    requires Enters(p, args, path[|path| - 1], d, env')
    ensures Coherent(p, path + [d], p.blocks[d].first,
                     J.EnterFrom(p, args, path[|path| - 1], env', p.blocks[d].first, p.blocks[d].last, env').value)
  {
    hide Coherent, J.ExecFrom, J.EnterFrom, J.Ordered, J.Strict, J.Typed, J.LaidOut;
    var b := path[|path| - 1];
    SupportedResolves(p);
    LastInRange(p, b);
    LastInRange(p, d);
    CoherentEnd(p, path, args, p.blocks[b].first, env);
    var env'' := J.EnterFrom(p, args, b, env', p.blocks[d].first, p.blocks[d].last, env').value;
    CoherentEnter(p, path, args, d, env', env'');
  }

  // ---- the theorem ----

  /** The arguments, in the entry block's parameters. */
  function EntryEnv(p: J.Prog, args: seq<int>): Env
    requires J.ArgsOK(p, args)
  {
    map k: nat | 0 <= k < |args| :: J.Rep(p.args[k], args[k])
  }

  function Started(p: J.Prog, args: seq<int>): Machine.State
    requires J.ArgsOK(p, args)
  {
    State.At(0, EntryEnv(p, args))
  }

  /** The entry block's jump, without arguments, to a first block without phis. */
  lemma EntryStep(p: J.Prog, args: seq<int>, fin: Ctx)
    requires Compiled(p, fin) && J.LaidOut(p) && J.NoEntryPhi(p) && J.ArgsOK(p, args)
    ensures Matches(p, args, fin, J.At([0], map[]), Machine.Step(Function(fin, p), Started(p, args)))
  {
    hide Final, Static, Sound, PhisApart, HasBlock, Wrap, Pow2;
    EntryParams(p, fin);
    var env := EntryEnv(p, args);
    JumpAlone(env);
    EntryRelated(p, args, fin);
    EntryCoherent(p);
  }

  lemma JumpAlone(env: Env)
    ensures Exec([Jump(1, [])], env) == Outcome.Goto(1, [], env)
  {
    OneInstr(Jump(1, []), env);
    assert Lookup(env, []) == [];
  }

  lemma EntryParams(p: J.Prog, fin: Ctx)
    requires J.LaidOut(p) && ParamsOK(p, fin) && J.NoEntryPhi(p)
    ensures |fin.params| > 1 && fin.params[1] == []
  {
    NoPhiIds(p, fin.ssa, 0, p.blocks[0].last);
  }

  lemma {:induction false} NoPhiIds(p: J.Prog, ssa: map<nat, Id>, si: nat, last: nat)
    requires last <= |p.stmts| && forall n | si <= n < last :: !p.stmts[n].Phi?
    ensures PhiIds(p, ssa, si, last) == []
    decreases last - si
  {
    if si < last { NoPhiIds(p, ssa, si + 1, last); }
  }

  lemma EntryRelated(p: J.Prog, args: seq<int>, fin: Ctx)
    requires Final(p, fin) && J.ArgsOK(p, args)
    ensures Related(p, args, fin, map[], EntryEnv(p, args))
  {
    hide Static, Sound, Wrap, Pow2, Values, Pairs;
  }

  lemma EntryCoherent(p: J.Prog)
    requires J.LaidOut(p)
    ensures J.IsPath(p, [0]) && Coherent(p, [0], p.blocks[0].first, map[])
  {
  }

  lemma {:induction false} RunMatches(p: J.Prog, args: seq<int>, fin: Ctx, n: nat)
    requires Compiled(p, fin) && J.LaidOut(p) && J.NoEntryPhi(p) && J.ArgsOK(p, args)
    ensures Matches(p, args, fin, J.Run(p, args, n), Machine.Run(Function(fin, p), Started(p, args), n + 1))
  {
    hide Compiled, Matches, J.Step, Machine.Step, J.LaidOut;
    if n == 0 {
      EntryStep(p, args, fin);
      assert Machine.Run(Function(fin, p), Started(p, args), 0) == Started(p, args);
    } else {
      RunMatches(p, args, fin, n - 1);
      StepMatches(p, args, fin, J.Run(p, args, n - 1), Machine.Run(Function(fin, p), Started(p, args), n));
    }
  }

  /** Every well-formed program compiles, and after any number of steps, on any arguments, the emitted
      function is where the Julia program is: at the same block with related values, returned with the
      representation of the same value, or aborted where Julia threw. */
  lemma LoweringPreservesMeaning(p: J.Prog, args: seq<int>, n: nat)
    requires J.WellFormed(p) && J.ArgsOK(p, args)
    ensures Compile(p).Some?
    ensures var fin := Compile(p).value;
      Matches(p, args, fin, J.Run(p, args, n), Machine.Run(Function(fin, p), Started(p, args), n + 1))
  {
    hide J.Terminated, J.Typed, J.Ordered, J.Strict, Matches, J.LaidOut, Compile, HasBlock, PhisApart, Final;
    Compiles(p);
    RunMatches(p, args, Compile(p).value, n);
  }
}

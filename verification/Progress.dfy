/** A well-formed program whose phis are assigned on every incoming edge never reads an undefined value,
    so that the simulation decides every run: neither side can be stuck. */
module Progress {
  import opened Wrappers
  import opened Lowering
  import opened BlockShape
  import opened EdgeAgreement
  import opened StrictSsa
  import opened Tracking
  import opened Edges
  import opened BlockRun
  import opened Simulation
  import Relation
  import Machine
  import J = JuliaIR

  /** Every phi has an operand for every block that can precede it. */
  ghost predicate PhisAssigned(p: J.Prog) {
    forall b, n | 0 <= b < |p.blocks| && 0 <= n < |p.stmts| && p.stmts[n].Phi?
      && (exists k :: 0 <= k < |p.blocks[b].succs| && J.In(p, p.blocks[b].succs[k], n)) ::
      EdgeOperand(p.stmts[n].edges, b).Some?
  }

  predicate Produces(p: J.Prog, n: nat) {
    n < |p.stmts| && (p.stmts[n].Checked? || J.StmtTy(p, n).Some?)
  }

  /** n has been executed by the time a run is at statement si of the last block of path. */
  predicate Done(p: J.Prog, path: seq<nat>, si: nat, n: nat)
    requires J.LaidOut(p) && |path| > 0 && n < |p.stmts|
  {
    Owner(p, n) in path[..|path| - 1] || (Owner(p, n) == path[|path| - 1] && (n < si || p.stmts[n].Phi?))
  }

  predicate Defines(p: J.Prog, env: J.Env, n: nat)
    requires n < |p.stmts|
  {
    n in env && if p.stmts[n].Checked? then env[n].Pair? else env[n].Num?
  }

  ghost predicate AllDefined(p: J.Prog, path: seq<nat>, si: nat, env: J.Env)
    requires J.LaidOut(p) && |path| > 0
  {
    forall n: nat | Produces(p, n) && Done(p, path, si, n) :: Defines(p, env, n)
  }

  lemma ReachedDone(p: J.Prog, path: seq<nat>, si: nat, n: nat)
    requires J.LaidOut(p) && J.IsPath(p, path) && n < |p.stmts| && J.Reaches(p, n, path[|path| - 1], si)
    ensures Done(p, path, si, n)
  {
    hide J.LaidOut, J.Dominates, J.Reaches, J.IsPath;
    PathBlock(p, path);
    ReachesOwner(p, n, path[|path| - 1], si);
    if Owner(p, n) != path[|path| - 1] { DominatorVisited(p, path, Owner(p, n)); }
  }

  lemma DominatorVisited(p: J.Prog, path: seq<nat>, d: nat)
    requires |path| > 0 && J.IsPath(p, path) && J.Dominates(p, d, path[|path| - 1]) && d != path[|path| - 1]
    ensures d in path[..|path| - 1]
  {
    assert path == path[..|path| - 1] + [path[|path| - 1]];
  }

  lemma OperandDefined(p: J.Prog, args: seq<int>, path: seq<nat>, si: nat, env: J.Env, o: J.Operand, ty: J.JTy)
    requires Sound(p) && |path| > 0 && J.IsPath(p, path) && AllDefined(p, path, si, env) && J.ArgsOK(p, args)
    requires J.HasTy(p, o, ty) && (o.SSA? ==> J.Reaches(p, o.n, path[|path| - 1], si))
    ensures J.Eval(args, env, o).Some?
  {
    hide J.Reaches, J.IsPath, J.Ordered, J.Strict;
    if o.SSA? {
      ReachedDone(p, path, si, o.n);
      assert Produces(p, o.n);
    }
  }

  /** A typed statement in scope of its operands is executed, and defines its own value. */
  lemma StmtDefined(p: J.Prog, args: seq<int>, path: seq<nat>, si: nat, env: J.Env)
    requires Supported(p) && |path| > 0 && J.IsPath(p, path) && J.ArgsOK(p, args)
    requires J.In(p, path[|path| - 1], si) && si < |p.stmts| && AllDefined(p, path, si, env)
    ensures match J.ExecStmt(p, args, path[|path| - 1], si, env)
      case Undefined => false
      case Fall(env') => !p.stmts[si].IsTerminator() && AllDefined(p, path, si + 1, env')
      case _ => true
  {
    hide J.IsPath, J.Reaches, J.Terminated, J.Ordered, J.Apply, AllDefined, J.LaidOut;
    var s := p.stmts[si];
    var b := path[|path| - 1];
    assert J.StmtTyped(p, s);
    OperandsDefined(p, args, path, si, env);
    if s.GetField? { PairDefined(p, path, si, env); }
    match J.ExecStmt(p, args, b, si, env)
    case Fall(env') => SoundLaidOut(p); DefinedNext(p, path, si, env, env');
    case _ =>
  }

  lemma OperandsDefined(p: J.Prog, args: seq<int>, path: seq<nat>, si: nat, env: J.Env)
    requires Supported(p) && |path| > 0 && J.IsPath(p, path) && J.ArgsOK(p, args)
    requires J.In(p, path[|path| - 1], si) && si < |p.stmts| && AllDefined(p, path, si, env)
    ensures forall o | o in p.stmts[si].Operands() && !p.stmts[si].GetField? :: J.Eval(args, env, o).Some?
  {
    hide J.IsPath, J.Reaches, J.Terminated, J.Ordered, AllDefined, J.LaidOut, J.Eval;
    var s := p.stmts[si];
    assert J.StmtTyped(p, s);
    forall o | o in s.Operands() && !s.GetField? ensures J.Eval(args, env, o).Some? {
      assert J.In(p, path[|path| - 1], si);
      var ty :=
        if s.Call? || s.Checked? then s.aty else if s.Pi? then s.ty else if s.GotoIfNot? then J.Bool else p.ret.value;
      OperandDefined(p, args, path, si, env, o, ty);
    }
  }

  lemma PairDefined(p: J.Prog, path: seq<nat>, si: nat, env: J.Env)
    requires Supported(p) && |path| > 0 && J.IsPath(p, path)
    requires J.In(p, path[|path| - 1], si) && si < |p.stmts| && AllDefined(p, path, si, env) && p.stmts[si].GetField?
    ensures p.stmts[si].pair in env && env[p.stmts[si].pair].Pair?
  {
    hide J.IsPath, J.Reaches, J.Terminated, J.Ordered;
    var q := p.stmts[si].pair;
    assert J.StmtTyped(p, p.stmts[si]) && J.In(p, path[|path| - 1], si);
    assert J.SSA(q) in p.stmts[si].Operands();
    ReachedDone(p, path, si, q);
    assert Produces(p, q);
  }

  lemma DefinedNext(p: J.Prog, path: seq<nat>, si: nat, env: J.Env, env': J.Env)
    requires J.LaidOut(p) && |path| > 0 && AllDefined(p, path, si, env) && si < |p.stmts|
    requires forall m | m in env && m != si :: m in env' && env'[m] == env[m]
    requires p.stmts[si].Phi? ==> env' == env
    requires Produces(p, si) && !p.stmts[si].Phi? ==> Defines(p, env', si)
    ensures AllDefined(p, path, si + 1, env')
  {
    forall n: nat | Produces(p, n) && Done(p, path, si + 1, n) ensures Defines(p, env', n) {
      if n != si || p.stmts[si].Phi? { assert Done(p, path, si, n); }
    }
  }

  // ---- a block, and the edge that leaves it ----

  lemma {:induction false} BlockDefined(p: J.Prog, args: seq<int>, path: seq<nat>, si: nat, env: J.Env)
    requires Supported(p) && |path| > 0 && J.IsPath(p, path) && J.ArgsOK(p, args) && path[|path| - 1] < |p.blocks|
    requires var blk := p.blocks[path[|path| - 1]]; blk.first <= si <= blk.last <= |p.stmts|
    requires AllDefined(p, path, si, env)
    requires si == p.blocks[path[|path| - 1]].last ==> !EndsInTerminator(p, path[|path| - 1])
    ensures match J.ExecFrom(p, args, path[|path| - 1], si, env)
      case Goto(d, env') => AllDefined(p, path, p.blocks[path[|path| - 1]].last, env')
        && d in p.blocks[path[|path| - 1]].succs
      case Undefined => false
      case Fall(_) => false
      case _ => true
    decreases p.blocks[path[|path| - 1]].last - si
  {
    hide J.IsPath, Sound, J.Typed, J.Ordered, AllDefined, J.ExecStmt, J.LaidOut, J.SuccsOK;
    var b := path[|path| - 1];
    SupportedLaidOut(p);
    if si < p.blocks[b].last {
      BlockStmt(p, b, si);
      StmtDefined(p, args, path, si, env);
      match J.ExecStmt(p, args, b, si, env)
      case Fall(env') => BlockDefined(p, args, path, si + 1, env');
      case Goto(d, env') =>
        GotoEnv(p, args, b, si, env);
        assert si == p.blocks[b].last - 1;
        DefinedPast(p, path, si, env);
      case _ =>
    } else {
      FallsThrough(p, b);
    }
  }

  lemma GotoEnv(p: J.Prog, args: seq<int>, b: nat, si: nat, env: J.Env)
    requires J.LaidOut(p) && J.Terminated(p) && J.In(p, b, si) && si < |p.stmts|
    requires J.ExecStmt(p, args, b, si, env).Goto?
    ensures p.stmts[si].IsTerminator()
    ensures var out := J.ExecStmt(p, args, b, si, env); out.env == env && out.dest in p.blocks[b].succs
  {
    hide J.Apply, J.LaidOut;
    assert J.SuccsOK(p, b);
  }

  lemma DefinedPast(p: J.Prog, path: seq<nat>, si: nat, env: J.Env)
    requires J.LaidOut(p) && |path| > 0 && AllDefined(p, path, si, env) && si < |p.stmts| && p.stmts[si].IsTerminator()
    ensures AllDefined(p, path, si + 1, env)
  {
    DefinedNext(p, path, si, env, env);
  }

  predicate PhiDefined(p: J.Prog, args: seq<int>, env: J.Env, n: nat, b: nat)
    requires n < |p.stmts| && p.stmts[n].Phi?
  {
    var v := J.PhiValue(args, env, p.stmts[n].edges, b);
    v.Some? && v.value.Num?
  }

  lemma EdgeDefined(p: J.Prog, args: seq<int>, path: seq<nat>, env: J.Env, n: nat)
    requires Supported(p) && |path| > 0 && J.IsPath(p, path) && J.ArgsOK(p, args) && path[|path| - 1] < |p.blocks|
    requires AllDefined(p, path, p.blocks[path[|path| - 1]].last, env)
    requires n < |p.stmts| && p.stmts[n].Phi? && EdgeOperand(p.stmts[n].edges, path[|path| - 1]).Some?
    ensures PhiDefined(p, args, env, n, path[|path| - 1])
  {
    hide J.IsPath, J.Reaches, J.Terminated, AllDefined, J.LaidOut, J.Ordered;
    var b := path[|path| - 1];
    var edges := p.stmts[n].edges;
    var o := EdgeOperand(edges, b).value;
    EdgeFromIn(edges, b);
    assert J.StmtTyped(p, p.stmts[n]);
    SupportedLaidOut(p);
    OperandDefined(p, args, path, p.blocks[b].last, env, o, p.stmts[n].ty);
  }

  lemma {:induction false} EnterNums(p: J.Prog, args: seq<int>, b: nat, env: J.Env, si: nat, last: nat, acc: J.Env)
    requires last <= |p.stmts| && forall n | si <= n < last && p.stmts[n].Phi? :: PhiDefined(p, args, env, n, b)
    ensures J.EnterFrom(p, args, b, env, si, last, acc).Some?
    ensures var r := J.EnterFrom(p, args, b, env, si, last, acc).value;
      forall n | si <= n < last && p.stmts[n].Phi? :: n in r && r[n].Num?
    decreases last - si
  {
    hide J.PhiValue;
    if si < last {
      if p.stmts[si].Phi? {
        assert PhiDefined(p, args, env, si, b);
        var acc' := acc[si := J.PhiValue(args, env, p.stmts[si].edges, b).value];
        EnterNums(p, args, b, env, si + 1, last, acc');
        EnterFrame(p, args, b, env, si + 1, last, acc');
      } else {
        EnterNums(p, args, b, env, si + 1, last, acc);
      }
    }
  }

  lemma EnterDefined(p: J.Prog, args: seq<int>, path: seq<nat>, env: J.Env, d: nat)
    requires Supported(p) && J.LaidOut(p) && |path| > 0 && J.IsPath(p, path) && J.ArgsOK(p, args) && PhisAssigned(p)
    requires path[|path| - 1] < |p.blocks| && d in p.blocks[path[|path| - 1]].succs && d < |p.blocks|
    requires AllDefined(p, path, p.blocks[path[|path| - 1]].last, env)
    ensures var r := J.EnterFrom(p, args, path[|path| - 1], env, p.blocks[d].first, p.blocks[d].last, env);
      r.Some? && AllDefined(p, path + [d], p.blocks[d].first, r.value)
  {
    hide J.IsPath, AllDefined, Supported, J.LaidOut, J.EnterFrom, PhiDefined;
    var b := path[|path| - 1];
    PathBlock(p, path);
    LastInRange(p, d);
    var first, last := p.blocks[d].first, p.blocks[d].last;
    forall n | first <= n < last && p.stmts[n].Phi? ensures PhiDefined(p, args, env, n, b) {
      AssignedHere(p, b, d, n);
      EdgeDefined(p, args, path, env, n);
    }
    EnterNums(p, args, b, env, first, last, env);
    EnterFrame(p, args, b, env, first, last, env);
    DefinedAfter(p, path, d, env, J.EnterFrom(p, args, b, env, first, last, env).value);
  }

  lemma AssignedHere(p: J.Prog, b: nat, d: nat, n: nat)
    requires PhisAssigned(p) && b < |p.blocks| && d in p.blocks[b].succs && J.In(p, d, n) && n < |p.stmts|
      && p.stmts[n].Phi?
    ensures EdgeOperand(p.stmts[n].edges, b).Some?
  {
  }

  lemma DefinedAfter(p: J.Prog, path: seq<nat>, d: nat, env: J.Env, env': J.Env)
    requires J.LaidOut(p) && |path| > 0 && path[|path| - 1] < |p.blocks| && d < |p.blocks|
    requires AllDefined(p, path, p.blocks[path[|path| - 1]].last, env)
    requires forall n: nat | J.In(p, d, n) && p.stmts[n].Phi? :: n in env' && env'[n].Num?
    requires forall n: nat | n < |p.stmts| && !(J.In(p, d, n) && p.stmts[n].Phi?) ::
      n in env ==> n in env' && env'[n] == env[n]
    ensures AllDefined(p, path + [d], p.blocks[d].first, env')
  {
    var path' := path + [d];
    assert path'[..|path'| - 1] == path;
    forall n: nat | Produces(p, n) && Done(p, path', p.blocks[d].first, n) ensures Defines(p, env', n) {
      if !(J.In(p, d, n) && p.stmts[n].Phi?) {
        assert Owner(p, n) in path;
        assert path == path[..|path| - 1] + [path[|path| - 1]];
        assert Done(p, path, p.blocks[path[|path| - 1]].last, n);
      }
    }
  }

  // ---- runs ----

  ghost predicate Live(p: J.Prog, s: J.State)
    requires J.LaidOut(p)
  {
    match s
    case At(path, env) => J.IsPath(p, path) && AllDefined(p, path, p.blocks[path[|path| - 1]].first, env)
    case Undetermined => false
    case _ => true
  }

  lemma StepLive(p: J.Prog, args: seq<int>, s: J.State)
    requires Supported(p) && J.LaidOut(p) && PhisAssigned(p) && J.ArgsOK(p, args) && Live(p, s)
    ensures Live(p, J.Step(p, args, s))
  {
    hide AllDefined, Supported, J.LaidOut, J.ExecFrom, J.EnterFrom, J.IsPath, PhisAssigned;
    if s.At? {
      PathBlock(p, s.path);
      var b := s.path[|s.path| - 1];
      LastInRange(p, b);
      BlockDefined(p, args, s.path, p.blocks[b].first, s.env);
      match J.ExecFrom(p, args, b, p.blocks[b].first, s.env)
      case Goto(d, env') =>
        SuccInRange(p, b, d);
        EnterDefined(p, args, s.path, env', d);
        PathExtends(p, s.path, d);
      case _ =>
    }
  }

  lemma {:induction false} RunLive(p: J.Prog, args: seq<int>, n: nat)
    requires Supported(p) && J.LaidOut(p) && PhisAssigned(p) && J.NoEntryPhi(p) && J.ArgsOK(p, args)
    ensures Live(p, J.Run(p, args, n))
  {
    if n == 0 {
      EntryCoherent(p);
    } else {
      hide Live, Supported, J.LaidOut;
      RunLive(p, args, n - 1);
      StepLive(p, args, J.Run(p, args, n - 1));
    }
  }

  /** With every phi assigned, a well-formed program is never undetermined; and the emitted function
      returns, aborts or is still running exactly when the program does, and never gets stuck. */
  lemma LoweringDecides(p: J.Prog, args: seq<int>, n: nat)
    requires J.WellFormed(p) && J.ArgsOK(p, args) && PhisAssigned(p)
    ensures !J.Run(p, args, n).Undetermined?
    ensures Compile(p).Some?
    ensures var s, t := J.Run(p, args, n), Machine.Run(Function(Compile(p).value, p), Started(p, args), n + 1);
      && (s.At? <==> t.At?) && (s.Threw? <==> t.Aborted?) && (s.Returned? <==> t.Returned?)
      && (s.Returned? && s.v.Some? ==> (p.ret.Some? && t.v == J.Rep(p.ret.value, s.v.value)))
  {
    hide J.Terminated, J.Typed, J.Ordered, J.Strict, J.LaidOut, Compile, PhisAssigned, J.IsPath,
      Relation.Related, Coherent, AllDefined;
    RunLive(p, args, n);
    LoweringPreservesMeaning(p, args, n);
  }
}

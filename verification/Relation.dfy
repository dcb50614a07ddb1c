/** The simulation relation between a Julia environment and a machine environment, and the execution
    of emitted value statements under it. */
module Relation {
  import opened Wrappers
  import opened Words
  import opened Machine
  import opened Scripts
  import opened Lowering
  import opened EmitRun
  import opened Tracking
  import opened StrictSsa
  import ScriptProofs
  import J = JuliaIR

  /** The id holds the value's representation. */
  predicate Denotes(tenv: Env, id: Id, ty: J.JTy, v: int) {
    id in tenv && ty.Holds(v) && tenv[id] == J.Rep(ty, v)
  }

  predicate RootRelated(p: J.Prog, fin: Ctx, tenv: Env, n: nat, v: J.SVal)
    requires n < |p.stmts|
  {
    match v
    case Num(x) => J.StmtTy(p, n).Some? && n in fin.ssa && Denotes(tenv, fin.ssa[n], J.StmtTy(p, n).value, x)
    case Undef =>
      && p.stmts[n].Phi? && n in fin.ssa && fin.ssa[n] in tenv
      && tenv[fin.ssa[n]] == Val(p.stmts[n].ty.Reg(), 0)
    case Pair(x, f) =>
      && p.stmts[n].Checked? && n in fin.pairs
      && Denotes(tenv, fin.pairs[n].0, p.stmts[n].aty, x)
      && Denotes(tenv, fin.pairs[n].1, J.Bool, if f then 1 else 0)
  }

  ghost predicate Related(p: J.Prog, args: seq<int>, fin: Ctx, env: J.Env, tenv: Env) {
    && J.ArgsOK(p, args) && fin.nargs == |args|
    && (forall k | 0 <= k < |args| :: Denotes(tenv, k, p.args[k], args[k]))
    && (forall n | n in env :: n < |p.stmts|)
    && (forall n | n in env && IsRoot(p, n) :: RootRelated(p, fin, tenv, n, env[n]))
  }

  /** fin is the state at the end of emission. */
  ghost predicate Final(p: J.Prog, fin: Ctx) {
    Sound(p) && Static(p) && Tracks(p, fin, |p.stmts|)
  }

  // ---- reading an SSA operand ----

  /** At a use in scope, the tracked id holds the value; an undefined value is a phi's. */
  lemma {:induction false} Readable(p: J.Prog, args: seq<int>, fin: Ctx, path: seq<nat>, si: nat, env: J.Env,
          tenv: Env, n: nat)
    requires Final(p, fin) && Related(p, args, fin, env, tenv)
    requires J.IsPath(p, path) && Coherent(p, path, si, env)
    requires n in env && J.Reaches(p, n, path[|path| - 1], si) && J.StmtTy(p, n).Some?
    ensures !env[n].Pair? && n in fin.ssa && fin.ssa[n] in tenv
    ensures tenv[fin.ssa[n]].ty == J.StmtTy(p, n).value.Reg()
    ensures env[n].Num? ==> Denotes(tenv, fin.ssa[n], J.StmtTy(p, n).value, env[n].v)
    ensures env[n].Undef? ==> tenv[fin.ssa[n]].bits == 0
    decreases if n < |p.stmts| && p.stmts[n].Phi? then 0 else n + 1
  {
    assert n < |p.stmts| && Emitted(p, n, |p.stmts|);
    if IsRoot(p, n) {
      assert RootRelated(p, fin, tenv, n, env[n]);
    } else {
      CurrentAtUse(p, path, si, n);
      AliasInScope(p, n);
      var w := AliasOf(p, n).value;
      assert UpToDate(p, env, n);
      assert SharesId(p, fin, n);
      assert J.StmtTyped(p, p.stmts[n]);
      if p.stmts[n].Pi? {
        Readable(p, args, fin, path, si, env, tenv, w);
      } else {
        assert RootRelated(p, fin, tenv, w, env[w]);
      }
    }
  }

  // ---- what emitted code leaves alone ----

  /** Related, except perhaps at the statement just being executed. */
  ghost predicate RelatedBut(p: J.Prog, args: seq<int>, fin: Ctx, env: J.Env, tenv: Env, si: nat) {
    && J.ArgsOK(p, args) && fin.nargs == |args|
    && (forall k | 0 <= k < |args| :: Denotes(tenv, k, p.args[k], args[k]))
    && (forall n | n in env :: n < |p.stmts|)
    && (forall n | n in env && n != si && IsRoot(p, n) :: RootRelated(p, fin, tenv, n, env[n]))
  }

  /** c' tracks at most si beyond c. */
  ghost predicate AtMost(c: Ctx, c': Ctx, si: nat) {
    && (forall n | n in c'.ssa && n != si :: n in c.ssa)
    && (forall n | n in c'.pairs && n != si :: n in c.pairs)
  }

  /** Ids allocated for one statement are no other statement's. */
  lemma OthersKept(p: J.Prog, args: seq<int>, fin: Ctx, c: Ctx, c': Ctx, si: nat, s: nat, env: J.Env,
          tenv: Env, tenv': Env)
    requires Related(p, args, fin, env, tenv) && Tracks(p, c, si) && c.next <= c'.next
    requires Later(p, c, fin) && Later(p, c', fin) && AtMost(c, c', s) && Wrote(c, c', tenv, tenv')
    ensures RelatedBut(p, args, fin, env, tenv', s)
  {
    hide Later, AtMost, RootRelated, Values, Pairs;
    forall n | n in env && n != s && IsRoot(p, n) ensures RootRelated(p, fin, tenv', n, env[n]) {
      assert RootRelated(p, fin, tenv, n, env[n]);
      RootKept(p, fin, c, c', si, s, tenv, tenv', n, env[n]);
    }
  }

  lemma RootKept(p: J.Prog, fin: Ctx, c: Ctx, c': Ctx, si: nat, s: nat, tenv: Env, tenv': Env, n: nat, v: J.SVal)
    requires n < |p.stmts| && IsRoot(p, n) && RootRelated(p, fin, tenv, n, v) && n != s
    requires Tracks(p, c, si) && c.next <= c'.next
    requires Later(p, c, fin) && Later(p, c', fin) && AtMost(c, c', s) && Wrote(c, c', tenv, tenv')
    ensures RootRelated(p, fin, tenv', n, v)
  {
    if v.Pair? {
      assert n in c.pairs || n !in c'.pairs;
      assert n in c.pairs ==> fin.pairs[n] == c.pairs[n] && PairEmitted(p, n, si);
    } else {
      assert n in c.ssa || n !in c'.ssa;
      assert n in c.ssa ==> TypedId(c, c.ssa[n], J.StmtTy(p, n).value.Reg());
    }
  }

  lemma QuietKeeps(p: J.Prog, args: seq<int>, fin: Ctx, c: Ctx, c': Ctx, si: nat, env: J.Env, tenv: Env, tenv': Env)
    requires Related(p, args, fin, env, tenv) && Tracks(p, c, si) && Quiet(c, c')
    requires Later(p, c', fin) && Wrote(c, c', tenv, tenv')
    ensures Related(p, args, fin, env, tenv')
  {
    hide Later, Frame, Tracks, Wrote, RootRelated, Denotes, IsRoot;
    LaterQuiet(p, c, c');
    LaterTrans(p, c, c', fin);
    LaterNext(p, c, c');
    OthersKept(p, args, fin, c, c', si, |p.stmts|, env, tenv, tenv');
  }

  lemma LaterNext(p: J.Prog, c: Ctx, c': Ctx)
    requires Later(p, c, c')
    ensures c.next <= c'.next
  {
  }

  lemma SetRelated(p: J.Prog, args: seq<int>, fin: Ctx, env: J.Env, tenv: Env, si: nat, v: J.SVal)
    requires RelatedBut(p, args, fin, env, tenv, si) && si < |p.stmts|
    requires IsRoot(p, si) ==> RootRelated(p, fin, tenv, si, v)
    ensures Related(p, args, fin, env[si := v], tenv)
  {
    hide RootRelated;
  }

  // ---- executing one statement ----

  /** A point of a source run: about to execute si, having visited path. */
  datatype Point = Point(p: J.Prog, args: seq<int>, fin: Ctx, path: seq<nat>, si: nat, env: J.Env)

  ghost predicate OnRun(x: Point) {
    && Final(x.p, x.fin) && J.IsPath(x.p, x.path) && Coherent(x.p, x.path, x.si, x.env)
  }

  /** The emitter has reached the point, and its code so far leads to a related environment. */
  ghost predicate InStep(x: Point, c: Ctx, start: Env, tenv: Env) {
    && Tracks(x.p, c, x.si) && Arrives(c, start, tenv)
    && Related(x.p, x.args, x.fin, x.env, tenv)
  }

  ghost predicate OperandHere(x: Point, o: J.Operand, ty: J.JTy) {
    && |x.path| > 0
    && OperandOK(x.p, o, ty, x.si)
    && (o.SSA? ==> J.Reaches(x.p, o.n, x.path[|x.path| - 1], x.si))
  }

  lemma ResolveRun(x: Point, c: Ctx, o: J.Operand, ty: J.JTy, v: int, start: Env, tenv: Env) returns (tenv': Env)
    requires OnRun(x) && InStep(x, c, start, tenv) && Later(x.p, c, x.fin)
    requires OperandHere(x, o, ty) && J.Eval(x.args, x.env, o) == Some(v)
    ensures var (c1, id) := Resolve(c, o);
      && id.Some? && Arrives(c1, start, tenv') && Carries(c1, tenv', id.value, J.Rep(ty, v)) && ty.Holds(v)
      && Wrote(c, c1, tenv, tenv')
  {
    hide Pow2, Wrap, Exec, J.Reaches;
    match o
    case Lit(t, u) =>
      IconstRun(c, ty.Reg(), v, start, tenv);
      tenv' := tenv[c.next := J.Rep(ty, v)];
    case Arg(k) =>
      tenv' := tenv;
      assert Denotes(tenv, k, ty, v);
    case SSA(n) =>
      tenv' := tenv;
      Readable(x.p, x.args, x.fin, x.path, x.si, x.env, tenv, n);
      assert Emitted(x.p, n, x.si);
  }

  lemma CarriesWrote(c: Ctx, c': Ctx, env: Env, env': Env, id: Id, v: Value)
    requires Carries(c, env, id, v) && Straight(c, c') && Wrote(c, c', env, env')
    ensures Carries(c', env', id, v)
  {
  }

  lemma Resolve2Run(x: Point, c: Ctx, o1: J.Operand, o2: J.Operand, ty: J.JTy, u: int, v: int, start: Env, tenv: Env)
    returns (tenv': Env)
    requires OnRun(x) && InStep(x, c, start, tenv)
    requires OperandHere(x, o1, ty) && OperandHere(x, o2, ty) && Later(x.p, Resolve2(c, o1, o2).0, x.fin)
    requires J.Eval(x.args, x.env, o1) == Some(u) && J.Eval(x.args, x.env, o2) == Some(v)
    ensures var (c1, ab) := Resolve2(c, o1, o2);
      && ab.Some? && InStep(x, c1, start, tenv') && ty.Holds(u) && ty.Holds(v)
      && Carries(c1, tenv', ab.value.0, J.Rep(ty, u)) && Carries(c1, tenv', ab.value.1, J.Rep(ty, v)) && Valid(c1)
  {
    hide J.Eval, Frame, Later, Related, Coherent, Carries, Wrote, Exec, Tracks, Final, J.IsPath, TypedId, Valid,
      J.Reaches;
    TracksValid(x.p, c, x.si);
    ResolveTracks(x.p, c, o1, ty, x.si);
    var (c1, a) := Resolve(c, o1);
    ResolveTracks(x.p, c1, o2, ty, x.si);
    var (c2, b) := Resolve(c1, o2);
    LaterTrans(x.p, c1, c2, x.fin);
    LaterTrans(x.p, c, c1, x.fin);
    var t1 := ResolveRun(x, c, o1, ty, u, start, tenv);
    QuietKeeps(x.p, x.args, x.fin, c, c1, x.si, x.env, tenv, t1);
    tenv' := ResolveRun(x, c1, o2, ty, v, start, t1);
    QuietKeeps(x.p, x.args, x.fin, c1, c2, x.si, x.env, t1, tenv');
    CarriesWrote(c1, c2, t1, tenv', a.value, J.Rep(ty, u));
  }

  lemma LaterAt(p: J.Prog, c: Ctx, fin: Ctx, n: nat)
    requires Later(p, c, fin)
    ensures n in c.ssa ==> n in fin.ssa && fin.ssa[n] == c.ssa[n]
    ensures n in c.pairs ==> n in fin.pairs && fin.pairs[n] == c.pairs[n]
  {
  }

  /** Running a table on two carried operands. */
  lemma TableRun(c: Ctx, ops: seq<Op>, a: Id, b: Id, vs: seq<Value>, start: Env, tenv: Env) returns (tenv': Env)
    requires Closed(ops, 2) && |ops| > 0 && Solves(ops, 2, vs) && Arrives(c, start, tenv)
    requires Carries(c, tenv, a, vs[0]) && Carries(c, tenv, b, vs[1])
    ensures var (c', ids) := EmitOps(c, ops, 0, [a, b]);
      && Arrives(c', start, tenv') && Wrote(c, c', tenv, tenv')
      && Carries(c', tenv', ids[2], vs[2]) && Carries(c', tenv', ids[|ids| - 1], vs[|vs| - 1])
  {
    hide Pow2, EvalOp, EmitOps, Exec, Closed, Carries;
    tenv' := OpsRun(c, ops, 0, [a, b], vs, start, tenv);
  }

  /** c' is c2 with statement si tracked. */
  ghost predicate Tagged(c: Ctx, c2: Ctx, c': Ctx, si: nat) {
    && Valid(c') && c'.bodies == c2.bodies && c'.cur == c2.cur && c'.types == c2.types && c'.next == c2.next
    && AtMost(c, c', si)
  }

  lemma TaggedRun(c: Ctx, c2: Ctx, c': Ctx, si: nat, start: Env, tenv: Env, tenv': Env)
    requires Tagged(c, c2, c', si) && Arrives(c2, start, tenv') && Wrote(c, c2, tenv, tenv')
    ensures Arrives(c', start, tenv') && Wrote(c, c', tenv, tenv') && AtMost(c, c', si)
  {
  }

  lemma CallTag(c: Ctx, si: nat, op: J.Intrinsic, ty: J.JTy, a: Id, b: Id)
    requires Valid(c)
    ensures var (c2, ids) := EmitOps(c, CallScript(op, ty), 0, [a, b]);
      var c' := EmitCall(c, si, op, ty, a, b);
      Tagged(c, c2, c', si) && si in c'.ssa && c'.ssa[si] == ids[2]
  {
    hide EmitOps, CallScript;
    var c2 := EmitOps(c, CallScript(op, ty), 0, [a, b]).0;
    assert Straight(c, c2);
  }

  lemma PairTag(c: Ctx, si: nat, kind: J.Arith, ty: J.JTy, a: Id, b: Id)
    requires Valid(c)
    ensures var (c2, ids) := EmitOps(c, CheckedScript(kind, ty), 0, [a, b]);
      var c' := EmitPair(c, si, kind, ty, a, b);
      Tagged(c, c2, c', si) && si in c'.pairs && c'.pairs[si] == (ids[2], ids[|ids| - 1])
  {
    hide EmitOps, CheckedScript;
  }

  lemma CarriesDenotes(c: Ctx, tenv: Env, id: Id, ty: J.JTy, v: int, x: Value)
    requires Carries(c, tenv, id, x) && x == J.Rep(ty, v) && ty.Holds(v)
    ensures Denotes(tenv, id, ty, v)
  {
    hide Pow2, Wrap;
  }

  /** Emitting a call: its result is tracked for si and holds the call's value. */
  lemma EmitCallRun(c: Ctx, si: nat, op: J.Intrinsic, ty: J.JTy, a: Id, b: Id, u: int, v: int, z: int,
          start: Env, tenv: Env)
    returns (tenv': Env)
    requires Valid(c) && Arrives(c, start, tenv)
    requires ScriptProofs.CallTyped(op, ty) && ty.Holds(u) && ty.Holds(v) && J.Apply(op, ty, u, v) == Some(z)
    requires Carries(c, tenv, a, J.Rep(ty, u)) && Carries(c, tenv, b, J.Rep(ty, v))
    ensures var c' := EmitCall(c, si, op, ty, a, b);
      && Arrives(c', start, tenv') && Wrote(c, c', tenv, tenv') && AtMost(c, c', si)
      && si in c'.ssa && Denotes(tenv', c'.ssa[si], ScriptProofs.ResultTy(op, ty), z)
  {
    hide *;
    var (c2, ids) := EmitOps(c, CallScript(op, ty), 0, [a, b]);
    CallTag(c, si, op, ty, a, b);
    var vs := ScriptProofs.CallCorrect(op, ty, u, v);
    tenv' := TableRun(c, CallScript(op, ty), a, b, vs, start, tenv);
    TaggedRun(c, c2, EmitCall(c, si, op, ty, a, b), si, start, tenv, tenv');
    CarriesDenotes(c2, tenv', ids[2], ScriptProofs.ResultTy(op, ty), z, vs[2]);
  }

  lemma EmitPairRun(c: Ctx, si: nat, kind: J.Arith, ty: J.JTy, a: Id, b: Id, u: int, v: int, start: Env, tenv: Env)
    returns (tenv': Env)
    requires Valid(c) && Arrives(c, start, tenv)
    requires ty != J.Bool && ty.Holds(u) && ty.Holds(v)
    requires Carries(c, tenv, a, J.Rep(ty, u)) && Carries(c, tenv, b, J.Rep(ty, v))
    ensures var c' := EmitPair(c, si, kind, ty, a, b);
      var z := J.Exact(kind, u, v);
      && Arrives(c', start, tenv') && Wrote(c, c', tenv, tenv') && AtMost(c, c', si)
      && si in c'.pairs && Denotes(tenv', c'.pairs[si].0, ty, ty.Of(z))
      && Denotes(tenv', c'.pairs[si].1, J.Bool, if ty.Holds(z) then 0 else 1)
  {
    hide *;
    var (c2, ids) := EmitOps(c, CheckedScript(kind, ty), 0, [a, b]);
    PairTag(c, si, kind, ty, a, b);
    var z := J.Exact(kind, u, v);
    var vs := ScriptProofs.CheckedCorrect(kind, ty, u, v);
    tenv' := TableRun(c, CheckedScript(kind, ty), a, b, vs, start, tenv);
    TaggedRun(c, c2, EmitPair(c, si, kind, ty, a, b), si, start, tenv, tenv');
    PairDenotes(c2, tenv', ids[2], ids[|ids| - 1], ty, z, vs[2], vs[|vs| - 1]);
  }

  /** A checked remainder used directly is tracked as its value, and as the pair of that value and a flag,
      which for signed operands says whether the quotient overflows on exactly the listed ones. */
  lemma RemainderPairRun(c: Ctx, si: nat, ty: J.JTy, a: Id, b: Id, u: int, v: int, start: Env, tenv: Env)
    returns (tenv': Env, flag: bool)
    requires Valid(c) && Arrives(c, start, tenv)
    requires ty != J.Bool && ty.Holds(u) && ty.Holds(v) && v != 0
    requires Carries(c, tenv, a, J.Rep(ty, u)) && Carries(c, tenv, b, J.Rep(ty, v))
    ensures var c' := EmitCall(c, si, J.CheckedRem, ty, a, b);
      && Arrives(c', start, tenv') && si in c'.ssa && si in c'.pairs && c'.pairs[si].0 == c'.ssa[si]
      && Denotes(tenv', c'.ssa[si], ty, TruncRem(u, v)) && Denotes(tenv', c'.pairs[si].1, J.Bool, if flag then 1 else 0)
    ensures !ty.IsSigned() ==> !flag
    ensures ty.IsSigned() ==>
      var least := -Pow2(ty.Bits() - 1);
      (flag == !ty.Holds(TruncDiv(u, v)) <==> u == 0 || (u == -1 && v != least) || (u == least && v == -1))
  {
    hide *;
    var ops := RemScript(ty.IsSigned(), ty.Reg());
    RemainderScript(ty);
    var (c2, ids) := EmitOps(c, ops, 0, [a, b]);
    RemainderTag(c, si, ty, a, b);
    var vs;
    vs, flag := ScriptProofs.RemainderFlag(ty, u, v);
    tenv' := TableRun(c, ops, a, b, vs, start, tenv);
    TaggedRun(c, c2, EmitCall(c, si, J.CheckedRem, ty, a, b), si, start, tenv, tenv');
    ScriptProofs.RemFits(ty, u, v);
    CarriesDenotes(c2, tenv', ids[2], ty, TruncRem(u, v), vs[2]);
    FlagDenotes(c2, tenv', ids[|ids| - 1], flag, vs[|vs| - 1]);
  }

  lemma RemainderScript(ty: J.JTy)
    ensures CallScript(J.CheckedRem, ty) == RemScript(ty.IsSigned(), ty.Reg()) && |CallScript(J.CheckedRem, ty)| > 0
  {
    hide RemScript;
  }

  lemma RemainderTag(c: Ctx, si: nat, ty: J.JTy, a: Id, b: Id)
    requires Valid(c)
    ensures var (c2, ids) := EmitOps(c, RemScript(ty.IsSigned(), ty.Reg()), 0, [a, b]);
      var c' := EmitCall(c, si, J.CheckedRem, ty, a, b);
      && Tagged(c, c2, c', si) && si in c'.ssa && c'.ssa[si] == ids[2]
      && si in c'.pairs && c'.pairs[si] == (ids[2], ids[|ids| - 1])
  {
    hide EmitOps, RemScript, Tagged, Valid, Frame, CallScript;
    RemainderScript(ty);
    CallTag(c, si, J.CheckedRem, ty, a, b);
  }

  lemma FlagDenotes(c: Ctx, tenv: Env, id: Id, flag: bool, x: Value)
    requires Carries(c, tenv, id, x) && x == ScriptProofs.Flag(flag)
    ensures Denotes(tenv, id, J.Bool, if flag then 1 else 0)
  {
    hide Pow2, Wrap;
    ScriptProofs.FlagIsRep(flag);
  }

  lemma PairDenotes(c: Ctx, tenv: Env, i: Id, j: Id, ty: J.JTy, z: int, x: Value, f: Value)
    requires ty != J.Bool && Carries(c, tenv, i, x) && Carries(c, tenv, j, f)
    requires x == J.Rep(ty, ty.Of(z)) && f == ScriptProofs.Flag(!ty.Holds(z))
    ensures Denotes(tenv, i, ty, ty.Of(z)) && Denotes(tenv, j, J.Bool, if ty.Holds(z) then 0 else 1)
  {
    hide Pow2, Wrap, Carries, Denotes;
    ScriptProofs.RepOf(ty, z);
    CarriesDenotes(c, tenv, i, ty, ty.Of(z), x);
    BoolHolds(!ty.Holds(z));
    CarriesDenotes(c, tenv, j, J.Bool, if ty.Holds(z) then 0 else 1, f);
  }

  lemma BoolHolds(b: bool)
    ensures J.JTy.Bool.Holds(if b then 1 else 0) && ScriptProofs.Flag(b) == J.Rep(J.Bool, if b then 1 else 0)
  {
    ScriptProofs.FlagIsRep(b);
  }

  lemma EmitCallFaults(c: Ctx, si: nat, op: J.Intrinsic, ty: J.JTy, a: Id, b: Id, u: int, v: int, start: Env, tenv: Env)
    requires Valid(c) && Arrives(c, start, tenv)
    requires ScriptProofs.CallTyped(op, ty) && ty.Holds(u) && ty.Holds(v) && J.Apply(op, ty, u, v).None?
    requires Carries(c, tenv, a, J.Rep(ty, u)) && Carries(c, tenv, b, J.Rep(ty, v))
    ensures Faults(EmitCall(c, si, op, ty, a, b), start)
  {
    hide Pow2, Wrap, EmitOps, Arith, Exec, CallScript, Eval, EvalOp, J.Apply, Straight, Open, Frame, Carries;
    ScriptProofs.CallFaults(op, ty, u, v);
    OpsFault(c, CallScript(op, ty), [a, b], [J.Rep(ty, u), J.Rep(ty, v)], start, tenv);
  }

  /** A statement's result becomes part of the relation. */
  lemma Conclude(x: Point, c: Ctx, c': Ctx, v: J.SVal, tenv: Env, tenv': Env)
    requires Related(x.p, x.args, x.fin, x.env, tenv) && Tracks(x.p, c, x.si) && x.si < |x.p.stmts|
    requires Later(x.p, c, c') && Later(x.p, c', x.fin) && AtMost(c, c', x.si) && Wrote(c, c', tenv, tenv')
    requires IsRoot(x.p, x.si) ==> RootRelated(x.p, c', tenv', x.si, v)
    ensures Related(x.p, x.args, x.fin, x.env[x.si := v], tenv')
  {
    hide Tracks, Related, AtMost, Wrote;
    LaterAt(x.p, c', x.fin, x.si);
    LaterTrans(x.p, c, c', x.fin);
    OthersKept(x.p, x.args, x.fin, c, c', x.si, x.si, x.env, tenv, tenv');
    SetRelated(x.p, x.args, x.fin, x.env, tenv', x.si, v);
  }

  /** The emitted code does what the statement does. */
  ghost predicate Simulates(x: Point, c: Ctx, start: Env, tenv': Env)
    requires Valid(c) && x.si < |x.p.stmts| && !x.p.stmts[x.si].IsTerminator() && |x.path| > 0
  {
    Outcomes(x, EmitValue(c, x.p, x.si).0, start, tenv',
             J.ExecStmt(x.p, x.args, x.path[|x.path| - 1], x.si, x.env))
  }

  ghost predicate Outcomes(x: Point, c': Ctx, start: Env, tenv': Env, out: J.Outcome) {
    match out
    case Fall(env') => Arrives(c', start, tenv') && Related(x.p, x.args, x.fin, env', tenv')
    case Throw => Faults(c', start)
    case _ => true
  }

  lemma CallRun(x: Point, c: Ctx, c': Ctx, s: J.Stmt, a: Id, b: Id, u: int, v: int, start: Env, tenv: Env)
    returns (tenv': Env)
    requires InStep(x, c, start, tenv) && x.si < |x.p.stmts| && s == x.p.stmts[x.si] && s.Call? && Valid(c)
    requires ScriptProofs.CallTyped(s.op, s.aty) && s.aty.Holds(u) && s.aty.Holds(v)
    requires Carries(c, tenv, a, J.Rep(s.aty, u)) && Carries(c, tenv, b, J.Rep(s.aty, v))
    requires c' == EmitCall(c, x.si, s.op, s.aty, a, b) && Later(x.p, c, c') && Later(x.p, c', x.fin)
    ensures Outcomes(x, c', start, tenv', match J.Apply(s.op, s.aty, u, v)
      case Some(z) => J.Outcome.Fall(x.env[x.si := J.Num(z)]) case None => J.Throw)
  {
    hide EmitCall, Later, Related, Carries, Wrote, Exec, Tracks, J.Apply, AtMost, RootRelated, Valid, Denotes,
      ScriptProofs.CallTyped, Wrap, Pow2;
    tenv' := tenv;
    match J.Apply(s.op, s.aty, u, v)
    case Some(z) =>
      tenv' := EmitCallRun(c, x.si, s.op, s.aty, a, b, u, v, z, start, tenv);
      CallRoot(x.p, c', x.si, z, tenv');
      Conclude(x, c, c', J.Num(z), tenv, tenv');
    case None =>
      EmitCallFaults(c, x.si, s.op, s.aty, a, b, u, v, start, tenv);
  }

  lemma CallRoot(p: J.Prog, c: Ctx, si: nat, z: int, tenv: Env)
    requires si < |p.stmts| && p.stmts[si].Call? && si in c.ssa
    requires Denotes(tenv, c.ssa[si], ScriptProofs.ResultTy(p.stmts[si].op, p.stmts[si].aty), z)
    ensures RootRelated(p, c, tenv, si, J.Num(z))
  {
    hide Denotes;
  }

  lemma PairRoot(p: J.Prog, c: Ctx, si: nat, z: int, f: bool, tenv: Env)
    requires si < |p.stmts| && p.stmts[si].Checked? && si in c.pairs
    requires Denotes(tenv, c.pairs[si].0, p.stmts[si].aty, z)
      && Denotes(tenv, c.pairs[si].1, J.Bool, if f then 1 else 0)
    ensures RootRelated(p, c, tenv, si, J.Pair(z, f))
  {
    hide Denotes;
  }

  lemma PairRun(x: Point, c: Ctx, c': Ctx, s: J.Stmt, a: Id, b: Id, u: int, v: int, start: Env, tenv: Env)
    returns (tenv': Env)
    requires InStep(x, c, start, tenv) && x.si < |x.p.stmts| && s == x.p.stmts[x.si] && s.Checked? && Valid(c)
    requires s.aty != J.Bool && s.aty.Holds(u) && s.aty.Holds(v)
    requires Carries(c, tenv, a, J.Rep(s.aty, u)) && Carries(c, tenv, b, J.Rep(s.aty, v))
    requires c' == EmitPair(c, x.si, s.kind, s.aty, a, b) && Later(x.p, c, c') && Later(x.p, c', x.fin)
    ensures var z := J.Exact(s.kind, u, v);
      Outcomes(x, c', start, tenv', J.Outcome.Fall(x.env[x.si := J.Pair(s.aty.Of(z), !s.aty.Holds(z))]))
  {
    hide EmitPair, Later, Related, Carries, Wrote, Exec, Tracks, J.Exact, AtMost, RootRelated, Valid, Denotes,
      Wrap, Pow2;
    var z := J.Exact(s.kind, u, v);
    tenv' := EmitPairRun(c, x.si, s.kind, s.aty, a, b, u, v, start, tenv);
    PairRoot(x.p, c', x.si, s.aty.Of(z), !s.aty.Holds(z), tenv');
    Conclude(x, c, c', J.Pair(s.aty.Of(z), !s.aty.Holds(z)), tenv, tenv');
  }

  /** Calls and checked pairs, from their statement. */
  lemma BinaryRun(x: Point, c: Ctx, start: Env, tenv: Env) returns (tenv': Env)
    requires OnRun(x) && InStep(x, c, start, tenv) && x.si < |x.p.stmts| && Valid(c) && |x.path| > 0
    requires x.p.stmts[x.si].Call? || x.p.stmts[x.si].Checked?
    requires var s := x.p.stmts[x.si]; OperandHere(x, s.x, s.aty) && OperandHere(x, s.y, s.aty)
    requires Later(x.p, EmitValue(c, x.p, x.si).0, x.fin)
    ensures Simulates(x, c, start, tenv')
  {
    hide Later, Related, Coherent, Carries, OperandHere, Exec, Tracks, EmitCall, EmitPair, Resolve2, Outcomes,
      Valid, J.Apply, J.Exact, Straight, J.IsPath, EmitValue, J.Typed, J.Ordered, J.LaidOut, Sound,
      ScriptProofs.CallTyped;
    var s := x.p.stmts[x.si];
    BinaryTracks(x.p, c, x.si);
    var (c1, ab) := Resolve2(c, s.x, s.y);
    var c' := EmitValue(c, x.p, x.si).0;
    LaterTrans(x.p, c1, c', x.fin);
    tenv' := tenv;
    var eu, ev := J.Eval(x.args, x.env, s.x), J.Eval(x.args, x.env, s.y);
    if eu.Some? && ev.Some? {
      var (a, b) := ab.value;
      var t1 := Resolve2Run(x, c, s.x, s.y, s.aty, eu.value, ev.value, start, tenv);
      if s.Call? {
        tenv' := CallRun(x, c1, c', s, a, b, eu.value, ev.value, start, t1);
      } else {
        tenv' := PairRun(x, c1, c', s, a, b, eu.value, ev.value, start, t1);
      }
    } else {
      UndefinedAny(x, c', start, tenv');
    }
  }

  lemma UndefinedAny(x: Point, c': Ctx, start: Env, tenv': Env)
    ensures Outcomes(x, c', start, tenv', J.Undefined)
  {
  }

  lemma PiRun(x: Point, c: Ctx, start: Env, tenv: Env) returns (tenv': Env)
    requires OnRun(x) && InStep(x, c, start, tenv) && x.si < |x.p.stmts| && Valid(c) && |x.path| > 0
    requires x.p.stmts[x.si].Pi? && OperandHere(x, x.p.stmts[x.si].v, x.p.stmts[x.si].ty)
    requires Later(x.p, EmitValue(c, x.p, x.si).0, x.fin)
    ensures Simulates(x, c, start, tenv')
  {
    hide Later, Related, Coherent, OperandHere, Exec, Tracks, Resolve, J.IsPath, J.Typed, J.Ordered, J.LaidOut,
      Sound, Frame, J.Reaches, Denotes, Pow2, Wrap, TypedId;
    var s := x.p.stmts[x.si];
    NameTracks(x.p, c, x.si);
    OperandTracked(x, c, s.v, s.ty);
    var (c1, id) := Resolve(c, s.v);
    var c' := Record(c1, x.si, id.value);
    LaterTrans(x.p, c, c', x.fin);
    tenv' := tenv;
    match J.Eval(x.args, x.env, s.v)
    case Some(u) =>
      tenv' := ResolveRun(x, c, s.v, s.ty, u, start, tenv);
      CarriesDenotes(c1, tenv', id.value, s.ty, u, J.Rep(s.ty, u));
      Conclude(x, c, c', J.Num(u), tenv, tenv');
    case None =>
  }

  lemma OperandTracked(x: Point, c: Ctx, o: J.Operand, ty: J.JTy)
    requires OperandHere(x, o, ty) && Tracks(x.p, c, x.si) && Valid(c)
    ensures Resolve(c, o).1.Some?
  {
    ResolveTracks(x.p, c, o, ty, x.si);
  }

  lemma FieldRun(x: Point, c: Ctx, start: Env, tenv: Env) returns (tenv': Env)
    requires OnRun(x) && InStep(x, c, start, tenv) && x.si < |x.p.stmts| && Valid(c) && |x.path| > 0
    requires x.p.stmts[x.si].GetField?
    requires Later(x.p, EmitValue(c, x.p, x.si).0, x.fin)
    ensures Simulates(x, c, start, tenv')
  {
    hide Later, Related, Coherent, Exec, Tracks, J.IsPath, J.Typed, J.Ordered, J.LaidOut, Sound, Frame, Denotes,
      J.Component;
    var s := x.p.stmts[x.si];
    NameTracks(x.p, c, x.si);
    tenv' := tenv;
    if s.pair in x.env && x.env[s.pair].Pair? {
      Conclude(x, c, EmitValue(c, x.p, x.si).0, J.Component(x.env[s.pair], s.second), tenv, tenv);
    }
  }

  /** Every statement that is not a terminator. */
  lemma ValueRun(x: Point, c: Ctx, start: Env, tenv: Env) returns (tenv': Env)
    requires OnRun(x) && InStep(x, c, start, tenv) && x.si < |x.p.stmts| && Valid(c) && |x.path| > 0
    requires J.In(x.p, x.path[|x.path| - 1], x.si) && !x.p.stmts[x.si].IsTerminator()
    requires Later(x.p, EmitValue(c, x.p, x.si).0, x.fin)
    ensures Simulates(x, c, start, tenv')
  {
    hide Later, Related, Coherent, Exec, Tracks, J.IsPath, J.Ordered, J.LaidOut, J.Strict, Frame, OperandHere,
      J.Apply, Resolve2;
    var s := x.p.stmts[x.si];
    assert J.StmtTyped(x.p, s);
    if s.Call? || s.Checked? {
      UseHere(x, s.x, s.aty);
      UseHere(x, s.y, s.aty);
      tenv' := BinaryRun(x, c, start, tenv);
    } else if s.Pi? {
      UseHere(x, s.v, s.ty);
      tenv' := PiRun(x, c, start, tenv);
    } else if s.GetField? {
      tenv' := FieldRun(x, c, start, tenv);
    } else {
      tenv' := tenv;
    }
  }

  /** An operand of a well-formed statement is typed, tracked and in scope. */
  lemma UseHere(x: Point, o: J.Operand, ty: J.JTy)
    requires Final(x.p, x.fin) && x.si < |x.p.stmts| && |x.path| > 0 && J.In(x.p, x.path[|x.path| - 1], x.si)
    requires o in x.p.stmts[x.si].Operands() && J.HasTy(x.p, o, ty)
    ensures OperandHere(x, o, ty)
  {
    hide Tracks, J.Typed, J.Reaches;
  }
}

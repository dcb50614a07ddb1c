/** What the verifier's checks are for: a function that passes them never gets stuck, whatever its arguments
    and however long it runs.  It can only go on, return a value of its type, or trap. */
module Soundness {
  import opened Wrappers
  import opened Words
  import opened Machine
  import opened Lowering
  import opened BlockShape
  import opened ValidCode
  import opened Verifier
  import opened ValidFunction
  import J = JuliaIR

  /** Every value has the type its id was given. */
  ghost predicate EnvTyped(types: map<Id, Ty>, env: Env) {
    forall id | id in env :: Has(types, id, env[id].ty)
  }

  // ---- one instruction ----

  ghost predicate Safe(types: map<Id, Ty>, params: seq<seq<Id>>, ret: Ty, i: Instr, env: Env, o: Outcome) {
    match o
    case Fall(env') => !i.IsTerminator() && EnvTyped(types, env') && env'.Keys == env.Keys + {i.dst}
    case Goto(t, vals, env') =>
      && t in Targets(i) && t < |params| && env' == env && |vals| == |params[t]|
      && forall k | 0 <= k < |vals| :: Has(types, params[t][k], vals[k].ty)
    case Ret(v) => v.ty == ret
    case Trapped => true
    case Bad => false
  }

  lemma ArgsTyped(types: map<Id, Ty>, params: seq<seq<Id>>, args: seq<Id>, t: nat, env: Env)
    requires EnvTyped(types, env) && Matching(types, args, params, t) && forall id | id in args :: id in env
    ensures Defined(env, args)
    ensures forall k | 0 <= k < |args| :: Has(types, params[t][k], Lookup(env, args)[k].ty)
  {
    forall k | 0 <= k < |args| ensures args[k] in env { assert args[k] in args; }
  }

  /** An instruction that defines a value. */
  lemma DefinitionSafe(types: map<Id, Ty>, params: seq<seq<Id>>, ret: Ty, i: Instr, env: Env)
    requires EnvTyped(types, env) && TypeOK(types, params, ret, i) && !i.IsTerminator()
    requires forall id | id in Uses(i) :: id in env
    ensures Safe(types, params, ret, i, env, Exec1(i, env))
  {
    hide Arith, Compare, OfBool, Matching, Pow2, Wrap, Signed;
    OneByte();
    match i
    case Select(_, c, t, e) => assert Uses(i) == [c, t, e] && c in Uses(i) && t in Uses(i) && e in Uses(i);
    case Binary(_, _, l, r) => assert Uses(i) == [l, r] && l in Uses(i) && r in Uses(i);
    case Icmp(_, _, l, r) => assert Uses(i) == [l, r] && l in Uses(i) && r in Uses(i);
    case Uextend(_, _, v) => assert Uses(i) == [v] && v in Uses(i);
    case Sextend(_, _, v) => assert Uses(i) == [v] && v in Uses(i);
    case Ireduce(_, _, v) => assert Uses(i) == [v] && v in Uses(i);
    case _ =>
  }

  lemma BranchSafe(types: map<Id, Ty>, params: seq<seq<Id>>, ret: Ty, i: Instr, env: Env)
    requires EnvTyped(types, env) && TypeOK(types, params, ret, i) && i.Brif?
    requires forall id | id in Uses(i) :: id in env
    ensures Safe(types, params, ret, i, env, Exec1(i, env))
  {
    hide Matching, Pow2, Lookup, Defined;
    assert Uses(i) == [i.c] + i.thnArgs + i.elsArgs;
    assert i.c in Uses(i);
    forall id | id in i.thnArgs ensures id in env { assert id in Uses(i); }
    forall id | id in i.elsArgs ensures id in env { assert id in Uses(i); }
    ArgsTyped(types, params, i.thnArgs, i.thn, env);
    ArgsTyped(types, params, i.elsArgs, i.els, env);
    MatchingSize(types, params, i.thnArgs, i.thn);
    MatchingSize(types, params, i.elsArgs, i.els);
  }

  lemma InstrSafe(types: map<Id, Ty>, params: seq<seq<Id>>, ret: Ty, i: Instr, env: Env)
    requires EnvTyped(types, env) && TypeOK(types, params, ret, i) && forall id | id in Uses(i) :: id in env
    ensures Safe(types, params, ret, i, env, Exec1(i, env))
  {
    hide Matching, Pow2, Lookup, Defined;
    match i
    case Jump(t, args) =>
      ArgsTyped(types, params, args, t, env);
      MatchingSize(types, params, args, t);
    case Brif(_, _, _, _, _) => BranchSafe(types, params, ret, i, env);
    case Return(v) => assert Uses(i) == [v] && v in Uses(i);
    case Trap =>
    case _ => DefinitionSafe(types, params, ret, i, env);
  }

  lemma OneByte()
    ensures OfBool(I8, true).ty == I8 == OfBool(I8, false).ty
  {
  }

  lemma MatchingSize(types: map<Id, Ty>, params: seq<seq<Id>>, args: seq<Id>, t: nat)
    requires Matching(types, args, params, t)
    ensures t < |params| && |args| == |params[t]|
  {
  }

  // ---- one block ----

  /** At instruction k of block b, on a path that ends there: what the blocks before supplied is held, and so
      are the block's parameters and its definitions so far. */
  ghost predicate Held(f: Func, path: seq<nat>, b: nat, k: nat, env: Env)
    requires b < |f.bodies| == |f.params| && k <= |f.bodies[b]|
  {
    && EnvTyped(f.types, env)
    && (forall e: nat, id | e in path && e != b && Supplies(f, e, id) :: id in env)
    && (forall id | id in f.params[b] :: id in env)
    && (forall id | DefinedBefore(f.bodies[b], k, id) :: id in env)
  }

  lemma UsesHeld(f: Func, path: seq<nat>, b: nat, k: nat, env: Env, id: Id)
    requires b < |f.bodies| == |f.params| && k < |f.bodies[b]| && Held(f, path, b, k, env)
    requires FlowPath(f, path) && path[|path| - 1] == b && Available(f, b, k, id)
    ensures id in env
  {
    hide DefinedBefore, EnvTyped, Edge, Supplies;
    if id !in f.params[b] && !DefinedBefore(f.bodies[b], k, id) {
      var e: nat :| e != b && FlowDominates(f, e, b) && Supplies(f, e, id);
      assert e in path;
    }
  }

  lemma DefinedNext(body: seq<Instr>, k: nat, id: Id)
    requires k < |body| && DefinedBefore(body, k + 1, id)
    ensures DefinedBefore(body, k, id) || Defines(body[k], id)
  {
  }

  /** One instruction on. */
  lemma HeldNext(f: Func, path: seq<nat>, b: nat, k: nat, env: Env, env': Env)
    requires b < |f.bodies| == |f.params| && k < |f.bodies[b]| && Held(f, path, b, k, env)
    requires EnvTyped(f.types, env') && !f.bodies[b][k].IsTerminator() && env'.Keys == env.Keys + {f.bodies[b][k].dst}
    ensures Held(f, path, b, k + 1, env')
  {
    hide DefinedBefore, EnvTyped, Supplies;
    forall id | DefinedBefore(f.bodies[b], k + 1, id) ensures id in env' { DefinedNext(f.bodies[b], k, id); }
    forall e: nat, id | e in path && e != b && Supplies(f, e, id) ensures id in env' { assert id in env; }
  }

  /** How a block can be left. */
  ghost predicate LeftSafely(f: Func, path: seq<nat>, b: nat, o: Outcome)
    requires b < |f.bodies| == |f.params|
  {
    match o
    case Goto(t, vals, env) =>
      && Edge(f, b, t) && 0 < t < |f.bodies| && |vals| == |f.params[t]|
      && (forall k | 0 <= k < |vals| :: Has(f.types, f.params[t][k], vals[k].ty))
      && Held(f, path, b, |f.bodies[b]|, env)
    case Ret(v) => v.ty == f.ret
    case Trapped => true
    case _ => false
  }

  lemma {:induction false} BlockSafe(f: Func, path: seq<nat>, b: nat, k: nat, env: Env)
    requires Verifies(f) && b < |f.bodies| && k < |f.bodies[b]| && Held(f, path, b, k, env)
    requires FlowPath(f, path) && path[|path| - 1] == b
    ensures LeftSafely(f, path, b, Exec(f.bodies[b][k..], env))
    decreases |f.bodies[b]| - k
  {
    hide Held, EnvTyped, Available, TypeOK, Exec1, OneDefinition, ParamsDistinct, FlowPath, Complete, LeftSafely, Safe;
    var body := f.bodies[b];
    var i := body[k];
    assert InstrVerifies(f, b, k);
    forall id | id in Uses(i) ensures id in env { UsesHeld(f, path, b, k, env, id); }
    HeldTyped(f, path, b, k, env);
    InstrSafe(f.types, f.params, f.ret, i, env);
    NotBad(f, i, env, Exec1(i, env));
    assert body[k..][0] == i && body[k..][1..] == body[k + 1..];
    match Exec1(i, env)
    case Fall(env') =>
      FallsOn(f, b, k, env, env');
      HeldNext(f, path, b, k, env, env');
      BlockSafe(f, path, b, k + 1, env');
    case Goto(t, vals, env') => LeavesSafely(f, path, b, k, env, t, vals, env');
    case Ret(v) => ReturnsSafely(f, path, b, i, env, v);
    case Trapped => TrapsSafely(f, path, b);
    case Bad =>
  }

  lemma HeldTyped(f: Func, path: seq<nat>, b: nat, k: nat, env: Env)
    requires b < |f.bodies| == |f.params| && k <= |f.bodies[b]| && Held(f, path, b, k, env)
    ensures EnvTyped(f.types, env)
  {
    hide EnvTyped, DefinedBefore, Supplies;
  }

  /** Only the last instruction is a terminator. */
  lemma FallsOn(f: Func, b: nat, k: nat, env: Env, env': Env)
    requires Verifies(f) && b < |f.bodies| && k < |f.bodies[b]|
    requires Safe(f.types, f.params, f.ret, f.bodies[b][k], env, Outcome.Fall(env'))
    ensures EnvTyped(f.types, env') && !f.bodies[b][k].IsTerminator() && env'.Keys == env.Keys + {f.bodies[b][k].dst}
    ensures k + 1 < |f.bodies[b]|
  {
    hide EnvTyped, OneDefinition, ParamsDistinct, InstrVerifies;
    assert Complete(f.bodies[b]);
  }

  lemma LeavesSafely(f: Func, path: seq<nat>, b: nat, k: nat, env: Env, t: nat, vals: seq<Value>, env': Env)
    requires Verifies(f) && b < |f.bodies| && k < |f.bodies[b]| && Held(f, path, b, k, env)
    requires Safe(f.types, f.params, f.ret, f.bodies[b][k], env, Goto(t, vals, env')) && InstrVerifies(f, b, k)
    ensures LeftSafely(f, path, b, Goto(t, vals, env'))
  {
    hide EnvTyped, OneDefinition, ParamsDistinct, Available, TypeOK, Supplies;
    assert Complete(f.bodies[b]);
    assert f.bodies[b][k].IsTerminator();
    assert k == |f.bodies[b]| - 1;
    forall id | DefinedBefore(f.bodies[b], |f.bodies[b]|, id) ensures id in env { DefinedNext(f.bodies[b], k, id); }
    assert Edge(f, b, t);
  }

  lemma ReturnsSafely(f: Func, path: seq<nat>, b: nat, i: Instr, env: Env, v: Value)
    requires b < |f.bodies| == |f.params| && Safe(f.types, f.params, f.ret, i, env, Ret(v))
    ensures LeftSafely(f, path, b, Ret(v))
  {
  }

  lemma TrapsSafely(f: Func, path: seq<nat>, b: nat)
    requires b < |f.bodies| == |f.params|
    ensures LeftSafely(f, path, b, Trapped)
  {
  }

  lemma NotBad(f: Func, i: Instr, env: Env, o: Outcome)
    requires Safe(f.types, f.params, f.ret, i, env, o)
    ensures !o.Bad?
  {
  }

  // ---- entering a block ----

  lemma {:induction false} BindTyped(types: map<Id, Ty>, env: Env, ids: seq<Id>, vals: seq<Value>)
    requires EnvTyped(types, env) && |ids| == |vals| && forall k | 0 <= k < |ids| :: Has(types, ids[k], vals[k].ty)
    ensures EnvTyped(types, Bind(env, ids, vals))
    ensures forall id | id in env || id in ids :: id in Bind(env, ids, vals)
    decreases |ids|
  {
    if ids != [] {
      forall k | 0 <= k < |ids[1..]| ensures Has(types, ids[1..][k], vals[1..][k].ty) {
        assert ids[1..][k] == ids[k + 1] && vals[1..][k] == vals[k + 1];
      }
      BindTyped(types, env[ids[0] := vals[0]], ids[1..], vals[1..]);
      forall id | id in ids ensures id == ids[0] || id in ids[1..] {}
    }
  }

  /** Where a run can be. */
  ghost predicate Sound(f: Func, path: seq<nat>, s: State) {
    match s
    case At(b, env) =>
      && b < |f.bodies| == |f.params| && FlowPath(f, path) && path[|path| - 1] == b && Held(f, path, b, 0, env)
    case Returned(v) => v.ty == f.ret
    case Aborted => true
    case Stuck => false
  }

  lemma PathOn(f: Func, path: seq<nat>, b: nat, t: nat)
    requires FlowPath(f, path) && path[|path| - 1] == b && Edge(f, b, t)
    ensures FlowPath(f, path + [t])
  {
    hide Edge;
    var q := path + [t];
    forall i | 0 <= i < |q| - 1 ensures Edge(f, q[i], q[i + 1]) {
      if i < |path| - 1 { assert Edge(f, path[i], path[i + 1]); }
    }
  }

  lemma Entered(f: Func, path: seq<nat>, b: nat, t: nat, vals: seq<Value>, env: Env)
    requires b < |f.bodies| == |f.params| && LeftSafely(f, path, b, Goto(t, vals, env))
    requires FlowPath(f, path) && path[|path| - 1] == b
    ensures Accepts(f, f.params[t], vals) && Sound(f, path + [t], At(t, Bind(env, f.params[t], vals)))
  {
    hide EnvTyped, Edge, FlowPath;
    var env' := Bind(env, f.params[t], vals);
    BindTyped(f.types, env, f.params[t], vals);
    PathOn(f, path, b, t);
    forall e: nat, id | e in path + [t] && e != t && Supplies(f, e, id) ensures id in env' {
      assert e in path;
      if e == b { SuppliedHere(f, path, b, env, id); }
    }
    NothingBefore(f.bodies[t]);
  }

  lemma SuppliedHere(f: Func, path: seq<nat>, b: nat, env: Env, id: Id)
    requires b < |f.bodies| == |f.params| && Held(f, path, b, |f.bodies[b]|, env) && Supplies(f, b, id)
    ensures id in env
  {
    hide EnvTyped, DefinedBefore;
  }

  lemma NothingBefore(body: seq<Instr>)
    ensures forall id :: !DefinedBefore(body, 0, id)
  {
  }

  lemma StepSound(f: Func, path: seq<nat>, s: State) returns (path': seq<nat>)
    requires Verifies(f) && Sound(f, path, s)
    ensures Sound(f, path', Step(f, s))
  {
    hide Verifies, Held, FlowPath, LeftSafely, Exec, Accepts;
    path' := path;
    if s.At? {
      NotEmpty(f, s.block);
      assert f.bodies[s.block][0..] == f.bodies[s.block];
      BlockSafe(f, path, s.block, 0, s.env);
      var o := Exec(f.bodies[s.block], s.env);
      Leaves(f, path, s.block, o);
      match o
      case Goto(t, vals, env) =>
        TargetInside(f, path, s.block, t, vals, env);
        Entered(f, path, s.block, t, vals, env);
        path' := path + [t];
      case Ret(v) => ReturnTyped(f, path, s.block, v);
      case Trapped =>
      case _ =>
    }
  }

  lemma NotEmpty(f: Func, b: nat)
    requires Verifies(f) && b < |f.bodies|
    ensures 0 < |f.bodies[b]|
  {
    hide InstrVerifies, ParamsDistinct, OneDefinition;
  }

  lemma TargetInside(f: Func, path: seq<nat>, b: nat, t: nat, vals: seq<Value>, env: Env)
    requires b < |f.bodies| == |f.params| && LeftSafely(f, path, b, Goto(t, vals, env))
    ensures t < |f.params|
  {
    hide Held, Edge;
  }

  lemma ReturnTyped(f: Func, path: seq<nat>, b: nat, v: Value)
    requires b < |f.bodies| == |f.params| && LeftSafely(f, path, b, Ret(v))
    ensures v.ty == f.ret
  {
  }

  lemma Leaves(f: Func, path: seq<nat>, b: nat, o: Outcome)
    requires b < |f.bodies| == |f.params| && LeftSafely(f, path, b, o)
    ensures o.Goto? || o.Ret? || o.Trapped?
  {
    hide Held, Edge;
  }

  // ---- whole runs ----

  /** The arguments, and nothing of another type. */
  ghost predicate Entry(f: Func, env: Env) {
    && 0 < |f.params| && EnvTyped(f.types, env) && forall id | id in f.params[0] :: id in env
  }

  lemma {:induction false} RunSound(f: Func, env: Env, n: nat) returns (path: seq<nat>)
    requires Verifies(f) && Entry(f, env)
    ensures Sound(f, path, Run(f, At(0, env), n))
  {
    hide Verifies, Held, FlowPath, Step;
    if n == 0 {
      path := [0];
      AtEntry(f, env);
    } else {
      var before := RunSound(f, env, n - 1);
      path := StepSound(f, before, Run(f, At(0, env), n - 1));
    }
  }

  lemma AtEntry(f: Func, env: Env)
    requires Verifies(f) && Entry(f, env)
    ensures Sound(f, [0], At(0, env))
  {
    hide EnvTyped, InstrVerifies, ParamsDistinct, OneDefinition;
    NothingBefore(f.bodies[0]);
  }

  /** A function that passes the verifier never gets stuck, and what it returns has its result's type. */
  lemma VerifiedRuns(f: Func, env: Env, n: nat)
    requires Verifies(f) && Entry(f, env)
    ensures var s := Run(f, At(0, env), n); !s.Stuck? && (s.Returned? ==> s.v.ty == f.ret)
  {
    hide Verifies, Held, FlowPath, Run;
    var path := RunSound(f, env, n);
  }

  /** So it is for what is compiled from any well-formed program, on any arguments, where Julia's own meaning
      is undefined too. */
  lemma CompiledRuns(p: J.Prog, env: Env, n: nat)
    requires J.LaidOut(p) && J.WellFormed(p)
    requires Compile(p).Some? ==> Entry(Function(Compile(p).value, p), env)
    ensures Compile(p).Some?
    ensures var s := Run(Function(Compile(p).value, p), At(0, env), n);
      !s.Stuck? && (s.Returned? ==> s.v.ty == if p.ret.None? then I64 else p.ret.value.Reg())
  {
    hide Compile, J.WellFormed, Verifies, FollowsJulia, Run, Entry;
    CompiledCodeVerifies(p);
    VerifiedRuns(Function(Compile(p).value, p), env, n);
  }
}

/** Running emitted straight-line code: an emitted table leaves its values under the ids it returns
    and writes nothing else. */
module EmitRun {
  import opened Wrappers
  import opened Words
  import opened Machine
  import opened Scripts
  import opened Lowering

  /** Running the current block's code so far from start leads to env. */
  ghost predicate Arrives(c: Ctx, start: Env, env: Env) {
    Valid(c) && Exec(c.bodies[c.cur], start) == Outcome.Fall(env)
  }

  /** The code so far traps. */
  ghost predicate Faults(c: Ctx, start: Env) {
    Valid(c) && Exec(c.bodies[c.cur], start) == Trapped
  }

  predicate TypedId(c: Ctx, id: Id, ty: Ty) {
    id < c.next && id in c.types && c.types[id] == ty
  }

  /** id is a value of c's code, and holds v in env. */
  predicate Carries(c: Ctx, env: Env, id: Id, v: Value) {
    TypedId(c, id, v.ty) && id in env && env[id] == v
  }

  /** Nothing but ids allocated between c and c' has changed. */
  ghost predicate Wrote(c: Ctx, c': Ctx, env: Env, env': Env) {
    forall id | id in env && !(c.next <= id < c'.next) :: id in env' && env'[id] == env[id]
  }

  // ---- one instruction ----

  lemma PushRun(c: Ctx, i: Instr, start: Env, env: Env)
    requires Arrives(c, start, env)
    ensures Exec(Push(c, i).bodies[c.cur], start) == Exec1(i, env)
  {
    ExecAppend(c.bodies[c.cur], [i], start);
    OneInstr(i, env);
  }

  lemma OneInstr(i: Instr, env: Env)
    ensures Exec([i], env) == Exec1(i, env)
  {
    hide Exec1;
    assert [i][1..] == [];
  }

  lemma FaultStays(c: Ctx, c': Ctx, start: Env)
    requires Faults(c, start) && Valid(c') && Frame(c, c')
    ensures Faults(c', start)
  {
    var a, b := c.bodies[c.cur], c'.bodies[c.cur];
    assert b == a + b[|a|..];
    ExecAppend(a, b[|a|..], start);
  }

  /** An instruction that defines the next value as v. */
  lemma DefRun(c: Ctx, i: Instr, v: Value, start: Env, env: Env)
    requires Arrives(c, start, env) && !i.IsTerminator() && Exec1(i, env) == Outcome.Fall(env[c.next := v])
    ensures var (c', id) := Def(c, i, v.ty);
      Arrives(c', start, env[id := v]) && Carries(c', env[id := v], id, v) && Wrote(c, c', env, env[id := v])
  {
    hide Exec1, Exec;
    PushRun(c, i, start, env);
  }

  lemma IconstRun(c: Ctx, ty: Ty, imm: int, start: Env, env: Env)
    requires Arrives(c, start, env)
    ensures var (c', id) := EmitIconst(c, ty, imm);
      var env' := env[id := Val(ty, Wrap(imm, ty))];
      Arrives(c', start, env') && Carries(c', env', id, Val(ty, Wrap(imm, ty))) && Wrote(c, c', env, env')
  {
    hide Pow2, Wrap, Exec;
    DefRun(c, Instr.Iconst(c.next, ty, imm), Val(ty, Wrap(imm, ty)), start, env);
  }

  // ---- one table entry ----

  /** The operands' ids carry the operands' values. */
  ghost predicate Inputs(c: Ctx, env: Env, ids: seq<Id>, vs: seq<Value>) {
    |ids| <= |vs| && forall j | 0 <= j < |ids| :: Carries(c, env, ids[j], vs[j])
  }

  lemma OpRun(c: Ctx, op: Op, ids: seq<Id>, vs: seq<Value>, v: Value, start: Env, env: Env) returns (env': Env)
    requires Arrives(c, start, env) && op.Uses(|ids|) && Inputs(c, env, ids, vs)
    requires EvalOp(op, vs, |ids|) == Is(v)
    ensures var (c', id) := EmitOp(c, op, ids);
      Arrives(c', start, env') && Carries(c', env', id, v) && Wrote(c, c', env, env') && id >= c.next
  {
    hide Pow2, Wrap, Exec, Arith, Compare, OfBool;
    match op
    case Const(ty, imm) =>
      IconstRun(c, ty, imm, start, env);
      env' := env[c.next := v];
    case Bin(o, l, r) =>
      assert Carries(c, env, ids[l], vs[l]) && Carries(c, env, ids[r], vs[r]);
      DefRun(c, Instr.Binary(c.next, o, ids[l], ids[r]), v, start, env);
      env' := env[c.next := v];
    case Cmp(cond, l, r) =>
      env' := CmpRun(c, cond, ids[l], ids[r], vs[l], vs[r], start, env);
    case Sel(cv, t, e) =>
      assert Carries(c, env, ids[cv], vs[cv]) && Carries(c, env, ids[t], vs[t]) && Carries(c, env, ids[e], vs[e]);
      DefRun(c, Instr.Select(c.next, ids[cv], ids[t], ids[e]), v, start, env);
      env' := env[c.next := v];
  }

  lemma SameBits(b: bool)
    ensures OfBool(I8, b).bits == OfBool(I32, b).bits && OfBool(I8, b).ty == I8 && OfBool(I32, b).ty == I32
  {
    hide Pow2;
  }

  lemma CmpRun(c: Ctx, cond: Cond, l: Id, r: Id, x: Value, y: Value, start: Env, env: Env) returns (env': Env)
    requires Arrives(c, start, env) && Carries(c, env, l, x) && Carries(c, env, r, y) && x.ty == y.ty
    ensures var (c', id) := IcmpBool(c, cond, l, r);
      && Arrives(c', start, env') && Carries(c', env', id, OfBool(I32, Compare(cond, x.ty, x.bits, y.bits)))
      && Wrote(c, c', env, env') && id >= c.next
  {
    hide Pow2, Exec, Compare, OfBool, Wrap, Arith;
    var b := Compare(cond, x.ty, x.bits, y.bits);
    SameBits(b);
    var v, w := OfBool(I8, b), OfBool(I32, b);
    DefRun(c, Icmp(c.next, cond, l, r), v, start, env);
    var (c1, id1) := Def(c, Icmp(c.next, cond, l, r), I8);
    var env1 := env[id1 := v];
    DefRun(c1, Instr.Uextend(c1.next, I32, id1), w, start, env1);
    env' := env1[c1.next := w];
  }

  /** The same for register types alone. */
  lemma OpTypes(c: Ctx, op: Op, ids: seq<Id>, vs: seq<Value>, v: Value)
    requires Valid(c) && op.Uses(|ids|) && |ids| <= |vs|
    requires forall j | 0 <= j < |ids| :: TypedId(c, ids[j], vs[j].ty)
    requires EvalOp(op, vs, |ids|) == Is(v)
    ensures var (c', id) := EmitOp(c, op, ids);
      TypedId(c', id, v.ty) && id >= c.next
  {
    hide Pow2, Wrap, Arith, Compare;
    match op
    case Const(_, _) =>
    case Bin(o, l, r) => assert TypedId(c, ids[l], vs[l].ty) && TypedId(c, ids[r], vs[r].ty);
    case Cmp(cond, l, r) => assert TypedId(c, ids[l], vs[l].ty) && TypedId(c, ids[r], vs[r].ty);
    case Sel(cv, t, e) => assert TypedId(c, ids[t], vs[t].ty);
  }

  // ---- whole tables ----

  lemma {:induction false} OpsRun(c: Ctx, ops: seq<Op>, i: nat, ids: seq<Id>, vs: seq<Value>, start: Env, env: Env)
    returns (env': Env)
    requires Valid(c) && i <= |ops| && i <= |ids| && Closed(ops, |ids| - i)
    requires Solves(ops, |ids| - i, vs) && Arrives(c, start, env) && Inputs(c, env, ids, vs)
    ensures var (c', ids') := EmitOps(c, ops, i, ids);
      && Arrives(c', start, env') && Inputs(c', env', ids', vs) && |ids'| == |vs| && Wrote(c, c', env, env')
      && ids <= ids'
    decreases |ops| - i
  {
    hide EvalOp, EmitOp, Exec, Pow2;
    if i == |ops| {
      env' := env;
    } else {
      var v := vs[|ids|];
      assert EvalOp(ops[i], vs, |ids| - i + i) == Is(vs[|ids| - i + i]);
      var (c1, id) := EmitOp(c, ops[i], ids);
      var env1 := OpRun(c, ops[i], ids, vs, v, start, env);
      forall j | 0 <= j < |ids| + 1 ensures Carries(c1, env1, (ids + [id])[j], vs[j]) {
        if j < |ids| { assert Carries(c, env, ids[j], vs[j]); }
      }
      env' := OpsRun(c1, ops, i + 1, ids + [id], vs, start, env1);
    }
  }

  lemma {:induction false} OpsTypes(c: Ctx, ops: seq<Op>, i: nat, ids: seq<Id>, vs: seq<Value>)
    requires Valid(c) && i <= |ops| && i <= |ids| && Closed(ops, |ids| - i) && |ids| <= |vs|
    requires Solves(ops, |ids| - i, vs)
    requires forall j | 0 <= j < |ids| :: TypedId(c, ids[j], vs[j].ty)
    ensures var (c', ids') := EmitOps(c, ops, i, ids);
      && |ids'| == |vs| && (forall j | 0 <= j < |ids'| :: TypedId(c', ids'[j], vs[j].ty))
      && ids <= ids' && forall j | |ids| <= j < |ids'| :: c.next <= ids'[j]
    decreases |ops| - i
  {
    hide EvalOp, EmitOp, Pow2;
    if i < |ops| {
      var v := vs[|ids|];
      assert EvalOp(ops[i], vs, |ids| - i + i) == Is(vs[|ids| - i + i]);
      var (c1, id) := EmitOp(c, ops[i], ids);
      OpTypes(c, ops[i], ids, vs, v);
      forall j | 0 <= j < |ids| + 1 ensures TypedId(c1, (ids + [id])[j], vs[j].ty) {
        if j < |ids| { assert TypedId(c, ids[j], vs[j].ty); }
      }
      OpsTypes(c1, ops, i + 1, ids + [id], vs);
    }
  }

  /** A table whose first entry faults makes the emitted code trap. */
  lemma OpsFault(c: Ctx, ops: seq<Op>, ids: seq<Id>, vs: seq<Value>, start: Env, env: Env)
    requires Arrives(c, start, env) && Closed(ops, |ids|) && |vs| == |ids| && Inputs(c, env, ids, vs)
    requires Eval(ops, 0, vs) == Faulted && ops != [] && EvalOp(ops[0], vs, |vs|) == Fault
    ensures Faults(EmitOps(c, ops, 0, ids).0, start)
  {
    hide Pow2, Arith, Exec, Eval;
    var op := ops[0];
    assert op.Bin?;
    assert Carries(c, env, ids[op.l], vs[op.l]) && Carries(c, env, ids[op.r], vs[op.r]);
    var (c1, id) := EmitOp(c, op, ids);
    PushRun(c, Instr.Binary(c.next, op.op, ids[op.l], ids[op.r]), start, env);
    FaultStays(c1, EmitOps(c1, ops, 1, ids + [id]).0, start);
  }
}

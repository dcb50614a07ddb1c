/** Jumps, branches and returns with registers of any width: what reaches the target, whatever was emitted
    before.  In well-formed programs widths agree; after a statement has failed they need not. */
module Coercion {
  import opened Wrappers
  import opened Words
  import opened Machine
  import opened Lowering
  import opened EmitRun
  import opened StructLowering
  import J = JuliaIR

  /** u is v brought to the width of ty: zero-extended, or its low half; other types are left alone. */
  predicate Brought(v: Value, ty: Ty, u: Value) {
    if v.ty == I32 && ty == I64 then u.ty == I64 && u.bits == v.bits
    else if v.ty == I64 && ty == I32 then u.ty == I32 && u.bits == v.bits % Pow2(32)
    else u == v
  }

  function LowHalf(v: Value): Value
    ensures LowHalf(v).bits < Pow2(32)
  {
    Val(I32, Wrap(v.bits, I32))
  }

  lemma CoerceRun(c: Ctx, id: Id, ty: Ty, v: Value, start: Env, env: Env) returns (env': Env, u: Value)
    requires Arrives(c, start, env) && Carries(c, env, id, v)
    ensures var (c', w) := Coerce(c, id, ty);
      && Arrives(c', start, env') && Carries(c', env', w, u) && StructLowering.Later(c, c', env, env')
      && Brought(v, ty, u)
  {
    hide Pow2, Exec;
    env', u := env, v;
    if v.ty == I32 && ty == I64 {
      WidenRun(c, id, v, start, env);
      env', u := env[c.next := Wide(v)], Wide(v);
    } else if v.ty == I64 && ty == I32 {
      u := LowHalf(v);
      env' := env[c.next := u];
      NarrowRun(c, id, v, start, env);
    }
  }

  lemma NarrowRun(c: Ctx, id: Id, v: Value, start: Env, env: Env)
    requires Arrives(c, start, env) && Carries(c, env, id, v) && v.ty == I64
    ensures var (c', w) := Def(c, Ireduce(c.next, I32, id), I32);
      var env' := env[w := LowHalf(v)];
      && Arrives(c', start, env') && Carries(c', env', w, LowHalf(v)) && StructLowering.Later(c, c', env, env')
      && LowHalf(v).bits == v.bits % Pow2(32)
  {
    hide Pow2, Exec;
    DefRun(c, Ireduce(c.next, I32, id), LowHalf(v), start, env);
  }

  // ---- argument lists ----

  ghost predicate AllCarry(c: Ctx, env: Env, ids: seq<Id>, vs: seq<Value>) {
    |ids| == |vs| && forall i | 0 <= i < |ids| :: Carries(c, env, ids[i], vs[i])
  }

  /** Each argument is brought to the width of the parameter in its place; surplus ones are left alone. */
  ghost predicate AllBrought(c: Ctx, vs: seq<Value>, params: seq<Id>, us: seq<Value>) {
    |us| == |vs| && forall i | 0 <= i < |vs| ::
      if i < |params| then Brought(vs[i], TyOf(c, params[i]), us[i]) else us[i] == vs[i]
  }

  lemma AllCarryOn(c: Ctx, c': Ctx, env: Env, env': Env, ids: seq<Id>, vs: seq<Value>)
    requires AllCarry(c, env, ids, vs) && StructLowering.Later(c, c', env, env')
    ensures AllCarry(c', env', ids, vs)
  {
    hide Carries, StructLowering.Later;
    forall i | 0 <= i < |ids| ensures Carries(c', env', ids[i], vs[i]) { CarriesOn(c, c', env, env', ids[i], vs[i]); }
  }

  /** Parameters are values, whose types last. */
  ghost predicate Params(c: Ctx, params: seq<Id>) {
    forall i | 0 <= i < |params| :: params[i] in c.types
  }

  lemma ParamsOn(c: Ctx, c': Ctx, params: seq<Id>)
    requires Params(c, params) && Frame(c, c')
    ensures Params(c', params) && forall i | 0 <= i < |params| :: TyOf(c', params[i]) == TyOf(c, params[i])
  {
  }

  lemma LaterSame(c: Ctx, env: Env)
    ensures StructLowering.Later(c, c, env, env)
  {
  }

  lemma {:induction false} CoerceAllRun(c: Ctx, ids: seq<Id>, params: seq<Id>, vs: seq<Value>, start: Env, env: Env)
    returns (env': Env, us: seq<Value>)
    requires Arrives(c, start, env) && AllCarry(c, env, ids, vs) && Params(c, params)
    ensures var (c', ws) := CoerceAll(c, ids, params);
      && Arrives(c', start, env') && AllCarry(c', env', ws, us) && StructLowering.Later(c, c', env, env')
      && AllBrought(c, vs, params, us)
    decreases |ids|
  {
    hide Carries, StructLowering.Later, Brought, Coerce, Exec, Frame;
    env', us := env, [];
    if ids == [] {
      LaterSame(c, env);
    } else {
      var rest := if params == [] then [] else params[1..];
      var (c1, w) := if params == [] then (c, ids[0]) else Coerce(c, ids[0], TyOf(c, params[0]));
      var env1, u := env, vs[0];
      if params == [] { LaterSame(c, env); }
      else { env1, u := CoerceRun(c, ids[0], TyOf(c, params[0]), vs[0], start, env); }
      SameFrame(c);
      AllCarryOn(c, c1, env, env1, ids, vs);
      ParamsOn(c, c1, params);
      var us1;
      env', us1 := CoerceAllRun(c1, ids[1..], rest, vs[1..], start, env1);
      us := [u] + us1;
      var (c2, ws) := CoerceAll(c1, ids[1..], rest);
      StructLowering.LaterTrans(c, c1, c2, env, env1, env');
      CarriesOn(c1, c2, env1, env', w, u);
      Prepend(c2, env', w, ws, u, us1);
      PrependBrought(c, c1, vs, params, u, us1);
    }
  }

  lemma SameFrame(c: Ctx)
    requires Valid(c)
    ensures Frame(c, c)
  {
  }

  lemma Prepend(c: Ctx, env: Env, w: Id, ws: seq<Id>, u: Value, us: seq<Value>)
    requires Carries(c, env, w, u) && AllCarry(c, env, ws, us)
    ensures AllCarry(c, env, [w] + ws, [u] + us)
  {
    hide Carries;
  }

  lemma PrependBrought(c: Ctx, c1: Ctx, vs: seq<Value>, params: seq<Id>, u: Value, us: seq<Value>)
    requires vs != [] && if params == [] then u == vs[0] else Brought(vs[0], TyOf(c, params[0]), u)
    requires AllBrought(c1, vs[1..], if params == [] then [] else params[1..], us)
    requires forall i | 0 <= i < |params| :: TyOf(c1, params[i]) == TyOf(c, params[i])
    ensures AllBrought(c, vs, params, [u] + us)
  {
    hide Brought;
    forall i | 1 <= i < |vs|
      ensures if i < |params| then Brought(vs[i], TyOf(c, params[i]), us[i - 1]) else us[i - 1] == vs[i]
    {
      assert vs[1..][i - 1] == vs[i];
    }
  }

  // ---- leaving a block ----

  lemma LookedUp(c: Ctx, env: Env, ids: seq<Id>, vs: seq<Value>)
    requires AllCarry(c, env, ids, vs)
    ensures Defined(env, ids) && Lookup(env, ids) == vs
  {
  }

  /** A jump arrives with every argument brought to its parameter's width. */
  lemma JumpRun(c: Ctx, target: nat, args: seq<Id>, vs: seq<Value>, start: Env, env: Env)
    returns (env': Env, us: seq<Value>)
    requires Arrives(c, start, env) && AllCarry(c, env, args, vs) && target < |c.params| && Params(c, c.params[target])
    ensures Exec(EmitJump(c, target, args).bodies[c.cur], start) == Goto(target, us, env')
    ensures AllBrought(c, vs, c.params[target], us)
  {
    hide Exec, AllCarry, AllBrought, CoerceAll;
    env', us := CoerceAllRun(c, args, c.params[target], vs, start, env);
    var (c1, ws) := CoerceAll(c, args, c.params[target]);
    LookedUp(c1, env', ws, us);
    PushRun(c1, Jump(target, ws), start, env');
  }

  /** A branch on a register of any integer width goes by its low byte. */
  lemma BranchRun(c: Ctx, cond: Id, v: Value, thn: nat, thnArgs: seq<Id>, ts: seq<Value>, els: nat, elsArgs: seq<Id>,
                  es: seq<Value>, start: Env, env: Env)
    returns (env': Env, us: seq<Value>)
    requires Arrives(c, start, env) && Carries(c, env, cond, v) && v.ty in {I8, I32, I64}
    requires AllCarry(c, env, thnArgs, ts) && AllCarry(c, env, elsArgs, es)
    requires thn < |c.params| && els < |c.params| && Params(c, c.params[thn]) && Params(c, c.params[els])
    ensures var taken := v.bits % Pow2(8) != 0;
      && Exec(EmitBrif(c, cond, thn, thnArgs, els, elsArgs).bodies[c.cur], start)
          == Goto(if taken then thn else els, us, env')
      && (if taken then AllBrought(c, ts, c.params[thn], us) else AllBrought(c, es, c.params[els], us))
  {
    hide Exec, AllCarry, AllBrought, CoerceAll, Carries, StructLowering.Later, Params, Frame, Pow2;
    var env1, us1 := CoerceAllRun(c, thnArgs, c.params[thn], ts, start, env);
    var (c1, ws1) := CoerceAll(c, thnArgs, c.params[thn]);
    AllCarryOn(c, c1, env, env1, elsArgs, es);
    CarriesOn(c, c1, env, env1, cond, v);
    ParamsOn(c, c1, c.params[els]);
    var env2, us2 := CoerceAllRun(c1, elsArgs, c.params[els], es, start, env1);
    var (c2, ws2) := CoerceAll(c1, elsArgs, c.params[els]);
    AllCarryOn(c1, c2, env1, env2, ws1, us1);
    CarriesOn(c1, c2, env1, env2, cond, v);
    BroughtAlike(c, c1, es, c.params[els], us2);
    SameBlock(c, c1);
    SameBlock(c1, c2);
    env' := ConditionRun(c2, cond, v, thn, ws1, us1, els, ws2, us2, start, env2);
    us := if v.bits % Pow2(8) != 0 then us1 else us2;
  }

  lemma SameBlock(c: Ctx, c': Ctx)
    requires Straight(c, c')
    ensures c'.cur == c.cur
  {
  }

  lemma BroughtAlike(c: Ctx, c1: Ctx, vs: seq<Value>, params: seq<Id>, us: seq<Value>)
    requires AllBrought(c1, vs, params, us)
    requires forall i | 0 <= i < |params| :: TyOf(c1, params[i]) == TyOf(c, params[i])
    ensures AllBrought(c, vs, params, us)
  {
    hide Brought;
  }

  /** The condition, reduced to a byte unless it is one. */
  lemma ConditionRun(c: Ctx, cond: Id, v: Value, thn: nat, ws: seq<Id>, us: seq<Value>, els: nat, xs: seq<Id>,
                     ys: seq<Value>, start: Env, env: Env)
    returns (env': Env)
    requires Arrives(c, start, env) && Carries(c, env, cond, v) && v.ty in {I8, I32, I64}
    requires AllCarry(c, env, ws, us) && AllCarry(c, env, xs, ys)
    ensures var (c', cv) := if TyOf(c, cond) == I8 then (c, cond) else Def(c, Ireduce(c.next, I8, cond), I8);
      Exec(Push(c', Brif(cv, thn, ws, els, xs)).bodies[c.cur], start)
        == if v.bits % Pow2(8) != 0 then Goto(thn, us, env') else Goto(els, ys, env')
  {
    hide Exec, AllCarry, Pow2;
    env' := env;
    if v.ty == I8 {
      ModSmall(v.bits, Pow2(8));
      LookedUp(c, env, ws, us);
      LookedUp(c, env, xs, ys);
      PushRun(c, Brif(cond, thn, ws, els, xs), start, env);
    } else {
      ByteBound(v.bits);
      var b: Value := Val(I8, v.bits % Pow2(8));
      env' := env[c.next := b];
      DefRun(c, Ireduce(c.next, I8, cond), b, start, env);
      var (c', cv) := Def(c, Ireduce(c.next, I8, cond), I8);
      AllCarryOn(c, c', env, env', ws, us);
      AllCarryOn(c, c', env, env', xs, ys);
      LookedUp(c', env', ws, us);
      LookedUp(c', env', xs, ys);
      PushRun(c', Brif(cv, thn, ws, els, xs), start, env');
    }
  }

  lemma ByteBound(x: nat)
    ensures x % Pow2(8) < Pow2(8) && x % Pow2(8) == Wrap(x, I8)
  {
  }

  /** A return gives its register, brought to the width of the function's result; a function that returns
      nothing returns sixty-four bits. */
  lemma ReturnsRun(c: Ctx, p: J.Prog, id: Id, v: Value, start: Env, env: Env) returns (u: Value)
    requires Arrives(c, start, env) && Carries(c, env, id, v)
    ensures Exec(EmitReturn(c, p, id).bodies[c.cur], start) == Ret(u)
    ensures Brought(v, if p.ret.None? then I64 else p.ret.value.Reg(), u)
  {
    hide Exec, Coerce, Brought;
    var env';
    env', u := CoerceRun(c, id, RetTy(p), v, start, env);
    var (c1, w) := Coerce(c, id, RetTy(p));
    PushRun(c1, Return(w), start, env');
  }

  /** And returning nothing returns zero. */
  lemma NothingReturned(c: Ctx, p: J.Prog, b: nat, start: Env, env: Env) returns (u: Value)
    requires Valid(c) && J.LaidOut(p) && b < |p.blocks| && |c.params| == |p.blocks| + 1 && Arrives(c, start, env)
    ensures Exec(EmitTerminator(c, p, b, J.ReturnNothing).0.bodies[c.cur], start) == Ret(u)
    ensures u.bits == 0 && u.ty == if p.ret.None? then I64 else p.ret.value.Reg()
  {
    hide Exec, EmitReturn, Brought, Pow2;
    IconstRun(c, I64, 0, start, env);
    var (c1, z) := EmitIconst(c, I64, 0);
    var zero: Value := Val(I64, Wrap(0, I64));
    ModSmall(0, Pow2(I64));
    ModSmall(0, Pow2(32));
    u := ReturnsRun(c1, p, z, zero, start, env[z := zero]);
    ZeroBrought(zero, if p.ret.None? then I64 else p.ret.value.Reg(), u);
  }

  lemma ZeroBrought(v: Value, ty: Ty, u: Value)
    requires v == Val(I64, 0) && Brought(v, ty, u) && ty in {I32, I64}
    ensures u == Val(ty, 0)
  {
    hide Pow2;
    ModSmall(0, Pow2(32));
  }
}

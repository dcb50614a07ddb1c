/** The part of Cranelift IR the emitter produces: basic blocks with parameters, whose bodies are
    plain instruction lists.  That a body ends in exactly one terminator is a property to prove,
    not something the representation guarantees. */
module Machine {
  import opened Wrappers
  import opened Words

  /** A register type is its width in bits. */
  type Ty = w: nat | w > 1 witness 8

  const I8: Ty := 8
  const I32: Ty := 32
  const I64: Ty := 64

  datatype RawVal = Val(ty: Ty, bits: nat)
  type Value = v: RawVal | v.bits < Pow2(v.ty) witness Val(8, 0)

  type Id = nat
  type Env = map<Id, Value>

  datatype BinOp = Iadd | Isub | Imul | Sdiv | Udiv | Srem | Urem | Band | Bor | Bxor | Ishl | Ushr
  datatype Cond = Eq | Ne | Slt | Sle | Ult | Ule

  datatype Instr =
    | Iconst(dst: Id, ty: Ty, imm: int)
    | Binary(dst: Id, op: BinOp, l: Id, r: Id)
    | Icmp(dst: Id, cond: Cond, l: Id, r: Id)
    | Select(dst: Id, c: Id, t: Id, e: Id)
    | Uextend(dst: Id, ty: Ty, v: Id)
    | Sextend(dst: Id, ty: Ty, v: Id)
    | Ireduce(dst: Id, ty: Ty, v: Id)
    | Jump(target: nat, args: seq<Id>)
    | Brif(c: Id, thn: nat, thnArgs: seq<Id>, els: nat, elsArgs: seq<Id>)
    | Return(v: Id)
    | Trap
  {
    predicate IsTerminator() { Jump? || Brif? || Return? || Trap? }
  }

  /** A function body.  Block 0 is the entry block; its parameters are the function's. */
  datatype Func = Func(params: seq<seq<Id>>, types: map<Id, Ty>, bodies: seq<seq<Instr>>, ret: Ty)

  // ---- instructions ----

  /** None is a hardware trap: division by zero, or the one unrepresentable signed quotient.  Shift
      amounts are taken modulo the width. */
  function Arith(op: BinOp, w: nat, a: nat, b: nat): (r: Option<nat>)
    requires w > 1 && a < Pow2(w) && b < Pow2(w)
    ensures r.Some? ==> r.value < Pow2(w)
  {
    match op
    case Iadd => Some(Wrap(a + b, w))
    case Isub => Some(Wrap(a - b, w))
    case Imul => Some(Wrap(a * b, w))
    case Band => Some(Bitwise(And, w, a, b))
    case Bor => Some(Bitwise(Or, w, a, b))
    case Bxor => Some(Bitwise(Xor, w, a, b))
    case Ishl => Some(Wrap(a * Pow2(b % w), w))
    case Ushr => DivShrinks(a, Pow2(b % w)); Some(a / Pow2(b % w))
    case Udiv => if b == 0 then None else Some(Wrap(a / b, w))
    case Urem => if b == 0 then None else Some(Wrap(a % b, w))
    case Sdiv =>
      if b == 0 || (Signed(a, w) == -Pow2(w - 1) && Signed(b, w) == -1) then None
      else Some(Wrap(TruncDiv(Signed(a, w), Signed(b, w)), w))
    case Srem =>
      if b == 0 then None else Some(Wrap(TruncRem(Signed(a, w), Signed(b, w)), w))
  }

  predicate Compare(cond: Cond, w: nat, a: nat, b: nat)
    requires w > 1 && a < Pow2(w) && b < Pow2(w)
  {
    match cond
    case Eq => a == b
    case Ne => a != b
    case Slt => Signed(a, w) < Signed(b, w)
    case Sle => Signed(a, w) <= Signed(b, w)
    case Ult => a < b
    case Ule => a <= b
  }

  function OfBool(ty: Ty, b: bool): (v: Value)
  {
    if b then (assert Pow2(1) <= Pow2(ty) by { Pow2Mono(1, ty); } Val(ty, 1)) else Val(ty, 0)
  }

  /** What one instruction, or a run of them, does: fall through, leave for a block with argument
      values, return, trap, or be ill-formed (a state the Cranelift verifier rules out). */
  datatype Outcome =
    | Fall(env: Env)
    | Goto(target: nat, vals: seq<Value>, env: Env)
    | Ret(v: Value)
    | Trapped
    | Bad

  function Lookup(env: Env, ids: seq<Id>): (vals: seq<Value>)
    requires forall i | 0 <= i < |ids| :: ids[i] in env
    ensures |vals| == |ids|
  {
    seq(|ids|, i requires 0 <= i < |ids| => env[ids[i]])
  }

  predicate Defined(env: Env, ids: seq<Id>) {
    forall i | 0 <= i < |ids| :: ids[i] in env
  }

  function Exec1(i: Instr, env: Env): Outcome
  {
    match i
    case Iconst(d, ty, imm) => Fall(env[d := Val(ty, Wrap(imm, ty))])
    case Binary(d, op, l, r) =>
      if l in env && r in env && env[l].ty == env[r].ty then
        var ty := env[l].ty;
        match Arith(op, ty, env[l].bits, env[r].bits)
        case Some(x) => Fall(env[d := Val(ty, x)])
        case None => Trapped
      else Bad
    case Icmp(d, cond, l, r) =>
      if l in env && r in env && env[l].ty == env[r].ty then
        Fall(env[d := OfBool(I8, Compare(cond, env[l].ty, env[l].bits, env[r].bits))])
      else Bad
    case Select(d, c, t, e) =>
      if c in env && t in env && e in env && env[t].ty == env[e].ty then
        Fall(env[d := if env[c].bits != 0 then env[t] else env[e]])
      else Bad
    case Uextend(d, ty, v) =>
      if v in env && env[v].ty < ty then
        (Pow2Mono(env[v].ty, ty); Fall(env[d := Val(ty, env[v].bits)]))
      else Bad
    case Sextend(d, ty, v) =>
      if v in env && env[v].ty < ty then Fall(env[d := Val(ty, Wrap(Signed(env[v].bits, env[v].ty), ty))]) else Bad
    case Ireduce(d, ty, v) =>
      if v in env && ty < env[v].ty then
        Fall(env[d := Val(ty, Wrap(env[v].bits, ty))])
      else Bad
    case Jump(t, args) => if Defined(env, args) then Goto(t, Lookup(env, args), env) else Bad
    case Brif(c, t, ta, e, ea) =>
      if c in env && env[c].ty == I8 then
        if env[c].bits != 0 then (if Defined(env, ta) then Goto(t, Lookup(env, ta), env) else Bad)
        else (if Defined(env, ea) then Goto(e, Lookup(env, ea), env) else Bad)
      else Bad
    case Return(v) => if v in env then Ret(env[v]) else Bad
    case Trap => Trapped
  }

  function Exec(body: seq<Instr>, env: Env): Outcome
  {
    if body == [] then Fall(env)
    else match Exec1(body[0], env)
      case Fall(env') => Exec(body[1..], env')
      case o => o
  }

  lemma {:induction false} ExecAppend(a: seq<Instr>, b: seq<Instr>, env: Env)
    ensures Exec(a + b, env)
         == match Exec(a, env) case Fall(env') => Exec(b, env') case o => o
  {
    if a == [] {
      assert a + b == b;
    } else {
      assert (a + b)[0] == a[0] && (a + b)[1..] == a[1..] + b;
      match Exec1(a[0], env)
      case Fall(env') => ExecAppend(a[1..], b, env');
      case _ =>
    }
  }

  // ---- blocks ----

  datatype State = At(block: nat, env: Env) | Returned(v: Value) | Aborted | Stuck

  function Bind(env: Env, ids: seq<Id>, vals: seq<Value>): Env
    requires |ids| == |vals|
    decreases |ids|
  {
    if ids == [] then env else Bind(env[ids[0] := vals[0]], ids[1..], vals[1..])
  }

  predicate Accepts(f: Func, ids: seq<Id>, vals: seq<Value>)
  {
    && |ids| == |vals|
    && forall i | 0 <= i < |ids| :: ids[i] in f.types && f.types[ids[i]] == vals[i].ty
  }

  /** Runs one block to its terminator and enters the next; arity and type mismatches are Stuck. */
  function Step(f: Func, s: State): State
  {
    if !s.At? then s
    else if s.block >= |f.bodies| then Stuck
    else match Exec(f.bodies[s.block], s.env)
      case Goto(t, vals, env) =>
        if t < |f.params| && Accepts(f, f.params[t], vals) then At(t, Bind(env, f.params[t], vals)) else Stuck
      case Ret(v) => if v.ty == f.ret then Returned(v) else Stuck
      case Trapped => Aborted
      case Fall(_) => Stuck
      case Bad => Stuck
  }

  function Run(f: Func, s: State, n: nat): State
  {
    if n == 0 then s else Step(f, Run(f, s, n - 1))
  }
}

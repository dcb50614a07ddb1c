/** Straight-line lowerings as instruction tables.  Entry k of a table defines value k after the
    inputs; operands are positions in that numbering.  Comparisons include the widening to i32. */
module Scripts {
  import opened Words
  import opened Machine
  import J = JuliaIR

  datatype Op =
    | Const(ty: Ty, imm: int)
    | Bin(op: BinOp, l: nat, r: nat)
    | Cmp(cond: Cond, l: nat, r: nat)
    | Sel(c: nat, t: nat, e: nat)
  {
    predicate Uses(n: nat) {
      match this
      case Const(_, _) => true
      case Bin(_, l, r) => l < n && r < n
      case Cmp(_, l, r) => l < n && r < n
      case Sel(c, t, e) => c < n && t < n && e < n
    }
  }

  /** Every operand is an input or an earlier entry. */
  predicate Closed(ops: seq<Op>, inputs: nat) {
    forall i | 0 <= i < |ops| :: ops[i].Uses(inputs + i)
  }

  // ---- the tables ----

  // inputs: 0 = a, 1 = b; entry 2 is always the value

  function AddScript(signed: bool, r: Ty): (s: seq<Op>)
    ensures Closed(s, 2)
  {
    [Bin(Iadd, 0, 1)] +                            // 2 value
    if signed then
      [Bin(Bxor, 2, 0), Bin(Bxor, 2, 1),           // 3, 4
       Bin(Band, 3, 4), Const(r, 0),               // 5, 6
       Cmp(Slt, 5, 6)]                             // 7 flag
    else
      [Cmp(Ult, 2, 0)]                             // 3 flag
  }

  function SubScript(signed: bool, r: Ty): (s: seq<Op>)
    ensures Closed(s, 2)
  {
    [Bin(Isub, 0, 1)] +                            // 2 value
    if signed then
      [Bin(Bxor, 0, 1), Bin(Bxor, 0, 2),           // 3, 4
       Bin(Band, 3, 4), Const(r, 0),               // 5, 6
       Cmp(Slt, 5, 6)]                             // 7 flag
    else
      [Cmp(Ult, 0, 1)]                             // 3 flag
  }

  // The guarded-division test that follows a multiplication or a signed remainder.

  function ZeroTest(r: Ty): seq<Op> {
    [Const(I32, 0), Const(r, 1), Const(r, 0),        // 3 no, 4 one, 5 zero
     Cmp(Eq, 0, 5)]                                  // 6 is_zero
  }

  /** A divisor that is 1 wherever dividing would trap. */
  function Guard(r: Ty): seq<Op> {
    [Const(r, -1), Const(r, -Pow2(r - 1)),    // 7 neg1, 8 tmin
     Cmp(Eq, 0, 7),                                  // 9 is_m1
     Bin(Bor, 6, 9), Sel(10, 4, 0)]                  // 10 disj, 11 safe
  }

  function Decide(): seq<Op> {
    [Bin(Sdiv, 2, 11),                               // 12 quot
     Cmp(Ne, 12, 1), Cmp(Eq, 1, 8),                  // 13 fdiv, 14 fm1
     Sel(9, 14, 13), Sel(6, 3, 15)]                  // 15 inner, 16 flag
  }

  function UnsignedDecide(): seq<Op> {
    [Sel(6, 4, 0), Bin(Udiv, 2, 7),                  // 7 safe, 8 quot
     Cmp(Ne, 8, 1), Sel(6, 3, 9)]                    // 9 fdiv, 10 flag
  }

  function DivisionTest(signed: bool, r: Ty): seq<Op> {
    ZeroTest(r) + if signed then Guard(r) + Decide() else UnsignedDecide()
  }

  function MulScript(signed: bool, r: Ty): (s: seq<Op>)
    ensures Closed(s, 2)
  {
    [Bin(Imul, 0, 1)] + DivisionTest(signed, r)
  }

  function RemScript(signed: bool, r: Ty): (s: seq<Op>)
    ensures Closed(s, 2)
  {
    if signed then [Bin(Srem, 0, 1)] + DivisionTest(signed, r)
    else [Bin(Urem, 0, 1), Const(I32, 0)]
  }

  function CheckedScript(kind: J.Arith, ty: J.JTy): (s: seq<Op>)
    ensures Closed(s, 2) && |s| >= 2
  {
    match kind
    case Add => AddScript(ty.IsSigned(), ty.Reg())
    case Sub => SubScript(ty.IsSigned(), ty.Reg())
    case Mul => MulScript(ty.IsSigned(), ty.Reg())
  }

  function CondOf(op: J.Intrinsic): Cond
    requires op.IsCompare()
  {
    match op
    case EqInt => Eq case NeInt => Ne case SltInt => Slt case SleInt => Sle case UltInt => Ult case UleInt => Ule
  }

  function CallScript(op: J.Intrinsic, ty: J.JTy): (s: seq<Op>)
    ensures Closed(s, 2) && |s| >= 1 && (op.CheckedRem? ==> |s| >= 2)
  {
    match op
    case AddInt => [Bin(Iadd, 0, 1)]
    case SubInt => [Bin(Isub, 0, 1)]
    case MulInt => [Bin(Imul, 0, 1)]
    case CheckedRem => RemScript(ty.IsSigned(), ty.Reg())
    case _ => [Cmp(CondOf(op), 0, 1)]
  }

  // ---- their meaning ----

  datatype Result = Done(vs: seq<Value>) | Faulted | Ill

  datatype OpResult = Is(v: Value) | Fault | Mismatch

  /** One entry, reading the first n values. */
  function EvalOp(op: Op, vs: seq<Value>, n: nat): OpResult
    requires n <= |vs|
  {
    if !op.Uses(n) then Mismatch
    else match op
      case Const(ty, imm) => Is(Val(ty, Wrap(imm, ty)))
      case Bin(o, l, r) =>
        if vs[l].ty != vs[r].ty then Mismatch
        else (match Arith(o, vs[l].ty, vs[l].bits, vs[r].bits)
          case Some(x) => Is(Val(vs[l].ty, x))
          case None => Fault)
      case Cmp(cond, l, r) =>
        if vs[l].ty != vs[r].ty then Mismatch
        else Is(OfBool(I32, Compare(cond, vs[l].ty, vs[l].bits, vs[r].bits)))
      case Sel(c, t, e) =>
        if vs[t].ty != vs[e].ty then Mismatch else Is(if vs[c].bits != 0 then vs[t] else vs[e])
  }

  /** Runs the table from entry i on the values defined so far. */
  function Eval(ops: seq<Op>, i: nat, vs: seq<Value>): Result
    decreases |ops| - i
  {
    if i >= |ops| then Done(vs)
    else match EvalOp(ops[i], vs, |vs|)
      case Is(v) => Eval(ops, i + 1, vs + [v])
      case Fault => Faulted
      case Mismatch => Ill
  }

  /** vs is a complete run of the table: each entry computes the value at its position. */
  predicate Solves(ops: seq<Op>, inputs: nat, vs: seq<Value>) {
    && |vs| == inputs + |ops|
    && forall i | 0 <= i < |ops| :: EvalOp(ops[i], vs, inputs + i) == Is(vs[inputs + i])
  }

  lemma {:induction false} SolvesEval(ops: seq<Op>, i: nat, inputs: nat, vs: seq<Value>)
    requires Solves(ops, inputs, vs) && i <= |ops|
    ensures Eval(ops, i, vs[..inputs + i]) == Done(vs)
    decreases |ops| - i
  {
    if i == |ops| {
      assert vs[..inputs + i] == vs;
    } else {
      assert vs[..inputs + i] + [vs[inputs + i]] == vs[..inputs + (i + 1)];
      assert EvalOp(ops[i], vs[..inputs + i], inputs + i) == EvalOp(ops[i], vs, inputs + i);
      SolvesEval(ops, i + 1, inputs, vs);
    }
  }
}

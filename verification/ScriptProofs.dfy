/** The instruction tables compute Julia's arithmetic: the wrapped value, and an overflow flag that is
    set exactly when the mathematical result does not fit.  No table can trap, except a remainder by
    zero, which is Julia's exception. */
module ScriptProofs {
  import opened Wrappers
  import opened Words
  import opened CheckedArith
  import opened Machine
  import opened Scripts
  import J = JuliaIR

  function Flag(b: bool): Value { OfBool(I32, b) }

  lemma FlagIsRep(b: bool)
    ensures Flag(b) == J.Rep(J.Bool, if b then 1 else 0)
  {
    Pow2Mono(1, I32);
    ModSmall(if b then 1 else 0, Pow2(I32));
  }

  lemma RepMeaning(ty: J.JTy, v: int)
    requires ty != J.Bool && ty.Holds(v)
    ensures Meaning(ty.IsSigned(), J.Rep(ty, v).bits, ty.Bits()) == v
  {
    MeaningWrap(ty.IsSigned(), v, ty.Bits());
  }

  lemma RepOf(ty: J.JTy, v: int)
    requires ty != J.Bool
    ensures ty.Holds(ty.Of(v)) && J.Rep(ty, ty.Of(v)) == Val(ty.Reg(), Wrap(v, ty.Bits()))
  {
    WrapMeaning(ty.IsSigned(), Wrap(v, ty.Bits()), ty.Bits());
  }

  // ---- building a run of a table, one entry at a time ----

  /** vs' extends vs by v, and is a run of the table with one more entry. */
  ghost predicate Runs(ops: seq<Op>, n: nat, vs: seq<Value>, v: Value, vs': seq<Value>) {
    && Solves(ops, n, vs')
    && |vs'| == |vs| + 1 && vs'[|vs|] == v
    && forall j | 0 <= j < |vs| :: vs'[j] == vs[j]
  }

  lemma Extend(ops: seq<Op>, n: nat, vs: seq<Value>, op: Op, v: Value) returns (vs': seq<Value>)
    requires Solves(ops, n, vs) && EvalOp(op, vs, |vs|) == Is(v)
    ensures Runs(ops + [op], n, vs, v, vs')
  {
    hide Pow2, Arith, Compare, OfBool;
    vs' := vs + [v];
    var ops' := ops + [op];
    forall i | 0 <= i < |ops'| ensures EvalOp(ops'[i], vs', n + i) == Is(vs'[n + i]) {
      if i < |ops| { assert EvalOp(ops[i], vs, n + i) == Is(vs[n + i]); }
    }
  }

  lemma Imm(ops: seq<Op>, n: nat, vs: seq<Value>, ty: Ty, imm: int, x: nat) returns (vs': seq<Value>)
    requires Solves(ops, n, vs) && x == Wrap(imm, ty)
    ensures Runs(ops + [Const(ty, imm)], n, vs, Val(ty, x), vs')
  {
    vs' := Extend(ops, n, vs, Const(ty, imm), Val(ty, x));
  }

  lemma Test(ops: seq<Op>, n: nat, vs: seq<Value>, c: Cond, l: nat, r: nat, b: bool) returns (vs': seq<Value>)
    requires Solves(ops, n, vs) && l < |vs| && r < |vs| && vs[l].ty == vs[r].ty
    requires b == Compare(c, vs[l].ty, vs[l].bits, vs[r].bits)
    ensures Runs(ops + [Cmp(c, l, r)], n, vs, Flag(b), vs')
  {
    vs' := Extend(ops, n, vs, Cmp(c, l, r), Flag(b));
  }

  lemma Compute(ops: seq<Op>, n: nat, vs: seq<Value>, o: BinOp, l: nat, r: nat, ty: Ty, x: nat)
    returns (vs': seq<Value>)
    requires Solves(ops, n, vs) && l < |vs| && r < |vs| && vs[l].ty == vs[r].ty == ty
    requires Arith(o, ty, vs[l].bits, vs[r].bits) == Some(x)
    ensures x < Pow2(ty) && Runs(ops + [Bin(o, l, r)], n, vs, Val(ty, x), vs')
  {
    vs' := Extend(ops, n, vs, Bin(o, l, r), Val(ty, x));
  }

  lemma Choose(ops: seq<Op>, n: nat, vs: seq<Value>, c: nat, t: nat, e: nat, b: bool) returns (vs': seq<Value>)
    requires Solves(ops, n, vs) && c < |vs| && t < |vs| && e < |vs| && vs[t].ty == vs[e].ty
    requires vs[c] == Flag(b)
    ensures Runs(ops + [Sel(c, t, e)], n, vs, if b then vs[t] else vs[e], vs')
  {
    vs' := Extend(ops, n, vs, Sel(c, t, e), if b then vs[t] else vs[e]);
  }

  /** Tables compose. */
  lemma Chain(first: seq<Op>, second: seq<Op>, n: nat, vs: seq<Value>)
    requires Solves(second, n + |first|, vs) && Solves(first, n, vs[..n + |first|])
    ensures Solves(first + second, n, vs)
  {
    var ops, mid := first + second, vs[..n + |first|];
    forall i | 0 <= i < |ops| ensures EvalOp(ops[i], vs, n + i) == Is(vs[n + i]) {
      if i < |first| {
        assert EvalOp(first[i], mid, n + i) == Is(mid[n + i]);
      } else {
        assert EvalOp(second[i - |first|], vs, n + |first| + (i - |first|)) == Is(vs[n + |first| + (i - |first|)]);
      }
    }
  }

  // ---- addition and subtraction ----

  lemma SignTestRuns(ops: seq<Op>, vs: seq<Value>, r: Ty, x: nat, y: nat, p: (nat, nat), q: (nat, nat))
    returns (vs': seq<Value>)
    requires Solves(ops, 2, vs) && |vs| == 3
    requires p.0 < 3 && p.1 < 3 && q.0 < 3 && q.1 < 3
    requires vs[0].ty == vs[1].ty == vs[2].ty == r
    requires x == Bitwise(Xor, r, vs[p.0].bits, vs[p.1].bits)
    requires y == Bitwise(Xor, r, vs[q.0].bits, vs[q.1].bits)
    ensures
      Solves(ops + [Bin(Bxor, p.0, p.1), Bin(Bxor, q.0, q.1), Bin(Band, 3, 4), Const(r, 0), Cmp(Slt, 5, 6)], 2, vs')
    ensures |vs'| == 8 && vs'[0] == vs[0] && vs'[1] == vs[1] && vs'[2] == vs[2]
    ensures vs'[7] == Flag(SignBit(Bitwise(And, r, x, y), r))
  {
    hide Solves, EvalOp, Bitwise, Pow2;
    var w := r;
    ModSmall(0, Pow2(w));
    vs' := Compute(ops, 2, vs, Bxor, p.0, p.1, r, x);
    var o := ops + [Bin(Bxor, p.0, p.1)];
    vs' := Compute(o, 2, vs', Bxor, q.0, q.1, r, y);
    o := o + [Bin(Bxor, q.0, q.1)];
    vs' := Compute(o, 2, vs', Band, 3, 4, r, Bitwise(And, w, x, y));
    o := o + [Bin(Band, 3, 4)];
    vs' := Imm(o, 2, vs', r, 0, 0);
    o := o + [Const(r, 0)];
    vs' := Test(o, 2, vs', Slt, 5, 6, SignBit(Bitwise(And, w, x, y), w));
    assert o + [Cmp(Slt, 5, 6)]
        == ops + [Bin(Bxor, p.0, p.1), Bin(Bxor, q.0, q.1), Bin(Band, 3, 4), Const(r, 0), Cmp(Slt, 5, 6)];
  }

  lemma Inputs(r: Ty, a: nat, b: nat, op: BinOp, x: nat) returns (vs: seq<Value>)
    requires a < Pow2(r) && b < Pow2(r) && Arith(op, r, a, b) == Some(x)
    ensures Solves([Bin(op, 0, 1)], 2, vs)
    ensures |vs| == 3 && vs[0] == Val(r, a) && vs[1] == Val(r, b) && vs[2] == Val(r, x)
  {
    vs := [Val(r, a), Val(r, b)];
    vs := Compute([], 2, vs, op, 0, 1, r, x);
    assert [] + [Bin(op, 0, 1)] == [Bin(op, 0, 1)];
  }

  lemma AddRuns(signed: bool, r: Ty, a: nat, b: nat) returns (vs: seq<Value>)
    requires a < Pow2(r) && b < Pow2(r)
    ensures Solves(AddScript(signed, r), 2, vs) && vs[0] == Val(r, a) && vs[1] == Val(r, b)
    ensures vs[2] == Val(r, Wrap(a + b, r))
    ensures vs[|vs| - 1] == Flag(if signed then AddFlagSigned(a, b, r) else Wrap(a + b, r) < a)
  {
    hide Solves, EvalOp, Bitwise, Pow2;
    var w := r;
    var x := Wrap(a + b, w);
    vs := Inputs(r, a, b, Iadd, x);
    if signed {
      vs := SignTestRuns([Bin(Iadd, 0, 1)], vs, r, Bitwise(Xor, w, x, a), Bitwise(Xor, w, x, b), (2, 0), (2, 1));
    } else {
      vs := Test([Bin(Iadd, 0, 1)], 2, vs, Ult, 2, 0, x < a);
    }
  }

  lemma SubRuns(signed: bool, r: Ty, a: nat, b: nat) returns (vs: seq<Value>)
    requires a < Pow2(r) && b < Pow2(r)
    ensures Solves(SubScript(signed, r), 2, vs) && vs[0] == Val(r, a) && vs[1] == Val(r, b)
    ensures vs[2] == Val(r, Wrap(a - b, r))
    ensures vs[|vs| - 1] == Flag(if signed then SubFlagSigned(a, b, r) else a < b)
  {
    hide Solves, EvalOp, Bitwise, Pow2;
    var w := r;
    var x := Wrap(a - b, w);
    vs := Inputs(r, a, b, Isub, x);
    if signed {
      vs := SignTestRuns([Bin(Isub, 0, 1)], vs, r, Bitwise(Xor, w, a, b), Bitwise(Xor, w, a, x), (0, 1), (0, 2));
    } else {
      vs := Test([Bin(Isub, 0, 1)], 2, vs, Ult, 0, 1, a < b);
    }
  }

  // ---- the guarded division ----

  lemma Constants(w: nat)
    requires w > 1
    ensures Wrap(0, w) == 0 && Wrap(1, w) == 1 && Wrap(-1, w) == Pow2(w) - 1 && Wrap(-Pow2(w - 1), w) == Pow2(w - 1)
    ensures Pow2(w) == 2 * Pow2(w - 1) && Pow2(w - 1) > 1
  {
    assert Pow2(w) == 2 * Pow2(w - 1) && Pow2(w - 1) == 2 * Pow2(w - 2);
    WrapNear(0, w);
    WrapNear(1, w);
    WrapNear(-1, w);
    WrapNear(-Pow2(w - 1), w);
  }

  lemma BoolOr(p: bool, q: bool)
    ensures Bitwise(Or, I32, Flag(p).bits, Flag(q).bits) == Flag(p || q).bits
  {
    Pow2Mono(1, I32);
    OrSmall(I32, Flag(p).bits, Flag(q).bits);
  }

  lemma {:induction false} OrSmall(w: nat, a: nat, b: nat)
    requires w > 0 && a <= 1 && b <= 1
    ensures a < Pow2(w) && b < Pow2(w)
    ensures Bitwise(Or, w, a, b) == if a == 1 || b == 1 then 1 else 0
  {
    if w > 1 { OrSmall(w - 1, a, b); }
  }

  lemma ZeroTestRuns(r: Ty, vs: seq<Value>) returns (vs': seq<Value>)
    requires |vs| == 3 && vs[0].ty == r
    ensures Solves(ZeroTest(r), 3, vs') && |vs'| == 7 && vs'[..3] == vs
    ensures vs'[3] == Flag(false) && vs'[4] == Val(r, 1) && vs'[5] == Val(r, 0)
    ensures vs'[6] == Flag(vs[0].bits == 0)
  {
    assert Solves([], 3, vs);
    hide Solves, EvalOp;
    Constants(r);
    ModSmall(0, Pow2(I32));
    vs' := Imm([], 3, vs, I32, 0, 0);
    var o := [] + [Const(I32, 0)];
    vs' := Imm(o, 3, vs', r, 1, 1);
    o := o + [Const(r, 1)];
    vs' := Imm(o, 3, vs', r, 0, 0);
    o := o + [Const(r, 0)];
    vs' := Test(o, 3, vs', Eq, 0, 5, vs[0].bits == 0);
    assert o + [Cmp(Eq, 0, 5)] == ZeroTest(r);
  }

  lemma GuardConstantsRun(r: Ty, vs: seq<Value>) returns (vs': seq<Value>)
    requires |vs| == 7
    ensures Solves([Const(r, -1), Const(r, -Pow2(r - 1))], 7, vs') && |vs'| == 9 && vs'[..7] == vs
    ensures vs'[7] == Val(r, Pow2(r) - 1) && vs'[8] == Val(r, Pow2(r - 1))
  {
    assert Solves([], 7, vs);
    hide Solves, EvalOp, Pow2;
    var w: nat := r;
    Constants(w);
    vs' := Imm([], 7, vs, r, -1, Pow2(w) - 1);
    vs' := Imm([] + [Const(r, -1)], 7, vs', r, -Pow2(w - 1), Pow2(w - 1));
    assert [] + [Const(r, -1)] + [Const(r, -Pow2(w - 1))] == [Const(r, -1), Const(r, -Pow2(r - 1))];
  }

  lemma GuardRuns(r: Ty, vs: seq<Value>) returns (vs': seq<Value>)
    requires |vs| == 7 && vs[0].ty == r && vs[4] == Val(r, 1) && vs[6] == Flag(vs[0].bits == 0)
    ensures Solves(Guard(r), 7, vs') && |vs'| == 12 && vs'[..7] == vs
    ensures vs'[8] == Val(r, Pow2(r - 1)) && vs'[9] == Flag(vs[0].bits == Pow2(r) - 1)
    ensures vs'[11] == Val(r, SafeDivisor(true, vs[0].bits, r))
  {
    hide Solves, EvalOp, Bitwise, Pow2;
    var w: nat, a := r, vs[0].bits;
    var m1 := Pow2(w) - 1;
    vs' := GuardConstantsRun(r, vs);
    var o := [Const(r, -1), Const(r, -Pow2(r - 1))];
    vs' := Test(o, 7, vs', Eq, 0, 7, a == m1);
    o := o + [Cmp(Eq, 0, 7)];
    BoolOr(a == 0, a == m1);
    vs' := Compute(o, 7, vs', Bor, 6, 9, I32, Flag(a == 0 || a == m1).bits);
    o := o + [Bin(Bor, 6, 9)];
    vs' := Choose(o, 7, vs', 10, 4, 0, a == 0 || a == m1);
    assert o + [Sel(10, 4, 0)] == Guard(r);
  }

  lemma DecideRuns(r: Ty, vs: seq<Value>) returns (vs': seq<Value>)
    requires |vs| == 12 && vs[0].ty == vs[1].ty == vs[2].ty == r && vs[3] == Flag(false)
    requires var a, w := vs[0].bits, r;
      vs[6] == Flag(a == 0) && vs[8] == Val(r, Pow2(w - 1)) && vs[9] == Flag(a == Pow2(w) - 1)
      && vs[11] == Val(r, SafeDivisor(true, a, w))
    ensures Solves(Decide(), 12, vs') && |vs'| == 17 && vs'[..12] == vs
    ensures vs'[16] == Flag(DivFlag(true, vs[2].bits, vs[0].bits, vs[1].bits, r))
  {
    assert Solves([], 12, vs);
    hide Solves, EvalOp;
    var w: nat, a, b, x := r, vs[0].bits, vs[1].bits, vs[2].bits;
    var safe := SafeDivisor(true, a, w);
    Constants(w);
    var q := Wrap(TruncDiv(Signed(x, w), Signed(safe, w)), w);
    var inner := if a == Pow2(w) - 1 then b == Pow2(w - 1) else q != b;
    vs' := Compute([], 12, vs, Sdiv, 2, 11, r, q);
    hide Arith, TruncDiv, Signed;
    var o := [] + [Bin(Sdiv, 2, 11)];
    vs' := Test(o, 12, vs', Ne, 12, 1, q != b);
    o := o + [Cmp(Ne, 12, 1)];
    vs' := Test(o, 12, vs', Eq, 1, 8, b == Pow2(w - 1));
    o := o + [Cmp(Eq, 1, 8)];
    vs' := Choose(o, 12, vs', 9, 14, 13, a == Pow2(w) - 1);
    o := o + [Sel(9, 14, 13)];
    vs' := Choose(o, 12, vs', 6, 3, 15, a == 0);
    assert o + [Sel(6, 3, 15)] == Decide();
    assert vs'[15] == Flag(inner);
  }

  lemma UnsignedDecideRuns(r: Ty, vs: seq<Value>) returns (vs': seq<Value>)
    requires |vs| == 7 && vs[0].ty == vs[1].ty == vs[2].ty == r && vs[3] == Flag(false)
    requires vs[4] == Val(r, 1) && vs[6] == Flag(vs[0].bits == 0)
    ensures Solves(UnsignedDecide(), 7, vs') && |vs'| == 11 && vs'[..7] == vs
    ensures vs'[10] == Flag(DivFlag(false, vs[2].bits, vs[0].bits, vs[1].bits, r))
  {
    assert Solves([], 7, vs);
    hide Solves, EvalOp;
    var w: nat, a, b, x := r, vs[0].bits, vs[1].bits, vs[2].bits;
    var safe := SafeDivisor(false, a, w);
    var q := Wrap(x / safe, w);
    vs' := Choose([], 7, vs, 6, 4, 0, a == 0);
    var o := [] + [Sel(6, 4, 0)];
    assert vs'[7] == Val(r, safe);
    vs' := Compute(o, 7, vs', Udiv, 2, 7, r, q);
    o := o + [Bin(Udiv, 2, 7)];
    vs' := Test(o, 7, vs', Ne, 8, 1, q != b);
    o := o + [Cmp(Ne, 8, 1)];
    vs' := Choose(o, 7, vs', 6, 3, 9, a == 0);
    assert o + [Sel(6, 3, 9)] == UnsignedDecide();
  }

  /** The values the division test computes after a value in position 2. */
  lemma DivisionRuns(signed: bool, vs: seq<Value>) returns (vs': seq<Value>)
    requires |vs| == 3 && vs[0].ty == vs[1].ty == vs[2].ty
    ensures Solves(DivisionTest(signed, vs[0].ty), 3, vs') && |vs'| > 3 && vs'[..3] == vs
    ensures vs'[|vs'| - 1] == Flag(DivFlag(signed, vs[2].bits, vs[0].bits, vs[1].bits, vs[0].ty))
  {
    hide Solves, EvalOp, DivFlag;
    var r := vs[0].ty;
    var head := ZeroTestRuns(r, vs);
    if signed {
      var mid := GuardRuns(r, head);
      vs' := DecideRuns(r, mid);
      Chain(Guard(r), Decide(), 7, vs');
    } else {
      vs' := UnsignedDecideRuns(r, head);
    }
    assert vs'[..7] == head;
    Chain(ZeroTest(r), if signed then Guard(r) + Decide() else UnsignedDecide(), 3, vs');
  }

  lemma AddFacts(ty: J.JTy, u: int, v: int)
    requires ty != J.Bool && ty.Holds(u) && ty.Holds(v)
    ensures var w, a, b := ty.Bits(), J.Rep(ty, u).bits, J.Rep(ty, v).bits;
      && J.Rep(ty, ty.Of(u + v)) == Val(w, Wrap(a + b, w))
      && ty.Holds(u + v) == !(if ty.IsSigned() then AddFlagSigned(a, b, w) else Wrap(a + b, w) < a)
  {
    hide AddFlagSigned, Pow2, Wrap;
    var w, a, b := ty.Bits(), J.Rep(ty, u).bits, J.Rep(ty, v).bits;
    RepMeaning(ty, u);
    RepMeaning(ty, v);
    RepOf(ty, u + v);
    if ty.IsSigned() { AddSignedExact(a, b, w); } else { AddUnsignedExact(a, b, w); }
  }

  lemma SubFacts(ty: J.JTy, u: int, v: int)
    requires ty != J.Bool && ty.Holds(u) && ty.Holds(v)
    ensures var w, a, b := ty.Bits(), J.Rep(ty, u).bits, J.Rep(ty, v).bits;
      && J.Rep(ty, ty.Of(u - v)) == Val(w, Wrap(a - b, w))
      && ty.Holds(u - v) == !(if ty.IsSigned() then SubFlagSigned(a, b, w) else a < b)
  {
    hide SubFlagSigned, Pow2, Wrap;
    var w, a, b := ty.Bits(), J.Rep(ty, u).bits, J.Rep(ty, v).bits;
    RepMeaning(ty, u);
    RepMeaning(ty, v);
    RepOf(ty, u - v);
    if ty.IsSigned() { SubSignedExact(a, b, w); } else { SubUnsignedExact(a, b, w); }
  }

  lemma MulFacts(ty: J.JTy, u: int, v: int)
    requires ty != J.Bool && ty.Holds(u) && ty.Holds(v)
    ensures var w, a, b := ty.Bits(), J.Rep(ty, u).bits, J.Rep(ty, v).bits;
      && J.Rep(ty, ty.Of(u * v)) == Val(w, Wrap(a * b, w))
      && ty.Holds(u * v) == !DivFlag(ty.IsSigned(), Wrap(a * b, w), a, b, w)
  {
    hide DivFlag, Pow2, Wrap;
    var a, b := J.Rep(ty, u).bits, J.Rep(ty, v).bits;
    RepMeaning(ty, u);
    RepMeaning(ty, v);
    RepOf(ty, u * v);
    MulExact(ty.IsSigned(), a, b, ty.Bits());
  }

  lemma AddCorrect(ty: J.JTy, u: int, v: int) returns (vs: seq<Value>)
    requires ty != J.Bool && ty.Holds(u) && ty.Holds(v)
    ensures Solves(CheckedScript(J.Add, ty), 2, vs) && vs[0] == J.Rep(ty, u) && vs[1] == J.Rep(ty, v)
    ensures vs[2] == J.Rep(ty, ty.Of(u + v)) && vs[|vs| - 1] == Flag(!ty.Holds(u + v))
  {
    hide Pow2, Wrap, Solves, DivFlag, AddFlagSigned, SubFlagSigned, AddScript, SubScript, DivisionTest;
    var w, a, b := ty.Bits(), J.Rep(ty, u).bits, J.Rep(ty, v).bits;
    AddFacts(ty, u, v);
    vs := AddRuns(ty.IsSigned(), w, a, b);
  }

  lemma SubCorrect(ty: J.JTy, u: int, v: int) returns (vs: seq<Value>)
    requires ty != J.Bool && ty.Holds(u) && ty.Holds(v)
    ensures Solves(CheckedScript(J.Sub, ty), 2, vs) && vs[0] == J.Rep(ty, u) && vs[1] == J.Rep(ty, v)
    ensures vs[2] == J.Rep(ty, ty.Of(u - v)) && vs[|vs| - 1] == Flag(!ty.Holds(u - v))
  {
    hide Pow2, Wrap, Solves, DivFlag, AddFlagSigned, SubFlagSigned, AddScript, SubScript, DivisionTest;
    var w, a, b := ty.Bits(), J.Rep(ty, u).bits, J.Rep(ty, v).bits;
    SubFacts(ty, u, v);
    vs := SubRuns(ty.IsSigned(), w, a, b);
  }

  lemma MulCorrect(ty: J.JTy, u: int, v: int) returns (vs: seq<Value>)
    requires ty != J.Bool && ty.Holds(u) && ty.Holds(v)
    ensures Solves(CheckedScript(J.Mul, ty), 2, vs) && vs[0] == J.Rep(ty, u) && vs[1] == J.Rep(ty, v)
    ensures vs[2] == J.Rep(ty, ty.Of(u * v)) && vs[|vs| - 1] == Flag(!ty.Holds(u * v))
  {
    hide Pow2, Wrap, Solves, DivFlag, AddFlagSigned, SubFlagSigned, AddScript, SubScript, DivisionTest;
    var w, a, b := ty.Bits(), J.Rep(ty, u).bits, J.Rep(ty, v).bits;
    MulFacts(ty, u, v);
    var vs0 := Inputs(w, a, b, Imul, Wrap(a * b, w));
    vs := DivisionRuns(ty.IsSigned(), vs0);
    Chain([Bin(Imul, 0, 1)], DivisionTest(ty.IsSigned(), w), 2, vs);
  }

  /** The value and the flag of every checked operation, against the mathematical result. */
  lemma CheckedCorrect(kind: J.Arith, ty: J.JTy, u: int, v: int) returns (vs: seq<Value>)
    requires ty != J.Bool && ty.Holds(u) && ty.Holds(v)
    ensures Solves(CheckedScript(kind, ty), 2, vs) && |vs| > 2 && vs[0] == J.Rep(ty, u) && vs[1] == J.Rep(ty, v)
    ensures vs[2] == J.Rep(ty, ty.Of(J.Exact(kind, u, v)))
    ensures vs[|vs| - 1] == Flag(!ty.Holds(J.Exact(kind, u, v)))
  {
    hide Solves, Wrap, Pow2, CheckedScript;
    match kind {
      case Add => vs := AddCorrect(ty, u, v);
      case Sub => vs := SubCorrect(ty, u, v);
      case Mul => vs := MulCorrect(ty, u, v);
    }
    SolvesLength(CheckedScript(kind, ty), 2, vs);
  }

  lemma SolvesLength(ops: seq<Op>, inputs: nat, vs: seq<Value>)
    requires Solves(ops, inputs, vs)
    ensures |vs| == inputs + |ops|
  {
    hide EvalOp;
  }

  // ---- plain calls ----

  lemma RepInjective(ty: J.JTy, u: int, v: int)
    requires ty.Holds(u) && ty.Holds(v)
    ensures J.Rep(ty, u) == J.Rep(ty, v) <==> u == v
  {
    if ty == J.Bool {
      Pow2Mono(1, I32);
      ModSmall(u, Pow2(I32));
      ModSmall(v, Pow2(I32));
    } else {
      RepMeaning(ty, u);
      RepMeaning(ty, v);
    }
  }

  predicate CallTyped(op: J.Intrinsic, ty: J.JTy) {
    && (op.EqInt? || op.NeInt? || ty != J.Bool)
    && (op.SltInt? || op.SleInt? ==> ty.IsSigned())
    && (op.UltInt? || op.UleInt? ==> !ty.IsSigned())
  }

  /** The signed and unsigned remainder fit their type. */
  lemma RemFits(ty: J.JTy, u: int, v: int)
    requires ty != J.Bool && ty.Holds(u) && ty.Holds(v) && v != 0
    ensures ty.Holds(TruncRem(u, v))
    ensures !ty.IsSigned() ==> TruncRem(u, v) == u % v
  {
    hide Pow2;
    if u == 0 {
      TruncDivExact(v, 0);
    } else {
      RemainderShape(u, v);
    }
  }

  function ResultTy(op: J.Intrinsic, ty: J.JTy): J.JTy {
    if op.IsCompare() then J.Bool else ty
  }

  /** The first entry of a remainder table; a zero divisor faults. */
  lemma RemFirst(ty: J.JTy, u: int, v: int)
    requires ty != J.Bool && ty.Holds(u) && ty.Holds(v)
    ensures Arith(if ty.IsSigned() then Srem else Urem, ty.Bits(), J.Rep(ty, u).bits, J.Rep(ty, v).bits)
         == if v == 0 then None else Some(Wrap(TruncRem(u, v), ty.Bits()))
  {
    var w := ty.Bits();
    RepMeaning(ty, u);
    RepMeaning(ty, v);
    hide Pow2;
    ModSmall(0, Pow2(w));
    if v != 0 { RemFits(ty, u, v); }
    if !ty.IsSigned() {
      ModSmall(u, Pow2(w));
      ModSmall(v, Pow2(w));
    }
  }

  lemma RemCorrect(ty: J.JTy, u: int, v: int) returns (vs: seq<Value>)
    requires ty != J.Bool && ty.Holds(u) && ty.Holds(v) && v != 0
    ensures Solves(RemScript(ty.IsSigned(), ty.Reg()), 2, vs) && vs[0] == J.Rep(ty, u) && vs[1] == J.Rep(ty, v)
    ensures |vs| > 2 && vs[2] == J.Rep(ty, TruncRem(u, v)) && vs[|vs| - 1].ty == I32
    ensures ty.IsSigned() ==>
      vs[|vs| - 1] == Flag(DivFlag(true, vs[2].bits, vs[0].bits, vs[1].bits, ty.Bits()))
    ensures !ty.IsSigned() ==> vs[|vs| - 1] == Flag(false)
  {
    var w, a, b := ty.Bits(), J.Rep(ty, u).bits, J.Rep(ty, v).bits;
    hide Pow2, Arith, TruncRem, DivisionTest;
    RemFirst(ty, u, v);
    var op := if ty.IsSigned() then Srem else Urem;
    var vs0 := Inputs(w, a, b, op, Wrap(TruncRem(u, v), w));
    hide Solves, DivFlag;
    if ty.IsSigned() {
      vs := DivisionRuns(true, vs0);
      Chain([Bin(Srem, 0, 1)], DivisionTest(true, w), 2, vs);
    } else {
      vs := Imm([Bin(Urem, 0, 1)], 2, vs0, I32, 0, Wrap(0, I32));
      assert [Bin(Urem, 0, 1)] + [Const(I32, 0)] == RemScript(false, w);
      ZeroFlag();
    }
  }

  lemma ZeroFlag()
    ensures Val(I32, Wrap(0, I32)) == Flag(false)
  {
    hide Pow2;
    ModSmall(0, Pow2(I32));
  }

  /** The flag that the emitted remainder leaves: never set for unsigned operands; for signed ones it says
      whether the quotient overflows on exactly the listed operands. */
  lemma RemainderFlag(ty: J.JTy, u: int, v: int) returns (vs: seq<Value>, flag: bool)
    requires ty != J.Bool && ty.Holds(u) && ty.Holds(v) && v != 0
    ensures Solves(RemScript(ty.IsSigned(), ty.Reg()), 2, vs) && vs[0] == J.Rep(ty, u) && vs[1] == J.Rep(ty, v)
    ensures |vs| > 2 && vs[2] == J.Rep(ty, TruncRem(u, v)) && vs[|vs| - 1] == Flag(flag)
    ensures !ty.IsSigned() ==> !flag
    ensures ty.IsSigned() ==>
      var least := -Pow2(ty.Bits() - 1);
      (flag == !ty.Holds(TruncDiv(u, v)) <==> u == 0 || (u == -1 && v != least) || (u == least && v == -1))
  {
    hide Solves, DivFlag, TruncRem, TruncDiv, Pow2, Wrap;
    vs := RemCorrect(ty, u, v);
    flag := ty.IsSigned() && DivFlag(true, vs[2].bits, vs[0].bits, vs[1].bits, ty.Bits());
    if ty.IsSigned() {
      var w, a, b := ty.Bits(), J.Rep(ty, u).bits, J.Rep(ty, v).bits;
      RepMeaning(ty, u);
      RepMeaning(ty, v);
      SignedZero(w);
      SremFlagExact(a, b, w);
    }
  }

  lemma SignedZero(w: nat)
    requires w > 1
    ensures 0 < Pow2(w) && Signed(0, w) == 0
    ensures forall x: nat | x < Pow2(w) && Signed(x, w) == 0 :: x == 0
  {
  }

  lemma CompareCorrect(op: J.Intrinsic, ty: J.JTy, u: int, v: int)
    requires op.IsCompare() && CallTyped(op, ty) && ty.Holds(u) && ty.Holds(v)
    ensures Compare(CondOf(op), ty.Bits(), J.Rep(ty, u).bits, J.Rep(ty, v).bits)
       <==> J.Apply(op, ty, u, v) == Some(1)
  {
    hide Pow2, Wrap;
    RepInjective(ty, u, v);
    if ty != J.Bool {
      RepMeaning(ty, u);
      RepMeaning(ty, v);
    }
  }

  lemma CallCorrect(op: J.Intrinsic, ty: J.JTy, u: int, v: int) returns (vs: seq<Value>)
    requires CallTyped(op, ty) && ty.Holds(u) && ty.Holds(v)
    requires J.Apply(op, ty, u, v).Some?
    ensures Solves(CallScript(op, ty), 2, vs) && |vs| > 2 && vs[0] == J.Rep(ty, u) && vs[1] == J.Rep(ty, v)
    ensures vs[2] == J.Rep(ResultTy(op, ty), J.Apply(op, ty, u, v).value)
    ensures ResultTy(op, ty).Holds(J.Apply(op, ty, u, v).value)
    ensures op.CheckedRem? ==> vs[|vs| - 1].ty == I32
    ensures op.CheckedRem? ==>
      vs[|vs| - 1] == Flag(ty.IsSigned() && DivFlag(true, vs[2].bits, vs[0].bits, vs[1].bits, ty.Bits()))
  {
    hide Solves, Pow2, Wrap, TruncRem, DivFlag;
    if op.IsCompare() {
      vs := CompareRuns(op, ty, u, v);
    } else if op.CheckedRem? {
      RemFits(ty, u, v);
      vs := RemCorrect(ty, u, v);
    } else {
      var k := if op.AddInt? then J.Add else if op.SubInt? then J.Sub else J.Mul;
      vs := PlainRuns(k, op, ty, u, v);
    }
    SolvesLength(CallScript(op, ty), 2, vs);
  }

  lemma CompareRuns(op: J.Intrinsic, ty: J.JTy, u: int, v: int) returns (vs: seq<Value>)
    requires op.IsCompare() && CallTyped(op, ty) && ty.Holds(u) && ty.Holds(v)
    ensures Solves(CallScript(op, ty), 2, vs) && vs[0] == J.Rep(ty, u) && vs[1] == J.Rep(ty, v)
    ensures vs[2] == J.Rep(J.Bool, J.Apply(op, ty, u, v).value)
    ensures J.JTy.Bool.Holds(J.Apply(op, ty, u, v).value)
  {
    hide Pow2, Compare;
    var z := J.Apply(op, ty, u, v).value;
    CompareCorrect(op, ty, u, v);
    FlagIsRep(z == 1);
    vs := [J.Rep(ty, u), J.Rep(ty, v)];
    vs := Test([], 2, vs, CondOf(op), 0, 1, z == 1);
    assert [] + [Cmp(CondOf(op), 0, 1)] == CallScript(op, ty);
  }

  /** Plain arithmetic is the first entry of the checked table. */
  lemma PlainRuns(k: J.Arith, op: J.Intrinsic, ty: J.JTy, u: int, v: int) returns (vs: seq<Value>)
    requires ty != J.Bool && ty.Holds(u) && ty.Holds(v)
    requires op == match k { case Add => J.AddInt case Sub => J.SubInt case Mul => J.MulInt }
    ensures Solves(CallScript(op, ty), 2, vs) && vs[0] == J.Rep(ty, u) && vs[1] == J.Rep(ty, v)
    ensures vs[2] == J.Rep(ty, ty.Of(J.Exact(k, u, v))) && ty.Holds(ty.Of(J.Exact(k, u, v)))
  {
    hide Pow2, Wrap, Solves, DivFlag, AddFlagSigned, SubFlagSigned;
    var w, a: int, b: int := ty.Bits(), J.Rep(ty, u).bits, J.Rep(ty, v).bits;
    RepOf(ty, J.Exact(k, u, v));
    match k
    case Add => AddFacts(ty, u, v); vs := Inputs(w, a, b, Iadd, Wrap(a + b, w));
    case Sub => SubFacts(ty, u, v); vs := Inputs(w, a, b, Isub, Wrap(a - b, w));
    case Mul => MulFacts(ty, u, v); vs := Inputs(w, a, b, Imul, Wrap(a * b, w));
  }

  /** A remainder faults exactly on Julia's exception. */
  lemma CallFaults(op: J.Intrinsic, ty: J.JTy, u: int, v: int)
    requires CallTyped(op, ty) && ty.Holds(u) && ty.Holds(v)
    requires J.Apply(op, ty, u, v).None?
    ensures var vs := [J.Rep(ty, u), J.Rep(ty, v)];
      EvalOp(CallScript(op, ty)[0], vs, |vs|) == Fault && Eval(CallScript(op, ty), 0, vs) == Faulted
  {
    hide Pow2, Arith, DivisionTest, Wrap;
    RemFirst(ty, u, v);
  }
}

/** The emitter as it runs: one builder object whose blocks and value tables every emitting call
    updates in place.  Each method is the corresponding function of module Lowering, applied to the
    builder's state. */
module Emitter {
  import opened Wrappers
  import opened Machine
  import opened Scripts
  import opened Words
  import opened Lowering
  import opened StructLowering
  import J = JuliaIR

  class Builder {
    var bodies: seq<seq<Instr>>
    var params: seq<seq<Id>>
    var types: map<Id, Ty>
    var next: Id
    var cur: nat
    var ssa: map<nat, Id>
    var pairs: map<nat, (Id, Id)>
    var nargs: nat

    function State(): Ctx
      reads this
    {
      Ctx(bodies, params, types, next, cur, ssa, pairs, nargs)
    }

    ghost predicate Ready()
      reads this
    {
      Lowering.Valid(State())
    }

    /** The entry block, the empty blocks of the function, and the function's parameters. */
    constructor (p: J.Prog)
      requires J.LaidOut(p)
      ensures State() == Init(p)
    {
      var n := |p.args|;
      bodies := seq(|p.blocks| + 1, i => if i == 0 then [Jump(1, [])] else []);
      params := seq(|p.blocks| + 1, i => if i == 0 then seq(n, k => k) else []);
      types := map k: nat | 0 <= k < n :: p.args[k].Reg();
      next, cur, ssa, pairs, nargs := n, 0, map[], map[], n;
    }

    // ---- single instructions ----

    method Append(i: Instr)
      requires Ready()
      modifies this`bodies
      ensures State() == Push(old(State()), i)
    {
      bodies := bodies[cur := bodies[cur] + [i]];
    }

    method Define(i: Instr, ty: Ty) returns (id: Id)
      requires Ready() && !i.IsTerminator()
      modifies this`bodies, this`types, this`next
      ensures (State(), id) == Def(old(State()), i, ty)
    {
      Append(i);
      id := next;
      types := types[id := ty];
      next := next + 1;
    }

    method Iconst(ty: Ty, imm: int) returns (id: Id)
      requires Ready()
      modifies this
      ensures (State(), id) == EmitIconst(old(State()), ty, imm)
    {
      id := Define(Instr.Iconst(next, ty, imm), ty);
    }

    method Uextend(ty: Ty, v: Id) returns (id: Id)
      requires Ready()
      modifies this
      ensures (State(), id) == EmitUextend(old(State()), ty, v)
    {
      var have := TyOf(State(), v);
      if have == ty || (have == I64 && ty == I32) { return v; }
      id := Define(Instr.Uextend(next, ty, v), ty);
    }

    method Widen(l: Id, r: Id) returns (l1: Id, r1: Id)
      requires Ready()
      modifies this
      ensures (State(), l1, r1) == Harmonize(old(State()), l, r)
    {
      var lt, rt := TyOf(State(), l), TyOf(State(), r);
      l1, r1 := l, r;
      if lt == I32 && rt == I64 { l1 := Define(Instr.Uextend(next, I64, l), I64); }
      if rt == I32 && lt == I64 { r1 := Define(Instr.Uextend(next, I64, r), I64); }
    }

    method Binary(op: BinOp, l: Id, r: Id) returns (id: Id)
      requires Ready()
      modifies this
      ensures (State(), id) == EmitBinary(old(State()), op, l, r)
    {
      var l1, r1 := Widen(l, r);
      id := Define(Instr.Binary(next, op, l1, r1), TyOf(State(), l1));
    }

    method CompareBool(cond: Cond, l: Id, r: Id) returns (id: Id)
      requires Ready()
      modifies this
      ensures (State(), id) == IcmpBool(old(State()), cond, l, r)
    {
      var l1, r1 := Widen(l, r);
      var v := Define(Icmp(next, cond, l1, r1), I8);
      id := Uextend(I32, v);
    }

    method Operation(op: Op, ids: seq<Id>) returns (id: Id)
      requires Ready() && op.Uses(|ids|)
      modifies this
      ensures (State(), id) == EmitOp(old(State()), op, ids)
    {
      match op
      case Const(ty, imm) => id := Iconst(ty, imm);
      case Bin(o, l, r) => id := Binary(o, ids[l], ids[r]);
      case Cmp(cond, l, r) => id := CompareBool(cond, ids[l], ids[r]);
      case Sel(c, t, e) => id := Define(Select(next, ids[c], ids[t], ids[e]), TyOf(State(), ids[t]));
    }

    /** A whole instruction table on two inputs. */
    method Table(ops: seq<Op>, a: Id, b: Id) returns (ids: seq<Id>)
      requires Ready() && Closed(ops, 2)
      modifies this
      ensures (State(), ids) == EmitOps(old(State()), ops, 0, [a, b])
    {
      ids := [a, b];
      for i := 0 to |ops|
        invariant Ready() && |ids| == i + 2
        invariant EmitOps(State(), ops, i, ids) == EmitOps(old(State()), ops, 0, [a, b])
      {
        var id := Operation(ops[i], ids);
        ids := ids + [id];
      }
    }

    // ---- small structs ----

    method Placed(m: Member, ct: Ty) returns (id: Id)
      requires Ready()
      modifies this
      ensures (State(), id) == EmitPlaced(old(State()), m, ct)
    {
      id := m.id;
      if m.reg != ct { id := Uextend(ct, id); }
      if m.off != 0 {
        var shift := Iconst(I64, 8 * m.off);
        id := Binary(Ishl, id, shift);
      }
    }

    /** The packed register of a struct, field by field. */
    method PackStruct(ms: seq<Member>, ct: Ty) returns (acc: Id)
      requires Ready()
      modifies this
      ensures (State(), acc) == EmitPack(old(State()), ms, ct)
    {
      hide EmitPlaced, EmitBinary;
      acc := Iconst(I64, 0);
      for i := 0 to |ms|
        invariant Ready() && EmitMembers(State(), ms, i, ct, acc) == EmitPack(old(State()), ms, ct)
      {
        var f := Placed(ms[i], ct);
        acc := Binary(Bor, f, acc);
      }
    }

    /** One field of a struct held in a register. */
    method ReadField(obj: Id, m: Member, total: nat, signed: bool) returns (id: Id)
      requires Ready()
      modifies this
      ensures (State(), id) == EmitUnpack(old(State()), obj, m, total, signed)
    {
      hide EmitBinary;
      if m.off == 0 && m.size >= total { return obj; }
      var shift := Iconst(I64, 8 * m.off);
      var shifted := Binary(Ushr, obj, shift);
      var mask := Iconst(if 8 * total <= 32 then I32 else I64, Pow2(8 * m.size) - 1);
      id := Binary(Band, shifted, mask);
      if signed && m.size < total {
        var have := TyOf(State(), id);
        if have == m.reg || (have == I64 && m.reg == I32) { return; }
        id := Define(Instr.Sextend(next, m.reg, id), m.reg);
      }
    }

    // ---- operands and phi arguments ----

    method Operand(o: J.Operand) returns (id: Option<Id>)
      requires Ready()
      modifies this
      ensures (State(), id) == Resolve(old(State()), o)
    {
      match o
      case SSA(n) => id := if n in ssa then Some(ssa[n]) else None;
      case Arg(k) => id := if k < nargs then Some(k) else None;
      case Lit(ty, v) => var c := Iconst(ty.Reg(), v); id := Some(c);
    }

    method Zero(ty: Option<J.JTy>) returns (id: Id)
      requires Ready()
      modifies this
      ensures (State(), id) == Placeholder(old(State()), ty)
    {
      id := Iconst(if ty.Some? then ty.value.Reg() else I64, 0);
    }

    method GetPhiArg(edges: seq<J.Edge>, ty: J.JTy, from: nat) returns (id: Option<Id>)
      requires Ready()
      modifies this
      ensures (State(), id) == PhiArg(old(State()), edges, ty, from)
    {
      match J.EdgeFrom(edges, from)
      case Some(Edge(_, Some(o))) => id := Operand(o);
      case _ => var z := Zero(Some(ty)); id := Some(z);
    }

    /** The arguments a block passes to the phis of its target. */
    method GetPhiArgs(p: J.Prog, from: nat, to: nat) returns (args: Option<seq<Id>>)
      requires Ready() && J.LaidOut(p) && to < |p.blocks|
      modifies this
      ensures (State(), args) == EdgeArgs(old(State()), p, from, to)
    {
      var vs := [];
      var si, last := p.blocks[to].first, p.blocks[to].last;
      ghost var whole := EdgeArgs(State(), p, from, to);
      AfterNone(whole);
      while si < last
        invariant Ready() && si <= last <= |p.stmts|
        invariant whole == After(vs, PhiArgs(State(), p, from, si, last))
      {
        if p.stmts[si].Phi? {
          var id := GetPhiArg(p.stmts[si].edges, p.stmts[si].ty, from);
          if id.None? { return None; }
          AfterOne(vs, id.value, PhiArgs(State(), p, from, si + 1, last));
          vs := vs + [id.value];
        }
        si := si + 1;
      }
      args := Some(vs);
      assert vs + [] == vs;
    }

    // ---- control flow ----

    method CoerceTo(v: Id, expected: Ty) returns (id: Id)
      requires Ready()
      modifies this
      ensures (State(), id) == Coerce(old(State()), v, expected)
    {
      var have := TyOf(State(), v);
      if have == I32 && expected == I64 { id := Define(Instr.Uextend(next, I64, v), I64); }
      else if have == I64 && expected == I32 { id := Define(Ireduce(next, I32, v), I32); }
      else { id := v; }
    }

    /** Brings an argument list to the target's parameter types. */
    method CoerceArgs(vs: seq<Id>, ps: seq<Id>) returns (out: seq<Id>)
      requires Ready()
      modifies this
      ensures (State(), out) == CoerceAll(old(State()), vs, ps)
    {
      out := [];
      ghost var whole := CoerceAll(State(), vs, ps);
      Whole(vs, ps, whole.1);
      for i := 0 to |vs|
        invariant Ready()
        invariant whole == Behind(out, CoerceAll(State(), vs[i..], Drop(ps, i)))
      {
        CoerceOne(vs, ps, i);
        var v := vs[i];
        if i < |ps| { v := CoerceTo(v, TyOf(State(), ps[i])); }
        BehindOne(out, v, CoerceAll(State(), vs[i + 1..], Drop(ps, i + 1)));
        out := out + [v];
      }
      assert out + [] == out;
    }

    method JumpWithArgs(target: nat, args: seq<Id>)
      requires Ready() && target < |params|
      modifies this
      ensures State() == EmitJump(old(State()), target, args)
    {
      var vs := CoerceArgs(args, params[target]);
      Append(Jump(target, vs));
    }

    method BrifWithArgs(cond: Id, thn: nat, thnArgs: seq<Id>, els: nat, elsArgs: seq<Id>)
      requires Ready() && thn < |params| && els < |params|
      modifies this
      ensures State() == EmitBrif(old(State()), cond, thn, thnArgs, els, elsArgs)
    {
      var ts := CoerceArgs(thnArgs, params[thn]);
      var es := CoerceArgs(elsArgs, params[els]);
      var cv := cond;
      if TyOf(State(), cond) != I8 { cv := Define(Ireduce(next, I8, cond), I8); }
      Append(Brif(cv, thn, ts, els, es));
    }

    method ReturnValue(p: J.Prog, v: Id)
      requires Ready()
      modifies this
      ensures State() == EmitReturn(old(State()), p, v)
    {
      var v1 := CoerceTo(v, RetTy(p));
      Append(Return(v1));
    }

    // ---- statements ----

    method Operands2(x: J.Operand, y: J.Operand) returns (ab: Option<(Id, Id)>)
      requires Ready()
      modifies this
      ensures (State(), ab) == Resolve2(old(State()), x, y)
    {
      var a := Operand(x);
      if a.None? { return None; }
      var b := Operand(y);
      if b.None? { return None; }
      ab := Some((a.value, b.value));
    }

    method CallResult(si: nat, op: J.Intrinsic, ty: J.JTy, a: Id, b: Id)
      requires Ready()
      modifies this
      ensures State() == EmitCall(old(State()), si, op, ty, a, b)
    {
      hide EmitOps, CallScript;
      var ids := Table(CallScript(op, ty), a, b);
      ssa := ssa[si := ids[2]];
      if op.CheckedRem? { pairs := pairs[si := (ids[2], ids[|ids| - 1])]; }
    }

    method PairResult(si: nat, kind: J.Arith, ty: J.JTy, a: Id, b: Id)
      requires Ready()
      modifies this
      ensures State() == EmitPair(old(State()), si, kind, ty, a, b)
    {
      hide EmitOps, CheckedScript;
      var ids := Table(CheckedScript(kind, ty), a, b);
      pairs := pairs[si := (ids[2], ids[|ids| - 1])];
    }

    /** A statement that is not a terminator; false is a thrown error. */
    method Value(p: J.Prog, si: nat) returns (ok: bool)
      requires Ready() && si < |p.stmts| && !p.stmts[si].IsTerminator()
      modifies this
      ensures (State(), ok) == EmitValue(old(State()), p, si)
    {
      hide Resolve2, Resolve, EmitCall, EmitPair, Frame, Lowering.Valid;
      ok := true;
      match p.stmts[si]
      case Call(op, ty, x, y) =>
        var ab := Operands2(x, y);
        if ab.None? { return false; }
        CallResult(si, op, ty, ab.value.0, ab.value.1);
      case Checked(kind, ty, x, y) =>
        var ab := Operands2(x, y);
        if ab.None? || ty.Bool? { return false; }
        PairResult(si, kind, ty, ab.value.0, ab.value.1);
      case GetField(q, second) =>
        if q !in pairs { return false; }
        ssa := ssa[si := if second then pairs[q].1 else pairs[q].0];
      case Pi(_, v) =>
        var id := Operand(v);
        if id.None? { return false; }
        ssa := ssa[si := id.value];
      case Unsupported(_) => return false;
      case _ =>
    }

    /** Both sides' argument lists: first the fall-through's, then the destination's. */
    method BothArgs(p: J.Prog, b: nat, ft: Option<nat>, dest: nat) returns (args: Option<(seq<Id>, seq<Id>)>)
      requires Ready() && J.LaidOut(p) && dest < |p.blocks| && (ft.Some? ==> ft.value < |p.blocks|)
      modifies this
      ensures (State(), args) == BranchArgs(old(State()), p, b, ft, dest)
    {
      hide EdgeArgs;
      var fargs := Some([]);
      if ft.Some? { fargs := GetPhiArgs(p, b, ft.value); }
      if fargs.None? { return None; }
      var dargs := GetPhiArgs(p, b, dest);
      if dargs.None? { return None; }
      args := Some((fargs.value, dargs.value));
    }

    method GotoIfNot(p: J.Prog, b: nat, cond: J.Operand, dest: nat) returns (ok: bool)
      requires Ready() && J.LaidOut(p) && b < |p.blocks| && dest < |p.blocks| && |params| == |p.blocks| + 1
      modifies this
      ensures (State(), ok) == EmitGotoIfNot(old(State()), p, b, cond, dest)
    {
      hide Resolve, BranchArgs, EmitBrif;
      var cv := Operand(cond);
      if cv.None? { return false; }
      var ft := Fallthrough(p.blocks[b].succs, dest);
      var args := BothArgs(p, b, ft, dest);
      if args.None? { return false; }
      BrifWithArgs(cv.value, (if ft.None? then dest else ft.value) + 1, args.value.0, dest + 1, args.value.1);
      ok := true;
    }

    method Terminator(p: J.Prog, b: nat, s: J.Stmt) returns (ok: bool)
      requires Ready() && J.LaidOut(p) && b < |p.blocks| && |params| == |p.blocks| + 1
      requires s.IsTerminator() && J.DestInRange(p, s)
      modifies this
      ensures (State(), ok) == EmitTerminator(old(State()), p, b, s)
    {
      hide EdgeArgs, EmitJump, EmitReturn, EmitGotoIfNot, Resolve;
      ok := true;
      match s
      case GotoNode(d) =>
        var args := GetPhiArgs(p, b, d);
        if args.None? { return false; }
        JumpWithArgs(d + 1, args.value);
      case GotoIfNot(cond, d) => ok := GotoIfNot(p, b, cond, d);
      case ReturnNode(v) =>
        var id := Operand(v);
        if id.None? { return false; }
        ReturnValue(p, id.value);
      case ReturnNothing =>
        var z := Iconst(I64, 0);
        ReturnValue(p, z);
      case Unreachable => Append(Trap);
      case ThrowCall => Append(Trap);
    }

    // ---- blocks ----

    /** One statement; after a tolerated error its value is a zero. */
    method Statement(p: J.Prog, b: nat, si: nat) returns (done: bool)
      requires Ready() && J.LaidOut(p) && b < |p.blocks| && si < |p.stmts| && |params| == |p.blocks| + 1
      modifies this
      ensures (State(), done) == EmitStmt(old(State()), p, b, si)
    {
      var term := p.stmts[si].IsTerminator();
      var ok: bool;
      if term { ok := Terminator(p, b, p.stmts[si]); } else { ok := Value(p, si); }
      if !ok {
        var z := Zero(SentinelTy(p, si));
        ssa := ssa[si := z];
      }
      done := ok && term;
    }

    /** A block's statements, up to its first terminator; true when one was emitted. */
    method Statements(p: J.Prog, b: nat) returns (done: bool)
      requires Ready() && J.LaidOut(p) && b < |p.blocks| && |params| == |p.blocks| + 1
      modifies this
      ensures (State(), done) == EmitStmts(old(State()), p, b, p.blocks[b].first)
    {
      hide EmitStmt, Frame, Lowering.Valid;
      var si, last, stop := p.blocks[b].first, p.blocks[b].last, false;
      done := false;
      ghost var whole := EmitStmts(State(), p, b, si);
      while si < last && !stop
        invariant Ready() && si <= last && |params| == |p.blocks| + 1
        invariant whole == if stop then (State(), done) else EmitStmts(State(), p, b, si)
        invariant !stop ==> !done
        decreases last - si
      {
        stop := p.stmts[si].IsTerminator();
        var emitted := Statement(p, b, si);
        done := stop && emitted;
        si := si + 1;
      }
    }

    /** One block; false abandons the function. */
    method Block(p: J.Prog, b: nat) returns (ok: bool)
      requires Ready() && J.LaidOut(p) && b < |p.blocks| && |params| == |p.blocks| + 1
      modifies this
      ensures EmitBlock(old(State()), p, b) == if ok then Some(State()) else None
    {
      hide EmitStmts, EdgeArgs, EmitJump;
      cur := b + 1;
      var done := Statements(p, b);
      var succs := p.blocks[b].succs;
      ok := true;
      if !done {
        if |succs| == 1 {
          var args := GetPhiArgs(p, b, succs[0]);
          if args.None? { return false; }
          JumpWithArgs(succs[0] + 1, args.value);
        } else {
          Append(Trap);
        }
      }
    }

    // ---- functions ----

    /** A block parameter for every phi of block b. */
    method BlockParams(p: J.Prog, b: nat)
      requires Ready() && J.LaidOut(p) && b < |p.blocks| && |params| == |p.blocks| + 1
      modifies this
      ensures State() == AddParams(old(State()), p, b, p.blocks[b].first, p.blocks[b].last)
    {
      var si, last := p.blocks[b].first, p.blocks[b].last;
      ghost var whole := AddParams(State(), p, b, si, last);
      while si < last
        invariant Ready() && si <= last && |params| == |p.blocks| + 1
        invariant AddParams(State(), p, b, si, last) == whole
      {
        if p.stmts[si].Phi? {
          params := params[b + 1 := params[b + 1] + [next]];
          types := types[next := p.stmts[si].ty.Reg()];
          ssa := ssa[si := next];
          next := next + 1;
        }
        si := si + 1;
      }
    }

    /** Compiles a whole function into a builder just created for it. */
    method CompileFunction(p: J.Prog) returns (ok: bool)
      requires J.LaidOut(p) && State() == Init(p)
      modifies this
      ensures Compile(p) == if ok then Some(State()) else None
    {
      for b := 0 to |p.blocks|
        invariant Ready() && |params| == |p.blocks| + 1
        invariant AddAllParams(State(), p, b) == AddAllParams(Init(p), p, 0)
      {
        BlockParams(p, b);
      }
      ok := true;
      var b := 0;
      while b < |p.blocks|
        invariant Ready() && b <= |p.blocks| && |params| == |p.blocks| + 1
        invariant EmitBlocks(State(), p, b) == Compile(p)
      {
        var done := Block(p, b);
        if !done { return false; }
        b := b + 1;
      }
    }
  }

  // ---- lists built front to back ----

  function Drop(s: seq<Id>, n: nat): seq<Id> {
    if n <= |s| then s[n..] else []
  }

  function Behind(vs: seq<Id>, rest: (Ctx, seq<Id>)): (Ctx, seq<Id>) { (rest.0, vs + rest.1) }

  lemma BehindOne(vs: seq<Id>, v: Id, rest: (Ctx, seq<Id>))
    ensures Behind(vs, Behind([v], rest)) == Behind(vs + [v], rest)
  {
    assert vs + ([v] + rest.1) == (vs + [v]) + rest.1;
  }

  lemma Whole(vs: seq<Id>, ps: seq<Id>, out: seq<Id>)
    ensures vs[0..] == vs && Drop(ps, 0) == ps && [] + out == out
  {
  }

  lemma CoerceOne(vs: seq<Id>, ps: seq<Id>, i: nat)
    requires i < |vs|
    ensures vs[i..] != [] && vs[i..][0] == vs[i] && vs[i..][1..] == vs[i + 1..]
    ensures i < |ps| ==> Drop(ps, i) != [] && Drop(ps, i)[0] == ps[i] && Drop(ps, i)[1..] == Drop(ps, i + 1)
    ensures i >= |ps| ==> Drop(ps, i) == [] && Drop(ps, i + 1) == []
  {
  }

  /** A list collected so far, followed by what the rest of the loop collects. */
  function After(vs: seq<Id>, rest: (Ctx, Option<seq<Id>>)): (Ctx, Option<seq<Id>>) {
    (rest.0, if rest.1.None? then None else Some(vs + rest.1.value))
  }

  lemma AfterNone(rest: (Ctx, Option<seq<Id>>))
    ensures After([], rest) == rest
  {
    if rest.1.Some? { assert [] + rest.1.value == rest.1.value; }
  }

  lemma AfterOne(vs: seq<Id>, v: Id, rest: (Ctx, Option<seq<Id>>))
    ensures After(vs, After([v], rest)) == After(vs + [v], rest)
  {
    if rest.1.Some? { assert vs + ([v] + rest.1.value) == (vs + [v]) + rest.1.value; }
  }
}

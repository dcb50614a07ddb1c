/** Euclid's loop, with two phis that read each other: `a, b = b, a % b` until b is zero. */
module Gcd {
  import opened Wrappers
  import Words
  import opened Lowering
  import opened Progress
  import opened Simulation
  import Machine
  import J = JuliaIR

  function Euclid(): J.Prog {
    J.Prog([J.UInt64, J.UInt64], Some(J.UInt64), Statements(),
           [J.Block(0, 1, [1]), J.Block(1, 5, [2, 3]), J.Block(5, 7, [1]), J.Block(7, 8, [])])
  }

  function Statements(): seq<J.Stmt> {
    [J.GotoNode(1),
     J.Phi(J.UInt64, [J.Edge(0, Some(J.Arg(0))), J.Edge(2, Some(J.SSA(2)))]),
     J.Phi(J.UInt64, [J.Edge(0, Some(J.Arg(1))), J.Edge(2, Some(J.SSA(5)))]),
     J.Call(J.NeInt, J.UInt64, J.SSA(2), J.Lit(J.UInt64, 0)),
     J.GotoIfNot(J.SSA(3), 3),
     J.Call(J.CheckedRem, J.UInt64, J.SSA(1), J.SSA(2)),
     J.GotoNode(1),
     J.ReturnNode(J.SSA(1))]
  }

  /** The header block dominates the loop body and the exit: it is their only predecessor. */
  lemma HeaderDominates(p: J.Prog, c: nat)
    requires p == Euclid() && (c == 2 || c == 3)
    ensures J.Dominates(p, 1, c)
  {
    forall path | J.IsPath(p, path) && path[|path| - 1] == c ensures 1 in path {
      var i := |path| - 2;
      assert path[i + 1] in p.blocks[path[i]].succs;
      assert path[i] == 1;
    }
  }

  lemma EuclidLaidOut(p: J.Prog)
    requires p == Euclid()
    ensures J.LaidOut(p) && J.NoEntryPhi(p)
  {
  }

  lemma EuclidTerminated(p: J.Prog)
    requires p == Euclid() && J.LaidOut(p)
    ensures J.Terminated(p)
  {
    hide J.LaidOut;
    forall b | 0 <= b < |p.blocks| ensures J.SuccsOK(p, b) {}
  }

  lemma EuclidTyped(p: J.Prog)
    requires p == Euclid()
    ensures J.Typed(p)
  {
    forall si | 0 <= si < |p.stmts| ensures J.StmtTyped(p, p.stmts[si]) {
      if si <= 2 { PhisTyped(p, si); } else if si <= 4 { TestTyped(p, si); } else { BodyTyped(p, si); }
    }
  }

  lemma PhisTyped(p: J.Prog, si: nat)
    requires p == Euclid() && si <= 2
    ensures J.StmtTyped(p, p.stmts[si])
  {
  }

  lemma TestTyped(p: J.Prog, si: nat)
    requires p == Euclid() && 3 <= si <= 4
    ensures J.StmtTyped(p, p.stmts[si])
  {
    ZeroTyped(p);
  }

  lemma ZeroTyped(p: J.Prog)
    ensures J.HasTy(p, J.Lit(J.UInt64, 0), J.UInt64)
  {
    hide Words.Pow2;
  }

  lemma BodyTyped(p: J.Prog, si: nat)
    requires p == Euclid() && 5 <= si < 8
    ensures J.StmtTyped(p, p.stmts[si])
  {
  }

  lemma EuclidOrdered(p: J.Prog)
    requires p == Euclid() && J.LaidOut(p)
    ensures J.Ordered(p)
  {
    hide J.LaidOut, J.UsableAt;
    forall si, o | 0 <= si < |p.stmts| && o in p.stmts[si].Operands() && o.SSA? ensures J.UsableAt(p, o.n, si) {
      OperandUsable(p, si, o);
    }
    forall si, e | 0 <= si < |p.stmts| && p.stmts[si].Phi? && e in p.stmts[si].edges
      && e.value.Some? && e.value.value.SSA? && e.pred < |p.blocks|
      ensures J.UsableAt(p, e.value.value.n, p.blocks[e.pred].last)
    {
      EdgeUsable(p, si, e);
    }
  }

  lemma OperandUsable(p: J.Prog, si: nat, o: J.Operand)
    requires p == Euclid() && si < |p.stmts| && o in p.stmts[si].Operands() && o.SSA?
    ensures J.UsableAt(p, o.n, si)
  {
  }

  lemma EdgeUsable(p: J.Prog, si: nat, e: J.Edge)
    requires p == Euclid() && si < |p.stmts| && p.stmts[si].Phi? && e in p.stmts[si].edges
    requires e.value.Some? && e.value.value.SSA? && e.pred < |p.blocks|
    ensures J.UsableAt(p, e.value.value.n, p.blocks[e.pred].last)
  {
  }

  /** Values are used in the block that defines them, or below the header. */
  lemma EuclidReaches(p: J.Prog, n: nat, b: nat, si: nat)
    requires p == Euclid() && J.LaidOut(p)
    requires (n == 2 && si == 3 && b == 1) || (n == 3 && si == 4 && b == 1) || (n in {1, 2} && si == 5 && b == 2)
      || (n == 1 && si == 7 && b == 3) || (n in {2, 5} && si == 7 && b == 2)
    ensures J.Reaches(p, n, b, si)
  {
    hide J.LaidOut, J.Dominates;
    if b != 1 { HeaderDominates(p, b); }
    assert J.In(p, if n == 5 then 2 else 1, n);
  }

  lemma EuclidStrict(p: J.Prog)
    requires p == Euclid() && J.LaidOut(p)
    ensures J.Strict(p)
  {
    hide J.LaidOut, J.Reaches;
    forall b: nat, si: nat, o | J.In(p, b, si) && o in p.stmts[si].Operands() && o.SSA?
      ensures J.Reaches(p, o.n, b, si)
    {
      EuclidReaches(p, o.n, b, si);
    }
    forall si, e | 0 <= si < |p.stmts| && p.stmts[si].Phi? && e in p.stmts[si].edges
      && e.value.Some? && e.value.value.SSA? && e.pred < |p.blocks|
      ensures J.Reaches(p, e.value.value.n, e.pred, p.blocks[e.pred].last)
    {
      EuclidReaches(p, e.value.value.n, e.pred, p.blocks[e.pred].last);
    }
  }

  lemma EuclidAssigned(p: J.Prog)
    requires p == Euclid()
    ensures PhisAssigned(p)
  {
  }

  lemma EuclidWellFormed()
    ensures J.WellFormed(Euclid()) && PhisAssigned(Euclid())
  {
    hide J.LaidOut, J.Terminated, J.Typed, J.Ordered, J.Strict, J.NoEntryPhi, PhisAssigned, Euclid;
    var p := Euclid();
    EuclidLaidOut(p);
    EuclidTerminated(p);
    EuclidTyped(p);
    EuclidOrdered(p);
    EuclidStrict(p);
    EuclidAssigned(p);
  }

  /** On any two 64-bit words, the machine code of Euclid's loop returns what the loop returns. */
  lemma EuclidCompiled(a: int, b: int, n: nat)
    requires J.ArgsOK(Euclid(), [a, b])
    ensures J.WellFormed(Euclid()) && Compile(Euclid()).Some?
    ensures var p := Euclid();
      var s, t := J.Run(p, [a, b], n), Machine.Run(Function(Compile(p).value, p), Started(p, [a, b]), n + 1);
      && (s.Returned? <==> t.Returned?) && (s.Threw? <==> t.Aborted?)
      && (s.Returned? && s.v.Some? ==> (p.ret.Some? && t.v == J.Rep(p.ret.value, s.v.value)))
  {
    hide J.WellFormed, Compile, PhisAssigned, J.ArgsOK;
    EuclidWellFormed();
    WellFormedLaidOut(Euclid());
    LoweringDecides(Euclid(), [a, b], n);
  }

  lemma WellFormedLaidOut(p: J.Prog)
    requires J.WellFormed(p)
    ensures J.LaidOut(p)
  {
  }
}

/** The function emitted for a well-formed program is one the Cranelift verifier accepts: values have one
    definition, which dominates their uses in the emitted control flow, and all types and arities agree.
    Were it rejected, a stub that traps would be compiled in its place. */
module Validity {
  import opened Wrappers
  import opened Words
  import opened Machine
  import opened Scripts
  import opened Lowering
  import opened BlockShape
  import opened EdgeAgreement
  import opened EmitRun
  import opened Tracking
  import opened StrictSsa
  import opened Edges
  import opened BlockRun
  import opened Entry
  import opened Simulation
  import opened ValidCode
  import opened Verifier
  import ScriptProofs
  import J = JuliaIR

  // ---- where values are defined ----

  /** id is a parameter of Julia block e's code, or defined by it. */
  predicate InBlock(c: Ctx, e: nat, id: Id) {
    e + 1 < |c.params| && e + 1 < |c.bodies| && (id in c.params[e + 1] || DefinedIn(c.bodies[e + 1], id))
  }

  /** id is available at the end of block d: an argument, or from d or a block that dominates it. */
  ghost predicate Homed(p: J.Prog, c: Ctx, d: nat, id: Id) {
    id < c.nargs || exists e: nat :: From(p, c, d, e, id)
  }

  ghost predicate From(p: J.Prog, c: Ctx, d: nat, e: nat, id: Id) {
    e < |p.blocks| && J.Dominates(p, e, d) && InBlock(c, e, id)
  }

  /** id is available from the start of block b. */
  ghost predicate Inherited(p: J.Prog, c: Ctx, b: nat, id: Id) {
    id < c.nargs || (b + 1 < |c.params| && id in c.params[b + 1]) || exists e: nat :: e != b && From(p, c, b, e, id)
  }

  ghost function Base(p: J.Prog, c: Ctx, b: nat): iset<Id> {
    iset id | Inherited(p, c, b, id)
  }

  lemma DominatesSelf(p: J.Prog, b: nat)
    ensures J.Dominates(p, b, b)
  {
  }

  lemma HomedHere(p: J.Prog, c0: Ctx, c: Ctx, b: nat, id: Id)
    requires Homed(p, c, b, id) && Frame(c0, c) && c.cur == b + 1
    ensures Here(c, Base(p, c0, b), id)
  {
    hide J.Dominates, DefinedBefore;
    if id >= c.nargs {
      var e: nat :| From(p, c, b, e, id);
      if e != b { assert From(p, c0, b, e, id); }
    }
  }

  lemma HereHomed(p: J.Prog, c0: Ctx, c: Ctx, b: nat, id: Id)
    requires Here(c, Base(p, c0, b), id) && Frame(c0, c) && c.cur == b + 1 && b < |p.blocks| && Valid(c)
    ensures Homed(p, c, b, id)
  {
    hide J.Dominates, DefinedBefore;
    DominatesSelf(p, b);
    if DefinedIn(c.bodies[c.cur], id) || id in c.params[b + 1] {
      assert From(p, c, b, b, id);
    } else if id >= c.nargs {
      var e: nat :| e != b && From(p, c0, b, e, id);
      assert From(p, c, b, e, id);
    }
  }

  /** Code only grows. */
  ghost predicate CodeGrows(c: Ctx, c': Ctx) {
    && c'.nargs == c.nargs && c'.params == c.params && |c'.bodies| == |c.bodies|
    && forall i | 0 <= i < |c.bodies| :: c.bodies[i] <= c'.bodies[i]
  }

  lemma DefinedOn(a: seq<Instr>, b: seq<Instr>, id: Id)
    requires a <= b && DefinedIn(a, id)
    ensures DefinedIn(b, id)
  {
    var j :| 0 <= j < |a| && Defines(a[j], id);
    assert Defines(b[j], id);
  }

  lemma FromOn(p: J.Prog, c: Ctx, c': Ctx, d: nat, e: nat, id: Id)
    requires From(p, c, d, e, id) && CodeGrows(c, c')
    ensures From(p, c', d, e, id)
  {
    hide J.Dominates, DefinedBefore;
    if DefinedIn(c.bodies[e + 1], id) { DefinedOn(c.bodies[e + 1], c'.bodies[e + 1], id); }
  }

  lemma HomedOn(p: J.Prog, c: Ctx, c': Ctx, d: nat, id: Id)
    requires Homed(p, c, d, id) && CodeGrows(c, c')
    ensures Homed(p, c', d, id)
  {
    hide From;
    if id >= c.nargs {
      var e: nat :| From(p, c, d, e, id);
      FromOn(p, c, c', d, e, id);
    }
  }

  lemma InheritedOn(p: J.Prog, c: Ctx, c': Ctx, b: nat, id: Id)
    requires Inherited(p, c, b, id) && CodeGrows(c, c')
    ensures Inherited(p, c', b, id)
  {
    hide From;
    if e: nat :| e != b && From(p, c, b, e, id) { FromOn(p, c, c', b, e, id); }
  }

  lemma HomedDown(p: J.Prog, c: Ctx, d: nat, b: nat, id: Id)
    requires Homed(p, c, d, id) && (d == b || J.Dominates(p, d, b))
    ensures Homed(p, c, b, id)
  {
    hide J.Dominates, InBlock;
    if id >= c.nargs && d != b {
      var e: nat :| From(p, c, d, e, id);
      DominatesTrans(p, e, d, b);
      assert From(p, c, b, e, id);
    }
  }

  /** Everything tracked is available where it was tracked. */
  ghost predicate AllHomed(p: J.Prog, c: Ctx)
    requires J.LaidOut(p)
  {
    && (forall n | n in c.ssa :: n < |p.stmts| && Homed(p, c, Owner(p, n), c.ssa[n]))
    && (forall q | q in c.pairs :: q < |p.stmts|
          && Homed(p, c, Owner(p, q), c.pairs[q].0) && Homed(p, c, Owner(p, q), c.pairs[q].1))
  }

  lemma AllHomedOn(p: J.Prog, c: Ctx, c': Ctx)
    requires J.LaidOut(p) && AllHomed(p, c) && CodeGrows(c, c') && c'.ssa == c.ssa && c'.pairs == c.pairs
    ensures AllHomed(p, c')
  {
    hide Homed, CodeGrows, J.LaidOut;
    forall n | n in c.ssa ensures Homed(p, c', Owner(p, n), c.ssa[n]) { HomedOn(p, c, c', Owner(p, n), c.ssa[n]); }
    forall q | q in c.pairs
      ensures Homed(p, c', Owner(p, q), c.pairs[q].0) && Homed(p, c', Owner(p, q), c.pairs[q].1)
    {
      HomedOn(p, c, c', Owner(p, q), c.pairs[q].0);
      HomedOn(p, c, c', Owner(p, q), c.pairs[q].1);
    }
  }

  lemma FrameGrows(c: Ctx, c': Ctx)
    requires Frame(c, c')
    ensures CodeGrows(c, c')
  {
  }

  // ---- operands ----

  /** n is in scope at statement si of block b. */
  lemma ScopeHomed(p: J.Prog, c: Ctx, b: nat, si: nat, n: nat, id: Id)
    requires J.LaidOut(p) && n < |p.stmts| && J.Reaches(p, n, b, si) && Homed(p, c, Owner(p, n), id)
    ensures Homed(p, c, b, id)
  {
    hide J.Dominates, Homed, J.LaidOut;
    var d: nat :| J.In(p, d, n) && if d == b then J.UsableAt(p, n, si) else J.Dominates(p, d, b);
    UniqueBlock(p, d, Owner(p, n), n);
    HomedDown(p, c, d, b, id);
  }

  /** The emission of block b, begun in c0, has come to c: its code is sane, and all that is tracked is
      available. */
  ghost predicate Sturdy(p: J.Prog, c0: Ctx, c: Ctx, b: nat) {
    && J.LaidOut(p) && b < |p.blocks| && c.cur == b + 1 && Valid(c) && Frame(c0, c)
    && Sane(c, Base(p, c0, b), RetTy(p)) && AllHomed(p, c)
  }

  ghost predicate InScope(p: J.Prog, o: J.Operand, b: nat, si: nat) {
    o.SSA? ==> o.n < |p.stmts| && J.Reaches(p, o.n, b, si)
  }

  lemma SturdyOn(p: J.Prog, c0: Ctx, c: Ctx, c': Ctx, b: nat)
    requires Sturdy(p, c0, c, b) && Valid(c') && Frame(c, c') && Sane(c', Base(p, c0, b), RetTy(p))
    requires c'.ssa == c.ssa && c'.pairs == c.pairs
    ensures Sturdy(p, c0, c', b)
  {
    hide AllHomed, Sane, J.LaidOut;
    FrameGrows(c, c');
    AllHomedOn(p, c, c');
  }

  lemma OperandSturdy(p: J.Prog, c0: Ctx, c: Ctx, b: nat, si: nat, o: J.Operand)
    requires Sturdy(p, c0, c, b) && InScope(p, o, b, si) && c.nargs == |p.args|
    ensures var (c1, id) := Resolve(c, o);
      if id.Some? then Sturdy(p, c0, c1, b) && Here(c1, Base(p, c0, b), id.value) else c1 == c
  {
    hide Sane, Homed, Here, J.Reaches, Base, J.LaidOut;
    match o
    case Lit(ty, v) =>
      IconstSane(c, ty.Reg(), v, Base(p, c0, b), RetTy(p));
      SturdyOn(p, c0, c, EmitIconst(c, ty.Reg(), v).0, b);
    case SSA(n) =>
      if n in c.ssa {
        ScopeHomed(p, c, b, si, n, c.ssa[n]);
        HomedHere(p, c0, c, b, c.ssa[n]);
      }
    case Arg(k) =>
      if k < c.nargs {
        ArgHomed(p, c, b, k);
        HomedHere(p, c0, c, b, k);
      }
  }

  lemma ArgHomed(p: J.Prog, c: Ctx, b: nat, k: nat)
    requires k < c.nargs
    ensures Homed(p, c, b, k)
  {
  }

  lemma Operand2Sturdy(p: J.Prog, c0: Ctx, c: Ctx, b: nat, si: nat, x: J.Operand, y: J.Operand)
    requires Sturdy(p, c0, c, b) && InScope(p, x, b, si) && InScope(p, y, b, si) && c.nargs == |p.args|
    ensures Valid(c)
    ensures var (c1, ab) := Resolve2(c, x, y);
      ab.Some? ==> Sturdy(p, c0, c1, b) && AllHere(c1, Base(p, c0, b), [ab.value.0, ab.value.1])
  {
    hide Sturdy, InScope, Resolve, Here, Base, Valid;
    SturdyValid(p, c0, c, b);
    OperandSturdy(p, c0, c, b, si, x);
    var (c1, a) := Resolve(c, x);
    if a.Some? {
      OperandSturdy(p, c0, c1, b, si, y);
      var (c2, d) := Resolve(c1, y);
      if d.Some? { HereOn(c1, c2, Base(p, c0, b), a.value); }
    }
  }

  lemma SturdyValid(p: J.Prog, c0: Ctx, c: Ctx, b: nat)
    requires Sturdy(p, c0, c, b)
    ensures Valid(c) && J.LaidOut(p) && b < |p.blocks| && c.cur == b + 1 && Frame(c0, c) && AllHomed(p, c)
    ensures Sane(c, Base(p, c0, b), RetTy(p))
  {
    hide AllHomed, Sane, J.LaidOut;
  }

  // ---- statements ----

  /** A tracked value that is here is available in its block. */
  lemma RecordHomed(p: J.Prog, c0: Ctx, c: Ctx, b: nat, si: nat, id: Id)
    requires Sturdy(p, c0, c, b) && J.In(p, b, si) && si < |p.stmts| && Here(c, Base(p, c0, b), id)
    ensures Sturdy(p, c0, Record(c, si, id), b)
  {
    hide Sane, Here, Base, J.LaidOut, Homed;
    HereHomed(p, c0, c, b, id);
    UniqueBlock(p, b, Owner(p, si), si);
    var c' := Record(c, si, id);
    FrameGrows(c, c');
    SaneSame(c, c', Base(p, c0, b), RetTy(p));
    forall n | n in c'.ssa ensures n < |p.stmts| && Homed(p, c', Owner(p, n), c'.ssa[n]) {
      if n == si { HomedOn(p, c, c', b, id); } else { HomedOn(p, c, c', Owner(p, n), c.ssa[n]); }
    }
    forall q | q in c.pairs
      ensures Homed(p, c', Owner(p, q), c.pairs[q].0) && Homed(p, c', Owner(p, q), c.pairs[q].1)
    {
      HomedOn(p, c, c', Owner(p, q), c.pairs[q].0);
      HomedOn(p, c, c', Owner(p, q), c.pairs[q].1);
    }
  }

  /** Sanity is about code and types alone. */
  lemma SaneSame(c: Ctx, c': Ctx, base: iset<Id>, ret: Ty)
    requires Sane(c, base, ret) && Valid(c') && c'.cur == c.cur && c'.bodies == c.bodies
    requires c'.types == c.types && c'.params == c.params && c'.next == c.next
    ensures Sane(c', base, ret)
  {
    hide TypeOK, OneDefinition, DefAt;
    forall k: nat | k < |c'.bodies[c'.cur]| ensures InstrOK(c', base, ret, k) { assert InstrOK(c, base, ret, k); }
  }

  lemma PairHomed(p: J.Prog, c0: Ctx, c: Ctx, b: nat, si: nat, x: Id, y: Id)
    requires Sturdy(p, c0, c, b) && J.In(p, b, si) && si < |p.stmts|
    requires Here(c, Base(p, c0, b), x) && Here(c, Base(p, c0, b), y)
    ensures Sturdy(p, c0, c.(pairs := c.pairs[si := (x, y)]), b)
  {
    hide Sane, Here, Base, J.LaidOut, Homed;
    HereHomed(p, c0, c, b, x);
    HereHomed(p, c0, c, b, y);
    UniqueBlock(p, b, Owner(p, si), si);
    var c' := c.(pairs := c.pairs[si := (x, y)]);
    FrameGrows(c, c');
    SaneSame(c, c', Base(p, c0, b), RetTy(p));
    forall n | n in c'.ssa ensures Homed(p, c', Owner(p, n), c'.ssa[n]) { HomedOn(p, c, c', Owner(p, n), c.ssa[n]); }
    forall q | q in c'.pairs
      ensures q < |p.stmts| && Homed(p, c', Owner(p, q), c'.pairs[q].0) && Homed(p, c', Owner(p, q), c'.pairs[q].1)
    {
      HomedOn(p, c, c', if q == si then b else Owner(p, q), c'.pairs[q].0);
      HomedOn(p, c, c', if q == si then b else Owner(p, q), c'.pairs[q].1);
    }
  }

  /** A table on two operands of one type, with a known run. */
  lemma TableSturdy(p: J.Prog, c0: Ctx, c: Ctx, b: nat, ops: seq<Op>, x: Id, y: Id, vs: seq<Value>)
    requires Sturdy(p, c0, c, b) && Valid(c) && Closed(ops, 2) && |ops| > 0 && Solves(ops, 2, vs)
    requires TypedId(c, x, vs[0].ty) && TypedId(c, y, vs[1].ty) && AllHere(c, Base(p, c0, b), [x, y])
    ensures var (c1, ids) := EmitOps(c, ops, 0, [x, y]);
      && Sturdy(p, c0, c1, b)
      && Here(c1, Base(p, c0, b), ids[2]) && Here(c1, Base(p, c0, b), ids[|ids| - 1])
  {
    hide Sturdy, EmitOps, EvalOp, Here, Base, TypedId, Sane, Pow2;
    SturdyValid(p, c0, c, b);
    OpsSane(c, ops, 0, [x, y], vs, Base(p, c0, b), RetTy(p));
    SturdyOn(p, c0, c, EmitOps(c, ops, 0, [x, y]).0, b);
  }

  lemma CallSturdy(p: J.Prog, c0: Ctx, c: Ctx, b: nat, si: nat, x: Id, y: Id)
    requires Sturdy(p, c0, c, b) && Valid(c) && J.In(p, b, si) && si < |p.stmts| && p.stmts[si].Call?
    requires var s := p.stmts[si];
      ScriptProofs.CallTyped(s.op, s.aty) && TypedId(c, x, s.aty.Reg()) && TypedId(c, y, s.aty.Reg())
    requires AllHere(c, Base(p, c0, b), [x, y])
    ensures Sturdy(p, c0, EmitCall(c, si, p.stmts[si].op, p.stmts[si].aty, x, y), b)
  {
    hide Sturdy, EmitOps, Here, Base, TypedId, Solves, CallScript, Wrap, Pow2, Valid, AllHere;
    var s := p.stmts[si];
    SmallHolds(s.aty);
    var vs := ScriptProofs.CallCorrect(s.op, s.aty, 0, 1);
    TableSturdy(p, c0, c, b, CallScript(s.op, s.aty), x, y, vs);
    var (c1, ids) := EmitOps(c, CallScript(s.op, s.aty), 0, [x, y]);
    RecordHomed(p, c0, c1, b, si, ids[2]);
    if s.op.CheckedRem? {
      var c2 := Record(c1, si, ids[2]);
      HereOn(c1, c2, Base(p, c0, b), ids[2]);
      HereOn(c1, c2, Base(p, c0, b), ids[|ids| - 1]);
      PairHomed(p, c0, c2, b, si, ids[2], ids[|ids| - 1]);
    }
  }

  lemma CheckedSturdy(p: J.Prog, c0: Ctx, c: Ctx, b: nat, si: nat, x: Id, y: Id)
    requires Sturdy(p, c0, c, b) && Valid(c) && J.In(p, b, si) && si < |p.stmts| && p.stmts[si].Checked?
    requires var s := p.stmts[si]; s.aty != J.Bool && TypedId(c, x, s.aty.Reg()) && TypedId(c, y, s.aty.Reg())
    requires AllHere(c, Base(p, c0, b), [x, y])
    ensures Sturdy(p, c0, EmitPair(c, si, p.stmts[si].kind, p.stmts[si].aty, x, y), b)
  {
    hide Sturdy, EmitOps, Here, Base, TypedId, Solves, CheckedScript, Wrap, Pow2, Valid, AllHere;
    var s := p.stmts[si];
    SmallHolds(s.aty);
    var vs := ScriptProofs.CheckedCorrect(s.kind, s.aty, 0, 0);
    TableSturdy(p, c0, c, b, CheckedScript(s.kind, s.aty), x, y, vs);
    var (c1, ids) := EmitOps(c, CheckedScript(s.kind, s.aty), 0, [x, y]);
    PairHomed(p, c0, c1, b, si, ids[2], ids[|ids| - 1]);
  }

  /** A statement's operands are in scope at it. */
  lemma OperandsInScope(p: J.Prog, b: nat, si: nat, o: J.Operand)
    requires Supported(p) && J.In(p, b, si) && si < |p.stmts| && o in p.stmts[si].Operands()
    ensures InScope(p, o, b, si)
  {
    hide J.Ordered, J.Typed, J.Terminated, J.Reaches;
    if o.SSA? { ReachesInRange(p, o.n, b, si); }
  }

  lemma ReachesInRange(p: J.Prog, n: nat, b: nat, si: nat)
    requires J.LaidOut(p) && J.Reaches(p, n, b, si)
    ensures n < |p.stmts|
  {
    hide J.Dominates;
    var d: nat :| J.In(p, d, n) && if d == b then J.UsableAt(p, n, si) else J.Dominates(p, d, b);
    assert p.blocks[d].last <= |p.stmts|;
  }

  lemma BinarySturdy(p: J.Prog, c0: Ctx, c: Ctx, b: nat, si: nat)
    requires Reached(p, c, b, si) && Sturdy(p, c0, c, b) && J.In(p, b, si) && si < |p.stmts| && Valid(c)
    requires p.stmts[si].Call? || p.stmts[si].Checked?
    ensures Sturdy(p, c0, EmitValue(c, p, si).0, b)
  {
    hide Sturdy, Tracks, Later, Resolve2, EmitCall, EmitPair, Sound, Frame, Here, Base, J.Terminated, TypedId,
      ParamsOKIf, Straight, AllHere;
    var s := p.stmts[si];
    BinaryTracks(p, c, si);
    assert J.StmtTyped(p, s);
    assert s.x in s.Operands() && s.y in s.Operands();
    OperandsInScope(p, b, si, s.x);
    OperandsInScope(p, b, si, s.y);
    ArgCount(p, c, si);
    Operand2Sturdy(p, c0, c, b, si, s.x, s.y);
    OperandsTrack(p, c, si, s.x, s.y, s.aty);
    var (c1, ab) := Resolve2(c, s.x, s.y);
    if s.Call? { CallSturdy(p, c0, c1, b, si, ab.value.0, ab.value.1); }
    else { CheckedSturdy(p, c0, c1, b, si, ab.value.0, ab.value.1); }
  }

  lemma ArgCount(p: J.Prog, c: Ctx, si: nat)
    requires Tracks(p, c, si)
    ensures c.nargs == |p.args|
  {
  }

  lemma FieldSturdy(p: J.Prog, c0: Ctx, c: Ctx, b: nat, si: nat)
    requires Reached(p, c, b, si) && Sturdy(p, c0, c, b) && J.In(p, b, si) && si < |p.stmts| && Valid(c)
    requires p.stmts[si].GetField?
    ensures Sturdy(p, c0, EmitValue(c, p, si).0, b)
  {
    hide Tracks, Here, Base, Sane, Homed, Supported, J.Reaches, ParamsOKIf;
    var s := p.stmts[si];
    assert J.SSA(s.pair) in s.Operands();
    OperandsInScope(p, b, si, J.SSA(s.pair));
    if s.pair in c.pairs {
      var id := if s.second then c.pairs[s.pair].1 else c.pairs[s.pair].0;
      ScopeHomed(p, c, b, si, s.pair, id);
      HomedHere(p, c0, c, b, id);
      RecordHomed(p, c0, c, b, si, id);
    }
  }

  lemma PiSturdy(p: J.Prog, c0: Ctx, c: Ctx, b: nat, si: nat)
    requires Reached(p, c, b, si) && Sturdy(p, c0, c, b) && J.In(p, b, si) && si < |p.stmts| && Valid(c)
    requires p.stmts[si].Pi?
    ensures Sturdy(p, c0, EmitValue(c, p, si).0, b)
  {
    hide Sturdy, Tracks, Here, Base, Supported, InScope, ParamsOKIf, Resolve;
    var s := p.stmts[si];
    assert s.v in s.Operands();
    OperandsInScope(p, b, si, s.v);
    ArgCount(p, c, si);
    OperandSturdy(p, c0, c, b, si, s.v);
    var (c1, id) := Resolve(c, s.v);
    if id.Some? { RecordHomed(p, c0, c1, b, si, id.value); }
  }

  lemma ValueSturdy(p: J.Prog, c0: Ctx, c: Ctx, b: nat, si: nat)
    requires Reached(p, c, b, si) && Sturdy(p, c0, c, b) && si < p.blocks[b].last && !p.stmts[si].IsTerminator()
    requires Valid(c)
    ensures Sturdy(p, c0, EmitValue(c, p, si).0, b)
  {
    hide Sturdy, Reached, Supported, ParamsOKIf, Tracks;
    SturdyValid(p, c0, c, b);
    ReachedFrom(p, c, b, si);
    BlockStmt(p, b, si);
    match p.stmts[si]
    case Call(_, _, _, _) => BinarySturdy(p, c0, c, b, si);
    case Checked(_, _, _, _) => BinarySturdy(p, c0, c, b, si);
    case GetField(_, _) => FieldSturdy(p, c0, c, b, si);
    case Pi(_, _) => PiSturdy(p, c0, c, b, si);
    case _ =>
  }

  lemma ReachedFrom(p: J.Prog, c: Ctx, b: nat, si: nat)
    requires Reached(p, c, b, si)
    ensures b < |p.blocks| && p.blocks[b].first <= si <= p.blocks[b].last && Supported(p) && Tracks(p, c, si)
    ensures Valid(c) && |c.params| == |p.blocks| + 1 && ParamsOKIf(p, c) && J.LaidOut(p)
  {
    hide Tracks, ParamsOKIf, J.Ordered, J.Strict, J.Typed, J.Terminated, J.LaidOut;
  }

  // ---- arguments of an edge ----

  /** What phis take from block b is in scope at its end. */
  lemma EdgeInScope(p: J.Prog, b: nat, n: nat)
    requires Supported(p) && b < |p.blocks| && n < |p.stmts| && p.stmts[n].Phi?
    requires EdgeOperand(p.stmts[n].edges, b).Some?
    ensures InScope(p, EdgeOperand(p.stmts[n].edges, b).value, b, p.blocks[b].last)
  {
    hide J.Ordered, J.Typed, J.Terminated, J.Reaches;
    EdgeFromIn(p.stmts[n].edges, b);
    var o := EdgeOperand(p.stmts[n].edges, b).value;
    if o.SSA? {
      var e := J.EdgeFrom(p.stmts[n].edges, b).value;
      assert J.Reaches(p, e.value.value.n, e.pred, p.blocks[e.pred].last);
      ReachesInRange(p, o.n, b, p.blocks[b].last);
    }
  }

  lemma PhiArgSturdy(p: J.Prog, c0: Ctx, c: Ctx, b: nat, n: nat)
    requires Supported(p) && Sturdy(p, c0, c, b) && c.nargs == |p.args| && Valid(c)
    requires n < |p.stmts| && p.stmts[n].Phi?
    ensures var (c1, id) := PhiArg(c, p.stmts[n].edges, p.stmts[n].ty, b);
      id.Some? ==> Sturdy(p, c0, c1, b) && Here(c1, Base(p, c0, b), id.value)
  {
    hide Sturdy, Supported, Here, Base, InScope, Resolve, Sane;
    SturdyValid(p, c0, c, b);
    var o := EdgeOperand(p.stmts[n].edges, b);
    if o.Some? {
      EdgeInScope(p, b, n);
      OperandSturdy(p, c0, c, b, p.blocks[b].last, o.value);
    } else {
      var ty := p.stmts[n].ty.Reg();
      IconstSane(c, ty, 0, Base(p, c0, b), RetTy(p));
      SturdyOn(p, c0, c, EmitIconst(c, ty, 0).0, b);
    }
  }

  lemma {:induction false} PhiArgsSturdy(p: J.Prog, c0: Ctx, c: Ctx, b: nat, si: nat, last: nat)
    requires Supported(p) && Sturdy(p, c0, c, b) && c.nargs == |p.args| && Valid(c) && last <= |p.stmts|
    ensures var (c1, ids) := PhiArgs(c, p, b, si, last);
      ids.Some? ==> Sturdy(p, c0, c1, b) && AllHere(c1, Base(p, c0, b), ids.value)
    decreases last - si
  {
    hide Sturdy, Supported, Here, Base, PhiArg;
    if si < last {
      if p.stmts[si].Phi? {
        PhiArgSturdy(p, c0, c, b, si);
        var (c1, a) := PhiArg(c, p.stmts[si].edges, p.stmts[si].ty, b);
        if a.Some? {
          PhiArgsSturdy(p, c0, c1, b, si + 1, last);
          var c2 := PhiArgs(c1, p, b, si + 1, last).0;
          HereOn(c1, c2, Base(p, c0, b), a.value);
        }
      } else {
        PhiArgsSturdy(p, c0, c, b, si + 1, last);
      }
    }
  }

  lemma EdgeArgsSturdy(p: J.Prog, c0: Ctx, c: Ctx, b: nat, d: nat)
    requires b < |p.blocks| && Sturdy(p, c0, c, b) && Reached(p, c, b, p.blocks[b].last) && Valid(c) && J.LaidOut(p)
      && d < |p.blocks|
    ensures var (c1, ids) := EdgeArgs(c, p, b, d);
      && ids.Some? && Sturdy(p, c0, c1, b) && AllHere(c1, Base(p, c0, b), ids.value)
      && Reached(p, c1, b, p.blocks[b].last) && Ready(p, c1, d, ids.value)
  {
    hide Sturdy, Reached, Ready, Here, Base, PhiArgs, Supported, ParamsOKIf, Tracks;
    ReachedFrom(p, c, b, p.blocks[b].last);
    ArgCount(p, c, p.blocks[b].last);
    LastInRange(p, d);
    PhiArgsSturdy(p, c0, c, b, p.blocks[d].first, p.blocks[d].last);
    EdgeArgsStatic(p, c, b, d);
  }

  lemma {:induction false} AlignedMatch(p: J.Prog, c: Ctx, si: nat, last: nat, ids: seq<Id>, params: seq<Id>)
    requires last <= |p.stmts| && Aligned(p, c, si, last, ids) && Aligned(p, c, si, last, params)
    ensures |ids| == |params|
    ensures forall i | 0 <= i < |ids| :: params[i] in c.types && Has(c.types, ids[i], c.types[params[i]])
    decreases last - si
  {
    if si < last {
      if p.stmts[si].Phi? {
        AlignedMatch(p, c, si + 1, last, ids[1..], params[1..]);
        assert ids == [ids[0]] + ids[1..] && params == [params[0]] + params[1..];
      } else {
        AlignedMatch(p, c, si + 1, last, ids, params);
      }
    }
  }

  /** Arguments that are ready for a block match its parameters. */
  lemma ReadyMatches(p: J.Prog, c: Ctx, d: nat, ids: seq<Id>, t: nat)
    requires Ready(p, c, d, ids) && Tracks(p, c, t) && ParamsOKIf(p, c)
    ensures Matching(c.types, ids, c.params, d + 1)
  {
    hide Values, Pairs, Args, Aligned, CoerceAll, PhiIds;
    var first, last := p.blocks[d].first, p.blocks[d].last;
    ParamsAligned(p, c, first, last, t);
    AlignedMatch(p, c, first, last, ids, c.params[d + 1]);
  }

  lemma AllHereUses(c: Ctx, base: iset<Id>, ids: seq<Id>, id: Id)
    requires AllHere(c, base, ids) && id in ids
    ensures Here(c, base, id)
  {
    hide Here;
  }

  // ---- terminators ----

  /** A terminator pushed onto sturdy code. */
  lemma CloseSturdy(p: J.Prog, c0: Ctx, c: Ctx, b: nat, i: Instr)
    requires Sturdy(p, c0, c, b) && Valid(c) && i.IsTerminator() && TypeOK(c.types, c.params, RetTy(p), i)
    requires forall id | id in Uses(i) :: Here(c, Base(p, c0, b), id)
    ensures Sturdy(p, c0, Push(c, i), b)
  {
    hide Sturdy, Here, Base, TypeOK, Uses;
    SturdyValid(p, c0, c, b);
    PushSane(c, i, Push(c, i), Base(p, c0, b), RetTy(p));
    SturdyOn(p, c0, c, Push(c, i), b);
  }

  lemma JumpSturdy(p: J.Prog, c0: Ctx, c: Ctx, b: nat, d: nat, ids: seq<Id>)
    requires b < |p.blocks| && Sturdy(p, c0, c, b) && Reached(p, c, b, p.blocks[b].last) && Ready(p, c, d, ids)
      && Valid(c)
    requires AllHere(c, Base(p, c0, b), ids) && d + 1 < |c.params|
    ensures Sturdy(p, c0, EmitJump(c, d + 1, ids), b)
  {
    hide Sturdy, Reached, Ready, Here, Base, CoerceAll, Supported, ParamsOKIf, Tracks, AllHere;
    ReachedFrom(p, c, b, p.blocks[b].last);
    ReadyMatches(p, c, d, ids, p.blocks[b].last);
    JumpPlain(p, c, d, ids);
    var i := Jump(d + 1, ids);
    forall id | id in Uses(i) ensures Here(c, Base(p, c0, b), id) { AllHereUses(c, Base(p, c0, b), ids, id); }
    CloseSturdy(p, c0, c, b, i);
  }

  lemma JumpPlain(p: J.Prog, c: Ctx, d: nat, ids: seq<Id>)
    requires Ready(p, c, d, ids)
    ensures EmitJump(c, d + 1, ids) == Push(c, Jump(d + 1, ids))
  {
    hide CoerceAll, Aligned, J.LaidOut;
  }

  lemma GotoSturdy(p: J.Prog, c0: Ctx, c: Ctx, b: nat, d: nat)
    requires b < |p.blocks| && Sturdy(p, c0, c, b) && Reached(p, c, b, p.blocks[b].last) && Valid(c) && J.LaidOut(p)
      && d < |p.blocks|
    ensures var (c1, ids) := EdgeArgs(c, p, b, d);
      ids.Some? && d + 1 < |c1.params| && Sturdy(p, c0, EmitJump(c1, d + 1, ids.value), b)
  {
    hide Sturdy, Reached, Ready, Here, Base, EmitJump, EdgeArgs, AllHere, Supported, ParamsOKIf, Tracks;
    EdgeArgsSturdy(p, c0, c, b, d);
    var (c1, ids) := EdgeArgs(c, p, b, d);
    ReachedFrom(p, c1, b, p.blocks[b].last);
    JumpSturdy(p, c0, c1, b, d, ids.value);
  }

  /** The condition is reduced to a byte before the branch. */
  lemma BrifSturdy(p: J.Prog, c0: Ctx, c: Ctx, b: nat, cv: Id, t: nat, f: seq<Id>, d: nat, g: seq<Id>)
    requires b < |p.blocks| && Sturdy(p, c0, c, b) && Reached(p, c, b, p.blocks[b].last) && Valid(c)
    requires Ready(p, c, t, f) && Ready(p, c, d, g) && TypedId(c, cv, I32) && Here(c, Base(p, c0, b), cv)
    requires AllHere(c, Base(p, c0, b), f) && AllHere(c, Base(p, c0, b), g)
    requires t + 1 < |c.params| && d + 1 < |c.params|
    ensures Sturdy(p, c0, EmitBrif(c, cv, t + 1, f, d + 1, g), b)
  {
    hide Sturdy, Reached, Ready, Here, Base, Supported, ParamsOKIf, Tracks, AllHere, Sane, EmitBrif;
    SturdyValid(p, c0, c, b);
    var base := Base(p, c0, b);
    BrifPlain(p, c, cv, t, f, d, g);
    DefSane(c, Ireduce(c.next, I8, cv), I8, base, RetTy(p));
    var (c1, id) := Def(c, Ireduce(c.next, I8, cv), I8);
    SturdyOn(p, c0, c, c1, b);
    AllHereOn(c, c1, base, f);
    AllHereOn(c, c1, base, g);
    ReachedFrom(p, c, b, p.blocks[b].last);
    ReadyMatches(p, c, t, f, p.blocks[b].last);
    ReadyMatches(p, c, d, g, p.blocks[b].last);
    MatchingOn(c, c1, f, t + 1);
    MatchingOn(c, c1, g, d + 1);
    var i := Brif(id, t + 1, f, d + 1, g);
    forall u | u in Uses(i) ensures Here(c1, base, u) {
      if u in f { AllHereUses(c1, base, f, u); } else if u in g { AllHereUses(c1, base, g, u); }
    }
    CloseSturdy(p, c0, c1, b, i);
  }

  lemma MatchingOn(c: Ctx, c': Ctx, ids: seq<Id>, t: nat)
    requires Matching(c.types, ids, c.params, t) && Frame(c, c')
    ensures Matching(c'.types, ids, c'.params, t)
  {
  }

  /** Both argument lists of a conditional, with everything resolved before them still here. */
  lemma BothEdgesSturdy(p: J.Prog, c0: Ctx, c: Ctx, b: nat, cv: Id, t: nat, d: nat)
    requires b < |p.blocks| && Sturdy(p, c0, c, b) && Reached(p, c, b, p.blocks[b].last) && Valid(c) && J.LaidOut(p)
    requires t < |p.blocks| && d < |p.blocks| && TypedId(c, cv, I32) && Here(c, Base(p, c0, b), cv)
    ensures var (c2, args) := BranchArgs(c, p, b, Some(t), d);
      && args.Some? && t + 1 < |c2.params| && d + 1 < |c2.params|
      && Sturdy(p, c0, EmitBrif(c2, cv, t + 1, args.value.0, d + 1, args.value.1), b)
  {
    hide Sturdy, Reached, Ready, Here, Base, EdgeArgs, AllHere, Supported, ParamsOKIf, Tracks, EmitBrif, TypedId;
    var base := Base(p, c0, b);
    EdgeArgsSturdy(p, c0, c, b, t);
    var (c1, f) := EdgeArgs(c, p, b, t);
    EdgeArgsSturdy(p, c0, c1, b, d);
    var (c2, g) := EdgeArgs(c1, p, b, d);
    ReadyKept(p, c1, c2, b, p.blocks[b].last, t, f.value);
    AllHereOn(c1, c2, base, f.value);
    HereOn(c, c1, base, cv);
    HereOn(c1, c2, base, cv);
    TypedIdLater(c, c1, cv, I32);
    TypedIdLater(c1, c2, cv, I32);
    ReachedFrom(p, c2, b, p.blocks[b].last);
    BrifSturdy(p, c0, c2, b, cv, t, f.value, d, g.value);
  }

  lemma CondSturdy(p: J.Prog, c0: Ctx, c: Ctx, b: nat, si: nat)
    requires b < |p.blocks| && Sturdy(p, c0, c, b) && Reached(p, c, b, p.blocks[b].last) && Tracks(p, c, si)
    requires J.In(p, b, si) && si < |p.stmts| && p.stmts[si].GotoIfNot? && J.LaidOut(p) && Valid(c)
    requires |c.params| == |p.blocks| + 1 && p.stmts[si].dest < |p.blocks|
    ensures Sturdy(p, c0, EmitGotoIfNot(c, p, b, p.stmts[si].cond, p.stmts[si].dest).0, b)
  {
    hide Sturdy, Here, Base, BranchArgs, EmitBrif, ParamsOKIf, Tracks, Resolve, InScope, TypedId, Fallthrough,
      J.Ordered, J.LaidOut, Later, J.HasTy, Frame, Sound;
    var s := p.stmts[si];
    CondTargets(p, b, si);
    assert J.StmtTyped(p, s);
    assert s.cond in s.Operands();
    OperandsInScope(p, b, si, s.cond);
    OperandInOrder(p, si, s.cond, J.Bool);
    ArgCount(p, c, si);
    OperandSturdy(p, c0, c, b, si, s.cond);
    ResolveTracks(p, c, s.cond, J.Bool, si);
    var (c1, cv) := Resolve(c, s.cond);
    QuietTracks(p, c, c1, p.blocks[b].last);
    BothEdgesSturdy(p, c0, c1, b, cv.value, b + 1, s.dest);
  }

  lemma ReturnSturdy(p: J.Prog, c0: Ctx, c: Ctx, b: nat, id: Id)
    requires Sturdy(p, c0, c, b) && Valid(c) && Here(c, Base(p, c0, b), id) && TypedId(c, id, RetTy(p))
    ensures Sturdy(p, c0, EmitReturn(c, p, id), b)
  {
    hide Sturdy, Here, Base, RetTy;
    CloseSturdy(p, c0, c, b, Return(id));
  }

  lemma ValueReturnSturdy(p: J.Prog, c0: Ctx, c: Ctx, b: nat, si: nat)
    requires Supported(p) && Sturdy(p, c0, c, b) && Tracks(p, c, si) && J.In(p, b, si) && si < |p.stmts| && Valid(c)
    requires p.stmts[si].ReturnNode?
    ensures var (c1, id) := Resolve(c, p.stmts[si].v);
      id.Some? && Sturdy(p, c0, EmitReturn(c1, p, id.value), b)
  {
    hide Sturdy, Here, Base, Tracks, Resolve, InScope, TypedId, J.Ordered, J.LaidOut, Later, J.HasTy, Frame, Sound,
      EmitReturn, J.Terminated;
    var s := p.stmts[si];
    assert J.StmtTyped(p, s);
    assert s.v in s.Operands();
    OperandsInScope(p, b, si, s.v);
    OperandInOrder(p, si, s.v, p.ret.value);
    ArgCount(p, c, si);
    OperandSturdy(p, c0, c, b, si, s.v);
    ResolveTracks(p, c, s.v, p.ret.value, si);
    var (c1, id) := Resolve(c, s.v);
    ReturnSturdy(p, c0, c1, b, id.value);
  }

  lemma NothingReturnSturdy(p: J.Prog, c0: Ctx, c: Ctx, b: nat)
    requires Sturdy(p, c0, c, b) && Valid(c) && p.ret.None?
    ensures Sturdy(p, c0, EmitReturn(EmitIconst(c, I64, 0).0, p, EmitIconst(c, I64, 0).1), b)
  {
    hide Sturdy, Here, Base, Sane, EmitReturn;
    SturdyValid(p, c0, c, b);
    IconstSane(c, I64, 0, Base(p, c0, b), RetTy(p));
    var (c1, z) := EmitIconst(c, I64, 0);
    SturdyOn(p, c0, c, c1, b);
    ReturnSturdy(p, c0, c1, b, z);
  }

  lemma TermSturdy(p: J.Prog, c0: Ctx, c: Ctx, b: nat, si: nat)
    requires Reached(p, c, b, si) && Sturdy(p, c0, c, b) && si < p.blocks[b].last && p.stmts[si].IsTerminator()
    requires Valid(c) && |c.params| == |p.blocks| + 1 && J.LaidOut(p) && J.DestInRange(p, p.stmts[si])
    ensures Sturdy(p, c0, EmitTerminator(c, p, b, p.stmts[si]).0, b)
  {
    hide Sturdy, Reached, Supported, ParamsOKIf, Tracks, EdgeArgs, EmitJump, EmitGotoIfNot, EmitReturn, J.LaidOut,
      Resolve, EmitIconst;
    ReachedFrom(p, c, b, si);
    BlockStmt(p, b, si);
    TermStatic(p, c, b, si);
    ReachedEnd(p, c, b, si);
    match p.stmts[si]
    case GotoNode(d) => GotoSturdy(p, c0, c, b, d);
    case GotoIfNot(_, _) => CondSturdy(p, c0, c, b, si);
    case ReturnNode(_) => ValueReturnSturdy(p, c0, c, b, si);
    case ReturnNothing => NoReturnType(p, si); NothingReturnSturdy(p, c0, c, b);
    case _ => CloseSturdy(p, c0, c, b, Trap);
  }

  lemma NoReturnType(p: J.Prog, si: nat)
    requires Supported(p) && si < |p.stmts| && p.stmts[si].ReturnNothing?
    ensures p.ret.None?
  {
    hide Sound, J.Ordered, J.Terminated, J.LaidOut;
    assert J.StmtTyped(p, p.stmts[si]);
  }

  lemma ReachedEnd(p: J.Prog, c: Ctx, b: nat, si: nat)
    requires Reached(p, c, b, si) && si + 1 == p.blocks[b].last && si < |p.stmts| && p.stmts[si].IsTerminator()
    ensures Reached(p, c, b, p.blocks[b].last)
  {
    hide Tracks, Supported, ParamsOKIf;
    SkipTracks(p, c, si);
  }

  // ---- blocks ----

  lemma {:induction false} StmtsSturdy(p: J.Prog, c0: Ctx, c: Ctx, b: nat, si: nat)
    requires Reached(p, c, b, si) && Sturdy(p, c0, c, b) && (si == p.blocks[b].last ==> !EndsInTerminator(p, b))
    requires Valid(c) && |c.params| == |p.blocks| + 1 && J.LaidOut(p)
    ensures Sturdy(p, c0, EmitStmts(c, p, b, si).0, b)
    decreases p.blocks[b].last - si
  {
    hide Sturdy, Reached, Supported, ParamsOKIf, Tracks, EmitValue, EmitTerminator, Sentinel, J.LaidOut, Later, Frame;
    ReachedFrom(p, c, b, si);
    if si < p.blocks[b].last {
      BlockStmt(p, b, si);
      if p.stmts[si].IsTerminator() {
        TermSturdy(p, c0, c, b, si);
        TermStatic(p, c, b, si);
      } else {
        ValueSturdy(p, c0, c, b, si);
        ValueStatic(p, c, b, si);
        var c1 := EmitValue(c, p, si).0;
        ReachedFrom(p, c1, b, si + 1);
        StmtsSturdy(p, c0, c1, b, si + 1);
      }
    }
  }

  lemma EndSturdy(p: J.Prog, c0: Ctx, c: Ctx, b: nat, done: bool)
    requires b < |p.blocks| && Sturdy(p, c0, c, b) && Reached(p, c, b, p.blocks[b].last)
    requires Valid(c) && |c.params| == |p.blocks| + 1 && J.LaidOut(p) && (done <==> EndsInTerminator(p, b))
    ensures EndBlock(c, p, b, done).Some? && Sturdy(p, c0, EndBlock(c, p, b, done).value, b)
  {
    hide Sturdy, Reached, Supported, ParamsOKIf, Tracks, EdgeArgs, EmitJump, J.LaidOut;
    if !done {
      ReachedFrom(p, c, b, p.blocks[b].last);
      FallsThrough(p, b);
      GotoSturdy(p, c0, c, b, b + 1);
    }
  }

  lemma StartSturdy(p: J.Prog, c: Ctx, b: nat)
    requires J.LaidOut(p) && b < |p.blocks| && Valid(c) && |c.params| == |p.blocks| + 1 && AllHomed(p, c)
    requires c.bodies[b + 1] == [] && Unique(c)
    ensures var c0 := c.(cur := b + 1); Sturdy(p, c0, c0, b)
  {
    hide Homed, J.LaidOut, Base, OneDefinition, DefAt;
    var c0 := c.(cur := b + 1);
    assert CodeGrows(c, c0);
    AllHomedOn(p, c, c0);
  }

  lemma BlockSturdy(p: J.Prog, c: Ctx, b: nat)
    requires b < |p.blocks| && Reached(p, c, b, p.blocks[b].first) && J.LaidOut(p) && AllHomed(p, c)
    requires Valid(c) && |c.params| == |p.blocks| + 1 && c.bodies[b + 1] == [] && Unique(c)
    ensures EmitBlock(c, p, b).Some? && Sturdy(p, c.(cur := b + 1), EmitBlock(c, p, b).value, b)
  {
    hide Sturdy, Reached, Supported, ParamsOKIf, Tracks, EmitStmts, EndBlock, J.LaidOut, AllHomed, Later;
    var c0, first := c.(cur := b + 1), p.blocks[b].first;
    CurReached(p, c, b, first);
    StartSturdy(p, c, b);
    EmptyBlock(p, b);
    StmtsStatic(p, c0, b, first);
    StmtsSturdy(p, c0, c0, b, first);
    var (c1, done) := EmitStmts(c0, p, b, first);
    ReachedFrom(p, c1, b, p.blocks[b].last);
    EndSturdy(p, c0, c1, b, done);
  }

  lemma EmptyBlock(p: J.Prog, b: nat)
    requires J.LaidOut(p) && b < |p.blocks|
    ensures p.blocks[b].first == p.blocks[b].last ==> !EndsInTerminator(p, b)
  {
    hide J.LaidOut;
  }

  // ---- where a block leads ----

  /** An instruction of block b branches to Julia successors of b only. */
  predicate IntoSuccs(p: J.Prog, b: nat, i: Instr)
    requires b < |p.blocks|
  {
    forall t | t in Targets(i) :: t > 0 && t - 1 in p.blocks[b].succs
  }

  lemma TermInto(p: J.Prog, c: Ctx, b: nat, si: nat)
    requires J.LaidOut(p) && J.Terminated(p) && J.In(p, b, si) && si < |p.stmts| && p.stmts[si].IsTerminator()
    requires Valid(c) && |c.params| == |p.blocks| + 1 && J.DestInRange(p, p.stmts[si])
    requires EmitTerminator(c, p, b, p.stmts[si]).1
    ensures var c' := EmitTerminator(c, p, b, p.stmts[si]).0;
      c'.bodies[c'.cur] != [] && IntoSuccs(p, b, LastOf(c'))
  {
    hide EdgeArgs, EmitGotoIfNot, EmitJump, EmitReturn, Resolve, J.LaidOut, EmitIconst;
    match p.stmts[si]
    case GotoNode(d) =>
      var (c1, args) := EdgeArgs(c, p, b, d);
      assert J.SuccsOK(p, b);
      assert d in p.blocks[b].succs;
      JumpLast(c1, d + 1, args.value);
    case GotoIfNot(cond, d) => CondInto(p, c, b, si);
    case ReturnNode(v) => ReturnLast(Resolve(c, v).0, p, Resolve(c, v).1.value);
    case ReturnNothing => ReturnLast(EmitIconst(c, I64, 0).0, p, EmitIconst(c, I64, 0).1);
    case _ =>
  }

  lemma JumpLast(c: Ctx, t: nat, args: seq<Id>)
    requires Valid(c) && t < |c.params|
    ensures var c' := EmitJump(c, t, args); c'.bodies[c'.cur] != [] && Targets(LastOf(c')) == {t}
  {
    hide CoerceAll;
  }

  lemma ReturnLast(c: Ctx, p: J.Prog, v: Id)
    requires Valid(c)
    ensures var c' := EmitReturn(c, p, v); c'.bodies[c'.cur] != [] && Targets(LastOf(c')) == {}
  {
    hide Coerce;
  }

  lemma BrifLast(c: Ctx, cond: Id, t: nat, ts: seq<Id>, e: nat, es: seq<Id>)
    requires Valid(c) && t < |c.params| && e < |c.params|
    ensures var c' := EmitBrif(c, cond, t, ts, e, es); c'.bodies[c'.cur] != [] && Targets(LastOf(c')) == {t, e}
  {
    hide CoerceAll;
  }

  lemma CondInto(p: J.Prog, c: Ctx, b: nat, si: nat)
    requires J.LaidOut(p) && J.Terminated(p) && J.In(p, b, si) && si < |p.stmts| && p.stmts[si].GotoIfNot?
    requires Valid(c) && |c.params| == |p.blocks| + 1 && p.stmts[si].dest < |p.blocks|
    requires EmitGotoIfNot(c, p, b, p.stmts[si].cond, p.stmts[si].dest).1
    ensures var c' := EmitGotoIfNot(c, p, b, p.stmts[si].cond, p.stmts[si].dest).0;
      c'.bodies[c'.cur] != [] && IntoSuccs(p, b, LastOf(c'))
  {
    hide BranchArgs, EmitBrif, Resolve, J.LaidOut, J.Terminated, Fallthrough;
    var s := p.stmts[si];
    CondTargets(p, b, si);
    var (c1, cv) := Resolve(c, s.cond);
    var (c2, args) := BranchArgs(c1, p, b, Some(b + 1), s.dest);
    BrifLast(c2, cv.value, b + 2, args.value.0, s.dest + 1, args.value.1);
  }

  lemma {:induction false} StmtsInto(p: J.Prog, c: Ctx, b: nat, si: nat)
    requires J.LaidOut(p) && J.Terminated(p) && b < |p.blocks| && Valid(c) && |c.params| == |p.blocks| + 1
    requires p.blocks[b].first <= si
    ensures var (c1, done) := EmitStmts(c, p, b, si);
      done ==> c1.bodies[c1.cur] != [] && IntoSuccs(p, b, LastOf(c1))
    decreases p.blocks[b].last - si
  {
    hide J.LaidOut, J.Terminated, EmitTerminator, EmitValue, Sentinel, IntoSuccs;
    if si < p.blocks[b].last {
      BlockStmt(p, b, si);
      if p.stmts[si].IsTerminator() {
        if EmitTerminator(c, p, b, p.stmts[si]).1 { TermInto(p, c, b, si); }
      } else {
        StmtsInto(p, EmitStmt(c, p, b, si).0, b, si + 1);
      }
    }
  }

  lemma BlockInto(p: J.Prog, c: Ctx, b: nat)
    requires J.LaidOut(p) && J.Terminated(p) && b < |p.blocks| && Valid(c) && |c.params| == |p.blocks| + 1
    requires EmitBlock(c, p, b).Some?
    ensures var r := EmitBlock(c, p, b).value;
      b + 1 < |r.bodies| && r.bodies[b + 1] != [] && IntoSuccs(p, b, Last(r, b + 1))
  {
    hide EmitStmts, EdgeArgs, CoerceAll, J.LaidOut, J.Terminated;
    StmtsInto(p, c.(cur := b + 1), b, p.blocks[b].first);
  }

  // ---- the whole function ----

  /** What the verifier checks of one instruction of Julia block b's code. */
  ghost predicate InstrValid(p: J.Prog, c: Ctx, b: nat, k: nat)
    requires b + 1 < |c.bodies| && k < |c.bodies[b + 1]|
  {
    var body := c.bodies[b + 1];
    && TypeOK(c.types, c.params, RetTy(p), body[k])
    && forall id | id in Uses(body[k]) :: Inherited(p, c, b, id) || DefinedBefore(body, k, id)
  }

  ghost predicate CodeValid(p: J.Prog, c: Ctx, b: nat) {
    b + 1 < |c.bodies| && forall k: nat | k < |c.bodies[b + 1]| :: InstrValid(p, c, b, k)
  }

  ghost predicate Leads(p: J.Prog, c: Ctx, b: nat) {
    b < |p.blocks| && b + 1 < |c.bodies| && c.bodies[b + 1] != [] && IntoSuccs(p, b, Last(c, b + 1))
  }

  /** Julia block b's code is valid, and leads to b's successors. */
  ghost predicate BlockOK(p: J.Prog, c: Ctx, b: nat) {
    CodeValid(p, c, b) && Leads(p, c, b)
  }

  lemma SturdyCode(p: J.Prog, c0: Ctx, c: Ctx, b: nat)
    requires Sturdy(p, c0, c, b)
    ensures CodeValid(p, c, b)
  {
    hide AllHomed, TypeOK, Inherited, J.LaidOut, DefinedBefore;
    FrameGrows(c0, c);
    forall k: nat | k < |c.bodies[b + 1]| ensures InstrValid(p, c, b, k) {
      assert InstrOK(c, Base(p, c0, b), RetTy(p), k);
      forall id | id in Uses(c.bodies[b + 1][k]) && id in Base(p, c0, b) ensures Inherited(p, c, b, id) {
        InheritedOn(p, c0, c, b, id);
      }
    }
  }

  lemma CodeValidOn(p: J.Prog, c: Ctx, c': Ctx, b: nat)
    requires CodeValid(p, c, b) && CodeGrows(c, c') && c'.bodies[b + 1] == c.bodies[b + 1]
    requires forall id | id in c.types :: id in c'.types && c'.types[id] == c.types[id]
    ensures CodeValid(p, c', b)
  {
    hide TypeOK, Inherited, DefinedBefore;
    forall k: nat | k < |c'.bodies[b + 1]| ensures InstrValid(p, c', b, k) {
      assert InstrValid(p, c, b, k);
      TypeOn(c.types, c'.types, c.params, RetTy(p), c.bodies[b + 1][k]);
      forall id | id in Uses(c.bodies[b + 1][k]) && Inherited(p, c, b, id) ensures Inherited(p, c', b, id) {
        InheritedOn(p, c, c', b, id);
      }
    }
  }

  /** One block: its own code is valid, and that of the others still is. */
  lemma BlockValid(p: J.Prog, c: Ctx, b: nat)
    requires b < |p.blocks| && Before(p, c, b) && AllHomed(p, c) && Unique(c) && c.bodies[b + 1] == []
    requires forall i: nat | i < b :: BlockOK(p, c, i)
    ensures EmitBlock(c, p, b).Some?
    ensures var r := EmitBlock(c, p, b).value;
      && J.LaidOut(p) && Before(p, r, b + 1) && AllHomed(p, r) && Unique(r) && |r.bodies| == |c.bodies|
      && r.params == c.params && r.nargs == c.nargs
      && (forall id | id in c.types :: id in r.types && r.types[id] == c.types[id])
      && (forall i | 0 <= i < |c.bodies| && i != b + 1 :: r.bodies[i] == c.bodies[i])
      && forall i: nat | i <= b :: BlockOK(p, r, i)
  {
    hide Sturdy, Supported, Tracks, ParamsOK, J.LaidOut, EmitBlock, Reached, CodeValid, AllHomed, Frame, Later,
      Complete, IntoSuccs, OneDefinition, DefAt;
    BeforeReached(p, c, b);
    BlockStatic(p, c, b);
    BlockCompletes(c, p, b);
    BlockSturdy(p, c, b);
    SupportedTerminated(p);
    BlockInto(p, c, b);
    var r := EmitBlock(c, p, b).value;
    ReachedBefore(p, r, b);
    SturdyValid(p, c.(cur := b + 1), r, b);
    SturdyCode(p, c.(cur := b + 1), r, b);
    LaterTypes(p, c, r);
    assert CodeGrows(c, r) by { OthersGrow(p, c, r, b); }
    forall i: nat | i < b ensures BlockOK(p, r, i) { assert BlockOK(p, c, i); CodeValidOn(p, c, r, i); }
  }

  lemma SupportedTerminated(p: J.Prog)
    requires Supported(p)
    ensures J.LaidOut(p) && J.Terminated(p)
  {
    hide J.LaidOut, J.Terminated, Sound, J.Typed, J.Ordered;
  }

  lemma LaterTypes(p: J.Prog, c: Ctx, c': Ctx)
    requires Later(p, c, c')
    ensures c'.params == c.params && c'.nargs == c.nargs
    ensures forall id | id in c.types :: id in c'.types && c'.types[id] == c.types[id]
  {
  }

  lemma OthersGrow(p: J.Prog, c: Ctx, r: Ctx, b: nat)
    requires b + 1 < |c.bodies| == |r.bodies| && c.bodies[b + 1] == [] && r.params == c.params && r.nargs == c.nargs
    requires forall i | 0 <= i < |c.bodies| && i != b + 1 :: r.bodies[i] == c.bodies[i]
    ensures CodeGrows(c, r)
  {
  }

  /** What blocks keep from c on. */
  ghost predicate Outlined(c: Ctx, r: Ctx) {
    && |r.bodies| == |c.bodies| > 0 && r.bodies[0] == c.bodies[0] && r.params == c.params && r.nargs == c.nargs
    && forall id | id in c.types :: id in r.types && r.types[id] == c.types[id]
  }

  lemma {:induction false} BlocksValid(p: J.Prog, c: Ctx, b: nat)
    requires Before(p, c, b) && AllHomed(p, c) && Unique(c) && |c.bodies| == |p.blocks| + 1
    requires forall i | b < i < |c.bodies| :: c.bodies[i] == []
    requires forall i: nat | i < b :: BlockOK(p, c, i)
    ensures EmitBlocks(c, p, b).Some?
    ensures var r := EmitBlocks(c, p, b).value;
      Outlined(c, r) && Unique(r) && forall i: nat | i < |p.blocks| :: BlockOK(p, r, i)
    decreases |p.blocks| - b
  {
    hide Supported, Tracks, ParamsOK, J.LaidOut, EmitBlock, BlockOK, AllHomed, Unique;
    if b < |p.blocks| {
      BlockValid(p, c, b);
      BlocksValid(p, EmitBlock(c, p, b).value, b + 1);
    }
  }

  // ---- before the first block ----

  lemma {:induction false} PhiIdIn(p: J.Prog, ssa: map<nat, Id>, si: nat, last: nat, n: nat)
    requires si <= n < last <= |p.stmts| && p.stmts[n].Phi? && n in ssa
    ensures ssa[n] in PhiIds(p, ssa, si, last)
    decreases last - si
  {
    if si < n { PhiIdIn(p, ssa, si + 1, last, n); }
  }

  /** Phis are parameters of their own blocks. */
  lemma PreparedHomed(p: J.Prog)
    requires J.LaidOut(p)
    ensures AllHomed(p, Prepared(p))
  {
    hide Prepared, J.LaidOut, PhiIds, DefinedBefore, Args;
    PreparedTracks(p);
    PreparedBodies(p);
    var c := Prepared(p);
    forall n | n in c.ssa ensures n < |p.stmts| && Homed(p, c, Owner(p, n), c.ssa[n]) {
      assert Emitted(p, n, 0);
      var d := Owner(p, n);
      LastInRange(p, d);
      PhiIdIn(p, c.ssa, p.blocks[d].first, p.blocks[d].last, n);
      DominatesSelf(p, d);
      assert From(p, c, d, d, c.ssa[n]);
    }
  }

  lemma PreparedBodies(p: J.Prog)
    requires J.LaidOut(p)
    ensures |Prepared(p).bodies| == |p.blocks| + 1 && Prepared(p).bodies[0] == [Jump(1, [])]
    ensures forall i | 0 < i <= |p.blocks| :: Prepared(p).bodies[i] == []
  {
    hide AddAllParams;
    PreparedTracks(p);
  }

  /** Parameters are handed out by the counter, one for each phi. */
  ghost predicate ParamsFresh(c: Ctx) {
    && ParamsDistinct(c.params, c.types) && |c.params| > 0
    && forall e, id | 0 <= e < |c.params| && id in c.params[e] :: id < c.next
  }

  lemma AddPhiFresh(c: Ctx, p: J.Prog, b: nat, si: nat)
    requires ParamsFresh(c) && si < |p.stmts| && p.stmts[si].Phi? && b + 1 < |c.params|
    ensures ParamsFresh(AddPhi(c, p, b, si))
  {
    var c' := AddPhi(c, p, b, si);
    forall e, i | 0 <= e < |c'.params| && 0 <= i < |c'.params[e]|
      ensures if e == b + 1 && i == |c.params[e]| then c'.params[e][i] == c.next
        else i < |c.params[e]| && c'.params[e][i] == c.params[e][i] && c.params[e][i] in c.params[e]
    {
    }
  }

  lemma {:induction false} AddParamsFresh(c: Ctx, p: J.Prog, b: nat, si: nat, last: nat)
    requires Valid(c) && ParamsFresh(c) && last <= |p.stmts| && b + 1 < |c.params|
    ensures ParamsFresh(AddParams(c, p, b, si, last))
    decreases last - si
  {
    hide ParamsFresh;
    if si < last {
      if p.stmts[si].Phi? {
        AddPhiFresh(c, p, b, si);
        AddParamsFresh(AddPhi(c, p, b, si), p, b, si + 1, last);
      } else {
        AddParamsFresh(c, p, b, si + 1, last);
      }
    }
  }

  lemma {:induction false} AllParamsFresh(c: Ctx, p: J.Prog, b: nat)
    requires Valid(c) && J.LaidOut(p) && b <= |p.blocks| && |c.params| == |p.blocks| + 1 && ParamsFresh(c)
    ensures ParamsFresh(AddAllParams(c, p, b)) && AddAllParams(c, p, b).nargs == c.nargs
    ensures AddAllParams(c, p, b).params[0] == c.params[0]
    decreases |p.blocks| - b
  {
    hide ParamsFresh, AddParams, J.LaidOut;
    if b < |p.blocks| {
      LastInRange(p, b);
      var first, last := p.blocks[b].first, p.blocks[b].last;
      AddParamsFresh(c, p, b, first, last);
      ParamsCounted(c, p, b, first, last);
      ParamsTrackPhis(c, p, b, first, last);
      AllParamsFresh(AddParams(c, p, b, first, last), p, b + 1);
    }
  }

  lemma PreparedFresh(p: J.Prog)
    requires J.LaidOut(p)
    ensures var c := Prepared(p);
      && ParamsFresh(c) && Unique(c) && |c.params| == |p.blocks| + 1 && c.nargs == |p.args|
      && forall k: nat | k < |p.args| :: k in c.params[0]
  {
    hide AddAllParams, J.LaidOut;
    var c := Init(p);
    assert ParamsFresh(c);
    AllParamsFresh(c, p, 0);
    PreparedBodies(p);
    forall k: nat | k < |p.args| ensures k in c.params[0] { assert c.params[0][k] == k; }
  }
}

/** What the emitter knows about the values of a well-formed program at each statement: every
    definition so far is tracked under an id of the right register type, and names share the id of
    what they rename.  No well-formed statement makes the emitter throw. */
module Tracking {
  import opened Wrappers
  import opened Words
  import opened Machine
  import opened Scripts
  import opened Lowering
  import opened EmitRun
  import ScriptProofs
  import J = JuliaIR

  /** n has a value and has been emitted before statement si; phis are block parameters from the start. */
  predicate Emitted(p: J.Prog, n: nat, si: nat) {
    J.UsableAt(p, n, si) && J.StmtTy(p, n).Some?
  }

  predicate PairEmitted(p: J.Prog, n: nat, si: nat) {
    n < |p.stmts| && n < si && p.stmts[n].Checked?
  }

  predicate IsRoot(p: J.Prog, n: nat) {
    n < |p.stmts| && !p.stmts[n].GetField? && !(p.stmts[n].Pi? && p.stmts[n].v.SSA?)
  }

  /** A name has the id of what it renames. */
  predicate SharesId(p: J.Prog, c: Ctx, n: nat)
    requires n < |p.stmts| && n in c.ssa
  {
    match p.stmts[n]
    case Pi(_, SSA(w)) => w in c.ssa && c.ssa[n] == c.ssa[w]
    case Pi(_, Arg(k)) => c.ssa[n] == k < c.nargs
    case GetField(q, second) => q in c.pairs && c.ssa[n] == if second then c.pairs[q].1 else c.pairs[q].0
    case _ => true
  }

  ghost predicate Args(p: J.Prog, c: Ctx) {
    && c.nargs == |p.args| <= c.next
    && forall k | 0 <= k < |p.args| :: TypedId(c, k, p.args[k].Reg())
  }

  ghost predicate Values(p: J.Prog, c: Ctx, si: nat) {
    && (forall n: nat | Emitted(p, n, si) :: n in c.ssa)
    && (forall n | n in c.ssa ::
          Emitted(p, n, si) && TypedId(c, c.ssa[n], J.StmtTy(p, n).value.Reg()) && SharesId(p, c, n))
  }

  ghost predicate Pairs(p: J.Prog, c: Ctx, si: nat) {
    && (forall n: nat | PairEmitted(p, n, si) ::
          n in c.pairs && TypedId(c, c.pairs[n].0, p.stmts[n].aty.Reg()) && TypedId(c, c.pairs[n].1, I32))
    && (forall n | n in c.pairs :: n < si)
  }

  ghost predicate Tracks(p: J.Prog, c: Ctx, si: nat) {
    Valid(c) && |c.params| == |p.blocks| + 1 && Args(p, c) && Values(p, c, si) && Pairs(p, c, si)
  }

  /** c' knows all that c knows; what it tracks in addition has newer ids, or an argument's. */
  ghost predicate Later(p: J.Prog, c: Ctx, c': Ctx) {
    && c.next <= c'.next && c'.nargs == c.nargs && c'.params == c.params
    && (forall id | id in c.types :: id in c'.types && c'.types[id] == c.types[id])
    && (forall n | n in c.ssa :: n in c'.ssa && c'.ssa[n] == c.ssa[n])
    && (forall n | n in c.pairs :: n in c'.pairs && c'.pairs[n] == c.pairs[n])
    && (forall n | n in c'.ssa && n !in c.ssa && IsRoot(p, n) :: c.next <= c'.ssa[n] || c'.ssa[n] < c.nargs)
    && (forall n | n in c'.pairs && n !in c.pairs :: c.next <= c'.pairs[n].0 && c.next <= c'.pairs[n].1)
  }

  lemma LaterTrans(p: J.Prog, a: Ctx, b: Ctx, c: Ctx)
    requires Later(p, a, b) && Later(p, b, c)
    ensures Later(p, a, c)
  {
    hide IsRoot;
  }

  /** Only code was added. */
  ghost predicate Quiet(c: Ctx, c': Ctx) {
    Valid(c') && Frame(c, c') && c'.ssa == c.ssa && c'.pairs == c.pairs
  }

  lemma LaterQuiet(p: J.Prog, c: Ctx, c': Ctx)
    requires Quiet(c, c')
    ensures Later(p, c, c')
  {
  }

  lemma TracksQuiet(p: J.Prog, c: Ctx, c': Ctx, si: nat)
    requires Tracks(p, c, si) && Quiet(c, c')
    ensures Tracks(p, c', si)
  {
    hide PairEmitted;
    forall n | n in c'.ssa ensures SharesId(p, c', n) { assert SharesId(p, c, n); }
  }

  /** The code added is straight, whatever was tracked. */
  lemma LaterOpen(p: J.Prog, c: Ctx, c1: Ctx, c': Ctx)
    requires Quiet(c, c1) && c'.(ssa := c.ssa, pairs := c.pairs) == c1
    requires forall n | n in c.ssa :: n in c'.ssa && c'.ssa[n] == c.ssa[n]
    requires forall n | n in c.pairs :: n in c'.pairs && c'.pairs[n] == c.pairs[n]
    requires forall n | n in c'.ssa && n !in c.ssa && IsRoot(p, n) :: c.next <= c'.ssa[n] || c'.ssa[n] < c.nargs
    requires forall n | n in c'.pairs && n !in c.pairs :: c.next <= c'.pairs[n].0 && c.next <= c'.pairs[n].1
    ensures Later(p, c, c')
  {
  }

  // ---- operands ----

  predicate OperandOK(p: J.Prog, o: J.Operand, ty: J.JTy, si: nat) {
    J.HasTy(p, o, ty) && (o.SSA? ==> J.UsableAt(p, o.n, si))
  }

  lemma ResolveTracks(p: J.Prog, c: Ctx, o: J.Operand, ty: J.JTy, si: nat)
    requires Tracks(p, c, si) && OperandOK(p, o, ty, si)
    ensures var (c1, id) := Resolve(c, o);
      && id.Some? && TypedId(c1, id.value, ty.Reg()) && Tracks(p, c1, si) && Later(p, c, c1)
      && (o.Lit? ==> c.next <= id.value)
  {
    var c1 := Resolve(c, o).0;
    TracksQuiet(p, c, c1, si);
    LaterQuiet(p, c, c1);
    if o.SSA? { assert Emitted(p, o.n, si); }
  }

  lemma TypedIdLater(c: Ctx, c': Ctx, id: Id, ty: Ty)
    requires TypedId(c, id, ty) && Straight(c, c')
    ensures TypedId(c', id, ty)
  {
  }

  lemma Resolve2Tracks(p: J.Prog, c: Ctx, x: J.Operand, y: J.Operand, ty: J.JTy, si: nat)
    requires Tracks(p, c, si) && OperandOK(p, x, ty, si) && OperandOK(p, y, ty, si)
    ensures var (c1, ab) := Resolve2(c, x, y);
      && ab.Some? && TypedId(c1, ab.value.0, ty.Reg()) && TypedId(c1, ab.value.1, ty.Reg())
      && Tracks(p, c1, si) && Later(p, c, c1) && Valid(c1)
  {
    hide Later, Values, Pairs, Args, TypedId, Resolve;
    ResolveTracks(p, c, x, ty, si);
    var (c1, a) := Resolve(c, x);
    ResolveTracks(p, c1, y, ty, si);
    var (c2, b) := Resolve(c1, y);
    TypedIdLater(c1, c2, a.value, ty.Reg());
    LaterTrans(p, c, c1, c2);
  }

  // ---- statements ----

  lemma TracksValid(p: J.Prog, c: Ctx, si: nat)
    requires Tracks(p, c, si)
    ensures Valid(c)
  {
  }

  lemma NotYet(p: J.Prog, c: Ctx, si: nat)
    requires Tracks(p, c, si) && si < |p.stmts| && !p.stmts[si].Phi?
    ensures si !in c.ssa && si !in c.pairs
  {
  }

  /** Tracking one new statement on top of straight-line code. */
  lemma LaterRecord(p: J.Prog, c: Ctx, c1: Ctx, c': Ctx, si: nat, id: Id, pair: (Id, Id))
    requires Quiet(c, c1) && si !in c.ssa && si !in c.pairs
    requires c'.ssa == c.ssa || (c'.ssa == c.ssa[si := id] && (IsRoot(p, si) ==> c.next <= id || id < c.nargs))
    requires c'.pairs == c.pairs || (c'.pairs == c.pairs[si := pair] && c.next <= pair.0 && c.next <= pair.1)
    requires c'.(ssa := c.ssa, pairs := c.pairs) == c1
    ensures Later(p, c, c')
  {
    LaterOpen(p, c, c1, c');
  }

  /** Tracking a value for statement si. */
  lemma RecordTracks(p: J.Prog, c: Ctx, si: nat, ty: J.JTy, id: Id)
    requires Tracks(p, c, si) && si < |p.stmts| && !p.stmts[si].Phi? && !p.stmts[si].Checked?
    requires J.StmtTy(p, si) == Some(ty) && TypedId(c, id, ty.Reg()) && SharesId(p, Record(c, si, id), si)
    ensures Tracks(p, Record(c, si, id), si + 1)
  {
    var c' := Record(c, si, id);
    hide TypedId, Args;
    forall n | n in c'.ssa
      ensures Emitted(p, n, si + 1) && TypedId(c', c'.ssa[n], J.StmtTy(p, n).value.Reg()) && SharesId(p, c', n)
    {
      if n != si { assert SharesId(p, c, n); }
    }
  }

  /** A statement that tracks nothing. */
  lemma SkipTracks(p: J.Prog, c: Ctx, si: nat)
    requires Tracks(p, c, si) && si < |p.stmts| && !p.stmts[si].Checked?
    requires p.stmts[si].Phi? || J.StmtTy(p, si).None?
    ensures Tracks(p, c, si + 1)
  {
  }

  lemma PairTracks(p: J.Prog, c: Ctx, si: nat, v: Id, f: Id)
    requires Tracks(p, c, si) && si < |p.stmts|
    requires p.stmts[si].Checked? && TypedId(c, v, p.stmts[si].aty.Reg()) && TypedId(c, f, I32)
    ensures Tracks(p, c.(pairs := c.pairs[si := (v, f)]), si + 1)
  {
    var c' := c.(pairs := c.pairs[si := (v, f)]);
    forall n | n in c'.ssa ensures SharesId(p, c', n) { assert SharesId(p, c, n); }
  }

  /** A directly used remainder tracks its pair as well; no pair component refers to it. */
  lemma ExtraPair(p: J.Prog, c: Ctx, si: nat, v: Id, f: Id)
    requires Tracks(p, c, si + 1) && si < |p.stmts| && !p.stmts[si].Checked? && J.Typed(p)
    ensures Tracks(p, c.(pairs := c.pairs[si := (v, f)]), si + 1)
  {
    var c' := c.(pairs := c.pairs[si := (v, f)]);
    forall n | n in c'.ssa ensures SharesId(p, c', n) {
      assert SharesId(p, c, n);
      assert J.StmtTyped(p, p.stmts[n]);
    }
  }

  lemma SmallHolds(ty: J.JTy)
    ensures ty.Holds(0) && ty.Holds(1)
  {
    Pow2Mono(1, ty.Bits() - 1);
    Pow2Mono(1, ty.Bits());
  }

  /** A table with a known run, on two inputs of one register type. */
  lemma TableTypes(c: Ctx, ops: seq<Op>, a: Id, b: Id, vs: seq<Value>)
    requires Valid(c) && Closed(ops, 2) && |ops| > 0 && Solves(ops, 2, vs)
    requires TypedId(c, a, vs[0].ty) && TypedId(c, b, vs[1].ty)
    ensures var (c1, ids) := EmitOps(c, ops, 0, [a, b]);
      && TypedId(c1, ids[2], vs[2].ty) && c.next <= ids[2]
      && TypedId(c1, ids[|ids| - 1], vs[|vs| - 1].ty) && c.next <= ids[|ids| - 1]
  {
    hide Pow2, EmitOps, EvalOp, TypedId, Closed;
    OpsTypes(c, ops, 0, [a, b], vs);
  }

  lemma CallTypes(c: Ctx, op: J.Intrinsic, ty: J.JTy, a: Id, b: Id)
    requires Valid(c) && ScriptProofs.CallTyped(op, ty) && TypedId(c, a, ty.Reg()) && TypedId(c, b, ty.Reg())
    ensures var (c1, ids) := EmitOps(c, CallScript(op, ty), 0, [a, b]);
      && TypedId(c1, ids[2], ScriptProofs.ResultTy(op, ty).Reg()) && c.next <= ids[2]
      && c.next <= ids[|ids| - 1]
  {
    hide Pow2, EmitOps, Solves, Wrap, TypedId, CallScript, EvalOp;
    SmallHolds(ty);
    var vs := ScriptProofs.CallCorrect(op, ty, 0, 1);
    TableTypes(c, CallScript(op, ty), a, b, vs);
  }

  lemma PairTypes(c: Ctx, kind: J.Arith, ty: J.JTy, a: Id, b: Id)
    requires Valid(c) && ty != J.Bool && TypedId(c, a, ty.Reg()) && TypedId(c, b, ty.Reg())
    ensures var (c1, ids) := EmitOps(c, CheckedScript(kind, ty), 0, [a, b]);
      && TypedId(c1, ids[2], ty.Reg()) && c.next <= ids[2]
      && TypedId(c1, ids[|ids| - 1], I32) && c.next <= ids[|ids| - 1]
  {
    hide Pow2, EmitOps, Solves, Wrap, TypedId, CheckedScript, EvalOp;
    SmallHolds(ty);
    var vs := ScriptProofs.CheckedCorrect(kind, ty, 0, 0);
    TableTypes(c, CheckedScript(kind, ty), a, b, vs);
  }

  /** The part of well-formedness the emitter depends on. */
  ghost predicate Static(p: J.Prog) {
    J.LaidOut(p) && J.Typed(p) && J.Ordered(p)
  }

  lemma OperandInOrder(p: J.Prog, si: nat, o: J.Operand, ty: J.JTy)
    requires Static(p) && si < |p.stmts| && o in p.stmts[si].Operands() && J.HasTy(p, o, ty)
    ensures OperandOK(p, o, ty, si)
  {
  }

  lemma OperandsTrack(p: J.Prog, c: Ctx, si: nat, x: J.Operand, y: J.Operand, ty: J.JTy)
    requires Static(p) && si < |p.stmts| && Tracks(p, c, si)
    requires p.stmts[si].Operands() == [x, y] && J.HasTy(p, x, ty) && J.HasTy(p, y, ty)
    ensures var (c1, ab) := Resolve2(c, x, y);
      && ab.Some? && TypedId(c1, ab.value.0, ty.Reg()) && TypedId(c1, ab.value.1, ty.Reg())
      && Tracks(p, c1, si) && Later(p, c, c1) && Valid(c1)
  {
    hide Tracks, Later, Resolve2, Straight, TypedId;
    assert x in p.stmts[si].Operands() && y in p.stmts[si].Operands();
    OperandInOrder(p, si, x, ty);
    OperandInOrder(p, si, y, ty);
    Resolve2Tracks(p, c, x, y, ty, si);
  }

  /** Tracking the result of a table. */
  lemma CallTagged(p: J.Prog, c: Ctx, c2: Ctx, si: nat, op: J.Intrinsic, ty: J.JTy, ids: seq<Id>)
    requires J.Typed(p) && si < |p.stmts| && p.stmts[si].Call? && p.stmts[si].op == op && p.stmts[si].aty == ty
    requires Tracks(p, c, si) && Quiet(c, c2) && Tracks(p, c2, si)
    requires |ids| > 2 && TypedId(c2, ids[2], ScriptProofs.ResultTy(op, ty).Reg())
    requires c.next <= ids[2] && c.next <= ids[|ids| - 1]
    ensures var c' := TagCall(c2, si, op, ids); Tracks(p, c', si + 1) && Later(p, c, c')
  {
    hide J.Typed, Later, Values, Pairs, Args, TypedId, Emitted, PairEmitted, IsRoot, SharesId;
    var pair := (ids[2], ids[|ids| - 1]);
    NotYet(p, c, si);
    CallRecorded(p, c2, si, ids[2]);
    if op.CheckedRem? { ExtraPair(p, Record(c2, si, ids[2]), si, pair.0, pair.1); }
    LaterRecord(p, c, c2, TagCall(c2, si, op, ids), si, ids[2], pair);
  }

  lemma CallRecorded(p: J.Prog, c: Ctx, si: nat, id: Id)
    requires si < |p.stmts| && p.stmts[si].Call? && Tracks(p, c, si)
    requires TypedId(c, id, ScriptProofs.ResultTy(p.stmts[si].op, p.stmts[si].aty).Reg())
    ensures Tracks(p, Record(c, si, id), si + 1)
  {
    hide Tracks, TypedId;
    RecordTracks(p, c, si, ScriptProofs.ResultTy(p.stmts[si].op, p.stmts[si].aty), id);
  }

  lemma EmitCallTracks(p: J.Prog, c: Ctx, si: nat, a: Id, b: Id)
    requires J.Typed(p) && si < |p.stmts| && p.stmts[si].Call? && Tracks(p, c, si) && Valid(c)
    requires var s := p.stmts[si];
      ScriptProofs.CallTyped(s.op, s.aty) && TypedId(c, a, s.aty.Reg()) && TypedId(c, b, s.aty.Reg())
    ensures var s := p.stmts[si];
      var c' := EmitCall(c, si, s.op, s.aty, a, b);
      Tracks(p, c', si + 1) && Later(p, c, c')
  {
    hide J.Typed, Tracks, Later, TypedId, EmitOps, CallScript, Frame, Valid, ScriptProofs.CallTyped;
    var s := p.stmts[si];
    CallTypes(c, s.op, s.aty, a, b);
    var (c2, ids) := EmitOps(c, CallScript(s.op, s.aty), 0, [a, b]);
    TracksQuiet(p, c, c2, si);
    CallTagged(p, c, c2, si, s.op, s.aty, ids);
  }

  lemma PairTagged(p: J.Prog, c: Ctx, c2: Ctx, si: nat, v: Id, f: Id)
    requires si < |p.stmts| && p.stmts[si].Checked?
    requires Tracks(p, c, si) && Quiet(c, c2) && Tracks(p, c2, si)
    requires TypedId(c2, v, p.stmts[si].aty.Reg()) && TypedId(c2, f, I32) && c.next <= v && c.next <= f
    ensures var c' := c2.(pairs := c2.pairs[si := (v, f)]); Tracks(p, c', si + 1) && Later(p, c, c')
  {
    hide Later, Values, Pairs, Args, TypedId, Emitted, PairEmitted, IsRoot, SharesId;
    NotYet(p, c, si);
    PairTracks(p, c2, si, v, f);
    LaterRecord(p, c, c2, c2.(pairs := c2.pairs[si := (v, f)]), si, v, (v, f));
  }

  lemma EmitPairTracks(p: J.Prog, c: Ctx, si: nat, a: Id, b: Id)
    requires si < |p.stmts| && p.stmts[si].Checked? && p.stmts[si].aty != J.Bool && Tracks(p, c, si) && Valid(c)
    requires var s := p.stmts[si]; TypedId(c, a, s.aty.Reg()) && TypedId(c, b, s.aty.Reg())
    ensures var s := p.stmts[si];
      var c' := EmitPair(c, si, s.kind, s.aty, a, b);
      Tracks(p, c', si + 1) && Later(p, c, c')
  {
    hide Tracks, Later, TypedId, EmitOps, CheckedScript, Frame, Valid;
    var s := p.stmts[si];
    PairTypes(c, s.kind, s.aty, a, b);
    var (c2, ids) := EmitOps(c, CheckedScript(s.kind, s.aty), 0, [a, b]);
    TracksQuiet(p, c, c2, si);
    PairTagged(p, c, c2, si, ids[2], ids[|ids| - 1]);
  }

  /** The emission of a call or pair, cut after its operands. */
  lemma BinaryTracks(p: J.Prog, c: Ctx, si: nat)
    requires Static(p) && si < |p.stmts| && (p.stmts[si].Call? || p.stmts[si].Checked?) && Tracks(p, c, si)
    ensures var (c', ok) := EmitValue(c, p, si);
      && ok && Tracks(p, c', si + 1) && Later(p, c, c')
      && var s := p.stmts[si];
        var (c1, ab) := Resolve2(c, s.x, s.y);
        && ab.Some? && Later(p, c1, c')
        && (s.Call? ==>
              ScriptProofs.CallTyped(s.op, s.aty) && c' == EmitCall(c1, si, s.op, s.aty, ab.value.0, ab.value.1))
        && (s.Checked? ==> s.aty != J.Bool && c' == EmitPair(c1, si, s.kind, s.aty, ab.value.0, ab.value.1))
  {
    hide Tracks, Later, Resolve2, EmitCall, EmitPair, TypedId, Straight, Valid, J.Ordered, J.LaidOut;
    var s := p.stmts[si];
    TracksValid(p, c, si);
    assert J.StmtTyped(p, s);
    OperandsTrack(p, c, si, s.x, s.y, s.aty);
    var (c1, ab) := Resolve2(c, s.x, s.y);
    var (a, b) := ab.value;
    if s.Call? {
      EmitCallTracks(p, c1, si, a, b);
      LaterTrans(p, c, c1, EmitCall(c1, si, s.op, s.aty, a, b));
    } else {
      EmitPairTracks(p, c1, si, a, b);
      LaterTrans(p, c, c1, EmitPair(c1, si, s.kind, s.aty, a, b));
    }
  }

  lemma NameTracks(p: J.Prog, c: Ctx, si: nat)
    requires Static(p) && si < |p.stmts| && (p.stmts[si].GetField? || p.stmts[si].Pi?) && Tracks(p, c, si)
    ensures var (c', ok) := EmitValue(c, p, si); ok && Tracks(p, c', si + 1) && Later(p, c, c')
  {
    assert J.StmtTyped(p, p.stmts[si]);
    NotYet(p, c, si);
    if p.stmts[si].GetField? { FieldTracks(p, c, si); } else { PiTracks(p, c, si); }
  }

  lemma FieldTracks(p: J.Prog, c: Ctx, si: nat)
    requires Static(p) && si < |p.stmts| && p.stmts[si].GetField? && Tracks(p, c, si)
    ensures var (c', ok) := EmitValue(c, p, si); ok && Tracks(p, c', si + 1) && Later(p, c, c')
  {
    var s := p.stmts[si];
    NotYet(p, c, si);
    assert J.StmtTyped(p, s);
    assert J.SSA(s.pair) in s.Operands();
    assert PairEmitted(p, s.pair, si);
    hide Static, J.StmtTyped, Args, J.UsableAt, Values, Later;
    var id := if s.second then c.pairs[s.pair].1 else c.pairs[s.pair].0;
    RecordTracks(p, c, si, J.StmtTy(p, si).value, id);
    LaterRecord(p, c, c, Record(c, si, id), si, id, (0, 0));
  }

  lemma PiTracks(p: J.Prog, c: Ctx, si: nat)
    requires Static(p) && si < |p.stmts| && p.stmts[si].Pi? && Tracks(p, c, si)
    ensures var (c', ok) := EmitValue(c, p, si); ok && Tracks(p, c', si + 1) && Later(p, c, c')
  {
    hide Tracks, Later, Frame, TypedId, J.LaidOut, J.Ordered;
    var s := p.stmts[si];
    assert J.StmtTyped(p, s);
    assert s.v in s.Operands();
    OperandInOrder(p, si, s.v, s.ty);
    TracksValid(p, c, si);
    ResolveTracks(p, c, s.v, s.ty, si);
    var (c1, id) := Resolve(c, s.v);
    PiRecorded(p, c, c1, si, id.value);
  }

  lemma PiRecorded(p: J.Prog, c: Ctx, c1: Ctx, si: nat, id: Id)
    requires si < |p.stmts| && p.stmts[si].Pi? && Tracks(p, c, si) && Tracks(p, c1, si) && Quiet(c, c1)
    requires Resolve(c, p.stmts[si].v).1 == Some(id) && TypedId(c1, id, p.stmts[si].ty.Reg())
    requires p.stmts[si].v.Lit? ==> c.next <= id
    ensures Tracks(p, Record(c1, si, id), si + 1) && Later(p, c, Record(c1, si, id))
  {
    hide Later, Pairs, Args, TypedId, Emitted;
    NotYet(p, c, si);
    RecordTracks(p, c1, si, p.stmts[si].ty, id);
    assert IsRoot(p, si) ==> c.next <= id || id < c.nargs;
    LaterRecord(p, c, c1, Record(c1, si, id), si, id, (0, 0));
  }

  /** A well-formed statement is emitted without error. */
  lemma ValueTracks(p: J.Prog, c: Ctx, si: nat)
    requires Static(p) && si < |p.stmts| && !p.stmts[si].IsTerminator() && Tracks(p, c, si)
    ensures var (c', ok) := EmitValue(c, p, si); ok && Tracks(p, c', si + 1) && Later(p, c, c')
  {
    if p.stmts[si].Call? || p.stmts[si].Checked? { BinaryTracks(p, c, si); }
    else if p.stmts[si].GetField? || p.stmts[si].Pi? { NameTracks(p, c, si); }
    else {
      assert J.StmtTyped(p, p.stmts[si]);
      SkipTracks(p, c, si);
      LaterQuiet(p, c, c);
    }
  }
}

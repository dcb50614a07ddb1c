/** The lowering of one function from Julia IR to machine blocks, as functions on the builder's
    state.  Module Emitter runs the same steps in place.  Julia block b becomes machine block b + 1;
    machine block 0 is the synthetic entry. */
module Lowering {
  import opened Wrappers
  import opened Words
  import opened Machine
  import opened Scripts
  import J = JuliaIR

  /** The per-function state of the builder and of the emitter's value tracking. */
  datatype Ctx = Ctx(
    bodies: seq<seq<Instr>>,
    params: seq<seq<Id>>,
    types: map<Id, Ty>,
    next: Id,
    cur: nat,
    ssa: map<nat, Id>,
    pairs: map<nat, (Id, Id)>,
    nargs: nat)

  predicate Valid(c: Ctx) {
    c.cur < |c.bodies| == |c.params| && forall id | id in c.types :: id < c.next
  }

  /** c' extends c by straight-line code in the current block, and tracks no new values. */
  ghost predicate Straight(c: Ctx, c': Ctx) {
    Open(c, c') && c'.ssa == c.ssa && c'.pairs == c.pairs
  }

  /** The code added to the current block contains no terminator. */
  ghost predicate Open(c: Ctx, c': Ctx) {
    && Valid(c') && Frame(c, c')
    && forall j | |c.bodies[c.cur]| <= j < |c'.bodies[c.cur]| :: !c'.bodies[c.cur][j].IsTerminator()
  }

  /** The code added to the current block ends in its only terminator. */
  ghost predicate Closes(c: Ctx, c': Ctx) {
    && Valid(c') && Frame(c, c')
    && var n := |c'.bodies[c.cur]|;
      && |c.bodies[c.cur]| < n && c'.bodies[c.cur][n - 1].IsTerminator()
      && forall j | |c.bodies[c.cur]| <= j < n - 1 :: !c'.bodies[c.cur][j].IsTerminator()
  }

  /** Everything but the current block and the value tables is as before; those only grow. */
  ghost predicate Frame(c: Ctx, c': Ctx) {
    && c.cur == c'.cur < |c.bodies| == |c'.bodies| && c'.params == c.params && c'.nargs == c.nargs
    && c.next <= c'.next
    && (forall i | 0 <= i < |c.bodies| && i != c.cur :: c'.bodies[i] == c.bodies[i])
    && c.bodies[c.cur] <= c'.bodies[c.cur]
    && (forall id | id in c.types :: id in c'.types && c'.types[id] == c.types[id])
  }

  predicate Same(c: Ctx, c': Ctx) {
    Valid(c') && c'.params == c.params && c'.cur == c.cur
  }

  function TyOf(c: Ctx, id: Id): Ty {
    if id in c.types then c.types[id] else I64
  }

  // ---- single instructions ----

  function Push(c: Ctx, i: Instr): (r: Ctx)
    requires Valid(c)
    ensures Valid(r) && Frame(c, r)
  {
    c.(bodies := c.bodies[c.cur := c.bodies[c.cur] + [i]])
  }

  /** Appends an instruction that defines the next value. */
  function Def(c: Ctx, i: Instr, ty: Ty): (r: (Ctx, Id))
    requires Valid(c) && !i.IsTerminator()
    ensures Straight(c, r.0)
  {
    (Push(c, i).(types := c.types[c.next := ty], next := c.next + 1), c.next)
  }

  function EmitIconst(c: Ctx, ty: Ty, imm: int): (r: (Ctx, Id))
    requires Valid(c)
    ensures Straight(c, r.0)
  {
    Def(c, Instr.Iconst(c.next, ty, imm), ty)
  }

  function EmitUextend(c: Ctx, ty: Ty, v: Id): (r: (Ctx, Id))
    requires Valid(c)
    ensures Straight(c, r.0)
  {
    if TyOf(c, v) == ty || (TyOf(c, v) == I64 && ty == I32) then (c, v)
    else Def(c, Instr.Uextend(c.next, ty, v), ty)
  }

  /** Extends the narrower of two operands, never reduces. */
  function Harmonize(c: Ctx, l: Id, r: Id): (x: (Ctx, Id, Id))
    requires Valid(c)
    ensures Straight(c, x.0)
  {
    var (c1, l1) :=
      if TyOf(c, l) == I32 && TyOf(c, r) == I64 then Def(c, Instr.Uextend(c.next, I64, l), I64) else (c, l);
    var (c2, r1) :=
      if TyOf(c, r) == I32 && TyOf(c, l) == I64 then Def(c1, Instr.Uextend(c1.next, I64, r), I64) else (c1, r);
    (c2, l1, r1)
  }

  function EmitBinary(c: Ctx, op: BinOp, l: Id, r: Id): (x: (Ctx, Id))
    requires Valid(c)
    ensures Straight(c, x.0)
  {
    var (c1, l1, r1) := Harmonize(c, l, r);
    Def(c1, Instr.Binary(c1.next, op, l1, r1), TyOf(c1, l1))
  }

  /** A comparison, widened to the i32 that carries a Bool. */
  function IcmpBool(c: Ctx, cond: Cond, l: Id, r: Id): (x: (Ctx, Id))
    requires Valid(c)
    ensures Straight(c, x.0)
  {
    var (c1, l1, r1) := Harmonize(c, l, r);
    var (c2, v) := Def(c1, Icmp(c1.next, cond, l1, r1), I8);
    EmitUextend(c2, I32, v)
  }

  function EmitSelect(c: Ctx, cond: Id, t: Id, e: Id): (x: (Ctx, Id))
    requires Valid(c)
    ensures Straight(c, x.0)
  {
    Def(c, Instr.Select(c.next, cond, t, e), TyOf(c, t))
  }

  // ---- instruction tables ----

  function EmitOp(c: Ctx, op: Op, ids: seq<Id>): (x: (Ctx, Id))
    requires Valid(c) && op.Uses(|ids|)
    ensures Straight(c, x.0)
  {
    match op
    case Const(ty, imm) => EmitIconst(c, ty, imm)
    case Bin(o, l, r) => EmitBinary(c, o, ids[l], ids[r])
    case Cmp(cond, l, r) => IcmpBool(c, cond, ids[l], ids[r])
    case Sel(cv, t, e) => EmitSelect(c, ids[cv], ids[t], ids[e])
  }

  /** Emits a table from entry i; the ids of its values follow those of its inputs. */
  function EmitOps(c: Ctx, ops: seq<Op>, i: nat, ids: seq<Id>): (x: (Ctx, seq<Id>))
    requires Valid(c) && i <= |ops| && i <= |ids| && Closed(ops, |ids| - i)
    ensures Straight(c, x.0) && |x.1| == |ids| + |ops| - i
    decreases |ops| - i
  {
    if i == |ops| then (c, ids)
    else
      var (c1, v) := EmitOp(c, ops[i], ids);
      EmitOps(c1, ops, i + 1, ids + [v])
  }

  // ---- operands and phi arguments ----

  /** None is a thrown error: the operand is not tracked. */
  function Resolve(c: Ctx, o: J.Operand): (x: (Ctx, Option<Id>))
    requires Valid(c)
    ensures Straight(c, x.0)
  {
    match o
    case SSA(n) => (c, if n in c.ssa then Some(c.ssa[n]) else None)
    case Arg(k) => (c, if k < c.nargs then Some(k) else None)
    case Lit(ty, v) => var (c1, id) := EmitIconst(c, ty.Reg(), v); (c1, Some(id))
  }

  /** Zero of the given register type, standing for a value that is undefined on this path. */
  function Placeholder(c: Ctx, ty: Option<J.JTy>): (x: (Ctx, Id))
    requires Valid(c)
    ensures Straight(c, x.0)
  {
    EmitIconst(c, if ty.Some? then ty.value.Reg() else I64, 0)
  }

  function PhiArg(c: Ctx, edges: seq<J.Edge>, ty: J.JTy, from: nat): (x: (Ctx, Option<Id>))
    requires Valid(c)
    ensures Straight(c, x.0)
  {
    match J.EdgeFrom(edges, from)
    case Some(Edge(_, Some(o))) => Resolve(c, o)
    case _ => var (c1, id) := Placeholder(c, Some(ty)); (c1, Some(id))
  }

  /** The arguments for the phis among statements si .. last - 1, in order. */
  function PhiArgs(c: Ctx, p: J.Prog, from: nat, si: nat, last: nat): (x: (Ctx, Option<seq<Id>>))
    requires Valid(c) && last <= |p.stmts|
    ensures Straight(c, x.0)
    decreases last - si
  {
    if si >= last then (c, Some([]))
    else if !p.stmts[si].Phi? then PhiArgs(c, p, from, si + 1, last)
    else
      var (c1, a) := PhiArg(c, p.stmts[si].edges, p.stmts[si].ty, from);
      if a.None? then (c1, None)
      else
        var (c2, rest) := PhiArgs(c1, p, from, si + 1, last);
        (c2, if rest.None? then None else Some([a.value] + rest.value))
  }

  function EdgeArgs(c: Ctx, p: J.Prog, from: nat, to: nat): (x: (Ctx, Option<seq<Id>>))
    requires Valid(c) && J.LaidOut(p) && to < |p.blocks|
    ensures Straight(c, x.0)
  {
    PhiArgs(c, p, from, p.blocks[to].first, p.blocks[to].last)
  }

  // ---- control flow ----

  /** Brings one value to an expected register type, where the two differ by i32 against i64. */
  function Coerce(c: Ctx, v: Id, expected: Ty): (x: (Ctx, Id))
    requires Valid(c)
    ensures Straight(c, x.0)
  {
    if TyOf(c, v) == I32 && expected == I64 then Def(c, Instr.Uextend(c.next, I64, v), I64)
    else if TyOf(c, v) == I64 && expected == I32 then Def(c, Ireduce(c.next, I32, v), I32)
    else (c, v)
  }

  function CoerceAll(c: Ctx, vs: seq<Id>, params: seq<Id>): (x: (Ctx, seq<Id>))
    requires Valid(c)
    ensures Straight(c, x.0)
    decreases |vs|
  {
    if vs == [] then (c, [])
    else
      var (c1, v) := if params == [] then (c, vs[0]) else Coerce(c, vs[0], TyOf(c, params[0]));
      var (c2, rest) := CoerceAll(c1, vs[1..], if params == [] then [] else params[1..]);
      (c2, [v] + rest)
  }

  function EmitJump(c: Ctx, target: nat, args: seq<Id>): (r: Ctx)
    requires Valid(c) && target < |c.params|
    ensures Closes(c, r)
  {
    var (c1, vs) := CoerceAll(c, args, c.params[target]);
    Push(c1, Jump(target, vs))
  }

  function EmitBrif(c: Ctx, cond: Id, thn: nat, thnArgs: seq<Id>, els: nat, elsArgs: seq<Id>): (r: Ctx)
    requires Valid(c) && thn < |c.params| && els < |c.params|
    ensures Closes(c, r)
  {
    var (c1, ts) := CoerceAll(c, thnArgs, c.params[thn]);
    var (c2, es) := CoerceAll(c1, elsArgs, c.params[els]);
    var (c3, cv) := if TyOf(c2, cond) == I8 then (c2, cond) else Def(c2, Ireduce(c2.next, I8, cond), I8);
    Push(c3, Brif(cv, thn, ts, els, es))
  }

  function RetTy(p: J.Prog): Ty {
    if p.ret.Some? then p.ret.value.Reg() else I64
  }

  function EmitReturn(c: Ctx, p: J.Prog, v: Id): (r: Ctx)
    requires Valid(c)
    ensures Closes(c, r)
  {
    var (c1, v1) := Coerce(c, v, RetTy(p));
    Push(c1, Return(v1))
  }

  // ---- statements ----

  function Record(c: Ctx, si: nat, id: Id): (r: Ctx)
    requires Valid(c)
    ensures Open(c, r)
  {
    c.(ssa := c.ssa[si := id])
  }

  /** Operands are resolved left to right; None is a thrown error. */
  function Resolve2(c: Ctx, x: J.Operand, y: J.Operand): (r: (Ctx, Option<(Id, Id)>))
    requires Valid(c)
    ensures Straight(c, r.0)
  {
    var (c1, a) := Resolve(c, x);
    if a.None? then (c1, None)
    else
      var (c2, b) := Resolve(c1, y);
      (c2, if b.None? then None else Some((a.value, b.value)))
  }

  /** A call's table; a checked remainder that is used directly records its value, and keeps the pair. */
  function EmitCall(c: Ctx, si: nat, op: J.Intrinsic, ty: J.JTy, a: Id, b: Id): (r: Ctx)
    requires Valid(c)
    ensures Open(c, r)
  {
    var (c1, ids) := EmitOps(c, CallScript(op, ty), 0, [a, b]);
    TagCall(c1, si, op, ids)
  }

  function TagCall(c: Ctx, si: nat, op: J.Intrinsic, ids: seq<Id>): (r: Ctx)
    requires Valid(c) && |ids| > 2
    ensures Open(c, r)
  {
    var c1 := Record(c, si, ids[2]);
    if op.CheckedRem? then c1.(pairs := c1.pairs[si := (ids[2], ids[|ids| - 1])]) else c1
  }

  /** A pair is tracked as two values and is not itself a value. */
  function EmitPair(c: Ctx, si: nat, kind: J.Arith, ty: J.JTy, a: Id, b: Id): (r: Ctx)
    requires Valid(c)
    ensures Open(c, r)
  {
    var (c1, ids) := EmitOps(c, CheckedScript(kind, ty), 0, [a, b]);
    c1.(pairs := c1.pairs[si := (ids[2], ids[|ids| - 1])])
  }

  /** The block a conditional falls through to, when the successor list names one. */
  function Fallthrough(succs: seq<nat>, dest: nat): (r: Option<nat>)
    ensures r.Some? ==> r.value in succs
  {
    if |succs| < 2 then None
    else if succs[1] == dest then Some(succs[0])
    else Some(succs[1])
  }

  /** Both argument lists of a conditional: first the fall-through's, then the destination's. */
  function BranchArgs(c: Ctx, p: J.Prog, b: nat, ft: Option<nat>, dest: nat): (x: (Ctx, Option<(seq<Id>, seq<Id>)>))
    requires Valid(c) && J.LaidOut(p) && dest < |p.blocks| && (ft.Some? ==> ft.value < |p.blocks|)
    ensures Straight(c, x.0)
  {
    var (c1, fargs) := if ft.None? then (c, Some([])) else EdgeArgs(c, p, b, ft.value);
    if fargs.None? then (c1, None)
    else
      var (c2, dargs) := EdgeArgs(c1, p, b, dest);
      (c2, if dargs.None? then None else Some((fargs.value, dargs.value)))
  }

  function EmitGotoIfNot(c: Ctx, p: J.Prog, b: nat, cond: J.Operand, dest: nat): (r: (Ctx, bool))
    requires Valid(c) && J.LaidOut(p) && b < |p.blocks| && dest < |p.blocks| && |c.params| == |p.blocks| + 1
    ensures Same(c, r.0)
  {
    var (c1, cv) := Resolve(c, cond);
    if cv.None? then (c1, false)
    else
      var ft := Fallthrough(p.blocks[b].succs, dest);
      var (c2, args) := BranchArgs(c1, p, b, ft, dest);
      if args.None? then (c2, false)
      else
        var t := if ft.None? then dest else ft.value;
        (EmitBrif(c2, cv.value, t + 1, args.value.0, dest + 1, args.value.1), true)
  }

  /** Emits a statement that is not a terminator; false is a thrown error, whose partial output stays. */
  function EmitValue(c: Ctx, p: J.Prog, si: nat): (r: (Ctx, bool))
    requires Valid(c) && si < |p.stmts| && !p.stmts[si].IsTerminator()
    ensures Open(c, r.0)
  {
    match p.stmts[si]
    case Call(op, ty, x, y) =>
      var (c1, ab) := Resolve2(c, x, y);
      if ab.None? then (c1, false) else (EmitCall(c1, si, op, ty, ab.value.0, ab.value.1), true)
    case Checked(kind, ty, x, y) =>
      var (c1, ab) := Resolve2(c, x, y);
      if ab.None? || ty.Bool? then (c1, false) else (EmitPair(c1, si, kind, ty, ab.value.0, ab.value.1), true)
    case GetField(q, second) =>
      if q in c.pairs then (Record(c, si, if second then c.pairs[q].1 else c.pairs[q].0), true)
      else (c, false)
    case Pi(_, v) =>
      var (c1, id) := Resolve(c, v);
      if id.None? then (c1, false) else (Record(c1, si, id.value), true)
    case Unsupported(_) => (c, false)
    case _ => (c, true)
  }

  function EmitTerminator(c: Ctx, p: J.Prog, b: nat, s: J.Stmt): (r: (Ctx, bool))
    requires Valid(c) && J.LaidOut(p) && b < |p.blocks| && |c.params| == |p.blocks| + 1
    requires s.IsTerminator() && J.DestInRange(p, s)
    ensures Same(c, r.0)
  {
    match s
    case GotoNode(d) =>
      var (c1, args) := EdgeArgs(c, p, b, d);
      if args.None? then (c1, false) else (EmitJump(c1, d + 1, args.value), true)
    case GotoIfNot(cond, d) => EmitGotoIfNot(c, p, b, cond, d)
    case ReturnNode(v) =>
      var (c1, id) := Resolve(c, v);
      if id.None? then (c1, false) else (EmitReturn(c1, p, id.value), true)
    case ReturnNothing =>
      var (c1, z) := EmitIconst(c, I64, 0);
      (EmitReturn(c1, p, z), true)
    case _ => (Push(c, Trap), true)
  }

  // ---- blocks ----

  /** The type a failed statement's zero takes: the statement's own, where it has one. */
  function SentinelTy(p: J.Prog, si: nat): Option<J.JTy> {
    if si < |p.stmts| && p.stmts[si].Unsupported? then Some(p.stmts[si].ty) else J.StmtTy(p, si)
  }

  /** After a tolerated error the statement's value becomes a zero. */
  function Sentinel(c: Ctx, p: J.Prog, si: nat): (r: Ctx)
    requires Valid(c)
    ensures Open(c, r)
  {
    var (c1, z) := Placeholder(c, SentinelTy(p, si));
    Record(c1, si, z)
  }

  /** Emits one statement of a block, errors included; true once a terminator was emitted. */
  function EmitStmt(c: Ctx, p: J.Prog, b: nat, si: nat): (r: (Ctx, bool))
    requires Valid(c) && J.LaidOut(p) && b < |p.blocks| && si < |p.stmts| && |c.params| == |p.blocks| + 1
    ensures Same(c, r.0)
  {
    var term := p.stmts[si].IsTerminator();
    var (c1, ok) := if term then EmitTerminator(c, p, b, p.stmts[si]) else EmitValue(c, p, si);
    if ok then (c1, term) else (Sentinel(c1, p, si), false)
  }

  /** Emits statements until the first terminator; true when one was emitted without error. */
  function EmitStmts(c: Ctx, p: J.Prog, b: nat, si: nat): (r: (Ctx, bool))
    requires Valid(c) && J.LaidOut(p) && b < |p.blocks| && |c.params| == |p.blocks| + 1
    ensures Same(c, r.0)
    decreases p.blocks[b].last - si
  {
    if si >= p.blocks[b].last then (c, false)
    else
      var (c1, done) := EmitStmt(c, p, b, si);
      if p.stmts[si].IsTerminator() then (c1, done) else EmitStmts(c1, p, b, si + 1)
  }

  /** After a block's statements: without an emitted terminator, a jump to the only successor, or a trap.
      None is an error outside the tolerated region, which abandons the function. */
  function EndBlock(c: Ctx, p: J.Prog, b: nat, done: bool): (r: Option<Ctx>)
    requires Valid(c) && J.LaidOut(p) && b < |p.blocks| && |c.params| == |p.blocks| + 1
    ensures r.Some? ==> Same(c, r.value)
  {
    var succs := p.blocks[b].succs;
    if done then Some(c)
    else if |succs| == 1 then
      var (c1, args) := EdgeArgs(c, p, b, succs[0]);
      if args.None? then None else Some(EmitJump(c1, succs[0] + 1, args.value))
    else Some(Push(c, Trap))
  }

  function EmitBlock(c: Ctx, p: J.Prog, b: nat): (r: Option<Ctx>)
    requires Valid(c) && J.LaidOut(p) && b < |p.blocks| && |c.params| == |p.blocks| + 1
    ensures r.Some? ==> Same(c.(cur := b + 1), r.value)
  {
    var (c1, done) := EmitStmts(c.(cur := b + 1), p, b, p.blocks[b].first);
    EndBlock(c1, p, b, done)
  }

  function EmitBlocks(c: Ctx, p: J.Prog, b: nat): (r: Option<Ctx>)
    requires Valid(c) && J.LaidOut(p) && b <= |p.blocks| && |c.params| == |p.blocks| + 1
    ensures r.Some? ==> Valid(r.value) && r.value.params == c.params
    decreases |p.blocks| - b
  {
    if b == |p.blocks| then Some(c)
    else match EmitBlock(c, p, b)
      case None => None
      case Some(c1) => EmitBlocks(c1, p, b + 1)
  }

  // ---- the function ----

  /** One block parameter for every phi among statements si .. last - 1. */
  function AddParams(c: Ctx, p: J.Prog, b: nat, si: nat, last: nat): (r: Ctx)
    requires Valid(c) && last <= |p.stmts| && b + 1 < |c.params|
    ensures Valid(r) && |r.params| == |c.params|
    decreases last - si
  {
    if si >= last then c
    else if !p.stmts[si].Phi? then AddParams(c, p, b, si + 1, last)
    else
      var id := c.next;
      var c1 := c.(params := c.params[b + 1 := c.params[b + 1] + [id]],
                   types := c.types[id := p.stmts[si].ty.Reg()],
                   next := id + 1,
                   ssa := c.ssa[si := id]);
      AddParams(c1, p, b, si + 1, last)
  }

  function AddAllParams(c: Ctx, p: J.Prog, b: nat): (r: Ctx)
    requires Valid(c) && J.LaidOut(p) && b <= |p.blocks| && |c.params| == |p.blocks| + 1
    ensures Valid(r) && |r.params| == |c.params|
    decreases |p.blocks| - b
  {
    if b == |p.blocks| then c
    else AddAllParams(AddParams(c, p, b, p.blocks[b].first, p.blocks[b].last), p, b + 1)
  }

  /** The entry block holds the function's parameters and jumps, without arguments, to block 1. */
  function Init(p: J.Prog): (c: Ctx)
    requires J.LaidOut(p)
    ensures Valid(c) && |c.params| == |p.blocks| + 1
  {
    var n := |p.args|;
    Ctx(seq(|p.blocks| + 1, i => if i == 0 then [Jump(1, [])] else []),
        seq(|p.blocks| + 1, i => if i == 0 then seq(n, k => k) else []),
        map k: nat | 0 <= k < n :: p.args[k].Reg(),
        n, 0, map[], map[], n)
  }

  function Compile(p: J.Prog): (r: Option<Ctx>)
    requires J.LaidOut(p)
    ensures r.Some? ==> Valid(r.value) && |r.value.params| == |p.blocks| + 1
  {
    EmitBlocks(AddAllParams(Init(p), p, 0), p, 0)
  }

  function Function(c: Ctx, p: J.Prog): Func {
    Func(c.params, c.types, c.bodies, RetTy(p))
  }
}

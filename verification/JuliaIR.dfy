/** The source language of the lowering: Julia's optimised SSA form, cut down to the statements
    modelled here, with its meaning over mathematical integers. */
module JuliaIR {
  import opened Wrappers
  import opened Words
  import opened CheckedArith
  import Machine

  // ---- types and values ----

  datatype JTy = Bool | Int32 | UInt32 | Int64 | UInt64 {
    predicate IsSigned() { Int32? || Int64? }

    /** The register type that carries it: Bool lives in an i32. */
    function Reg(): Machine.Ty {
      if Int64? || UInt64? then Machine.I64 else Machine.I32
    }

    function Bits(): Machine.Ty { Reg() }

    predicate Holds(v: int) {
      if Bool? then 0 <= v <= 1 else Fits(IsSigned(), v, Bits())
    }

    /** Wrap-around to the type. */
    function Of(v: int): int { Meaning(IsSigned(), Wrap(v, Bits()), Bits()) }
  }

  /** The register contents that represent v. */
  function Rep(ty: JTy, v: int): Machine.Value {
    Machine.Val(ty.Reg(), Wrap(v, ty.Bits()))
  }

  /** The numbers of each type, and wrap-around to them. */
  lemma Ranges(ty: JTy, v: int)
    ensures JTy.Bool.Holds(v) <==> v == 0 || v == 1
    ensures JTy.Int32.Holds(v) <==> -Pow2(31) <= v < Pow2(31)
    ensures JTy.UInt32.Holds(v) <==> 0 <= v < Pow2(32)
    ensures JTy.Int64.Holds(v) <==> -Pow2(63) <= v < Pow2(63)
    ensures JTy.UInt64.Holds(v) <==> 0 <= v < Pow2(64)
    ensures ty != Bool ==> ty.Holds(ty.Of(v)) && (ty.Holds(v) ==> ty.Of(v) == v)
    ensures var w := if ty.Int64? || ty.UInt64? then 64 else 32; ty != Bool ==> Wrap(ty.Of(v), w) == Wrap(v, w)
  {
    hide Pow2, Wrap;
    if ty != Bool {
      WrapMeaning(ty.IsSigned(), Wrap(v, ty.Bits()), ty.Bits());
      if ty.Holds(v) { MeaningWrap(ty.IsSigned(), v, ty.Bits()); }
    }
  }

  // ---- syntax ----

  datatype Operand = SSA(n: nat) | Arg(k: nat) | Lit(ty: JTy, v: int)

  datatype Intrinsic = AddInt | SubInt | MulInt | EqInt | NeInt | SltInt | SleInt | UltInt | UleInt | CheckedRem {
    predicate IsCompare() { EqInt? || NeInt? || SltInt? || SleInt? || UltInt? || UleInt? }
  }

  datatype Arith = Add | Sub | Mul

  /** An incoming phi edge; value None is Julia's unassigned (#undef) slot. */
  datatype Edge = Edge(pred: nat, value: Option<Operand>)

  datatype Stmt =
    | Phi(ty: JTy, edges: seq<Edge>)
    | Call(op: Intrinsic, aty: JTy, x: Operand, y: Operand)
    | Checked(kind: Arith, aty: JTy, x: Operand, y: Operand)
    | GetField(pair: nat, second: bool)
    | Pi(ty: JTy, v: Operand)
    | Nop
    | Unsupported(ty: JTy)
    | GotoNode(dest: nat)
    | GotoIfNot(cond: Operand, dest: nat)
    | ReturnNode(v: Operand)
    | ReturnNothing
    | Unreachable
    | ThrowCall
  {
    predicate IsTerminator() {
      GotoNode? || GotoIfNot? || ReturnNode? || ReturnNothing? || Unreachable? || ThrowCall?
    }

    function Operands(): seq<Operand> {
      match this
      case Call(_, _, x, y) => [x, y]
      case Checked(_, _, x, y) => [x, y]
      case GetField(q, _) => [SSA(q)]
      case Pi(_, v) => [v]
      case GotoIfNot(c, _) => [c]
      case ReturnNode(v) => [v]
      case _ => []
    }
  }

  /** Statements first .. last - 1. */
  datatype Block = Block(first: nat, last: nat, succs: seq<nat>)

  /** ret None is a function that returns nothing. */
  datatype Prog = Prog(args: seq<JTy>, ret: Option<JTy>, stmts: seq<Stmt>, blocks: seq<Block>)

  // ---- meaning ----

  datatype SVal = Num(v: int) | Pair(v: int, overflow: bool) | Undef
  type Env = map<nat, SVal>

  function Eval(args: seq<int>, env: Env, o: Operand): Option<int> {
    match o
    case SSA(n) => if n in env && env[n].Num? then Some(env[n].v) else None
    case Arg(k) => if k < |args| then Some(args[k]) else None
    case Lit(_, v) => Some(v)
  }

  function Exact(kind: Arith, x: int, y: int): int {
    match kind case Add => x + y case Sub => x - y case Mul => x * y
  }

  /** None is an exception: the divisor of a remainder was zero. */
  function Apply(op: Intrinsic, ty: JTy, x: int, y: int): Option<int> {
    match op
    case AddInt => Some(ty.Of(x + y))
    case SubInt => Some(ty.Of(x - y))
    case MulInt => Some(ty.Of(x * y))
    case EqInt => Some(if x == y then 1 else 0)
    case NeInt => Some(if x != y then 1 else 0)
    case SltInt => Some(if x < y then 1 else 0)
    case UltInt => Some(if x < y then 1 else 0)
    case SleInt => Some(if x <= y then 1 else 0)
    case UleInt => Some(if x <= y then 1 else 0)
    case CheckedRem => if y == 0 then None else Some(TruncRem(x, y))
  }

  datatype Outcome = Fall(env: Env) | Goto(dest: nat, env: Env) | Ret(v: Option<int>) | Throw | Undefined

  function ExecStmt(p: Prog, args: seq<int>, b: nat, si: nat, env: Env): Outcome
    requires si < |p.stmts|
  {
    match p.stmts[si]
    case Phi(_, _) => Fall(env)
    case Call(op, ty, x, y) =>
      (match (Eval(args, env, x), Eval(args, env, y))
       case (Some(u), Some(v)) =>
         (match Apply(op, ty, u, v) case Some(r) => Fall(env[si := Num(r)]) case None => Throw)
       case _ => Undefined)
    case Checked(kind, ty, x, y) =>
      (match (Eval(args, env, x), Eval(args, env, y))
       case (Some(u), Some(v)) =>
         Fall(env[si := Pair(ty.Of(Exact(kind, u, v)), !ty.Holds(Exact(kind, u, v)))])
       case _ => Undefined)
    case GetField(q, second) =>
      if q in env && env[q].Pair? then Fall(env[si := Component(env[q], second)]) else Undefined
    case Pi(_, v) =>
      (match Eval(args, env, v) case Some(u) => Fall(env[si := Num(u)]) case None => Undefined)
    case Nop => Fall(env)
    case Unsupported(_) => Undefined
    case GotoNode(d) => Goto(d, env)
    case GotoIfNot(c, d) =>
      (match Eval(args, env, c) case Some(u) => Goto(if u == 0 then d else b + 1, env) case None => Undefined)
    case ReturnNode(v) =>
      (match Eval(args, env, v) case Some(u) => Ret(Some(u)) case None => Undefined)
    case ReturnNothing => Ret(None)
    case Unreachable => Throw
    case ThrowCall => Throw
  }

  function Component(pair: SVal, second: bool): SVal
    requires pair.Pair?
  {
    if !second then Num(pair.v) else Num(if pair.overflow then 1 else 0)
  }

  /** Runs a block from statement si; running off its end falls through to the next block. */
  function ExecFrom(p: Prog, args: seq<int>, b: nat, si: nat, env: Env): Outcome
    requires b < |p.blocks| && p.blocks[b].last <= |p.stmts|
    decreases p.blocks[b].last - si
  {
    if si >= p.blocks[b].last then Goto(b + 1, env)
    else match ExecStmt(p, args, b, si, env)
      case Fall(env') => ExecFrom(p, args, b, si + 1, env')
      case o => o
  }

  /** The first edge from a predecessor, if the phi has one. */
  function EdgeFrom(edges: seq<Edge>, pred: nat): Option<Edge> {
    if edges == [] then None
    else if edges[0].pred == pred then Some(edges[0])
    else EdgeFrom(edges[1..], pred)
  }

  /** The first: no earlier edge comes from pred; none, if no edge does. */
  lemma {:induction false} EdgeFromFirst(edges: seq<Edge>, pred: nat)
    ensures match EdgeFrom(edges, pred)
      case None => forall i | 0 <= i < |edges| :: edges[i].pred != pred
      case Some(e) => exists k :: 0 <= k < |edges| && IsFirst(edges, pred, k) && edges[k] == e
  {
    if edges != [] {
      if edges[0].pred == pred {
        assert IsFirst(edges, pred, 0);
      } else {
        EdgeFromFirst(edges[1..], pred);
        assert forall i | 1 <= i < |edges| :: edges[i] == edges[1..][i - 1];
        if EdgeFrom(edges, pred).Some? {
          var rest := edges[1..];
          var k :| 0 <= k < |rest| && IsFirst(rest, pred, k) && rest[k] == EdgeFrom(edges, pred).value;
          assert IsFirst(edges, pred, k + 1);
        }
      }
    }
  }

  predicate IsFirst(edges: seq<Edge>, pred: nat, k: int)
    requires 0 <= k < |edges|
  {
    edges[k].pred == pred && forall i | 0 <= i < k :: edges[i].pred != pred
  }

  /** A phi's value along an edge: undefined when the slot is unassigned or there is no edge. */
  function PhiValue(args: seq<int>, env: Env, edges: seq<Edge>, pred: nat): Option<SVal> {
    match EdgeFrom(edges, pred)
    case None => Some(Undef)
    case Some(e) =>
      match e.value
      case None => Some(Undef)
      case Some(SSA(n)) => if n in env && !env[n].Pair? then Some(env[n]) else None
      case Some(o) => (match Eval(args, env, o) case Some(u) => Some(Num(u)) case None => None)
  }

  /** All phis of a block read the state at the end of the predecessor. */
  function EnterFrom(p: Prog, args: seq<int>, pred: nat, env: Env, si: nat, last: nat, acc: Env): Option<Env>
    requires last <= |p.stmts|
    decreases last - si
  {
    if si >= last then Some(acc)
    else if !p.stmts[si].Phi? then EnterFrom(p, args, pred, env, si + 1, last, acc)
    else match PhiValue(args, env, p.stmts[si].edges, pred)
      case None => None
      case Some(v) => EnterFrom(p, args, pred, env, si + 1, last, acc[si := v])
  }

  /** path is every block visited so far; the current one is last. */
  datatype State = At(path: seq<nat>, env: Env) | Returned(v: Option<int>) | Threw | Undetermined

  function Step(p: Prog, args: seq<int>, s: State): State
    requires LaidOut(p)
  {
    if !s.At? || s.path == [] || s.path[|s.path| - 1] >= |p.blocks| then s
    else
      var b := s.path[|s.path| - 1];
      match ExecFrom(p, args, b, p.blocks[b].first, s.env)
      case Goto(d, env) =>
        if d >= |p.blocks| then Undetermined
        else
          (match EnterFrom(p, args, b, env, p.blocks[d].first, p.blocks[d].last, env)
           case Some(env') => At(s.path + [d], env')
           case None => Undetermined)
      case Ret(v) => Returned(v)
      case Throw => Threw
      case Fall(_) => Undetermined
      case Undefined => Undetermined
  }

  function Run(p: Prog, args: seq<int>, n: nat): State
    requires LaidOut(p)
  {
    if n == 0 then At([0], map[]) else Step(p, args, Run(p, args, n - 1))
  }

  // ---- well-formedness ----

  /** Blocks are consecutive, non-overlapping statement ranges; all block references are in range. */
  predicate LaidOut(p: Prog) {
    && |p.blocks| > 0
    && p.blocks[0].first == 0
    && p.blocks[|p.blocks| - 1].last == |p.stmts|
    && (forall b | 0 <= b < |p.blocks| :: p.blocks[b].first <= p.blocks[b].last <= |p.stmts|)
    && (forall b | 0 <= b < |p.blocks| - 1 :: p.blocks[b].last == p.blocks[b + 1].first)
    && (forall b, k | 0 <= b < |p.blocks| && 0 <= k < |p.blocks[b].succs| :: p.blocks[b].succs[k] < |p.blocks|)
    && (forall si | 0 <= si < |p.stmts| :: DestInRange(p, p.stmts[si]))
  }

  predicate DestInRange(p: Prog, s: Stmt) {
    match s
    case GotoNode(d) => d < |p.blocks|
    case GotoIfNot(_, d) => d < |p.blocks|
    case _ => true
  }

  predicate In(p: Prog, b: nat, si: nat) {
    b < |p.blocks| && p.blocks[b].first <= si < p.blocks[b].last
  }

  predicate NoEntryPhi(p: Prog)
    requires LaidOut(p)
  {
    forall si | 0 <= si < p.blocks[0].last :: !p.stmts[si].Phi?
  }

  /** Terminators stand last, and the successor list is the one they imply. */
  ghost predicate Terminated(p: Prog)
    requires LaidOut(p)
  {
    && (forall b: nat, si: nat | In(p, b, si) && p.stmts[si].IsTerminator() :: si == p.blocks[b].last - 1)
    && (forall b | 0 <= b < |p.blocks| :: SuccsOK(p, b))
  }

  predicate SuccsOK(p: Prog, b: nat)
    requires LaidOut(p) && b < |p.blocks|
  {
    var blk := p.blocks[b];
    if blk.first < blk.last && p.stmts[blk.last - 1].IsTerminator() then
      match p.stmts[blk.last - 1]
      case GotoNode(d) => blk.succs == [d]
      case GotoIfNot(_, d) => blk.succs == [d, b + 1] || blk.succs == [b + 1, d]
      case _ => blk.succs == []
    else blk.succs == [b + 1]
  }

  function StmtTy(p: Prog, n: nat): Option<JTy> {
    if n >= |p.stmts| then None
    else match p.stmts[n]
      case Phi(ty, _) => Some(ty)
      case Call(op, aty, _, _) => Some(if op.IsCompare() then Bool else aty)
      case GetField(q, second) =>
        if q < |p.stmts| && p.stmts[q].Checked? then Some(if second then Bool else p.stmts[q].aty) else None
      case Pi(ty, _) => Some(ty)
      case _ => None
  }

  predicate HasTy(p: Prog, o: Operand, ty: JTy) {
    match o
    case SSA(n) => StmtTy(p, n) == Some(ty)
    case Arg(k) => k < |p.args| && p.args[k] == ty
    case Lit(t, v) => t == ty && ty.Holds(v)
  }

  ghost predicate StmtTyped(p: Prog, s: Stmt) {
    match s
    case Phi(ty, edges) =>
      forall i | 0 <= i < |edges| && edges[i].value.Some? :: HasTy(p, edges[i].value.value, ty)
    case Call(op, aty, x, y) =>
      && HasTy(p, x, aty) && HasTy(p, y, aty)
      && (op.EqInt? || op.NeInt? || aty != Bool)
      && (op.SltInt? || op.SleInt? ==> aty.IsSigned())
      && (op.UltInt? || op.UleInt? ==> !aty.IsSigned())
    case Checked(_, aty, x, y) => aty != Bool && HasTy(p, x, aty) && HasTy(p, y, aty)
    case GetField(q, _) => q < |p.stmts| && p.stmts[q].Checked?
    case Pi(ty, v) => HasTy(p, v, ty)
    case Unsupported(_) => false
    case GotoIfNot(c, _) => HasTy(p, c, Bool)
    case ReturnNode(v) => p.ret.Some? && HasTy(p, v, p.ret.value)
    case ReturnNothing => p.ret.None?
    case _ => true
  }

  ghost predicate Typed(p: Prog) {
    forall si | 0 <= si < |p.stmts| :: StmtTyped(p, p.stmts[si])
  }

  /** Definitions come before uses in statement order; phis may be used anywhere. */
  ghost predicate Ordered(p: Prog)
    requires LaidOut(p)
  {
    && (forall si, o | 0 <= si < |p.stmts| && o in p.stmts[si].Operands() && o.SSA? :: UsableAt(p, o.n, si))
    && (forall si, e | 0 <= si < |p.stmts| && p.stmts[si].Phi? && e in p.stmts[si].edges
          && e.value.Some? && e.value.value.SSA? && e.pred < |p.blocks| ::
          UsableAt(p, e.value.value.n, p.blocks[e.pred].last))
  }

  predicate UsableAt(p: Prog, n: nat, si: nat) {
    n < |p.stmts| && (n < si || p.stmts[n].Phi?)
  }

  // ---- strict SSA: every definition dominates its uses ----

  ghost predicate IsPath(p: Prog, path: seq<nat>) {
    && |path| > 0 && path[0] == 0
    && (forall i | 0 <= i < |path| :: path[i] < |p.blocks|)
    && (forall i | 0 <= i < |path| - 1 :: path[i + 1] in p.blocks[path[i]].succs)
  }

  ghost predicate Dominates(p: Prog, d: nat, c: nat) {
    forall path | IsPath(p, path) && path[|path| - 1] == c :: d in path
  }

  /** n is defined in b itself (before si, or as a phi) or in a block that dominates b. */
  ghost predicate Reaches(p: Prog, n: nat, b: nat, si: nat) {
    exists d :: In(p, d, n) && if d == b then UsableAt(p, n, si) else Dominates(p, d, b)
  }

  ghost predicate Strict(p: Prog)
    requires LaidOut(p)
  {
    && (forall b: nat, si: nat, o | In(p, b, si) && o in p.stmts[si].Operands() && o.SSA? :: Reaches(p, o.n, b, si))
    && (forall si, e | 0 <= si < |p.stmts| && p.stmts[si].Phi? && e in p.stmts[si].edges
          && e.value.Some? && e.value.value.SSA? && e.pred < |p.blocks| ::
          Reaches(p, e.value.value.n, e.pred, p.blocks[e.pred].last))
  }

  /** Supported, typed, strict SSA, with no phi in the first block. */
  ghost predicate WellFormed(p: Prog) {
    LaidOut(p) && Terminated(p) && Typed(p) && Ordered(p) && Strict(p) && NoEntryPhi(p)
  }

  predicate ArgsOK(p: Prog, args: seq<int>) {
    |args| == |p.args| && forall k | 0 <= k < |args| :: p.args[k].Holds(args[k])
  }
}

/** What the Cranelift verifier asks of one instruction: that its operands have been defined and that their
    types agree.  Every emitting step keeps this, given operands for which it holds. */
module ValidCode {
  import opened Wrappers
  import opened Words
  import opened Machine
  import opened Scripts
  import opened Lowering
  import opened EmitRun
  import J = JuliaIR

  // ---- one instruction ----

  function Uses(i: Instr): seq<Id> {
    match i
    case Iconst(_, _, _) => []
    case Binary(_, _, l, r) => [l, r]
    case Icmp(_, _, l, r) => [l, r]
    case Select(_, c, t, e) => [c, t, e]
    case Uextend(_, _, v) => [v]
    case Sextend(_, _, v) => [v]
    case Ireduce(_, _, v) => [v]
    case Jump(_, args) => args
    case Brif(c, _, ta, _, ea) => [c] + ta + ea
    case Return(v) => [v]
    case Trap => []
  }

  predicate Defines(i: Instr, id: Id) {
    !i.IsTerminator() && i.dst == id
  }

  predicate Has(types: map<Id, Ty>, id: Id, ty: Ty) {
    id in types && types[id] == ty
  }

  /** Arguments of the parameters' number and types. */
  predicate Matching(types: map<Id, Ty>, args: seq<Id>, params: seq<seq<Id>>, t: nat) {
    && t < |params| && |args| == |params[t]|
    && forall i | 0 <= i < |args| :: params[t][i] in types && Has(types, args[i], types[params[t][i]])
  }

  predicate TypeOK(types: map<Id, Ty>, params: seq<seq<Id>>, ret: Ty, i: Instr) {
    match i
    case Iconst(d, ty, _) => Has(types, d, ty)
    case Binary(d, _, l, r) => l in types && Has(types, r, types[l]) && Has(types, d, types[l])
    case Icmp(d, _, l, r) => l in types && Has(types, r, types[l]) && Has(types, d, I8)
    case Select(d, c, t, e) => c in types && t in types && Has(types, e, types[t]) && Has(types, d, types[t])
    case Uextend(d, ty, v) => v in types && types[v] < ty && Has(types, d, ty)
    case Sextend(d, ty, v) => v in types && types[v] < ty && Has(types, d, ty)
    case Ireduce(d, ty, v) => v in types && ty < types[v] && Has(types, d, ty)
    case Jump(t, args) => Matching(types, args, params, t)
    case Brif(c, t, ta, e, ea) => Has(types, c, I8) && Matching(types, ta, params, t) && Matching(types, ea, params, e)
    case Return(v) => Has(types, v, ret)
    case Trap => true
  }

  predicate DefinedBefore(body: seq<Instr>, k: nat, id: Id)
    requires k <= |body|
  {
    exists j :: 0 <= j < k && Defines(body[j], id)
  }

  predicate DefinedIn(body: seq<Instr>, id: Id) {
    DefinedBefore(body, |body|, id)
  }

  function Targets(i: Instr): set<nat> {
    match i case Jump(t, _) => {t} case Brif(_, t, _, e, _) => {t, e} case _ => {}
  }

  // ---- one definition for each value ----

  predicate DefAt(bodies: seq<seq<Instr>>, b: nat, k: nat, id: Id) {
    b < |bodies| && k < |bodies[b]| && Defines(bodies[b][k], id)
  }

  /** No two instructions define the same value, and none defines a block parameter. */
  ghost predicate OneDefinition(bodies: seq<seq<Instr>>, params: seq<seq<Id>>) {
    && (forall b: nat, k: nat, e: nat, l: nat, id: Id | DefAt(bodies, b, k, id) && DefAt(bodies, e, l, id) ::
          b == e && k == l)
    && (forall b: nat, k: nat, id: Id, e | DefAt(bodies, b, k, id) && 0 <= e < |params| :: id !in params[e])
  }

  /** All defined ids have been handed out by the counter. */
  ghost predicate Unique(c: Ctx) {
    && OneDefinition(c.bodies, c.params)
    && (forall b: nat, k: nat, id: Id | DefAt(c.bodies, b, k, id) :: id < c.next)
    && (forall e, id | 0 <= e < |c.params| && id in c.params[e] :: id < c.next)
  }

  lemma PushUnique(c: Ctx, i: Instr, c': Ctx)
    requires Valid(c) && Unique(c) && c'.bodies == Push(c, i).bodies && c'.params == c.params && c.next <= c'.next
    requires !i.IsTerminator() ==> i.dst == c.next < c'.next
    ensures Unique(c')
  {
    forall b: nat, k: nat, id: Id | DefAt(c'.bodies, b, k, id)
      ensures DefAt(c.bodies, b, k, id) || (id == c.next < c'.next && b == c.cur && k == |c.bodies[c.cur]|)
    {
    }
  }

  // ---- the current block ----

  /** base are the values defined before the block. */
  ghost predicate InstrOK(c: Ctx, base: iset<Id>, ret: Ty, k: nat)
    requires c.cur < |c.bodies| && k < |c.bodies[c.cur]|
  {
    var body := c.bodies[c.cur];
    && TypeOK(c.types, c.params, ret, body[k])
    && forall id | id in Uses(body[k]) :: id in base || DefinedBefore(body, k, id)
  }

  ghost predicate Sane(c: Ctx, base: iset<Id>, ret: Ty) {
    Valid(c) && Unique(c) && forall k: nat | k < |c.bodies[c.cur]| :: InstrOK(c, base, ret, k)
  }

  /** id is defined at the end of the block so far. */
  ghost predicate Here(c: Ctx, base: iset<Id>, id: Id) {
    c.cur < |c.bodies| && (id in base || DefinedIn(c.bodies[c.cur], id))
  }

  lemma HereOn(c: Ctx, c': Ctx, base: iset<Id>, id: Id)
    requires Here(c, base, id) && Frame(c, c')
    ensures Here(c', base, id)
  {
    var body := c.bodies[c.cur];
    if id !in base {
      var j :| 0 <= j < |body| && Defines(body[j], id);
      assert Defines(c'.bodies[c'.cur][j], id);
    }
  }

  lemma TypeOn(a: map<Id, Ty>, b: map<Id, Ty>, params: seq<seq<Id>>, ret: Ty, i: Instr)
    requires TypeOK(a, params, ret, i) && forall id | id in a :: id in b && b[id] == a[id]
    ensures TypeOK(b, params, ret, i)
  {
  }

  /** One more instruction, whose operands are here. */
  lemma PushSane(c: Ctx, i: Instr, c': Ctx, base: iset<Id>, ret: Ty)
    requires Sane(c, base, ret) && forall id | id in Uses(i) :: Here(c, base, id)
    requires Valid(c') && c'.cur == c.cur && c'.params == c.params && c'.bodies == Push(c, i).bodies
    requires (forall id | id in c.types :: id in c'.types && c'.types[id] == c.types[id])
    requires TypeOK(c'.types, c.params, ret, i) && c.next <= c'.next
      && (!i.IsTerminator() ==> i.dst == c.next < c'.next)
    ensures Sane(c', base, ret)
  {
    hide TypeOK, Valid, OneDefinition;
    PushUnique(c, i, c');
    var a, b := c.bodies[c.cur], c'.bodies[c'.cur];
    assert b == a + [i] by { CurExtended(c, i, c'); }
    forall k: nat | k < |b| ensures InstrOK(c', base, ret, k) {
      if k < |a| {
        assert InstrOK(c, base, ret, k);
        TypeOn(c.types, c'.types, c.params, ret, a[k]);
        forall id | id in Uses(b[k]) && id !in base ensures DefinedBefore(b, k, id) {
          assert DefinedBefore(a, k, id);
          var j :| 0 <= j < k && Defines(a[j], id);
          assert Defines(b[j], id);
        }
      } else {
        forall id | id in Uses(i) && id !in base ensures DefinedBefore(b, k, id) {
          assert Here(c, base, id);
          var j :| 0 <= j < |a| && Defines(a[j], id);
          assert Defines(b[j], id);
        }
      }
    }
  }

  lemma CurExtended(c: Ctx, i: Instr, c': Ctx)
    requires Valid(c) && Valid(c') && c'.cur == c.cur && c'.bodies == Push(c, i).bodies
    ensures c'.bodies[c'.cur] == c.bodies[c.cur] + [i]
  {
  }

  /** A definition: it, too, is here afterwards. */
  lemma DefSane(c: Ctx, i: Instr, ty: Ty, base: iset<Id>, ret: Ty)
    requires Sane(c, base, ret) && !i.IsTerminator() && i.dst == c.next
    requires forall id | id in Uses(i) :: Here(c, base, id)
    requires TypeOK(c.types[c.next := ty], c.params, ret, i)
    ensures var (c', id) := Def(c, i, ty); Sane(c', base, ret) && Here(c', base, id)
  {
    hide TypeOK, Uses, Here;
    var (c', id) := Def(c, i, ty);
    PushSane(c, i, c', base, ret);
    LastDefined(c, i, c', base);
  }

  lemma LastDefined(c: Ctx, i: Instr, c': Ctx, base: iset<Id>)
    requires Valid(c) && Valid(c') && c'.cur == c.cur && c'.bodies == Push(c, i).bodies && !i.IsTerminator()
    ensures Here(c', base, i.dst)
  {
    var b := c'.bodies[c'.cur];
    CurExtended(c, i, c');
    assert Defines(b[|b| - 1], i.dst);
  }

  lemma IconstSane(c: Ctx, ty: Ty, imm: int, base: iset<Id>, ret: Ty)
    requires Sane(c, base, ret)
    ensures var (c', id) := EmitIconst(c, ty, imm); Sane(c', base, ret) && Here(c', base, id)
  {
    hide Sane, Here;
    DefSane(c, Instr.Iconst(c.next, ty, imm), ty, base, ret);
  }

  // ---- tables ----

  ghost predicate AllHere(c: Ctx, base: iset<Id>, ids: seq<Id>) {
    forall j | 0 <= j < |ids| :: Here(c, base, ids[j])
  }

  lemma AllHereOn(c: Ctx, c': Ctx, base: iset<Id>, ids: seq<Id>)
    requires AllHere(c, base, ids) && Frame(c, c')
    ensures AllHere(c', base, ids)
  {
    hide Here, Frame;
    forall j | 0 <= j < |ids| ensures Here(c', base, ids[j]) { HereOn(c, c', base, ids[j]); }
  }

  /** An entry whose operands have the types with which it can be computed. */
  lemma OpSane(c: Ctx, op: Op, ids: seq<Id>, vs: seq<Value>, v: Value, base: iset<Id>, ret: Ty)
    requires Sane(c, base, ret) && op.Uses(|ids|) && |ids| <= |vs| && AllHere(c, base, ids)
    requires forall j | 0 <= j < |ids| :: TypedId(c, ids[j], vs[j].ty)
    requires EvalOp(op, vs, |ids|) == Is(v)
    ensures var (c', id) := EmitOp(c, op, ids); Sane(c', base, ret) && Here(c', base, id)
  {
    hide Pow2, Wrap, Arith, Compare, Sane, Here, Frame;
    match op
    case Const(ty, imm) => IconstSane(c, ty, imm, base, ret);
    case Bin(o, l, r) =>
      assert TypedId(c, ids[l], vs[l].ty) && TypedId(c, ids[r], vs[r].ty);
      DefSane(c, Instr.Binary(c.next, o, ids[l], ids[r]), vs[l].ty, base, ret);
    case Cmp(cond, l, r) =>
      assert TypedId(c, ids[l], vs[l].ty) && TypedId(c, ids[r], vs[r].ty);
      CmpSane(c, cond, ids[l], ids[r], vs[l].ty, base, ret);
    case Sel(cv, t, e) =>
      assert TypedId(c, ids[cv], vs[cv].ty) && TypedId(c, ids[t], vs[t].ty) && TypedId(c, ids[e], vs[e].ty);
      DefSane(c, Instr.Select(c.next, ids[cv], ids[t], ids[e]), vs[t].ty, base, ret);
  }

  lemma CmpSane(c: Ctx, cond: Cond, l: Id, r: Id, ty: Ty, base: iset<Id>, ret: Ty)
    requires Sane(c, base, ret) && Here(c, base, l) && Here(c, base, r) && TypedId(c, l, ty) && TypedId(c, r, ty)
    ensures Valid(c)
    ensures var (c', id) := IcmpBool(c, cond, l, r); Sane(c', base, ret) && Here(c', base, id)
  {
    hide Here;
    DefSane(c, Icmp(c.next, cond, l, r), I8, base, ret);
    var (c1, id1) := Def(c, Icmp(c.next, cond, l, r), I8);
    DefSane(c1, Instr.Uextend(c1.next, I32, id1), I32, base, ret);
  }

  lemma {:induction false} OpsSane(c: Ctx, ops: seq<Op>, i: nat, ids: seq<Id>, vs: seq<Value>, base: iset<Id>, ret: Ty)
    requires Valid(c) && i <= |ops| && i <= |ids| && Closed(ops, |ids| - i) && |ids| <= |vs|
    requires Solves(ops, |ids| - i, vs)
    requires forall j | 0 <= j < |ids| :: TypedId(c, ids[j], vs[j].ty)
    requires Sane(c, base, ret) && AllHere(c, base, ids)
    ensures var (c', ids') := EmitOps(c, ops, i, ids); Sane(c', base, ret) && AllHere(c', base, ids')
    decreases |ops| - i
  {
    hide EvalOp, EmitOp, Pow2, Sane, Here;
    if i < |ops| {
      var v := vs[|ids|];
      assert EvalOp(ops[i], vs, |ids| - i + i) == Is(vs[|ids| - i + i]);
      var (c1, id) := EmitOp(c, ops[i], ids);
      OpTypes(c, ops[i], ids, vs, v);
      OpSane(c, ops[i], ids, vs, v, base, ret);
      AllHereOn(c, c1, base, ids);
      forall j | 0 <= j < |ids| + 1 ensures TypedId(c1, (ids + [id])[j], vs[j].ty) && Here(c1, base, (ids + [id])[j]) {
        if j < |ids| { assert TypedId(c, ids[j], vs[j].ty); }
      }
      OpsSane(c1, ops, i + 1, ids + [id], vs, base, ret);
    }
  }
}

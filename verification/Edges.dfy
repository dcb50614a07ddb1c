/** Phi nodes become block parameters.  On every edge of a well-formed program the argument list has
    the target's parameters' length, order and types, and entering the target by binding them is
    entering it by evaluating its phis. */
module Edges {
  import opened Wrappers
  import opened Words
  import opened Machine
  import opened Lowering
  import opened EmitRun
  import opened Tracking
  import opened Relation
  import opened StrictSsa
  import J = JuliaIR

  /** The parameter ids of the phis among statements si .. last - 1. */
  function PhiIds(p: J.Prog, ssa: map<nat, Id>, si: nat, last: nat): seq<Id>
    requires last <= |p.stmts|
    decreases last - si
  {
    if si >= last then []
    else if !p.stmts[si].Phi? then PhiIds(p, ssa, si + 1, last)
    else [if si in ssa then ssa[si] else 0] + PhiIds(p, ssa, si + 1, last)
  }

  ghost predicate ParamsOK(p: J.Prog, c: Ctx)
    requires J.LaidOut(p)
  {
    && |c.params| == |p.blocks| + 1
    && forall b | 0 <= b < |p.blocks| :: c.params[b + 1] == PhiIds(p, c.ssa, p.blocks[b].first, p.blocks[b].last)
  }

  /** No other value shares a phi's id. */
  ghost predicate PhisApart(p: J.Prog, c: Ctx) {
    && (forall n | n in c.ssa && n < |p.stmts| && p.stmts[n].Phi? :: c.nargs <= c.ssa[n])
    && (forall n, m | n in c.ssa && n < |p.stmts| && p.stmts[n].Phi? && m in c.ssa && IsRoot(p, m) && m != n ::
          c.ssa[m] != c.ssa[n])
    && (forall n, m | n in c.ssa && n < |p.stmts| && p.stmts[n].Phi? && m in c.pairs ::
          c.pairs[m].0 != c.ssa[n] && c.pairs[m].1 != c.ssa[n])
  }

  lemma PhisApartLater(p: J.Prog, c: Ctx, c': Ctx, si: nat, sj: nat)
    requires PhisApart(p, c) && Tracks(p, c, si) && Tracks(p, c', sj) && Later(p, c, c')
    ensures PhisApart(p, c')
  {
    hide SharesId;
    forall n | n in c'.ssa && n < |p.stmts| && p.stmts[n].Phi? ensures n in c.ssa && c'.ssa[n] == c.ssa[n] < c.next {
      assert Emitted(p, n, si);
    }
  }

  lemma {:induction false} PhiIdsSame(p: J.Prog, a: map<nat, Id>, b: map<nat, Id>, si: nat, last: nat)
    requires last <= |p.stmts|
    requires forall n | si <= n < last && p.stmts[n].Phi? :: n in a && n in b && a[n] == b[n]
    ensures PhiIds(p, a, si, last) == PhiIds(p, b, si, last)
    decreases last - si
  {
    if si < last { PhiIdsSame(p, a, b, si + 1, last); }
  }

  lemma ParamsLater(p: J.Prog, c: Ctx, c': Ctx, si: nat)
    requires J.LaidOut(p) && ParamsOK(p, c) && Tracks(p, c, si) && Later(p, c, c')
    ensures ParamsOK(p, c')
  {
    hide SharesId, Pairs, Args;
    forall b | 0 <= b < |p.blocks| ensures c'.params[b + 1] == PhiIds(p, c'.ssa, p.blocks[b].first, p.blocks[b].last) {
      forall n | p.blocks[b].first <= n < p.blocks[b].last && p.stmts[n].Phi? ensures n in c.ssa {
        assert Emitted(p, n, si);
      }
      PhiIdsSame(p, c.ssa, c'.ssa, p.blocks[b].first, p.blocks[b].last);
    }
  }

  // ---- argument lists, statically ----

  /** ids has one entry per phi, in order, of the phi's register type. */
  ghost predicate Aligned(p: J.Prog, c: Ctx, si: nat, last: nat, ids: seq<Id>)
    requires last <= |p.stmts|
    decreases last - si
  {
    if si >= last then ids == []
    else if !p.stmts[si].Phi? then Aligned(p, c, si + 1, last, ids)
    else ids != [] && TypedId(c, ids[0], p.stmts[si].ty.Reg()) && Aligned(p, c, si + 1, last, ids[1..])
  }

  /** The operand a phi takes from a predecessor, if it has one. */
  function EdgeOperand(edges: seq<J.Edge>, from: nat): Option<J.Operand> {
    match J.EdgeFrom(edges, from) case Some(e) => e.value case None => None
  }

  /** Operands on the edges leaving a block are usable at its end. */
  ghost predicate EdgesUsable(p: J.Prog, from: nat, t: nat) {
    forall n | 0 <= n < |p.stmts| && p.stmts[n].Phi? && EdgeOperand(p.stmts[n].edges, from).Some? ::
      OperandOK(p, EdgeOperand(p.stmts[n].edges, from).value, p.stmts[n].ty, t)
  }

  lemma {:induction false} EdgeFromIn(edges: seq<J.Edge>, from: nat)
    ensures J.EdgeFrom(edges, from).Some? ==>
      J.EdgeFrom(edges, from).value in edges && J.EdgeFrom(edges, from).value.pred == from
  {
    if edges != [] { EdgeFromIn(edges[1..], from); }
  }

  lemma EdgesInOrder(p: J.Prog, from: nat)
    requires Static(p) && from < |p.blocks|
    ensures EdgesUsable(p, from, p.blocks[from].last)
  {
    forall n | 0 <= n < |p.stmts| && p.stmts[n].Phi? && EdgeOperand(p.stmts[n].edges, from).Some?
      ensures OperandOK(p, EdgeOperand(p.stmts[n].edges, from).value, p.stmts[n].ty, p.blocks[from].last)
    {
      EdgeFromIn(p.stmts[n].edges, from);
      assert J.StmtTyped(p, p.stmts[n]);
    }
  }

  lemma PhiArgTracks(p: J.Prog, c: Ctx, n: nat, from: nat, t: nat)
    requires Tracks(p, c, t) && n < |p.stmts| && p.stmts[n].Phi? && EdgesUsable(p, from, t)
    ensures var (c1, id) := PhiArg(c, p.stmts[n].edges, p.stmts[n].ty, from);
      id.Some? && TypedId(c1, id.value, p.stmts[n].ty.Reg()) && Tracks(p, c1, t)
  {
    hide Later, Values, Pairs, Args;
    var c1 := PhiArg(c, p.stmts[n].edges, p.stmts[n].ty, from).0;
    TracksQuiet(p, c, c1, t);
    if EdgeOperand(p.stmts[n].edges, from).Some? {
      ResolveTracks(p, c, EdgeOperand(p.stmts[n].edges, from).value, p.stmts[n].ty, t);
    }
  }

  lemma {:induction false} PhiArgsTracks(p: J.Prog, c: Ctx, from: nat, si: nat, last: nat, t: nat)
    requires Tracks(p, c, t) && last <= |p.stmts| && EdgesUsable(p, from, t) && Valid(c)
    ensures var (c1, ids) := PhiArgs(c, p, from, si, last);
      ids.Some? && Tracks(p, c1, t) && Aligned(p, c1, si, last, ids.value)
    decreases last - si
  {
    hide Tracks, EdgesUsable, Frame, PhiArg, TypedId;
    if si < last {
      if p.stmts[si].Phi? {
        PhiArgTracks(p, c, si, from, t);
        var (c1, a) := PhiArg(c, p.stmts[si].edges, p.stmts[si].ty, from);
        PhiArgsTracks(p, c1, from, si + 1, last, t);
        var (c2, rest) := PhiArgs(c1, p, from, si + 1, last);
        TypedIdLater(c1, c2, a.value, p.stmts[si].ty.Reg());
        assert ([a.value] + rest.value)[1..] == rest.value;
      } else {
        PhiArgsTracks(p, c, from, si + 1, last, t);
      }
    }
  }

  /** Arguments of the parameters' types need no coercion. */
  lemma {:induction false} CoerceNothing(p: J.Prog, c: Ctx, si: nat, last: nat, ids: seq<Id>, params: seq<Id>)
    requires Valid(c) && last <= |p.stmts| && Aligned(p, c, si, last, ids) && Aligned(p, c, si, last, params)
    ensures CoerceAll(c, ids, params) == (c, ids) && |ids| == |params|
    decreases last - si
  {
    hide Valid;
    if si < last {
      if p.stmts[si].Phi? {
        CoerceNothing(p, c, si + 1, last, ids[1..], params[1..]);
        assert [ids[0]] + ids[1..] == ids;
      } else {
        CoerceNothing(p, c, si + 1, last, ids, params);
      }
    }
  }

  lemma {:induction false} ParamsAligned(p: J.Prog, c: Ctx, si: nat, last: nat, t: nat)
    requires Tracks(p, c, t) && last <= |p.stmts|
    ensures Aligned(p, c, si, last, PhiIds(p, c.ssa, si, last))
    decreases last - si
  {
    hide SharesId, Pairs, Args;
    if si < last {
      ParamsAligned(p, c, si + 1, last, t);
      if p.stmts[si].Phi? {
        assert Emitted(p, si, t);
        assert PhiIds(p, c.ssa, si, last)[1..] == PhiIds(p, c.ssa, si + 1, last);
      }
    }
  }

  // ---- argument lists, executed ----

  /** What the machine passes for a phi's value; zero for an undefined one. */
  predicate Passes(ty: J.JTy, tv: Value, sv: Option<J.SVal>) {
    && tv.ty == ty.Reg()
    && match sv
       case Some(Num(v)) => ty.Holds(v) && tv == J.Rep(ty, v)
       case Some(Undef) => tv.bits == 0
       case _ => false
  }

  ghost predicate PhiVals(p: J.Prog, args: seq<int>, env: J.Env, from: nat, si: nat, last: nat, vals: seq<Value>)
    requires last <= |p.stmts|
    decreases last - si
  {
    if si >= last then vals == []
    else if !p.stmts[si].Phi? then PhiVals(p, args, env, from, si + 1, last, vals)
    else
      && vals != []
      && Passes(p.stmts[si].ty, vals[0], J.PhiValue(args, env, p.stmts[si].edges, from))
      && PhiVals(p, args, env, from, si + 1, last, vals[1..])
  }

  /** The source run takes this edge: every phi has a value there, if only an undefined one. */
  ghost predicate Taken(p: J.Prog, args: seq<int>, env: J.Env, from: nat, si: nat, last: nat)
    requires last <= |p.stmts|
  {
    forall n | si <= n < last && p.stmts[n].Phi? :: J.PhiValue(args, env, p.stmts[n].edges, from).Some?
  }

  lemma {:induction false} EnterTaken(p: J.Prog, args: seq<int>, from: nat, env: J.Env, si: nat, last: nat, acc: J.Env)
    requires last <= |p.stmts| && J.EnterFrom(p, args, from, env, si, last, acc).Some?
    ensures Taken(p, args, env, from, si, last)
    decreases last - si
  {
    if si < last {
      var acc' := if p.stmts[si].Phi? then acc[si := J.PhiValue(args, env, p.stmts[si].edges, from).value] else acc;
      EnterTaken(p, args, from, env, si + 1, last, acc');
    }
  }

  /** At the end of a block, the operands of its outgoing edges are in scope. */
  ghost predicate EdgesHere(x: Point) {
    && |x.path| > 0
    && forall n | 0 <= n < |x.p.stmts| && x.p.stmts[n].Phi?
         && EdgeOperand(x.p.stmts[n].edges, x.path[|x.path| - 1]).Some? ::
         OperandHere(x, EdgeOperand(x.p.stmts[n].edges, x.path[|x.path| - 1]).value, x.p.stmts[n].ty)
  }

  lemma EdgesInScope(x: Point)
    requires Sound(x.p) && Static(x.p) && |x.path| > 0
    requires x.path[|x.path| - 1] < |x.p.blocks| && x.si == x.p.blocks[x.path[|x.path| - 1]].last
    ensures EdgesHere(x) && EdgesUsable(x.p, x.path[|x.path| - 1], x.si)
  {
    hide J.Reaches, J.Typed;
    var from := x.path[|x.path| - 1];
    EdgesInOrder(x.p, from);
    forall n | 0 <= n < |x.p.stmts| && x.p.stmts[n].Phi? && EdgeOperand(x.p.stmts[n].edges, from).Some?
      ensures OperandHere(x, EdgeOperand(x.p.stmts[n].edges, from).value, x.p.stmts[n].ty)
    {
      EdgeFromIn(x.p.stmts[n].edges, from);
    }
  }

  lemma PhiArgRun(x: Point, c: Ctx, n: nat, taken: bool, start: Env, tenv: Env) returns (tenv': Env)
    requires OnRun(x) && InStep(x, c, start, tenv) && Valid(c) && EdgesHere(x)
    requires n < |x.p.stmts| && x.p.stmts[n].Phi?
    requires var from := x.path[|x.path| - 1];
      && Later(x.p, PhiArg(c, x.p.stmts[n].edges, x.p.stmts[n].ty, from).0, x.fin)
      && (taken ==> J.PhiValue(x.args, x.env, x.p.stmts[n].edges, from).Some?)
    ensures var from := x.path[|x.path| - 1];
      var (c1, id) := PhiArg(c, x.p.stmts[n].edges, x.p.stmts[n].ty, from);
      && Arrives(c1, start, tenv') && Wrote(c, c1, tenv, tenv') && id.Some? && id.value < c1.next
      && (taken ==> (id.value in tenv' &&
            Passes(x.p.stmts[n].ty, tenv'[id.value], J.PhiValue(x.args, x.env, x.p.stmts[n].edges, from))))
  {
    hide Pow2, Wrap, Exec, Later, Coherent, J.IsPath, J.Reaches, Sound, Static;
    var from := x.path[|x.path| - 1];
    var s := x.p.stmts[n];
    match EdgeOperand(s.edges, from)
    case None =>
      IconstRun(c, s.ty.Reg(), 0, start, tenv);
      tenv' := tenv[c.next := Val(s.ty.Reg(), Wrap(0, s.ty.Reg()))];
      WrapZero(s.ty.Reg());
    case Some(o) =>
      assert OperandHere(x, o, s.ty);
      tenv' := EdgeOperandRun(x, c, o, s.ty, taken, start, tenv);
  }

  lemma WrapZero(w: nat)
    ensures Wrap(0, w) == 0
  {
  }

  lemma EdgeOperandRun(x: Point, c: Ctx, o: J.Operand, ty: J.JTy, taken: bool, start: Env, tenv: Env)
    returns (tenv': Env)
    requires OnRun(x) && InStep(x, c, start, tenv) && Valid(c) && OperandHere(x, o, ty)
    requires Later(x.p, Resolve(c, o).0, x.fin)
    requires taken && o.SSA? ==> o.n in x.env && !x.env[o.n].Pair?
    ensures var (c1, id) := Resolve(c, o);
      && Arrives(c1, start, tenv') && Wrote(c, c1, tenv, tenv') && id.Some? && id.value < c1.next
      && (taken ==> (id.value in tenv' &&
            Passes(ty, tenv'[id.value], if o.SSA? then Some(x.env[o.n]) else
              match J.Eval(x.args, x.env, o) case Some(u) => Some(J.Num(u)) case None => None)))
  {
    hide Pow2, Wrap, Exec, Coherent, J.IsPath, J.Reaches, Sound, Static, Related, Tracks, Later;
    var (c1, id) := Resolve(c, o);
    ResolveTracks(x.p, c, o, ty, x.si);
    LaterTrans(x.p, c, c1, x.fin);
    if o.SSA? {
      tenv' := tenv;
      if taken { EdgeRead(x, c, o.n, ty, tenv); }
    } else {
      KnownOperand(x, o, ty, tenv);
      var v := J.Eval(x.args, x.env, o).value;
      tenv' := ResolveRun(x, c, o, ty, v, start, tenv);
    }
  }

  lemma KnownOperand(x: Point, o: J.Operand, ty: J.JTy, tenv: Env)
    requires OperandHere(x, o, ty) && !o.SSA? && Related(x.p, x.args, x.fin, x.env, tenv)
    ensures J.Eval(x.args, x.env, o).Some?
  {
    hide J.Reaches;
  }

  lemma EdgeRead(x: Point, c: Ctx, n: nat, ty: J.JTy, tenv: Env)
    requires OnRun(x) && Tracks(x.p, c, x.si) && Related(x.p, x.args, x.fin, x.env, tenv) && Later(x.p, c, x.fin)
    requires OperandHere(x, J.SSA(n), ty) && n in x.env && !x.env[n].Pair?
    ensures n in c.ssa && c.ssa[n] in tenv && Passes(ty, tenv[c.ssa[n]], Some(x.env[n]))
  {
    hide Pow2, Wrap, Coherent, J.IsPath, J.Reaches, Sound, Static, Related, Pairs, Args;
    Readable(x.p, x.args, x.fin, x.path, x.si, x.env, tenv, n);
    assert Emitted(x.p, n, x.si);
  }

  lemma LookupCons(tenv: Env, id: Id, rest: seq<Id>)
    requires id in tenv && Defined(tenv, rest)
    ensures Defined(tenv, [id] + rest)
    ensures Lookup(tenv, [id] + rest) == [tenv[id]] + Lookup(tenv, rest)
  {
  }

  lemma {:induction false} PhiArgsRun(x: Point, c: Ctx, si: nat, last: nat, taken: bool, start: Env, tenv: Env)
    returns (tenv': Env)
    requires OnRun(x) && InStep(x, c, start, tenv) && Valid(c) && EdgesHere(x) && last <= |x.p.stmts| && |x.path| > 0
    requires EdgesUsable(x.p, x.path[|x.path| - 1], x.si)
    requires var from := x.path[|x.path| - 1];
      && Later(x.p, PhiArgs(c, x.p, from, si, last).0, x.fin)
      && (taken ==> Taken(x.p, x.args, x.env, from, si, last))
    ensures var from := x.path[|x.path| - 1];
      var (c1, ids) := PhiArgs(c, x.p, from, si, last);
      && InStep(x, c1, start, tenv') && Wrote(c, c1, tenv, tenv') && ids.Some?
      && (taken ==> (Defined(tenv', ids.value) &&
            PhiVals(x.p, x.args, x.env, from, si, last, Lookup(tenv', ids.value))))
    decreases last - si
  {
    hide Later, OnRun, Related, Tracks, Arrives, EdgesHere, EdgesUsable, Wrote, PhiArg, Passes, J.PhiValue,
      Frame, Valid;
    var from := x.path[|x.path| - 1];
    tenv' := tenv;
    if si < last {
      if x.p.stmts[si].Phi? {
        var (c1, a) := PhiArg(c, x.p.stmts[si].edges, x.p.stmts[si].ty, from);
        PhiArgTracks(x.p, c, si, from, x.si);
        var c2 := PhiArgs(c1, x.p, from, si + 1, last).0;
        QuietLater(x.p, c1, c2, x.fin);
        var t1 := PhiArgRun(x, c, si, taken, start, tenv);
        QuietKeeps(x.p, x.args, x.fin, c, c1, x.si, x.env, tenv, t1);
        tenv' := PhiArgsRun(x, c1, si + 1, last, taken, start, t1);
        WroteTwice(c, c1, c2, tenv, t1, tenv');
        if taken {
          var rest := PhiArgs(c1, x.p, from, si + 1, last).1.value;
          WroteKeeps(c1, c2, t1, tenv', a.value);
          LookupCons(tenv', a.value, rest);
          assert ([tenv'[a.value]] + Lookup(tenv', rest))[1..] == Lookup(tenv', rest);
        }
      } else {
        tenv' := PhiArgsRun(x, c, si + 1, last, taken, start, tenv);
      }
    } else {
      WroteNothing(c, tenv);
    }
  }

  lemma QuietLater(p: J.Prog, c: Ctx, c': Ctx, fin: Ctx)
    requires Straight(c, c') && Later(p, c', fin)
    ensures Later(p, c, fin)
  {
    hide Later, Frame;
    LaterQuiet(p, c, c');
    LaterTrans(p, c, c', fin);
  }

  lemma WroteTwice(a: Ctx, b: Ctx, c: Ctx, e1: Env, e2: Env, e3: Env)
    requires Straight(a, b) && Straight(b, c) && Wrote(a, b, e1, e2) && Wrote(b, c, e2, e3)
    ensures Wrote(a, c, e1, e3)
  {
  }

  lemma WroteKeeps(c: Ctx, c': Ctx, e: Env, e': Env, id: Id)
    requires Wrote(c, c', e, e') && id < c.next && id in e
    ensures id in e' && e'[id] == e[id]
  {
  }

  lemma WroteNothing(c: Ctx, e: Env)
    ensures Wrote(c, c, e, e)
  {
  }

  // ---- entering the target ----

  lemma {:induction false} BindPhis(p: J.Prog, args: seq<int>, fin: Ctx, from: nat, env: J.Env, si: nat, last: nat,
                                    acc: J.Env, tenv: Env, vals: seq<Value>)
    requires Final(p, fin) && PhisApart(p, fin) && last <= |p.stmts| && Related(p, args, fin, acc, tenv)
    requires PhiVals(p, args, env, from, si, last, vals)
    requires J.EnterFrom(p, args, from, env, si, last, acc).Some?
    ensures |vals| == |PhiIds(p, fin.ssa, si, last)|
    ensures Related(p, args, fin, J.EnterFrom(p, args, from, env, si, last, acc).value,
                    Bind(tenv, PhiIds(p, fin.ssa, si, last), vals))
    decreases last - si
  {
    hide Final, PhisApart, Related, Passes, J.PhiValue;
    if si < last {
      if p.stmts[si].Phi? {
        var v := J.PhiValue(args, env, p.stmts[si].edges, from).value;
        var ids := PhiIds(p, fin.ssa, si, last);
        assert ids[1..] == PhiIds(p, fin.ssa, si + 1, last);
        BindPhi(p, args, fin, si, acc, tenv, v, vals[0]);
        BindPhis(p, args, fin, from, env, si + 1, last, acc[si := v], tenv[ids[0] := vals[0]], vals[1..]);
      } else {
        BindPhis(p, args, fin, from, env, si + 1, last, acc, tenv, vals);
      }
    }
  }

  lemma BindPhi(p: J.Prog, args: seq<int>, fin: Ctx, si: nat, acc: J.Env, tenv: Env, v: J.SVal, tv: Value)
    requires Final(p, fin) && PhisApart(p, fin) && si < |p.stmts| && p.stmts[si].Phi?
      && Related(p, args, fin, acc, tenv)
    requires Passes(p.stmts[si].ty, tv, Some(v))
    ensures si in fin.ssa && Related(p, args, fin, acc[si := v], tenv[fin.ssa[si] := tv])
  {
    hide Sound, Static, SharesId, Pow2, Wrap;
    assert Emitted(p, si, |p.stmts|);
    var tenv' := tenv[fin.ssa[si] := tv];
    forall n | n in acc && n != si && IsRoot(p, n) ensures RootRelated(p, fin, tenv', n, acc[n]) {
      assert RootRelated(p, fin, tenv, n, acc[n]);
    }
    SetRelated(p, args, fin, acc, tenv', si, v);
  }

  lemma {:induction false} PhiTypes(p: J.Prog, args: seq<int>, fin: Ctx, env: J.Env, from: nat, si: nat,
          last: nat, vals: seq<Value>)
    requires Tracks(p, fin, |p.stmts|) && last <= |p.stmts| && PhiVals(p, args, env, from, si, last, vals)
    ensures |vals| == |PhiIds(p, fin.ssa, si, last)|
    ensures forall i | 0 <= i < |vals| ::
      PhiIds(p, fin.ssa, si, last)[i] in fin.types && fin.types[PhiIds(p, fin.ssa, si, last)[i]] == vals[i].ty
    decreases last - si
  {
    hide SharesId, Pairs, Args, J.PhiValue;
    if si < last {
      if p.stmts[si].Phi? {
        assert Emitted(p, si, |p.stmts|);
        PhiTypes(p, args, fin, env, from, si + 1, last, vals[1..]);
        var rest := PhiIds(p, fin.ssa, si + 1, last);
        forall i | 0 <= i < |vals|
          ensures var id := PhiIds(p, fin.ssa, si, last)[i]; id in fin.types && fin.types[id] == vals[i].ty
        {
          if i > 0 { assert rest[i - 1] in fin.types && fin.types[rest[i - 1]] == vals[1..][i - 1].ty; }
        }
      } else {
        PhiTypes(p, args, fin, env, from, si + 1, last, vals);
      }
    }
  }
}

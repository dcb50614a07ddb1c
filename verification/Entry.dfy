/** The emitter's state before the first block: arguments and phis are tracked, every phi under a
    parameter id of its own. */
module Entry {
  import opened Wrappers
  import opened Words
  import opened Machine
  import opened Lowering
  import opened BlockShape
  import opened EdgeAgreement
  import opened EmitRun
  import opened Tracking
  import opened StrictSsa
  import opened Edges
  import opened BlockRun
  import J = JuliaIR

  /** The phis before statement si, and nothing else, are tracked, under distinct new ids. */
  ghost predicate PhiTable(p: J.Prog, c: Ctx, si: nat) {
    && Valid(c) && |c.params| == |p.blocks| + 1 && Args(p, c) && c.pairs == map[]
    && (forall n: nat | n < |p.stmts| && n < si && p.stmts[n].Phi? :: n in c.ssa)
    && (forall n | n in c.ssa :: n < si && n < |p.stmts| && p.stmts[n].Phi?
          && c.nargs <= c.ssa[n] && TypedId(c, c.ssa[n], p.stmts[n].ty.Reg()))
    && (forall n, m | n in c.ssa && m in c.ssa && n != m :: c.ssa[n] != c.ssa[m])
  }

  function AddPhi(c: Ctx, p: J.Prog, b: nat, si: nat): Ctx
    requires si < |p.stmts| && p.stmts[si].Phi? && b + 1 < |c.params|
  {
    c.(params := c.params[b + 1 := c.params[b + 1] + [c.next]],
       types := c.types[c.next := p.stmts[si].ty.Reg()], next := c.next + 1, ssa := c.ssa[si := c.next])
  }

  lemma AddPhiTable(c: Ctx, p: J.Prog, b: nat, si: nat)
    requires PhiTable(p, c, si) && si < |p.stmts| && p.stmts[si].Phi? && b + 1 < |c.params|
    ensures PhiTable(p, AddPhi(c, p, b, si), si + 1)
  {
  }

  lemma {:induction false} PhiIdsSnoc(p: J.Prog, ssa: map<nat, Id>, si: nat, last: nat)
    requires si <= last < |p.stmts|
    ensures PhiIds(p, ssa, si, last + 1)
         == PhiIds(p, ssa, si, last) + if p.stmts[last].Phi? then [if last in ssa then ssa[last] else 0] else []
    decreases last - si
  {
    if si < last { PhiIdsSnoc(p, ssa, si + 1, last); }
  }

  /** Tracked ids are never replaced. */
  predicate Extends(a: map<nat, Id>, b: map<nat, Id>) {
    forall n | n in a :: n in b && b[n] == a[n]
  }

  lemma {:induction false} AddParamsTable(c: Ctx, p: J.Prog, b: nat, first: nat, si: nat, last: nat)
    requires PhiTable(p, c, si) && first <= si <= last <= |p.stmts| && b + 1 < |c.params|
    requires c.params[b + 1] == PhiIds(p, c.ssa, first, si)
    ensures var r := AddParams(c, p, b, si, last);
      && PhiTable(p, r, last) && Extends(c.ssa, r.ssa)
      && r.params[b + 1] == PhiIds(p, r.ssa, first, last)
      && (forall i | 0 <= i < |c.params| && i != b + 1 :: r.params[i] == c.params[i])
    decreases last - si
  {
    hide PhiTable, Valid;
    TableValid(c, p, si);
    if si < last {
      PhiIdsSnoc(p, c.ssa, first, si);
      if p.stmts[si].Phi? {
        var c1 := AddPhi(c, p, b, si);
        AddPhiTable(c, p, b, si);
        TableValid(c1, p, si + 1);
        assert si !in c.ssa by { NotYetTracked(c, p, si); }
        PhiIdsKnown(p, c, c1.ssa, first, si);
        PhiIdsSnoc(p, c1.ssa, first, si);
        AddParamsTable(c1, p, b, first, si + 1, last);
      } else {
        SkipTable(c, p, si);
        AddParamsTable(c, p, b, first, si + 1, last);
      }
    }
  }

  lemma TableValid(c: Ctx, p: J.Prog, si: nat)
    requires PhiTable(p, c, si)
    ensures Valid(c) && |c.params| == |p.blocks| + 1
  {
  }

  lemma NotYetTracked(c: Ctx, p: J.Prog, si: nat)
    requires PhiTable(p, c, si)
    ensures si !in c.ssa
  {
  }

  lemma SkipTable(c: Ctx, p: J.Prog, si: nat)
    requires PhiTable(p, c, si) && si < |p.stmts| && !p.stmts[si].Phi?
    ensures PhiTable(p, c, si + 1)
  {
  }

  lemma PhiIdsKnown(p: J.Prog, c: Ctx, ssa: map<nat, Id>, si: nat, last: nat)
    requires PhiTable(p, c, last) && last <= |p.stmts| && Extends(c.ssa, ssa)
    ensures PhiIds(p, ssa, si, last) == PhiIds(p, c.ssa, si, last)
  {
    PhiIdsSame(p, ssa, c.ssa, si, last);
  }

  function Start(p: J.Prog, b: nat): nat {
    if b < |p.blocks| then p.blocks[b].first else |p.stmts|
  }

  lemma {:induction false} AllParamsTable(c: Ctx, p: J.Prog, b: nat)
    requires J.LaidOut(p) && b <= |p.blocks| && PhiTable(p, c, Start(p, b)) && Valid(c) && |c.params| == |p.blocks| + 1
    requires forall i | 0 <= i < b :: c.params[i + 1] == PhiIds(p, c.ssa, p.blocks[i].first, p.blocks[i].last)
    requires forall i | b < i < |c.params| :: c.params[i] == []
    ensures var r := AddAllParams(c, p, b); PhiTable(p, r, |p.stmts|) && ParamsOK(p, r)
    decreases |p.blocks| - b
  {
    hide PhiTable, AddParams, PhiIds, Valid;
    if b < |p.blocks| {
      var first, last := p.blocks[b].first, p.blocks[b].last;
      NextFirst(p, b);
      assert PhiIds(p, c.ssa, first, first) == [] by { NoIds(p, c.ssa, first); }
      AddParamsTable(c, p, b, first, first, last);
      var r := AddParams(c, p, b, first, last);
      forall i | 0 <= i < b + 1 ensures r.params[i + 1] == PhiIds(p, r.ssa, p.blocks[i].first, p.blocks[i].last) {
        if i < b { IdsBefore(p, c, r.ssa, i, b); }
      }
      AllParamsTable(r, p, b + 1);
    }
  }

  lemma NoIds(p: J.Prog, ssa: map<nat, Id>, si: nat)
    requires si <= |p.stmts|
    ensures PhiIds(p, ssa, si, si) == []
  {
  }

  lemma IdsBefore(p: J.Prog, c: Ctx, ssa: map<nat, Id>, i: nat, b: nat)
    requires J.LaidOut(p) && i < b < |p.blocks| && PhiTable(p, c, p.blocks[b].first) && Extends(c.ssa, ssa)
    ensures PhiIds(p, ssa, p.blocks[i].first, p.blocks[i].last) == PhiIds(p, c.ssa, p.blocks[i].first, p.blocks[i].last)
  {
    BlockOrder(p, i, b);
    PhiIdsSame(p, ssa, c.ssa, p.blocks[i].first, p.blocks[i].last);
  }

  /** The state in which the first block is emitted. */
  function Prepared(p: J.Prog): Ctx
    requires J.LaidOut(p)
  {
    AddAllParams(Init(p), p, 0)
  }

  lemma PreparedTracks(p: J.Prog)
    requires J.LaidOut(p)
    ensures var c := Prepared(p);
      Tracks(p, c, 0) && ParamsOK(p, c) && PhisApart(p, c) && c.bodies == Init(p).bodies
  {
    hide AddAllParams, PhiIds;
    AllParamsKeepCode(Init(p), p, 0);
    InitTable(p);
    AllParamsTable(Init(p), p, 0);
    TableTracks(p, Prepared(p));
  }

  lemma InitTable(p: J.Prog)
    requires J.LaidOut(p)
    ensures PhiTable(p, Init(p), 0) && Valid(Init(p))
  {
  }

  lemma TableTracks(p: J.Prog, c: Ctx)
    requires PhiTable(p, c, |p.stmts|)
    ensures Tracks(p, c, 0) && PhisApart(p, c)
  {
  }
}

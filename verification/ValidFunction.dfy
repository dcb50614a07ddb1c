/** The whole function, as the Cranelift verifier sees it: dominance over the emitted branches instead of
    Julia's, and every block, the entry included. */
module ValidFunction {
  import opened Wrappers
  import opened Machine
  import opened Lowering
  import opened BlockShape
  import opened EdgeAgreement
  import opened Tracking
  import opened StrictSsa
  import opened Edges
  import opened BlockRun
  import opened Entry
  import opened ValidCode
  import opened Verifier
  import opened Validity
  import Simulation
  import J = JuliaIR

  // ---- the emitted control flow ----

  /** The entry leads to block 1, and Julia block b's code to b's successors. */
  ghost predicate FollowsJulia(p: J.Prog, f: Func) {
    forall b: nat, t: nat | Edge(f, b, t) ::
      b <= |p.blocks| && t > 0 && if b == 0 then t == 1 else t - 1 in p.blocks[b - 1].succs
  }

  /** A path through the emitted blocks, without the entry, in Julia's numbering. */
  function JuliaPath(path: seq<nat>): (q: seq<nat>)
    requires |path| > 1
    ensures |q| == |path| - 1
  {
    seq(|path| - 1, i requires 0 <= i < |path| - 1 => if path[i + 1] > 0 then path[i + 1] - 1 else 0)
  }

  lemma SuccsBounded(p: J.Prog)
    requires J.LaidOut(p)
    ensures |p.blocks| > 0
    ensures forall b, k | 0 <= b < |p.blocks| && 0 <= k < |p.blocks[b].succs| :: p.blocks[b].succs[k] < |p.blocks|
  {
  }

  lemma {:induction false} FlowInside(p: J.Prog, f: Func, path: seq<nat>, n: nat)
    requires J.LaidOut(p) && FlowPath(f, path) && n < |path| && FollowsJulia(p, f)
    ensures forall i | 0 < i <= n :: 0 < path[i] <= |p.blocks|
  {
    hide Edge, J.LaidOut;
    if n > 0 {
      FlowInside(p, f, path, n - 1);
      SuccsBounded(p);
      assert Edge(f, path[n - 1], path[n - 1 + 1]);
    }
  }

  lemma FlowIsJulia(p: J.Prog, f: Func, path: seq<nat>)
    requires J.LaidOut(p) && FlowPath(f, path) && |path| > 1 && FollowsJulia(p, f)
    ensures J.IsPath(p, JuliaPath(path))
    ensures forall i | 0 < i < |path| :: path[i] == JuliaPath(path)[i - 1] + 1
  {
    hide Edge, J.LaidOut;
    SuccsBounded(p);
    FlowInside(p, f, path, |path| - 1);
    assert Edge(f, path[0], path[0 + 1]);
    var q := JuliaPath(path);
    forall i | 0 <= i < |q| - 1 ensures q[i + 1] in p.blocks[q[i]].succs {
      assert Edge(f, path[i + 1], path[i + 1 + 1]);
    }
  }

  /** A block that dominates another in the Julia program does so in the emitted function. */
  lemma DominanceCarries(p: J.Prog, f: Func, e: nat, b: nat)
    requires J.LaidOut(p) && FollowsJulia(p, f) && J.Dominates(p, e, b)
    ensures FlowDominates(f, e + 1, b + 1)
  {
    hide FollowsJulia, Edge, J.LaidOut, J.IsPath;
    forall path | FlowPath(f, path) && path[|path| - 1] == b + 1 ensures e + 1 in path {
      FlowIsJulia(p, f, path);
      var q := JuliaPath(path);
      assert e in q;
      var i :| 0 <= i < |q| && q[i] == e;
      assert path[i + 1] == e + 1;
    }
  }

  lemma EntryDominates(f: Func, b: nat)
    ensures FlowDominates(f, 0, b)
  {
    hide Edge;
  }

  // ---- every check ----

  /** A compiled function, with what is known of its blocks. */
  ghost predicate Made(p: J.Prog, fin: Ctx) {
    && J.LaidOut(p) && Valid(fin) && |fin.bodies| == |p.blocks| + 1 == |fin.params|
    && fin.bodies[0] == [Jump(1, [])] && TypeOK(fin.types, fin.params, RetTy(p), Jump(1, []))
    && (forall k: nat | k < fin.nargs :: k in fin.params[0])
    && (forall b | 0 <= b < |fin.bodies| :: Complete(fin.bodies[b]))
    && forall b: nat | b < |p.blocks| :: BlockOK(p, fin, b)
  }

  lemma OnlyLastBranches(body: seq<Instr>, k: nat)
    requires Complete(body) && k < |body| && Targets(body[k]) != {}
    ensures k == |body| - 1
  {
  }

  lemma MadeFollows(p: J.Prog, fin: Ctx)
    requires Made(p, fin)
    ensures FollowsJulia(p, Function(fin, p))
  {
    hide CodeValid, J.LaidOut, TypeOK, Complete;
    var f := Function(fin, p);
    forall b: nat, t: nat | Edge(f, b, t)
      ensures b <= |p.blocks| && t > 0 && if b == 0 then t == 1 else t - 1 in p.blocks[b - 1].succs
    {
      var k: nat :| k < |f.bodies[b]| && t in Targets(f.bodies[b][k]);
      OnlyLastBranches(f.bodies[b], k);
      if b > 0 { assert BlockOK(p, fin, b - 1); }
    }
  }

  /** What a block inherits in Julia's numbering is available in the emitted function. */
  lemma InheritedAvailable(p: J.Prog, fin: Ctx, b: nat, k: nat, id: Id)
    requires Made(p, fin) && b < |p.blocks| && k < |fin.bodies[b + 1]| && Inherited(p, fin, b, id)
    ensures Available(Function(fin, p), b + 1, k, id)
  {
    hide CodeValid, J.LaidOut, TypeOK, Complete, FlowDominates, J.Dominates, BlockOK;
    var f := Function(fin, p);
    MadeFollows(p, fin);
    if id < fin.nargs {
      EntryDominates(f, b + 1);
      assert Supplies(f, 0, id);
    } else if id !in fin.params[b + 1] {
      var e: nat :| e != b && From(p, fin, b, e, id);
      DominanceCarries(p, f, e, b);
      assert Supplies(f, e + 1, id);
    }
  }

  lemma InstrMade(p: J.Prog, fin: Ctx, b: nat, k: nat)
    requires Made(p, fin) && b < |p.blocks| && k < |fin.bodies[b + 1]|
    ensures InstrVerifies(Function(fin, p), b + 1, k)
  {
    hide J.LaidOut, TypeOK, Available, Inherited;
    var f := Function(fin, p);
    assert BlockOK(p, fin, b);
    assert InstrValid(p, fin, b, k);
    var uses := Uses(f.bodies[b + 1][k]);
    forall id | id in uses ensures Available(f, b + 1, k, id) {
      if Inherited(p, fin, b, id) { InheritedAvailable(p, fin, b, k, id); } else { InBlockAvailable(f, b + 1, k, id); }
    }
    if Targets(f.bodies[b + 1][k]) != {} {
      OnlyLastBranches(f.bodies[b + 1], k);
      SuccsBounded(p);
    }
  }

  lemma InBlockAvailable(f: Func, b: nat, k: nat, id: Id)
    requires b < |f.bodies| == |f.params| && k < |f.bodies[b]| && DefinedBefore(f.bodies[b], k, id)
    ensures Available(f, b, k, id)
  {
    hide FlowDominates, DefinedBefore;
  }

  lemma EntryMade(p: J.Prog, fin: Ctx)
    requires Made(p, fin)
    ensures InstrVerifies(Function(fin, p), 0, 0)
  {
    hide J.LaidOut, BlockOK, Complete;
    SuccsBounded(p);
  }

  lemma MadeVerifies(p: J.Prog, fin: Ctx)
    requires Made(p, fin) && ParamsDistinct(fin.params, fin.types) && OneDefinition(fin.bodies, fin.params)
    ensures Verifies(Function(fin, p))
  {
    hide J.LaidOut, BlockOK, Complete, InstrVerifies, TypeOK, ParamsDistinct, OneDefinition;
    var f := Function(fin, p);
    forall b: nat, k: nat | b < |f.bodies| && k < |f.bodies[b]| ensures InstrVerifies(f, b, k) {
      if b == 0 { EntryMade(p, fin); } else { InstrMade(p, fin, b - 1, k); }
    }
  }

  /** The function compiled for any well-formed program passes the verifier, and its branches are Julia's. */
  lemma CompiledCodeVerifies(p: J.Prog)
    requires J.WellFormed(p)
    ensures Compile(p).Some?
    ensures var f := Function(Compile(p).value, p); Verifies(f) && FollowsJulia(p, f)
  {
    hide J.Terminated, J.Typed, J.Ordered, J.Strict, J.LaidOut, Prepared, EmitBlocks, BlockOK, AllHomed, Tracks,
      ParamsOK, Agrees, Verifies, FollowsJulia, OneDefinition, DefAt, TypeOK, Complete, ParamsDistinct;
    Simulation.Compiles(p);
    var c := Prepared(p);
    PreparedTracks(p);
    PreparedHomed(p);
    PreparedBodies(p);
    PreparedFresh(p);
    Simulation.FirstBlock(p);
    TracksValid(p, c, 0);
    PreparedParams(p);
    BlocksValid(p, c, 0);
    EdgesAgree(p);
    var fin := Compile(p).value;
    EntryTyped(p, fin);
    TypedOn(c.params, c.types, fin.types);
    MadeFollows(p, fin);
    MadeVerifies(p, fin);
  }

  lemma TypedOn(params: seq<seq<Id>>, a: map<Id, Ty>, b: map<Id, Ty>)
    requires ParamsDistinct(params, a) && forall id | id in a :: id in b
    ensures ParamsDistinct(params, b)
  {
  }

  lemma EntryTyped(p: J.Prog, c: Ctx)
    requires c.bodies != [] && c.bodies[0] == [Jump(1, [])] && Agrees(c.params, Last(c, 0))
    ensures TypeOK(c.types, c.params, RetTy(p), Jump(1, []))
  {
  }

  lemma PreparedParams(p: J.Prog)
    requires J.LaidOut(p)
    ensures |Prepared(p).params| == |p.blocks| + 1
    ensures Compile(p) == EmitBlocks(Prepared(p), p, 0)
  {
    hide AddAllParams, EmitBlocks;
  }
}

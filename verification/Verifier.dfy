/** What the Cranelift verifier asks of a whole function, stated of the emitted function alone. */
module Verifier {
  import opened Machine
  import opened BlockShape
  import opened ValidCode

  // ---- control flow ----

  /** Block b can branch to block t. */
  ghost predicate Edge(f: Func, b: nat, t: nat) {
    b < |f.bodies| && exists k: nat :: k < |f.bodies[b]| && t in Targets(f.bodies[b][k])
  }

  /** A path from the entry block. */
  ghost predicate FlowPath(f: Func, path: seq<nat>) {
    |path| > 0 && path[0] == 0 && forall i | 0 <= i < |path| - 1 :: Edge(f, path[i], path[i + 1])
  }

  ghost predicate FlowDominates(f: Func, e: nat, b: nat) {
    forall path | FlowPath(f, path) && path[|path| - 1] == b :: e in path
  }

  // ---- values ----

  predicate Supplies(f: Func, e: nat, id: Id) {
    e < |f.bodies| == |f.params| && (id in f.params[e] || DefinedIn(f.bodies[e], id))
  }

  /** id is a parameter of block b, defined in it before instruction k, or supplied by a block that
      dominates b. */
  ghost predicate Available(f: Func, b: nat, k: nat, id: Id)
    requires b < |f.bodies| == |f.params| && k < |f.bodies[b]|
  {
    || id in f.params[b]
    || DefinedBefore(f.bodies[b], k, id)
    || exists e: nat :: e != b && FlowDominates(f, e, b) && Supplies(f, e, id)
  }

  ghost predicate InstrVerifies(f: Func, b: nat, k: nat)
    requires b < |f.bodies| == |f.params| && k < |f.bodies[b]|
  {
    var i := f.bodies[b][k];
    && TypeOK(f.types, f.params, f.ret, i)
    && (forall t | t in Targets(i) :: 0 < t < |f.bodies|)
    && forall id | id in Uses(i) :: Available(f, b, k, id)
  }

  /** Block parameters have types, and no two are the same value. */
  ghost predicate ParamsDistinct(params: seq<seq<Id>>, types: map<Id, Ty>) {
    && (forall b, i | 0 <= b < |params| && 0 <= i < |params[b]| :: params[b][i] in types)
    && (forall b, i, e, j | 0 <= b < |params| && 0 <= i < |params[b]| && 0 <= e < |params| && 0 <= j < |params[e]| ::
          params[b][i] == params[e][j] ==> b == e && i == j)
  }

  /** Every block ends in its only terminator, no branch enters the entry block, every value has one
      definition, which dominates its uses, and all types and arities agree. */
  ghost predicate Verifies(f: Func) {
    && 0 < |f.bodies| == |f.params|
    && (forall b | 0 <= b < |f.bodies| :: Complete(f.bodies[b]))
    && ParamsDistinct(f.params, f.types) && OneDefinition(f.bodies, f.params)
    && (forall b: nat, k: nat | b < |f.bodies| && k < |f.bodies[b]| :: InstrVerifies(f, b, k))
  }
}

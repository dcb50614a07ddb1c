/** Strict SSA on runs.  A pi node or a component of a checked pair is emitted as another name for an
    existing machine value, which is only right while that value is the one it was taken from.  Along
    any run of a strict program every such name is up to date wherever it is used. */
module StrictSsa {
  import opened Wrappers
  import opened JuliaIR

  // ---- block ranges ----

  lemma {:induction false} BlockOrder(p: Prog, a: nat, b: nat)
    requires LaidOut(p) && a < b < |p.blocks|
    ensures p.blocks[a].last <= p.blocks[b].first
  {
    if a + 1 < b { BlockOrder(p, a, b - 1); }
  }

  lemma UniqueBlock(p: Prog, a: nat, b: nat, n: nat)
    requires LaidOut(p) && In(p, a, n) && In(p, b, n)
    ensures a == b
  {
    if a < b { BlockOrder(p, a, b); } else if b < a { BlockOrder(p, b, a); }
  }

  function Owner(p: Prog, n: nat): (b: nat)
    requires LaidOut(p) && n < |p.stmts|
    ensures In(p, b, n)
  {
    OwnerFrom(p, n, 0)
  }

  function OwnerFrom(p: Prog, n: nat, b: nat): (r: nat)
    requires LaidOut(p) && b < |p.blocks| && p.blocks[b].first <= n < |p.stmts|
    ensures In(p, r, n)
    decreases |p.blocks| - b
  {
    if n < p.blocks[b].last then b else OwnerFrom(p, n, b + 1)
  }

  // ---- paths ----

  /** The last position of b on a path, or -1. */
  function LastIdx(path: seq<nat>, b: nat): (i: int)
    ensures -1 <= i < |path|
    ensures i >= 0 ==> path[i] == b
    ensures forall j | i < j < |path| :: path[j] != b
  {
    if path == [] then -1
    else if path[|path| - 1] == b then |path| - 1
    else LastIdx(path[..|path| - 1], b)
  }

  function FirstIdx(path: seq<nat>, b: nat): (i: nat)
    requires b in path
    ensures i < |path| && path[i] == b && b !in path[..i]
  {
    if path[0] == b then 0 else 1 + FirstIdx(path[1..], b)
  }

  lemma Prefix(p: Prog, path: seq<nat>, i: nat)
    requires IsPath(p, path) && i < |path|
    ensures IsPath(p, path[..i + 1])
  {
  }

  /** Cutting a cycle out of a path leaves a path. */
  lemma Splice(p: Prog, path: seq<nat>, i: nat, j: nat)
    requires IsPath(p, path) && i <= j < |path| && path[i] == path[j]
    ensures IsPath(p, path[..i + 1] + path[j + 1..])
  {
    var cut := path[..i + 1] + path[j + 1..];
    forall k | 0 <= k < |cut| - 1 ensures cut[k + 1] in p.blocks[cut[k]].succs {
      if k == i { assert cut[k + 1] == path[j + 1] && cut[k] == path[j]; }
      else if k > i { assert cut[k] == path[k - i + j] && cut[k + 1] == path[k - i + j + 1]; }
    }
  }

  lemma DominatesTrans(p: Prog, a: nat, b: nat, c: nat)
    requires Dominates(p, a, b) && Dominates(p, b, c)
    ensures Dominates(p, a, c)
  {
    forall path | IsPath(p, path) && path[|path| - 1] == c ensures a in path {
      var i := FirstIdx(path, b);
      Prefix(p, path, i);
      assert a in path[..i + 1];
    }
  }

  lemma VisitedBefore(p: Prog, path: seq<nat>, v: nat, d: nat, e: nat)
    requires IsPath(p, path) && e < |path| && path[e] == d && v != d && Dominates(p, v, d)
    ensures v in path[..e]
  {
    Prefix(p, path, e);
    assert path[..e + 1] == path[..e] + [d];
  }

  lemma FirstBefore(p: Prog, path: seq<nat>, v: nat, d: nat)
    requires IsPath(p, path) && v != d && Dominates(p, v, d) && v in path
    ensures d !in path[..FirstIdx(path, v) + 1]
  {
    var f := FirstIdx(path, v);
    forall e | 0 <= e <= f ensures path[e] != d {
      if path[e] == d {
        VisitedBefore(p, path, v, d, e);
      }
    }
  }

  /** If v is visited after the last visit of d, the cycle from the first v to the last can be cut,
      and no visit of d remains. */
  lemma CutAround(p: Prog, path: seq<nat>, v: nat, d: nat) returns (cut: seq<nat>)
    requires IsPath(p, path) && v != d && Dominates(p, v, d) && LastIdx(path, d) < LastIdx(path, v)
    ensures IsPath(p, cut) && cut[|cut| - 1] == path[|path| - 1] && d !in cut
  {
    hide Dominates;
    var j := LastIdx(path, v);
    FirstBefore(p, path, v, d);
    var f := FirstIdx(path, v);
    Splice(p, path, f, j);
    hide IsPath;
    cut := path[..f + 1] + path[j + 1..];
  }

  /** On a path to c, a dominator d of c is visited again after every visit of its own dominator v. */
  lemma VisitedSince(p: Prog, path: seq<nat>, v: nat, d: nat)
    requires IsPath(p, path) && v != d
    requires Dominates(p, v, d) && Dominates(p, d, path[|path| - 1])
    ensures LastIdx(path, d) >= LastIdx(path, v)
  {
    if LastIdx(path, d) < LastIdx(path, v) {
      var cut := CutAround(p, path, v, d);
    }
  }

  // ---- names for other values ----

  /** The statement a pi node or a pair component renames. */
  function AliasOf(p: Prog, n: nat): Option<nat> {
    if n >= |p.stmts| then None
    else match p.stmts[n]
      case Pi(_, SSA(w)) => Some(w)
      case GetField(q, _) => Some(q)
      case _ => None
  }

  /** n has been executed since the statement it renames was last executed. */
  predicate Current(p: Prog, path: seq<nat>, si: nat, n: nat, w: nat)
    requires LaidOut(p) && n < |p.stmts| && w < |p.stmts| && |path| > 0
  {
    if Owner(p, n) == path[|path| - 1] then n < si
    else LastIdx(path, Owner(p, n)) >= LastIdx(path, Owner(p, w))
  }

  /** n still has the value it would be given now. */
  predicate UpToDate(p: Prog, env: Env, n: nat)
    requires n < |p.stmts| && n in env
  {
    match p.stmts[n]
    case Pi(_, SSA(w)) => w in env && env[n] == env[w]
    case GetField(q, second) => q in env && env[q].Pair? && env[n] == Component(env[q], second)
    case _ => true
  }

  ghost predicate Coherent(p: Prog, path: seq<nat>, si: nat, env: Env)
    requires LaidOut(p) && |path| > 0
  {
    forall n | n in env && n < |p.stmts| && AliasOf(p, n).Some? && AliasOf(p, n).value < |p.stmts|
      && Current(p, path, si, n, AliasOf(p, n).value) :: UpToDate(p, env, n)
  }

  ghost predicate Sound(p: Prog) {
    LaidOut(p) && Ordered(p) && Strict(p)
  }

  /** A name's own operand is in scope at the name. */
  lemma AliasInScope(p: Prog, n: nat)
    requires Sound(p) && n < |p.stmts| && AliasOf(p, n).Some?
    ensures var w := AliasOf(p, n).value;
      UsableAt(p, w, n) && Reaches(p, w, Owner(p, n), n)
  {
    var w := AliasOf(p, n).value;
    assert SSA(w) in p.stmts[n].Operands();
    assert In(p, Owner(p, n), n);
  }

  lemma ReachesOwner(p: Prog, n: nat, b: nat, si: nat)
    requires LaidOut(p) && n < |p.stmts| && Reaches(p, n, b, si)
    ensures if Owner(p, n) == b then UsableAt(p, n, si) else Dominates(p, Owner(p, n), b)
  {
    var d :| In(p, d, n) && if d == b then UsableAt(p, n, si) else Dominates(p, d, b);
    UniqueBlock(p, d, Owner(p, n), n);
  }

  /** Where a name is in scope it is current, and what it renames is in scope too. */
  lemma CurrentAtUse(p: Prog, path: seq<nat>, si: nat, n: nat)
    requires Sound(p) && IsPath(p, path) && n < |p.stmts| && AliasOf(p, n).Some?
    requires Reaches(p, n, path[|path| - 1], si)
    ensures var w := AliasOf(p, n).value;
      w < |p.stmts| && Current(p, path, si, n, w) && Reaches(p, w, path[|path| - 1], si)
  {
    var w, b := AliasOf(p, n).value, path[|path| - 1];
    AliasInScope(p, n);
    var d, v := Owner(p, n), Owner(p, w);
    ReachesOwner(p, n, b, si);
    ReachesOwner(p, w, d, n);
    if d != b {
      if v != d {
        VisitedSince(p, path, v, d);
        DominatesTrans(p, v, d, b);
      }
      assert v != b;
    }
    assert In(p, v, w);
  }

  // ---- coherence along a run ----

  /** One executed statement. */
  lemma CoherentStep(p: Prog, path: seq<nat>, args: seq<int>, si: nat, env: Env, env': Env)
    requires Sound(p) && |path| > 0 && In(p, path[|path| - 1], si) && Coherent(p, path, si, env)
    requires ExecStmt(p, args, path[|path| - 1], si, env) == Fall(env')
    ensures Coherent(p, path, si + 1, env')
  {
    hide Reaches, Strict, Ordered, Apply;
    var b := path[|path| - 1];
    assert In(p, b, si) && In(p, Owner(p, si), si);
    UniqueBlock(p, b, Owner(p, si), si);
    assert forall m | m in env' && m != si :: m in env && env'[m] == env[m];
    forall n | n in env' && n < |p.stmts| && AliasOf(p, n).Some? && AliasOf(p, n).value < |p.stmts|
      && Current(p, path, si + 1, n, AliasOf(p, n).value)
      ensures UpToDate(p, env', n)
    {
      var w := AliasOf(p, n).value;
      AliasInScope(p, n);
      if n != si {
        assert Current(p, path, si, n, w);
        if w == si {
          assert n <= si ==> p.stmts[si].Phi?;
          assert LastIdx(path, b) == |path| - 1;
        }
      }
    }
  }

  /** Phi assignments touch only the phis of the block entered. */
  lemma {:induction false} EnterFrame(p: Prog, args: seq<int>, pred: nat, env: Env, si: nat, last: nat, acc: Env)
    requires last <= |p.stmts| && EnterFrom(p, args, pred, env, si, last, acc).Some?
    ensures var r := EnterFrom(p, args, pred, env, si, last, acc).value;
      forall n | !(si <= n < last && p.stmts[n].Phi?) :: (n in r <==> n in acc) && (n in acc ==> r[n] == acc[n])
    decreases last - si
  {
    if si < last {
      if p.stmts[si].Phi? {
        var v := PhiValue(args, env, p.stmts[si].edges, pred).value;
        EnterFrame(p, args, pred, env, si + 1, last, acc[si := v]);
      } else {
        EnterFrame(p, args, pred, env, si + 1, last, acc);
      }
    }
  }

  /** Entering the next block. */
  lemma CoherentEnter(p: Prog, path: seq<nat>, args: seq<int>, d: nat, env: Env, env': Env)
    requires Sound(p) && |path| > 0 && path[|path| - 1] < |p.blocks| && d < |p.blocks|
    requires Coherent(p, path, p.blocks[path[|path| - 1]].last, env)
    requires EnterFrom(p, args, path[|path| - 1], env, p.blocks[d].first, p.blocks[d].last, env) == Some(env')
    ensures Coherent(p, path + [d], p.blocks[d].first, env')
  {
    var b, path' := path[|path| - 1], path + [d];
    EnterFrame(p, args, b, env, p.blocks[d].first, p.blocks[d].last, env);
    assert path'[..|path|] == path;
    forall n | n in env' && n < |p.stmts| && AliasOf(p, n).Some? && AliasOf(p, n).value < |p.stmts|
      && Current(p, path', p.blocks[d].first, n, AliasOf(p, n).value)
      ensures UpToDate(p, env', n)
    {
      var w := AliasOf(p, n).value;
      assert In(p, Owner(p, n), n) && In(p, Owner(p, w), w);
      assert Owner(p, n) != d && Owner(p, w) != d;
      assert Current(p, path, p.blocks[b].last, n, w);
      if p.blocks[d].first <= w < p.blocks[d].last { UniqueBlock(p, d, Owner(p, w), w); }
      if p.blocks[d].first <= n < p.blocks[d].last { UniqueBlock(p, d, Owner(p, n), n); }
    }
  }
}

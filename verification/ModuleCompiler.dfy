/** The worklist loop as it runs, on one compiler object updated in place. */
module ModuleCompiler {
  import opened Wrappers
  import opened Worklist
  import opened Finalization

  class Compiler {
    var worklist: seq<MI>
    var status: map<MI, Status>
    var names: map<MI, string>
    var count: nat
    var funcs: seq<string>
    var exports: set<string>

    function Now(): State
      reads this
    {
      State(worklist, status, names, count, funcs, exports)
    }

    constructor ()
      ensures Now() == EMPTY
    {
      worklist, status, names, count, funcs, exports := [], map[], map[], 0, [], {};
    }

    /** The name of m, which is enqueued if this is the first request for it. */
    method Ask(g: Graph, m: MI) returns (name: string)
      requires m in g.names && status.Keys == names.Keys
      modifies this
      ensures Now() == Request(g, old(Now()), m) && m in Now().names && name == Now().names[m]
      ensures Now().status.Keys == Now().names.Keys
    {
      if m !in status {
        status := status[m := Pending];
        worklist := worklist + [m];
        count := count + 1;
        names := names[m := Generated(count, g.names[m])];
      }
      name := names[m];
    }

    /** The call sites of an emitted body. */
    method Calls(g: Graph, requests: seq<MI>)
      requires status.Keys == names.Keys && forall c | c in requests :: c in g.names
      modifies this
      ensures Now() == RequestAll(g, old(Now()), requests) && Now().status.Keys == Now().names.Keys
    {
      ghost var whole := RequestAll(g, Now(), requests);
      assert requests[0..] == requests;
      for i := 0 to |requests|
        invariant status.Keys == names.Keys && RequestAll(g, Now(), requests[i..]) == whole
      {
        assert requests[i..][1..] == requests[i + 1..];
        var name := Ask(g, requests[i]);
        exports := exports + {name};
      }
    }

    /** Compiles one method instance; true when its whole body was emitted. */
    method CompileFunction(g: Graph, m: MI) returns (ok: bool)
      requires GraphOK(g) && m in g.bodies && m in names && status.Keys == names.Keys
      modifies this
      ensures Now() == Worklist.Compile(g, old(Now()), m) && (ok <==> Outcome(g, m) == Compiled)
    {
      match g.bodies[m]
      case NoIR =>
        status := status[m := Failed];
        ok := false;
      case Emitted(good, requests) =>
        funcs := funcs + [names[m]];
        exports := exports + {names[m]};
        Calls(g, requests);
        status := status[m := if good then Compiled else Failed];
        ok := good;
    }

    /** Defines the functions one by one; a name that is taken or already defined is an error, and so is an
        export that is left over. */
    method Finalize(taken: set<string>) returns (ok: bool)
      ensures ok <==> Finalizes(Now(), taken)
    {
      var defined: set<string> := {};
      for i := 0 to |funcs|
        invariant forall x :: x in defined <==> x in funcs[..i]
        invariant forall j, k | 0 <= j < k < i :: funcs[j] != funcs[k]
        invariant forall j | 0 <= j < i :: funcs[j] !in taken
      {
        if funcs[i] in taken || funcs[i] in defined { return false; }
        defined := defined + {funcs[i]};
      }
      assert funcs[..|funcs|] == funcs;
      ok := exports <= defined;
    }

    /** The whole call graph of the entry, which must itself compile; true when an object is written. */
    method EmitModule(g: Graph, entry: MI, name: string, taken: set<string>) returns (written: bool)
      requires GraphOK(g) && entry in g.bodies && Now() == EMPTY
      modifies this
      ensures written <==> Written(g, entry, name, taken)
      ensures Outcome(g, entry) == Compiled ==> Now() == Finished(g, entry, name).0
    {
      hide Inv, GraphOK, Process, Drained, Measure, Outcome, Finalizes;
      NamesCover(g, entry);
      var given := Ask(g, entry);
      names := names[entry := name];
      SeededInv(g, entry, name);
      ghost var done: seq<MI> := [];
      while worklist != []
        invariant GraphOK(g) && Inv(g, entry, name, Now(), done)
        invariant Drained(g, entry, name, Now(), done) == Finished(g, entry, name)
        invariant if done == [] then worklist == [entry] else Outcome(g, entry) == Compiled
        decreases Measure(g, Now())
      {
        Advance(g, entry, name, Now(), done);
        ghost var before := Now();
        var m := worklist[0];
        worklist := worklist[1..];
        var compiled := CompileFunction(g, m);
        assert Now() == Process(g, before) by { ProcessIs(g, before, m); }
        if !compiled && m == entry { return false; }
        done := done + [m];
      }
      DrainedEmpty(g, entry, name, Now(), done);
      written := Finalize(taken);
    }
  }

  lemma NamesCover(g: Graph, entry: MI)
    requires GraphOK(g) && entry in g.bodies
    ensures entry in g.names
  {
  }

  /** One turn of the loop, in the specification. */
  lemma Advance(g: Graph, entry: MI, name: string, s: State, done: seq<MI>)
    requires Inv(g, entry, name, s, done) && s.worklist != []
    ensures s.worklist[0] in g.bodies && s.worklist[0] in s.names && s.status.Keys == s.names.Keys && GraphOK(g)
    ensures Inv(g, entry, name, Process(g, s), done + [s.worklist[0]]) && Measure(g, Process(g, s)) < Measure(g, s)
    ensures Drained(g, entry, name, s, done) == Drained(g, entry, name, Process(g, s), done + [s.worklist[0]])
  {
    hide GraphOK, Numbered, Closure, NoRepeats, Called, Declared, Added, Process, Measure;
    ProcessInv(g, entry, name, s, done);
    MeasureDrops(g, entry, name, s, done);
  }

  lemma ProcessIs(g: Graph, s: State, m: MI)
    requires GraphOK(g) && s.worklist != [] && s.worklist[0] == m && m in g.bodies && m in s.names
    ensures Process(g, s) == Worklist.Compile(g, s.(worklist := s.worklist[1..]), m)
  {
    hide Worklist.Compile, GraphOK;
  }

  lemma DrainedEmpty(g: Graph, entry: MI, name: string, s: State, done: seq<MI>)
    requires Inv(g, entry, name, s, done) && s.worklist == []
    ensures Drained(g, entry, name, s, done) == (s, done)
  {
    hide Inv;
  }
}

/** When the module finalises.  The order in which methods are requested is a function of the call graph
    alone; it fixes every generated name, and with them what is exported and what is defined. */
module Finalization {
  import opened Wrappers
  import opened Worklist

  // ---- the order of requests ----

  /** The callees that are not queued yet, in order. */
  function Enqueue(q: seq<MI>, ms: seq<MI>): (r: seq<MI>)
    requires NoRepeats(q)
    ensures NoRepeats(r) && q <= r && forall m :: m in r <==> m in q || m in ms
    decreases |ms|
  {
    if ms == [] then q
    else
      var q1 := if ms[0] in q then q else q + [ms[0]];
      Enqueue(q1, ms[1..])
  }

  function Callees(g: Graph, m: MI): seq<MI> {
    if HasCode(g, m) then g.bodies[m].requests else []
  }

  predicate Known(g: Graph, q: seq<MI>) {
    NoRepeats(q) && forall m | m in q :: m in g.bodies
  }

  /** Breadth first: what is queued, followed by what its members from i on lead to. */
  function Explore(g: Graph, q: seq<MI>, i: nat): (r: seq<MI>)
    requires GraphOK(g) && Known(g, q) && i <= |q|
    ensures Known(g, r) && q <= r
    decreases |g.bodies.Keys| - i
  {
    if i == |q| then q
    else
      QueueFits(g, q);
      Explore(g, Enqueue(q, Callees(g, q[i])), i + 1)
  }

  lemma QueueFits(g: Graph, q: seq<MI>)
    requires Known(g, q)
    ensures |q| <= |g.bodies.Keys|
  {
    SeqFits(q, g.bodies.Keys);
  }

  lemma {:induction false} SeqFits(q: seq<MI>, all: set<MI>)
    requires NoRepeats(q) && forall m | m in q :: m in all
    ensures |q| <= |all|
    decreases |q|
  {
    if q != [] {
      var n := |q| - 1;
      assert q[n] !in q[..n];
      SeqFits(q[..n], all - {q[n]});
    }
  }

  /** Every method the entry leads to, in the order of first request. */
  function Order(g: Graph, entry: MI): seq<MI>
    requires GraphOK(g) && entry in g.bodies
  {
    Explore(g, [entry], 0)
  }

  // ---- the worklist follows that order ----

  /** q lists everything requested so far; names were given in that order. */
  ghost predicate Queued(g: Graph, s: State, q: seq<MI>, i: nat)
    requires i <= |q|
  {
    && NoRepeats(q) && s.worklist == q[i..] && s.count == |q| && s.status.Keys == s.names.Keys
    && (forall m :: m in s.status <==> m in q)
    && (forall k | 1 <= k < |q| :: NamedAt(g, s, q, k))
  }

  predicate NamedAt(g: Graph, s: State, q: seq<MI>, k: nat)
    requires k < |q|
  {
    q[k] in s.names && q[k] in g.names && s.names[q[k]] == Generated(k + 1, g.names[q[k]])
  }

  lemma QueuedOne(g: Graph, s: State, q: seq<MI>, i: nat, m: MI)
    requires i <= |q| && Queued(g, s, q, i) && m in g.names && q != []
    ensures var q1 := if m in q then q else q + [m]; Queued(g, Export(Request(g, s, m), m), q1, i)
  {
    hide Generated;
    var q1 := if m in q then q else q + [m];
    var s' := Export(Request(g, s, m), m);
    forall k | 1 <= k < |q1| ensures NamedAt(g, s', q1, k) {
      if k < |q| { assert NamedAt(g, s, q, k); assert q1[k] == q[k]; }
    }
    assert s'.worklist == q1[i..];
  }

  lemma {:induction false} QueuedAll(g: Graph, s: State, q: seq<MI>, i: nat, ms: seq<MI>)
    requires i <= |q| && Queued(g, s, q, i) && q != [] && forall c | c in ms :: c in g.names
    ensures Queued(g, RequestAll(g, s, ms), Enqueue(q, ms), i)
    decreases |ms|
  {
    hide Queued, Request, Export;
    assert NoRepeats(q) by { QueuedNoRepeats(g, s, q, i); }
    if ms != [] {
      QueuedOne(g, s, q, i, ms[0]);
      var q1 := if ms[0] in q then q else q + [ms[0]];
      QueuedAll(g, Export(Request(g, s, ms[0]), ms[0]), q1, i, ms[1..]);
    }
  }

  lemma QueuedNoRepeats(g: Graph, s: State, q: seq<MI>, i: nat)
    requires i <= |q| && Queued(g, s, q, i)
    ensures NoRepeats(q)
  {
  }

  lemma QueuedProcess(g: Graph, s: State, q: seq<MI>, i: nat)
    requires GraphOK(g) && i < |q| && Queued(g, s, q, i) && q[i] in g.bodies && q[i] in s.names
    ensures s.worklist != [] && s.worklist[0] == q[i]
    ensures Queued(g, Process(g, s), Enqueue(q, Callees(g, q[i])), i + 1)
  {
    hide NamedAt, NoRepeats, RequestAll;
    var m := q[i];
    assert s.worklist[1..] == q[i + 1..];
    if HasCode(g, m) {
      var s1 := Export(s.(worklist := s.worklist[1..], funcs := s.funcs + [s.names[m]]), m);
      QueuedSame(g, s, s1, q, i);
      QueuedAll(g, s1, q, i + 1, g.bodies[m].requests);
      QueuedStatus(g, RequestAll(g, s1, g.bodies[m].requests), Process(g, s), Enqueue(q, g.bodies[m].requests), i + 1);
    } else {
      QueuedSame(g, s, Process(g, s), q, i);
    }
  }

  lemma QueuedSame(g: Graph, s: State, s': State, q: seq<MI>, i: nat)
    requires i < |q| && Queued(g, s, q, i) && s'.worklist == s.worklist[1..] && s'.count == s.count
    requires s'.names == s.names && s'.status.Keys == s.status.Keys
    ensures Queued(g, s', q, i + 1)
  {
    forall k | 1 <= k < |q| ensures NamedAt(g, s', q, k) { assert NamedAt(g, s, q, k); }
  }

  lemma QueuedStatus(g: Graph, s: State, s': State, q: seq<MI>, i: nat)
    requires i <= |q| && Queued(g, s, q, i) && s'.worklist == s.worklist && s'.count == s.count
    requires s'.names == s.names && s'.status.Keys == s.status.Keys
    ensures Queued(g, s', q, i)
  {
    forall k | 1 <= k < |q| ensures NamedAt(g, s', q, k) { assert NamedAt(g, s, q, k); }
  }

  lemma {:induction false} DrainedOrder(g: Graph, entry: MI, name: string, s: State, done: seq<MI>, q: seq<MI>)
    requires Inv(g, entry, name, s, done) && GraphOK(g) && Known(g, q)
    requires done <= q && Queued(g, s, q, |done|)
    ensures var (s', order) := Drained(g, entry, name, s, done);
      order == Explore(g, q, |done|) && Queued(g, s', order, |order|)
    decreases Measure(g, s)
  {
    hide Inv, Queued, Process, Measure, Known, GraphOK;
    QueueLeft(g, s, q, |done|);
    if s.worklist == [] {
      assert done == q;
    } else {
      var m := s.worklist[0];
      ProcessInv(g, entry, name, s, done);
      MeasureDrops(g, entry, name, s, done);
      QueuedProcess(g, s, q, |done|);
      var q1 := Enqueue(q, Callees(g, m));
      assert done + [m] <= q1;
      KnownMore(g, q, m);
      DrainedOrder(g, entry, name, Process(g, s), done + [m], q1);
    }
  }

  lemma QueueLeft(g: Graph, s: State, q: seq<MI>, i: nat)
    requires i <= |q| && Queued(g, s, q, i)
    ensures s.worklist == q[i..] && NoRepeats(q)
  {
  }

  lemma KnownMore(g: Graph, q: seq<MI>, m: MI)
    requires GraphOK(g) && Known(g, q)
    ensures Known(g, Enqueue(q, Callees(g, m)))
  {
  }

  /** The finished state, by position in the order of requests. */
  lemma FinishedOrder(g: Graph, entry: MI, name: string)
    requires GraphOK(g) && entry in g.bodies
    ensures var (s, done) := Finished(g, entry, name);
      done == Order(g, entry) && Queued(g, s, done, |done|) && done != [] && done[0] == entry
  {
    hide Inv;
    SeededInv(g, entry, name);
    var s := Seeded(g, entry, name);
    assert Queued(g, s, [entry], 0) by { assert [entry][0..] == s.worklist; }
    DrainedOrder(g, entry, name, s, [], [entry]);
  }

  // ---- names ----

  /** The k-th function requested would be given the entry's own name. */
  predicate Collides(g: Graph, entry: MI, name: string, k: nat)
    requires GraphOK(g) && entry in g.bodies && k < |Order(g, entry)|
  {
    Generated(k + 1, g.names[Order(g, entry)[k]]) == name
  }

  lemma NameAt(g: Graph, entry: MI, name: string, k: nat)
    requires GraphOK(g) && entry in g.bodies && k < |Order(g, entry)|
    ensures var m, s := Order(g, entry)[k], Finished(g, entry, name).0;
      && m in s.names && m in g.names
      && s.names[m] == if k == 0 then name else Generated(k + 1, g.names[m])
  {
    hide Generated, Closure, Declared, Added, Explore;
    FinishedOrder(g, entry, name);
    var (s, done) := Finished(g, entry, name);
    assert done[k] in s.status;
    if k > 0 { assert NamedAt(g, s, done, k); }
  }

  /** Two methods share a name exactly when one is the entry and the other was generated its name. */
  lemma NamesDistinct(g: Graph, entry: MI, name: string, i: nat, j: nat)
    requires GraphOK(g) && entry in g.bodies && i < j < |Order(g, entry)|
    ensures var order, names := Order(g, entry), Finished(g, entry, name).0.names;
      && order[i] in names && order[j] in names && order[i] != order[j]
      && (names[order[i]] == names[order[j]] <==> i == 0 && Collides(g, entry, name, j))
  {
    hide Generated, Finished, Inv, Explore;
    NameAt(g, entry, name, i);
    NameAt(g, entry, name, j);
    var order := Order(g, entry);
    if i > 0 { GeneratedApart(i + 1, g.names[order[i]], j + 1, g.names[order[j]]); }
  }

  lemma GeneratedApart(i: nat, a: string, j: nat, b: string)
    requires i != j
    ensures Generated(i, a) != Generated(j, b)
  {
    if Generated(i, a) == Generated(j, b) { GeneratedInjective(i, a, j, b); }
  }

  // ---- finalisation ----

  /** Each function is defined under its name, by its own body or by a stub that traps; a second
      definition is an error, and so is an exported name left undefined. */
  ghost predicate Defines(s: State) {
    (forall i, j | 0 <= i < j < |s.funcs| :: s.funcs[i] != s.funcs[j]) && forall x | x in s.exports :: x in s.funcs
  }

  /** Taken are the symbols that the compilation declares for itself, as data or with another signature. */
  ghost predicate Finalizes(s: State, taken: set<string>) {
    Defines(s) && forall x | x in s.funcs :: x !in taken
  }

  lemma {:induction false} AddedIs(g: Graph, names: map<MI, string>, done: seq<MI>, x: string)
    ensures x in Added(g, names, done) <==> exists m :: m in done && HasCode(g, m) && m in names && names[m] == x
  {
    if done != [] {
      var n := |done| - 1;
      AddedIs(g, names, done[..n], x);
      assert done == done[..n] + [done[n]];
    }
  }

  lemma {:induction false} AddedDistinct(g: Graph, names: map<MI, string>, done: seq<MI>)
    requires NoRepeats(done)
    requires forall m, n | m in done && n in done && m in names && n in names && m != n ::
      HasCode(g, m) && HasCode(g, n) ==> names[m] != names[n]
    ensures forall i, j | 0 <= i < j < |Added(g, names, done)| :: Added(g, names, done)[i] != Added(g, names, done)[j]
  {
    if done != [] {
      var n := |done| - 1;
      AddedDistinct(g, names, done[..n]);
      if HasCode(g, done[n]) && done[n] in names {
        AddedIs(g, names, done[..n], names[done[n]]);
        assert done[n] !in done[..n];
      }
    }
  }

  lemma {:induction false} TwiceAdded(g: Graph, names: map<MI, string>, done: seq<MI>, a: MI, b: MI)
    requires a in done && b in done && a != b && HasCode(g, a) && HasCode(g, b)
    requires a in names && b in names && names[a] == names[b]
    ensures exists i, j :: 0 <= i < j < |Added(g, names, done)| && Added(g, names, done)[i] == Added(g, names, done)[j]
  {
    var n := |done| - 1;
    var before := Added(g, names, done[..n]);
    if done[n] == a || done[n] == b {
      AddedIs(g, names, done[..n], names[a]);
      assert (if done[n] == a then b else a) in done[..n];
      var i :| 0 <= i < |before| && before[i] == names[a];
      assert Added(g, names, done)[i] == Added(g, names, done)[|before|];
    } else {
      assert a in done[..n] && b in done[..n];
      TwiceAdded(g, names, done[..n], a, b);
      var i, j :| 0 <= i < j < |before| && before[i] == before[j];
      assert Added(g, names, done)[i] == Added(g, names, done)[j];
    }
  }

  /** Code for exactly those requested methods whose name is not taken by the entry. */
  ghost predicate CodeWhereNamed(g: Graph, entry: MI, name: string)
    requires GraphOK(g) && entry in g.bodies
  {
    forall k | 1 <= k < |Order(g, entry)| :: HasCode(g, Order(g, entry)[k]) <==> !Collides(g, entry, name, k)
  }

  /** Every name is defined, and once, exactly when, among the methods the entry leads to, those whose
      generated name is not the entry's own have IR when they are compiled, and the one whose name is has none. */
  lemma DefinesExactly(g: Graph, entry: MI, name: string)
    requires GraphOK(g) && entry in g.bodies && HasCode(g, entry)
    ensures Defines(Finished(g, entry, name).0) <==> CodeWhereNamed(g, entry, name)
  {
    hide Inv, HasCode, Finished, Defines, GraphOK, Order, Collides;
    if CodeWhereNamed(g, entry, name) { DefinesIf(g, entry, name); }
    if Defines(Finished(g, entry, name).0) {
      forall k | 1 <= k < |Order(g, entry)|
        ensures HasCode(g, Order(g, entry)[k]) <==> !Collides(g, entry, name, k)
      {
        if HasCode(g, Order(g, entry)[k]) { CodeNamed(g, entry, name, k); } else { NoCodeTaken(g, entry, name, k); }
      }
    }
  }

  /** What the finished state's lists are made of. */
  lemma FinishedLists(g: Graph, entry: MI, name: string)
    requires GraphOK(g) && entry in g.bodies
    ensures var (s, done) := Finished(g, entry, name);
      && done == Order(g, entry) && NoRepeats(done) && done != [] && done[0] == entry
      && s.funcs == Added(g, s.names, done)
      && (forall m :: m in s.names <==> m in done)
      && (forall m | m in done && m != entry :: Called(g, done, m))
      && (forall x :: x in s.exports <==> Declared(g, s, done, x))
      && (forall m | Called(g, done, m) :: m in done)
  {
    hide Closure, Declared, Added, Explore, Numbered, Called;
    FinishedOrder(g, entry, name);
    var (s, done) := Finished(g, entry, name);
    assert s.worklist + done == done;
  }

  lemma CodeNamed(g: Graph, entry: MI, name: string, k: nat)
    requires GraphOK(g) && entry in g.bodies && HasCode(g, entry) && 1 <= k < |Order(g, entry)|
    requires HasCode(g, Order(g, entry)[k]) && Defines(Finished(g, entry, name).0)
    ensures !Collides(g, entry, name, k)
  {
    hide Finished, HasCode, Order, Called, Declared, Collides, Added;
    FinishedLists(g, entry, name);
    NamesDistinct(g, entry, name, 0, k);
    var (s, done) := Finished(g, entry, name);
    if Collides(g, entry, name, k) { TwiceAdded(g, s.names, done, entry, done[k]); }
  }

  lemma NoCodeTaken(g: Graph, entry: MI, name: string, k: nat)
    requires GraphOK(g) && entry in g.bodies && 1 <= k < |Order(g, entry)|
    requires !HasCode(g, Order(g, entry)[k]) && Defines(Finished(g, entry, name).0)
    ensures Collides(g, entry, name, k)
  {
    hide Inv, Finished, HasCode, Order, Called, Collides, Added;
    FinishedLists(g, entry, name);
    var (s, done) := Finished(g, entry, name);
    var m := done[k];
    assert Called(g, done, m) && Declared(g, s, done, s.names[m]);
    AddedIs(g, s.names, done, s.names[m]);
    var n :| n in done && HasCode(g, n) && n in s.names && s.names[n] == s.names[m];
    var i :| 0 <= i < |done| && done[i] == n;
    if i < k { NamesDistinct(g, entry, name, i, k); } else if k < i { NamesDistinct(g, entry, name, k, i); }
  }

  lemma DefinesIf(g: Graph, entry: MI, name: string)
    requires GraphOK(g) && entry in g.bodies && HasCode(g, entry) && CodeWhereNamed(g, entry, name)
    ensures Defines(Finished(g, entry, name).0)
  {
    hide Finished, HasCode, Order, Collides, Added, Called, CodeWhereNamed;
    FinishedLists(g, entry, name);
    var (s, done) := Finished(g, entry, name);
    forall m, n | m in done && n in done && HasCode(g, m) && HasCode(g, n) && m != n ensures s.names[m] != s.names[n] {
      CodeApart(g, entry, name, m, n);
    }
    AddedDistinct(g, s.names, done);
    forall x | x in s.exports ensures x in s.funcs {
      var m :| m in s.names && s.names[m] == x && ((m in done && HasCode(g, m)) || Called(g, done, m));
      ExportDefined(g, entry, name, m);
      AddedIs(g, s.names, done, x);
    }
  }

  lemma CodeApart(g: Graph, entry: MI, name: string, m: MI, n: MI)
    requires GraphOK(g) && entry in g.bodies && CodeWhereNamed(g, entry, name)
    requires m in Order(g, entry) && n in Order(g, entry) && HasCode(g, m) && HasCode(g, n) && m != n
    ensures var names := Finished(g, entry, name).0.names; m in names && n in names && names[m] != names[n]
  {
    hide Finished, HasCode, Order, Collides;
    var order := Order(g, entry);
    var i :| 0 <= i < |order| && order[i] == m;
    var j :| 0 <= j < |order| && order[j] == n;
    if i < j { NamesDistinct(g, entry, name, i, j); } else { NamesDistinct(g, entry, name, j, i); }
  }

  /** A declared name is that of a method with code: the method's own, or the entry's. */
  lemma ExportDefined(g: Graph, entry: MI, name: string, m: MI)
    requires GraphOK(g) && entry in g.bodies && HasCode(g, entry) && CodeWhereNamed(g, entry, name)
    requires m in Order(g, entry)
    ensures var names := Finished(g, entry, name).0.names;
      exists n :: n in Order(g, entry) && HasCode(g, n) && n in names && m in names && names[n] == names[m]
  {
    hide Finished, HasCode, Order, Collides;
    FinishedOrder(g, entry, name);
    var order := Order(g, entry);
    var k :| 0 <= k < |order| && order[k] == m;
    NameAt(g, entry, name, k);
    if !HasCode(g, m) {
      NamesDistinct(g, entry, name, 0, k);
      assert entry in order;
    }
  }

  // ---- symbols of the compilation's own ----

  /** The runtime functions declared before anything is compiled. */
  const IMPORTS: set<string> :=
    {"__jl_type_tag", "__jl_nothing_tag", "__jl_intern_symbol", "__jl_string_from_raw", "__jl_string_cached",
     "__jl_bytes_dup", "__jl_array_alias_rodata", "__jl_dict_from_rodata", "__jl_gc_alloc_array", "__jl_gc_alloc",
     "__jl_gc_alloc_julia", "__jl_gc_alloc_array_julia", "__jl_array_new_1d", "__jl_string_concat",
     "__jl_array_grow_end", "__jl_array_del_end", "__jl_array_resize", "__jl_memcpy", "__jl_dbg_i64"}

  /** The C functions declared where compiled code calls them. */
  const FOREIGN: set<string> := {"strtod", "strtof"}

  /** Constants in read-only data, numbered as they are met. */
  predicate DataSymbol(x: string) {
    "__jl_lit_" <= x || "__jl_bs_" <= x || "__jl_arr_" <= x || "__jl_ro_" <= x
  }

  predicate OwnSymbol(x: string) { x in IMPORTS || x in FOREIGN || DataSymbol(x) }

  predicate Symbols(taken: set<string>) {
    forall x | x in taken :: OwnSymbol(x)
  }

  const ENTRY_PREFIX := "__jl_entry_"

  lemma SymbolsApart(x: string)
    requires OwnSymbol(x)
    ensures !(PREFIX <= x) && !(ENTRY_PREFIX <= x)
  {
    assert |x| > 5 && (x[0] == 's' || (x[2] == 'j' && x[5] != 'e'));
    assert PREFIX[2] == 'c' && ENTRY_PREFIX[5] == 'e';
  }

  // ---- the object file ----

  /** An object is written: the entry was emitted, and the module finalises. */
  ghost predicate Written(g: Graph, entry: MI, name: string, taken: set<string>)
    requires GraphOK(g) && entry in g.bodies
  {
    Outcome(g, entry) == Compiled && Finalizes(Finished(g, entry, name).0, taken)
  }

  lemma EntryAdded(g: Graph, entry: MI, name: string)
    requires GraphOK(g) && entry in g.bodies && HasCode(g, entry)
    ensures name in Finished(g, entry, name).0.funcs
  {
    hide Inv, Finished, HasCode, Order, Added, Called, Declared, Generated;
    FinishedLists(g, entry, name);
    var (s, done) := Finished(g, entry, name);
    NameAt(g, entry, name, 0);
    AddedIs(g, s.names, done, name);
  }

  lemma AddedName(g: Graph, entry: MI, name: string, x: string)
    requires GraphOK(g) && entry in g.bodies && x in Finished(g, entry, name).0.funcs
    ensures x == name || PREFIX <= x
  {
    hide Inv, Finished, HasCode, Order, Added, Called, Declared, Generated;
    FinishedLists(g, entry, name);
    var (s, done) := Finished(g, entry, name);
    AddedIs(g, s.names, done, x);
    var m :| m in done && HasCode(g, m) && m in s.names && s.names[m] == x;
    var k :| 0 <= k < |done| && done[k] == m;
    NameAt(g, entry, name, k);
    GeneratedPrefix(k + 1, g.names[m]);
  }

  /** Of the functions added, only the entry can have a taken name. */
  lemma TakenNames(g: Graph, entry: MI, name: string, taken: set<string>)
    requires GraphOK(g) && entry in g.bodies && HasCode(g, entry) && Symbols(taken)
    ensures (forall x | x in Finished(g, entry, name).0.funcs :: x !in taken) <==> name !in taken
  {
    hide Inv, Finished, HasCode, OwnSymbol, GraphOK;
    EntryAdded(g, entry, name);
    forall x | x in Finished(g, entry, name).0.funcs && x in taken ensures x == name {
      AddedName(g, entry, name, x);
      SymbolsApart(x);
    }
  }

  /** Exactly when an object is written, for any entry name. */
  lemma FinalizesExactly(g: Graph, entry: MI, name: string, taken: set<string>)
    requires GraphOK(g) && entry in g.bodies && Symbols(taken)
    ensures Written(g, entry, name, taken)
      <==> Outcome(g, entry) == Compiled && name !in taken && CodeWhereNamed(g, entry, name)
  {
    hide Finished, Order, CodeWhereNamed, Defines, GraphOK;
    if Outcome(g, entry) == Compiled {
      DefinesExactly(g, entry, name);
      TakenNames(g, entry, name, taken);
    }
  }

  // ---- for names that cannot be generated ----

  /** m is in every set that holds the entry and what its members' code calls. */
  ghost predicate Reachable(g: Graph, entry: MI, m: MI) {
    forall r: set<MI> | Closure(g, entry, r) :: m in r
  }

  lemma OrderReaches(g: Graph, entry: MI, m: MI)
    requires GraphOK(g) && entry in g.bodies
    ensures m in Order(g, entry) <==> Reachable(g, entry, m)
  {
    hide Finished, Closure, Order;
    CompilesReachable(g, entry, "");
    FinishedLists(g, entry, "");
    var s := Finished(g, entry, "").0;
    if Reachable(g, entry, m) { assert m in s.status.Keys; }
  }

  lemma OwnName(g: Graph, entry: MI, name: string, k: nat)
    requires GraphOK(g) && entry in g.bodies && !(PREFIX <= name) && k < |Order(g, entry)|
    ensures !Collides(g, entry, name, k)
  {
    hide Order, Generated, Finished;
    NameAt(g, entry, name, k);
    GeneratedPrefix(k + 1, g.names[Order(g, entry)[k]]);
  }

  lemma GeneratedPrefix(k: nat, name: string)
    ensures PREFIX <= Generated(k, name)
  {
  }

  /** With an entry name that no counter could produce, all generated names are free exactly when every
      reachable method still has IR when it is compiled. */
  lemma ReachedCode(g: Graph, entry: MI, name: string)
    requires GraphOK(g) && entry in g.bodies && HasCode(g, entry) && !(PREFIX <= name)
    ensures CodeWhereNamed(g, entry, name) <==> forall m | Reachable(g, entry, m) :: HasCode(g, m)
  {
    hide Finished, HasCode, Order, Reachable, Collides, Inv;
    FinishedOrder(g, entry, name);
    var order := Order(g, entry);
    forall m ensures m in order <==> Reachable(g, entry, m) { OrderReaches(g, entry, m); }
    forall k | 1 <= k < |order| ensures !Collides(g, entry, name, k) { OwnName(g, entry, name, k); }
    if CodeWhereNamed(g, entry, name) {
      forall m | m in order ensures HasCode(g, m) {
        var k :| 0 <= k < |order| && order[k] == m;
      }
    }
  }

  /** For an entry name that no counter could produce and no symbol has. */
  lemma FinalizesForOwnName(g: Graph, entry: MI, name: string, taken: set<string>)
    requires GraphOK(g) && entry in g.bodies && Symbols(taken) && !(PREFIX <= name) && name !in taken
    ensures Written(g, entry, name, taken)
      <==> Outcome(g, entry) == Compiled && forall m | Reachable(g, entry, m) :: HasCode(g, m)
  {
    hide Finished, Order, CodeWhereNamed, Finalizes, Reachable, GraphOK, OwnSymbol;
    FinalizesExactly(g, entry, name, taken);
    if Outcome(g, entry) == Compiled { ReachedCode(g, entry, name); }
  }

  /** The repository's own entry point puts a prefix before every name it is given: an object is then
      written exactly when the entry is emitted whole and every reachable method still has IR when it is
      compiled, whatever the name and whatever symbols the compilation declares. */
  lemma CompileNative(g: Graph, entry: MI, name: string, taken: set<string>)
    requires GraphOK(g) && entry in g.bodies && Symbols(taken)
    ensures Written(g, entry, ENTRY_PREFIX + name, taken)
      <==> Outcome(g, entry) == Compiled && forall m | Reachable(g, entry, m) :: HasCode(g, m)
  {
    hide Written, Reachable, GraphOK, OwnSymbol;
    var x := ENTRY_PREFIX + name;
    if x in taken { SymbolsApart(x); }
    assert x[2] == 'j' && PREFIX[2] == 'c';
    FinalizesForOwnName(g, entry, x, taken);
  }

  // ---- modules that are not written ----

  /** The entry calls one method; code says whether that had IR when it was compiled. */
  function CallerOf(code: bool): Graph {
    Graph(map[0 := Emitted(true, [1]), 1 := if code then Emitted(true, []) else NoIR], map[0 := "entry", 1 := "callee"])
  }

  lemma CallerOrder(code: bool)
    ensures GraphOK(CallerOf(code)) && Order(CallerOf(code), 0) == [0, 1]
  {
    var g := CallerOf(code);
    assert Enqueue([0], [1]) == [0, 1];
    assert Callees(g, 0) == [1] && Callees(g, 1) == [];
    assert Enqueue([0, 1], []) == [0, 1];
    assert Explore(g, [0, 1], 2) == [0, 1];
    assert Explore(g, [0, 1], 1) == [0, 1];
  }

  lemma CalleeReached(code: bool)
    ensures GraphOK(CallerOf(code)) && Reachable(CallerOf(code), 0, 1)
  {
    hide Order, Reachable;
    CallerOrder(code);
    OrderReaches(CallerOf(code), 0, 1);
  }

  /** A callee whose IR has vanished leaves an export that nothing defines, through the entry point too. */
  lemma VanishingIRFails(name: string)
    ensures GraphOK(CallerOf(false)) && !Written(CallerOf(false), 0, ENTRY_PREFIX + name, {})
  {
    hide Written, Reachable;
    CalleeReached(false);
    CompileNative(CallerOf(false), 0, name, {});
    assert !HasCode(CallerOf(false), 1);
  }

  /** An entry whose emission is abandoned. */
  function Abandoned(): Graph {
    Graph(map[0 := Emitted(false, [])], map[0 := "entry"])
  }

  /** Its names would all be defined, but no object is written, through the entry point either. */
  lemma AbandonedFails(name: string)
    ensures GraphOK(Abandoned()) && !Written(Abandoned(), 0, ENTRY_PREFIX + name, {})
    ensures Finalizes(Finished(Abandoned(), 0, ENTRY_PREFIX + name).0, {})
  {
    hide Finished, Defines, Order, Reachable;
    var g, x := Abandoned(), ENTRY_PREFIX + name;
    assert GraphOK(g);
    assert x[2] == 'j' && PREFIX[2] == 'c';
    DefinesExactly(g, 0, x);
    OneMethod(x);
  }

  lemma OneMethod(name: string)
    ensures GraphOK(Abandoned()) && CodeWhereNamed(Abandoned(), 0, name)
  {
    var g := Abandoned();
    assert Callees(g, 0) == [] && Enqueue([0], []) == [0];
    assert Explore(g, [0], 1) == [0];
    assert Order(g, 0) == [0];
  }

  lemma SecondName()
    ensures Generated(2, "callee") == "__compiled_fn_2_callee"
  {
    assert Digits(2) == "2";
  }

  /** Given without the prefix: an entry with the name its first callee will be generated is defined twice. */
  lemma CollisionFails()
    ensures GraphOK(CallerOf(true)) && !Written(CallerOf(true), 0, "__compiled_fn_2_callee", {})
  {
    hide Written, Order, Generated;
    CallerOrder(true);
    FinalizesExactly(CallerOf(true), 0, "__compiled_fn_2_callee", {});
    assert HasCode(CallerOf(true), Order(CallerOf(true), 0)[1]);
    SecondName();
    assert Collides(CallerOf(true), 0, "__compiled_fn_2_callee", 1);
  }

  /** Given without the prefix: an entry named like a runtime function of another signature. */
  lemma TakenFails()
    ensures GraphOK(CallerOf(true)) && Symbols({"__jl_type_tag"})
    ensures !Written(CallerOf(true), 0, "__jl_type_tag", {"__jl_type_tag"})
  {
    hide Written, Order;
    CallerOrder(true);
    FinalizesExactly(CallerOf(true), 0, "__jl_type_tag", {"__jl_type_tag"});
  }
}

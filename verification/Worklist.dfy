/** Compiling a whole call graph into one module: a worklist of method instances, requested at most
    once each, and the object module whose exported names must all be defined, exactly once, at the
    end. */
module Worklist {
  import opened Wrappers

  /** A method instance. */
  type MI = nat

  datatype Status = Pending | Compiled | Failed

  /** What compiling a method does: no IR at all, or a function whose emission requests these callees
      and may still be abandoned. */
  datatype Body = NoIR | Emitted(ok: bool, requests: seq<MI>)

  /** The call graph; every method instance it mentions has a body and a name. */
  datatype Graph = Graph(bodies: map<MI, Body>, names: map<MI, string>)

  ghost predicate GraphOK(g: Graph) {
    && g.names.Keys == g.bodies.Keys
    && forall m | m in g.bodies && g.bodies[m].Emitted? :: forall c | c in g.bodies[m].requests :: c in g.bodies
  }

  // ---- names ----

  function Digit(d: nat): char
    requires d < 10
  {
    ['0', '1', '2', '3', '4', '5', '6', '7', '8', '9'][d]
  }

  function Digits(n: nat): (s: string)
    ensures s != [] && '_' !in s
  {
    if n < 10 then [Digit(n)] else Digits(n / 10) + [Digit(n % 10)]
  }

  predicate IsDigit(c: char) { '0' as int <= c as int <= '9' as int }

  /** The number a string of digits stands for. */
  function Decimal(s: string): nat
    requires forall c | c in s :: IsDigit(c)
  {
    if s == [] then 0
    else
      var c := s[|s| - 1];
      assert c in s && IsDigit(c);
      10 * Decimal(s[..|s| - 1]) + (c as int - '0' as int)
  }

  /** Digits writes its number in decimal. */
  lemma {:induction false} DigitsDecimal(n: nat)
    ensures (forall c | c in Digits(n) :: IsDigit(c)) && Decimal(Digits(n)) == n
    ensures n > 0 ==> Digits(n)[0] != '0'
  {
    var s := Digits(n);
    if n >= 10 {
      DigitsDecimal(n / 10);
      assert s[..|s| - 1] == Digits(n / 10);
    } else {
      assert s[..0] == [];
    }
  }

  const PREFIX := "__compiled_fn_"

  function Generated(k: nat, name: string): string {
    PREFIX + Digits(k) + "_" + name
  }

  lemma {:induction false} DigitsInjective(i: nat, j: nat)
    requires Digits(i) == Digits(j)
    ensures i == j
    decreases i
  {
    if i >= 10 && j >= 10 {
      assert Digits(i)[..|Digits(i)| - 1] == Digits(i / 10) && Digits(j)[..|Digits(j)| - 1] == Digits(j / 10);
      assert Digits(i)[|Digits(i)| - 1] == Digit(i % 10) && Digits(j)[|Digits(j)| - 1] == Digit(j % 10);
      DigitsInjective(i / 10, j / 10);
    }
  }

  function FirstUnderscore(s: string): nat {
    if s == [] || s[0] == '_' then 0 else 1 + FirstUnderscore(s[1..])
  }

  lemma {:induction false} UnderscoreAt(a: string, x: string)
    requires '_' !in a
    ensures FirstUnderscore(a + "_" + x) == |a|
  {
    if a == [] {
      assert (a + "_" + x)[0] == '_';
    } else {
      assert a[0] != '_';
      assert (a + "_" + x)[1..] == a[1..] + "_" + x;
      UnderscoreAt(a[1..], x);
    }
  }

  /** Strings without an underscore, each followed by one, are equal if the wholes are. */
  lemma SplitUnique(a: string, x: string, b: string, y: string)
    requires '_' !in a && '_' !in b && a + "_" + x == b + "_" + y
    ensures a == b && x == y
  {
    UnderscoreAt(a, x);
    UnderscoreAt(b, y);
    var s, t := a + "_" + x, b + "_" + y;
    assert s[..|a|] == a && t[..|b|] == b && s[|a| + 1..] == x && t[|b| + 1..] == y;
  }

  /** Generated names are different for different counters, whatever the methods are called. */
  lemma GeneratedInjective(i: nat, a: string, j: nat, b: string)
    requires Generated(i, a) == Generated(j, b)
    ensures i == j && a == b
  {
    hide Digits;
    assert Generated(i, a)[|PREFIX|..] == Digits(i) + "_" + a;
    assert Generated(j, b)[|PREFIX|..] == Digits(j) + "_" + b;
    SplitUnique(Digits(i), a, Digits(j), b);
    DigitsInjective(i, j);
  }

  // ---- the compiler's state ----

  /** funcs are the functions added to the module, in order; exports the names declared for export. */
  datatype State = State(worklist: seq<MI>, status: map<MI, Status>, names: map<MI, string>, count: nat,
                         funcs: seq<string>, exports: set<string>)

  const EMPTY := State([], map[], map[], 0, [], {})

  /** Idempotent. */
  function Request(g: Graph, s: State, m: MI): State
    requires m in g.names
  {
    if m in s.status then s
    else s.(worklist := s.worklist + [m], status := s.status[m := Pending], count := s.count + 1,
            names := s.names[m := Generated(s.count + 1, g.names[m])])
  }

  function Export(s: State, m: MI): State {
    if m in s.names then s.(exports := s.exports + {s.names[m]}) else s
  }

  /** The call sites of a body, in order: each requests its callee and declares its name. */
  function RequestAll(g: Graph, s: State, requests: seq<MI>): State
    requires forall c | c in requests :: c in g.names
    decreases |requests|
  {
    if requests == [] then s
    else RequestAll(g, Export(Request(g, s, requests[0]), requests[0]), requests[1..])
  }

  /** Compiles m: without IR nothing is added; otherwise its function is added and declared first. */
  function Compile(g: Graph, s: State, m: MI): State
    requires GraphOK(g) && m in g.bodies && m in s.names
  {
    match g.bodies[m]
    case NoIR => s.(status := s.status[m := Failed])
    case Emitted(ok, requests) =>
      var s1 := RequestAll(g, Export(s.(funcs := s.funcs + [s.names[m]]), m), requests);
      s1.(status := s1.status[m := if ok then Compiled else Failed])
  }

  /** One worklist item. */
  function Process(g: Graph, s: State): State
    requires GraphOK(g) && s.worklist != [] && s.worklist[0] in g.bodies && s.worklist[0] in s.names
  {
    Compile(g, s.(worklist := s.worklist[1..]), s.worklist[0])
  }

  // ---- the invariant ----

  predicate NoRepeats(ms: seq<MI>) {
    forall i, j | 0 <= i < j < |ms| :: ms[i] != ms[j]
  }

  function Outcome(g: Graph, m: MI): Status
    requires m in g.bodies
  {
    match g.bodies[m] case Emitted(ok, _) => if ok then Compiled else Failed case NoIR => Failed
  }

  predicate HasCode(g: Graph, m: MI) { m in g.bodies && g.bodies[m].Emitted? }

  /** m is called from the code of some d. */
  predicate CalledBy(g: Graph, d: MI, m: MI) { HasCode(g, d) && m in g.bodies[d].requests }

  ghost predicate Called(g: Graph, done: seq<MI>, m: MI) {
    exists d :: d in done && CalledBy(g, d, m)
  }

  /** A set that contains the entry and what its members' code calls. */
  ghost predicate Closure(g: Graph, entry: MI, r: set<MI>) {
    entry in r && forall d, m | d in r && CalledBy(g, d, m) :: m in r
  }

  /** Names other than the entry's come from a counter, and differ. */
  ghost predicate Numbered(g: Graph, entry: MI, name: string, s: State) {
    && s.count >= 1 && entry in s.names && s.names[entry] == name
    && (forall m | m in s.names && m != entry :: m in g.names && FromCounter(g, s, m))
    && (forall m, n | m in s.names && n in s.names && m != entry && n != entry && m != n :: s.names[m] != s.names[n])
  }

  ghost predicate FromCounter(g: Graph, s: State, m: MI)
    requires m in s.names && m in g.names
  {
    exists k: nat :: 1 < k <= s.count && s.names[m] == Generated(k, g.names[m])
  }

  /** The functions added, in order of compilation. */
  function Added(g: Graph, names: map<MI, string>, done: seq<MI>): seq<string> {
    if done == [] then []
    else
      var m := done[|done| - 1];
      Added(g, names, done[..|done| - 1]) + if HasCode(g, m) && m in names then [names[m]] else []
  }

  /** x is the name of a method whose code has been added, or which added code calls. */
  ghost predicate Declared(g: Graph, s: State, done: seq<MI>, x: string) {
    exists m :: m in s.names && s.names[m] == x && ((m in done && HasCode(g, m)) || Called(g, done, m))
  }

  /** done lists the method instances compiled so far, in order. */
  ghost predicate Inv(g: Graph, entry: MI, name: string, s: State, done: seq<MI>) {
    && GraphOK(g) && s.status.Keys == s.names.Keys <= g.bodies.Keys
    && NoRepeats(s.worklist + done)
    && (forall m :: m in s.status <==> m in s.worklist || m in done)
    && (forall m | m in s.worklist :: s.status[m] == Pending)
    && (forall m | m in done :: s.status[m] == Outcome(g, m))
    && Numbered(g, entry, name, s)
    && (forall m :: m in s.status <==> m == entry || Called(g, done, m))
    && (forall r: set<MI> | Closure(g, entry, r) :: s.status.Keys <= r)
    && s.funcs == Added(g, s.names, done)
    && (forall x :: x in s.exports <==> Declared(g, s, done, x))
  }

  // ---- requests ----

  /** What s knew is kept. */
  ghost predicate KnownKept(s: State, s': State) {
    && s.worklist <= s'.worklist && s'.funcs == s.funcs && s'.status.Keys == s'.names.Keys
    && (forall m | m in s.status :: m in s'.status && s'.status[m] == s.status[m])
    && (forall m | m in s.names :: m in s'.names && s'.names[m] == s.names[m])
  }

  /** What is new was requested, and is pending, each once. */
  ghost predicate NewsPending(s: State, s': State, requests: seq<MI>)
    requires s.worklist <= s'.worklist
  {
    var news := s'.worklist[|s.worklist|..];
    && NoRepeats(news)
    && (forall m :: m in s'.status <==> m in s.status || m in news)
    && (forall m | m in news :: m !in s.status && m in requests && s'.status[m] == Pending)
    && (forall m | m in requests :: m in s'.status)
  }

  /** Exports grow by the names of what was requested. */
  ghost predicate Declares(s: State, s': State, requests: seq<MI>) {
    forall x :: x in s'.exports <==> x in s.exports || exists m :: m in requests && m in s'.names && s'.names[m] == x
  }

  /** s' follows s by requests. */
  ghost predicate Follows(s: State, s': State, requests: seq<MI>) {
    KnownKept(s, s') && NewsPending(s, s', requests) && Declares(s, s', requests)
  }

  lemma NewName(g: Graph, entry: MI, name: string, s: State, m: MI)
    requires Numbered(g, entry, name, s) && m in g.names && m !in s.names
    ensures var s' := s.(count := s.count + 1, names := s.names[m := Generated(s.count + 1, g.names[m])]);
      Numbered(g, entry, name, s')
  {
    hide Generated;
    var s' := s.(count := s.count + 1, names := s.names[m := Generated(s.count + 1, g.names[m])]);
    forall n | n in s'.names && n != entry ensures n in g.names && FromCounter(g, s', n) {
      if n != m {
        assert FromCounter(g, s, n);
      }
    }
    forall n | n in s.names && n != entry ensures s.names[n] != s'.names[m] {
      assert FromCounter(g, s, n);
      var k: nat :| 1 < k <= s.count && s.names[n] == Generated(k, g.names[n]);
      if s.names[n] == s'.names[m] { GeneratedInjective(k, g.names[n], s.count + 1, g.names[m]); }
    }
  }

  lemma KnownFollows(s: State, m: MI)
    requires s.status.Keys == s.names.Keys && m in s.status
    ensures Follows(s, Export(s, m), [m])
  {
  }

  lemma NewFollows(g: Graph, s: State, m: MI)
    requires s.status.Keys == s.names.Keys && m in g.names && m !in s.status
    ensures Follows(s, Export(Request(g, s, m), m), [m])
  {
    hide Generated;
    var s' := Export(Request(g, s, m), m);
    assert s'.worklist[|s.worklist|..] == [m];
    assert s'.exports == s.exports + {s'.names[m]};
  }

  /** One call site. */
  lemma RequestOne(g: Graph, entry: MI, name: string, s: State, m: MI)
    requires s.status.Keys == s.names.Keys && m in g.names && Numbered(g, entry, name, s)
    ensures var s' := Export(Request(g, s, m), m); Follows(s, s', [m]) && Numbered(g, entry, name, s')
  {
    hide Generated, Follows, Numbered;
    var s1 := Request(g, s, m);
    if m in s.status {
      KnownFollows(s, m);
      NumberedSame(g, entry, name, s, Export(s, m));
    } else {
      NewFollows(g, s, m);
      NewName(g, entry, name, s, m);
      var s2 := s.(count := s.count + 1, names := s.names[m := Generated(s.count + 1, g.names[m])]);
      NumberedSame(g, entry, name, s2, Export(s1, m));
    }
  }

  lemma NumberedSame(g: Graph, entry: MI, name: string, s: State, s': State)
    requires Numbered(g, entry, name, s) && s'.names == s.names && s'.count == s.count
    ensures Numbered(g, entry, name, s')
  {
    hide Generated;
    forall m | m in s'.names && m != entry
      ensures m in g.names && FromCounter(g, s', m)
    {
      assert FromCounter(g, s, m);
    }
  }

  lemma NoRepeatsConcat(xs: seq<MI>, ys: seq<MI>)
    requires NoRepeats(xs) && NoRepeats(ys) && forall y | y in ys :: y !in xs
    ensures NoRepeats(xs + ys)
  {
    forall i, j | 0 <= i < j < |xs + ys| ensures (xs + ys)[i] != (xs + ys)[j] {
      if i < |xs| <= j { assert ys[j - |xs|] in ys; }
    }
  }

  lemma FollowsTrans(a: State, b: State, c: State, xs: seq<MI>, ys: seq<MI>)
    requires Follows(a, b, xs) && Follows(b, c, ys)
    ensures Follows(a, c, xs + ys)
  {
    hide KnownKept, NewsPending, Declares;
    KnownTrans(a, b, c);
    NewsTrans(a, b, c, xs, ys);
    DeclaresTrans(a, b, c, xs, ys);
  }

  lemma KnownTrans(a: State, b: State, c: State)
    requires KnownKept(a, b) && KnownKept(b, c)
    ensures KnownKept(a, c)
  {
  }

  lemma NewsTrans(a: State, b: State, c: State, xs: seq<MI>, ys: seq<MI>)
    requires KnownKept(a, b) && KnownKept(b, c) && NewsPending(a, b, xs) && NewsPending(b, c, ys)
    ensures a.worklist <= c.worklist && NewsPending(a, c, xs + ys)
  {
    hide NoRepeats;
    var p, q := b.worklist[|a.worklist|..], c.worklist[|b.worklist|..];
    assert c.worklist[|a.worklist|..] == p + q;
    NoRepeatsConcat(p, q);
  }

  lemma DeclaresTrans(a: State, b: State, c: State, xs: seq<MI>, ys: seq<MI>)
    requires KnownKept(a, b) && KnownKept(b, c) && NewsPending(a, b, xs) && Declares(a, b, xs) && Declares(b, c, ys)
    ensures Declares(a, c, xs + ys)
  {
    hide NoRepeats;
    forall x ensures x in c.exports <==> x in a.exports || exists m :: m in xs + ys && m in c.names && c.names[m] == x {
      if m :| m in xs + ys && m in c.names && c.names[m] == x {
        if m in xs { assert m in b.status; assert m in b.names && b.names[m] == x; }
      }
    }
  }

  lemma FollowsNothing(s: State)
    requires s.status.Keys == s.names.Keys
    ensures Follows(s, s, [])
  {
  }

  lemma {:induction false} RequestsFollow(g: Graph, entry: MI, name: string, s: State, requests: seq<MI>)
    requires s.status.Keys == s.names.Keys && Numbered(g, entry, name, s) && forall c | c in requests :: c in g.names
    ensures var s' := RequestAll(g, s, requests); Follows(s, s', requests) && Numbered(g, entry, name, s')
    decreases |requests|
  {
    hide Numbered, Request, Export;
    if requests == [] {
      FollowsNothing(s);
    } else {
      var s1 := Export(Request(g, s, requests[0]), requests[0]);
      RequestOne(g, entry, name, s, requests[0]);
      RequestsFollow(g, entry, name, s1, requests[1..]);
      FollowsTrans(s, s1, RequestAll(g, s1, requests[1..]), [requests[0]], requests[1..]);
      assert [requests[0]] + requests[1..] == requests;
    }
  }

  // ---- one worklist item ----

  /** s' is s after compiling the first item m. */
  ghost predicate Moves(g: Graph, s: State, s': State, m: MI) {
    && s.worklist != [] && s.worklist[0] == m && m in g.bodies && m in s.names && s'.status.Keys == s'.names.Keys
    && s.worklist[1..] <= s'.worklist
    && (forall n | n in s.status && n != m :: n in s'.status && s'.status[n] == s.status[n])
    && m in s'.status && s'.status[m] == Outcome(g, m)
    && (forall n | n in s.names :: n in s'.names && s'.names[n] == s.names[n])
    && (var news := s'.worklist[|s.worklist| - 1..];
        && NoRepeats(news)
        && (forall n :: n in s'.status <==> n in s.status || n in news)
        && (forall n | n in news :: n !in s.status && CalledBy(g, m, n) && s'.status[n] == Pending))
    && (forall n | CalledBy(g, m, n) :: n in s'.status)
    && s'.funcs == s.funcs + (if HasCode(g, m) then [s.names[m]] else [])
    && (forall x :: x in s'.exports <==>
          (x in s.exports || (HasCode(g, m) && x == s.names[m])
           || exists n :: CalledBy(g, m, n) && n in s'.names && s'.names[n] == x))
  }

  lemma ProcessMoves(g: Graph, entry: MI, name: string, s: State)
    requires GraphOK(g) && s.status.Keys == s.names.Keys && Numbered(g, entry, name, s)
    requires s.worklist != [] && s.worklist[0] in g.bodies && s.worklist[0] in s.names
    ensures Moves(g, s, Process(g, s), s.worklist[0]) && Numbered(g, entry, name, Process(g, s))
  {
    hide Numbered, NoRepeats;
    var m := s.worklist[0];
    match g.bodies[m]
    case NoIR =>
      NumberedSame(g, entry, name, s, Process(g, s));
      NoneMoves(g, s, m);
    case Emitted(ok, requests) =>
      var s1 := Export(s.(worklist := s.worklist[1..], funcs := s.funcs + [s.names[m]]), m);
      NumberedSame(g, entry, name, s, s1);
      RequestsFollow(g, entry, name, s1, requests);
      var s2 := RequestAll(g, s1, requests);
      NumberedSame(g, entry, name, s2, Process(g, s));
      CodeMoves(g, s, s1, s2, m);
  }

  lemma NoneMoves(g: Graph, s: State, m: MI)
    requires GraphOK(g) && s.status.Keys == s.names.Keys && s.worklist != [] && s.worklist[0] == m
    requires m in g.bodies && m in s.names && g.bodies[m].NoIR?
    ensures Moves(g, s, Process(g, s), m)
  {
  }

  lemma CodeMoves(g: Graph, s: State, s1: State, s2: State, m: MI)
    requires GraphOK(g) && s.status.Keys == s.names.Keys && s.worklist != [] && s.worklist[0] == m
    requires m in g.bodies && m in s.names && g.bodies[m].Emitted?
    requires s1 == Export(s.(worklist := s.worklist[1..], funcs := s.funcs + [s.names[m]]), m)
    requires Follows(s1, s2, g.bodies[m].requests)
    ensures Moves(g, s, s2.(status := s2.status[m := Outcome(g, m)]), m)
  {
    hide NoRepeats, GraphOK, Follows;
    CodeQueue(g, s, s1, s2, m);
    forall x ensures x in s2.exports <==>
      (x in s.exports || x == s.names[m] || exists n :: CalledBy(g, m, n) && n in s2.names && s2.names[n] == x)
    {
      CodeExports(g, s, s1, s2, m, x);
    }
  }

  lemma CodeQueue(g: Graph, s: State, s1: State, s2: State, m: MI)
    requires s.status.Keys == s.names.Keys && s.worklist != [] && s.worklist[0] == m && m in s.names && HasCode(g, m)
    requires s1 == Export(s.(worklist := s.worklist[1..], funcs := s.funcs + [s.names[m]]), m)
    requires Follows(s1, s2, g.bodies[m].requests)
    ensures s.worklist[1..] <= s2.worklist && s2.status.Keys == s2.names.Keys && s2.funcs == s.funcs + [s.names[m]]
    ensures forall n | n in s.status :: n in s2.status && s2.status[n] == s.status[n]
    ensures forall n | n in s.names :: n in s2.names && s2.names[n] == s.names[n]
    ensures forall n | CalledBy(g, m, n) :: n in s2.status
    ensures var news := s2.worklist[|s.worklist| - 1..];
      && NoRepeats(news)
      && (forall n :: n in s2.status <==> n in s.status || n in news)
      && (forall n | n in news :: n !in s.status && CalledBy(g, m, n) && s2.status[n] == Pending)
  {
    hide NoRepeats;
    assert s2.worklist[|s.worklist| - 1..] == s2.worklist[|s1.worklist|..];
  }

  lemma CodeExports(g: Graph, s: State, s1: State, s2: State, m: MI, x: string)
    requires m in s.names && HasCode(g, m)
    requires s.worklist != [] && s1 == Export(s.(worklist := s.worklist[1..], funcs := s.funcs + [s.names[m]]), m)
    requires Follows(s1, s2, g.bodies[m].requests)
    ensures x in s2.exports <==>
      (x in s.exports || x == s.names[m] || exists n :: CalledBy(g, m, n) && n in s2.names && s2.names[n] == x)
  {
    hide NoRepeats;
    assert s1.exports == s.exports + {s.names[m]};
    if x in s2.exports && x !in s1.exports {
      var n :| n in g.bodies[m].requests && n in s2.names && s2.names[n] == x;
      assert CalledBy(g, m, n);
    }
    if n :| CalledBy(g, m, n) && n in s2.names && s2.names[n] == x { assert n in g.bodies[m].requests; }
  }

  // ---- the invariant, clause by clause ----

  lemma QueueKept(g: Graph, entry: MI, name: string, s: State, s': State, done: seq<MI>, m: MI)
    requires Inv(g, entry, name, s, done) && Moves(g, s, s', m)
    ensures NoRepeats(s'.worklist + (done + [m]))
    ensures forall n :: n in s'.status <==> n in s'.worklist || n in done + [m]
    ensures forall n | n in s'.worklist :: s'.status[n] == Pending
  {
    hide GraphOK, Numbered, Declared, Called, Closure, Added;
    var rest, news := s.worklist[1..], s'.worklist[|s.worklist| - 1..];
    assert s'.worklist == rest + news;
    SplitNoRepeats(s.worklist, done, m);
    NoRepeatsConcat(rest, news);
    NoRepeatsConcat(rest + news, done + [m]);
  }

  lemma SplitNoRepeats(w: seq<MI>, done: seq<MI>, m: MI)
    requires w != [] && w[0] == m && NoRepeats(w + done)
    ensures NoRepeats(w[1..]) && NoRepeats(done + [m]) && forall d | d in done + [m] :: d !in w[1..]
  {
    var all := w + done;
    assert all[0] == m && all[|w|..] == done && all[1..|w|] == w[1..];
    forall i, j | 0 <= i < j < |w[1..]| ensures w[1..][i] != w[1..][j] { assert all[i + 1] != all[j + 1]; }
    forall i, j | 0 <= i < j < |done + [m]| ensures (done + [m])[i] != (done + [m])[j] {
      if j < |done| { assert all[|w| + i] != all[|w| + j]; } else { assert all[0] != all[|w| + i]; }
    }
    forall d | d in done + [m] ensures d !in w[1..] {
      forall i | 0 <= i < |w[1..]| ensures w[1..][i] != d {
        var j :| 0 <= j < |done + [m]| && (done + [m])[j] == d;
        if j < |done| { assert all[i + 1] != all[|w| + j]; } else { assert all[0] != all[i + 1]; }
      }
    }
  }

  lemma CalledSnoc(g: Graph, done: seq<MI>, m: MI, n: MI)
    ensures Called(g, done + [m], n) <==> Called(g, done, n) || CalledBy(g, m, n)
  {
    if Called(g, done, n) {
      var d :| d in done && CalledBy(g, d, n);
      assert d in done + [m];
    }
    if CalledBy(g, m, n) { assert m in done + [m]; }
  }

  lemma KeysKept(g: Graph, entry: MI, name: string, s: State, s': State, done: seq<MI>, m: MI)
    requires Inv(g, entry, name, s, done) && Moves(g, s, s', m)
    ensures forall n :: n in s'.status <==> n == entry || Called(g, done + [m], n)
    ensures forall r: set<MI> | Closure(g, entry, r) :: s'.status.Keys <= r
    ensures s'.names.Keys <= g.bodies.Keys
    ensures forall d | d in done + [m] :: s'.status[d] == Outcome(g, d)
  {
    hide Numbered, Declared, Called, Added, NoRepeats;
    forall n ensures n in s'.status <==> n == entry || Called(g, done + [m], n) { CalledSnoc(g, done, m, n); }
    assert m in s.status;
    forall d | d in done ensures s'.status[d] == Outcome(g, d) { assert d in s.status; }
  }

  lemma {:induction false} AddedSame(g: Graph, a: map<MI, string>, b: map<MI, string>, done: seq<MI>)
    requires forall d | d in done :: d in a && d in b && a[d] == b[d]
    ensures Added(g, a, done) == Added(g, b, done)
  {
    if done != [] {
      assert done[|done| - 1] in done;
      AddedSame(g, a, b, done[..|done| - 1]);
    }
  }

  lemma ModuleKept(g: Graph, entry: MI, name: string, s: State, s': State, done: seq<MI>, m: MI)
    requires Inv(g, entry, name, s, done) && Moves(g, s, s', m)
    ensures s'.funcs == Added(g, s'.names, done + [m])
    ensures forall x :: x in s'.exports <==> Declared(g, s', done + [m], x)
  {
    hide Numbered, Closure, NoRepeats;
    assert (done + [m])[..|done|] == done;
    assert forall d | d in done :: d in s.status;
    AddedSame(g, s.names, s'.names, done);
    forall x
      ensures x in s'.exports <==> Declared(g, s', done + [m], x)
    {
      ExportKept(g, entry, name, s, s', done, m, x);
    }
  }

  lemma ExportKept(g: Graph, entry: MI, name: string, s: State, s': State, done: seq<MI>, m: MI, x: string)
    requires Inv(g, entry, name, s, done) && Moves(g, s, s', m)
    ensures x in s'.exports <==> Declared(g, s', done + [m], x)
  {
    hide Numbered, Closure, NoRepeats, Called, Added;
    if x in s'.exports {
      if x in s.exports {
        var n :| n in s.names && s.names[n] == x && ((n in done && HasCode(g, n)) || Called(g, done, n));
        CalledSnoc(g, done, m, n);
        assert n in s'.names && s'.names[n] == x;
      } else if n :| CalledBy(g, m, n) && n in s'.names && s'.names[n] == x {
        CalledSnoc(g, done, m, n);
      } else {
        assert m in s'.names && s'.names[m] == x && m in done + [m];
      }
    }
    if Declared(g, s', done + [m], x) {
      var n :| n in s'.names && s'.names[n] == x && ((n in done + [m] && HasCode(g, n)) || Called(g, done + [m], n));
      CalledSnoc(g, done, m, n);
      if n != m && !CalledBy(g, m, n) { assert n in s.names; }
    }
  }

  /** Compiling one item keeps the invariant. */
  lemma ProcessInv(g: Graph, entry: MI, name: string, s: State, done: seq<MI>)
    requires Inv(g, entry, name, s, done) && s.worklist != []
    ensures s.worklist[0] in g.bodies && s.worklist[0] in s.names
    ensures Inv(g, entry, name, Process(g, s), done + [s.worklist[0]])
  {
    hide Numbered, Closure, NoRepeats, Called, Declared, Added, Process, Moves;
    var m := s.worklist[0];
    assert m in s.status;
    ProcessMoves(g, entry, name, s);
    var s' := Process(g, s);
    QueueKept(g, entry, name, s, s', done, m);
    KeysKept(g, entry, name, s, s', done, m);
    ModuleKept(g, entry, name, s, s', done, m);
    MovesKeys(g, s, s', m);
  }

  lemma MovesKeys(g: Graph, s: State, s': State, m: MI)
    requires Moves(g, s, s', m)
    ensures s'.status.Keys == s'.names.Keys
  {
  }

  // ---- the whole module ----

  /** The entry, requested and given the caller's name. */
  function Seeded(g: Graph, entry: MI, name: string): State
    requires entry in g.names
  {
    var s := Request(g, EMPTY, entry);
    s.(names := s.names[entry := name])
  }

  lemma SeededInv(g: Graph, entry: MI, name: string)
    requires GraphOK(g) && entry in g.bodies
    ensures Inv(g, entry, name, Seeded(g, entry, name), [])
  {
    var s := Seeded(g, entry, name);
    assert s.worklist == [entry] && s.worklist + [] == [entry];
  }

  /** What is left to do: the queue, and everything not yet requested, which may still join it. */
  function Measure(g: Graph, s: State): nat {
    2 * |g.bodies.Keys - s.status.Keys| + |s.worklist|
  }

  lemma MeasureDrops(g: Graph, entry: MI, name: string, s: State, done: seq<MI>)
    requires Inv(g, entry, name, s, done) && s.worklist != []
    requires s.worklist[0] in g.bodies && s.worklist[0] in s.names
    ensures Measure(g, Process(g, s)) < Measure(g, s)
  {
    hide Closure, Called, Declared, Added, Process, Numbered, Moves, NoRepeats;
    ProcessMoves(g, entry, name, s);
    ProcessInv(g, entry, name, s, done);
    Shrinks(g, s, Process(g, s), s.worklist[0]);
  }

  lemma Shrinks(g: Graph, s: State, s': State, m: MI)
    requires Moves(g, s, s', m) && s'.status.Keys <= g.bodies.Keys
    ensures Measure(g, s') < Measure(g, s)
  {
    hide NoRepeats;
    var news := s'.worklist[|s.worklist| - 1..];
    KeysGrow(g.bodies.Keys, s.status.Keys, s'.status.Keys, news);
  }

  lemma KeysGrow(all: set<MI>, keys: set<MI>, keys': set<MI>, news: seq<MI>)
    requires keys' <= all && NoRepeats(news)
    requires forall n :: n in keys' <==> n in keys || n in news
    requires forall n | n in news :: n !in keys
    ensures |all - keys'| + |news| == |all - keys|
  {
    if news == [] {
      assert keys' == keys;
    } else {
      var k := |news| - 1;
      var x := news[k];
      assert x !in news[..k];
      assert news == news[..k] + [x];
      var mid := keys' - {x};
      KeysGrow(all, keys, mid, news[..k]);
      assert all - mid == (all - keys') + {x};
      assert |(all - keys') + {x}| == |all - keys'| + 1;
    }
  }

  /** The loop: every item of the queue, until it is empty. */
  ghost function Drained(g: Graph, entry: MI, name: string, s: State, done: seq<MI>): (r: (State, seq<MI>))
    requires Inv(g, entry, name, s, done)
    ensures Inv(g, entry, name, r.0, r.1) && r.0.worklist == [] && done <= r.1
    decreases Measure(g, s)
  {
    if s.worklist == [] then (s, done)
    else
      ProcessInv(g, entry, name, s, done);
      MeasureDrops(g, entry, name, s, done);
      Drained(g, entry, name, Process(g, s), done + [s.worklist[0]])
  }

  /** The finished state, and the method instances in the order they were compiled. */
  ghost function Finished(g: Graph, entry: MI, name: string): (r: (State, seq<MI>))
    requires GraphOK(g) && entry in g.bodies
    ensures Inv(g, entry, name, r.0, r.1) && r.0.worklist == []
  {
    SeededInv(g, entry, name);
    Drained(g, entry, name, Seeded(g, entry, name), [])
  }

  /** The loop ends having compiled exactly the least closed set of the call graph that contains the
      entry, each member once. */
  lemma CompilesReachable(g: Graph, entry: MI, name: string)
    requires GraphOK(g) && entry in g.bodies
    ensures var (s, done) := Finished(g, entry, name);
      && NoRepeats(done) && (forall m :: m in done <==> m in s.status)
      && Closure(g, entry, s.status.Keys)
      && (forall r: set<MI> | Closure(g, entry, r) :: s.status.Keys <= r)
      && (forall m | m in done :: s.status[m] == Outcome(g, m))
  {
    hide Numbered, Declared, Added;
    var (s, done) := Finished(g, entry, name);
    assert s.worklist + done == done;
    forall d, m | d in s.status.Keys && CalledBy(g, d, m) ensures m in s.status.Keys {
      assert d in done;
      assert Called(g, done, m);
    }
  }
}

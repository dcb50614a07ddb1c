/** Whole runs of the runtime: growable arrays, strings, symbols, constants and resets on one heap.  No
    operation of one kind disturbs the objects of another. */
module JointRuns {
  import opened Wrappers
  import opened Words
  import opened Arena
  import opened Heap
  import opened Arrays
  import opened ArrayOps
  import opened Strings
  import opened Caches
  import AR = ArrayRuns
  import CT = ConstTables
  import D = Dictionaries

  /** The heap, the arrays a program holds, the caches, and the strings a program holds. */
  datatype Joint = Joint(h: Heap, arrays: map<nat, Shape>, rodata: map<nat, nat>, syms: seq<(seq<Byte>, nat)>,
                         strings: map<nat, seq<Byte>>)
  {
    function World(): AR.World { AR.World(h, arrays) }

    function Tables(): Runtime { Runtime(h, rodata, syms) }
  }

  // ---- regions that no array owns ----

  /** Neither a header nor the current buffer of an array starts at x. */
  ghost predicate NotOwned(arrays: map<nat, Shape>, x: nat) {
    forall a | a in arrays :: a - HEADER != x && arrays[a].buf != x
  }

  ghost function Unowned(grants: seq<Grant>, arrays: map<nat, Shape>): seq<Grant> {
    if grants == [] then []
    else
      var g := grants[|grants| - 1];
      Unowned(grants[..|grants| - 1], arrays) + (if NotOwned(arrays, g.addr) then [g] else [])
  }

  lemma {:induction false} UnownedHas(grants: seq<Grant>, arrays: map<nat, Shape>, g: Grant)
    ensures g in Unowned(grants, arrays) <==> g in grants && NotOwned(arrays, g.addr)
  {
    hide NotOwned;
    if grants != [] {
      UnownedHas(grants[..|grants| - 1], arrays, g);
      assert grants == grants[..|grants| - 1] + [grants[|grants| - 1]];
    }
  }

  /** The heap without what the arrays own. */
  ghost function Rest(w: AR.World): Heap {
    w.h.(grants := Unowned(w.h.grants, w.arrays))
  }

  ghost predicate StringsOK(h: Heap, strings: map<nat, seq<Byte>>) {
    forall p | p in strings :: IsString(h, p, strings[p])
  }

  /** Strings and cached objects, all in one heap. */
  ghost predicate RestOK(h: Heap, j: Joint, image: Image) {
    StringsOK(h, j.strings) && SymsOK(h, j.syms) && RodataOK(h, j.rodata, image)
  }

  /** Arrays are intact, and so are strings and cached objects, in what the arrays do not own. */
  ghost predicate JointOK(j: Joint, image: Image) {
    AR.WorldOK(j.World()) && RestOK(Rest(j.World()), j, image)
  }

  // ---- what an array operation leaves alone ----

  /** Regions that no array owns keep their bytes, and stay unowned. */
  ghost predicate Framed(w: AR.World, w': AR.World) {
    forall g | g in w.h.grants && NotOwned(w.arrays, g.addr) :: Spared(w, w', g)
  }

  ghost predicate Spared(w: AR.World, w': AR.World, g: Grant) {
    g in w'.h.grants && SameOn(w.h.mem, w'.h.mem, g.addr, g.size) && NotOwned(w'.arrays, g.addr)
  }

  /** What is confined to one array, and a clear region, spares every region no array owns. */
  lemma ConfinedSpares(w: AR.World, h': Heap, a: nat, p: nat, n: nat, g: Grant)
    requires AR.WorldOK(w) && a in w.arrays && g in w.h.grants && NotOwned(w.arrays, g.addr)
    requires Confined(w.h.mem, h'.mem, a, w.arrays[a], p, n) && (n > 0 ==> Clear(w.h, p, n))
    ensures SameOn(w.h.mem, h'.mem, g.addr, g.size) && (n > 0 ==> g.addr != p)
  {
    hide Word, HeapOK;
    var s := w.arrays[a];
    GrantsDisjoint(w.h, g, Grant(a - HEADER, HEADER + REPR));
    GrantsDisjoint(w.h, g, Grant(s.buf, BufSize(s)));
    GrantBound(w.h, g);
  }

  /** An operation that keeps an array's buffer. */
  lemma InPlaceFrames(w: AR.World, h': Heap, a: nat, s': Shape)
    requires AR.WorldOK(w) && a in w.arrays && h'.grants == w.h.grants && s'.buf == w.arrays[a].buf
    requires Confined(w.h.mem, h'.mem, a, w.arrays[a], 0, 0)
    ensures Framed(w, AR.World(h', w.arrays[a := s']))
  {
    hide AR.WorldOK, Confined;
    var w' := AR.World(h', w.arrays[a := s']);
    forall g | g in w.h.grants && NotOwned(w.arrays, g.addr) ensures Spared(w, w', g) {
      ConfinedSpares(w, h', a, 0, 0, g);
    }
  }

  lemma SameFrames(w: AR.World)
    ensures Framed(w, w)
  {
  }

  lemma GrowFrames(w: AR.World, a: nat, delta: int, base: nat)
    requires AR.WorldOK(w) && a in w.arrays && delta > 0
    requires Usable(w.h, base, 16 + Span(Length(w.h.mem, a) + delta, w.arrays[a].es))
      && AR.GrowBy(w, a, delta, base).Some?
    ensures Framed(w, AR.GrowBy(w, a, delta, base).value)
  {
    hide Items, Confined, Inv, ArrayOK, Clear, FreshBlock, GrowEnd, GrantsApart, Word, Span, Limit, Space;
    GrowEffect(w.h, a, w.arrays[a], delta, base);
    var w' := AR.GrowBy(w, a, delta, base).value;
    var r := w'.h.grants[|w'.h.grants| - 1];
    forall g | g in w.h.grants && NotOwned(w.arrays, g.addr) ensures Spared(w, w', g) {
      ConfinedSpares(w, w'.h, a, r.addr, r.size, g);
    }
  }

  lemma ShrinkFrames(w: AR.World, a: nat, dec: int)
    requires AR.WorldOK(w) && a in w.arrays
    ensures Framed(w, AR.World(DelEnd(w.h, a, dec, w.arrays[a].es), w.arrays))
  {
    hide Items, Confined, Inv, DelEnd, Word, ArrayOK;
    var s := w.arrays[a];
    if dec > 0 {
      DelEffect(w.h, a, s, dec);
      InPlaceFrames(w, DelEnd(w.h, a, dec, s.es), a, s);
      assert w.arrays[a := s] == w.arrays;
    } else {
      AR.DelNothing(w.h, a, dec, s.es);
      SameFrames(w);
    }
  }

  lemma CompactFrames(w: AR.World, a: nat, drop: nat)
    requires AR.WorldOK(w) && a in w.arrays && drop <= Length(w.h.mem, a)
    ensures var s := w.arrays[a];
      Framed(w, AR.World(CompactFront(w.h, a, drop, s.es), w.arrays[a := s.(off := s.off + drop)]))
  {
    hide Items, Confined, Inv, ArrayOK, CompactFront, Word;
    var s := w.arrays[a];
    CompactEffect(w.h, a, s, drop);
    InPlaceFrames(w, CompactFront(w.h, a, drop, s.es), a, s.(off := s.off + drop));
  }

  lemma AssignFrames(w: AR.World, a: nat, i: nat, e: Elem)
    requires AR.WorldOK(w) && a in w.arrays && i < Length(w.h.mem, a) && |e| <= w.arrays[a].es
    ensures Framed(w, AR.World(SetItem(w.h, a, i, e, w.arrays[a].es), w.arrays))
  {
    hide Items, Confined, Inv, ArrayOK, SetItem, Word;
    var s := w.arrays[a];
    AssignEffect(w.h, a, s, i, e);
    InPlaceFrames(w, SetItem(w.h, a, i, e, s.es), a, s);
    assert w.arrays[a := s] == w.arrays;
  }

  /** A new array: two clear regions. */
  lemma NewFrames(w: AR.World, op: AR.Op)
    requires AR.WorldOK(w) && op.New? && AR.Allowed(w, op) && AR.Do(w, op).Some?
    ensures Framed(w, AR.Do(w, op).value)
  {
    hide Items, Inv, Clear, FreshBlock, Word, Span, Limit, Space, NewMemory, NewArray, GrantsApart, ArrayOK;
    var size := 16 + Span(op.count, op.es);
    MemoryEffect(w.h, op.count, op.es, op.memTag, op.base);
    var (h1, elems) := NewMemory(w.h, op.count, op.es, op.memTag, op.base).value;
    var (h2, a) := NewArray(h1, op.tag, elems, op.count, op.base').value;
    WrapperEffect(h1, op.tag, elems, op.count, op.base');
    AR.ClearBefore(w.h, h1, a - HEADER, HEADER + REPR);
    var w' := AR.Do(w, op).value;
    forall g | g in w.h.grants && NotOwned(w.arrays, g.addr) ensures Spared(w, w', g) {
      ClearSpares(w.h, h2, elems - 16, size, a - HEADER, HEADER + REPR, g);
    }
  }

  lemma ClearSpares(h: Heap, h': Heap, p: nat, n: nat, q: nat, k: nat, g: Grant)
    requires HeapOK(h) && g in h.grants && Clear(h, p, n) && Clear(h, q, k) && n > 0 && k > 0
    requires forall x: nat | !(p <= x < p + n) && !(q <= x < q + k) :: h'.mem(x) == h.mem(x)
    ensures SameOn(h.mem, h'.mem, g.addr, g.size) && g.addr != p && g.addr != q
  {
    hide HeapOK;
    GrantBound(h, g);
  }

  lemma ResizeFrames(w: AR.World, op: AR.Op)
    requires AR.WorldOK(w) && op.ResizeTo? && AR.Allowed(w, op) && AR.Do(w, op).Some?
    ensures Framed(w, AR.Do(w, op).value)
  {
    hide AR.WorldOK, Items, FreshBlock, HeapOK, Word, Span, DelEnd, Framed, AR.GrowBy, AR.Do, Space;
    AR.ResizeDefines(w, op);
    var len := Length(w.h.mem, op.a);
    if op.n > len { GrowFrames(w, op.a, op.n - len, op.base); }
    else { ShrinkFrames(w, op.a, len - AR.Positive(op.n)); }
  }

  lemma ArrayFrames(w: AR.World, op: AR.Op)
    requires AR.WorldOK(w) && AR.Allowed(w, op) && AR.Do(w, op).Some?
    ensures Framed(w, AR.Do(w, op).value)
  {
    hide AR.WorldOK, Items, Usable, HeapOK, Word, Span, DelEnd, CompactFront, SetItem, Framed;
    match op
    case New(_, _, _, _, _, _) => NewFrames(w, op);
    case Grow(a, delta, base) =>
      if delta > 0 { GrowFrames(w, a, delta, base); } else { AR.NoGrowth(w, a, delta, base); SameFrames(w); }
    case Shrink(a, dec) => ShrinkFrames(w, a, dec);
    case ResizeTo(_, _, _) => ResizeFrames(w, op);
    case Compact(a, drop) => CompactFrames(w, a, drop);
    case Assign(a, i, e) => AssignFrames(w, a, i, e);
  }

  // ---- what that means for strings and caches ----

  lemma RestKept(h: Heap, h': Heap, j: Joint, image: Image)
    requires RestOK(h, j, image) && Keeps(h, h')
    ensures RestOK(h', j, image)
  {
    hide IsString, SymsOK, RodataOK, Keeps;
    TablesKept(h, h', j.rodata, j.syms, image);
    forall p | p in j.strings ensures IsString(h', p, j.strings[p]) { StringKept(h, h', p, j.strings[p]); }
  }

  /** What is framed keeps the rest of the heap. */
  lemma FramedKeeps(w: AR.World, w': AR.World)
    requires Framed(w, w')
    ensures Keeps(Rest(w), Rest(w'))
  {
    hide NotOwned, SameOn;
    forall g | g in Rest(w).grants ensures Intact(Rest(w), Rest(w'), g) {
      UnownedHas(w.h.grants, w.arrays, g);
      assert Spared(w, w', g);
      UnownedHas(w'.h.grants, w'.arrays, g);
    }
  }

  /** Strings and cached objects, in the whole heap. */
  lemma JointHeap(j: Joint, image: Image)
    requires JointOK(j, image)
    ensures HeapOK(j.h) && StringsOK(j.h, j.strings) && RuntimeOK(j.Tables(), image)
  {
    hide HeapOK, Keeps, StringsOK, SymsOK, RodataOK;
    WorldHeap(j.World());
    RestInside(j.World());
    RestKept(Rest(j.World()), j.h, j, image);
    RestParts(j.h, j, image);
  }

  lemma RestParts(h: Heap, j: Joint, image: Image)
    requires RestOK(h, j, image)
    ensures StringsOK(h, j.strings) && SymsOK(h, j.syms) && RodataOK(h, j.rodata, image)
  {
    hide StringsOK, SymsOK, RodataOK;
  }

  lemma WorldHeap(w: AR.World)
    requires AR.WorldOK(w)
    ensures HeapOK(w.h)
  {
    hide HeapOK, ArrayOK;
  }

  lemma RestInside(w: AR.World)
    ensures Keeps(Rest(w), w.h)
  {
    hide NotOwned;
    forall g | g in Rest(w).grants ensures Intact(Rest(w), w.h, g) { UnownedHas(w.h.grants, w.arrays, g); }
  }

  // ---- what an addition to the heap leaves alone ----

  /** Arrays and their contents, when the heap is only added to. */
  lemma WorldExtends(w: AR.World, h': Heap)
    requires AR.WorldOK(w) && Extends(w.h, h')
    ensures AR.WorldOK(AR.World(h', w.arrays)) && AR.View(AR.World(h', w.arrays)) == AR.View(w)
  {
    hide HeapOK, Items, ArrayOK, Keeps, AR.Separate;
    ExtendsOK(w.h, h');
    forall a | a in w.arrays
      ensures ArrayOK(h', a, w.arrays[a]) && Items(h'.mem, a, w.arrays[a].es) == Items(w.h.mem, a, w.arrays[a].es)
    {
      ArrayExtends(w.h, h', a, w.arrays[a]);
    }
  }

  lemma ArrayExtends(h: Heap, h': Heap, a: nat, s: Shape)
    requires ArrayOK(h, a, s) && Keeps(h, h')
    ensures ArrayOK(h', a, s) && Items(h'.mem, a, s.es) == Items(h.mem, a, s.es)
  {
    hide Items, Word;
    assert Intact(h, h', Grant(a - HEADER, HEADER + REPR)) && Intact(h, h', Grant(s.buf, BufSize(s)));
    forall g | g in h.grants ensures g in h'.grants { assert Intact(h, h', g); }
    ArrayUntouched(h, h', a, s);
  }

  /** What no array owned is still there, and so is what was added. */
  lemma RestExtends(w: AR.World, h': Heap)
    requires AR.WorldOK(w) && Extends(w.h, h')
    ensures var w' := AR.World(h', w.arrays);
      w.h.grants <= h'.grants && Keeps(Rest(w), Rest(w')) && Keeps(Since(w.h, h'), Rest(w'))
  {
    hide HeapOK, NotOwned, SameOn;
    var w' := AR.World(h', w.arrays);
    forall g | g in Rest(w).grants ensures Intact(Rest(w), Rest(w'), g) {
      UnownedHas(w.h.grants, w.arrays, g);
      assert Intact(w.h, h', g);
      UnownedHas(h'.grants, w.arrays, g);
    }
    forall g | g in Since(w.h, h').grants ensures Intact(Since(w.h, h'), Rest(w'), g) {
      NewUnowned(w, h', g);
      UnownedHas(h'.grants, w.arrays, g);
      Reflexive(h'.mem, g.addr, g.size);
    }
  }

  lemma NewUnowned(w: AR.World, h': Heap, g: Grant)
    requires AR.WorldOK(w) && Extends(w.h, h') && g in Since(w.h, h').grants
    ensures NotOwned(w.arrays, g.addr)
  {
    hide HeapOK, Word, Keeps;
    forall a | a in w.arrays ensures a - HEADER != g.addr && w.arrays[a].buf != g.addr {
      assert ArrayOK(w.h, a, w.arrays[a]);
      NewElsewhere(w.h, h', Grant(a - HEADER, HEADER + REPR), g);
      NewElsewhere(w.h, h', Grant(w.arrays[a].buf, BufSize(w.arrays[a])), g);
    }
  }

  // ---- operations ----

  datatype Op =
    | OnArray(op: AR.Op)
    | OnCaches(use: Caches.Op)
    | FromBytes(data: nat, len: int, tag: nat, base: nat)
    | Join(a: nat, b: nat, tag: nat, base: nat)
  {
    predicate IsReset() { OnCaches? && use.Clean? }

    predicate IsSymbol() { OnCaches? && use.Symbol? }

    /** A constant that is not null. */
    predicate IsConstant(image: Image) {
      OnCaches? && use.Constant? && use.key in image && !image[use.key].IsNull(use.key)
    }
  }

  ghost predicate Allowed(j: Joint, image: Image, op: Op) {
    match op
    case OnArray(o) => AR.Allowed(j.World(), o)
    case OnCaches(o) => Caches.Allowed(j.Tables(), image, o)
    case FromBytes(data, len, _, base) =>
      Offered(base, ALIGN) && (data != 0 && len >= 0 ==> Usable(j.h, base, OVERHEAD + len))
    case Join(a, b, _, base) =>
      a in j.strings && b in j.strings && Usable(j.h, base, OVERHEAD + |j.strings[a] + j.strings[b]|)
  }

  /** A string at p, unless p is null. */
  function Hold(strings: map<nat, seq<Byte>>, p: nat, bs: seq<Byte>): map<nat, seq<Byte>> {
    if p == 0 then strings else strings[p := bs]
  }

  /** The new state and the address returned, zero for array operations; None is an allocation that panics.
      A reset takes everything with it. */
  ghost function Do(j: Joint, image: Image, op: Op): Option<(Joint, nat)>
    requires Allowed(j, image, op)
  {
    match op
    case OnArray(o) =>
      (match AR.Do(j.World(), o)
       case None => None
       case Some(w) => Some((j.(h := w.h, arrays := w.arrays), 0)))
    case OnCaches(o) =>
      (match Caches.Do(j.Tables(), image, o)
       case None => None
       case Some((r, p)) =>
         if o.Clean? then Some((Joint(r.h, map[], r.rodata, r.syms, map[]), p))
         else Some((j.(h := r.h, rodata := r.rodata, syms := r.syms), p)))
    case FromBytes(data, len, tag, base) =>
      (match FromRaw(j.h, data, len, tag, base)
       case None => None
       case Some((h, p)) =>
         Some((j.(h := h, strings := Hold(j.strings, p, if len < 0 then [] else Get(j.h.mem, data, len))), p)))
    case Join(a, b, tag, base) =>
      (match Concat(j.h, a, b, tag, base)
       case None => None
       case Some((h, p)) => Some((j.(h := h, strings := Hold(j.strings, p, j.strings[a] + j.strings[b])), p)))
  }

  /** What programs see of the arrays. */
  ghost function View(j: Joint): map<nat, seq<Elem>> { AR.View(j.World()) }

  /** Strings and caches only grow. */
  ghost predicate Kept(j: Joint, j': Joint) {
    && (forall p | p in j.strings :: p in j'.strings && j'.strings[p] == j.strings[p])
    && Remembers(j.Tables(), j'.Tables())
  }

  /** Each kind of operation does its own work, at the address p that it returns, and leaves the other kinds'
      objects as they were. */
  ghost predicate Effect(j: Joint, image: Image, op: Op, j': Joint, p: nat) {
    match op
    case OnArray(o) =>
      && AR.OnSequences(View(j), o, View(j'))
      && j'.strings == j.strings && j'.rodata == j.rodata && j'.syms == j.syms
    case OnCaches(o) =>
      if o.Clean? then View(j') == map[] && j'.strings == map[] && j'.rodata == map[] && j'.syms == []
      else
        && View(j') == View(j) && j'.strings == j.strings && Kept(j, j')
        && (o.Symbol? ==> (o.name, p) in j'.syms)
        && (op.IsConstant(image) ==>
              o.key in j'.rodata && j'.rodata[o.key] == p && (o.key in j.rodata ==> j' == j))
    case FromBytes(data, len, _, _) =>
      && View(j') == View(j) && Kept(j, j') && (p == 0 <==> data == 0 || len < 0)
      && (if p == 0 then j' == j else len >= 0 && p in j'.strings && j'.strings[p] == Get(j.h.mem, data, len))
    case Join(a, b, _, _) =>
      && View(j') == View(j) && Kept(j, j') && a in j.strings && b in j.strings
      && p in j'.strings && j'.strings[p] == j.strings[a] + j.strings[b]
  }

  /** One step, and everything that follows from it. */
  ghost predicate Sound(j: Joint, image: Image, op: Op)
    requires Allowed(j, image, op)
  {
    Do(j, image, op).Some? ==>
      var (j', p) := Do(j, image, op).value;
      JointOK(j', image) && Effect(j, image, op, j', p)
  }

  // ---- each operation keeps everything intact ----

  lemma ArrayStep(j: Joint, image: Image, o: AR.Op)
    requires JointOK(j, image) && AR.Allowed(j.World(), o)
    ensures Sound(j, image, OnArray(o))
  {
    hide AR.WorldOK, AR.OnSequences, AR.Do, AR.Allowed, AR.View, RestOK, Framed, Keeps, Rest;
    if AR.Do(j.World(), o).Some? {
      AR.StepRefines(j.World(), o);
      ArrayFrames(j.World(), o);
      var w := AR.Do(j.World(), o).value;
      var j' := j.(h := w.h, arrays := w.arrays);
      assert j'.World() == w;
      FramedKeeps(j.World(), w);
      RestKept(Rest(j.World()), Rest(w), j, image);
      SameRest(Rest(w), j, j', image);
    }
  }

  lemma SameRest(h: Heap, j: Joint, j': Joint, image: Image)
    requires RestOK(h, j, image) && j'.strings == j.strings && j'.rodata == j.rodata && j'.syms == j.syms
    ensures RestOK(h, j', image)
  {
    hide StringsOK, SymsOK, RodataOK;
  }

  /** The heap has been added to. */
  lemma Added(j: Joint, image: Image, h': Heap)
    requires JointOK(j, image) && Extends(j.h, h')
    ensures var j' := j.(h := h');
      && JointOK(j', image) && View(j') == View(j)
      && j.h.grants <= h'.grants && Keeps(Since(j.h, h'), Rest(j'.World()))
  {
    hide AR.WorldOK, RestOK, AR.View, Keeps, Extends, Rest;
    var j' := j.(h := h');
    assert j'.World() == AR.World(h', j.World().arrays);
    WorldExtends(j.World(), h');
    RestExtends(j.World(), h');
    RestKept(Rest(j.World()), Rest(j'.World()), j, image);
    SameRest(Rest(j'.World()), j, j', image);
  }

  /** A string has been added. */
  lemma StringAdded(j: Joint, image: Image, h': Heap, p: nat, bs: seq<Byte>)
    requires JointOK(j, image) && p > 8 && IsString(h', p, bs) && Adds(j.h, h', p - 8, OVERHEAD + |bs|)
    ensures var j' := j.(h := h', strings := j.strings[p := bs]);
      JointOK(j', image) && View(j') == View(j) && Kept(j, j')
  {
    hide AR.WorldOK, IsString, Adds, SymsOK, RodataOK, AR.View, Keeps, Extends, Rest;
    StringSince(j.h, h', p, bs);
    Added(j, image, h');
    var j1, j' := j.(h := h'), j.(h := h', strings := j.strings[p := bs]);
    assert j'.World() == j1.World();
    StringKept(Since(j.h, h'), Rest(j'.World()), p, bs);
    JointHeap(j, image);
    NewIsUnheld(j, h', p, bs);
  }

  /** No string is already held at a fresh address. */
  lemma NewIsUnheld(j: Joint, h': Heap, p: nat, bs: seq<Byte>)
    requires StringsOK(j.h, j.strings) && Extends(j.h, h') && j.h.grants <= h'.grants && IsString(Since(j.h, h'), p, bs)
    ensures p !in j.strings
  {
    hide HeapOK, Word, Keeps;
    if p in j.strings {
      assert IsString(j.h, p, j.strings[p]);
      NewElsewhere(j.h, h', Grant(p - 8, OVERHEAD + |j.strings[p]|), Grant(p - 8, OVERHEAD + |bs|));
    }
  }

  lemma FromBytesStep(j: Joint, image: Image, op: Op)
    requires JointOK(j, image) && op.FromBytes? && Allowed(j, image, op)
    ensures Sound(j, image, op)
  {
    hide JointOK, IsString, Adds, FreshBlock, Space, FromRaw, AR.View;
    JointHeap(j, image);
    if Do(j, image, op).Some? {
      RawEffect(j.h, op.data, op.len, op.tag, op.base);
      var (h', p) := FromRaw(j.h, op.data, op.len, op.tag, op.base).value;
      if p != 0 { StringAdded(j, image, h', p, Get(j.h.mem, op.data, op.len)); }
      else { assert Do(j, image, op).value.0 == j; }
    }
  }

  lemma JoinStep(j: Joint, image: Image, op: Op)
    requires JointOK(j, image) && op.Join? && Allowed(j, image, op)
    ensures Sound(j, image, op)
  {
    hide JointOK, IsString, Adds, FreshBlock, Space, Concat, AR.View, HeapOK;
    JointHeap(j, image);
    if Do(j, image, op).Some? {
      ConcatEffect(j.h, op.a, op.b, j.strings[op.a], j.strings[op.b], op.tag, op.base);
      var (h', p) := Concat(j.h, op.a, op.b, op.tag, op.base).value;
      StringAdded(j, image, h', p, j.strings[op.a] + j.strings[op.b]);
    }
  }

  // ---- the caches ----

  lemma TablesHeap(r: Runtime, image: Image)
    requires RuntimeOK(r, image)
    ensures HeapOK(r.h) && SymsOK(r.h, r.syms) && RodataOK(r.h, r.rodata, image)
  {
    hide HeapOK, SymsOK, RodataOK;
  }

  /** A symbol has been added. */
  lemma SymbolAdded(j: Joint, image: Image, h': Heap, p: nat, name: seq<Byte>)
    requires JointOK(j, image) && Extends(j.h, h') && j.h.grants <= h'.grants && IsSymbol(Since(j.h, h'), p, name)
    requires forall i | 0 <= i < |j.syms| :: j.syms[i].0 != name
    ensures var j' := j.(h := h', syms := j.syms + [(name, p)]);
      JointOK(j', image) && View(j') == View(j) && Kept(j, j')
  {
    hide AR.WorldOK, IsSymbol, StringsOK, SymsOK, RodataOK, AR.View, Keeps, Extends, Rest;
    JointHeap(j, image);
    TablesHeap(j.Tables(), image);
    NewAddress(j.h, h', j.syms, p, name);
    Added(j, image, h');
    var j1, j' := j.(h := h'), j.(h := h', syms := j.syms + [(name, p)]);
    assert j'.World() == j1.World();
    SymbolKept(Since(j.h, h'), Rest(j'.World()), p, name);
    SymsGrow(Rest(j'.World()), j.syms, name, p);
  }

  /** A constant has been built. */
  lemma ConstantAdded(j: Joint, image: Image, h': Heap, p: nat, key: nat)
    requires JointOK(j, image) && Extends(j.h, h') && j.h.grants <= h'.grants && key in image && key !in j.rodata
    requires IsBlob(Since(j.h, h'), p, key, image[key])
    ensures var j' := j.(h := h', rodata := j.rodata[key := p]);
      JointOK(j', image) && View(j') == View(j) && Kept(j, j')
  {
    hide AR.WorldOK, IsBlob, StringsOK, SymsOK, AR.View, Keeps, Extends, Rest;
    Added(j, image, h');
    var j1, j' := j.(h := h'), j.(h := h', rodata := j.rodata[key := p]);
    assert j'.World() == j1.World();
    BlobKept(Since(j.h, h'), Rest(j'.World()), p, key, image[key]);
  }

  lemma SymbolStep(j: Joint, image: Image, op: Op)
    requires JointOK(j, image) && op.IsSymbol() && Allowed(j, image, op)
    ensures Sound(j, image, op)
  {
    hide JointOK, RuntimeOK, HeapOK, Intern, FreshBlock, Space, AR.View, IsSymbol, Extends;
    JointHeap(j, image);
    TablesHeap(j.Tables(), image);
    if Do(j, image, op).Some? {
      var name := op.use.name;
      InternStep(j.Tables(), name, op.use.tag, op.use.base);
      var (r', p) := Intern(j.Tables(), name, op.use.tag, op.use.base).value;
      if FindSym(j.syms, name, 0).None? {
        ExtendsOK(j.h, r'.h);
        SymbolAdded(j, image, r'.h, p, name);
      } else {
        assert Do(j, image, op).value.0 == j;
      }
    }
  }

  lemma ConstantStep(j: Joint, image: Image, op: Op)
    requires JointOK(j, image) && op.OnCaches? && op.use.Constant? && Allowed(j, image, op)
    ensures Sound(j, image, op)
  {
    hide JointOK, RuntimeOK, HeapOK, Build, Buildable, AR.View, IsBlob, Extends;
    JointHeap(j, image);
    TablesHeap(j.Tables(), image);
    if Do(j, image, op).Some? {
      var key, offers := op.use.key, op.use.offers;
      var (r', p) := Fetch(j.Tables(), image, key, op.use.tag, op.use.textTag, offers).value;
      if image[key].IsNull(key) || key in j.rodata {
        assert Do(j, image, op).value.0 == j;
      } else {
        FetchStep(j.Tables(), image, key, op.use.tag, op.use.textTag, offers);
        ExtendsOK(j.h, r'.h);
        ConstantAdded(j, image, r'.h, p, key);
      }
    }
  }

  lemma ScratchStep(j: Joint, image: Image, op: Op)
    requires JointOK(j, image) && op.OnCaches? && op.use.Scratch? && Allowed(j, image, op)
    ensures Sound(j, image, op)
  {
    hide JointOK, RuntimeOK, HeapOK, CopyBytes, FreshBlock, Space, AR.View, Extends;
    JointHeap(j, image);
    TablesHeap(j.Tables(), image);
    if Do(j, image, op).Some? {
      CopyEffect(j.h, op.use.data, op.use.base);
      Added(j, image, CopyBytes(j.h, op.use.data, op.use.base).value.0);
    }
  }

  lemma CleanStep(j: Joint, image: Image, op: Op)
    requires JointOK(j, image) && op.IsReset()
    ensures Sound(j, image, op)
  {
    hide HeapOK, AR.WorldOK, Rest;
    JointHeap(j, image);
    CleanOK(j.Tables(), image);
    var r' := Caches.ResetAll(j.Tables());
    NoArrays(AR.World(r'.h, map[]));
  }

  lemma NoArrays(w: AR.World)
    requires w.arrays == map[] && HeapOK(w.h)
    ensures AR.WorldOK(w) && AR.View(w) == map[]
  {
    hide HeapOK;
  }

  // ---- runs ----

  /** Whatever the operation, everything stays intact, and only what it is for changes. */
  lemma StepSound(j: Joint, image: Image, op: Op)
    requires JointOK(j, image) && Allowed(j, image, op)
    ensures Sound(j, image, op)
  {
    hide JointOK, Sound, Allowed;
    match op
    case OnArray(o) => ArrayAllowed(j, image, o); ArrayStep(j, image, o);
    case OnCaches(Symbol(_, _, _)) => SymbolStep(j, image, op);
    case OnCaches(Constant(_, _, _, _)) => ConstantStep(j, image, op);
    case OnCaches(Scratch(_, _)) => ScratchStep(j, image, op);
    case OnCaches(Clean) => CleanStep(j, image, op);
    case FromBytes(_, _, _, _) => FromBytesStep(j, image, op);
    case Join(_, _, _, _) => JoinStep(j, image, op);
  }

  lemma ArrayAllowed(j: Joint, image: Image, o: AR.Op)
    requires Allowed(j, image, OnArray(o))
    ensures AR.Allowed(j.World(), o)
  {
    hide AR.Allowed;
  }

  /** A run from the empty heap: states passed through, operations, and addresses returned. */
  ghost predicate IsRun(js: seq<Joint>, image: Image, ops: seq<Op>, ps: seq<nat>) {
    && |js| == |ops| + 1 && |ps| == |ops|
    && js[0].h.arena == EMPTY && js[0].h.grants == []
    && js[0].arrays == map[] && js[0].rodata == map[] && js[0].syms == [] && js[0].strings == map[]
    && forall i | 0 <= i < |ops| ::
        Allowed(js[i], image, ops[i]) && Do(js[i], image, ops[i]) == Some((js[i + 1], ps[i]))
  }

  /** Every run: arrays do what sequences do, strings keep their bytes, caches stay current, and a reset
      forgets all of them at once. */
  lemma {:induction false} RunSound(js: seq<Joint>, image: Image, ops: seq<Op>, ps: seq<nat>, n: nat)
    requires IsRun(js, image, ops, ps) && n <= |ops|
    ensures JointOK(js[n], image)
    ensures forall i | 0 <= i < n :: Effect(js[i], image, ops[i], js[i + 1], ps[i])
  {
    hide JointOK, Effect, Allowed, Do;
    if n == 0 {
      StartOK(js[0], image);
    } else {
      RunSound(js, image, ops, ps, n - 1);
      assert Allowed(js[n - 1], image, ops[n - 1])
        && Do(js[n - 1], image, ops[n - 1]) == Some((js[n - 1 + 1], ps[n - 1]));
      StepSound(js[n - 1], image, ops[n - 1]);
    }
  }

  lemma StartOK(j: Joint, image: Image)
    requires j.h.arena == EMPTY && j.h.grants == []
    requires j.arrays == map[] && j.rodata == map[] && j.syms == [] && j.strings == map[]
    ensures JointOK(j, image)
  {
    EmptyHeap(j.h);
    hide HeapOK;
  }

  lemma EmptyHeap(h: Heap)
    requires h.arena == EMPTY && h.grants == []
    ensures HeapOK(h)
  {
  }

  /** What was held or cached is held and cached until the next reset. */
  lemma {:induction false} RunKeeps(js: seq<Joint>, image: Image, ops: seq<Op>, ps: seq<nat>, i: nat, k: nat)
    requires IsRun(js, image, ops, ps) && i <= k <= |ops| && forall m | i <= m < k :: !ops[m].IsReset()
    ensures Kept(js[i], js[k])
    decreases k
  {
    hide JointOK, Allowed, Do, AR.OnSequences, AR.View;
    if i < k {
      RunKeeps(js, image, ops, ps, i, k - 1);
      RunSound(js, image, ops, ps, k);
      assert Effect(js[k - 1], image, ops[k - 1], js[k - 1 + 1], ps[k - 1]);
    }
  }

  /** Until the next reset, a string holds its bytes at its address, whatever arrays, strings and caches do
      in between. */
  lemma StringsLast(js: seq<Joint>, image: Image, ops: seq<Op>, ps: seq<nat>, i: nat, k: nat, p: nat)
    requires IsRun(js, image, ops, ps) && i <= k <= |ops| && p in js[i].strings
    requires forall m | i <= m < k :: !ops[m].IsReset()
    ensures IsString(js[k].h, p, js[i].strings[p])
    ensures p in js[k].strings && js[k].strings[p] == js[i].strings[p]
  {
    hide JointOK, Allowed, Do, IsString, Effect;
    RunSound(js, image, ops, ps, k);
    RunKeeps(js, image, ops, ps, i, k);
    JointHeap(js[k], image);
  }

  /** No cached pointer is stale in any state of any run, nor any pointer inside a cached dictionary. */
  lemma CachesLive(js: seq<Joint>, image: Image, ops: seq<Op>, ps: seq<nat>, n: nat)
    requires IsRun(js, image, ops, ps) && n <= |ops|
    ensures forall k | k in js[n].rodata :: k in image && BlobLive(js[n].h, js[n].rodata[k], image[k])
    ensures forall i | 0 <= i < |js[n].syms| :: Live(js[n].h, js[n].syms[i].1)
  {
    hide JointOK, Allowed, Do, Live, BlobLive, RuntimeOK, Effect;
    RunSound(js, image, ops, ps, n);
    JointHeap(js[n], image);
    CachedLive(js[n].Tables(), image);
  }

  /** In every state of every run, a reset would give all blocks back under the layouts they were allocated
      with. */
  lemma RunsFreeAsAllocated(js: seq<Joint>, image: Image, ops: seq<Op>, ps: seq<nat>, n: nat)
    requires IsRun(js, image, ops, ps) && n <= |ops|
    ensures Reset(js[n].h.arena).1 == js[n].h.arena.blocks
  {
    hide JointOK, Allowed, Do, Effect, RuntimeOK, StringsOK, HeapOK;
    RunSound(js, image, ops, ps, n);
    JointHeap(js[n], image);
    FreesAsAllocated(js[n].h);
  }

  // ---- identity ----

  /** Between resets, whatever else a program does, symbols are the same object exactly when their names are
      equal. */
  lemma SymbolsByIdentity(js: seq<Joint>, image: Image, ops: seq<Op>, ps: seq<nat>, i: nat, k: nat)
    requires IsRun(js, image, ops, ps) && i < k < |ops| && ops[i].IsSymbol() && ops[k].IsSymbol()
    requires forall m | i <= m <= k :: !ops[m].IsReset()
    ensures ops[i].use.name == ops[k].use.name <==> ps[i] == ps[k]
  {
    hide JointOK, Allowed, Do, AR.View, SymsOK, StringsOK, RodataOK, HeapOK;
    RunSound(js, image, ops, ps, k + 1);
    assert Effect(js[i], image, ops[i], js[i + 1], ps[i]) && Effect(js[k], image, ops[k], js[k + 1], ps[k]);
    RunKeeps(js, image, ops, ps, i + 1, k + 1);
    JointHeap(js[k + 1], image);
    SymUnique(js[k + 1].h, js[k + 1].syms, ops[i].use.name, ps[i], ops[k].use.name, ps[k]);
  }

  /** Between resets, whatever else a program does, a constant is one object, with its blob's contents at
      every use; later uses change nothing at all. */
  lemma ConstantsBuiltOnce(js: seq<Joint>, image: Image, ops: seq<Op>, ps: seq<nat>, i: nat, k: nat)
    requires IsRun(js, image, ops, ps) && i < k < |ops|
    requires ops[i].IsConstant(image) && ops[k].IsConstant(image) && ops[i].use.key == ops[k].use.key
    requires forall m | i <= m <= k :: !ops[m].IsReset()
    ensures ps[i] == ps[k] && js[k + 1] == js[k] && IsBlob(js[k].h, ps[k], ops[i].use.key, image[ops[i].use.key])
  {
    hide JointOK, Allowed, Do, AR.View, SymsOK, StringsOK, HeapOK, IsBlob;
    RunSound(js, image, ops, ps, k + 1);
    RunSound(js, image, ops, ps, k);
    assert Effect(js[i], image, ops[i], js[i + 1], ps[i]) && Effect(js[k], image, ops[k], js[k + 1], ps[k]);
    RunKeeps(js, image, ops, ps, i + 1, k);
    JointHeap(js[k], image);
  }

  /** In every state of every run, what is cached has its blob's contents, word by word. */
  lemma ConstantsHold(js: seq<Joint>, image: Image, ops: seq<Op>, ps: seq<nat>, n: nat, key: nat)
    requires IsRun(js, image, ops, ps) && n <= |ops| && key in js[n].rodata
    ensures key in image && Contents(js[n].h, js[n].rodata[key], key, image[key])
  {
    hide JointOK, Allowed, Do, Effect, HeapOK, StringsOK, SymsOK, IsBlob, Contents;
    RunSound(js, image, ops, ps, n);
    JointHeap(js[n], image);
    BlobContents(js[n].h, js[n].rodata[key], key, image[key]);
  }

  // ---- dictionaries ----

  lemma CachedDictionary(j: Joint, image: Image, key: nat)
    requires JointOK(j, image) && key in j.rodata && key in image && image[key].Dict?
    ensures D.IsDictionary(j.h, j.rodata[key], key, image[key].dict)
  {
    hide JointOK, HeapOK, StringsOK, SymsOK, D.IsDictionary;
    JointHeap(j, image);
    assert IsBlob(j.h, j.rodata[key], key, image[key]);
  }

  /** In every state of every run, a cached dictionary's string columns hold the tables they were serialised
      from, slot by slot: the string, or null for an empty slot and for the empty string. */
  lemma DictionariesHold(js: seq<Joint>, image: Image, ops: seq<Op>, ps: seq<nat>, n: nat, key: nat, t: CT.Table,
                         rest: seq<Byte>)
    requires IsRun(js, image, ops, ps) && n <= |ops| && key in js[n].rodata && key in image && image[key].Dict?
    requires CT.Encodable(t) && image[key].dict.nslots == |t|
    ensures D.HoldsTable(js[n].h, js[n].rodata[key], image[key].dict, t, rest)
  {
    hide JointOK, Allowed, Do, Effect, D.IsDictionary, D.HoldsTable, CT.Encodable;
    RunSound(js, image, ops, ps, n);
    CachedDictionary(js[n], image, key);
    D.DictionaryHolds(js[n].h, js[n].rodata[key], key, image[key].dict, t, rest);
  }
}

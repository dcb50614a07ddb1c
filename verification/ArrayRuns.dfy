/** Whole runs over many arrays that share the heap: what programs see of the arrays is a map of plain
    sequences, and no operation on one array disturbs another. */
module ArrayRuns {
  import opened Wrappers
  import opened Words
  import opened Arena
  import opened Heap
  import opened Arrays
  import opened ArrayOps

  datatype World = World(h: Heap, arrays: map<nat, Shape>)

  /** No two arrays share a region. */
  ghost predicate Separate(arrays: map<nat, Shape>) {
    && (forall a, b | a in arrays && b in arrays :: a - HEADER != arrays[b].buf)
    && (forall a, b | a in arrays && b in arrays && a != b :: arrays[a].buf != arrays[b].buf)
  }

  /** Every array is intact, and no two arrays share a region. */
  ghost predicate WorldOK(w: World) {
    && HeapOK(w.h)
    && (forall a | a in w.arrays :: ArrayOK(w.h, a, w.arrays[a]))
    && Separate(w.arrays)
  }

  /** What programs see. */
  ghost function View(w: World): map<nat, seq<Elem>> {
    map a | a in w.arrays :: Items(w.h.mem, a, w.arrays[a].es)
  }

  // ---- frames ----

  /** Array b, and the regions that hold it, lie apart from array a and from n bytes at p. */
  lemma RegionsApart(w: World, a: nat, b: nat, p: nat, n: nat)
    requires WorldOK(w) && a in w.arrays && b in w.arrays && a != b && (n > 0 ==> Clear(w.h, p, n))
    ensures var s, t := w.arrays[a], w.arrays[b];
      && Arena.Apart(a, REPR, b, REPR) && Arena.Apart(a, REPR, t.buf, BufSize(t))
      && Arena.Apart(s.buf, BufSize(s), b, REPR) && Arena.Apart(s.buf, BufSize(s), t.buf, BufSize(t))
      && (n > 0 ==> Arena.Apart(p, n, b, REPR) && Arena.Apart(p, n, t.buf, BufSize(t)))
  {
    hide Word, HeapOK;
    var s, t := w.arrays[a], w.arrays[b];
    var ga, gb := Grant(a - HEADER, HEADER + REPR), Grant(b - HEADER, HEADER + REPR);
    var ha, hb := Grant(s.buf, BufSize(s)), Grant(t.buf, BufSize(t));
    GrantsDisjoint(w.h, ga, gb);
    GrantsDisjoint(w.h, ga, hb);
    GrantsDisjoint(w.h, ha, gb);
    GrantsDisjoint(w.h, ha, hb);
  }

  /** What is confined to array a and a clear region leaves array b alone. */
  lemma OtherKept(w: World, h': Heap, a: nat, b: nat, p: nat, n: nat)
    requires WorldOK(w) && a in w.arrays && b in w.arrays && a != b && (n > 0 ==> Clear(w.h, p, n))
    requires Confined(w.h.mem, h'.mem, a, w.arrays[a], p, n) && forall g | g in w.h.grants :: g in h'.grants
    ensures ArrayOK(h', b, w.arrays[b]) && Items(h'.mem, b, w.arrays[b].es) == Items(w.h.mem, b, w.arrays[b].es)
  {
    hide ArrayOK, HeapOK, Items, Clear;
    RegionsApart(w, a, b, p, n);
    var t := w.arrays[b];
    assert SameOn(w.h.mem, h'.mem, b, REPR);
    assert SameOn(w.h.mem, h'.mem, t.buf, BufSize(t));
    ArrayUntouched(w.h, h', b, t);
  }

  /** An operation on array a that keeps its buffer, and changes its elements to items. */
  lemma SameBuffer(w: World, h': Heap, a: nat, s': Shape, items: seq<Elem>)
    requires WorldOK(w) && a in w.arrays && s'.buf == w.arrays[a].buf && s'.es == w.arrays[a].es
    requires h'.grants == w.h.grants && h'.arena == w.h.arena && ArrayOK(h', a, s') && Items(h'.mem, a, s'.es) == items
    requires Confined(w.h.mem, h'.mem, a, w.arrays[a], 0, 0)
    ensures var w' := World(h', w.arrays[a := s']); WorldOK(w') && View(w') == View(w)[a := items]
  {
    hide Items, Confined, ArrayOK, HeapOK, View, Separate;
    forall b | b in w.arrays && b != a
      ensures ArrayOK(h', b, w.arrays[b]) && Items(h'.mem, b, w.arrays[b].es) == Items(w.h.mem, b, w.arrays[b].es)
    {
      OtherKept(w, h', a, b, 0, 0);
    }
    HeapKept(w.h, h');
    SeparateKept(w.arrays, a, s');
    ViewChanged(w, World(h', w.arrays[a := s']), a);
  }

  lemma SeparateKept(arrays: map<nat, Shape>, a: nat, s': Shape)
    requires Separate(arrays) && a in arrays && s'.buf == arrays[a].buf
    ensures Separate(arrays[a := s'])
  {
  }

  lemma HeapKept(h: Heap, h': Heap)
    requires HeapOK(h) && h'.grants == h.grants && h'.arena == h.arena
    ensures HeapOK(h')
  {
    hide Inv;
  }

  lemma ViewChanged(w: World, w': World, a: nat)
    requires a in w.arrays && w'.arrays.Keys == w.arrays.Keys
    requires forall b | b in w.arrays && b != a ::
      w'.arrays[b].es == w.arrays[b].es && Items(w'.h.mem, b, w.arrays[b].es) == Items(w.h.mem, b, w.arrays[b].es)
    ensures View(w') == View(w)[a := Items(w'.h.mem, a, w'.arrays[a].es)]
  {
    hide Items;
  }

  // ---- operations ----

  datatype Op =
    | New(count: nat, es: nat, memTag: nat, tag: nat, base: nat, base': nat)
    | Grow(a: nat, delta: int, base: nat)
    | Shrink(a: nat, dec: int)
    | ResizeTo(a: nat, n: int, base: nat)
    | Compact(a: nat, drop: nat)
    | Assign(a: nat, i: nat, e: Elem)

  function Positive(x: int): nat { if x > 0 then x else 0 }

  /** All but the last dec elements, or none. */
  function Shortened(x: seq<Elem>, dec: int): seq<Elem> {
    x[..Positive(|x| - Positive(dec))]
  }

  /** The shape after a growth. */
  function GrownShape(w: World, a: nat, newLen: nat, h': Heap): Shape
    requires a in w.arrays
  {
    if |h'.grants| == 0 then w.arrays[a] else Shape(w.arrays[a].es, h'.grants[|h'.grants| - 1].addr, newLen, 0)
  }

  /** What a program must respect, and what the system allocator promises. */
  ghost predicate Allowed(w: World, op: Op) {
    match op
    case New(n, es, _, tag, base, base') =>
      && es > 0 && tag != 0 && n < Limit() && Usable(w.h, base, 16 + Span(n, es))
      && (NewMemory(w.h, n, es, op.memTag, base).Some? ==>
            Usable(NewMemory(w.h, n, es, op.memTag, base).value.0, base', HEADER + REPR))
    case Grow(a, delta, base) =>
      && a in w.arrays && Offered(base, ALIGN)
      && (delta > 0 ==> Usable(w.h, base, 16 + Span(Length(w.h.mem, a) + delta, w.arrays[a].es)))
    case Shrink(a, _) => a in w.arrays
    case ResizeTo(a, n, base) =>
      && a in w.arrays && Offered(base, ALIGN)
      && (n > Length(w.h.mem, a) ==> Usable(w.h, base, 16 + Span(n, w.arrays[a].es)))
    case Compact(a, delta) => a in w.arrays && delta <= Length(w.h.mem, a)
    case Assign(a, i, e) => a in w.arrays && i < Length(w.h.mem, a) && |e| <= w.arrays[a].es
  }

  ghost function GrowBy(w: World, a: nat, delta: int, base: nat): Option<World>
    requires a in w.arrays && Offered(base, ALIGN)
  {
    match GrowEnd(w.h, a, delta, w.arrays[a].es, base)
    case None => None
    case Some(h') =>
      Some(World(h', if delta > 0 then w.arrays[a := GrownShape(w, a, Length(w.h.mem, a) + delta, h')] else w.arrays))
  }

  /** None is an allocation that panics. */
  ghost function Do(w: World, op: Op): Option<World>
    requires Allowed(w, op)
  {
    match op
    case New(n, es, memTag, tag, base, base') =>
      (match NewMemory(w.h, n, es, memTag, base)
       case None => None
       case Some((h1, elems)) =>
         if elems < 8 then None
         else match NewArray(h1, tag, elems, n, base')
           case None => None
           case Some((h2, a)) =>
             if elems < 16 then None else Some(World(h2, w.arrays[a := Shape(es, elems - 16, n, 0)])))
    case Grow(a, delta, base) => GrowBy(w, a, delta, base)
    case Shrink(a, dec) => Some(World(DelEnd(w.h, a, dec, w.arrays[a].es), w.arrays))
    case ResizeTo(a, n, base) =>
      (match Resize(w.h, a, n, w.arrays[a].es, base)
       case None => None
       case Some(h') =>
         Some(World(h', if n > Length(w.h.mem, a) then w.arrays[a := GrownShape(w, a, n, h')] else w.arrays)))
    case Compact(a, delta) =>
      var s := w.arrays[a];
      Some(World(CompactFront(w.h, a, delta, s.es), w.arrays[a := s.(off := s.off + delta)]))
    case Assign(a, i, e) => Some(World(SetItem(w.h, a, i, e, w.arrays[a].es), w.arrays))
  }

  // ---- the same operations on plain sequences ----

  /** Array a grew to n elements, keeping those it had; no other array changed. */
  ghost predicate Extended(x: map<nat, seq<Elem>>, y: map<nat, seq<Elem>>, a: nat, n: nat)
    requires a in x
  {
    a in y && y == x[a := y[a]] && |y[a]| == n && x[a] <= y[a]
  }

  ghost predicate OnSequences(x: map<nat, seq<Elem>>, op: Op, y: map<nat, seq<Elem>>) {
    match op
    case New(n, _, _, _, _, _) => exists a :: a !in x && a in y && y == x[a := y[a]] && |y[a]| == n
    case Grow(a, delta, _) => a in x && Extended(x, y, a, |x[a]| + Positive(delta))
    case Shrink(a, dec) => a in x && y == x[a := Shortened(x[a], dec)]
    case ResizeTo(a, n, _) =>
      a in x && if n > |x[a]| then Extended(x, y, a, n) else y == x[a := x[a][..Positive(n)]]
    case Compact(a, delta) => a in x && delta <= |x[a]| && y == x[a := x[a][delta..]]
    case Assign(a, i, e) =>
      a in x && i < |x[a]| && |e| <= |x[a][i]| && y == x[a := x[a][i := Overwritten(x[a][i], e)]]
  }

  // ---- each operation does on the heap what it does on sequences ----

  /** Array a moved to the region just granted. */
  lemma GrowRefines(w: World, a: nat, delta: int, base: nat)
    requires WorldOK(w) && a in w.arrays && delta > 0
    requires Usable(w.h, base, 16 + Span(Length(w.h.mem, a) + delta, w.arrays[a].es)) && GrowBy(w, a, delta, base).Some?
    ensures var w' := GrowBy(w, a, delta, base).value;
      WorldOK(w') && Extended(View(w), View(w'), a, Length(w.h.mem, a) + delta)
  {
    hide Items, Confined, Inv, ArrayOK, Clear, FreshBlock, GrowEnd, GrantsApart, Word, Span, Limit, Space;
    var s := w.arrays[a];
    GrowEffect(w.h, a, s, delta, base);
    var w' := GrowBy(w, a, delta, base).value;
    var g := w'.h.grants[|w'.h.grants| - 1];
    forall b | b in w.arrays && b != a
      ensures ArrayOK(w'.h, b, w.arrays[b]) && Items(w'.h.mem, b, w.arrays[b].es) == Items(w.h.mem, b, w.arrays[b].es)
    {
      OtherKept(w, w'.h, a, b, g.addr, g.size);
    }
    FreshAddress(w, g.addr, g.size);
    MovedBuffer(w, w', a, g);
    ViewGrown(w, w', a, s.es);
  }

  /** A clear, non-empty region starts at no array's header or buffer. */
  lemma FreshAddress(w: World, p: nat, n: nat)
    requires WorldOK(w) && n > 0 && Clear(w.h, p, n)
    ensures forall b | b in w.arrays :: b - HEADER != p && w.arrays[b].buf != p
  {
    hide Word, Inv;
    forall b | b in w.arrays ensures b - HEADER != p && w.arrays[b].buf != p {
      assert Grant(b - HEADER, HEADER + REPR) in w.h.grants
        && Grant(w.arrays[b].buf, BufSize(w.arrays[b])) in w.h.grants;
    }
  }

  lemma MovedBuffer(w: World, w': World, a: nat, g: Grant)
    requires WorldOK(w) && a in w.arrays && HeapOK(w'.h) && w'.arrays.Keys == w.arrays.Keys
    requires w'.arrays[a].buf == g.addr && forall b | b in w.arrays && b != a :: w'.arrays[b] == w.arrays[b]
    requires forall b | b in w.arrays :: ArrayOK(w'.h, b, w'.arrays[b])
    requires forall b | b in w.arrays :: b - HEADER != g.addr && w.arrays[b].buf != g.addr
    ensures WorldOK(w')
  {
    hide HeapOK, ArrayOK;
  }

  lemma ViewGrown(w: World, w': World, a: nat, es: nat)
    requires a in w.arrays && w.arrays[a].es == es && w'.arrays.Keys == w.arrays.Keys && w'.arrays[a].es == es
    requires forall b | b in w.arrays && b != a ::
      w'.arrays[b].es == w.arrays[b].es && Items(w'.h.mem, b, w.arrays[b].es) == Items(w.h.mem, b, w.arrays[b].es)
    requires Length(w.h.mem, a) <= Length(w'.h.mem, a)
    requires Items(w'.h.mem, a, es)[..Length(w.h.mem, a)] == Items(w.h.mem, a, es)
    ensures Extended(View(w), View(w'), a, Length(w'.h.mem, a))
  {
    hide Items, View;
    ViewAt(w, a);
    ViewAt(w', a);
    ViewChanged(w, w', a);
  }

  lemma ViewAt(w: World, a: nat)
    requires a in w.arrays
    ensures a in View(w) && View(w)[a] == Items(w.h.mem, a, w.arrays[a].es) && |View(w)[a]| == Length(w.h.mem, a)
  {
    hide Items;
  }

  lemma ShrinkRefines(w: World, a: nat, dec: int)
    requires WorldOK(w) && a in w.arrays
    ensures a in View(w)
    ensures var w' := World(DelEnd(w.h, a, dec, w.arrays[a].es), w.arrays);
      WorldOK(w') && View(w') == View(w)[a := Shortened(View(w)[a], dec)]
  {
    hide Items, Confined, Inv, DelEnd, Word, View, ArrayOK;
    var s := w.arrays[a];
    ViewAt(w, a);
    if dec > 0 {
      DelEffect(w.h, a, s, dec);
      SameBuffer(w, DelEnd(w.h, a, dec, s.es), a, s, Items(w.h.mem, a, s.es)[..Positive(Length(w.h.mem, a) - dec)]);
      assert w.arrays[a := s] == w.arrays;
    } else {
      DelNothing(w.h, a, dec, s.es);
      UpdateSame(View(w), a);
    }
  }

  lemma UpdateSame(x: map<nat, seq<Elem>>, a: nat)
    requires a in x
    ensures x[a := x[a][..|x[a]|]] == x
  {
    assert x[a][..|x[a]|] == x[a];
  }

  lemma DelNothing(h: Heap, a: nat, dec: int, es: nat)
    requires dec <= 0
    ensures DelEnd(h, a, dec, es) == h
  {
  }

  /** A resize is a growth or a deletion. */
  lemma ResizeDefines(w: World, op: Op)
    requires WorldOK(w) && op.ResizeTo? && Allowed(w, op)
    ensures var len := Length(w.h.mem, op.a);
      Do(w, op) == if op.n > len then GrowBy(w, op.a, op.n - len, op.base)
        else Some(World(DelEnd(w.h, op.a, len - Positive(op.n), w.arrays[op.a].es), w.arrays))
  {
    hide Items, Inv, ArrayOK, DelEnd, GrowEnd, Word, FreshBlock, Limit, HeapOK, Span;
    NotNull(w, op.a);
    if Positive(op.n) == Length(w.h.mem, op.a) { DelNothing(w.h, op.a, 0, w.arrays[op.a].es); }
  }

  lemma ResizeRefines(w: World, op: Op)
    requires WorldOK(w) && op.ResizeTo? && Allowed(w, op) && Do(w, op).Some?
    ensures var w' := Do(w, op).value; WorldOK(w') && OnSequences(View(w), op, View(w'))
  {
    hide WorldOK, Items, GrowEnd, Word, FreshBlock, Span, View, GrowBy, Do, Extended;
    var len := Length(w.h.mem, op.a);
    ResizeDefines(w, op);
    ViewAt(w, op.a);
    if op.n > len {
      GrowRefines(w, op.a, op.n - len, op.base);
    } else {
      ShrinkRefines(w, op.a, len - Positive(op.n));
      TakeLess(View(w)[op.a], op.n);
    }
  }

  lemma TakeLess(x: seq<Elem>, n: int)
    requires n <= |x|
    ensures Positive(|x| - Positive(|x| - Positive(n))) == Positive(n)
  {
  }

  lemma NotNull(w: World, a: nat)
    requires WorldOK(w) && a in w.arrays
    ensures a >= HEADER
  {
    hide HeapOK, Word;
  }

  lemma CompactRefines(w: World, a: nat, drop: nat)
    requires WorldOK(w) && a in w.arrays && drop <= Length(w.h.mem, a)
    ensures var s := w.arrays[a];
      var w' := World(CompactFront(w.h, a, drop, s.es), w.arrays[a := s.(off := s.off + drop)]);
      WorldOK(w') && View(w') == View(w)[a := View(w)[a][drop..]]
  {
    hide Items, Confined, Inv, ArrayOK, CompactFront, Word;
    var s := w.arrays[a];
    CompactEffect(w.h, a, s, drop);
    SameBuffer(w, CompactFront(w.h, a, drop, s.es), a, s.(off := s.off + drop), Items(w.h.mem, a, s.es)[drop..]);
  }

  lemma AssignRefines(w: World, a: nat, i: nat, e: Elem)
    requires WorldOK(w) && a in w.arrays && i < Length(w.h.mem, a) && |e| <= w.arrays[a].es
    ensures a in View(w) && i < |View(w)[a]| && |e| <= |View(w)[a][i]|
    ensures var w' := World(SetItem(w.h, a, i, e, w.arrays[a].es), w.arrays);
      WorldOK(w') && View(w') == View(w)[a := View(w)[a][i := Overwritten(View(w)[a][i], e)]]
  {
    hide Items, Confined, Inv, ArrayOK, SetItem, Word, View, Overwritten;
    var s := w.arrays[a];
    ViewAt(w, a);
    AssignEffect(w.h, a, s, i, e);
    var items := Items(w.h.mem, a, s.es);
    SameBuffer(w, SetItem(w.h, a, i, e, s.es), a, s, items[i := Overwritten(items[i], e)]);
    assert w.arrays[a := s] == w.arrays;
  }

  // ---- creation ----

  /** Bytes outside two clear regions are the same, so every array is. */
  lemma AllKept(w: World, h': Heap, p: nat, n: nat, q: nat, k: nat)
    requires WorldOK(w) && Clear(w.h, p, n) && Clear(w.h, q, k) && forall g | g in w.h.grants :: g in h'.grants
    requires forall x: nat | !(p <= x < p + n) && !(q <= x < q + k) :: h'.mem(x) == w.h.mem(x)
    ensures forall b | b in w.arrays ::
      ArrayOK(h', b, w.arrays[b]) && Items(h'.mem, b, w.arrays[b].es) == Items(w.h.mem, b, w.arrays[b].es)
  {
    hide HeapOK, Items, Word;
    forall b | b in w.arrays
      ensures ArrayOK(h', b, w.arrays[b]) && Items(h'.mem, b, w.arrays[b].es) == Items(w.h.mem, b, w.arrays[b].es)
    {
      var t := w.arrays[b];
      assert Grant(b - HEADER, HEADER + REPR) in w.h.grants && Grant(t.buf, BufSize(t)) in w.h.grants;
      assert SameOn(w.h.mem, h'.mem, b, REPR);
      assert SameOn(w.h.mem, h'.mem, t.buf, BufSize(t));
      ArrayUntouched(w.h, h', b, t);
    }
  }

  lemma NewRefines(w: World, op: Op)
    requires WorldOK(w) && op.New? && Allowed(w, op) && Do(w, op).Some?
    ensures var w' := Do(w, op).value; WorldOK(w') && OnSequences(View(w), op, View(w'))
  {
    hide Items, Inv, Clear, FreshBlock, Word, Span, Limit, Space, NewMemory, NewArray, GrantsApart, ArrayOK;
    var size := 16 + Span(op.count, op.es);
    MemoryEffect(w.h, op.count, op.es, op.memTag, op.base);
    var (h1, elems) := NewMemory(w.h, op.count, op.es, op.memTag, op.base).value;
    var (h2, a) := NewArray(h1, op.tag, elems, op.count, op.base').value;
    WrapperEffect(h1, op.tag, elems, op.count, op.base');
    ClearBefore(w.h, h1, a - HEADER, HEADER + REPR);
    AllKept(w, h2, elems - 16, size, a - HEADER, HEADER + REPR);
    FreshAddress(w, elems - 16, size);
    FreshAddress(w, a - HEADER, HEADER + REPR);
    NewHeader(h1, h2, a, elems - 16, size);
    NewArrayOK(h1, h2, a, elems, op.count, op.es);
    NewWorld(w, World(h2, w.arrays[a := Shape(op.es, elems - 16, op.count, 0)]), a);
  }

  /** The objects a new array consists of: its type tag and header, and behind its Memory pointer the
      Memory's length, after its type tag. */
  lemma NewObjects(w: World, op: Op)
    requires WorldOK(w) && op.New? && Allowed(w, op) && Do(w, op).Some?
    ensures var w' := Do(w, op).value;
      exists a :: a !in w.arrays && a in w'.arrays && a >= HEADER && MemObj(w'.h.mem, a) >= 8
        && Length(w'.h.mem, a) == op.count == Capacity(w'.h.mem, a)
        && ElemPtr(w'.h.mem, a) == MemObj(w'.h.mem, a) + 8 && Word(w'.h.mem, MemObj(w'.h.mem, a)) == op.count
        && (op.tag < Limit() ==> Word(w'.h.mem, a - 8) == op.tag)
        && (op.memTag < Limit() ==> Word(w'.h.mem, MemObj(w'.h.mem, a) - 8) == op.memTag)
  {
    hide Items, Inv, Clear, FreshBlock, Word, Span, Limit, Space, NewMemory, NewArray, GrantsApart, ArrayOK;
    var size := 16 + Span(op.count, op.es);
    MemoryEffect(w.h, op.count, op.es, op.memTag, op.base);
    var (h1, elems) := NewMemory(w.h, op.count, op.es, op.memTag, op.base).value;
    var (h2, a) := NewArray(h1, op.tag, elems, op.count, op.base').value;
    WrapperEffect(h1, op.tag, elems, op.count, op.base');
    NewAddress(w, h1, a);
    BehindHeader(h1, h2, a, elems, size);
    assert a in Do(w, op).value.arrays;
  }

  lemma NewAddress(w: World, h1: Heap, a: nat)
    requires WorldOK(w) && a > HEADER && Clear(h1, a - HEADER, HEADER + REPR)
    requires forall g | g in w.h.grants :: g in h1.grants
    ensures a !in w.arrays
  {
    hide Word, HeapOK;
    forall b | b in w.arrays ensures b != a { assert Grant(b - HEADER, HEADER + REPR) in h1.grants; }
  }

  /** The new header leaves the Memory's two words as they were. */
  lemma BehindHeader(h1: Heap, h2: Heap, a: nat, elems: nat, size: nat)
    requires a > HEADER && elems > 16 && size >= 16 && Grant(elems - 16, size) in h1.grants
    requires Clear(h1, a - HEADER, HEADER + REPR)
    requires forall x: nat | !(a - HEADER <= x < a + REPR) :: h2.mem(x) == h1.mem(x)
    ensures Word(h2.mem, elems - 8) == Word(h1.mem, elems - 8) && Word(h2.mem, elems - 16) == Word(h1.mem, elems - 16)
  {
    hide Word;
    WordSame(h1.mem, h2.mem, elems - 8);
    WordSame(h1.mem, h2.mem, elems - 16);
  }

  lemma ClearBefore(h: Heap, h1: Heap, p: nat, n: nat)
    requires Clear(h1, p, n) && forall g | g in h.grants :: g in h1.grants
    ensures Clear(h, p, n)
  {
  }

  lemma NewHeader(h1: Heap, h2: Heap, a: nat, p: nat, size: nat)
    requires a > HEADER && size > 0 && Grant(p, size) in h1.grants && Clear(h1, a - HEADER, HEADER + REPR)
    ensures a - HEADER != p
  {
  }

  lemma NewArrayOK(h1: Heap, h2: Heap, a: nat, elems: nat, n: nat, es: nat)
    requires a > HEADER && elems > 16 && es > 0 && HeapOK(h2)
    requires Grant(elems - 16, 16 + Span(n, es)) in h2.grants && Grant(a - HEADER, HEADER + REPR) in h2.grants
    requires ElemPtr(h2.mem, a) == elems && MemObj(h2.mem, a) == elems - 8 
      && Length(h2.mem, a) == n == Capacity(h2.mem, a)
    ensures ArrayOK(h2, a, Shape(es, elems - 16, n, 0))
  {
    hide Word, HeapOK;
  }

  lemma NewWorld(w: World, w': World, a: nat)
    requires WorldOK(w) && HeapOK(w'.h) && a in w'.arrays && a - HEADER != w'.arrays[a].buf
    requires w'.arrays == w.arrays[a := w'.arrays[a]]
    requires forall b | b in w.arrays :: b != a && w.arrays[b].buf != a - HEADER
    requires forall b | b in w.arrays :: b - HEADER != w'.arrays[a].buf && w.arrays[b].buf != w'.arrays[a].buf
    requires ArrayOK(w'.h, a, w'.arrays[a])
    requires forall b | b in w.arrays ::
      ArrayOK(w'.h, b, w.arrays[b]) && Items(w'.h.mem, b, w.arrays[b].es) == Items(w.h.mem, b, w.arrays[b].es)
    ensures WorldOK(w') && a !in View(w) && a in View(w') && View(w') == View(w)[a := View(w')[a]]
    ensures |View(w')[a]| == Length(w'.h.mem, a)
  {
    hide HeapOK, ArrayOK, Items, View, Separate;
    SeparateWith(w.arrays, w'.arrays, a);
    ViewAt(w', a);
    ViewWith(w, w', a);
  }

  lemma SeparateWith(x: map<nat, Shape>, y: map<nat, Shape>, a: nat)
    requires Separate(x) && a in y && a - HEADER != y[a].buf && y == x[a := y[a]]
    requires forall b | b in x :: b != a && x[b].buf != a - HEADER && b - HEADER != y[a].buf && x[b].buf != y[a].buf
    ensures Separate(y)
  {
  }

  lemma ViewWith(w: World, w': World, a: nat)
    requires a !in w.arrays && a in w'.arrays && w'.arrays == w.arrays[a := w'.arrays[a]]
    requires forall b | b in w.arrays :: Items(w'.h.mem, b, w.arrays[b].es) == Items(w.h.mem, b, w.arrays[b].es)
    ensures a !in View(w) && a in View(w') && View(w') == View(w)[a := View(w')[a]]
  {
    hide Items;
  }

  // ---- runs ----

  /** Whatever the operation, the heap stays sound and programs see it done on plain sequences. */
  lemma StepRefines(w: World, op: Op)
    requires WorldOK(w) && Allowed(w, op) && Do(w, op).Some?
    ensures var w' := Do(w, op).value; WorldOK(w') && OnSequences(View(w), op, View(w'))
  {
    hide WorldOK, Items, Usable, HeapOK, Word, Span, DelEnd, CompactFront, SetItem;
    match op
    case New(_, _, _, _, _, _) => NewRefines(w, op);
    case Grow(a, delta, base) =>
      if delta > 0 { GrowRefines(w, a, delta, base); } else { NoGrowth(w, a, delta, base); }
    case Shrink(a, dec) => ShrinkRefines(w, a, dec);
    case ResizeTo(_, _, _) => ResizeRefines(w, op);
    case Compact(a, drop) => CompactRefines(w, a, drop);
    case Assign(a, i, e) => AssignRefines(w, a, i, e);
  }

  lemma NoGrowth(w: World, a: nat, delta: int, base: nat)
    requires a in w.arrays && Offered(base, ALIGN) && delta <= 0
    ensures GrowBy(w, a, delta, base) == Some(w) && Extended(View(w), View(w), a, |View(w)[a]|)
  {
    hide Items, Bump;
  }

  /** A run from the empty heap, with every world passed through. */
  ghost predicate IsRun(ws: seq<World>, ops: seq<Op>) {
    && |ws| == |ops| + 1
    && ws[0].arrays == map[] && ws[0].h.arena == EMPTY && ws[0].h.grants == []
    && forall i | 0 <= i < |ops| :: Allowed(ws[i], ops[i]) && Do(ws[i], ops[i]) == Some(ws[i + 1])
  }

  /** Every run: each world is sound, and each step is a step on sequences. */
  lemma {:induction false} RunRefines(ws: seq<World>, ops: seq<Op>, n: nat)
    requires IsRun(ws, ops) && n <= |ops|
    ensures WorldOK(ws[n])
    ensures forall i | 0 <= i < n :: OnSequences(View(ws[i]), ops[i], View(ws[i + 1]))
  {
    hide WorldOK, OnSequences, Allowed, Do;
    if n == 0 {
      EmptyOK(ws[0]);
    } else {
      RunRefines(ws, ops, n - 1);
      assert Allowed(ws[n - 1], ops[n - 1]) && Do(ws[n - 1], ops[n - 1]) == Some(ws[n - 1 + 1]);
      StepRefines(ws[n - 1], ops[n - 1]);
    }
  }

  lemma EmptyOK(w: World)
    requires w.arrays == map[] && w.h.arena == EMPTY && w.h.grants == []
    ensures WorldOK(w)
  {
  }
}

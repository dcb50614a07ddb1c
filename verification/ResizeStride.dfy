/** resize! as it is compiled: the call site passes stride eight, whatever the elements are.  When the
    elements are kept, and when bytes of other objects are read or zeroed. */
module ResizeStride {
  import opened Wrappers
  import opened Words
  import opened Arena
  import opened Heap
  import opened Arrays
  import opened ArrayOps
  import opened ArrayRuns

  /** The stride argument of every compiled resize!. */
  const CALL_STRIDE: nat := 8

  // ---- one byte of an element ----

  lemma ItemByte(m: Mem, p: nat, es: nat, n: nat, k: nat)
    requires es > 0 && k < n * es
    ensures k / es < n && ItemsAt(m, p, es, n)[k / es][k % es] == m(p + k)
  {
    assert k == (k / es) * es + k % es;
    if k / es >= n { MulMono(n, k / es, es); }
  }

  lemma ArrayAnyMemory(h: Heap, m: Mem, a: nat, s: Shape)
    requires ArrayOK(h, a, s) && SameOn(h.mem, m, a, REPR)
    ensures ArrayOK(h.(mem := m), a, s)
    ensures ElemPtr(m, a) == ElemPtr(h.mem, a) && Length(m, a) == Length(h.mem, a)
  {
    hide Word, SameOn;
    HeaderSame(h.mem, m, a);
  }

  // ---- growth ----

  /** A resize to n succeeds, and what was visible is a prefix of what is. */
  ghost predicate KeepsPrefix(h: Heap, a: nat, es: nat, n: nat, base: nat)
    requires Offered(base, ALIGN)
  {
    match Resize(h, a, n, CALL_STRIDE, base)
    case None => false
    case Some(h') => Items(h.mem, a, es) <= Items(h'.mem, a, es)
  }

  /** Whatever memory holds outside the array's own header. */
  ghost predicate AlwaysKeepsPrefix(h: Heap, a: nat, es: nat, n: nat, base: nat)
    requires Offered(base, ALIGN)
  {
    forall m: Mem | SameOn(h.mem, m, a, REPR) :: KeepsPrefix(h.(mem := m), a, es, n, base)
  }

  ghost predicate GrowthReady(h: Heap, a: nat, s: Shape, n: nat, base: nat) {
    && HeapOK(h) && ArrayOK(h, a, s) && a - HEADER != s.buf && n > Length(h.mem, a)
    && Usable(h, base, 16 + Span(n, CALL_STRIDE)) && Resize(h, a, n, CALL_STRIDE, base).Some?
  }

  /** Where the new Memory object goes does not depend on memory's contents. */
  lemma GrowthRegion(h: Heap, a: nat, s: Shape, n: nat, base: nat) returns (p: nat)
    requires GrowthReady(h, a, s, n, base)
    ensures Clear(h, p, 16 + Span(n, CALL_STRIDE)) && p + 16 < Limit() && n < Limit()
    ensures Resize(h, a, n, CALL_STRIDE, base).value.grants == h.grants + [Grant(p, 16 + Span(n, CALL_STRIDE))]
    ensures HeapOK(Resize(h, a, n, CALL_STRIDE, base).value)
    ensures forall m: Mem | SameOn(h.mem, m, a, REPR) ::
      && Resize(h.(mem := m), a, n, CALL_STRIDE, base).Some?
      && Resize(h.(mem := m), a, n, CALL_STRIDE, base).value.mem == GrowMem(m, a, p, n, CALL_STRIDE)
  {
    hide Word, GrowMem, Limit, Inv, GrantsApart, Bump;
    var total := 16 + Span(n, CALL_STRIDE);
    AllocSafe(h, total, base);
    var (h1, q) := BumpAlloc(h, total, base).value;
    p := q;
    assert Grant(p, total) in h1.grants;
    GrantBound(h1, Grant(p, total));
    forall m: Mem | SameOn(h.mem, m, a, REPR)
      ensures Resize(h.(mem := m), a, n, CALL_STRIDE, base).Some?
      ensures Resize(h.(mem := m), a, n, CALL_STRIDE, base).value.mem == GrowMem(m, a, p, n, CALL_STRIDE)
    {
      ArrayAnyMemory(h, m, a, s);
    }
  }

  lemma PrefixKept(h: Heap, a: nat, s: Shape, n: nat, base: nat)
    requires GrowthReady(h, a, s, n, base) && (s.es <= CALL_STRIDE || Length(h.mem, a) == 0)
    ensures AlwaysKeepsPrefix(h, a, s.es, n, base)
  {
    hide Word, GrowMem, Limit, Items, Resize, HeapOK, SameOn, ArrayOK, Span;
    var p := GrowthRegion(h, a, s, n, base);
    forall m: Mem | SameOn(h.mem, m, a, REPR) ensures KeepsPrefix(h.(mem := m), a, s.es, n, base) {
      ArrayAnyMemory(h, m, a, s);
      GrowItems(h.(mem := m), a, s, p, n, CALL_STRIDE);
    }
  }

  /** Memory that tells the byte where the copy stops from the byte where it should have gone. */
  function Marked(m: Mem, x: nat, y: nat): Mem {
    Put(Put(m, x, [1]), y, [0])
  }

  /** The first byte beyond a copy that is too short. */
  lemma StopByte(m: Mem, a: nat, s: Shape, p: nat, n: nat)
    requires s.es > CALL_STRIDE && 0 < Length(m, a) < n < Limit() && p + 16 < Limit()
    requires var k := Span(Length(m, a), CALL_STRIDE);
      m(ElemPtr(m, a) + k) == 1 && m(p + 16 + k) == 0 && !(a <= p + 16 + k < a + REPR)
    ensures !(Items(m, a, s.es) <= Items(GrowMem(m, a, p, n, CALL_STRIDE), a, s.es))
  {
    hide Word, GrowMem, Limit, ItemsAt;
    var len, m' := Length(m, a), GrowMem(m, a, p, n, CALL_STRIDE);
    var k := Span(len, CALL_STRIDE);
    MulMono(CALL_STRIDE + 1, s.es, len);
    MulMono(len, n, s.es);
    GrowHeader(m, a, p, n, CALL_STRIDE);
    GrowKeeps(m, a, p, n, CALL_STRIDE, p + 16 + k);
    ItemByte(m, ElemPtr(m, a), s.es, len, k);
    ItemByte(m', p + 16, s.es, n, k);
  }

  lemma PrefixLost(h: Heap, a: nat, s: Shape, n: nat, base: nat)
    requires GrowthReady(h, a, s, n, base) && s.es > CALL_STRIDE && Length(h.mem, a) > 0
    ensures !AlwaysKeepsPrefix(h, a, s.es, n, base)
  {
    hide Word, GrowMem, Limit, Resize, HeapOK, Items, Put;
    var p := GrowthRegion(h, a, s, n, base);
    var len := Length(h.mem, a);
    var k := Span(len, CALL_STRIDE);
    var x, y := ElemPtr(h.mem, a) + k, p + 16 + k;
    MulMono(CALL_STRIDE + 1, s.es, len);
    MulMono(len + 1, n, CALL_STRIDE);
    SourceApart(h, a, s, p, 16 + Span(n, CALL_STRIDE));
    OwnRegions(h, a, s);
    ElementsInside(h, a, s);
    var m := Marked(h.mem, x, y);
    MarkedBytes(h.mem, x, y, a);
    ArrayAnyMemory(h, m, a, s);
    StopByte(m, a, s, p, n);
    assert !KeepsPrefix(h.(mem := m), a, s.es, n, base);
  }

  lemma MarkedBytes(m: Mem, x: nat, y: nat, a: nat)
    requires x != y && !(a <= x < a + REPR) && !(a <= y < a + REPR)
    ensures Marked(m, x, y)(x) == 1 && Marked(m, x, y)(y) == 0 && SameOn(m, Marked(m, x, y), a, REPR)
  {
  }

  /** Growth by resize!, in any world: the old elements are a prefix of the new ones, whatever memory
      holds, exactly when elements are no wider than eight bytes or there are none; the copy reads inside
      the old buffer exactly when eight bytes an element fit it; the new elements fit the new buffer
      exactly when they are no wider than eight bytes; and no other array changes. */
  lemma GrowsExactly(w: World, a: nat, n: nat, base: nat)
    requires WorldOK(w) && a in w.arrays && n > Length(w.h.mem, a) && Usable(w.h, base, 16 + Span(n, CALL_STRIDE))
    requires Resize(w.h, a, n, CALL_STRIDE, base).Some?
    ensures var s, len := w.arrays[a], Length(w.h.mem, a);
      var h' := Resize(w.h, a, n, CALL_STRIDE, base).value;
      && (AlwaysKeepsPrefix(w.h, a, s.es, n, base) <==> s.es <= CALL_STRIDE || len == 0)
      && (ElemPtr(w.h.mem, a) + Span(len, CALL_STRIDE) <= s.buf + BufSize(s)
          <==> s.off * s.es + CALL_STRIDE * len <= s.cap * s.es)
      && |h'.grants| > 0
      && var g := h'.grants[|h'.grants| - 1];
        && ElemPtr(h'.mem, a) == g.addr + 16 && Length(h'.mem, a) == n
        && (ElemPtr(h'.mem, a) + Span(n, s.es) <= g.addr + g.size <==> s.es <= CALL_STRIDE)
        && forall b | b in w.arrays && b != a ::
            ArrayOK(h', b, w.arrays[b]) && Items(h'.mem, b, w.arrays[b].es) == Items(w.h.mem, b, w.arrays[b].es)
  {
    hide Word, Limit, Resize, HeapOK, Items, AlwaysKeepsPrefix, ArrayOK, Clear, FreshBlock, Space, Span;
    var s, len := w.arrays[a], Length(w.h.mem, a);
    assert GrowthReady(w.h, a, s, n, base);
    if s.es <= CALL_STRIDE || len == 0 { PrefixKept(w.h, a, s, n, base); } else { PrefixLost(w.h, a, s, n, base); }
    SourceRead(w.h, a, s);
    NewBuffer(w.h, a, s, n, base);
    OthersKept(w, a, n, base);
  }

  lemma SourceRead(h: Heap, a: nat, s: Shape)
    requires ArrayOK(h, a, s)
    ensures var k := Span(Length(h.mem, a), CALL_STRIDE);
      ElemPtr(h.mem, a) + k <= s.buf + BufSize(s) <==> s.off * s.es + k <= s.cap * s.es
  {
    hide Word;
  }

  lemma NewBuffer(h: Heap, a: nat, s: Shape, n: nat, base: nat)
    requires GrowthReady(h, a, s, n, base)
    ensures var h' := Resize(h, a, n, CALL_STRIDE, base).value;
      && |h'.grants| > 0
      && var g := h'.grants[|h'.grants| - 1];
        && ElemPtr(h'.mem, a) == g.addr + 16 && Length(h'.mem, a) == n
        && (ElemPtr(h'.mem, a) + Span(n, s.es) <= g.addr + g.size <==> s.es <= CALL_STRIDE)
  {
    hide Word, GrowMem, Limit, Resize, HeapOK, ArrayOK;
    var p := GrowthRegion(h, a, s, n, base);
    GrowHeader(h.mem, a, p, n, CALL_STRIDE);
    assert h.(mem := h.mem) == h;
    SpanOrder(s.es, CALL_STRIDE, n);
  }

  lemma OthersKept(w: World, a: nat, n: nat, base: nat)
    requires WorldOK(w) && a in w.arrays && GrowthReady(w.h, a, w.arrays[a], n, base)
    ensures var h' := Resize(w.h, a, n, CALL_STRIDE, base).value;
      forall b | b in w.arrays && b != a ::
        ArrayOK(h', b, w.arrays[b]) && Items(h'.mem, b, w.arrays[b].es) == Items(w.h.mem, b, w.arrays[b].es)
  {
    hide Word, GrowMem, Limit, Resize, HeapOK, Items, ArrayOK, Confined, Clear;
    var p := GrowthRegion(w.h, a, w.arrays[a], n, base);
    assert w.h.(mem := w.h.mem) == w.h;
    var h' := Resize(w.h, a, n, CALL_STRIDE, base).value;
    GrowConfined(w.h.mem, a, w.arrays[a], p, n, CALL_STRIDE);
    forall b | b in w.arrays && b != a
      ensures ArrayOK(h', b, w.arrays[b]) && Items(h'.mem, b, w.arrays[b].es) == Items(w.h.mem, b, w.arrays[b].es)
    {
      OtherKept(w, h', a, b, p, 16 + Span(n, CALL_STRIDE));
    }
  }

  // ---- shrinking ----

  /** A resize to n keeps the first n elements, and changes nothing outside the header and the buffer. */
  ghost predicate KeepsFront(h: Heap, a: nat, s: Shape, n: nat, base: nat)
    requires Offered(base, ALIGN) && n <= Length(h.mem, a)
  {
    match Resize(h, a, n, CALL_STRIDE, base)
    case None => false
    case Some(h') =>
      Items(h'.mem, a, s.es) == Items(h.mem, a, s.es)[..n] && Confined(h.mem, h'.mem, a, s, 0, 0)
  }

  /** Whatever memory holds outside the array's own header. */
  ghost predicate AlwaysKeepsFront(h: Heap, a: nat, s: Shape, n: nat, base: nat)
    requires Offered(base, ALIGN)
  {
    forall m: Mem | SameOn(h.mem, m, a, REPR) ::
      n <= Length(m, a) && KeepsFront(h.(mem := m), a, s, n, base)
  }

  /** The zeroed bytes end inside the buffer, and start behind the elements that remain. */
  predicate TailFits(s: Shape, len: nat, n: nat) {
    s.off * s.es + CALL_STRIDE * len <= s.cap * s.es && (n == 0 || s.es <= CALL_STRIDE)
  }

  lemma ShrinkIs(h: Heap, a: nat, s: Shape, n: nat, base: nat)
    requires ArrayOK(h, a, s) && n < Length(h.mem, a) && Offered(base, ALIGN)
    ensures Resize(h, a, n, CALL_STRIDE, base)
      == Some(h.(mem := DelMem(h.mem, a, n, Length(h.mem, a) - n, CALL_STRIDE)))
  {
    hide Word, DelMem, DelEnd;
    DelDefines(h, a, Length(h.mem, a) - n, CALL_STRIDE);
  }

  lemma FrontKept(h: Heap, a: nat, s: Shape, n: nat, base: nat)
    requires HeapOK(h) && ArrayOK(h, a, s) && a - HEADER != s.buf && n < Length(h.mem, a) && Offered(base, ALIGN)
    requires TailFits(s, Length(h.mem, a), n)
    ensures AlwaysKeepsFront(h, a, s, n, base)
  {
    hide Word, DelMem, Limit, Items, Resize, HeapOK, SameOn, ArrayOK, Confined;
    var d := Length(h.mem, a) - n;
    OwnRegions(h, a, s);
    LengthBound(h, a, s);
    forall m: Mem | SameOn(h.mem, m, a, REPR)
      ensures n <= Length(m, a) && KeepsFront(h.(mem := m), a, s, n, base)
    {
      var g := h.(mem := m);
      ArrayAnyMemory(h, m, a, s);
      ShrinkIs(g, a, s, n, base);
      TailPlaced(g, a, s, n, d);
      DelItems(g, a, s, n, d, CALL_STRIDE);
      DelConfined(g, a, s, n, d, CALL_STRIDE);
    }
  }

  lemma TailPlaced(h: Heap, a: nat, s: Shape, n: nat, d: nat)
    requires ArrayOK(h, a, s) && n + d == Length(h.mem, a)
    ensures TailInside(h, a, s, n, d, CALL_STRIDE)
      <==> s.off * s.es + CALL_STRIDE * Length(h.mem, a) <= s.cap * s.es
    ensures n == 0 || s.es <= CALL_STRIDE ==> Span(n, s.es) <= Span(n, CALL_STRIDE)
  {
    hide Word;
    if n > 0 { SpanOrder(s.es, CALL_STRIDE, n); }
  }

  // ---- shrinking that fails ----

  /** Every zeroed byte lies in the array's own header. */
  predicate InOwnHeader(h: Heap, a: nat, n: nat) {
    var p := ElemPtr(h.mem, a);
    a <= p + CALL_STRIDE * n && p + CALL_STRIDE * Length(h.mem, a) <= a + REPR
  }

  /** What a zeroed byte ends up as depends on the header alone. */
  lemma ZeroedByte(m: Mem, m': Mem, a: nat, n: nat, d: nat, x: nat)
    requires SameOn(m, m', a, REPR) && ElemPtr(m, a) != 0
    requires var q := ElemPtr(m, a) + Span(n, CALL_STRIDE); q <= x < q + Span(d, CALL_STRIDE)
    ensures DelMem(m', a, n, d, CALL_STRIDE)(x) == DelMem(m, a, n, d, CALL_STRIDE)(x)
  {
    hide Word, BytesOf, Span;
    HeaderSame(m, m', a);
    var q, k := ElemPtr(m, a) + Span(n, CALL_STRIDE), Span(d, CALL_STRIDE);
    var m1, m1' := Put(m, q, Zeros(k)), Put(m', q, Zeros(k));
    var m2, m2' := PutWord(m1, a + 16, n), PutWord(m1', a + 16, n);
    assert SameOn(m2, m2', a, REPR);
    HeaderSame(m2, m2', a);
  }

  /** Memory in which byte x is not what a shrink leaves there. */
  function Unlike(m: Mem, a: nat, n: nat, d: nat, x: nat): Mem {
    Put(m, x, [if DelMem(m, a, n, d, CALL_STRIDE)(x) == 0 then 1 else 0])
  }

  lemma UnlikeChanges(m: Mem, a: nat, n: nat, d: nat, x: nat)
    requires !(a <= x < a + REPR) && ElemPtr(m, a) != 0
    requires var q := ElemPtr(m, a) + Span(n, CALL_STRIDE); q <= x < q + Span(d, CALL_STRIDE)
    ensures var m' := Unlike(m, a, n, d, x);
      SameOn(m, m', a, REPR) && DelMem(m', a, n, d, CALL_STRIDE)(x) != m'(x)
  {
    hide Word, DelMem, Span;
    ZeroedByte(m, Unlike(m, a, n, d, x), a, n, d, x);
  }

  /** If the zeroed bytes leave the buffer, one of them is in neither buffer nor header. */
  lemma StrayByte(h: Heap, a: nat, s: Shape, n: nat) returns (x: nat)
    requires HeapOK(h) && ArrayOK(h, a, s) && a - HEADER != s.buf && n < Length(h.mem, a) && !InOwnHeader(h, a, n)
    requires s.off * s.es + CALL_STRIDE * Length(h.mem, a) > s.cap * s.es
    ensures ElemPtr(h.mem, a) + CALL_STRIDE * n <= x < ElemPtr(h.mem, a) + CALL_STRIDE * Length(h.mem, a)
    ensures !(a <= x < a + REPR) && !(s.buf <= x < s.buf + BufSize(s))
  {
    hide Word, HeapOK;
    OwnRegions(h, a, s);
    ElementsInside(h, a, s);
    var end := ElemPtr(h.mem, a) + CALL_STRIDE * Length(h.mem, a);
    x := if a < end <= a + REPR then a - 1 else end - 1;
  }

  lemma Strays(h: Heap, a: nat, s: Shape, n: nat, base: nat)
    requires HeapOK(h) && ArrayOK(h, a, s) && a - HEADER != s.buf && n < Length(h.mem, a) && Offered(base, ALIGN)
    requires !InOwnHeader(h, a, n) && s.off * s.es + CALL_STRIDE * Length(h.mem, a) > s.cap * s.es
    ensures !AlwaysKeepsFront(h, a, s, n, base)
  {
    hide Word, DelMem, HeapOK, Items, Resize, Unlike;
    var d := Length(h.mem, a) - n;
    var x := StrayByte(h, a, s, n);
    ElementsInside(h, a, s);
    UnlikeChanges(h.mem, a, n, d, x);
    var m := Unlike(h.mem, a, n, d, x);
    ArrayAnyMemory(h, m, a, s);
    ShrinkIs(h.(mem := m), a, s, n, base);
    assert !Confined(m, DelMem(m, a, n, d, CALL_STRIDE), a, s, 0, 0);
    assert !KeepsFront(h.(mem := m), a, s, n, base);
  }

  /** Elements wider than eight bytes: zeroing starts inside those that should remain. */
  lemma FrontLost(h: Heap, a: nat, s: Shape, n: nat, base: nat)
    requires HeapOK(h) && ArrayOK(h, a, s) && a - HEADER != s.buf && n < Length(h.mem, a) && Offered(base, ALIGN)
    requires n > 0 && s.es > CALL_STRIDE && s.off * s.es + CALL_STRIDE * Length(h.mem, a) <= s.cap * s.es
    ensures !AlwaysKeepsFront(h, a, s, n, base)
  {
    hide Word, DelMem, HeapOK, Items, Resize, Limit;
    var d, p := Length(h.mem, a) - n, ElemPtr(h.mem, a);
    var k := CALL_STRIDE * n;
    OwnRegions(h, a, s);
    LengthBound(h, a, s);
    ElementsInside(h, a, s);
    SpanOrder(CALL_STRIDE + 1, s.es, n);
    SpanOrder(n + 1, Length(h.mem, a), s.es);
    var m := Put(h.mem, p + k, [1]);
    PutElsewhere(h.mem, p + k, [1], a, REPR);
    ArrayAnyMemory(h, m, a, s);
    ShrinkIs(h.(mem := m), a, s, n, base);
    FrontByte(h.(mem := m), a, s, n, d);
    assert !KeepsFront(h.(mem := m), a, s, n, base);
  }

  lemma FrontByte(h: Heap, a: nat, s: Shape, n: nat, d: nat)
    requires ArrayOK(h, a, s) && OwnApart(a, s) && n + d == Length(h.mem, a) && n < Limit() && d > 0
    requires n > 0 && s.es > CALL_STRIDE && TailInside(h, a, s, n, d, CALL_STRIDE)
    requires h.mem(ElemPtr(h.mem, a) + CALL_STRIDE * n) != 0
    ensures Items(DelMem(h.mem, a, n, d, CALL_STRIDE), a, s.es) != Items(h.mem, a, s.es)[..n]
  {
    hide Word, DelMem, Limit, ItemsAt;
    var m', p, k := DelMem(h.mem, a, n, d, CALL_STRIDE), ElemPtr(h.mem, a), CALL_STRIDE * n;
    SpanOrder(CALL_STRIDE + 1, s.es, n);
    ElementsInside(h, a, s);
    DelHeader(h, a, s, n, d, CALL_STRIDE);
    DelBytes(h, a, s, n, d, CALL_STRIDE, p + k);
    ItemByte(m', p, s.es, n, k);
    ItemByte(h.mem, p, s.es, n, k);
    ItemsPrefix(h.mem, p, s.es, n, Length(h.mem, a));
  }

  /** Shrinking by resize!, in any world: if eight bytes an element fit the rest of the buffer and the
      elements that remain are no wider than that, the front is kept and nothing else is touched,
      whatever memory holds; if not, some contents are damaged, unless what is zeroed is part of the
      array's own header. */
  lemma ShrinksExactly(w: World, a: nat, n: nat, base: nat)
    requires WorldOK(w) && a in w.arrays && n < Length(w.h.mem, a) && Offered(base, ALIGN)
    ensures var s, len := w.arrays[a], Length(w.h.mem, a);
      && (TailFits(s, len, n) ==> AlwaysKeepsFront(w.h, a, s, n, base))
      && (!InOwnHeader(w.h, a, n) ==> (AlwaysKeepsFront(w.h, a, s, n, base) <==> TailFits(s, len, n)))
  {
    hide Word, HeapOK, AlwaysKeepsFront, InOwnHeader, ArrayOK;
    var s, len := w.arrays[a], Length(w.h.mem, a);
    if TailFits(s, len, n) {
      FrontKept(w.h, a, s, n, base);
    } else if !InOwnHeader(w.h, a, n) {
      if s.off * s.es + CALL_STRIDE * len <= s.cap * s.es { FrontLost(w.h, a, s, n, base); }
      else { Strays(w.h, a, s, n, base); }
    }
  }

  // ---- wherever the array lies ----

  predicate HasForm(w: World, a: nat, es: nat, cap: nat, off: nat, len: nat) {
    && a in w.arrays && w.arrays[a].es == es && w.arrays[a].cap == cap && w.arrays[a].off == off
    && Length(w.h.mem, a) == len
  }

  /** Every array of this stride, capacity, drift and length. */
  ghost predicate AnyKeepsFront(es: nat, cap: nat, off: nat, len: nat, n: nat, base: nat)
    requires Offered(base, ALIGN)
  {
    forall w: World, a: nat | WorldOK(w) && HasForm(w, a, es, cap, off, len) ::
      AlwaysKeepsFront(w.h, a, w.arrays[a], n, base)
  }

  const LOW: nat := 16
  const HIGH: nat := 131072

  /** One array, with its header in a block below its buffer's. */
  function HeaderBelow(es: nat, cap: nat, off: nat, len: nat): World {
    var size := 16 + Span(cap, es);
    var block := Max(DEFAULT_BLOCK_SIZE, size);
    var a := LOW + HEADER;
    var m: Mem := i => 0;
    World(Heap(PutHeader(m, a, HIGH + 16 + Span(off, es), HIGH + 8, len, cap),
               Arena.State([Block(LOW, DEFAULT_BLOCK_SIZE, ALIGN), Block(HIGH, block, ALIGN)],
                           HIGH + size, block - size, HEADER + REPR + size),
               [Grant(LOW, HEADER + REPR), Grant(HIGH, size)]),
          map[a := Shape(es, HIGH, cap, off)])
  }

  lemma HeaderBelowHeap(es: nat, cap: nat, off: nat, len: nat)
    requires HIGH + DEFAULT_BLOCK_SIZE + 16 + Span(cap, es) < Space()
    ensures HeapOK(HeaderBelow(es, cap, off, len).h)
  {
    hide PutHeader, Space, Span;
    var h := HeaderBelow(es, cap, off, len).h;
    SumSnoc([], h.grants[0]);
    SumSnoc([h.grants[0]], h.grants[1]);
    assert [] + [h.grants[0]] == [h.grants[0]] && [h.grants[0]] + [h.grants[1]] == h.grants;
    assert Within(h.grants[0], h.arena.blocks[0]) && Within(h.grants[1], h.arena.blocks[1]);
    assert Placed(h.arena, h.grants[0]) && Placed(h.arena, h.grants[1]);
  }

  lemma HeaderBelowOK(es: nat, cap: nat, off: nat, len: nat)
    requires es > 0 && off + len <= cap && HIGH + DEFAULT_BLOCK_SIZE + 16 + Span(cap, es) < Space()
    ensures var w := HeaderBelow(es, cap, off, len);
      WorldOK(w) && HasForm(w, LOW + HEADER, es, cap, off, len) && ElemPtr(w.h.mem, LOW + HEADER) >= HIGH
  {
    hide Space, Limit, PutHeader, Word, HeapOK;
    HeaderBelowHeap(es, cap, off, len);
    MulMono(off, cap, es);
    MulGrowsBy(cap, es);
    SpaceTwice();
    var m: Mem := i => 0;
    HeaderPut(m, LOW + HEADER, HIGH + 16 + Span(off, es), HIGH + 8, len, cap);
  }

  /** resize! shrinks every array of a form correctly exactly when the tail fits. */
  lemma ShrinksAnywhereExactly(es: nat, cap: nat, off: nat, len: nat, n: nat, base: nat)
    requires es > 0 && off + len <= cap && n < len && Offered(base, ALIGN)
    requires HIGH + DEFAULT_BLOCK_SIZE + 16 + Span(cap, es) < Space()
    ensures AnyKeepsFront(es, cap, off, len, n, base) <==> TailFits(Shape(es, HIGH, cap, off), len, n)
  {
    hide WorldOK, AlwaysKeepsFront, Space, HeaderBelow, Span;
    var w, a := HeaderBelow(es, cap, off, len), LOW + HEADER;
    HeaderBelowOK(es, cap, off, len);
    if TailFits(Shape(es, HIGH, cap, off), len, n) {
      forall v: World, b: nat | WorldOK(v) && HasForm(v, b, es, cap, off, len)
        ensures AlwaysKeepsFront(v.h, b, v.arrays[b], n, base)
      {
        ShrinksExactly(v, b, n, base);
      }
    } else {
      ShrinksExactly(w, a, n, base);
    }
  }
}
